/** The CRC check over the main header of an ACE file, read piece by piece. */
module AceHeader {
  import opened BitOps
  import opened ByteFiles
  import opened Bytes
  import opened Crc32

  const CRC_MASK: Word := 0xFFFFFFFF

  /** HEAD_CRC and HEAD_SIZE, which the CRC leaves out. */
  const PREFIX: nat := 4

  /** The header's fixed part up to AVSIZE. */
  const FIXED: nat := 31

  /** "**ACE**" */
  const ACE_ID: seq<byte> := [42, 42, 65, 67, 69, 42, 42]

  predicate HasAceSign(data: seq<byte>) {
    14 <= |data| && data[4] == 0 && data[7..14] == ACE_ID
  }

  /** Bytes 4..end of the file. */
  function Covered(data: seq<byte>, end: nat): seq<byte>
    requires PREFIX <= end <= |data|
  {
    data[PREFIX..end]
  }

  /** hdrread bytes behind the prefix were read of the asked ones; if that is all of them, crc is theirs. */
  ghost predicate SoFar(data: seq<byte>, pos: nat, hdrread: nat, asked: nat, crc: Word) {
    PREFIX <= pos <= |data| && hdrread <= asked &&
    (PREFIX + asked <= |data| ==>
      hdrread == asked && pos == PREFIX + asked && crc == CrcBitwise(CRC_MASK, Covered(data, pos)))
  }

  /**
   Reads n bytes and takes the whole buffer into the CRC, short read or not. Where a read is short the
   buffer keeps what was in it.
   */
  method AddPiece(input: ByteFile, crctable: array<Word>, crc: Word, n: nat, before: nat -> byte, hdrread: nat, ghost asked: nat)
    returns (crc': Word, hdrread': nat, piece: seq<byte>)
    requires IsCrcTable(crctable[..]) && SoFar(input.data, input.pos, hdrread, asked, crc)
    modifies input`pos
    ensures |piece| == n && hdrread' >= hdrread
    ensures SoFar(input.data, input.pos, hdrread', asked + n, crc')
    ensures PREFIX + asked + n <= |input.data| ==> piece == input.data[PREFIX + asked..PREFIX + asked + n]
  {
    hide CrcBitwise, IsCrcTable;
    ghost var p := input.pos;
    var b := input.ReadUpTo(n);
    hdrread' := hdrread + |b|;
    piece := b + seq<byte>(n - |b|, before);
    crc' := GetCrc(crctable, crc, piece);
    if p + n <= |input.data| {
      assert piece == b == input.data[p..p + n];
      CoveredGrows(input.data, p, n);
      CrcConcat(CRC_MASK, Covered(input.data, p), piece);
    }
  }

  lemma CoveredGrows(data: seq<byte>, p: nat, n: nat)
    requires PREFIX <= p && p + n <= |data|
    ensures Covered(data, p) + data[p..p + n] == Covered(data, p + n)
  {
  }

  lemma Front(data: seq<byte>, hdr: seq<byte>, n: nat, crc: Word)
    requires 14 <= n <= |hdr| == FIXED && n == Min(FIXED, |data|) && hdr[..n] == data[..n]
    requires crc == CrcBitwise(CRC_MASK, hdr[PREFIX..n])
    ensures SoFar(data, n, n - PREFIX, FIXED - PREFIX, crc)
  {
    hide CrcBitwise;
    assert hdr[PREFIX..n] == hdr[..n][PREFIX..] == data[..n][PREFIX..] == Covered(data, n);
  }

  lemma Prefix(data: seq<byte>, hdr: seq<byte>)
    requires 14 <= |data| && 14 <= |hdr| && hdr[..14] == data[..14]
    ensures hdr[2..4] == data[2..4] && hdr[0..2] == data[0..2]
  {
    assert hdr[..14][2..4] == data[..14][2..4] && hdr[..14][0..2] == data[..14][0..2];
  }

  /** AVSIZE */
  function AvSize(data: seq<byte>): byte { if FIXED <= |data| then data[30] else 0 }

  /** The comment's length, in the two bytes behind the first n. */
  function CommentSize(data: seq<byte>, n: nat): nat {
    if PREFIX + n + 2 <= |data| then Val16(data[PREFIX + n..PREFIX + n + 2]) else 0
  }

  /** How many bytes behind the prefix belong to the header. */
  function HeaderLength(data: seq<byte>): nat
    requires HasAceSign(data)
  {
    var size := Val16(data[2..4]);
    Max(WithComment(data, size, FIXED - PREFIX + AvSize(data)), size)
  }

  /** A comment follows the first n bytes if the header is longer. */
  function WithComment(data: seq<byte>, size: nat, n: nat): nat {
    if n < size then n + 2 + CommentSize(data, n) else n
  }

  /** COMMENT_SIZE, which is zero before it is read, and the comment. */
  method AddComment(input: ByteFile, crctable: array<Word>, crc: Word, headSize: nat, malloced: nat -> byte, hdrread: nat, ghost asked: nat)
    returns (crc': Word, hdrread': nat, ghost asked': nat)
    requires IsCrcTable(crctable[..]) && SoFar(input.data, input.pos, hdrread, asked, crc)
    modifies input`pos
    ensures SoFar(input.data, input.pos, hdrread', asked', crc')
    ensures var n := WithComment(input.data, headSize, asked);
      PREFIX + n <= |input.data| ==> asked' == n
  {
    hide CrcBitwise, IsCrcTable, Val16, SoFar;
    SoFarFacts(input.data, input.pos, hdrread, asked, crc);
    crc', hdrread', asked' := crc, hdrread, asked;
    if hdrread < headSize {
      var piece;
      crc', hdrread', piece := AddPiece(input, crctable, crc', 2, i => 0, hdrread', asked);
      asked' := asked + 2;
      var commentSize := Val16(piece);
      assert PREFIX + asked + 2 <= |input.data| ==> commentSize == CommentSize(input.data, asked);
      if commentSize != 0 {
        crc', hdrread', piece := AddPiece(input, crctable, crc', commentSize, malloced, hdrread', asked');
        asked' := asked' + commentSize;
      }
    }
  }

  /**
   The check of recoverAce once the signature is there. For a file that reaches to the end of its
   header the CRC compared with HEAD_CRC is that of the header's bytes in one piece: the fixed part,
   the AV data, the comment if there is room for one, and whatever is left up to HEAD_SIZE.
   */
  method CheckAceHeader(input: ByteFile, crctable: array<Word>, malloced: nat -> byte) returns (ok: bool)
    requires IsCrcTable(crctable[..]) && input.pos == 0 && HasAceSign(input.data)
    modifies input`pos
    ensures var end := PREFIX + HeaderLength(input.data);
      end <= |input.data| ==>
        input.pos == end && (ok <==> Val16(input.data[0..2]) == CrcBitwise(CRC_MASK, Covered(input.data, end)) % TWO_16)
  {
    hide CrcBitwise, IsCrcTable, Val16, Covered, SoFar;
    ghost var data := input.data;
    var read := input.ReadUpTo(FIXED);
    var hdrread := |read| - PREFIX;
    var hdr := read + Zeros(FIXED - |read|);
    assert read == data[..|read|] && hdr[..|read|] == read;
    assert hdr[..14] == read[..14] == data[..14];
    Prefix(data, hdr);
    var headSize := Val16(hdr[2..4]);
    var headcrc := GetCrc(crctable, CRC_MASK, hdr[PREFIX..|read|]);
    ghost var asked := FIXED - PREFIX;
    assert SoFar(data, input.pos, hdrread, asked, headcrc) by { Front(data, hdr, |read|, headcrc); }
    assert FIXED <= |data| ==> hdr[30] == AvSize(data);
    var piece;
    if hdr[30] != 0 {
      headcrc, hdrread, piece := AddPiece(input, crctable, headcrc, hdr[30] as int, malloced, hdrread, asked);
      asked := asked + hdr[30] as int;
    }
    headcrc, hdrread, asked := AddComment(input, crctable, headcrc, headSize, malloced, hdrread, asked);
    SoFarFacts(data, input.pos, hdrread, asked, headcrc);
    if hdrread < headSize {
      var dumpSize := headSize - hdrread;
      headcrc, hdrread, piece := AddPiece(input, crctable, headcrc, dumpSize, malloced, hdrread, asked);
      asked := asked + dumpSize;
      SoFarFacts(data, input.pos, hdrread, asked, headcrc);
    }
    ok := Val16(hdr[0..2]) == headcrc % TWO_16;
  }

  lemma SoFarFacts(data: seq<byte>, pos: nat, hdrread: nat, asked: nat, crc: Word)
    requires SoFar(data, pos, hdrread, asked, crc)
    ensures hdrread <= asked
    ensures PREFIX + asked <= |data| ==> hdrread == asked && pos == PREFIX + asked && crc == CrcBitwise(CRC_MASK, Covered(data, pos))
  {
  }

  // ----- headers as they are written -----

  /** The main header behind HEAD_CRC: size, type 0, flags, sign, 16 bytes that are passed over, AV data, comment and the rest. */
  function HeaderBytes(size: nat, flags: seq<byte>, fixed: seq<byte>, av: seq<byte>, comment: seq<byte>, dump: seq<byte>): seq<byte>
    requires size < TWO_16 && |av| < 256 && |comment| < TWO_16
  {
    Le16(size) + ([0] + flags + [0x2A, 0x2A, 0x41, 0x43, 0x45, 0x2A, 0x2A] + fixed + [|av|] + av + Le16(|comment|) + comment + dump)
  }

  /**
   A written header whose size field counts everything behind it is recognised and measured right,
   whatever its AV data, its comment, what follows the comment and what follows the header.
   */
  lemma WrittenHeaderIsMeasured(crc: seq<byte>, flags: seq<byte>, fixed: seq<byte>, av: seq<byte>, comment: seq<byte>, dump: seq<byte>, tail: seq<byte>)
    requires |crc| == 2 && |flags| == 2 && |fixed| == 16 && |av| < 256 && |comment| < TWO_16
    requires 27 + |av| + 2 + |comment| + |dump| < TWO_16
    ensures var size := 27 + |av| + 2 + |comment| + |dump|;
      var header := HeaderBytes(size, flags, fixed, av, comment, dump);
      var data := crc + header + tail;
      && HasAceSign(data) && HeaderLength(data) == size && PREFIX + size == |crc + header|
      && Covered(data, PREFIX + size) == header[2..]
  {
    hide Val16, Le16;
    var size := 27 + |av| + 2 + |comment| + |dump|;
    var data := crc + HeaderBytes(size, flags, fixed, av, comment, dump) + tail;
    assert data[2..4] == Le16(size);
    assert data[4] == 0 && data[7..14] == ACE_ID;
    assert data[30] == |av|;
    var n := 27 + |av|;
    assert data[4 + n..6 + n] == Le16(|comment|);
  }

  /** So is one that ends with its AV data: what follows is not taken for a comment. */
  lemma HeaderWithoutComment(crc: seq<byte>, flags: seq<byte>, fixed: seq<byte>, av: seq<byte>, tail: seq<byte>)
    requires |crc| == 2 && |flags| == 2 && |fixed| == 16 && |av| < 256
    ensures var size := 27 + |av|;
      var header := Le16(size) + ([0] + flags + [0x2A, 0x2A, 0x41, 0x43, 0x45, 0x2A, 0x2A] + fixed + [|av|] + av);
      var data := crc + header + tail;
      && HasAceSign(data) && HeaderLength(data) == size && PREFIX + size == |crc + header|
      && Covered(data, PREFIX + size) == header[2..]
  {
    hide Val16, Le16;
    var size := 27 + |av|;
    var header := Le16(size) + ([0] + flags + [0x2A, 0x2A, 0x41, 0x43, 0x45, 0x2A, 0x2A] + fixed + [|av|] + av);
    var data := crc + header + tail;
    assert data[2..4] == Le16(size);
    assert data[4] == 0 && data[7..14] == ACE_ID;
    assert data[30] == |av|;
  }
}
