/** The file behind CFile and CSafeFile: its bytes and one cursor. */
module ByteFiles {
  import opened Bytes

  datatype ReadResult = Data(bytes: seq<byte>) | EndOfFile

  function Min(a: nat, b: nat): nat { if a <= b then a else b }

  function Max(a: nat, b: nat): nat { if a <= b then b else a }

  function Zeros(n: nat): (s: seq<byte>)
    ensures |s| == n && forall i :: 0 <= i < n ==> s[i] == 0
  {
    seq(n, i => 0)
  }

  /** The bytes after writing b at offset pos; a gap before pos reads as zeros. */
  function Overwrite(data: seq<byte>, pos: nat, b: seq<byte>): (d: seq<byte>)
    ensures |d| == Max(|data|, pos + |b|)
  {
    seq(Max(|data|, pos + |b|), i requires 0 <= i =>
      if pos <= i < pos + |b| then b[i - pos] else if i < |data| then data[i] else 0)
  }

  class ByteFile {
    var data: seq<byte>
    var pos: nat

    constructor (bytes: seq<byte>)
      ensures data == bytes && pos == 0
    {
      data, pos := bytes, 0;
    }

    /** CFile::Read: as many bytes as there are, up to n. */
    method ReadUpTo(n: nat) returns (b: seq<byte>)
      modifies this`pos
      ensures b == data[Min(old(pos), |data|)..Min(old(pos) + n, |data|)]
      ensures pos == if old(pos) <= |data| then old(pos) + |b| else old(pos)
    {
      b := data[Min(pos, |data|)..Min(pos + n, |data|)];
      pos := pos + |b|;
    }

    /** CSafeFile::Read: all n bytes, or the end-of-file exception with the cursor unmoved. */
    method Read(n: nat) returns (r: ReadResult)
      modifies this`pos
      ensures old(pos) + n <= |data| ==>
        r == Data(data[old(pos)..old(pos) + n]) && pos == old(pos) + n
      ensures old(pos) + n > |data| ==> r == EndOfFile && pos == old(pos)
    {
      if pos + n > |data| {
        r := EndOfFile;
      } else {
        r := Data(data[pos..pos + n]);
        pos := pos + n;
      }
    }

    method Write(b: seq<byte>)
      modifies this
      ensures data == Overwrite(old(data), old(pos), b)
      ensures pos == old(pos) + |b|
    {
      data := Overwrite(data, pos, b);
      pos := pos + |b|;
    }

    method Seek(p: nat)
      modifies this`pos
      ensures pos == p
    {
      pos := p;
    }

    /** CFile::SetLength: the cursor ends at the new end of the file. */
    method SetLength(n: nat)
      modifies this
      ensures data == if n <= |old(data)| then old(data)[..n] else old(data) + Zeros(n - |old(data)|)
      ensures pos == n
    {
      data := if n <= |data| then data[..n] else data + Zeros(n - |data|);
      pos := n;
    }
  }

  /** Writing over exactly the middle of three pieces replaces that piece and no other byte. */
  lemma OverwriteMiddle(a: seq<byte>, m: seq<byte>, z: seq<byte>, b: seq<byte>)
    requires |m| == |b|
    ensures Overwrite(a + m + z, |a|, b) == a + b + z
  {
    var d := a + m + z;
    assert d[..|a|] == a;
    assert d[|a| + |m|..] == z;
  }

  lemma AppendAtEnd(a: seq<byte>, b: seq<byte>)
    ensures Overwrite(a, |a|, b) == a + b
  {
  }
}
