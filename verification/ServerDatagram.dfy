/** Obfuscated server datagrams: scripts/probe_ed2k_servers.py. */
module ServerDatagram {
  import opened Wrappers
  import opened Bytes
  import opened Rc4

  const OP_EDONKEYPROT: byte := 0xE3
  const MAGIC_UDP_SYNC_SERVER: nat := 0x13EF24D5
  const MAGIC_UDP_CLIENT_SERVER: byte := 0x6B
  const CRYPT_HEADER_WITHOUT_PADDING: nat := 8

  type Digest = d: seq<byte> | d != [] witness [0]

  /** What MD5 hashes to get the key of one datagram; md5 itself stays abstract. */
  function KeyData(baseKey: nat, magic: byte, randomKeyPart: nat): seq<byte>
    requires baseKey < TWO_32 && randomKeyPart < TWO_16
  {
    Le32(baseKey) + [magic] + Le16(randomKeyPart)
  }

  function DatagramKey(md5: seq<byte> -> Digest, baseKey: nat, magic: byte, randomKeyPart: nat): (st: State)
    requires baseKey < TWO_32 && randomKeyPart < TWO_16
    ensures Valid(st)
  {
    StartState(md5(KeyData(baseKey, magic, randomKeyPart)), true)
  }

  /** Low four bits of a byte. */
  function LowNibble(b: byte): byte { b % 16 }

  /**
   The sender's side of the format: marker, key part, then enciphered the sync magic, a byte whose
   low nibble is the padding length, the padding, and the plain text.
   */
  function Datagram(key: State, marker: byte, randomKeyPart: nat, padByte: byte, padding: seq<byte>, plain: seq<byte>): seq<byte>
    requires Valid(key) && randomKeyPart < TWO_16
  {
    [marker] + Le16(randomKeyPart) + Crypt(key, Le32(MAGIC_UDP_SYNC_SERVER) + [padByte] + padding + plain)
  }

  /** decrypt_server_datagram on values; magic names the direction, as it does in _rc4_for. */
  function Decoded(md5: seq<byte> -> Digest, buf: seq<byte>, baseKey: nat, magic: byte): Option<seq<byte>>
    requires baseKey < TWO_32
  {
    if |buf| <= CRYPT_HEADER_WITHOUT_PADDING || baseKey == 0 then None
    else if buf[0] == OP_EDONKEYPROT then Some(buf)
    else
      var key := DatagramKey(md5, baseKey, magic, Val16(buf[1..3]));
      if Val32(Crypt(key, buf[3..7])) != MAGIC_UDP_SYNC_SERVER then None
      else
        var padding := LowNibble(Crypt(Skip(key, 4), buf[7..8])[0]);
        if |buf| - CRYPT_HEADER_WITHOUT_PADDING <= padding then None
        else Some(Crypt(Skip(key, 5 + padding), buf[8 + padding..]))
  }

  /**
   decrypt_server_datagram, with the cipher object moving along the buffer. The script calls it for
   the direction 0xA5, from server to client.
   */
  method DecryptServerDatagram(md5: seq<byte> -> Digest, buf: seq<byte>, baseKey: nat, direction: byte)
    returns (r: Option<seq<byte>>)
    requires baseKey < TWO_32
    ensures r == Decoded(md5, buf, baseKey, direction)
  {
    if |buf| <= CRYPT_HEADER_WITHOUT_PADDING || baseKey == 0 {
      return None;
    }
    if buf[0] == OP_EDONKEYPROT {
      return Some(buf);
    }
    var randomKeyPart := Val16(buf[1..3]);
    ghost var key := DatagramKey(md5, baseKey, direction, randomKeyPart);
    var rc4 := new RC4(md5(KeyData(baseKey, direction, randomKeyPart)), true);
    var sync := rc4.Encrypt(buf[3..7]);
    if Val32(sync) != MAGIC_UDP_SYNC_SERVER {
      return None;
    }
    var padByte := rc4.Encrypt(buf[7..8]);
    SkipSkip(key, 4, 1);
    var padding := LowNibble(padByte[0]);
    var remaining := |buf| - CRYPT_HEADER_WITHOUT_PADDING;
    if remaining <= padding {
      return None;
    }
    if padding != 0 {
      rc4.SkipBytes(padding);
      remaining := remaining - padding;
    }
    SkipSkip(key, 5, padding);
    var plain := rc4.Encrypt(buf[|buf| - remaining..]);
    r := Some(plain);
  }

  /** The marker sent: any byte but the one that starts a plain packet. */
  function Marker(random: byte): (m: byte)
    ensures m != OP_EDONKEYPROT
  {
    if random == OP_EDONKEYPROT then 0x01 else random
  }

  lemma NoPadding<T>(a: seq<T>, b: seq<T>)
    ensures a + [] + b == a + b
  {
  }

  /** encrypt_server_datagram: no padding; the two random draws are parameters. */
  method EncryptServerDatagram(md5: seq<byte> -> Digest, plain: seq<byte>, baseKey: nat, randomKeyPart: nat, randomMarker: byte)
    returns (d: seq<byte>)
    requires baseKey < TWO_32 && randomKeyPart < TWO_16
    ensures var key := DatagramKey(md5, baseKey, MAGIC_UDP_CLIENT_SERVER, randomKeyPart);
      d == Datagram(key, Marker(randomMarker), randomKeyPart, 0, [], plain)
  {
    var rc4 := new RC4(md5(KeyData(baseKey, MAGIC_UDP_CLIENT_SERVER, randomKeyPart)), true);
    var marker := randomMarker;
    if marker == OP_EDONKEYPROT {
      marker := 0x01;
    }
    var header := [marker] + Le16(randomKeyPart);
    var body := Le32(MAGIC_UDP_SYNC_SERVER) + [0] + plain;
    NoPadding(Le32(MAGIC_UDP_SYNC_SERVER) + [0], plain);
    var cipher := rc4.Encrypt(body);
    d := header + cipher;
  }

  /** Each part of an enciphered text deciphers from the state the cipher is then in. */
  lemma CryptSplit(key: State, a: seq<byte>, b: seq<byte>)
    requires Valid(key)
    ensures var e, n := Crypt(key, a + b), |a|;
      Crypt(key, e[..n]) == a && e[n..] == Crypt(Skip(key, n), b)
  {
    CryptConcat(key, a, b);
    CryptTwice(key, a);
    assert Crypt(key, a + b)[..|a|] == Crypt(key, a);
  }

  lemma CryptTail(key: State, a: seq<byte>, b: seq<byte>)
    requires Valid(key)
    ensures Crypt(Skip(key, |a|), Crypt(key, a + b)[|a|..]) == b
  {
    CryptSplit(key, a, b);
    CryptTwice(Skip(key, |a|), b);
  }

  lemma CryptMiddle(key: State, a: seq<byte>, m: seq<byte>, b: seq<byte>)
    requires Valid(key)
    ensures Crypt(Skip(key, |a|), Crypt(key, a + m + b)[|a|..|a| + |m|]) == m
  {
    hide Crypt, Skip;
    var n, e := |a| + |m|, Crypt(key, a + m + b);
    assert e[..n] == Crypt(key, a + m) by { CryptConcat(key, a + m, b); }
    assert e[|a|..n] == e[..n][|a|..];
    CryptTail(key, a, m);
  }

  lemma HeadPart(key: State, a: seq<byte>, m: seq<byte>, c: seq<byte>, d: seq<byte>)
    requires Valid(key)
    ensures Crypt(key, Crypt(key, a + m + c + d)[..|a|]) == a
  {
    hide Crypt, Skip, Valid;
    Regroup(a, m, c, d);
    CryptSplit(key, a, m + c + d);
  }

  lemma MiddlePart(key: State, a: seq<byte>, m: seq<byte>, c: seq<byte>, d: seq<byte>)
    requires Valid(key)
    ensures Crypt(Skip(key, |a|), Crypt(key, a + m + c + d)[|a|..|a| + |m|]) == m
  {
    hide Crypt, Skip, Valid;
    Regroup(a, m, c, d);
    CryptMiddle(key, a, m, c + d);
  }

  lemma TailPart(key: State, a: seq<byte>, m: seq<byte>, c: seq<byte>, d: seq<byte>)
    requires Valid(key)
    ensures var n := |a| + |m| + |c|;
      Crypt(Skip(key, n), Crypt(key, a + m + c + d)[n..]) == d
  {
    hide Crypt, Skip, Valid;
    CryptTail(key, a + m + c, d);
  }

  lemma Regroup<T>(a: seq<T>, b: seq<T>, c: seq<T>, d: seq<T>)
    ensures a + b + c + d == a + b + (c + d) == a + (b + c + d)
  {
  }

  /**
   Decoding what the other side encoded returns the plain text for every padding length and every
   non-empty plain text; an empty one is refused. The high nibble of the padding byte is free.
   */
  lemma DecodeOfDatagram(md5: seq<byte> -> Digest, baseKey: nat, direction: byte, marker: byte, randomKeyPart: nat,
                         padByte: byte, padding: seq<byte>, plain: seq<byte>)
    requires 0 < baseKey < TWO_32 && randomKeyPart < TWO_16
    requires marker != OP_EDONKEYPROT && |padding| == LowNibble(padByte)
    ensures var key := DatagramKey(md5, baseKey, direction, randomKeyPart);
      Decoded(md5, Datagram(key, marker, randomKeyPart, padByte, padding, plain), baseKey, direction)
        == if plain == [] then None else Some(plain)
  {
    hide Crypt, Skip, DatagramKey, Le32, Val32, Val16;
    var key := DatagramKey(md5, baseKey, direction, randomKeyPart);
    var sync := Le32(MAGIC_UDP_SYNC_SERVER);
    var e := Crypt(key, sync + [padByte] + padding + plain);
    var buf := Datagram(key, marker, randomKeyPart, padByte, padding, plain);
    HeadPart(key, sync, [padByte], padding, plain);
    MiddlePart(key, sync, [padByte], padding, plain);
    TailPart(key, sync, [padByte], padding, plain);
    assert buf == [marker] + Le16(randomKeyPart) + e;
    assert buf[1..3] == Le16(randomKeyPart);
    assert buf[3..7] == e[..4];
    assert buf[7..8] == e[4..5];
    assert buf[8 + |padding|..] == e[5 + |padding|..];
  }

  /** The seven bytes that are hashed: base key, direction and random part, the numbers lowest byte first. */
  lemma KeyDataLayout(baseKey: nat, magic: byte, randomKeyPart: nat)
    requires baseKey < TWO_32 && randomKeyPart < TWO_16
    ensures var d := KeyData(baseKey, magic, randomKeyPart);
      && |d| == 7 && Val32(d[..4]) == baseKey && d[4] == magic && Val16(d[5..]) == randomKeyPart
  {
    hide Le32, Le16, Val32, Val16;
    var d := KeyData(baseKey, magic, randomKeyPart);
    assert d[..4] == Le32(baseKey) && d[5..] == Le16(randomKeyPart);
  }

  /** What is not obfuscated, too short or for a connection without a base key. */
  lemma PlainOrShort(md5: seq<byte> -> Digest, buf: seq<byte>, baseKey: nat, direction: byte)
    requires baseKey < TWO_32
    ensures |buf| <= 8 || baseKey == 0 ==> Decoded(md5, buf, baseKey, direction) == None
    ensures |buf| > 8 && baseKey != 0 && buf[0] == 0xE3 ==> Decoded(md5, buf, baseKey, direction) == Some(buf)
  {
  }

  /** buf is what a sender makes of the plain text with some padding of 0 to 15 bytes. */
  ghost predicate IsDatagramOf(md5: seq<byte> -> Digest, buf: seq<byte>, baseKey: nat, direction: byte, plain: seq<byte>)
    requires baseKey < TWO_32 && |buf| > 8
  {
    var r := Val16(buf[1..3]);
    exists padByte: byte, padding: seq<byte> ::
      |padding| == padByte % 16 && buf == Datagram(DatagramKey(md5, baseKey, direction, r), buf[0], r, padByte, padding, plain)
  }

  /** Of all other datagrams exactly those decode that a sender with the same key made of some plain text, to that text. */
  lemma DecodesIffSent(md5: seq<byte> -> Digest, buf: seq<byte>, baseKey: nat, direction: byte, plain: seq<byte>)
    requires 0 < baseKey < TWO_32 && |buf| > 8 && buf[0] != 0xE3
    ensures Decoded(md5, buf, baseKey, direction) == Some(plain) <==>
      plain != [] && IsDatagramOf(md5, buf, baseKey, direction, plain)
  {
    hide Crypt, Skip, DatagramKey, Le32, Val32, Val16, Decoded, Datagram;
    var r := Val16(buf[1..3]);
    var key := DatagramKey(md5, baseKey, direction, r);
    if IsDatagramOf(md5, buf, baseKey, direction, plain) {
      var padByte: byte, padding: seq<byte> :|
        |padding| == padByte % 16 && buf == Datagram(key, buf[0], r, padByte, padding, plain);
      DecodeOfDatagram(md5, baseKey, direction, buf[0], r, padByte, padding, plain);
    }
    if Decoded(md5, buf, baseKey, direction) == Some(plain) {
      DecodedWasSent(md5, buf, baseKey, direction, plain);
    }
  }

  lemma DecodedWasSent(md5: seq<byte> -> Digest, buf: seq<byte>, baseKey: nat, direction: byte, plain: seq<byte>)
    requires 0 < baseKey < TWO_32 && |buf| > 8 && buf[0] != 0xE3
    requires Decoded(md5, buf, baseKey, direction) == Some(plain)
    ensures plain != [] && IsDatagramOf(md5, buf, baseKey, direction, plain)
  {
    hide Crypt, Skip, DatagramKey, Le32, Val32, Val16;
    var r := Val16(buf[1..3]);
    var key := DatagramKey(md5, baseKey, direction, r);
    var padByte := Crypt(Skip(key, 4), buf[7..8])[0];
    var n := padByte % 16;
    var padding := Crypt(Skip(key, 5), buf[8..8 + n]);
    var sync := Crypt(key, buf[3..7]);
    SyncIs(sync);
    assert plain == Crypt(Skip(key, 5 + n), buf[8 + n..]);
    Reenciphered(key, buf[3..7], buf[7..8], buf[8..8 + n], buf[8 + n..]);
    Le16OfVal16(buf[1..3]);
    assert [padByte] == Crypt(Skip(key, 4), buf[7..8]);
    assert buf == [buf[0]] + buf[1..3] + (buf[3..7] + buf[7..8] + buf[8..8 + n] + buf[8 + n..]);
    assert buf == Datagram(key, buf[0], r, padByte, padding, plain);
  }

  lemma SyncIs(sync: seq<byte>)
    requires |sync| == 4
    ensures Val32(sync) == MAGIC_UDP_SYNC_SERVER <==> sync == Le32(MAGIC_UDP_SYNC_SERVER)
  {
    hide Le32, Val32;
    Le32OfVal32(sync);
  }

  /** Four pieces deciphered in turn, enciphered together again. */
  lemma Reenciphered(key: State, a: seq<byte>, b: seq<byte>, c: seq<byte>, d: seq<byte>)
    requires Valid(key) && |a| == 4 && |b| == 1
    ensures var n := |c|;
      Crypt(key, Crypt(key, a) + Crypt(Skip(key, 4), b) + Crypt(Skip(key, 5), c) + Crypt(Skip(key, 5 + n), d)) == a + b + c + d
  {
    hide Crypt, Skip, Valid;
    SkipSkip(key, 4, 1);
    SkipSkip(key, 5, |c|);
    CryptConcat(key, a, b);
    CryptConcat(key, a + b, c);
    CryptConcat(key, a + b + c, d);
    CryptTwice(key, a + b + c + d);
  }

  /** The bytes of a datagram: marker, two bytes of key part, and what deciphers to magic, padding byte, padding and text. */
  lemma DatagramLayout(key: State, marker: byte, randomKeyPart: nat, padByte: byte, padding: seq<byte>, plain: seq<byte>)
    requires Valid(key) && randomKeyPart < TWO_16
    ensures var d := Datagram(key, marker, randomKeyPart, padByte, padding, plain);
      && |d| == 8 + |padding| + |plain| && d[0] == marker && Val16(d[1..3]) == randomKeyPart
      && Crypt(key, d[3..]) == Le32(0x13EF24D5) + [padByte] + padding + plain
  {
    hide Crypt, Le32, Le16, Val16, Valid;
    var body := Le32(MAGIC_UDP_SYNC_SERVER) + [padByte] + padding + plain;
    var d := Datagram(key, marker, randomKeyPart, padByte, padding, plain);
    CryptTwice(key, body);
    assert d[1..3] == Le16(randomKeyPart) && d[3..] == Crypt(key, body);
  }
}
