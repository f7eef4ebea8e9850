/**
 The records of known2.met and known2_64.met: a 20-byte AICH master hash, a hash count and
 count * 20 bytes of hashes. The count has 2 bytes in the old file and 4 in the new one.
 */
module Known2Records {
  import opened Wrappers
  import opened Bytes
  import opened ByteFiles

  const HASHSIZE: nat := 20
  const KNOWN2_MET_VERSION: byte := 0x02

  type Hash = h: seq<byte> | |h| == HASHSIZE witness Zeros(HASHSIZE)

  const EMPTY: Hash := Zeros(HASHSIZE)

  /** Width in bytes of the count field. */
  type Width = w: int | w == 2 || w == 4 witness 2

  datatype Record = Record(hash: Hash, body: seq<byte>)

  function Count(r: Record): nat { |r.body| / HASHSIZE }

  predicate Valid(w: Width, r: Record) {
    |r.body| % HASHSIZE == 0 && Count(r) < if w == 2 then TWO_16 else TWO_32
  }

  predicate AllValid(w: Width, rs: seq<Record>) {
    forall i :: 0 <= i < |rs| ==> Valid(w, rs[i])
  }

  function LeCount(w: Width, n: nat): (s: seq<byte>)
    requires n < if w == 2 then TWO_16 else TWO_32
    ensures |s| == w && ValCount(w, s) == n
  {
    if w == 2 then Le16(n) else Le32(n)
  }

  function ValCount(w: Width, s: seq<byte>): (n: nat)
    requires |s| == w
    ensures n < if w == 2 then TWO_16 else TWO_32
  {
    if w == 2 then Val16(s) else Val32(s)
  }

  function Encode(w: Width, r: Record): (s: seq<byte>)
    requires Valid(w, r)
    ensures |s| == HASHSIZE + w + |r.body|
  {
    r.hash + LeCount(w, Count(r)) + r.body
  }

  function EncodeAll(w: Width, rs: seq<Record>): seq<byte>
    requires AllValid(w, rs)
  {
    if rs == [] then [] else Encode(w, rs[0]) + EncodeAll(w, rs[1..])
  }

  /** The record at the head of s, when s holds a whole one. */
  function ParseOne(w: Width, s: seq<byte>): Option<Record> {
    if |s| < HASHSIZE + w then None else
    var n := ValCount(w, s[HASHSIZE..HASHSIZE + w]);
    if |s| < HASHSIZE + w + n * HASHSIZE then None else
    Some(Record(s[..HASHSIZE], s[HASHSIZE + w..HASHSIZE + w + n * HASHSIZE]))
  }

  /** The records at the head of s, up to the first bad one. */
  function Parse(w: Width, s: seq<byte>): seq<Record> {
    match ParseOne(w, s)
    case None => []
    case Some(r) => [r] + Parse(w, s[HASHSIZE + w + |r.body|..])
  }

  lemma ParseOneOfEncode(w: Width, r: Record, t: seq<byte>)
    requires Valid(w, r)
    ensures ParseOne(w, Encode(w, r) + t) == Some(r)
  {
    var s := Encode(w, r) + t;
    assert s[HASHSIZE..HASHSIZE + w] == LeCount(w, Count(r));
    assert s[..HASHSIZE] == r.hash;
    assert s[HASHSIZE + w..HASHSIZE + w + |r.body|] == r.body;
  }

  lemma EncodeOfParseOne(w: Width, s: seq<byte>)
    requires ParseOne(w, s).Some?
    ensures var r := ParseOne(w, s).value;
      Valid(w, r) && |s| >= HASHSIZE + w + |r.body| && s[..HASHSIZE + w + |r.body|] == Encode(w, r)
  {
    hide Le16, Val16, Le32, Val32;
    var r := ParseOne(w, s).value;
    var c := s[HASHSIZE..HASHSIZE + w];
    assert |r.body| == ValCount(w, c) * HASHSIZE;
    assert LeCount(w, ValCount(w, c)) == c by {
      if w == 2 { Le16OfVal16(c); } else { Le32OfVal32(c); }
    }
    assert s[..HASHSIZE + w + |r.body|] == s[..HASHSIZE] + c + s[HASHSIZE + w..HASHSIZE + w + |r.body|];
  }

  lemma ValidAppend(w: Width, a: seq<Record>, b: seq<Record>)
    requires AllValid(w, a) && AllValid(w, b)
    ensures AllValid(w, a + b)
  {
  }

  lemma {:induction false} EncodeAllAppend(w: Width, a: seq<Record>, b: seq<Record>)
    requires AllValid(w, a) && AllValid(w, b)
    ensures AllValid(w, a + b) && EncodeAll(w, a + b) == EncodeAll(w, a) + EncodeAll(w, b)
  {
    hide Encode, Valid;
    if a == [] {
      assert a + b == b;
    } else {
      EncodeAllAppend(w, a[1..], b);
      assert (a + b)[0] == a[0] && (a + b)[1..] == a[1..] + b;
      ValidAppend(w, a, b);
      AppendAssoc(Encode(w, a[0]), EncodeAll(w, a[1..]), EncodeAll(w, b));
    }
  }

  lemma EncodeAllOne(w: Width, r: Record)
    requires Valid(w, r)
    ensures EncodeAll(w, [r]) == Encode(w, r)
  {
    assert [r][1..] == [];
  }

  lemma ParseOfEncode(w: Width, r: Record, t: seq<byte>)
    requires Valid(w, r)
    ensures Parse(w, Encode(w, r) + t) == [r] + Parse(w, t)
  {
    ParseOneOfEncode(w, r, t);
    assert (Encode(w, r) + t)[HASHSIZE + w + |r.body|..] == t;
  }

  /** Parsing undoes encoding, whatever follows. */
  lemma {:induction false} ParseOfEncodeAll(w: Width, rs: seq<Record>, t: seq<byte>)
    requires AllValid(w, rs)
    ensures Parse(w, EncodeAll(w, rs) + t) == rs + Parse(w, t)
  {
    if rs == [] {
      assert EncodeAll(w, rs) + t == t;
      assert rs + Parse(w, t) == Parse(w, t);
    } else {
      var e, tail := Encode(w, rs[0]), EncodeAll(w, rs[1..]);
      ParseOfEncodeAll(w, rs[1..], t);
      ParseOfEncode(w, rs[0], tail + t);
      assert EncodeAll(w, rs) + t == e + (tail + t) by { AppendAssoc(e, tail, t); }
      AppendAssoc([rs[0]], rs[1..], Parse(w, t));
      assert [rs[0]] + rs[1..] == rs;
    }
  }

  /** What Parse returns is, re-encoded, a prefix of the input after which no whole record follows. */
  lemma {:induction false} EncodeAllOfParse(w: Width, s: seq<byte>)
    ensures AllValid(w, Parse(w, s))
    ensures EncodeAll(w, Parse(w, s)) <= s
    ensures ParseOne(w, s[|EncodeAll(w, Parse(w, s))|..]).None?
  {
    hide Encode, ParseOne, Valid;
    match ParseOne(w, s)
    case None =>
      assert s[0..] == s;
    case Some(r) =>
      EncodeOfParseOne(w, s);
      var n := HASHSIZE + w + |r.body|;
      var t := s[n..];
      EncodeAllOfParse(w, t);
      var rs := Parse(w, s);
      assert rs[1..] == Parse(w, t);
      assert forall i :: 0 < i < |rs| ==> rs[i] == Parse(w, t)[i - 1];
      var e := EncodeAll(w, Parse(w, t));
      assert EncodeAll(w, rs) == s[..n] + e;
      assert s == s[..n] + t;
      assert s[|s[..n] + e|..] == t[|e|..];
  }

  /** Parse finds the longest well-formed prefix: every encoded prefix of s is a prefix of the result. */
  lemma ParseIsLongest(w: Width, rs: seq<Record>, s: seq<byte>)
    requires AllValid(w, rs) && EncodeAll(w, rs) <= s
    ensures rs <= Parse(w, s)
  {
    var t := s[|EncodeAll(w, rs)|..];
    assert s == EncodeAll(w, rs) + t;
    ParseOfEncodeAll(w, rs, t);
  }

  /** One step of a scan: the parsed prefix grows by exactly the record found behind it. */
  lemma ParseStep(w: Width, s: seq<byte>, done: seq<Record>, r: Record)
    requires AllValid(w, done) && EncodeAll(w, done) <= s
    requires ParseOne(w, s[|EncodeAll(w, done)|..]) == Some(r)
    ensures AllValid(w, done + [r])
    ensures EncodeAll(w, done + [r]) == EncodeAll(w, done) + Encode(w, r)
    ensures EncodeAll(w, done + [r]) <= s
    ensures Valid(w, r)
  {
    var e := EncodeAll(w, done);
    var t := s[|e|..];
    EncodeOfParseOne(w, t);
    assert AllValid(w, [r]);
    EncodeAllAppend(w, done, [r]);
    EncodeAllOne(w, r);
    PrefixGrows(e, t, s, Encode(w, r));
  }

  lemma PrefixGrows(e: seq<byte>, t: seq<byte>, s: seq<byte>, x: seq<byte>)
    requires e <= s && t == s[|e|..] && x <= t
    ensures e + x <= s && s[|e + x|..] == t[|x|..]
  {
  }

  /** The scan has arrived: nothing more parses, so what was found is everything Parse finds. */
  lemma ParseDone(w: Width, s: seq<byte>, done: seq<Record>)
    requires AllValid(w, done) && EncodeAll(w, done) <= s
    requires ParseOne(w, s[|EncodeAll(w, done)|..]).None?
    ensures Parse(w, s) == done
  {
    var n := |EncodeAll(w, done)|;
    assert s == EncodeAll(w, done) + s[n..];
    ParseOfEncodeAll(w, done, s[n..]);
    assert done + [] == done;
  }
}
