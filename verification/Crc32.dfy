/** The CRC of the ACE header check: srchybrid/ArchiveRecovery.cpp. */
module Crc32 {
  import opened BitOps
  import opened Bytes

  const CRCPOLY: Word := 0xEDB88320

  // ----- the definition, bit by bit -----

  /** Shifts one message bit into the register: the reflected CRC with polynomial CRCPOLY. */
  function CrcBit(crc: Word, bit: bool): Word {
    if (crc % 2 == 1) != bit then XorWord(crc / 2, CRCPOLY) else crc / 2
  }

  /** Shifts in the n lowest bits of w, lowest first. */
  function CrcBits(crc: Word, w: Word, n: nat): Word
    decreases n
  {
    if n == 0 then crc else CrcBits(CrcBit(crc, w % 2 == 1), w / 2, n - 1)
  }

  function CrcBitwise(crc: Word, data: seq<byte>): Word
    decreases data
  {
    if data == [] then crc else CrcBitwise(CrcBits(crc, data[0], 8), data[1..])
  }

  // ----- the table -----

  function BitStep(r: Word): Word {
    if r % 2 == 1 then XorWord(r / 2, CRCPOLY) else r / 2
  }

  function BitSteps(r: Word, n: nat): Word
    decreases n
  {
    if n == 0 then r else BitSteps(BitStep(r), n - 1)
  }

  predicate IsCrcTable(t: seq<Word>) {
    |t| == 256 && forall i :: 0 <= i < 256 ==> t[i] == BitSteps(i, 8)
  }

  method TableEntry(i: Word) returns (r: Word)
    ensures r == BitSteps(i, 8)
  {
    r := i;
    var j := 8;
    while j > 0
      invariant 0 <= j <= 8 && BitSteps(r, j) == BitSteps(i, 8)
    {
      r := if r % 2 == 1 then XorWord(r / 2, CRCPOLY) else r / 2;
      j := j - 1;
    }
  }

  /** make_crctable */
  method MakeCrcTable() returns (crctable: array<Word>)
    ensures fresh(crctable) && IsCrcTable(crctable[..])
  {
    crctable := new Word[256];
    for i := 0 to 256
      invariant forall k :: 0 <= k < i ==> crctable[k] == BitSteps(k, 8)
    {
      var r := TableEntry(i);
      crctable[i] := r;
    }
  }

  /** getcrc: the table-driven loop computes the bit-by-bit CRC. */
  method GetCrc(crctable: array<Word>, start: Word, addr: seq<byte>) returns (crc: Word)
    requires IsCrcTable(crctable[..])
    ensures crc == CrcBitwise(start, addr)
  {
    crc := start;
    assert addr[0..] == addr;
    for i := 0 to |addr|
      invariant CrcBitwise(crc, addr[i..]) == CrcBitwise(start, addr)
    {
      TableStep(crctable[..], crc, addr[i]);
      assert addr[i..][1..] == addr[i + 1..];
      crc := XorWord(crctable[XorByte(crc % 256, addr[i])], crc / 256);
    }
  }

  // ----- why the table works -----

  lemma BitStepXor(x: Word, y: Word)
    ensures BitStep(XorWord(x, y)) == XorWord(BitStep(x), BitStep(y))
  {
    XorHalf(x, y);
    var a, b := x / 2, y / 2;
    if x % 2 == 1 && y % 2 == 1 {
      XorSwap(a, CRCPOLY, b, CRCPOLY);
      XorSelf(CRCPOLY);
      XorZero(Xor(a, b));
    } else if x % 2 == 1 {
      XorAssociates(a, CRCPOLY, b);
      XorCommutes(CRCPOLY, b);
      XorAssociates(a, b, CRCPOLY);
    } else if y % 2 == 1 {
      XorAssociates(a, b, CRCPOLY);
    }
  }

  lemma {:induction false} BitStepsXor(x: Word, y: Word, n: nat)
    ensures BitSteps(XorWord(x, y), n) == XorWord(BitSteps(x, n), BitSteps(y, n))
    decreases n
  {
    if n > 0 {
      BitStepXor(x, y);
      BitStepsXor(BitStep(x), BitStep(y), n - 1);
    }
  }

  lemma {:induction false} BitStepsAdd(x: Word, m: nat, n: nat)
    ensures BitSteps(BitSteps(x, m), n) == BitSteps(x, m + n)
    decreases m
  {
    if m > 0 {
      BitStepsAdd(BitStep(x), m - 1, n);
    }
  }

  /** A register whose n lowest bits are clear is only shifted. */
  lemma {:induction false} HighSteps(h: nat, n: nat)
    requires Pow2(n) * h < TWO_32
    ensures h < TWO_32 && BitSteps(Pow2(n) * h, n) == h
    decreases n
  {
    if n == 0 {
      assert Pow2(0) * h == h;
    } else {
      assert Pow2(n) * h == 2 * (Pow2(n - 1) * h);
      HighSteps(h, n - 1);
    }
  }

  lemma CrcBitIsStep(crc: Word, w: Word)
    ensures BitStep(XorWord(crc, w)) == XorWord(CrcBit(crc, w % 2 == 1), w / 2)
  {
    XorHalf(crc, w);
    XorAssociates(crc / 2, w / 2, CRCPOLY);
    XorCommutes(w / 2, CRCPOLY);
    XorAssociates(crc / 2, CRCPOLY, w / 2);
  }

  /** All bits of w can be laid over the register at once. */
  lemma {:induction false} CrcBitsIsSteps(crc: Word, w: Word, n: nat)
    requires w < Pow2(n)
    ensures CrcBits(crc, w, n) == BitSteps(XorWord(crc, w), n)
    decreases n
  {
    if n == 0 {
      XorZero(crc);
    } else {
      CrcBitIsStep(crc, w);
      CrcBitsIsSteps(CrcBit(crc, w % 2 == 1), w / 2, n - 1);
    }
  }

  /** One table look-up does the work of eight bits. */
  lemma TableStep(t: seq<Word>, crc: Word, b: byte)
    requires IsCrcTable(t)
    ensures XorWord(t[XorByte(crc % 256, b)], crc / 256) == CrcBits(crc, b, 8)
  {
    WordSizes();
    var l, h := crc % 256, 256 * (crc / 256);
    XorDisjoint(l, crc / 256, 8);
    assert Xor(crc, b) == Xor(Xor(l, b), h) by {
      XorAssociates(l, h, b);
      XorCommutes(h, b);
      XorAssociates(l, b, h);
    }
    BitStepsXor(XorByte(l, b), h, 8);
    HighSteps(crc / 256, 8);
    CrcBitsIsSteps(crc, b, 8);
  }

  // ----- pieces -----

  /** Carrying the CRC over consecutive pieces, as the header check does, is the CRC of them joined. */
  lemma {:induction false} CrcConcat(crc: Word, a: seq<byte>, b: seq<byte>)
    ensures CrcBitwise(crc, a + b) == CrcBitwise(CrcBitwise(crc, a), b)
    decreases a
  {
    if a == [] {
      assert a + b == b;
    } else {
      assert (a + b)[1..] == a[1..] + b;
      CrcConcat(CrcBits(crc, a[0], 8), a[1..], b);
    }
  }

  // ----- what the check detects -----

  /** The polynomial's top bit tells the two branches of a step apart. */
  lemma PolySetsTopBit(a: Word)
    requires a < 0x8000_0000
    ensures XorWord(a, CRCPOLY) >= 0x8000_0000
  {
    WordSizes();
    var top, low := Pow2(31) * 1, CRCPOLY - 0x8000_0000;
    XorDisjoint(low, 1, 31);
    XorAssociates(a, low, top);
    XorBelow(a, low, 31);
    XorDisjoint(Xor(a, low), 1, 31);
  }

  lemma BitStepInjective(x: Word, y: Word)
    requires BitStep(x) == BitStep(y)
    ensures x == y
  {
    PolySetsTopBit(x / 2);
    PolySetsTopBit(y / 2);
    XorTwice(x / 2, CRCPOLY);
    XorTwice(y / 2, CRCPOLY);
  }

  lemma {:induction false} BitStepsInjective(x: Word, y: Word, n: nat)
    requires BitSteps(x, n) == BitSteps(y, n)
    ensures x == y
    decreases n
  {
    if n > 0 {
      BitStepsInjective(BitStep(x), BitStep(y), n - 1);
      BitStepInjective(x, y);
    }
  }

  /** Different registers stay different over the same bytes. */
  lemma {:induction false} CrcInjective(x: Word, y: Word, data: seq<byte>)
    requires CrcBitwise(x, data) == CrcBitwise(y, data)
    ensures x == y
    decreases data
  {
    if data != [] {
      var b := data[0];
      WordSizes();
      CrcBitsIsSteps(x, b, 8);
      CrcBitsIsSteps(y, b, 8);
      CrcInjective(CrcBits(x, b, 8), CrcBits(y, b, 8), data[1..]);
      BitStepsInjective(XorWord(x, b), XorWord(y, b), 8);
      XorTwice(x, b);
      XorTwice(y, b);
    }
  }

  /** Up to four bytes as one number, the first byte lowest. */
  function Pack(x: seq<byte>): (w: nat)
    ensures w < Pow2(8 * |x|)
    decreases x
  {
    WordSizes();
    if x == [] then 0 else
    Pow2Add(8, 8 * |x[1..]|);
    x[0] + 256 * Pack(x[1..])
  }

  lemma {:induction false} PackInjective(x: seq<byte>, y: seq<byte>)
    requires |x| == |y| && Pack(x) == Pack(y)
    ensures x == y
  {
    if x != [] {
      PackInjective(x[1..], y[1..]);
      assert x == [x[0]] + x[1..] && y == [y[0]] + y[1..];
    }
  }

  lemma PackFits(x: seq<byte>)
    requires |x| <= 4
    ensures Pack(x) < TWO_32
  {
    WordSizes();
    Pow2Add(8 * |x|, 32 - 8 * |x|);
  }

  lemma FirstByte(crc: Word, b: byte, p: nat)
    requires b as int + 256 * p < TWO_32
    ensures BitSteps(XorWord(crc, b as int + 256 * p), 8) == XorWord(CrcBits(crc, b, 8), p)
  {
    hide BitSteps, CrcBits, Xor;
    var high: Word := 256 * p;
    assert XorWord(crc, b as int + high) == XorWord(XorWord(crc, b), high) by {
      WordSizes();
      XorDisjoint(b, p, 8);
      XorAssociates(crc, b, high);
    }
    assert BitSteps(high, 8) == p by {
      WordSizes();
      HighSteps(p, 8);
    }
    assert BitSteps(XorWord(crc, b), 8) == CrcBits(crc, b, 8) by {
      WordSizes();
      CrcBitsIsSteps(crc, b, 8);
    }
    BitStepsXor(XorWord(crc, b), high, 8);
  }

  /** Up to four bytes can be laid over the register at once. */
  lemma {:induction false} CrcOfPack(crc: Word, x: seq<byte>)
    requires |x| <= 4
    ensures Pack(x) < TWO_32 && CrcBitwise(crc, x) == BitSteps(XorWord(crc, Pack(x)), 8 * |x|)
    decreases x
  {
    PackFits(x);
    if x == [] {
      XorZero(crc);
    } else {
      var rest := x[1..];
      var c, w := CrcBits(crc, x[0], 8), XorWord(crc, Pack(x));
      PackFits(rest);
      assert BitSteps(w, 8) == XorWord(c, Pack(rest)) by { FirstByte(crc, x[0], Pack(rest)); }
      assert CrcBitwise(c, rest) == BitSteps(XorWord(c, Pack(rest)), 8 * |rest|) by { CrcOfPack(c, rest); }
      BitStepsAdd(w, 8, 8 * |rest|);
    }
  }

  /** Any change confined to four consecutive bytes changes the CRC. */
  lemma BurstDetected(crc: Word, before: seq<byte>, x: seq<byte>, y: seq<byte>, after: seq<byte>)
    requires |x| == |y| <= 4 && x != y
    ensures CrcBitwise(crc, before + x + after) != CrcBitwise(crc, before + y + after)
  {
    CrcConcat(crc, before + x, after);
    CrcConcat(crc, before + y, after);
    CrcConcat(crc, before, x);
    CrcConcat(crc, before, y);
    var r := CrcBitwise(crc, before);
    CrcOfPack(r, x);
    CrcOfPack(r, y);
    if CrcBitwise(r, x) == CrcBitwise(r, y) {
      BitStepsInjective(XorWord(r, Pack(x)), XorWord(r, Pack(y)), 8 * |x|);
      XorCommutes(r, Pack(x));
      XorCommutes(r, Pack(y));
      XorTwice(Pack(x), r);
      XorTwice(Pack(y), r);
      PackInjective(x, y);
      assert false;
    }
    if CrcBitwise(crc, before + x + after) == CrcBitwise(crc, before + y + after) {
      CrcInjective(CrcBitwise(r, x), CrcBitwise(r, y), after);
    }
  }

  /** Entries of the table that everybody has: the polynomial stands at 0x80, and shifted by five at 4. */
  lemma KnownEntries()
    ensures BitSteps(0x80, 8) == 0xEDB88320 && BitSteps(4, 8) == 0x076DC419
  {
    hide BitSteps;
    assert Pow2(2) == 4 && Pow2(7) == 128 && Pow2(5) == 32;
    HighSteps(1, 7);
    HighSteps(1, 2);
    HighSteps(0x076DC419, 5);
    BitStepsAdd(128, 7, 1);
    BitStepsAdd(4, 2, 6);
    LowestBit(0);
    LowestBit(5);
    NoSteps(CRCPOLY);
  }

  lemma LowestBit(n: nat)
    ensures BitSteps(1, n + 1) == BitSteps(CRCPOLY, n)
  {
    hide Xor;
    XorCommutes(0, CRCPOLY);
    XorZero(CRCPOLY);
    assert BitStep(1) == CRCPOLY;
  }

  lemma NoSteps(r: Word)
    ensures BitSteps(r, 0) == r
  {
  }

  /** A byte is shifted in lowest bit first: in a zero register it leaves its own table entry. */
  lemma OneByte(t: seq<Word>, b: byte)
    requires IsCrcTable(t)
    ensures CrcBitwise(0, [b]) == t[b]
  {
    hide CrcBits;
    TableStep(t, 0, b);
    assert [b][1..] == [];
    XorCommutes(0, b);
    XorZero(b);
    XorZero(t[b]);
  }
}
