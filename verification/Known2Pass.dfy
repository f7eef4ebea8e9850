/**
 What the clean-up pass over known2_64.met is meant to do, on record lists: drop the purged
 records, clear the hash of every kept record that occurs again later, and index the rest.
 */
module Known2Pass {
  import opened Wrappers
  import opened Bytes
  import opened ByteFiles
  import opened Known2Records

  const W: Width := 4

  /** 31 days, in seconds. */
  const OLDFILES_PARTIALLYPURGE: nat := 31 * 86_400

  /**
   The settings, the clock, and the known files by their recovery hash, each with the time it was
   last seen in a shared directory; 0 stands for a time that was never recorded.
   */
  datatype Settings = Settings(remembering: bool, partialPurge: bool, known: map<Hash, nat>, now: nat) {
    /** CKnownFile::ShouldPartiallyPurgeFile */
    predicate LongUnseen(lastSeen: nat) {
      partialPurge && lastSeen > 0 && now >= lastSeen + OLDFILES_PARTIALLYPURGE
    }

    /** CKnownFileList::ShouldPurgeAICHHashset */
    predicate Outdated(h: Hash) { h !in known || LongUnseen(known[h]) }
  }

  /** What decides a purge, fixed for the length of one pass. */
  datatype Policy = Policy(settings: Settings, used: seq<Hash>) {
    /** The first purge test: cleared hashes, and hashes no shared file uses. */
    predicate DropsUnused(h: Hash) { h == EMPTY || (!settings.remembering && h !in used) }

    /** The second purge test: hash sets of known files that have become old. */
    predicate DropsOld(h: Hash) { settings.remembering && settings.Outdated(h) }

    predicate Drops(h: Hash) { DropsUnused(h) || DropsOld(h) }

    /** Purged by the second test alone, the one that is counted apart. */
    predicate Ages(h: Hash) { !DropsUnused(h) && DropsOld(h) }
  }

  function Kept(p: Policy, rs: seq<Record>): (ks: seq<Record>)
    ensures |ks| <= |rs|
    ensures forall i :: 0 <= i < |ks| ==> ks[i] in rs && !p.Drops(ks[i].hash)
  {
    if rs == [] then [] else
    var ks := Kept(p, rs[..|rs| - 1]);
    if p.Drops(rs[|rs| - 1].hash) then ks else ks + [rs[|rs| - 1]]
  }

  /** How many records are purged because they are old. */
  function Aged(p: Policy, rs: seq<Record>): nat {
    if rs == [] then 0 else Aged(p, rs[..|rs| - 1]) + if p.Ages(rs[|rs| - 1].hash) then 1 else 0
  }

  function Cleared(r: Record): Record { r.(hash := EMPTY) }

  predicate OccursLater(ks: seq<Record>, i: nat)
    requires i < |ks|
  {
    exists j :: i < j < |ks| && ks[j].hash == ks[i].hash
  }

  /** The records as the pass leaves them: all but the last occurrence of a hash are cleared. */
  function Marked(ks: seq<Record>): (ms: seq<Record>)
    ensures |ms| == |ks|
    ensures AllValid(W, ks) ==> AllValid(W, ms)
  {
    if ks == [] then [] else
    [if OccursLater(ks, 0) then Cleared(ks[0]) else ks[0]] + Marked(ks[1..])
  }

  function Hashes(ks: seq<Record>): set<Hash> { set r | r in ks :: r.hash }

  function LastIndex(ks: seq<Record>, h: Hash): (i: nat)
    requires h in Hashes(ks)
    ensures i < |ks| && ks[i].hash == h && !OccursLater(ks, i)
  {
    var n := |ks| - 1;
    if ks[n].hash == h then n else
    assert h in Hashes(ks[..n]) by {
      var r :| r in ks && r.hash == h;
      assert r in ks[..n];
    }
    LastIndex(ks[..n], h)
  }

  /** Where record i starts in the file, after the version byte. */
  function Offset(ks: seq<Record>, i: nat): (n: nat)
    requires AllValid(W, ks) && i <= |ks|
    ensures n >= 1
  {
    1 + |EncodeAll(W, ks[..i])|
  }

  /** The index the pass builds: each hash with the offset of the record that had it last. */
  function Index(ks: seq<Record>): map<Hash, nat>
    requires AllValid(W, ks)
  {
    if ks == [] then map[] else
    var n := |ks| - 1;
    Index(ks[..n])[ks[n].hash := Offset(ks, n)]
  }

  /** The file that holds the records rs. */
  function FileOf(rs: seq<Record>): seq<byte>
    requires AllValid(W, rs)
  {
    [KNOWN2_MET_VERSION] + EncodeAll(W, rs)
  }

  function Pass(p: Policy, rs: seq<Record>): seq<Record> { Marked(Kept(p, rs)) }

  lemma OccursLaterTail(ks: seq<Record>, i: nat)
    requires 0 < i < |ks|
    ensures OccursLater(ks, i) <==> OccursLater(ks[1..], i - 1)
  {
    if OccursLater(ks, i) {
      var j :| i < j < |ks| && ks[j].hash == ks[i].hash;
      assert ks[1..][j - 1].hash == ks[1..][i - 1].hash;
    }
    if OccursLater(ks[1..], i - 1) {
      var j :| i - 1 < j < |ks[1..]| && ks[1..][j].hash == ks[1..][i - 1].hash;
      assert ks[j + 1].hash == ks[i].hash;
    }
  }

  lemma {:induction false} MarkedAt(ks: seq<Record>)
    ensures forall i :: 0 <= i < |ks| ==> Marked(ks)[i] == if OccursLater(ks, i) then Cleared(ks[i]) else ks[i]
  {
    if ks != [] {
      MarkedAt(ks[1..]);
      forall i | 0 < i < |ks| ensures Marked(ks)[i] == if OccursLater(ks, i) then Cleared(ks[i]) else ks[i] {
        OccursLaterTail(ks, i);
        assert Marked(ks)[i] == Marked(ks[1..])[i - 1];
      }
    }
  }

  // ----- sizes and offsets -----

  lemma KeptValid(p: Policy, rs: seq<Record>)
    requires AllValid(W, rs)
    ensures AllValid(W, Kept(p, rs)) && AllValid(W, Marked(Kept(p, rs)))
  {
    MarkedAt(Kept(p, rs));
  }

  /** Clearing hashes moves nothing. */
  lemma {:induction false} SameShapeSameSize(a: seq<Record>, b: seq<Record>)
    requires AllValid(W, a) && AllValid(W, b) && |a| == |b|
    requires forall i :: 0 <= i < |a| ==> a[i].body == b[i].body
    ensures |EncodeAll(W, a)| == |EncodeAll(W, b)|
  {
    if a != [] {
      SameShapeSameSize(a[1..], b[1..]);
    }
  }

  lemma MarkedOffset(ks: seq<Record>, i: nat)
    requires AllValid(W, ks) && i <= |ks|
    ensures AllValid(W, Marked(ks)) && Offset(Marked(ks), i) == Offset(ks, i)
  {
    hide Marked, Encode, Valid, OccursLater;
    MarkedAt(ks);
    SameShapeSameSize(Marked(ks)[..i], ks[..i]);
  }

  /** Record i sits at its offset, between what precedes and what follows it. */
  lemma SplitAt(rs: seq<Record>, i: nat)
    requires AllValid(W, rs) && i < |rs|
    ensures FileOf(rs) == FileOf(rs[..i]) + Encode(W, rs[i]) + EncodeAll(W, rs[i + 1..])
    ensures |FileOf(rs[..i])| == Offset(rs, i)
  {
    hide Encode, Valid;
    assert rs == rs[..i] + rs[i..];
    EncodeAllAppend(W, rs[..i], rs[i..]);
    assert rs[i..] == [rs[i]] + rs[i + 1..];
  }

  lemma HashAtOffset(rs: seq<Record>, i: nat)
    requires AllValid(W, rs) && i < |rs|
    ensures var n, f := Offset(rs, i), FileOf(rs);
      n + HASHSIZE <= |f| && f[n..n + HASHSIZE] == rs[i].hash
  {
    SplitAt(rs, i);
    var a, e, z := FileOf(rs[..i]), Encode(W, rs[i]), EncodeAll(W, rs[i + 1..]);
    assert (a + e + z)[|a|..|a| + HASHSIZE] == e[..HASHSIZE];
    assert e[..HASHSIZE] == rs[i].hash;
  }

  lemma OffsetsIncrease(ks: seq<Record>, i: nat, j: nat)
    requires AllValid(W, ks) && i < j <= |ks|
    ensures Offset(ks, i) + HASHSIZE + W + |ks[i].body| <= Offset(ks, j)
  {
    assert ks[..j] == ks[..i] + ks[i..j];
    EncodeAllAppend(W, ks[..i], ks[i..j]);
    assert ks[i..j][0] == ks[i];
  }

  // ----- one step of the pass -----

  lemma KeptStep(p: Policy, rs: seq<Record>, r: Record)
    ensures Kept(p, rs + [r]) == if p.Drops(r.hash) then Kept(p, rs) else Kept(p, rs) + [r]
  {
    assert (rs + [r])[..|rs|] == rs;
  }

  lemma HashesStep(ks: seq<Record>, r: Record)
    ensures Hashes(ks + [r]) == Hashes(ks) + {r.hash}
  {
    forall h ensures h in Hashes(ks + [r]) <==> h in Hashes(ks) + {r.hash} {
      if h in Hashes(ks) {
        var x :| x in ks && x.hash == h;
        assert x in ks + [r];
      }
      assert r in ks + [r];
    }
  }

  lemma OccursLaterAppend(ks: seq<Record>, r: Record, i: nat)
    requires i < |ks|
    ensures OccursLater(ks + [r], i) <==> OccursLater(ks, i) || ks[i].hash == r.hash
  {
    var ks' := ks + [r];
    if OccursLater(ks, i) {
      var j :| i < j < |ks| && ks[j].hash == ks[i].hash;
      assert ks'[j].hash == ks'[i].hash;
    }
    if ks[i].hash == r.hash {
      assert ks'[|ks|].hash == ks'[i].hash;
    }
  }

  /** Among the earlier records with the hash of r, all but the last are cleared already. */
  lemma OnlyLastIsNew(ks: seq<Record>, r: Record, i: nat)
    requires i < |ks| && ks[i].hash == r.hash
    ensures r.hash in Hashes(ks)
    ensures OccursLater(ks, i) <==> i != LastIndex(ks, r.hash)
  {
    assert ks[i] in ks;
    var l := LastIndex(ks, r.hash);
    assert !OccursLater(ks, l);
    if i < l { assert ks[l].hash == ks[i].hash; }
  }

  /** A new record clears the one earlier record that still carries its hash. */
  lemma MarkedStep(ks: seq<Record>, r: Record)
    ensures Marked(ks + [r]) ==
      (if r.hash in Hashes(ks)
       then var i := LastIndex(ks, r.hash); Marked(ks)[i := Cleared(ks[i])]
       else Marked(ks)) + [r]
  {
    hide OccursLater, Marked, Hashes, LastIndex;
    var ks' := ks + [r];
    MarkedAt(ks);
    MarkedAt(ks');
    LastOccursNever(ks');
    forall i | 0 <= i < |ks|
      ensures Marked(ks')[i] ==
        if r.hash in Hashes(ks) && i == LastIndex(ks, r.hash) then Cleared(ks[i]) else Marked(ks)[i]
    {
      OccursLaterAppend(ks, r, i);
      if ks[i].hash == r.hash { OnlyLastIsNew(ks, r, i); }
    }
  }

  lemma LastOccursNever(ks: seq<Record>)
    requires ks != []
    ensures !OccursLater(ks, |ks| - 1)
  {
  }

  lemma LastIndexUnique(ks: seq<Record>, i: nat)
    requires i < |ks| && !OccursLater(ks, i)
    ensures ks[i].hash in Hashes(ks) && LastIndex(ks, ks[i].hash) == i
  {
    assert ks[i] in ks;
    var l := LastIndex(ks, ks[i].hash);
    assert !OccursLater(ks, l) && ks[l].hash == ks[i].hash;
  }

  lemma LastIndexStep(ks: seq<Record>, r: Record, h: Hash)
    requires h in Hashes(ks) && h != r.hash
    ensures h in Hashes(ks + [r]) && LastIndex(ks + [r], h) == LastIndex(ks, h)
  {
    HashesStep(ks, r);
    assert (ks + [r])[..|ks|] == ks;
  }

  lemma OffsetStep(ks: seq<Record>, r: Record, i: nat)
    requires AllValid(W, ks) && Valid(W, r) && i <= |ks|
    ensures AllValid(W, ks + [r]) && Offset(ks + [r], i) == Offset(ks, i)
  {
    assert (ks + [r])[..i] == ks[..i];
  }

  lemma IndexStep(ks: seq<Record>, r: Record)
    requires AllValid(W, ks) && Valid(W, r)
    ensures AllValid(W, ks + [r])
    ensures Index(ks + [r]) == Index(ks)[r.hash := Offset(ks, |ks|)]
  {
    OffsetStep(ks, r, |ks|);
    assert (ks + [r])[..|ks|] == ks;
  }

  /** What the index holds: every hash, at the offset of its last occurrence. */
  lemma {:induction false} IndexIsLast(ks: seq<Record>)
    requires AllValid(W, ks)
    ensures Index(ks).Keys == Hashes(ks)
    ensures forall h :: h in Hashes(ks) ==> Index(ks)[h] == Offset(ks, LastIndex(ks, h))
  {
    if ks != [] {
      var n := |ks| - 1;
      var front, r := ks[..n], ks[n];
      assert ks == front + [r];
      IndexIsLast(front);
      HashesStep(front, r);
      IndexStep(front, r);
      assert LastIndex(ks, r.hash) == n && Offset(ks, n) == Offset(front, n) by { OffsetStep(front, r, n); }
      forall h | h in Hashes(front) && h != r.hash
        ensures Index(ks)[h] == Offset(ks, LastIndex(ks, h))
      {
        LastIndexStep(front, r, h);
        OffsetStep(front, r, LastIndex(front, h));
      }
    }
  }

  // ----- what the pass promises -----

  /** Two records of the result that still carry a hash carry different ones. */
  lemma MarkedDistinct(p: Policy, rs: seq<Record>, i: nat, j: nat)
    requires i < j < |Pass(p, rs)|
    requires Pass(p, rs)[i].hash == Pass(p, rs)[j].hash
    ensures Pass(p, rs)[i].hash == EMPTY
  {
    var ks := Kept(p, rs);
    MarkedAt(ks);
    if !OccursLater(ks, i) {
      assert ks[j].hash != ks[i].hash;
      assert !p.Drops(ks[i].hash);
    }
  }

  /**
   The index and the file agree: exactly the hashes still carried by a record are indexed,
   each at the offset of the one record that carries it.
   */
  lemma IndexAgreesWithFile(p: Policy, rs: seq<Record>, h: Hash, n: nat)
    requires AllValid(W, rs)
    ensures AllValid(W, Kept(p, rs)) && AllValid(W, Pass(p, rs))
    ensures (h in Index(Kept(p, rs)) && Index(Kept(p, rs))[h] == n) <==>
      (h != EMPTY && exists i :: 0 <= i < |Pass(p, rs)| && Pass(p, rs)[i].hash == h && Offset(Pass(p, rs), i) == n)
  {
    KeptValid(p, rs);
    var ks, ms := Kept(p, rs), Pass(p, rs);
    MarkedAt(ks);
    IndexIsLast(ks);
    if h in Index(ks) && Index(ks)[h] == n {
      var i := LastIndex(ks, h);
      MarkedOffset(ks, i);
      assert !p.Drops(ks[i].hash);
      assert ms[i].hash == h && Offset(ms, i) == n;
    }
    if h != EMPTY && exists i :: 0 <= i < |ms| && ms[i].hash == h && Offset(ms, i) == n {
      var i :| 0 <= i < |ms| && ms[i].hash == h && Offset(ms, i) == n;
      assert ms[i] == ks[i] && !OccursLater(ks, i);
      LastIndexUnique(ks, i);
      MarkedOffset(ks, i);
    }
  }

  /** The bytes of the file at an indexed position are the indexed hash. */
  lemma IndexedBytes(p: Policy, rs: seq<Record>, h: Hash)
    requires AllValid(W, rs)
    ensures AllValid(W, Kept(p, rs)) && AllValid(W, Pass(p, rs))
    ensures h in Index(Kept(p, rs)) ==>
      var n, f := Index(Kept(p, rs))[h], FileOf(Pass(p, rs));
      n + HASHSIZE <= |f| && f[n..n + HASHSIZE] == h
  {
    KeptValid(p, rs);
    if h in Index(Kept(p, rs)) {
      var ms := Pass(p, rs);
      var n := Index(Kept(p, rs))[h];
      IndexAgreesWithFile(p, rs, h, n);
      var i :| 0 <= i < |ms| && ms[i].hash == h && Offset(ms, i) == n;
      HashAtOffset(ms, i);
    }
  }

  /** Only the last kept occurrence of each hash. */
  function LastOnly(ks: seq<Record>): seq<Record> {
    if ks == [] then [] else
    (if OccursLater(ks, 0) then [] else [ks[0]]) + LastOnly(ks[1..])
  }

  lemma {:induction false} KeptFront(p: Policy, r: Record, rs: seq<Record>)
    ensures Kept(p, [r] + rs) == (if p.Drops(r.hash) then [] else [r]) + Kept(p, rs)
  {
    hide Kept;
    if rs == [] {
      KeptOne(p, r);
    } else {
      var n := |rs| - 1;
      KeptFront(p, r, rs[..n]);
      assert [r] + rs == ([r] + rs[..n]) + [rs[n]] && rs[..n] + [rs[n]] == rs;
      KeptStep(p, [r] + rs[..n], rs[n]);
      KeptStep(p, rs[..n], rs[n]);
      AppendAssoc(if p.Drops(r.hash) then [] else [r], Kept(p, rs[..n]), [rs[n]]);
    }
  }

  lemma KeptOne(p: Policy, r: Record)
    ensures Kept(p, [r] + []) == (if p.Drops(r.hash) then [] else [r]) + Kept(p, [])
  {
    assert ([r] + [])[..0] == [] && [r] + [] == [r];
  }

  /** Purging a marked list leaves the last occurrence of every hash. */
  lemma {:induction false} KeptOfMarked(p: Policy, ks: seq<Record>)
    requires forall i :: 0 <= i < |ks| ==> !p.Drops(ks[i].hash)
    ensures Kept(p, Marked(ks)) == LastOnly(ks)
  {
    if ks != [] {
      KeptFront(p, Marked(ks)[0], Marked(ks[1..]));
      KeptOfMarked(p, ks[1..]);
    }
  }

  lemma {:induction false} LastOnlyDistinct(ks: seq<Record>)
    ensures Hashes(LastOnly(ks)) == Hashes(ks)
    ensures forall i :: 0 <= i < |LastOnly(ks)| ==> LastOnly(ks)[i] in ks && !OccursLater(LastOnly(ks), i)
  {
    if ks != [] {
      LastOnlyDistinct(ks[1..]);
      var ls, t := LastOnly(ks), LastOnly(ks[1..]);
      assert ks == [ks[0]] + ks[1..];
      if OccursLater(ks, 0) {
        var j :| 0 < j < |ks| && ks[j].hash == ks[0].hash;
        assert ks[1..][j - 1] in ks[1..];
        assert ks[0].hash in Hashes(ks[1..]);
        assert ls == t;
      } else {
        assert ls == [ks[0]] + t;
        assert ls[1..] == t;
        forall i | 0 <= i < |ls| ensures ls[i] in ks && !OccursLater(ls, i) {
          if i > 0 {
            OccursLaterTail(ls, i);
            assert ls[i] == t[i - 1];
          } else {
            assert forall j :: 0 < j < |ls| ==> ls[j] == t[j - 1] && t[j - 1] in ks[1..];
          }
        }
      }
      assert forall h :: h in Hashes(ls) <==> h in Hashes(ks) by {
        forall h ensures h in Hashes(ls) <==> h in Hashes(ks) {
          if h in Hashes(ks) && h != ks[0].hash {
            var r :| r in ks && r.hash == h;
            assert r in ks[1..];
            assert h in Hashes(t);
            var q :| q in t && q.hash == h;
            assert q in ls;
          }
          if h in Hashes(ls) {
            var r :| r in ls && r.hash == h;
            if r in t { assert h in Hashes(ks[1..]); }
            assert r == ks[0] || r in t;
          }
          if h == ks[0].hash {
            assert ks[0] in ks;
            if OccursLater(ks, 0) { assert h in Hashes(t); } else { assert ks[0] in ls; }
          }
        }
      }
    }
  }

  lemma {:induction false} KeptIdentity(p: Policy, ks: seq<Record>)
    requires forall i :: 0 <= i < |ks| ==> !p.Drops(ks[i].hash)
    ensures Kept(p, ks) == ks
  {
    if ks != [] {
      KeptIdentity(p, ks[..|ks| - 1]);
    }
  }

  lemma MarkedIdentity(ks: seq<Record>)
    requires forall i :: 0 <= i < |ks| ==> !OccursLater(ks, i)
    ensures Marked(ks) == ks
  {
    MarkedAt(ks);
  }

  /**
   Under one purge decision the second pass leaves the last occurrence of every kept hash and
   a third pass changes nothing.
   */
  lemma PassesSettle(p: Policy, rs: seq<Record>)
    ensures Pass(p, Pass(p, rs)) == LastOnly(Kept(p, rs))
    ensures Pass(p, Pass(p, Pass(p, rs))) == Pass(p, Pass(p, rs))
    ensures Hashes(Pass(p, Pass(p, rs))) == Hashes(Kept(p, rs))
  {
    var ks := Kept(p, rs);
    KeptOfMarked(p, ks);
    LastOnlyDistinct(ks);
    MarkedIdentity(LastOnly(ks));
    KeptIdentity(p, LastOnly(ks));
  }
}
