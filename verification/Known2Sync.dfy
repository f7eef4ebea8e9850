/** CAICHSyncThread: converting, scanning, cleaning and indexing the AICH hash set file. */
module Known2Sync {
  import opened Wrappers
  import opened Bytes
  import opened ByteFiles
  import opened Known2Records
  import opened Known2Pass

  /** A hash moves to a later position only; the position it leaves is reported. */
  predicate Added(before: map<Hash, nat>, h: Hash, filePos: nat, foundPos: nat, after: map<Hash, nat>) {
    if h !in before then foundPos == 0 && after == before[h := filePos]
    else if filePos <= before[h] then foundPos == 0 && after == before
    else foundPos == before[h] && after == before[h := filePos]
  }

  /** CAICHRecoveryHashSet::m_mapAICHHashsStored, the index hash -> file position. */
  class StoredHashes {
    var stored: map<Hash, nat>

    constructor ()
      ensures stored == map[]
    {
      stored := map[];
    }

    /** Returns the position the hash had before, 0 when it had none or a later one. */
    method AddStoredAICHHash(h: Hash, filePos: nat) returns (foundPos: nat)
      modifies this
      ensures Added(old(stored), h, filePos, foundPos, stored)
    {
      if h in stored {
        foundPos := stored[h];
        if filePos <= foundPos {
          return 0;
        }
      } else {
        foundPos := 0;
      }
      stored := stored[h := filePos];
    }
  }

  // ----- the scan -----

  /** True when the whole file is a version byte and well-formed records, or is empty. */
  predicate WellFormed(data: seq<byte>) {
    data == [] ||
    (data[0] == KNOWN2_MET_VERSION && EncodeOfParse(data[1..]) == data[1..])
  }

  /** The longest well-formed prefix of a byte string. */
  function EncodeOfParse(s: seq<byte>): (e: seq<byte>)
    ensures e <= s
  {
    EncodeAllOfParse(W, s);
    EncodeAll(W, Parse(W, s))
  }

  /** The records a scan of the file walks over. */
  function RecordsIn(data: seq<byte>): (rs: seq<Record>)
    ensures AllValid(W, rs)
    ensures data != [] && data[0] == KNOWN2_MET_VERSION ==> FileOf(rs) <= data
  {
    if data == [] || data[0] != KNOWN2_MET_VERSION then [] else
    EncodeAllOfParse(W, data[1..]);
    Parse(W, data[1..])
  }

  /** End of the last good record, 0 when there is none. */
  function LastVerifiedPos(data: seq<byte>): nat {
    var rs := RecordsIn(data);
    if rs == [] then 0 else |FileOf(rs)|
  }

  function HashList(rs: seq<Record>): (hs: seq<Hash>)
    ensures |hs| == |rs| && forall i :: 0 <= i < |rs| ==> hs[i] == rs[i].hash
  {
    seq(|rs|, i requires 0 <= i < |rs| => rs[i].hash)
  }

  function PosList(rs: seq<Record>): (ps: seq<nat>)
    requires AllValid(W, rs)
    ensures |ps| == |rs| && forall i :: 0 <= i < |rs| ==> ps[i] == Offset(rs, i)
  {
    seq(|rs|, i requires 0 <= i < |rs| => Offset(rs, i))
  }

  /** What a damaged file is cut back to: nLastVerifiedPos is a uint32, so its low 32 bits count. */
  function CutBack(data: seq<byte>): (d: seq<byte>) {
    var n := LastVerifiedPos(data) % TWO_32;
    if n == 0 then [KNOWN2_MET_VERSION] else data[..n]
  }

  /** The reading half of the scan; false stands for the end-of-file exception. */
  method ReadRecords(file: ByteFile)
    returns (ok: bool, hashes: seq<Hash>, positions: seq<nat>, lastVerifiedPos: nat)
    requires file.pos == 0 && file.data != []
    modifies file`pos
    ensures lastVerifiedPos == LastVerifiedPos(file.data) % TWO_32
    ensures ok <==> WellFormed(file.data)
    ensures ok ==> hashes == HashList(RecordsIn(file.data)) && positions == PosList(RecordsIn(file.data))
  {
    hide HashList, PosList, Parse, Val32, EncodeAll, RecordsIn, FileOf, WellFormed, LastVerifiedPos;
    ScanStarts(file.data);
    hashes, positions, lastVerifiedPos := [], [], 0;
    var header := file.Read(1);
    if header.bytes[0] != KNOWN2_MET_VERSION {
      ok := false;
      return;
    }
    ghost var done: seq<Record> := [];
    while file.pos < |file.data|
      invariant ScanAt(file.data, done, file.pos)
      invariant hashes == HashList(done) && positions == PosList(done)
      invariant lastVerifiedPos == (if done == [] then 0 else file.pos) % TWO_32
      decreases |file.data| - file.pos
    {
      var start := file.pos;
      positions := positions + [start];
      var hash := file.Read(HASHSIZE);
      if hash == EndOfFile {
        ScanStops(file.data, done, start);
        LastGoodEnd(file.data, done, start);
        return false, hashes, positions, lastVerifiedPos;
      }
      hashes := hashes + [hash.bytes];
      var count := file.Read(W);
      if count == EndOfFile {
        ScanStops(file.data, done, start);
        LastGoodEnd(file.data, done, start);
        return false, hashes, positions, lastVerifiedPos;
      }
      var n := Val32(count.bytes);
      ghost var r := ParseOne(W, file.data[start..]);
      ParseOneAt(file.data, start);
      if file.pos + n * HASHSIZE > |file.data| {
        ScanStops(file.data, done, start);
        LastGoodEnd(file.data, done, start);
        return false, hashes, positions, lastVerifiedPos;
      }
      file.Seek(file.pos + n * HASHSIZE);
      lastVerifiedPos := file.pos % TWO_32;
      ScanGoesOn(file.data, done, start, r.value);
      done := done + [r.value];
    }
    ScanEnds(file.data, done, file.pos);
    LastGoodEnd(file.data, done, file.pos);
    ok := true;
  }

  /** The scan stands at pos with the records of done behind it. */
  ghost predicate ScanAt(data: seq<byte>, done: seq<Record>, pos: nat) {
    && data != [] && data[0] == KNOWN2_MET_VERSION
    && AllValid(W, done)
    && FileOf(done) <= data
    && pos == |FileOf(done)|
  }

  lemma ScanStarts(data: seq<byte>)
    requires data != []
    ensures HashList([]) == [] && PosList([]) == []
    ensures if data[0] == KNOWN2_MET_VERSION then ScanAt(data, [], 1)
      else !WellFormed(data) && LastVerifiedPos(data) == 0
  {
  }

  lemma LastGoodEnd(data: seq<byte>, done: seq<Record>, pos: nat)
    requires ScanAt(data, done, pos) && RecordsIn(data) == done
    ensures LastVerifiedPos(data) == if done == [] then 0 else pos
  {
  }

  /** ParseOne in terms of the reads that the scan makes. */
  lemma ParseOneAt(data: seq<byte>, pos: nat)
    requires pos + HASHSIZE + W <= |data|
    ensures var n := Val32(data[pos + HASHSIZE..pos + HASHSIZE + W]);
      ParseOne(W, data[pos..]) ==
      if pos + HASHSIZE + W + n * HASHSIZE > |data| then None else
      Some(Record(data[pos..pos + HASHSIZE],
                  data[pos + HASHSIZE + W..pos + HASHSIZE + W + n * HASHSIZE]))
  {
    SliceOfTail(data, pos, 0, HASHSIZE);
    SliceOfTail(data, pos, HASHSIZE, HASHSIZE + W);
    var k := Val32(data[pos + HASHSIZE..pos + HASHSIZE + W]) * HASHSIZE;
    if pos + HASHSIZE + W + k <= |data| {
      SliceOfTail(data, pos, HASHSIZE + W, HASHSIZE + W + k);
    }
  }

  lemma TailAt(data: seq<byte>, done: seq<Record>, pos: nat)
    requires ScanAt(data, done, pos)
    ensures EncodeAll(W, done) <= data[1..]
    ensures data[1..][|EncodeAll(W, done)|..] == data[pos..]
  {
    assert FileOf(done)[1..] == EncodeAll(W, done);
  }

  lemma ScanStops(data: seq<byte>, done: seq<Record>, pos: nat)
    requires ScanAt(data, done, pos) && pos < |data| && ParseOne(W, data[pos..]).None?
    ensures RecordsIn(data) == done && !WellFormed(data)
  {
    TailAt(data, done, pos);
    ParseDone(W, data[1..], done);
  }

  lemma ScanEnds(data: seq<byte>, done: seq<Record>, pos: nat)
    requires ScanAt(data, done, pos) && pos == |data|
    ensures RecordsIn(data) == done && WellFormed(data)
  {
    TailAt(data, done, pos);
    ParseDone(W, data[1..], done);
  }

  lemma ScanGoesOn(data: seq<byte>, done: seq<Record>, pos: nat, r: Record)
    requires ScanAt(data, done, pos) && ParseOne(W, data[pos..]) == Some(r)
    ensures ScanAt(data, done + [r], pos + HASHSIZE + W + |r.body|)
    ensures HashList(done + [r]) == HashList(done) + [r.hash]
    ensures PosList(done + [r]) == PosList(done) + [pos]
  {
    TailAt(data, done, pos);
    ParseStep(W, data[1..], done, r);
    ListsStep(done, r);
    assert data == [data[0]] + data[1..];
  }

  lemma ListsStep(done: seq<Record>, r: Record)
    requires AllValid(W, done) && Valid(W, r)
    ensures AllValid(W, done + [r])
    ensures HashList(done + [r]) == HashList(done) + [r.hash]
    ensures PosList(done + [r]) == PosList(done) + [|FileOf(done)|]
  {
    forall i | 0 <= i <= |done| ensures Offset(done + [r], i) == Offset(done, i) {
      OffsetStep(done, r, i);
    }
    assert done[..|done|] == done;
  }

  /**
   The scan at start-up. A file with a foreign version or a bad record is cut back to its last
   good record and the run ends; an empty file gets its version byte.
   */
  method ScanFile(file: ByteFile) returns (ok: bool, hashes: seq<Hash>, positions: seq<nat>)
    requires file.pos == 0
    modifies file
    ensures ok <==> WellFormed(old(file.data))
    ensures ok ==>
      && file.data == FileOf(RecordsIn(old(file.data)))
      && hashes == HashList(RecordsIn(old(file.data)))
      && positions == PosList(RecordsIn(old(file.data)))
    ensures !ok ==> file.data == CutBack(old(file.data))
  {
    if |file.data| >= 1 {
      var last;
      ok, hashes, positions, last := ReadRecords(file);
      if !ok {
        file.SetLength(last);
        if |file.data| == 0 {
          file.Seek(0);
          file.Write([KNOWN2_MET_VERSION]);
        }
      }
    } else {
      file.Write([KNOWN2_MET_VERSION]);
      ok, hashes, positions := true, [], [];
    }
  }

  /**
   What the cut leaves is the version byte and the longest run of good records, and it scans to
   its end; exactly when the last good record ends below 4 GiB, where the uint32 keeps its position.
   */
  lemma CutBackKeepsGoodRecords(data: seq<byte>)
    requires !WellFormed(data)
    ensures CutBack(data) == FileOf(RecordsIn(data)) <==> LastVerifiedPos(data) < TWO_32
    ensures LastVerifiedPos(data) < TWO_32 ==>
      WellFormed(CutBack(data)) && RecordsIn(CutBack(data)) == RecordsIn(data)
    ensures data[0] == KNOWN2_MET_VERSION ==>
      forall rs :: AllValid(W, rs) && FileOf(rs) <= data ==> rs <= RecordsIn(data)
  {
    var rs := RecordsIn(data);
    if LastVerifiedPos(data) < TWO_32 {
      assert CutBack(data) == FileOf(rs);
      FileOfScans(rs);
    } else {
      assert |CutBack(data)| < |FileOf(rs)|;
    }
    if data[0] == KNOWN2_MET_VERSION {
      forall qs | AllValid(W, qs) && FileOf(qs) <= data ensures qs <= rs {
        assert FileOf(qs)[1..] == EncodeAll(W, qs) <= data[1..];
        ParseIsLongest(W, qs, data[1..]);
      }
    }
  }

  /** The limit is real: a damaged file whose one good record has a body of 4 GiB loses that record. */
  lemma BigRecordIsLost(r: Record)
    requires r == Record(EMPTY, Zeros(214_748_365 * HASHSIZE))
    ensures Valid(W, r)
    ensures var data := FileOf([r]) + [0];
      !WellFormed(data) && RecordsIn(data) == [r] && CutBack(data) != FileOf([r])
  {
    hide Encode, Zeros, CutBack;
    var e, data := EncodeAll(W, [r]), FileOf([r]) + [0];
    EncodeAllOne(W, r);
    assert data[1..] == e + [0];
    ParseOfEncodeAll(W, [r], [0]);
    assert Parse(W, [0]) == [];
    assert [r] + [] == [r];
    CutBackKeepsGoodRecords(data);
  }

  /** A file written from records scans back to those records. */
  lemma FileOfScans(rs: seq<Record>)
    requires AllValid(W, rs)
    ensures WellFormed(FileOf(rs)) && RecordsIn(FileOf(rs)) == rs
  {
    var e := EncodeAll(W, rs);
    assert FileOf(rs)[1..] == e == e + [];
    ParseOfEncodeAll(W, rs, []);
    assert Parse(W, []) == [];
    assert rs + [] == rs;
  }

  // ----- the in-place clean-up -----

  /**
   The file halfway through the pass: the records written so far, then bytes of no interest, then
   the records still to be read. That the write position never passes the read position is what
   keeps every unread byte intact.
   */
  ghost predicate Layout(data: seq<byte>, ms: seq<Record>, rest: seq<Record>, writePos: nat, readPos: nat) {
    && AllValid(W, ms) && AllValid(W, rest)
    && writePos <= readPos <= |data|
    && data[..writePos] == FileOf(ms)
    && data[readPos..] == EncodeAll(W, rest)
  }

  function Size(r: Record): nat { HASHSIZE + W + |r.body| }

  lemma OverwriteInside(d: seq<byte>, p: nat, b: seq<byte>)
    requires p + |b| <= |d|
    ensures var d' := Overwrite(d, p, b);
      |d'| == |d| && d'[..p] == d[..p] && d'[p..p + |b|] == b && d'[p + |b|..] == d[p + |b|..]
  {
  }

  lemma OverwriteTwice(d: seq<byte>, p: nat, a: seq<byte>, b: seq<byte>)
    requires p + |a| + |b| <= |d|
    ensures Overwrite(Overwrite(d, p, a), p + |a|, b) == Overwrite(d, p, a + b)
  {
  }

  lemma ThreeWrites(d: seq<byte>, p: nat, a: seq<byte>, b: seq<byte>, c: seq<byte>)
    requires p + |a| + |b| + |c| <= |d|
    ensures Overwrite(Overwrite(Overwrite(d, p, a), p + |a|, b), p + |a| + |b|, c) == Overwrite(d, p, a + b + c)
  {
    OverwriteTwice(d, p, a, b);
    OverwriteTwice(d, p, a + b, c);
  }

  /** The next unread record is where the cursor is. */
  lemma NextRecord(data: seq<byte>, ms: seq<Record>, rest: seq<Record>, writePos: nat, pos: nat)
    requires Layout(data, ms, rest, writePos, pos) && pos < |data|
    ensures rest != [] && pos + Size(rest[0]) <= |data|
    ensures data[pos..pos + HASHSIZE] == rest[0].hash
    ensures data[pos + HASHSIZE..pos + HASHSIZE + W] == LeCount(W, Count(rest[0]))
    ensures data[pos + HASHSIZE + W..pos + Size(rest[0])] == rest[0].body
    ensures data[pos + Size(rest[0])..] == EncodeAll(W, rest[1..])
    ensures data[pos..pos + Size(rest[0])] == Encode(W, rest[0])
  {
    var e, z := Encode(W, rest[0]), EncodeAll(W, rest[1..]);
    var t := data[pos..];
    assert t == e + z;
    assert t[..|e|] == e && t[|e|..] == z;
    assert e[..HASHSIZE] == rest[0].hash;
    assert e[HASHSIZE..HASHSIZE + W] == LeCount(W, Count(rest[0]));
    assert e[HASHSIZE + W..] == rest[0].body;
    SliceOfTail(data, pos, 0, HASHSIZE);
    SliceOfTail(data, pos, HASHSIZE, HASHSIZE + W);
    SliceOfTail(data, pos, HASHSIZE + W, |e|);
    SliceOfTail(data, pos, 0, |e|);
    SliceOfTail(data, pos, |e|, |t|);
    assert t[..HASHSIZE] == e[..HASHSIZE];
    assert t[HASHSIZE..HASHSIZE + W] == e[HASHSIZE..HASHSIZE + W];
    assert t[HASHSIZE + W..|e|] == e[HASHSIZE + W..];
  }

  lemma SliceOfTail<T>(s: seq<T>, p: nat, i: nat, j: nat)
    requires i <= j && p + j <= |s|
    ensures s[p..][i..j] == s[p + i..p + j]
  {
  }

  lemma FileOfAppend(ms: seq<Record>, r: Record)
    requires AllValid(W, ms) && Valid(W, r)
    ensures AllValid(W, ms + [r]) && FileOf(ms + [r]) == FileOf(ms) + Encode(W, r)
  {
    EncodeAllAppend(W, ms, [r]);
    EncodeAllOne(W, r);
  }

  lemma KeptInPlace(data: seq<byte>, ms: seq<Record>, rest: seq<Record>, pos: nat)
    requires Layout(data, ms, rest, pos, pos) && pos < |data|
    ensures rest != []
    ensures var next := pos + Size(rest[0]); Layout(data, ms + [rest[0]], rest[1..], next, next)
  {
    NextRecord(data, ms, rest, pos, pos);
    FileOfAppend(ms, rest[0]);
    var next := pos + Size(rest[0]);
    assert data[..next] == data[..pos] + data[pos..next];
  }

  /** Writing the record at the write position ends at or before the next unread byte. */
  lemma KeptMoved(data: seq<byte>, ms: seq<Record>, rest: seq<Record>, writePos: nat, pos: nat)
    requires Layout(data, ms, rest, writePos, pos) && pos < |data|
    ensures rest != []
    ensures writePos + Size(rest[0]) <= pos + Size(rest[0]) <= |data|
    ensures Layout(Overwrite(data, writePos, Encode(W, rest[0])), ms + [rest[0]], rest[1..],
                   writePos + Size(rest[0]), pos + Size(rest[0]))
  {
    hide Encode, Overwrite, EncodeAll, FileOf, Valid;
    NextRecord(data, ms, rest, writePos, pos);
    FileOfAppend(ms, rest[0]);
    var e := Encode(W, rest[0]);
    OverwriteInside(data, writePos, e);
    var d := Overwrite(data, writePos, e);
    var w', p' := writePos + |e|, pos + |e|;
    assert d[..w'] == d[..writePos] + d[writePos..w'];
    assert d[p'..] == d[w'..][p' - w'..];
    assert data[p'..] == data[w'..][p' - w'..];
  }

  lemma OverwriteFront(d: seq<byte>, w: nat, p: nat, n: nat, b: seq<byte>)
    requires n + |b| <= w <= p <= |d|
    ensures var d' := Overwrite(d, n, b);
      |d'| == |d| && d'[..w] == Overwrite(d[..w], n, b) && d'[p..] == d[p..]
  {
  }

  lemma SplitInside(a: seq<byte>, h: seq<byte>, tail: seq<byte>, z: seq<byte>)
    ensures a + (h + tail) + z == a + h + (tail + z)
  {
  }

  lemma ClearedFile(ms: seq<Record>, i: nat)
    requires AllValid(W, ms) && i < |ms|
    ensures Offset(ms, i) + HASHSIZE <= |FileOf(ms)|
    ensures AllValid(W, ms[i := Cleared(ms[i])])
    ensures Overwrite(FileOf(ms), Offset(ms, i), EMPTY) == FileOf(ms[i := Cleared(ms[i])])
  {
    hide FileOf, EncodeAll, Overwrite, LeCount;
    var ms' := ms[i := Cleared(ms[i])];
    SplitAt(ms, i);
    SplitAt(ms', i);
    assert ms'[..i] == ms[..i] && ms'[i + 1..] == ms[i + 1..];
    var a, tail := FileOf(ms[..i]), LeCount(W, Count(ms[i])) + ms[i].body;
    var z := EncodeAll(W, ms[i + 1..]);
    assert Encode(W, ms[i]) == ms[i].hash + tail;
    assert Encode(W, ms'[i]) == EMPTY + tail;
    SplitInside(a, ms[i].hash, tail, z);
    SplitInside(a, EMPTY, tail, z);
    OverwriteMiddle(a, ms[i].hash, tail + z, EMPTY);
  }

  /** Clearing the hash of a written record changes that record only. */
  lemma ClearedInPlace(data: seq<byte>, ms: seq<Record>, rest: seq<Record>, writePos: nat, pos: nat, i: nat)
    requires Layout(data, ms, rest, writePos, pos) && i < |ms|
    ensures Offset(ms, i) + HASHSIZE <= writePos
    ensures Layout(Overwrite(data, Offset(ms, i), EMPTY), ms[i := Cleared(ms[i])], rest, writePos, pos)
    ensures |Overwrite(data, Offset(ms, i), EMPTY)| == |data|
  {
    ClearedFile(ms, i);
    OverwriteFront(data, writePos, pos, Offset(ms, i), EMPTY);
  }

  /** Everything the pass knows when ks are the kept records and rest the unread ones. */
  ghost predicate PassAt(data: seq<byte>, index: map<Hash, nat>, ks: seq<Record>, rest: seq<Record>,
                         writePos: nat, readPos: nat)
  {
    && AllValid(W, ks)
    && Layout(data, Marked(ks), rest, writePos, readPos)
    && index == Index(ks)
  }

  lemma PassDrops(data: seq<byte>, index: map<Hash, nat>, ks: seq<Record>, rest: seq<Record>, writePos: nat, pos: nat)
    requires PassAt(data, index, ks, rest, writePos, pos)
    requires pos < |data| && rest != []
    ensures pos + Size(rest[0]) <= |data|
    ensures PassAt(data, index, ks, rest[1..], writePos, pos + Size(rest[0]))
  {
    NextRecord(data, Marked(ks), rest, writePos, pos);
  }

  /** Where the index already has the hash of a kept record, that is an earlier record's place. */
  lemma EarlierDuplicate(ks: seq<Record>, r: Record) returns (i: nat)
    requires AllValid(W, ks) && Valid(W, r)
    requires r.hash in Index(ks)
    ensures r.hash in Hashes(ks) && i == LastIndex(ks, r.hash)
    ensures 0 < Index(ks)[r.hash] == Offset(Marked(ks) + [r], i) < |FileOf(Marked(ks))|
  {
    IndexIsLast(ks);
    i := LastIndex(ks, r.hash);
    var ms := Marked(ks);
    MarkedOffset(ks, i);
    OffsetStep(ms, r, i);
    OffsetsIncrease(ms, i, |ks|);
    assert ms[..|ks|] == ms;
  }

  lemma IndexGrows(ks: seq<Record>, r: Record)
    requires AllValid(W, ks) && Valid(W, r)
    ensures AllValid(W, ks + [r])
    ensures Index(ks + [r]) == Index(ks)[r.hash := |FileOf(Marked(ks))|]
  {
    IndexStep(ks, r);
    MarkedOffset(ks, |ks|);
    assert Marked(ks)[..|ks|] == Marked(ks);
  }

  lemma PassKeepsNew(data: seq<byte>, ks: seq<Record>, r: Record, rest: seq<Record>, writePos: nat, pos: nat)
    requires AllValid(W, ks) && Valid(W, r)
    requires Layout(data, Marked(ks) + [r], rest, writePos, pos)
    requires r.hash !in Index(ks)
    ensures PassAt(data, Index(ks)[r.hash := |FileOf(Marked(ks))|], ks + [r], rest, writePos, pos)
  {
    assert Marked(ks + [r]) == Marked(ks) + [r] by {
      IndexIsLast(ks);
      MarkedStep(ks, r);
    }
    IndexGrows(ks, r);
  }

  /** After a kept record is in place, clearing its earlier duplicate completes the step. */
  lemma PassKeepsDuplicate(data: seq<byte>, ks: seq<Record>, r: Record, rest: seq<Record>, writePos: nat, pos: nat)
    requires AllValid(W, ks) && Valid(W, r)
    requires Layout(data, Marked(ks) + [r], rest, writePos, pos)
    requires r.hash in Index(ks)
    ensures var d := Overwrite(data, Index(ks)[r.hash], EMPTY);
      |d| == |data| && PassAt(d, Index(ks)[r.hash := |FileOf(Marked(ks))|], ks + [r], rest, writePos, pos)
  {
    var i := EarlierDuplicate(ks, r);
    var ms := Marked(ks) + [r];
    assert ms[i := Cleared(ms[i])] == Marked(ks + [r]) by { ClearedMarks(ks, r); }
    ClearedInPlace(data, ms, rest, writePos, pos, i);
    IndexGrows(ks, r);
  }

  lemma ClearedMarks(ks: seq<Record>, r: Record)
    requires r.hash in Hashes(ks)
    ensures var i, ms := LastIndex(ks, r.hash), Marked(ks) + [r];
      ms[i := Cleared(ms[i])] == Marked(ks + [r])
  {
    MarkedStep(ks, r);
    MarkedAt(ks);
  }

  /** Copies a record, whose head was just read, down to the write position. */
  method MoveRecord(file: ByteFile, h: Hash, n: nat, writePos: nat) returns (newWritePos: nat)
    requires n < TWO_32 && writePos + HASHSIZE + W <= file.pos
    requires file.pos + n * HASHSIZE <= |file.data|
    modifies file
    ensures file.data == Overwrite(old(file.data), writePos,
      h + Le32(n) + old(file.data)[old(file.pos)..old(file.pos) + n * HASHSIZE])
    ensures file.pos == old(file.pos) + n * HASHSIZE
    ensures newWritePos == writePos + HASHSIZE + W + n * HASHSIZE
  {
    hide Overwrite, Le32, Val32;
    var buffer := file.Read(n * HASHSIZE);
    var readPos := file.pos;
    file.Seek(writePos);
    ThreeWrites(file.data, writePos, h, Le32(n), buffer.bytes);
    file.Write(h);
    file.Write(Le32(n));
    file.Write(buffer.bytes);
    newWritePos := file.pos;
    file.Seek(readPos);
  }

  /** The bytes that MoveRecord writes are the record it read. */
  lemma MovedBytes(data: seq<byte>, ms: seq<Record>, rest: seq<Record>, writePos: nat, pos: nat)
    requires Layout(data, ms, rest, writePos, pos) && pos < |data|
    ensures rest != [] && pos + Size(rest[0]) <= |data|
    ensures rest[0].hash + Le32(Count(rest[0])) + data[pos + HASHSIZE + W..pos + Size(rest[0])] == Encode(W, rest[0])
  {
    NextRecord(data, ms, rest, writePos, pos);
  }

  /**
   Puts the record whose head was just read behind the kept ones: by stepping over it while
   nothing has been dropped yet, by copying it down afterwards.
   */
  method PlaceRecord(file: ByteFile, h: Hash, n: nat, purged: nat, writePos: nat,
                     ghost ms: seq<Record>, ghost rest: seq<Record>)
    returns (newWritePos: nat)
    requires file.pos >= HASHSIZE + W
    requires Layout(file.data, ms, rest, writePos, file.pos - HASHSIZE - W)
    requires file.pos - HASHSIZE - W < |file.data| && rest != []
    requires h == rest[0].hash && n == Count(rest[0])
    requires purged == 0 ==> writePos == file.pos - HASHSIZE - W
    modifies file
    ensures Layout(file.data, ms + [rest[0]], rest[1..], newWritePos, file.pos)
    ensures |file.data| == |old(file.data)|
    ensures purged == 0 ==> newWritePos == file.pos
  {
    hide Overwrite, Le32, Encode, FileOf, EncodeAll;
    ghost var pos := file.pos - HASHSIZE - W;
    if purged == 0 {
      KeptInPlace(file.data, ms, rest, writePos);
      file.Seek(file.pos + n * HASHSIZE);
      newWritePos := file.pos;
    } else {
      KeptMoved(file.data, ms, rest, writePos, pos);
      MovedBytes(file.data, ms, rest, writePos, pos);
      newWritePos := MoveRecord(file, h, n, writePos);
    }
  }

  lemma KeptIndexed(data: seq<byte>, before: map<Hash, nat>, ks: seq<Record>, rest: seq<Record>,
                    filePos: nat, writePos: nat, readPos: nat, foundPos: nat, after: map<Hash, nat>)
    requires AllValid(W, ks) && rest != [] && Valid(W, rest[0])
    requires before == Index(ks) && filePos == |FileOf(Marked(ks))|
    requires Layout(data, Marked(ks) + [rest[0]], rest[1..], writePos, readPos)
    requires Added(before, rest[0].hash, filePos, foundPos, after)
    ensures foundPos != 0 <==> rest[0].hash in before
    ensures after == before[rest[0].hash := filePos]
    ensures var data' := if foundPos == 0 then data else Overwrite(data, foundPos, EMPTY);
      |data'| == |data| && PassAt(data', after, ks + [rest[0]], rest[1..], writePos, readPos)
  {
    var r := rest[0];
    if r.hash in before {
      var i := EarlierDuplicate(ks, r);
      PassKeepsDuplicate(data, ks, r, rest[1..], writePos, readPos);
    } else {
      PassKeepsNew(data, ks, r, rest[1..], writePos, readPos);
    }
  }

  lemma LayoutFacts(data: seq<byte>, ms: seq<Record>, rest: seq<Record>, writePos: nat, pos: nat)
    requires Layout(data, ms, rest, writePos, pos)
    ensures writePos == |FileOf(ms)|
    ensures rest != [] ==> Valid(W, rest[0])
    ensures pos < |data| <==> rest != []
  {
  }

  /** Keeps one record: places it, indexes it, and clears the hash of its earlier duplicate. */
  method KeepRecord(file: ByteFile, index: StoredHashes, h: Hash, n: nat, purged: nat, writePos: nat,
                    ghost ks: seq<Record>, ghost rest: seq<Record>)
    returns (dup: bool, newWritePos: nat)
    requires file.pos >= HASHSIZE + W
    requires PassAt(file.data, index.stored, ks, rest, writePos, file.pos - HASHSIZE - W)
    requires file.pos - HASHSIZE - W < |file.data| && rest != []
    requires h == rest[0].hash && n == Count(rest[0])
    requires purged == 0 ==> writePos == file.pos - HASHSIZE - W
    modifies file, index
    ensures PassAt(file.data, index.stored, ks + [rest[0]], rest[1..], newWritePos, file.pos)
    ensures |file.data| == |old(file.data)|
    ensures purged == 0 ==> newWritePos == file.pos
    ensures dup <==> h in old(index.stored)
    ensures |index.stored| == |old(index.stored)| + if dup then 0 else 1
  {
    LayoutFacts(file.data, Marked(ks), rest, writePos, file.pos - HASHSIZE - W);
    ghost var before := index.stored;
    newWritePos := PlaceRecord(file, h, n, purged, writePos, Marked(ks), rest);
    var readPos := file.pos;
    var posTmp := index.AddStoredAICHHash(h, writePos);
    KeptIndexed(file.data, before, ks, rest, writePos, newWritePos, readPos, posTmp, index.stored);
    if posTmp != 0 {
      file.Seek(posTmp);
      file.Write(EMPTY);
      file.Seek(readPos);
    }
    dup := posTmp != 0;
  }

  /** One turn of the pass's loop: reads a record head and drops or keeps the record. */
  method PassRecord(file: ByteFile, index: StoredHashes, p: Policy, purged: nat, writePos: nat,
                    ghost ks: seq<Record>, ghost rest: seq<Record>)
    returns (drop: bool, aged: bool, dup: bool, newWritePos: nat)
    requires PassAt(file.data, index.stored, ks, rest, writePos, file.pos)
    requires file.pos < |file.data| && rest != []
    requires purged == 0 ==> writePos == file.pos
    modifies file, index
    ensures drop <==> p.Drops(rest[0].hash)
    ensures aged <==> p.Ages(rest[0].hash)
    ensures PassAt(file.data, index.stored, if drop then ks else ks + [rest[0]], rest[1..], newWritePos, file.pos)
    ensures |file.data| == |old(file.data)|
    ensures dup ==> !drop
    ensures purged == 0 && !drop ==> newWritePos == file.pos
    ensures |index.stored| == |old(index.stored)| + (if drop || dup then 0 else 1)
  {
    hide Layout, Index, Marked, AllValid, Valid, Count, Val32, FileOf, EncodeAll;
    NextHead(file.data, Marked(ks), rest, writePos, file.pos);
    drop, aged, dup, newWritePos := false, false, false, writePos;
    ghost var pos := file.pos;
    var hash := file.Read(HASHSIZE);
    var count := file.Read(W);
    var n := Val32(count.bytes);
    var h: Hash := hash.bytes;
    if p.DropsUnused(h) {
      PassDrops(file.data, index.stored, ks, rest, writePos, pos);
      file.Seek(file.pos + n * HASHSIZE);
      drop := true;
    } else if p.DropsOld(h) {
      PassDrops(file.data, index.stored, ks, rest, writePos, pos);
      file.Seek(file.pos + n * HASHSIZE);
      drop, aged := true, true;
    } else {
      dup, newWritePos := KeepRecord(file, index, h, n, purged, writePos, ks, rest);
    }
  }

  lemma NextHead(data: seq<byte>, ms: seq<Record>, rest: seq<Record>, writePos: nat, pos: nat)
    requires Layout(data, ms, rest, writePos, pos) && pos < |data|
    ensures rest != [] && pos + HASHSIZE + W <= |data|
    ensures data[pos..pos + HASHSIZE] == rest[0].hash
    ensures Val32(data[pos + HASHSIZE..pos + HASHSIZE + W]) == Count(rest[0])
    ensures |rest[0].body| == Count(rest[0]) * HASHSIZE
  {
    NextRecord(data, ms, rest, writePos, pos);
  }

  /**
   The clean-up pass itself, in place and in one sweep. It never meets the end of the file early,
   so the code's ASSERT(0) for that case stays unreached.
   */
  method PurgeFile(file: ByteFile, index: StoredHashes, p: Policy, ghost rs: seq<Record>)
    returns (purged: nat, becauseOld: nat, dups: nat, saved: nat)
    requires AllValid(W, rs) && file.data == FileOf(rs) && index.stored == map[]
    modifies file, index
    ensures AllValid(W, Kept(p, rs))
    ensures file.data == FileOf(Pass(p, rs))
    ensures index.stored == Index(Kept(p, rs))
    ensures purged == |rs| - |Kept(p, rs)| && becauseOld == Aged(p, rs)
    ensures dups == |Kept(p, rs)| - |index.stored|
    ensures saved == |FileOf(rs)| - |file.data|
  {
    hide Purging, Kept, Marked, Index, EncodeAll, AllValid, FileOf, Valid, Aged;
    FileStarts(rs);
    file.Seek(0);
    var header := file.Read(1);
    assert header.bytes[0] == KNOWN2_MET_VERSION;
    var existingSize := |file.data|;
    var writePos := file.pos;
    purged, becauseOld, dups := 0, 0, 0;
    ghost var k := 0;
    PurgeStarts(p, rs);
    while file.pos < existingSize
      invariant |file.data| == existingSize
      invariant Purging(p, rs, k, file.data, index.stored, writePos, file.pos, purged, becauseOld, dups)
      decreases |rs| - k
    {
      PurgeGoesOn(p, rs, k, file.data, index.stored, writePos, file.pos, purged, becauseOld, dups);
      purged, becauseOld, dups, writePos := PurgeNext(file, index, p, purged, becauseOld, dups, writePos, rs, k);
      k := k + 1;
    }
    PurgeEnds(p, rs, k, file.data, index.stored, writePos, file.pos, purged, becauseOld, dups);
    saved := file.pos - writePos;
    file.SetLength(writePos);
  }

  /** The pass after the first k records: what it has kept, counted and indexed. */
  ghost predicate Purging(p: Policy, rs: seq<Record>, k: nat, data: seq<byte>, index: map<Hash, nat>,
                          writePos: nat, pos: nat, purged: nat, becauseOld: nat, dups: nat)
  {
    k <= |rs| &&
    var ks := Kept(p, rs[..k]);
    && PassAt(data, index, ks, rs[k..], writePos, pos)
    && purged == k - |ks| && becauseOld == Aged(p, rs[..k]) && dups == |ks| - |index|
    && (purged == 0 ==> writePos == pos)
  }

  lemma PurgeStarts(p: Policy, rs: seq<Record>)
    requires AllValid(W, rs)
    ensures Purging(p, rs, 0, FileOf(rs), map[], 1, 1, 0, 0, 0)
  {
    PassStarts(p, rs);
    assert rs[..0] == [] && rs[0..] == rs;
    assert Kept(p, []) == [];
  }

  lemma PurgeGoesOn(p: Policy, rs: seq<Record>, k: nat, data: seq<byte>, index: map<Hash, nat>,
                    writePos: nat, pos: nat, purged: nat, becauseOld: nat, dups: nat)
    requires Purging(p, rs, k, data, index, writePos, pos, purged, becauseOld, dups) && pos < |data|
    ensures k < |rs|
  {
    PassFacts(data, index, Kept(p, rs[..k]), rs[k..], writePos, pos);
  }

  lemma PurgeEnds(p: Policy, rs: seq<Record>, k: nat, data: seq<byte>, index: map<Hash, nat>,
                  writePos: nat, pos: nat, purged: nat, becauseOld: nat, dups: nat)
    requires AllValid(W, rs) && pos >= |data|
    requires Purging(p, rs, k, data, index, writePos, pos, purged, becauseOld, dups)
    ensures AllValid(W, Kept(p, rs)) && AllValid(W, Pass(p, rs)) && writePos <= pos == |data|
    ensures data[..writePos] == FileOf(Pass(p, rs)) && index == Index(Kept(p, rs))
    ensures purged == |rs| - |Kept(p, rs)| && becauseOld == Aged(p, rs) && dups == |Kept(p, rs)| - |index|
  {
    hide PassAt, Kept, Marked, Index, FileOf, AllValid, Aged;
    PassFacts(data, index, Kept(p, rs[..k]), rs[k..], writePos, pos);
    assert rs[..k] == rs;
    KeptValid(p, rs);
  }

  /** One turn of the loop with its counters. */
  method PurgeNext(file: ByteFile, index: StoredHashes, p: Policy, purged: nat, becauseOld: nat, dups: nat, writePos: nat,
                   ghost rs: seq<Record>, ghost k: nat)
    returns (purged': nat, becauseOld': nat, dups': nat, writePos': nat)
    requires Purging(p, rs, k, file.data, index.stored, writePos, file.pos, purged, becauseOld, dups)
    requires k < |rs| && file.pos < |file.data|
    modifies file, index
    ensures Purging(p, rs, k + 1, file.data, index.stored, writePos', file.pos, purged', becauseOld', dups')
    ensures |file.data| == |old(file.data)|
  {
    hide PassAt, Kept, Aged;
    ghost var ks, rest := Kept(p, rs[..k]), rs[k..];
    TakeOne(p, rs, k);
    var drop, aged, dup;
    drop, aged, dup, writePos' := PassRecord(file, index, p, purged, writePos, ks, rest);
    purged' := purged + if drop then 1 else 0;
    becauseOld' := becauseOld + if aged then 1 else 0;
    dups' := dups + if dup then 1 else 0;
  }

  lemma FileStarts(rs: seq<Record>)
    requires AllValid(W, rs)
    ensures FileOf(rs) != [] && FileOf(rs)[0] == KNOWN2_MET_VERSION
  {
  }

  lemma PassFacts(data: seq<byte>, index: map<Hash, nat>, ks: seq<Record>, rest: seq<Record>, writePos: nat, pos: nat)
    requires PassAt(data, index, ks, rest, writePos, pos)
    ensures pos < |data| <==> rest != []
    ensures writePos <= pos <= |data| && AllValid(W, ks) && AllValid(W, Marked(ks))
    ensures data[..writePos] == FileOf(Marked(ks)) && index == Index(ks)
  {
  }

  lemma TakeOne(p: Policy, rs: seq<Record>, k: nat)
    requires k < |rs|
    ensures rs[k..][0] == rs[k] && rs[k..][1..] == rs[k + 1..]
    ensures Kept(p, rs[..k + 1]) ==
      if p.Drops(rs[k..][0].hash) then Kept(p, rs[..k]) else Kept(p, rs[..k]) + [rs[k..][0]]
    ensures Aged(p, rs[..k + 1]) == Aged(p, rs[..k]) + if p.Ages(rs[k..][0].hash) then 1 else 0
  {
    assert rs[..k + 1] == rs[..k] + [rs[k]];
    assert rs[..k + 1][..k] == rs[..k];
    KeptStep(p, rs[..k], rs[k]);
  }

  lemma PassStarts(p: Policy, rs: seq<Record>)
    requires AllValid(W, rs)
    ensures PassAt(FileOf(rs), map[], [], rs, 1, 1) && Aged(p, []) == 0
  {
  }
}
