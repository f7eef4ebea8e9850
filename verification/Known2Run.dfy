/** CAICHSyncThread::Run as a whole, and the conversion of the old file format before it. */
module Known2Run {
  import opened Wrappers
  import opened Bytes
  import opened ByteFiles
  import opened Known2Records
  import opened Known2Pass
  import opened Known2Sync

  // ----- conversion of known2.met -----

  lemma NarrowIsWide(rs: seq<Record>)
    requires AllValid(2, rs)
    ensures AllValid(W, rs)
  {
  }

  /** The whole records at the head of a known2.met file. */
  function OldRecords(data: seq<byte>): (rs: seq<Record>)
    ensures AllValid(2, rs) && AllValid(W, rs)
    ensures EncodeAll(2, rs) <= data
  {
    EncodeAllOfParse(2, data);
    NarrowIsWide(Parse(2, data));
    Parse(2, data)
  }

  /** The conversion stands at pos in the old file with the records of done written out. */
  ghost predicate ConvertAt(data: seq<byte>, done: seq<Record>, pos: nat) {
    AllValid(2, done) && EncodeAll(2, done) <= data && pos == |EncodeAll(2, done)|
  }

  lemma ConvertStarts(data: seq<byte>)
    ensures ConvertAt(data, [], 0) && FileOf([]) == [KNOWN2_MET_VERSION]
  {
  }

  lemma OldHead(data: seq<byte>, pos: nat)
    requires pos + HASHSIZE + 2 <= |data|
    ensures var n := Val16(data[pos + HASHSIZE..pos + HASHSIZE + 2]);
      ParseOne(2, data[pos..]) ==
      if pos + HASHSIZE + 2 + n * HASHSIZE > |data| then None else
      Some(Record(data[pos..pos + HASHSIZE],
                  data[pos + HASHSIZE + 2..pos + HASHSIZE + 2 + n * HASHSIZE]))
  {
    SliceOfTail(data, pos, 0, HASHSIZE);
    SliceOfTail(data, pos, HASHSIZE, HASHSIZE + 2);
    var k := Val16(data[pos + HASHSIZE..pos + HASHSIZE + 2]) * HASHSIZE;
    if pos + HASHSIZE + 2 + k <= |data| {
      SliceOfTail(data, pos, HASHSIZE + 2, HASHSIZE + 2 + k);
    }
  }

  lemma ConvertGoesOn(data: seq<byte>, done: seq<Record>, pos: nat, r: Record)
    requires ConvertAt(data, done, pos) && ParseOne(2, data[pos..]) == Some(r)
    ensures ConvertAt(data, done + [r], pos + HASHSIZE + 2 + |r.body|)
    ensures Valid(W, r) && AllValid(W, done) && AllValid(W, done + [r])
    ensures FileOf(done + [r]) == FileOf(done) + Encode(W, r)
  {
    ParseStep(2, data, done, r);
    NarrowIsWide(done + [r]);
    FileOfAppend(done, r);
  }

  lemma ConvertStops(data: seq<byte>, done: seq<Record>, pos: nat)
    requires ConvertAt(data, done, pos) && ParseOne(2, data[pos..]).None?
    ensures OldRecords(data) == done
  {
    ParseDone(2, data, done);
  }

  method AppendRecord(file: ByteFile, h: Hash, n: nat, body: seq<byte>)
    requires n < TWO_32 && file.pos == |file.data|
    modifies file
    ensures file.data == old(file.data) + (h + Le32(n) + body)
    ensures file.pos == |file.data|
  {
    AppendAtEnd(file.data, h);
    AppendAtEnd(file.data + h, Le32(n));
    AppendAtEnd(file.data + h + Le32(n), body);
    file.Write(h);
    file.Write(Le32(n));
    file.Write(body);
  }

  /**
   The conversion loop. The new file holds exactly the whole records at the head of the old one,
   with 32-bit counts, both when the old file is sound and when it breaks off.
   */
  method ConvertKnown2ToKnown264(oldFile: ByteFile, target: ByteFile) returns (ok: bool)
    requires oldFile != target && oldFile.pos == 0
    requires target.data == [] && target.pos == 0
    modifies oldFile`pos, target
    ensures target.data == FileOf(OldRecords(oldFile.data))
    ensures ok <==> EncodeAll(2, OldRecords(oldFile.data)) == oldFile.data
    ensures ok ==> target.pos == 0
  {
    hide Parse, Val16, EncodeAll, OldRecords, Le16, Le32, FileOf, Valid;
    ConvertStarts(oldFile.data);
    target.Write([KNOWN2_MET_VERSION]);
    ghost var done: seq<Record> := [];
    while oldFile.pos < |oldFile.data|
      invariant ConvertAt(oldFile.data, done, oldFile.pos) && AllValid(W, done)
      invariant target.data == FileOf(done) && target.pos == |target.data|
      decreases |oldFile.data| - oldFile.pos
    {
      var start := oldFile.pos;
      var hash := oldFile.Read(HASHSIZE);
      if hash == EndOfFile {
        ConvertStops(oldFile.data, done, start);
        return false;
      }
      var count := oldFile.Read(2);
      if count == EndOfFile {
        ConvertStops(oldFile.data, done, start);
        return false;
      }
      var n := Val16(count.bytes);
      OldHead(oldFile.data, start);
      if oldFile.pos + n * HASHSIZE > |oldFile.data| {
        ConvertStops(oldFile.data, done, start);
        return false;
      }
      var buffer := oldFile.Read(n * HASHSIZE);
      ghost var r := Record(hash.bytes, buffer.bytes);
      ConvertGoesOn(oldFile.data, done, start, r);
      AppendRecord(target, hash.bytes, n, buffer.bytes);
      done := done + [r];
    }
    ConvertStops(oldFile.data, done, oldFile.pos);
    target.Seek(0);
    ok := true;
  }

  /** What the conversion writes is read back as the old file's records, with nothing left over. */
  lemma ConversionKeepsRecords(oldData: seq<byte>)
    ensures WellFormed(FileOf(OldRecords(oldData)))
    ensures RecordsIn(FileOf(OldRecords(oldData))) == OldRecords(oldData)
    ensures forall rs :: AllValid(2, rs) && EncodeAll(2, rs) <= oldData ==> rs <= OldRecords(oldData)
  {
    FileOfScans(OldRecords(oldData));
    forall rs | AllValid(2, rs) && EncodeAll(2, rs) <= oldData ensures rs <= OldRecords(oldData) {
      ParseIsLongest(2, rs, oldData);
    }
  }

  // ----- which hashes are in use -----

  datatype SharedFile = SharedFile(isPartFile: bool, aich: Option<Hash>)

  /** The file's recovery hash set is stored. */
  predicate HasStored(f: SharedFile, stored: seq<Hash>) {
    f.aich.Some? && f.aich.value in stored
  }

  function UsedHashes(shared: seq<SharedFile>, stored: seq<Hash>): seq<Hash> {
    if shared == [] then [] else
    var n := |shared| - 1;
    UsedHashes(shared[..n], stored) +
    if !shared[n].isPartFile && HasStored(shared[n], stored) then [shared[n].aich.value] else []
  }

  /** The complete shared files whose hash set is not stored, and so must be hashed again. */
  function MustHash(shared: seq<SharedFile>, stored: seq<Hash>): seq<SharedFile> {
    if shared == [] then [] else
    var n := |shared| - 1;
    MustHash(shared[..n], stored) +
    if !shared[n].isPartFile && !HasStored(shared[n], stored) then [shared[n]] else []
  }

  method FindHash(stored: seq<Hash>, h: Hash) returns (found: bool)
    ensures found <==> h in stored
  {
    var i := |stored| - 1;
    while i >= 0
      invariant -1 <= i < |stored|
      invariant h !in stored[i + 1..]
    {
      if stored[i] == h {
        return true;
      }
      i := i - 1;
    }
    found := false;
  }

  method CollectUsed(shared: seq<SharedFile>, stored: seq<Hash>)
    returns (used: seq<Hash>, toHash: seq<SharedFile>)
    ensures used == UsedHashes(shared, stored)
    ensures toHash == MustHash(shared, stored)
  {
    used, toHash := [], [];
    for i := 0 to |shared|
      invariant used == UsedHashes(shared[..i], stored)
      invariant toHash == MustHash(shared[..i], stored)
    {
      var f := shared[i];
      assert shared[..i + 1][..i] == shared[..i];
      if !f.isPartFile {
        var found := false;
        if f.aich.Some? {
          found := FindHash(stored, f.aich.value);
          if found {
            used := used + [f.aich.value];
          }
        }
        if !found {
          toHash := toHash + [f];
        }
      }
    }
    assert shared[..|shared|] == shared;
  }

  // ----- the run -----

  /** Without a clean-up every scanned hash is indexed where the scan saw it, the last one winning. */
  method IndexAll(index: StoredHashes, hashes: seq<Hash>, positions: seq<nat>, ghost rs: seq<Record>)
    requires index.stored == map[] && AllValid(W, rs)
    requires hashes == HashList(rs) && positions == PosList(rs)
    modifies index
    ensures index.stored == Index(rs)
  {
    hide Index, Offset, HashList, PosList, Valid;
    NothingIndexed();
    for i := 0 to |hashes|
      invariant index.stored == Index(rs[..i])
    {
      assert rs[..i + 1] == rs[..i] + [rs[i]];
      IndexStep(rs[..i], rs[i]);
      OffsetOfPrefix(rs, i);
      IndexedBelow(rs[..i], hashes[i]);
      var foundPos := index.AddStoredAICHHash(hashes[i], positions[i]);
    }
    assert rs[..|rs|] == rs;
  }

  lemma NothingIndexed()
    ensures Index([]) == map[]
  {
  }

  lemma OffsetOfPrefix(rs: seq<Record>, i: nat)
    requires AllValid(W, rs) && i <= |rs|
    ensures Offset(rs[..i], |rs[..i]|) == Offset(rs, i)
  {
    assert rs[..i][..i] == rs[..i];
  }

  /** Every indexed position lies before the end of the records. */
  lemma IndexedBelow(ks: seq<Record>, h: Hash)
    requires AllValid(W, ks)
    ensures h in Index(ks) ==> Index(ks)[h] < Offset(ks, |ks|)
  {
    hide Index, Offset, LastIndex, OccursLater, Hashes;
    IndexIsLast(ks);
    if h in Index(ks) {
      OffsetsIncrease(ks, LastIndex(ks, h), |ks|);
    }
  }

  predicate CleansUp(p: Policy, rs: seq<Record>) {
    |p.used| != |rs| && (!p.settings.remembering || p.settings.partialPurge)
  }

  /** The records in the file when the run is over, and the index over them. */
  function FinalRecords(p: Policy, rs: seq<Record>): (fs: seq<Record>)
    ensures AllValid(W, rs) ==> AllValid(W, fs)
  {
    if CleansUp(p, rs) then Pass(p, rs) else rs
  }

  function FinalIndex(p: Policy, rs: seq<Record>): map<Hash, nat>
    requires AllValid(W, rs)
  {
    if CleansUp(p, rs) then Index(Kept(p, rs)) else Index(rs)
  }

  /**
   One run over an opened file: scan, find the used hash sets, clean up or just index. The
   settings, the known-file list and the clock that decide the purge are parameters.
   */
  method Run(file: ByteFile, index: StoredHashes, shared: seq<SharedFile>, settings: Settings)
    returns (ok: bool, toHash: seq<SharedFile>)
    requires file.pos == 0 && index.stored == map[]
    modifies file, index
    ensures ok <==> WellFormed(old(file.data))
    ensures !ok ==> file.data == CutBack(old(file.data)) && index.stored == map[] && toHash == []
    ensures ok ==>
      var rs := RecordsIn(old(file.data));
      var p := Policy(settings, UsedHashes(shared, HashList(rs)));
      && toHash == MustHash(shared, HashList(rs))
      && file.data == FileOf(FinalRecords(p, rs))
      && index.stored == FinalIndex(p, rs)
  {
    toHash := [];
    ghost var rs := RecordsIn(file.data);
    var hashes, positions;
    ok, hashes, positions := ScanFile(file);
    if !ok {
      return;
    }
    var used;
    used, toHash := CollectUsed(shared, hashes);
    var p := Policy(settings, used);
    if |used| != |hashes| && (!settings.remembering || settings.partialPurge) {
      var purged, becauseOld, dups, saved := PurgeFile(file, index, p, rs);
    } else {
      IndexAll(index, hashes, positions, rs);
    }
  }

  lemma {:induction false} UsedIffShared(shared: seq<SharedFile>, stored: seq<Hash>, h: Hash)
    ensures h in UsedHashes(shared, stored) <==>
      exists f :: f in shared && !f.isPartFile && HasStored(f, stored) && f.aich.value == h
  {
    if shared != [] {
      var n := |shared| - 1;
      UsedIffShared(shared[..n], stored, h);
      assert forall f :: f in shared <==> f in shared[..n] || f == shared[n];
    }
  }

  lemma {:induction false} KeptHashes(p: Policy, rs: seq<Record>, h: Hash)
    ensures h in Hashes(Kept(p, rs)) <==> h in Hashes(rs) && !p.Drops(h)
  {
    if rs != [] {
      var n := |rs| - 1;
      assert rs == rs[..n] + [rs[n]];
      KeptHashes(p, rs[..n], h);
      KeptStep(p, rs[..n], rs[n]);
      HashesStep(rs[..n], rs[n]);
      HashesStep(Kept(p, rs[..n]), rs[n]);
    }
  }

  /** The settings and the shared files of a run, with the used hashes it finds. */
  function PolicyFor(shared: seq<SharedFile>, settings: Settings, rs: seq<Record>): Policy {
    Policy(settings, UsedHashes(shared, HashList(rs)))
  }

  // ----- what a run keeps, in the terms of its settings -----

  /** A clean-up has a use for the hash set with hash h. */
  ghost predicate Wanted(shared: seq<SharedFile>, settings: Settings, h: Hash) {
    && h != EMPTY
    && if settings.remembering then
         h in settings.known &&
         !(settings.partialPurge && 0 < settings.known[h] && settings.now >= settings.known[h] + 31 * 24 * 3600)
       else
         exists f :: f in shared && !f.isPartFile && f.aich == Some(h)
  }

  /** A complete file with its hash set in the store. */
  predicate IsStored(f: SharedFile, rs: seq<Record>) {
    !f.isPartFile && f.aich.Some? && exists r :: r in rs && r.hash == f.aich.value
  }

  lemma InHashList(rs: seq<Record>, h: Hash)
    ensures h in HashList(rs) <==> exists r :: r in rs && r.hash == h
  {
    if h in HashList(rs) {
      var i :| 0 <= i < |rs| && HashList(rs)[i] == h;
      assert rs[i] in rs;
    }
    if r :| r in rs && r.hash == h {
      var i :| 0 <= i < |rs| && rs[i] == r;
      assert HashList(rs)[i] == h;
    }
  }

  lemma WantedIsNotDropped(shared: seq<SharedFile>, settings: Settings, rs: seq<Record>, h: Hash)
    requires exists r :: r in rs && r.hash == h
    ensures Wanted(shared, settings, h) <==> !PolicyFor(shared, settings, rs).Drops(h)
  {
    hide UsedHashes;
    InHashList(rs, h);
    UsedIffShared(shared, HashList(rs), h);
    if exists f :: f in shared && !f.isPartFile && f.aich == Some(h) {
      var f :| f in shared && !f.isPartFile && f.aich == Some(h);
      assert HasStored(f, HashList(rs));
    }
  }

  lemma {:induction false} KeptIsFiltered(p: Policy, rs: seq<Record>)
    ensures Kept(p, rs) == Filter(rs, (r: Record) => !p.Drops(r.hash))
    ensures Aged(p, rs) == |Filter(rs, (r: Record) => p.Ages(r.hash))|
  {
    if rs != [] { KeptIsFiltered(p, rs[..|rs| - 1]); }
  }

  /** What the pass keeps are the wanted records; counted as old are those whose hash set the known files no longer want. */
  lemma KeptAreWanted(shared: seq<SharedFile>, settings: Settings, rs: seq<Record>)
    ensures var p := PolicyFor(shared, settings, rs);
      && Kept(p, rs) == Filter(rs, (r: Record) => Wanted(shared, settings, r.hash))
      && Aged(p, rs) == |Filter(rs, (r: Record) => settings.remembering && r.hash != EMPTY && !Wanted(shared, settings, r.hash))|
  {
    var p := PolicyFor(shared, settings, rs);
    hide UsedHashes, Wanted;
    KeptIsFiltered(p, rs);
    forall r | r in rs
      ensures !p.Drops(r.hash) <==> Wanted(shared, settings, r.hash)
      ensures p.Ages(r.hash) <==> settings.remembering && r.hash != EMPTY && !Wanted(shared, settings, r.hash)
    {
      WantedIsNotDropped(shared, settings, rs, r.hash);
    }
    FilterAlike(rs, (r: Record) => !p.Drops(r.hash), (r: Record) => Wanted(shared, settings, r.hash));
    FilterAlike(rs, (r: Record) => p.Ages(r.hash), (r: Record) => settings.remembering && r.hash != EMPTY && !Wanted(shared, settings, r.hash));
  }

  lemma {:induction false} CollectedAre(shared: seq<SharedFile>, rs: seq<Record>)
    ensures |UsedHashes(shared, HashList(rs))| == |Filter(shared, (f: SharedFile) => IsStored(f, rs))|
    ensures MustHash(shared, HashList(rs)) == Filter(shared, (f: SharedFile) => !f.isPartFile && !IsStored(f, rs))
  {
    if shared != [] {
      var n := |shared| - 1;
      CollectedAre(shared[..n], rs);
      if shared[n].aich.Some? { InHashList(rs, shared[n].aich.value); }
    }
  }

  /**
   The outcome of a run in the terms of its settings: it cleans up exactly if the settings allow it
   and the number of stored complete shared files is not that of the records; a clean-up leaves the
   wanted records, and no others, with their hashes indexed; and the complete shared files that are
   not stored are to be hashed.
   */
  lemma WhatARunKeeps(shared: seq<SharedFile>, settings: Settings, rs: seq<Record>)
    requires AllValid(W, rs)
    ensures var p := PolicyFor(shared, settings, rs);
      var cleansUp := |Filter(shared, (f: SharedFile) => IsStored(f, rs))| != |rs| && (!settings.remembering || settings.partialPurge);
      && FinalRecords(p, rs) == (if cleansUp then Marked(Filter(rs, (r: Record) => Wanted(shared, settings, r.hash))) else rs)
      && (forall h :: h in FinalIndex(p, rs) <==> (exists r :: r in rs && r.hash == h) && (cleansUp ==> Wanted(shared, settings, h)))
    ensures MustHash(shared, HashList(rs)) == Filter(shared, (f: SharedFile) => !f.isPartFile && !IsStored(f, rs))
  {
    hide UsedHashes, Wanted, Marked, Index, Kept;
    var p := PolicyFor(shared, settings, rs);
    CollectedAre(shared, rs);
    KeptAreWanted(shared, settings, rs);
    forall h
      ensures h in FinalIndex(p, rs) <==>
        (exists r :: r in rs && r.hash == h) && (CleansUp(p, rs) ==> Wanted(shared, settings, h))
    {
      if CleansUp(p, rs) {
        IndexIsLast(Kept(p, rs));
        KeptHashes(p, rs, h);
      } else {
        IndexIsLast(rs);
      }
      if exists r :: r in rs && r.hash == h { WantedIsNotDropped(shared, settings, rs, h); }
    }
  }

  /**
   What the run is for: a complete shared file that is not sent to be hashed again can be looked
   up, at a place of the final file that holds its hash. The exceptions are exactly a cleared hash
   and one whose known file has gone or was not seen for 31 days, and those only when the run cleans up.
   */
  lemma SharedFilesStayIndexed(shared: seq<SharedFile>, p: Policy, rs: seq<Record>, f: SharedFile)
    requires AllValid(W, rs) && p.used == UsedHashes(shared, HashList(rs))
    requires f in shared && !f.isPartFile && HasStored(f, HashList(rs))
    ensures var h := f.aich.value;
      h in FinalIndex(p, rs) <==>
        !(CleansUp(p, rs) && (h == EMPTY || (p.settings.remembering && p.settings.Outdated(h))))
    ensures f.aich.value in FinalIndex(p, rs) ==>
      var n, d := FinalIndex(p, rs)[f.aich.value], FileOf(FinalRecords(p, rs));
      n + HASHSIZE <= |d| && d[n..n + HASHSIZE] == f.aich.value
  {
    hide Kept, Marked, Index, Offset, FileOf, UsedHashes, LastIndex, OccursLater;
    var h := f.aich.value;
    UsedIffShared(shared, HashList(rs), h);
    assert h in Hashes(rs) by {
      var i :| 0 <= i < |rs| && HashList(rs)[i] == h;
      assert rs[i] in rs;
    }
    if CleansUp(p, rs) {
      KeptHashes(p, rs, h);
      IndexIsLast(Kept(p, rs));
      IndexedBytes(p, rs, h);
    } else {
      IndexIsLast(rs);
      HashAtOffset(rs, LastIndex(rs, h));
    }
  }

  /** CSharedFileList::AddFile: to share a file is to see it. */
  function Seen(known: map<Hash, nat>, shared: seq<SharedFile>, t: nat): map<Hash, nat> {
    if shared == [] then known else
    var f, seen := shared[|shared| - 1], Seen(known, shared[..|shared| - 1], t);
    if !f.isPartFile && f.aich.Some? && f.aich.value in seen then seen[f.aich.value := t] else seen
  }

  lemma {:induction false} SeenAt(known: map<Hash, nat>, shared: seq<SharedFile>, t: nat, h: Hash)
    ensures h in Seen(known, shared, t) <==> h in known
    ensures h in known ==>
      Seen(known, shared, t)[h] == if (exists f :: f in shared && !f.isPartFile && f.aich == Some(h)) then t else known[h]
  {
    if shared != [] {
      var n := |shared| - 1;
      SeenAt(known, shared[..n], t, h);
      assert forall f :: f in shared <==> f in shared[..n] || f == shared[n];
    }
  }

  /**
   The run follows the sharing of the files at start-up. Within 31 days of it the second exception
   cannot occur: a known shared file whose hash set is stored is indexed after the run, and after a
   clean-up too unless its hash is zero.
   */
  lemma JustSharedStaysIndexed(shared: seq<SharedFile>, settings: Settings, known: map<Hash, nat>, t: nat,
                               rs: seq<Record>, f: SharedFile)
    requires AllValid(W, rs)
    requires f in shared && !f.isPartFile && HasStored(f, HashList(rs))
    requires f.aich.value in known && settings.known == Seen(known, shared, t)
    requires settings.now < t + OLDFILES_PARTIALLYPURGE
    ensures var p := PolicyFor(shared, settings, rs);
      f.aich.value in FinalIndex(p, rs) <==> !(CleansUp(p, rs) && f.aich.value == EMPTY)
  {
    SharedFilesStayIndexed(shared, PolicyFor(shared, settings, rs), rs, f);
    SeenAt(known, shared, t, f.aich.value);
  }

  // ----- run after run -----

  /** The purge looks at a record's hash only. */
  lemma {:induction false} SameDropsSameKept(p: Policy, q: Policy, rs: seq<Record>)
    requires forall r :: r in rs ==> (p.Drops(r.hash) <==> q.Drops(r.hash))
    ensures Kept(p, rs) == Kept(q, rs)
  {
    if rs != [] {
      SameDropsSameKept(p, q, rs[..|rs| - 1]);
    }
  }

  /** The records after one run with the given settings and shared files. */
  function AfterRun(shared: seq<SharedFile>, settings: Settings, rs: seq<Record>): (fs: seq<Record>)
    ensures AllValid(W, rs) ==> AllValid(W, fs)
  {
    FinalRecords(PolicyFor(shared, settings, rs), rs)
  }

  /** A hash that a run has kept is not given up by the next one: what was used still is. */
  lemma KeptHashStaysUsed(shared: seq<SharedFile>, p: Policy, q: Policy, rs: seq<Record>, ms: seq<Record>, r: Record)
    requires p == PolicyFor(shared, p.settings, rs)
    requires q == PolicyFor(shared, p.settings, ms)
    requires r in ms && (r.hash == EMPTY || r.hash in Hashes(Kept(p, rs)))
    ensures q.Drops(r.hash) <==> p.Drops(r.hash)
  {
    if r.hash != EMPTY {
      KeptHashes(p, rs, r.hash);
      if !p.settings.remembering {
        UsedIffShared(shared, HashList(rs), r.hash);
        UsedIffShared(shared, HashList(ms), r.hash);
        var f :| f in shared && !f.isPartFile && HasStored(f, HashList(rs)) && f.aich.value == r.hash;
        var i :| 0 <= i < |ms| && ms[i] == r;
        assert HashList(ms)[i] == r.hash;
      }
    }
  }

  /** On records that carry only zero or kept hashes the recomputed policy purges as the old one. */
  lemma NextPassAlike(shared: seq<SharedFile>, p: Policy, rs: seq<Record>, ms: seq<Record>)
    requires p == PolicyFor(shared, p.settings, rs)
    requires forall r :: r in ms ==> r.hash == EMPTY || r.hash in Hashes(Kept(p, rs))
    ensures Pass(PolicyFor(shared, p.settings, ms), ms) == Pass(p, ms)
  {
    var q := PolicyFor(shared, p.settings, ms);
    forall r | r in ms ensures p.Drops(r.hash) <==> q.Drops(r.hash) {
      KeptHashStaysUsed(shared, p, q, rs, ms, r);
    }
    SameDropsSameKept(p, q, ms);
  }

  /** Marking brings in no hash but zero. */
  lemma MarkedHashes(ks: seq<Record>, r: Record)
    requires r in Marked(ks)
    ensures r.hash == EMPTY || r.hash in Hashes(ks)
  {
    MarkedAt(ks);
    var i :| 0 <= i < |ks| && Marked(ks)[i] == r;
    assert ks[i] in ks;
  }

  /**
   With the same shared files and settings the file has settled after two runs, although each run
   finds the used hashes anew and decides anew whether to clean up: a third one changes nothing.
   */
  lemma RunsSettle(shared: seq<SharedFile>, settings: Settings, rs: seq<Record>)
    ensures var r1 := AfterRun(shared, settings, rs);
      var r2 := AfterRun(shared, settings, r1);
      AfterRun(shared, settings, r2) == r2
  {
    hide Pass, UsedHashes;
    var p := PolicyFor(shared, settings, rs);
    var r1 := AfterRun(shared, settings, rs);
    var r2 := AfterRun(shared, settings, r1);
    if CleansUp(p, rs) && CleansUp(PolicyFor(shared, settings, r1), r1) {
      SecondRun(shared, p, rs);
    }
  }

  lemma SecondRun(shared: seq<SharedFile>, p: Policy, rs: seq<Record>)
    requires p == PolicyFor(shared, p.settings, rs)
    ensures var r1 := Pass(p, rs);
      var r2 := Pass(PolicyFor(shared, p.settings, r1), r1);
      r2 == LastOnly(Kept(p, rs)) &&
      Pass(PolicyFor(shared, p.settings, r2), r2) == r2
  {
    hide UsedHashes, Kept, Marked;
    var r1 := Pass(p, rs);
    forall r | r in r1 ensures r.hash == EMPTY || r.hash in Hashes(Kept(p, rs)) {
      MarkedHashes(Kept(p, rs), r);
    }
    NextPassAlike(shared, p, rs, r1);
    PassesSettle(p, rs);
    var r2 := Pass(p, r1);
    forall r | r in r2 ensures r.hash in Hashes(Kept(p, rs)) {
      assert r.hash in Hashes(r2);
    }
    NextPassAlike(shared, p, rs, r2);
  }

  /**
   And when one run is enough: it did not clean up, or it left nothing for the next one, because the
   counts happen to agree then or because no kept hash occurred twice.
   */
  lemma OneRunIsEnough(shared: seq<SharedFile>, settings: Settings, rs: seq<Record>)
    ensures var p := PolicyFor(shared, settings, rs);
      var r1 := AfterRun(shared, settings, rs);
      var p1 := PolicyFor(shared, settings, r1);
      AfterRun(shared, settings, r1) == r1 <==>
        !CleansUp(p, rs) || !CleansUp(p1, r1) || AllLast(Kept(p, rs))
  {
    hide UsedHashes, Kept, Marked, OccursLater, LastOnly;
    var p := PolicyFor(shared, settings, rs);
    var r1 := AfterRun(shared, settings, rs);
    if CleansUp(p, rs) && CleansUp(PolicyFor(shared, settings, r1), r1) {
      SecondRun(shared, p, rs);
      LastOnlyLength(Kept(p, rs));
      if AllLast(Kept(p, rs)) { MarkedIdentity(Kept(p, rs)); }
    }
  }

  /** No hash occurs twice. */
  predicate AllLast(ks: seq<Record>) {
    forall i :: 0 <= i < |ks| ==> !OccursLater(ks, i)
  }

  lemma AllLastTail(ks: seq<Record>)
    requires ks != []
    ensures AllLast(ks) <==> !OccursLater(ks, 0) && AllLast(ks[1..])
  {
    hide OccursLater;
    var t := ks[1..];
    forall i | 0 < i < |ks| ensures OccursLater(ks, i) <==> OccursLater(t, i - 1) {
      OccursLaterTail(ks, i);
    }
    if AllLast(ks) {
      forall j | 0 <= j < |t| ensures !OccursLater(t, j) {
        assert !OccursLater(ks, j + 1);
      }
    }
    if !OccursLater(ks, 0) && AllLast(t) {
      forall i | 0 < i < |ks| ensures !OccursLater(ks, i) {
        assert !OccursLater(t, i - 1);
      }
    }
  }

  lemma {:induction false} LastOnlyLength(ks: seq<Record>)
    ensures |LastOnly(ks)| <= |ks|
    ensures |LastOnly(ks)| == |ks| <==> AllLast(ks)
    ensures AllLast(ks) ==> LastOnly(ks) == ks
  {
    hide OccursLater, AllLast;
    if ks == [] {
      assert AllLast(ks) by { NoneIsLast(); }
    } else {
      LastOnlyLength(ks[1..]);
      AllLastTail(ks);
    }
  }

  lemma NoneIsLast()
    ensures AllLast([])
  {
  }

  // ----- the file, byte by byte -----

  /** A record at offset o: 20 bytes of hash, the number of hashes behind it in four bytes, lowest first, and those hashes. */
  predicate RecordAt(data: seq<byte>, o: nat, r: Record) {
    && o + 24 + |r.body| <= |data|
    && data[o..o + 20] == r.hash
    && 20 * (data[o + 20] as int + 256 * data[o + 21] as int + 65536 * data[o + 22] as int + 16777216 * data[o + 23] as int) == |r.body|
    && data[o + 24..o + 24 + |r.body|] == r.body
  }

  /** So stands every record of a written file, the first one behind the version byte 2 and each behind the one before. */
  lemma RecordsOnDisk(rs: seq<Record>, i: nat)
    requires AllValid(W, rs) && i < |rs|
    ensures FileOf(rs)[0] == 2 && Offset(rs, 0) == 1 && Offset(rs, i + 1) == Offset(rs, i) + 24 + |rs[i].body|
    ensures RecordAt(FileOf(rs), Offset(rs, i), rs[i])
  {
    hide Encode, Val32, Le32, Valid;
    var front, back := rs[..i], rs[i + 1..];
    var e := Encode(W, rs[i]);
    assert rs == front + ([rs[i]] + back);
    EncodeAllAppend(W, front, [rs[i]] + back);
    EncodeAllAppend(W, front, [rs[i]]);
    assert ([rs[i]] + back)[1..] == back && [rs[i]][1..] == [];
    assert EncodeAll(W, [rs[i]]) == e + [] == e;
    assert rs[..i + 1] == front + [rs[i]];
    var pre, post := [KNOWN2_MET_VERSION] + EncodeAll(W, front), EncodeAll(W, back);
    assert FileOf(rs) == pre + (e + post);
    EncodedAt(pre, rs[i], post);
    assert rs[..0] == [];
  }

  lemma EncodedAt(pre: seq<byte>, r: Record, post: seq<byte>)
    requires Valid(W, r)
    ensures RecordAt(pre + (Encode(W, r) + post), |pre|, r)
  {
    hide Val32;
    var d, o := pre + (Encode(W, r) + post), |pre|;
    assert d[o..o + 20] == r.hash;
    assert d[o + 20..o + 24] == Le32(Count(r));
    assert d[o + 24..o + 24 + |r.body|] == r.body;
    var c := d[o + 20..o + 24];
    assert Val32(c) == Count(r);
    CountDigits(c);
  }

  lemma CountDigits(c: seq<byte>)
    requires |c| == 4
    ensures Val32(c) == c[0] as int + 256 * c[1] as int + 65536 * c[2] as int + 16777216 * c[3] as int
  {
  }
}
