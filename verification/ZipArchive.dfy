/**
 recoverZip as a whole, and what its output is: a ZIP file whose directory can be read back and
 whose every directory entry points at the local header it was written for.
 */
module ZipArchive {
  import opened Wrappers
  import opened Bytes
  import opened ByteFiles
  import opened ZipRecords
  import opened ZipDirectory
  import opened ZipRecover

  // ---------------------------------------------------------------- offsets

  /** Every directory entry carries the start of its local entry, cut to 32 bits. */
  ghost predicate PointsAt(es: seq<CdEntry>, ls: seq<Local>, base: nat) {
    |es| == |ls| &&
    forall i :: 0 <= i < |es| ==> es[i].place.relativeOffsetOfLocalHeader == StartOf(base, ls, i) % TWO_32
  }

  lemma PointsAtAdd(es: seq<CdEntry>, ls: seq<Local>, base: nat, e: CdEntry, l: Local)
    requires PointsAt(es, ls, base)
    requires e.place.relativeOffsetOfLocalHeader == (base + |LocalsBytes(ls)|) % TWO_32
    ensures PointsAt(es + [e], ls + [l], base)
  {
    hide LocalsBytes;
    var es1, ls1 := es + [e], ls + [l];
    assert ls1[..|ls|] == ls;
    forall i | 0 <= i < |es|
      ensures es1[i] == es[i] && StartOf(base, ls1, i) == StartOf(base, ls, i)
    {
      assert ls1[..i] == ls[..i];
    }
  }

  lemma {:induction false} RelocatedPoints(es: seq<CdEntry>, ls: seq<Local>, base: nat)
    requires |es| == |ls|
    ensures PointsAt(Relocated(es, ls, base), ls, base)
  {
    if ls != [] {
      var n := |ls| - 1;
      RelocatedPoints(es[..n], ls[..n], base);
      PointsAtAdd(Relocated(es[..n], ls[..n], base), ls[..n], base,
                  MovedTo(es[n], base + |LocalsBytes(ls[..n])|), ls[n]);
      assert ls[..n] + [ls[n]] == ls;
    }
  }

  lemma NothingPoints(base: nat)
    ensures PointsAt([], [], base)
  {
  }

  lemma {:induction false} MadePoints(ls: seq<Local>, base: nat)
    ensures PointsAt(Made(ls, base), ls, base)
  {
    hide LocalsBytes, PointsAt, Fields;
    if ls == [] {
      NothingPoints(base);
    } else {
      var n := |ls| - 1;
      MadePoints(ls[..n], base);
      PointsAtAdd(Made(ls[..n], base), ls[..n], base,
        EntryFor(ls[n].header, ls[n].filename, ls[n].extraField, base + |LocalsBytes(ls[..n])|), ls[n]);
      assert ls[..n] + [ls[n]] == ls;
    }
  }

  /** Relocation touches nothing but the offset. */
  lemma {:induction false} RelocatedKeeps(es: seq<CdEntry>, ls: seq<Local>, base: nat, i: nat)
    requires i < |es| == |ls|
    ensures Relocated(es, ls, base)[i] == MovedTo(es[i], StartOf(base, ls, i))
  {
    var n := |ls| - 1;
    if i < n {
      RelocatedKeeps(es[..n], ls[..n], base, i);
      assert ls[..n][..i] == ls[..i];
    }
  }

  lemma {:induction false} SurvivorsWellFormed(data: seq<byte>, areas: seq<Area>, sizeofEntry: nat, es: seq<CdEntry>)
    requires AllWellFormed(es)
    ensures AllWellFormed(Survivors(data, areas, sizeofEntry, es))
  {
    hide WellFormed, Survives;
    if es != [] {
      SurvivorsWellFormed(data, areas, sizeofEntry, es[..|es| - 1]);
    }
  }

  lemma RelocatedWellFormed(es: seq<CdEntry>, ls: seq<Local>, base: nat)
    requires |es| == |ls| && AllWellFormed(es)
    ensures AllWellFormed(Relocated(es, ls, base))
  {
    forall i | 0 <= i < |es|
      ensures WellFormed(Relocated(es, ls, base)[i])
    {
      RelocatedKeeps(es, ls, base, i);
    }
  }

  ghost predicate GoodLocals(ls: seq<Local>) {
    forall i :: 0 <= i < |ls| ==> GoodHeader(ls[i].header)
  }

  lemma CopiedAreGood(data: seq<byte>, es: seq<CdEntry>, ls: seq<Local>)
    requires AllCopied(data, es, ls)
    ensures GoodLocals(ls)
  {
  }

  lemma SourcesAreGood(data: seq<byte>, at: seq<nat>, ls: seq<Local>, bound: nat)
    requires Sources(data, at, ls, bound)
    ensures GoodLocals(ls)
  {
  }

  // ---------------------------------------------------------------- recoverZip

  /** Whether the input's own directory is used: the whole file is there and the directory is found and filled. */
  predicate DirectoryIsUsed(data: seq<byte>, areas: seq<Area>, fullSize: bool, endScan: Option<nat>) {
    fullSize && EndRecordAt(data, endScan).Some? &&
    Filled(StartField(data, EndRecordAt(data, endScan).value), |data|, areas)
  }

  /**
   recoverZip with an output file, as performRecovery calls it. The ghost results are the directory
   read from the input, when it is used, the places of the local headers found by the scan, when it
   is not, and the local and directory entries of the output.
   */
  method RecoverZip(input: ByteFile, output: ByteFile, areas: seq<Area>, fullSize: bool, sizeofEntry: nat,
                    endScan: Option<nat>, scan: Scanner)
    returns (retVal: bool, ghost got: seq<CdEntry>, ghost at: seq<nat>, ghost ls: seq<Local>, ghost es: seq<CdEntry>)
    requires input != output && output.data == [] && output.pos == 0
    requires GoodScanner(input.data, scan) && (endScan.Some? ==> endScan.value + 4 <= |input.data|)
    modifies input`pos, output
    ensures retVal == !(DirectoryIsUsed(input.data, areas, fullSize, endScan) && got == [])
    ensures output.data == LocalsBytes(ls) + Directory(es, |LocalsBytes(ls)|) && AllWellFormed(es)
    ensures DirectoryIsUsed(input.data, areas, fullSize, endScan) ==>
      var kept := Survivors(input.data, areas, sizeofEntry, got);
      ReadFrom(input.data, EndRecordAt(input.data, endScan).value, got) &&
      AllCopied(input.data, kept, ls) && es == Relocated(kept, ls, 0)
    ensures !DirectoryIsUsed(input.data, areas, fullSize, endScan) ==>
      && (exists bound :: Sources(input.data, at, ls, bound)) && es == Made(ls, 0)
      && exists found, cursors :: |found| == |areas| && AreasScanned(input.data, scan, areas, found, cursors) && at == Flatten(found)
    ensures PointsAt(es, ls, 0) && GoodLocals(ls)
  {
    hide PointsAt, GoodLocals, Parse, After, ReadFrom, CopyOf, WellFormed, Survivors, Relocated, Made, LocalsBytes, Directory, Sources,
      EndRecordAt, StartField, Filled, AllWellFormed, AreasScanned, Flatten;
    NothingWritten(input.data, areas, sizeofEntry);
    var read, centralDirectoryEntries := false, [];
    got, at, ls, es := [], [], [], [];
    if fullSize {
      read, centralDirectoryEntries := ReadZipCentralDirectory(input, areas, endScan);
      got := centralDirectoryEntries;
    }
    assert read == DirectoryIsUsed(input.data, areas, fullSize, endScan);
    if read {
      if centralDirectoryEntries == [] {
        retVal := false;
        return;
      }
      centralDirectoryEntries, ls := RecoverByDirectory(input, output, areas, sizeofEntry, centralDirectoryEntries);
      SurvivorsWellFormed(input.data, areas, sizeofEntry, got);
      RelocatedWellFormed(Survivors(input.data, areas, sizeofEntry, got), ls, 0);
      RelocatedPoints(Survivors(input.data, areas, sizeofEntry, got), ls, 0);
      CopiedAreGood(input.data, Survivors(input.data, areas, sizeofEntry, got), ls);
    } else {
      ghost var found, cursors;
      centralDirectoryEntries, at, ls, found, cursors := RecoverByScan(input, output, areas, scan);
      MadePoints(ls, 0);
      SourcesAreGood(input.data, at, ls, input.pos);
    }
    es := centralDirectoryEntries;
    WriteDirectory(output, centralDirectoryEntries);
    assert [] + LocalsBytes(ls) == LocalsBytes(ls);
    retVal := true;
  }

  lemma NothingWritten(data: seq<byte>, areas: seq<Area>, sizeofEntry: nat)
    ensures LocalsBytes([]) + Directory([], |LocalsBytes([])|) == [] && AllWellFormed([])
    ensures AllCopied(data, Survivors(data, areas, sizeofEntry, []), [])
    ensures Survivors(data, areas, sizeofEntry, []) == [] && Relocated([], [], 0) == []
    ensures PointsAt([], [], 0) && GoodLocals([])
  {
  }

  // ---------------------------------------------------------------- what the output is

  /** The bytes of local entry i stand at its start. */
  lemma {:induction false} LocalAtStart(ls: seq<Local>, i: nat)
    requires i < |ls|
    ensures var p := |LocalsBytes(ls[..i])|;
      p + |LocalBytes(ls[i])| <= |LocalsBytes(ls)| &&
      LocalsBytes(ls)[p..p + |LocalBytes(ls[i])|] == LocalBytes(ls[i])
  {
    hide LocalBytes;
    var n := |ls| - 1;
    var front, last := LocalsBytes(ls[..n]), LocalBytes(ls[n]);
    assert LocalsBytes(ls) == front + last;
    if i < n {
      var p, m := |LocalsBytes(ls[..i])|, |LocalBytes(ls[i])|;
      LocalAtStart(ls[..n], i);
      assert ls[..n][..i] == ls[..i];
      assert (front + last)[p..p + m] == front[p..p + m];
    } else {
      assert (front + last)[|front|..|front| + |last|] == last;
    }
  }

  /** Local entries with good headers are longer than a header, so that their starts strictly increase. */
  lemma {:induction false} StartsIncrease(ls: seq<Local>, i: nat, j: nat)
    requires i < j <= |ls| && forall k :: 0 <= k < |ls| ==> |ls[k].header| == HEADER
    ensures |LocalsBytes(ls[..i])| + HEADER <= |LocalsBytes(ls[..j])|
  {
    assert ls[..j][..j - 1] == ls[..j - 1];
    if i < j - 1 { StartsIncrease(ls, i, j - 1); }
  }

  /** The header of l, and its file name behind it, stand at offset p. */
  predicate LeadsTo(out: seq<byte>, p: nat, l: Local) {
    p + HEADER + |l.filename| <= |out| && HeaderAt(out, p) == l.header &&
    out[p + HEADER..p + HEADER + |l.filename|] == l.filename
  }

  /**
   While the local part stays below 4 GiB, the offset of every directory entry is the place of a
   local header with its magic and its file name behind it, and the offsets strictly increase.
   */
  lemma OffsetsPointAtHeaders(es: seq<CdEntry>, ls: seq<Local>, tail: seq<byte>, i: nat)
    requires PointsAt(es, ls, 0) && GoodLocals(ls) && |LocalsBytes(ls)| < TWO_32 && i < |es|
    ensures var out := LocalsBytes(ls) + tail;
      var p := es[i].place.relativeOffsetOfLocalHeader as nat;
      var l := ls[i];
      LeadsTo(out, p, l) && GoodHeader(l.header)
    ensures forall j :: i < j < |es| ==>
      es[i].place.relativeOffsetOfLocalHeader + HEADER <= es[j].place.relativeOffsetOfLocalHeader
  {
    hide LocalsBytes, GoodHeader;
    HeadersAreLong(ls);
    LocalAtStart(ls, i);
    var p := |LocalsBytes(ls[..i])|;
    assert es[i].place.relativeOffsetOfLocalHeader == p;
    NameBehindHeader(LocalsBytes(ls), tail, p, ls[i]);
    forall j | i < j < |es|
      ensures es[i].place.relativeOffsetOfLocalHeader + HEADER <= es[j].place.relativeOffsetOfLocalHeader
    {
      StartsIncrease(ls, i, j);
      LocalAtStart(ls, j);
    }
  }

  lemma HeadersAreLong(ls: seq<Local>)
    requires GoodLocals(ls)
    ensures forall k :: 0 <= k < |ls| ==> |ls[k].header| == HEADER
  {
  }

  lemma NameBehindHeader(a: seq<byte>, tail: seq<byte>, p: nat, l: Local)
    requires |l.header| == HEADER && p + |LocalBytes(l)| <= |a| && a[p..p + |LocalBytes(l)|] == LocalBytes(l)
    ensures LeadsTo(a + tail, p, l)
  {
    var b, h, f := LocalBytes(l), l.header, l.filename;
    FrontOf(h, f, l.extraField, l.payload);
    SliceOfSlice(a, p, |b|, 0, |h|);
    SliceOfSlice(a, p, |b|, |h|, |h| + |f|);
    assert (a + tail)[p..p + |h|] == a[p..p + |h|];
    assert (a + tail)[p + |h|..p + |h| + |f|] == a[p + |h|..p + |h| + |f|];
  }

  lemma FrontOf(h: seq<byte>, f: seq<byte>, x: seq<byte>, p: seq<byte>)
    ensures var b := LocalBytes(Local(h, f, x, p));
      |h| + |f| <= |b| && b[..|h|] == h && b[|h|..|h| + |f|] == f
  {
    var t := x + p;
    assert LocalBytes(Local(h, f, x, p)) == h + (f + t);
    assert (h + (f + t))[|h|..|h| + |f|] == f;
  }

  lemma SliceOfSlice(a: seq<byte>, p: nat, n: nat, i: nat, j: nat)
    requires i <= j <= n && p + n <= |a|
    ensures a[p..p + n][i..j] == a[p + i..p + j]
  {
    var t := a[p..p + n];
    assert forall k :: i <= k < j ==> t[k] == a[p + k];
    assert |t[i..j]| == |a[p + i..p + j]|;
    assert forall k :: 0 <= k < j - i ==> t[i..j][k] == a[p + i..p + j][k];
  }

  /** An entry made while scanning repeats every field of its local header, and the name, and signs for eMule. */
  lemma {:induction false} MadeMatchesHeader(ls: seq<Local>, base: nat, i: nat)
    requires i < |ls|
    ensures var e := Made(ls, base)[i];
      e.common == Fields(ls[i].header) && e.filename == ls[i].filename && e.extraField == ls[i].extraField &&
      e.versionMadeBy == e.common.versionToExtract && e.place.diskNumberStart == 0 &&
      e.place.internalFileAttributes == 1 && e.place.externalFileAttributes == 0x81B60020 &&
      e.comment == ZIP_COMMENT && e.place.lenComment == 18
  {
    hide Fields, LocalsBytes;
    var n := |ls| - 1;
    if i < n { MadeMatchesHeader(ls[..n], base, i); }
  }

  /**
   The recovered file as another reader sees it: whatever the directory loop returns from the offset
   in the end record, its entry i leads to a header with the magic, followed by the name of the
   local entry copied there.
   */
  lemma ReadBackLeadsToHeaders(es: seq<CdEntry>, ls: seq<Local>, got: seq<CdEntry>, i: nat)
    requires es != [] && AllWellFormed(es) && PointsAt(es, ls, 0) && GoodLocals(ls)
    requires |LocalsBytes(ls)| < TWO_32 && i < |es|
    requires ReadFrom(LocalsBytes(ls) + Directory(es, |LocalsBytes(ls)|), |LocalsBytes(ls)| + |PutEntries(es, [])|, got)
    ensures got == ClearedAll(es) && |got| == |ls|
    ensures LeadsTo(LocalsBytes(ls) + Directory(es, |LocalsBytes(ls)|), got[i].place.relativeOffsetOfLocalHeader, ls[i])
    ensures GoodHeader(ls[i].header)
  {
    hide LocalsBytes, Directory, ReadFrom, PutEntries, GoodHeader, GoodLocals, AllWellFormed;
    WrittenDirectoryIsReadBack(LocalsBytes(ls), es, got);
    assert got[i].place.relativeOffsetOfLocalHeader == es[i].place.relativeOffsetOfLocalHeader;
    OffsetsPointAtHeaders(es, ls, Directory(es, |LocalsBytes(ls)|), i);
  }
}
