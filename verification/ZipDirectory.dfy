/** Writing and reading the central directory of a ZIP file, field by field. */
module ZipDirectory {
  import opened Wrappers
  import opened Bytes
  import opened ByteFiles
  import opened ZipRecords

  /** Gap_Struct: the inclusive bounds of a filled area. */
  datatype Area = Area(start: nat, end: nat)

  // ---------------------------------------------------------------- primitive reads and writes

  /** The bytes from the cursor to the end of the file. */
  function Rest(f: ByteFile): seq<byte>
    reads f
  {
    f.data[Min(f.pos, |f.data|)..]
  }

  predicate AtEnd(f: ByteFile)
    reads f
  {
    f.pos == |f.data|
  }

  /** What ReadUpTo(n) returns at cursor p, and where it leaves the cursor, in terms of the rest. */
  lemma ReadIsHead(data: seq<byte>, p: nat, n: nat)
    ensures var s, b := data[Min(p, |data|)..], data[Min(p, |data|)..Min(p + n, |data|)];
      var q := if p <= |data| then p + |b| else p;
      b == s[..Min(n, |s|)] && data[Min(q, |data|)..] == s[|b|..]
  {
    if p <= |data| {
      var m := Min(n, |data| - p);
      TakeAfterDrop(data, p, m);
      DropTwice(data, p, m);
    } else {
      assert data[|data|..] == [] && data[|data|..|data|] == [];
    }
  }

  lemma TakeAfterDrop(s: seq<byte>, i: nat, n: nat)
    requires i + n <= |s|
    ensures s[i..][..n] == s[i..i + n]
  {
  }

  lemma TakeAll(s: seq<byte>)
    ensures s[..|s|] == s && s[|s|..] == []
  {
  }

  method ReadUInt16(f: ByteFile) returns (v: u16)
    modifies f`pos
    ensures Got(v, Rest(f)) == Get16(old(Rest(f)))
  {
    hide Val16;
    ReadIsHead(f.data, f.pos, 2);
    TakeAll(Rest(f));
    var b := f.ReadUpTo(2);
    v := if |b| != 2 then 0 else Val16(b);
  }

  method ReadUInt32(f: ByteFile) returns (v: u32)
    modifies f`pos
    ensures Got(v, Rest(f)) == Get32(old(Rest(f)))
    ensures |old(Rest(f))| >= 4 ==> f.pos == old(f.pos) + 4
  {
    hide Val32;
    ReadIsHead(f.data, f.pos, 4);
    TakeAll(Rest(f));
    var b := f.ReadUpTo(4);
    v := if |b| != 4 then 0 else Val32(b);
  }

  /** Fills a fresh buffer of n bytes. What a short read leaves in its tail is not specified. */
  method ReadBuffer(f: ByteFile, n: nat) returns (b: seq<byte>)
    modifies f`pos
    ensures |b| == n
    ensures n <= |old(Rest(f))| ==> b == old(Rest(f))[..n] && Rest(f) == old(Rest(f))[n..]
    ensures n > |old(Rest(f))| ==> b[..|old(Rest(f))|] == old(Rest(f)) && Rest(f) == []
    ensures old(f.pos) <= |f.data| ==> f.pos <= |f.data|
  {
    TakeAll(Rest(f));
    b := [];
    if n > 0 {
      ReadIsHead(f.data, f.pos, n);
      b := f.ReadUpTo(n);
      Padded(b, n - |b|);
      b := b + Zeros(n - |b|);
    }
  }

  lemma Padded(b: seq<byte>, k: nat)
    ensures |b + Zeros(k)| == |b| + k && (b + Zeros(k))[..|b|] == b && (k == 0 ==> b + Zeros(k) == b)
  {
  }

  /** Appends v; rest is what the caller is still going to write. */
  method WriteUInt16(f: ByteFile, v: u16, ghost rest: seq<byte>)
    requires AtEnd(f)
    modifies f
    ensures AtEnd(f) && f.data == old(f.data) + Le16(v)
    ensures f.data + rest == old(f.data) + (Le16(v) + rest)
  {
    AppendAtEnd(f.data, Le16(v));
    f.Write(Le16(v));
  }

  method WriteUInt32(f: ByteFile, v: u32, ghost rest: seq<byte>)
    requires AtEnd(f)
    modifies f
    ensures AtEnd(f) && f.data == old(f.data) + Le32(v)
    ensures f.data + rest == old(f.data) + (Le32(v) + rest)
  {
    AppendAtEnd(f.data, Le32(v));
    f.Write(Le32(v));
  }

  method WriteBuffer(f: ByteFile, b: seq<byte>, ghost rest: seq<byte>)
    requires AtEnd(f)
    modifies f
    ensures AtEnd(f) && f.data == old(f.data) + b
    ensures f.data + rest == old(f.data) + (b + rest)
  {
    AppendAtEnd(f.data, b);
    f.Write(b);
  }

  // ---------------------------------------------------------------- writing

  method WriteSizes(f: ByteFile, c: Common, ghost rest: seq<byte>)
    requires AtEnd(f)
    modifies f
    ensures AtEnd(f) && f.data + rest == old(f.data) + PutSizes(c, rest)
  {
    ghost var t4 := Le16(c.lenExtraField) + rest;
    ghost var t3 := Le16(c.lenFilename) + t4;
    ghost var t2 := Le32(c.lenUncompressed) + t3;
    ghost var t1 := Le32(c.lenCompressed) + t2;
    WriteUInt32(f, c.crc32, t1);
    WriteUInt32(f, c.lenCompressed, t2);
    WriteUInt32(f, c.lenUncompressed, t3);
    WriteUInt16(f, c.lenFilename, t4);
    WriteUInt16(f, c.lenExtraField, rest);
  }

  method WriteCommon(f: ByteFile, c: Common, ghost rest: seq<byte>)
    requires AtEnd(f)
    modifies f
    ensures AtEnd(f) && f.data + rest == old(f.data) + PutCommon(c, rest)
  {
    ghost var t5 := PutSizes(c, rest);
    ghost var t4 := Le16(c.lastModFileDate) + t5;
    ghost var t3 := Le16(c.lastModFileTime) + t4;
    ghost var t2 := Le16(c.compressionMethod) + t3;
    ghost var t1 := Le16(c.generalPurposeFlag) + t2;
    WriteUInt16(f, c.versionToExtract, t1);
    WriteUInt16(f, c.generalPurposeFlag, t2);
    WriteUInt16(f, c.compressionMethod, t3);
    WriteUInt16(f, c.lastModFileTime, t4);
    WriteUInt16(f, c.lastModFileDate, t5);
    WriteSizes(f, c, rest);
  }

  method WritePlace(f: ByteFile, p: Place, ghost rest: seq<byte>)
    requires AtEnd(f)
    modifies f
    ensures AtEnd(f) && f.data + rest == old(f.data) + PutPlace(p, rest)
  {
    ghost var t4 := Le32(p.relativeOffsetOfLocalHeader) + rest;
    ghost var t3 := Le32(p.externalFileAttributes) + t4;
    ghost var t2 := Le16(p.internalFileAttributes) + t3;
    ghost var t1 := Le16(0) + t2;
    WriteUInt16(f, p.lenComment, t1);
    WriteUInt16(f, 0, t2); // disk number where the file starts
    WriteUInt16(f, p.internalFileAttributes, t3);
    WriteUInt32(f, p.externalFileAttributes, t4);
    WriteUInt32(f, p.relativeOffsetOfLocalHeader, rest);
  }

  method WriteBuffers(f: ByteFile, e: CdEntry, ghost rest: seq<byte>)
    requires AtEnd(f) && WellFormed(e)
    modifies f
    ensures AtEnd(f)
    ensures f.data + rest == old(f.data) + (e.filename + (e.extraField + (e.comment + rest)))
  {
    WriteBuffer(f, e.filename, e.extraField + (e.comment + rest));
    if e.common.lenExtraField > 0 {
      WriteBuffer(f, e.extraField, e.comment + rest);
    } else {
      assert e.extraField + (e.comment + rest) == e.comment + rest;
    }
    if e.place.lenComment > 0 {
      WriteBuffer(f, e.comment, rest);
    } else {
      assert e.comment + rest == rest;
    }
  }

  method WriteEntry(f: ByteFile, e: CdEntry, ghost rest: seq<byte>)
    requires AtEnd(f) && WellFormed(e)
    modifies f
    ensures AtEnd(f) && f.data + rest == old(f.data) + PutEntry(e, rest)
  {
    ghost var v := e.filename + (e.extraField + (e.comment + rest));
    ghost var p := PutPlace(e.place, v);
    ghost var c := PutCommon(e.common, p);
    WriteUInt32(f, ZIP_CD_MAGIC, Le16(e.versionMadeBy) + c);
    WriteUInt16(f, e.versionMadeBy, c);
    WriteCommon(f, e.common, p);
    WritePlace(f, e.place, v);
    WriteBuffers(f, e, rest);
  }

  method WriteEndRecord(f: ByteFile, count: nat, size: nat, start: nat)
    requires AtEnd(f)
    modifies f
    ensures AtEnd(f) && f.data == old(f.data) + EndRecord(count, size, start)
  {
    ghost var t7 := Le16(|ZIP_COMMENT|) + ZIP_COMMENT;
    ghost var t6 := Le32(start % TWO_32) + t7;
    ghost var t5 := Le32(size % TWO_32) + t6;
    ghost var t4 := Le16(count % TWO_16) + t5;
    ghost var t3 := Le16(count % TWO_16) + t4;
    ghost var t2 := Le16(0) + t3;
    ghost var t1 := Le16(0) + t2;
    WriteUInt32(f, ZIP_END_CD_MAGIC, t1);
    WriteUInt16(f, 0, t2); // number of this disk
    WriteUInt16(f, 0, t3); // disk on which the directory starts
    WriteUInt16(f, count % TWO_16, t4);
    WriteUInt16(f, count % TWO_16, t5);
    WriteUInt32(f, size % TWO_32, t6);
    WriteUInt32(f, start % TWO_32, t7);
    WriteUInt16(f, |ZIP_COMMENT|, ZIP_COMMENT);
    WriteBuffer(f, ZIP_COMMENT, []);
  }

  /** Takes the entries from the head of the list and writes them, until it is empty. */
  method WriteEntries(f: ByteFile, entries: seq<CdEntry>)
    requires AtEnd(f) && AllWellFormed(entries)
    modifies f
    ensures AtEnd(f) && f.data == old(f.data) + PutEntries(entries, [])
  {
    var list := entries;
    while list != []
      invariant AtEnd(f) && AllWellFormed(list)
      invariant f.data + PutEntries(list, []) == old(f.data) + PutEntries(entries, [])
    {
      ghost var rest := PutEntries(list[1..], []);
      WriteEntry(f, list[0], rest);
      list := list[1..];
      assert PutEntries(list, []) == rest;
    }
    assert f.data + [] == f.data;
  }

  /** Writes the entries, then closes the directory with the end record; writes nothing when there are none. */
  method WriteDirectory(f: ByteFile, entries: seq<CdEntry>)
    requires AtEnd(f) && AllWellFormed(entries)
    modifies f
    ensures AtEnd(f) && f.data == old(f.data) + Directory(entries, |old(f.data)|)
  {
    ghost var before := f.data;
    var startOffset := f.pos;
    var fileCount := |entries|;
    if fileCount > 0 {
      WriteEntries(f, entries);
      var endOffset := f.pos;
      WriteEndRecord(f, fileCount, endOffset - startOffset, startOffset);
      AppendAssoc(before, PutEntries(entries, []), EndRecord(fileCount, endOffset - startOffset, startOffset));
    }
  }

  // ---------------------------------------------------------------- reading

  method ReadSizes(f: ByteFile) returns (z: Sizes)
    modifies f`pos
    ensures Got(z, Rest(f)) == GetSizes(old(Rest(f)))
  {
    var crc := ReadUInt32(f);
    var comp := ReadUInt32(f);
    var uncomp := ReadUInt32(f);
    var name := ReadUInt16(f);
    var extra := ReadUInt16(f);
    z := Sizes(crc, comp, uncomp, name, extra);
  }

  method ReadCommon(f: ByteFile) returns (c: Common)
    modifies f`pos
    ensures Got(c, Rest(f)) == GetCommon(old(Rest(f)))
  {
    var version := ReadUInt16(f);
    var flags := ReadUInt16(f);
    var compression := ReadUInt16(f);
    var time := ReadUInt16(f);
    var date := ReadUInt16(f);
    var z := ReadSizes(f);
    c := Common(version, flags, compression, time, date,
                z.crc32, z.lenCompressed, z.lenUncompressed, z.lenFilename, z.lenExtraField);
  }

  method ReadPlace(f: ByteFile) returns (p: Place)
    modifies f`pos
    ensures Got(p, Rest(f)) == GetPlace(old(Rest(f)))
  {
    var comment := ReadUInt16(f);
    var disk := ReadUInt16(f);
    var internal := ReadUInt16(f);
    var external := ReadUInt32(f);
    var offset := ReadUInt32(f);
    p := Place(comment, disk, internal, external, offset);
  }

  method ReadFixed(f: ByteFile) returns (x: Fixed)
    modifies f`pos
    ensures Got(x, Rest(f)) == GetFixed(old(Rest(f)))
  {
    var v := ReadUInt16(f);
    var c := ReadCommon(f);
    var p := ReadPlace(f);
    x := Fixed(v, c, p);
  }

  method ReadBuffers(f: ByteFile, x: Fixed) returns (e: CdEntry)
    modifies f`pos
    ensures WellFormed(e) && FixedOf(e) == x
    ensures VariableLength(x) <= |old(Rest(f))| ==> Got(e, Rest(f)) == Cut(x, old(Rest(f)))
    ensures VariableLength(x) > |old(Rest(f))| ==> Rest(f) == []
  {
    var name := ReadBuffer(f, x.common.lenFilename);
    var extra := ReadBuffer(f, x.common.lenExtraField);
    var comment := ReadBuffer(f, x.place.lenComment);
    e := CdEntry(x.versionMadeBy, x.common, x.place, name, extra, comment);
  }

  /** The body of an entry; a truncated one leaves the cursor at the end of the file. */
  method ReadBody(f: ByteFile) returns (e: CdEntry)
    modifies f`pos
    ensures WellFormed(e)
    ensures WholeBody(old(Rest(f))) ==> Got(e, Rest(f)) == GetBody(old(Rest(f)))
    ensures !WholeBody(old(Rest(f))) ==> Rest(f) == []
  {
    var x := ReadFixed(f);
    e := ReadBuffers(f, x);
  }

  /** The magic at the head of cur has been read: the body decides whether a whole entry is there. */
  lemma BodyDecides(cur: seq<byte>, body: seq<byte>)
    requires Got(ZIP_CD_MAGIC, body) == Get32(cur)
    ensures GetEntry(cur) == if WholeBody(body) then Some(GetBody(body)) else None
  {
    assert |cur| >= 4 && body == cur[4..];
  }

  /** As ReadBody, in terms of the bytes cur whose head was the magic. */
  method ReadEntryBody(f: ByteFile, ghost cur: seq<byte>) returns (e: CdEntry)
    requires Got(ZIP_CD_MAGIC, Rest(f)) == Get32(cur)
    modifies f`pos
    ensures WellFormed(e)
    ensures if GetEntry(cur).Some? then GetEntry(cur).value == Got(e, Rest(f)) else Rest(f) == []
  {
    BodyDecides(cur, Rest(f));
    e := ReadBody(f);
  }

  /**
   What the reader's loop returns for the bytes s: the whole entries, and after them one made from
   a truncated entry exactly if the magic of another entry follows the last whole one.
   */
  predicate ReadBack(s: seq<byte>, es: seq<CdEntry>) {
    Parse(s) <= es && |es| == |Parse(s)| + if HasCdMagic(After(s)) then 1 else 0
  }

  /** The entries es have been read and cur is still to be read. */
  ghost predicate Reading(s: seq<byte>, es: seq<CdEntry>, cur: seq<byte>) {
    es + Parse(cur) == Parse(s) && After(cur) == After(s)
  }

  /** One round of the reader's loop: the body of an entry, then the next magic. */
  method ReadNext(f: ByteFile, ghost s: seq<byte>, es: seq<CdEntry>, ghost cur: seq<byte>)
    returns (e: CdEntry, magic: u32, ghost left: seq<byte>, ghost truncated: bool)
    requires Got(ZIP_CD_MAGIC, Rest(f)) == Get32(cur) && Reading(s, es, cur)
    modifies f`pos
    ensures WellFormed(e)
    ensures truncated ==> magic == 0 && ReadBack(s, es + [e])
    ensures !truncated ==> Got(magic, Rest(f)) == Get32(left) && Reading(s, es + [e], left) && |left| < |cur|
  {
    e := ReadEntryBody(f, cur);
    left := Rest(f);
    magic := ReadUInt32(f);
    truncated := GetEntry(cur).None?;
    if truncated {
      TruncatedEntry(s, es, cur, e);
    } else {
      EntryTaken(s, es, cur, e, left);
    }
  }

  /** The loop that reads entries for as long as an entry's magic comes next. */
  method ReadEntries(f: ByteFile) returns (es: seq<CdEntry>)
    modifies f`pos
    ensures ReadBack(old(Rest(f)), es) && AllWellFormed(es)
  {
    hide Parse, After;
    ghost var s, cur, truncated := Rest(f), Rest(f), false;
    es := [];
    var magic := ReadUInt32(f);
    StartReading(s);
    while magic == ZIP_CD_MAGIC
      invariant AllWellFormed(es)
      invariant truncated ==> magic == 0 && ReadBack(s, es)
      invariant !truncated ==> Got(magic, Rest(f)) == Get32(cur) && Reading(s, es, cur)
      decreases if magic == ZIP_CD_MAGIC then |cur| + 1 else 0
    {
      ghost var left;
      var e;
      e, magic, left, truncated := ReadNext(f, s, es, cur);
      es, cur := es + [e], left;
    }
    if !truncated { StopReading(s, es, cur); }
  }

  lemma {:induction false} StartReading(s: seq<byte>)
    ensures Reading(s, [], s)
  {
    assert [] + Parse(s) == Parse(s);
  }

  lemma {:induction false} EntryTaken(s: seq<byte>, es: seq<CdEntry>, cur: seq<byte>, e: CdEntry, rest: seq<byte>)
    requires GetEntry(cur) == Some(Got(e, rest)) && Reading(s, es, cur)
    ensures Reading(s, es + [e], rest) && |rest| < |cur|
  {
    ParseStep(cur, e, rest);
    AppendAssoc(es, [e], Parse(rest));
  }

  lemma {:induction false} NoMore(cur: seq<byte>)
    requires GetEntry(cur).None?
    ensures Parse(cur) == [] && After(cur) == cur
  {
  }

  lemma {:induction false} TruncatedEntry(s: seq<byte>, es: seq<CdEntry>, cur: seq<byte>, e: CdEntry)
    requires GetEntry(cur).None? && HasCdMagic(cur) && Reading(s, es, cur)
    ensures ReadBack(s, es + [e])
  {
    NoMore(cur);
    assert es + [] == es;
  }

  lemma {:induction false} StopReading(s: seq<byte>, es: seq<CdEntry>, cur: seq<byte>)
    requires !HasCdMagic(cur) && Reading(s, es, cur)
    ensures ReadBack(s, es)
  {
    NoMore(cur);
    assert es + [] == es;
  }

  // ---------------------------------------------------------------- finding the directory

  /** Some area that starts no later than start reaches end, and no area before it in the list starts later. */
  predicate Filled(start: nat, end: nat, areas: seq<Area>) {
    exists i :: 0 <= i < |areas| && areas[i].end >= end && forall j :: 0 <= j <= i ==> areas[j].start <= start
  }

  method IsFilled(start: nat, end: nat, areas: seq<Area>) returns (r: bool)
    ensures r == Filled(start, end, areas)
  {
    for i := 0 to |areas|
      invariant forall j :: 0 <= j < i ==> areas[j].start <= start && areas[j].end < end
    {
      if areas[i].start > start {
        return false;
      }
      if areas[i].end >= end {
        return true;
      }
    }
    return false;
  }

  /** In a list sorted by start the early exit loses nothing: any one area that spans the range will do. */
  lemma FilledWhenSorted(start: nat, end: nat, areas: seq<Area>)
    requires forall i, j :: 0 <= i < j < |areas| ==> areas[i].start <= areas[j].start
    ensures Filled(start, end, areas) <==>
      exists i :: 0 <= i < |areas| && areas[i].start <= start && end <= areas[i].end
  {
    if i :| 0 <= i < |areas| && areas[i].start <= start && end <= areas[i].end {
      assert forall j :: 0 <= j <= i ==> areas[j].start <= start;
    }
  }

  /**
   Where the end record is looked for: 22 bytes before the end, else where the scan of the last 1046
   bytes stopped. Seeking to before the start of the file is an exception, that is, no record.
   */
  function EndRecordAt(data: seq<byte>, scan: Option<nat>): Option<nat> {
    if |data| < 22 then None
    else if Get32(data[|data| - 22..]).value == ZIP_END_CD_MAGIC then Some(|data| - 22)
    else if |data| < 1046 then None
    else scan
  }

  /** The start of the directory as the end record at p gives it. */
  function StartField(data: seq<byte>, p: nat): u32 { Get32(data[Min(p + 16, |data|)..]).value }

  /** What the reader returns for a file whose end record it found at end. */
  predicate ReadFrom(data: seq<byte>, end: nat, got: seq<CdEntry>) {
    ReadBack(data[Min(StartField(data, end), |data|)..], got)
  }

  /** scan is what scanForZipMarker would do: the place of an end record's magic, or none. */
  method ReadZipCentralDirectory(f: ByteFile, areas: seq<Area>, scan: Option<nat>)
    returns (ok: bool, entries: seq<CdEntry>)
    requires scan.Some? ==> scan.value + 4 <= |f.data|
    modifies f`pos
    ensures var end := EndRecordAt(f.data, scan);
      if ok then end.Some? && Filled(StartField(f.data, end.value), |f.data|, areas) &&
                 ReadFrom(f.data, end.value, entries) && AllWellFormed(entries)
      else entries == [] && (end.Some? ==> !Filled(StartField(f.data, end.value), |f.data|, areas))
  {
    ok, entries := false, [];
    if |f.data| < 22 { return; }
    f.Seek(|f.data| - 22);
    var magic := ReadUInt32(f);
    if magic != ZIP_END_CD_MAGIC {
      if |f.data| < 1046 { return; }
      if scan.None? { return; }
      f.Seek(scan.value);
      magic := ReadUInt32(f);
    }
    ghost var at := EndRecordAt(f.data, scan).value;
    assert f.pos == at + 4;
    f.Seek(f.pos + 12);
    var startOffset := ReadUInt32(f);
    assert startOffset == StartField(f.data, at);
    ok := IsFilled(startOffset, |f.data|, areas);
    if ok {
      f.Seek(startOffset);
      entries := ReadEntries(f);
    }
  }

  /**
   The comment behind a written directory hides its end record from the look at 22 bytes before the
   end, so everything hangs on the scan, for which a file below 1046 bytes is too short.
   */
  lemma WrittenDirectoryNeedsScan(archive: seq<byte>, d: seq<byte>, count: nat, scan: Option<nat>)
    ensures var data := archive + (d + EndRecord(count, |d|, |archive|));
      EndRecordAt(data, scan) == if |data| < 1046 then None else scan
  {
    hide EndRecord, Get32;
    var r := EndRecord(count, |d|, |archive|);
    EndRecordShape(count, |d|, |archive|);
    var data := archive + (d + r);
    assert data[|data| - 22..] == r[18..];
    CommentIsNoMagic(r);
  }

  lemma CommentIsNoMagic(r: seq<byte>)
    requires |r| == 40 && r[20] == 18 && r[21] == 0
    ensures Get32(r[18..]).value != ZIP_END_CD_MAGIC
  {
    var b := r[18..][..4];
    assert b[2] == 18 && b[3] == 0;
  }

  lemma StartFieldIsStart(archive: seq<byte>, d: seq<byte>, count: nat)
    requires |archive| < TWO_32
    ensures StartField(archive + (d + EndRecord(count, |d|, |archive|)), |archive| + |d|) == |archive|
  {
    StoredNumbers(archive, d, count);
  }

  /**
   Wherever archive bytes below 4 GiB end, the reader that found the written end record can return
   nothing but the entries written, disk numbers cleared.
   */
  lemma {:induction false} WrittenDirectoryIsReadBack(archive: seq<byte>, es: seq<CdEntry>, got: seq<CdEntry>)
    requires AllWellFormed(es) && es != [] && |archive| < TWO_32
    requires ReadFrom(archive + Directory(es, |archive|), |archive| + |PutEntries(es, [])|, got)
    ensures got == ClearedAll(es)
  {
    hide Parse, After, ReadBack, HasCdMagic, StartField, PutEntries, EndRecord, ClearedAll, IsEndRecord;
    var d := PutEntries(es, []);
    var data := archive + Directory(es, |archive|);
    StartFieldIsStart(archive, d, |es|);
    DirectoryReadsBack(es, |archive|);
    assert !HasCdMagic(EndRecord(|es|, |d|, |archive|)) by { EndRecordIsNotCd(|es|, |d|, |archive|); }
    ReadBackBehind(archive, Directory(es, |archive|), got);
  }

  lemma EndRecordIsNotCd(count: nat, size: nat, start: nat)
    ensures !HasCdMagic(EndRecord(count, size, start))
  {
    EndRecordShape(count, size, start);
  }

  lemma {:induction false} ReadBackBehind(archive: seq<byte>, s: seq<byte>, got: seq<CdEntry>)
    requires ReadBack((archive + s)[Min(|archive|, |archive + s|)..], got) && !HasCdMagic(After(s))
    ensures got == Parse(s)
  {
    assert (archive + s)[|archive|..] == s;
  }
}
