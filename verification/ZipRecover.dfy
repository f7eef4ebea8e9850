/**
 Recovery of a damaged ZIP file into a fresh output file: local entries are copied one after the
 other, by the input's own directory or by scanning, and a new directory is put behind them.
 */
module ZipRecover {
  import opened Wrappers
  import opened Bytes
  import opened ByteFiles
  import opened ZipRecords
  import opened ZipDirectory

  const MAX_PATH: nat := 260
  const HEADER: nat := 30
  const CHUNK: nat := 4096
  const TWO_64: nat := 0x1_0000_0000_0000_0000

  // ---------------------------------------------------------------- one local entry

  /** A local entry as it stands in the output: the 30 header bytes, name, extra field and data. */
  datatype Local = Local(header: seq<byte>, filename: seq<byte>, extraField: seq<byte>, payload: seq<byte>)

  function LocalBytes(l: Local): seq<byte> {
    l.header + l.filename + l.extraField + l.payload
  }

  /** The fields behind the magic of a header. */
  function Fields(header: seq<byte>): Common {
    GetCommon(Get32(header).rest).value
  }

  /** The fields by the offsets of section 4.3.7 of the APPNOTE. */
  lemma FieldsAt(header: seq<byte>)
    requires |header| == HEADER
    ensures Get32(header).value == Val32(header[0..4]) && CommonAt(Fields(header), header, 4)
  {
    hide CommonAt, GetCommon;
    assert header[..4] == header[0..4];
    GetCommonAt(header, 4);
  }

  predicate GoodHeader(header: seq<byte>) {
    var c := Fields(header);
    |header| == HEADER && Get32(header).value == ZIP_LOCAL_HEADER_MAGIC && c.crc32 != 0 && c.lenCompressed != 0 &&
    c.lenUncompressed != 0 && 0 < c.lenFilename <= MAX_PATH
  }

  /** The header at pos, when it lies in the file. */
  function HeaderAt(data: seq<byte>, pos: nat): seq<byte>
    requires pos + HEADER <= |data|
  {
    data[pos..pos + HEADER]
  }

  /** The length of name, extra field and data in 32-bit arithmetic, wrap-around included. */
  function BodyLength(c: Common): nat { (c.lenFilename + c.lenExtraField + c.lenCompressed) % TWO_32 }

  /** What the recovery takes for an entry at pos, with available bytes to go (a 30-byte header counts as 26). */
  predicate Accepted(data: seq<byte>, pos: nat, available: u32) {
    available >= 26 && pos + HEADER <= |data| && GoodHeader(HeaderAt(data, pos)) &&
    BodyLength(Fields(HeaderAt(data, pos))) <= available - 26 &&
    pos + HEADER + Fields(HeaderAt(data, pos)).lenFilename <= |data|
  }

  function Slice(data: seq<byte>, pos: nat, n: nat): seq<byte> {
    data[Min(pos, |data|)..Min(pos + n, |data|)]
  }

  /**
   l is the entry at pos of the file: header, name and data byte for byte, the data as far as the
   file reaches. Of an extra field cut off by the end of the file only the first part is known.
   */
  predicate CopyOf(data: seq<byte>, pos: nat, l: Local) {
    pos + HEADER <= |data| && l.header == HeaderAt(data, pos) && GoodHeader(l.header) &&
    var c := Fields(l.header);
    var at := pos + HEADER + c.lenFilename;
    at <= |data| && l.filename == data[pos + HEADER..at] &&
    |l.extraField| == c.lenExtraField && Slice(data, at, c.lenExtraField) <= l.extraField &&
    l.payload == Slice(data, at + c.lenExtraField, c.lenCompressed)
  }

  /** The directory entry made for a local entry that was put at offset start of the output. */
  function EntryFor(header: seq<byte>, filename: seq<byte>, extraField: seq<byte>, start: nat): CdEntry {
    var c := Fields(header);
    CdEntry(c.versionToExtract, c, Place(|ZIP_COMMENT|, 0, 1, 0x81B60020, start % TWO_32),
            filename, extraField, ZIP_COMMENT)
  }

  function Added(list: Option<seq<CdEntry>>, l: Local, start: nat): Option<seq<CdEntry>> {
    match list
    case None => None
    case Some(es) => Some(es + [EntryFor(l.header, l.filename, l.extraField, start)])
  }

  /** Copies n bytes through a 4096-byte buffer; a read at the end of the file stops the loop. */
  method CopyData(input: ByteFile, output: ByteFile, n: u32)
    requires input != output && AtEnd(output) && input.pos <= |input.data|
    modifies input`pos, output
    ensures AtEnd(output) && output.data == old(output.data) + Slice(input.data, old(input.pos), n)
    ensures input.pos == Min(old(input.pos) + n, |input.data|)
  {
    var written := 0;
    ghost var p := input.pos;
    while written < n
      invariant written <= n && input.pos == p + written <= |input.data| && AtEnd(output)
      invariant output.data == old(output.data) + input.data[p..p + written]
    {
      var lenChunk := if n - written <= CHUNK then n - written else CHUNK;
      var buf := input.ReadUpTo(lenChunk);
      if |buf| == 0 { break; }
      AppendAtEnd(output.data, buf);
      Extend(old(output.data), input.data, p, written, |buf|);
      output.Write(buf);
      written := written + |buf|;
    }
  }

  lemma Extend(a: seq<byte>, d: seq<byte>, p: nat, m: nat, n: nat)
    requires p + m + n <= |d|
    ensures a + d[p..p + m] + d[p + m..p + m + n] == a + d[p..p + m + n]
  {
  }

  /** Where the cursor stands after an attempt at pos. */
  function CursorAfter(data: seq<byte>, pos: nat, available: u32): nat {
    if available < 26 then pos
    else if pos + HEADER > |data| then Max(pos, |data|)
    else if !GoodHeader(HeaderAt(data, pos)) then pos + HEADER
    else
      var c := Fields(HeaderAt(data, pos));
      var end := pos + HEADER + c.lenFilename + c.lenExtraField + c.lenCompressed;
      if BodyLength(c) > available - 26 then end else Min(end, |data|)
  }

  /** Reads a header and name that are to be accepted; otherwise leaves the cursor where the attempt ends. */
  method ReadHead(input: ByteFile, available: u32) returns (ok: bool, header: seq<byte>, filename: seq<byte>)
    modifies input`pos
    ensures ok == Accepted(input.data, old(input.pos), available)
    ensures ok ==> |header| == HEADER && header == HeaderAt(input.data, old(input.pos))
    ensures ok ==> input.pos == old(input.pos) + HEADER + Fields(header).lenFilename
    ensures ok ==> filename == input.data[old(input.pos) + HEADER..input.pos]
    ensures !ok ==> input.pos == CursorAfter(input.data, old(input.pos), available)
  {
    hide Fields, GoodHeader;
    ok, header, filename := false, [], [];
    if available < 26 { return; }
    header := input.ReadUpTo(HEADER);
    if |header| != HEADER { return; }
    if !GoodHeader(header) { return; }
    var c := Fields(header);
    if BodyLength(c) > available - 26 {
      // the start of the next entry, as far as this header can be trusted
      input.Seek(input.pos + c.lenFilename + c.lenExtraField + c.lenCompressed);
      return;
    }
    filename := input.ReadUpTo(c.lenFilename);
    ok := |filename| == c.lenFilename;
  }

  /** The writing half: header and name, then extra field and data straight from the input. */
  method CopyEntry(input: ByteFile, output: ByteFile, header: seq<byte>, filename: seq<byte>, lenExtra: u16, n: u32)
    returns (extra: seq<byte>)
    requires input != output && AtEnd(output) && input.pos <= |input.data|
    modifies input`pos, output
    ensures AtEnd(output)
    ensures |extra| == lenExtra && Slice(input.data, old(input.pos), lenExtra) <= extra
    ensures output.data == old(output.data) +
      LocalBytes(Local(header, filename, extra, Slice(input.data, old(input.pos) + lenExtra, n)))
    ensures input.pos == Min(old(input.pos) + lenExtra + n, |input.data|)
  {
    hide Slice, LocalBytes;
    ghost var at, before := input.pos, output.data;
    extra := ReadBuffer(input, lenExtra);
    SliceIsRest(input.data, at, lenExtra);
    WriteBuffer(output, header, []);
    WriteBuffer(output, filename, []);
    if lenExtra > 0 {
      WriteBuffer(output, extra, []);
    } else {
      assert before + header + filename == before + header + filename + extra;
    }
    ghost var payload := Slice(input.data, input.pos, n);
    SliceFrom(input.data, at + lenExtra, n);
    CopyData(input, output, n);
    Regroup(before, header, filename, extra, payload);
  }

  lemma SliceIsRest(data: seq<byte>, at: nat, n: nat)
    requires at <= |data|
    ensures var rest := data[at..];
      Slice(data, at, n) == if n <= |rest| then rest[..n] else rest
  {
  }

  lemma SliceFrom(data: seq<byte>, at: nat, n: nat)
    ensures Slice(data, Min(at, |data|), n) == Slice(data, at, n)
  {
  }

  lemma Regroup(a: seq<byte>, h: seq<byte>, f: seq<byte>, x: seq<byte>, p: seq<byte>)
    ensures a + h + f + x + p == a + LocalBytes(Local(h, f, x, p))
  {
  }

  /**
   One entry: accepted or not, and if accepted copied to the end of the output. A list, when there
   is one, gets an entry for the place where the local header went.
   */
  method ProcessZipEntry(input: ByteFile, output: ByteFile, available: u32, list: Option<seq<CdEntry>>)
    returns (ok: bool, more: Option<seq<CdEntry>>, ghost l: Local)
    requires input != output && AtEnd(output)
    modifies input`pos, output
    ensures ok == Accepted(input.data, old(input.pos), available)
    ensures input.pos == CursorAfter(input.data, old(input.pos), available)
    ensures AtEnd(output)
    ensures !ok ==> output.data == old(output.data) && more == list
    ensures ok ==> CopyOf(input.data, old(input.pos), l) && output.data == old(output.data) + LocalBytes(l)
    ensures ok ==> more == Added(list, l, |old(output.data)|)
  {
    hide Fields, GoodHeader, LocalBytes, Slice, EntryFor;
    more, l := list, Local([], [], [], []);
    var startOffset := output.pos;
    var header, filename;
    ok, header, filename := ReadHead(input, available);
    if !ok { return; }
    var c := Fields(header);
    ghost var at := input.pos;
    var extra := CopyEntry(input, output, header, filename, c.lenExtraField, c.lenCompressed);
    l := Local(header, filename, extra, Slice(input.data, at + c.lenExtraField, c.lenCompressed));
    match list
    case None =>
    case Some(es) => more := Some(es + [EntryFor(header, filename, extra, startOffset)]);
  }

  // ---------------------------------------------------------------- the local part of the output

  /** Entry after entry. */
  function LocalsBytes(ls: seq<Local>): seq<byte> {
    if ls == [] then [] else LocalsBytes(ls[..|ls| - 1]) + LocalBytes(ls[|ls| - 1])
  }

  lemma LocalsBytesAdd(ls: seq<Local>, l: Local)
    ensures LocalsBytes(ls + [l]) == LocalsBytes(ls) + LocalBytes(l)
  {
    assert (ls + [l])[..|ls|] == ls;
  }

  /** Where entry i starts in an output whose local part starts at base. */
  function StartOf(base: nat, ls: seq<Local>, i: nat): nat
    requires i <= |ls|
  {
    base + |LocalsBytes(ls[..i])|
  }

  function MovedTo(e: CdEntry, start: nat): CdEntry {
    e.(place := e.place.(relativeOffsetOfLocalHeader := start % TWO_32))
  }

  /** The entries es, each moved to the start of its local entry. */
  function Relocated(es: seq<CdEntry>, ls: seq<Local>, base: nat): (r: seq<CdEntry>)
    requires |es| == |ls|
    ensures |r| == |ls|
  {
    if ls == [] then [] else
    var n := |ls| - 1;
    Relocated(es[..n], ls[..n], base) + [MovedTo(es[n], base + |LocalsBytes(ls[..n])|)]
  }

  lemma RelocatedAdd(es: seq<CdEntry>, ls: seq<Local>, base: nat, e: CdEntry, l: Local)
    requires |es| == |ls|
    ensures Relocated(es + [e], ls + [l], base) == Relocated(es, ls, base) + [MovedTo(e, base + |LocalsBytes(ls)|)]
  {
    assert (es + [e])[..|es|] == es && (ls + [l])[..|ls|] == ls;
  }

  /** The entries made while scanning. */
  function Made(ls: seq<Local>, base: nat): (r: seq<CdEntry>)
    ensures |r| == |ls|
  {
    if ls == [] then [] else
    var n := |ls| - 1;
    Made(ls[..n], base) +
      [EntryFor(ls[n].header, ls[n].filename, ls[n].extraField, base + |LocalsBytes(ls[..n])|)]
  }

  lemma MadeAdd(ls: seq<Local>, base: nat, l: Local)
    ensures Made(ls + [l], base) ==
      Made(ls, base) + [EntryFor(l.header, l.filename, l.extraField, base + |LocalsBytes(ls)|)]
  {
    assert (ls + [l])[..|ls|] == ls;
  }

  // ---------------------------------------------------------------- recovery by the directory

  /** sizeofEntry is the size of the in-memory header struct, pointers included, as the source adds it. */
  function LenEntry(sizeofEntry: nat, e: CdEntry): u32 {
    (sizeofEntry + e.common.lenFilename + e.common.lenExtraField + e.common.lenCompressed) % TWO_32
  }

  predicate Survives(data: seq<byte>, areas: seq<Area>, sizeofEntry: nat, e: CdEntry) {
    var at: nat, n: nat := e.place.relativeOffsetOfLocalHeader, LenEntry(sizeofEntry, e);
    Filled(at, at + n, areas) && Accepted(data, at, n)
  }

  /** The entries of the input's directory that are filled and accepted, in their order. */
  function Survivors(data: seq<byte>, areas: seq<Area>, sizeofEntry: nat, es: seq<CdEntry>): seq<CdEntry> {
    if es == [] then [] else
    var n := |es| - 1;
    Survivors(data, areas, sizeofEntry, es[..n]) + if Survives(data, areas, sizeofEntry, es[n]) then [es[n]] else []
  }

  predicate AllCopied(data: seq<byte>, es: seq<CdEntry>, ls: seq<Local>) {
    |es| == |ls| && forall i :: 0 <= i < |ls| ==> CopyOf(data, es[i].place.relativeOffsetOfLocalHeader, ls[i])
  }

  /** One entry of the directory: copied and moved, or to be deleted. */
  method RecoverOne(input: ByteFile, output: ByteFile, areas: seq<Area>, sizeofEntry: nat, cdEntry: CdEntry)
    returns (deleteCD: bool, moved: CdEntry, ghost l: Local)
    requires input != output && AtEnd(output)
    modifies input`pos, output
    ensures deleteCD == !Survives(input.data, areas, sizeofEntry, cdEntry)
    ensures AtEnd(output)
    ensures deleteCD ==> output.data == old(output.data)
    ensures !deleteCD ==> output.data == old(output.data) + LocalBytes(l) && moved == MovedTo(cdEntry, |old(output.data)|)
    ensures !deleteCD ==> CopyOf(input.data, cdEntry.place.relativeOffsetOfLocalHeader, l)
  {
    hide CopyOf, Accepted, Filled, LocalBytes, CursorAfter;
    deleteCD, moved, l := false, cdEntry, Local([], [], [], []);
    var at: nat, lenEntry: nat := cdEntry.place.relativeOffsetOfLocalHeader, LenEntry(sizeofEntry, cdEntry);
    var filled := IsFilled(at, at + lenEntry, areas);
    if filled {
      input.Seek(at);
      moved := MovedTo(cdEntry, output.pos);
      var done, none;
      done, none, l := ProcessZipEntry(input, output, lenEntry, None);
      if !done { deleteCD := true; }
    } else {
      deleteCD := true;
    }
  }

  /** Walks the list, moving the entries that survive and deleting the others. */
  method RecoverByDirectory(input: ByteFile, output: ByteFile, areas: seq<Area>, sizeofEntry: nat, entries: seq<CdEntry>)
    returns (list: seq<CdEntry>, ghost ls: seq<Local>)
    requires input != output && AtEnd(output)
    modifies input`pos, output
    ensures AtEnd(output) && output.data == old(output.data) + LocalsBytes(ls)
    ensures AllCopied(input.data, Survivors(input.data, areas, sizeofEntry, entries), ls)
    ensures list == Relocated(Survivors(input.data, areas, sizeofEntry, entries), ls, |old(output.data)|)
  {
    hide CopyOf, Survives, Survivors, LocalsBytes, Relocated;
    ghost var data, before, k, kept: seq<CdEntry>, done: seq<CdEntry> := input.data, output.data, 0, [], [];
    var i := 0;
    list, ls := entries, [];
    RecoveryStarts(data, areas, sizeofEntry, entries, before);
    while i < |list|
      invariant k <= |entries| && i == |done| == |ls| && list == done + entries[k..] && AtEnd(output)
      invariant output.data == before + LocalsBytes(ls)
      invariant kept == Survivors(data, areas, sizeofEntry, entries[..k]) && AllCopied(data, kept, ls)
      invariant done == Relocated(kept, ls, |before|)
      decreases |list| - i
    {
      var e := list[i];
      assert e == entries[k];
      var deleteCD, moved;
      ghost var l;
      deleteCD, moved, l := RecoverOne(input, output, areas, sizeofEntry, e);
      SurvivorsStep(data, areas, sizeofEntry, entries, k);
      if deleteCD {
        list := list[..i] + list[i + 1..];
      } else {
        LocalsBytesAdd(ls, l);
        RelocatedAdd(kept, ls, |before|, e, l);
        list := list[i := moved];
        i, ls, kept, done := i + 1, ls + [l], kept + [e], done + [moved];
        assert before + LocalsBytes(ls[..|ls| - 1]) + LocalBytes(l) == before + LocalsBytes(ls);
      }
      k := k + 1;
    }
    assert entries[..k] == entries;
  }

  lemma RecoveryStarts(data: seq<byte>, areas: seq<Area>, sizeofEntry: nat, entries: seq<CdEntry>, before: seq<byte>)
    ensures LocalsBytes([]) == [] && Relocated([], [], |before|) == [] && before + [] == before
    ensures Survivors(data, areas, sizeofEntry, entries[..0]) == []
  {
  }

  lemma SurvivorsStep(data: seq<byte>, areas: seq<Area>, sizeofEntry: nat, es: seq<CdEntry>, k: nat)
    requires k < |es|
    ensures Survivors(data, areas, sizeofEntry, es[..k + 1]) ==
      Survivors(data, areas, sizeofEntry, es[..k]) +
      if Survives(data, areas, sizeofEntry, es[k]) then [es[k]] else []
  {
    assert es[..k + 1][..k] == es[..k];
  }

  // ---------------------------------------------------------------- recovery by scanning

  /** Where the search for a marker leaves the cursor: on the marker, or somewhere without one. */
  datatype ScanResult = Found(at: nat) | NotFound(at: nat)

  /** scanForZipMarker, as a function of the cursor and the length of the area to search: it never goes back. */
  type Scanner = (nat, nat) -> ScanResult

  ghost predicate GoodScanner(data: seq<byte>, scan: Scanner) {
    forall p: nat, n: nat :: p <= scan(p, n).at && (scan(p, n).Found? ==> scan(p, n).at + 4 <= |data|)
  }

  /** Where the entry at pos, with local copy l, ends in the input. */
  function SourceEnd(data: seq<byte>, pos: nat, l: Local): nat {
    var c := Fields(l.header);
    Min(pos + HEADER + c.lenFilename + c.lenExtraField + c.lenCompressed, |data|)
  }

  /** The entries found so far: copied from ascending places below bound, none reaching into the next. */
  ghost predicate Sources(data: seq<byte>, at: seq<nat>, ls: seq<Local>, bound: nat) {
    |at| == |ls| &&
    (forall i :: 0 <= i < |at| ==> CopyOf(data, at[i], ls[i]) && at[i] + HEADER < SourceEnd(data, at[i], ls[i]) <= bound) &&
    forall i, j :: 0 <= i < j < |at| ==> SourceEnd(data, at[i], ls[i]) <= at[j]
  }

  lemma SourcesAdd(data: seq<byte>, at: seq<nat>, ls: seq<Local>, bound: nat, p: nat, l: Local, next: nat)
    requires Sources(data, at, ls, bound) && bound <= p && CopyOf(data, p, l)
    requires p + HEADER < SourceEnd(data, p, l) <= next
    ensures Sources(data, at + [p], ls + [l], next)
  {
    hide CopyOf, SourceEnd;
    var at1, ls1 := at + [p], ls + [l];
    assert forall i :: 0 <= i < |at| ==> at1[i] == at[i] && ls1[i] == ls[i];
    assert at1[|at|] == p && ls1[|at|] == l;
  }

  lemma CursorAdvances(data: seq<byte>, pos: nat, available: u32, l: Local)
    requires Accepted(data, pos, available) && CopyOf(data, pos, l)
    ensures pos + HEADER < CursorAfter(data, pos, available) <= |data|
    ensures CursorAfter(data, pos, available) == SourceEnd(data, pos, l) == EndOf(data, pos)
  {
    hide Fields;
    assert Fields(l.header).lenFilename > 0;
  }

  lemma CursorStays(data: seq<byte>, pos: nat, available: u32)
    ensures pos <= CursorAfter(data, pos, available)
  {
  }

  lemma MadeWellFormed(data: seq<byte>, pos: nat, l: Local, start: nat)
    requires CopyOf(data, pos, l)
    ensures WellFormed(EntryFor(l.header, l.filename, l.extraField, start))
  {
  }

  // what the scan finds, in the terms of the scanner

  /** Where the entry at pos ends, by its header, or the file if that comes first. */
  function EndOf(data: seq<byte>, pos: nat): nat {
    if pos + HEADER > |data| then |data| else
    var c := Fields(HeaderAt(data, pos));
    Min(pos + HEADER + c.lenFilename + c.lenExtraField + c.lenCompressed, |data|)
  }

  /** The search for a marker from the cursor on, in an area that ends at end. */
  function Search(scan: Scanner, cursor: nat, end: nat): ScanResult { scan(cursor, (end + 1 - cursor) % TWO_64) }

  /** Something is found in the area and taken for an entry. */
  predicate Hit(data: seq<byte>, scan: Scanner, cursor: nat, end: nat) {
    var r := Search(scan, cursor, end);
    r.Found? && r.at <= end && Accepted(data, r.at, (end - r.at + 1) % TWO_32)
  }

  /** Where the search for entry i starts: at p0, and then behind the entry before. */
  function CursorFor(data: seq<byte>, p0: nat, found: seq<nat>, i: nat): nat
    requires i <= |found|
  {
    if i == 0 then p0 else EndOf(data, found[i - 1])
  }

  /** The entries found in an area, each by the search behind the one before. */
  ghost predicate FoundInTurn(data: seq<byte>, scan: Scanner, end: nat, p0: nat, found: seq<nat>) {
    forall i :: 0 <= i < |found| ==>
      var cursor := CursorFor(data, p0, found, i);
      Hit(data, scan, cursor, end) && Search(scan, cursor, end) == Found(found[i])
  }

  /** And the search behind the last of them has found nothing more; p1 is where that leaves the cursor. */
  ghost predicate AreaScanned(data: seq<byte>, scan: Scanner, end: nat, p0: nat, found: seq<nat>, p1: nat) {
    && FoundInTurn(data, scan, end, p0, found)
    && var cursor := CursorFor(data, p0, found, |found|);
       !Hit(data, scan, cursor, end) && p1 == CursorAtEnd(data, scan, cursor, end)
  }

  /** One area, with the cursor before and behind it: it is passed over if the cursor is behind it already. */
  ghost predicate AreaStep(data: seq<byte>, scan: Scanner, area: Area, cursor: nat, found: seq<nat>, next: nat) {
    if cursor > area.end then found == [] && next == cursor
    else AreaScanned(data, scan, area.end, Max(cursor, area.start), found, next)
  }

  /** All areas in turn: found[i] in area i. */
  ghost predicate AreasScanned(data: seq<byte>, scan: Scanner, areas: seq<Area>, found: seq<seq<nat>>, cursors: seq<nat>) {
    && |found| + 1 == |cursors| && |found| <= |areas| && cursors[0] == 0
    && forall i :: 0 <= i < |found| ==> AreaStep(data, scan, areas[i], cursors[i], found[i], cursors[i + 1])
  }

  function Flatten(found: seq<seq<nat>>): seq<nat> {
    if found == [] then [] else Flatten(found[..|found| - 1]) + found[|found| - 1]
  }

  lemma FoundAdd(data: seq<byte>, scan: Scanner, end: nat, p0: nat, found: seq<nat>, p: nat)
    requires FoundInTurn(data, scan, end, p0, found)
    requires var cursor := CursorFor(data, p0, found, |found|);
      Hit(data, scan, cursor, end) && Search(scan, cursor, end) == Found(p)
    ensures FoundInTurn(data, scan, end, p0, found + [p])
  {
    hide Hit, Search, EndOf;
    var found1 := found + [p];
    forall i | 0 <= i < |found1|
      ensures CursorFor(data, p0, found1, i) == CursorFor(data, p0, found, i) && (i < |found| ==> found1[i] == found[i])
    {
    }
  }

  lemma AreasAdd(data: seq<byte>, scan: Scanner, areas: seq<Area>, found: seq<seq<nat>>, cursors: seq<nat>, here: seq<nat>, p1: nat)
    requires AreasScanned(data, scan, areas, found, cursors) && |found| < |areas|
    requires AreaStep(data, scan, areas[|found|], cursors[|found|], here, p1)
    ensures AreasScanned(data, scan, areas, found + [here], cursors + [p1])
    ensures Flatten(found + [here]) == Flatten(found) + here
  {
    hide AreaStep;
    assert (found + [here])[..|found|] == found;
  }

  /** Where the cursor is left by a search that finds no more entries. */
  function CursorAtEnd(data: seq<byte>, scan: Scanner, cursor: nat, end: nat): nat {
    var r := Search(scan, cursor, end);
    if r.NotFound? || r.at > end then r.at else CursorAfter(data, r.at, (end - r.at + 1) % TWO_32)
  }

  /** One round of the loop: the search, and the entry at the place where it stops. */
  method ScanNext(input: ByteFile, output: ByteFile, end: nat, scan: Scanner, entries: seq<CdEntry>)
    returns (again: bool, list: seq<CdEntry>, ghost l: Local)
    requires input != output && AtEnd(output) && GoodScanner(input.data, scan)
    modifies input`pos, output
    ensures AtEnd(output) && input.pos >= old(input.pos)
    ensures again == Hit(input.data, scan, old(input.pos), end)
    ensures !again ==> output.data == old(output.data) && list == entries
    ensures !again ==> input.pos == CursorAtEnd(input.data, scan, old(input.pos), end)
    ensures again ==>
      var p := Search(scan, old(input.pos), end).at;
      && old(input.pos) <= p && CopyOf(input.data, p, l) && p + HEADER < input.pos <= |input.data|
      && input.pos == EndOf(input.data, p) == SourceEnd(input.data, p, l)
      && output.data == old(output.data) + LocalBytes(l)
      && list == entries + [EntryFor(l.header, l.filename, l.extraField, |old(output.data)|)]
  {
    hide CopyOf, Accepted, CursorAfter, EntryFor, LocalBytes, SourceEnd, EndOf;
    again, list, l := false, entries, Local([], [], [], []);
    ghost var p0 := input.pos;
    var found := scan(input.pos, (end + 1 - input.pos) % TWO_64);
    assert found == Search(scan, p0, end);
    input.Seek(found.at);
    if found.Found? && input.pos <= end {
      var available := (end - input.pos + 1) % TWO_32;
      CursorStays(input.data, input.pos, available);
      ghost var p := input.pos;
      var more: Option<seq<CdEntry>>;
      again, more, l := ProcessZipEntry(input, output, available, Some(list));
      if again {
        CursorAdvances(input.data, p, available, l);
        list := more.value;
      }
    }
  }

  /**
   The loop over one filled area: as long as a marker is found that does not lie behind the area and
   an entry is accepted there.
   */
  method ScanArea(input: ByteFile, output: ByteFile, end: nat, scan: Scanner, entries: seq<CdEntry>,
                  ghost before: seq<byte>, ghost at0: seq<nat>, ghost ls0: seq<Local>)
    returns (list: seq<CdEntry>, ghost at: seq<nat>, ghost ls: seq<Local>, ghost found: seq<nat>)
    requires input != output && AtEnd(output) && GoodScanner(input.data, scan)
    requires output.data == before + LocalsBytes(ls0) && entries == Made(ls0, |before|) && AllWellFormed(entries)
    requires Sources(input.data, at0, ls0, input.pos)
    modifies input`pos, output
    ensures AtEnd(output) && output.data == before + LocalsBytes(ls) && list == Made(ls, |before|)
    ensures AllWellFormed(list) && Sources(input.data, at, ls, input.pos)
    ensures input.pos >= old(input.pos)
    ensures at == at0 + found && AreaScanned(input.data, scan, end, old(input.pos), found, input.pos)
  {
    hide CopyOf, LocalsBytes, Made, WellFormed, EntryFor, LocalBytes, SourceEnd, Sources, EndOf, Hit, Search, CursorAtEnd, FoundInTurn;
    ghost var data, start := input.data, input.pos;
    list, at, ls, found := entries, at0, ls0, [];
    NothingFound(data, scan, end, start);
    var again := true;
    while again
      invariant AtEnd(output) && output.data == before + LocalsBytes(ls) && list == Made(ls, |before|)
      invariant AllWellFormed(list) && Sources(data, at, ls, input.pos) && input.pos >= start
      invariant at == at0 + found && FoundInTurn(data, scan, end, start, found)
      invariant again ==> input.pos == CursorFor(data, start, found, |found|)
      invariant !again ==> AreaScanned(data, scan, end, start, found, input.pos)
      decreases again, if input.pos <= |data| then |data| - input.pos else 0
    {
      ghost var p0, outLength := input.pos, |output.data|;
      ghost var l;
      again, list, l := ScanNext(input, output, end, scan, list);
      if again {
        ghost var p := Search(scan, p0, end).at;
        HitIsFound(data, scan, p0, end);
        FoundAdd(data, scan, end, start, found, p);
        SourcesBelow(data, at, ls, p0, p);
        SourcesAdd(data, at, ls, p, p, l, input.pos);
        MadeWellFormed(data, p, l, outLength);
        LocalsBytesAdd(ls, l);
        MadeAdd(ls, |before|, l);
        assert before + LocalsBytes(ls) + LocalBytes(l) == before + LocalsBytes(ls + [l]);
        at, ls, found := at + [p], ls + [l], found + [p];
      } else {
        SourcesBelow(data, at, ls, p0, input.pos);
      }
    }
  }

  lemma HitIsFound(data: seq<byte>, scan: Scanner, cursor: nat, end: nat)
    requires Hit(data, scan, cursor, end)
    ensures Search(scan, cursor, end) == Found(Search(scan, cursor, end).at)
  {
  }

  lemma NothingFound(data: seq<byte>, scan: Scanner, end: nat, p0: nat)
    ensures FoundInTurn(data, scan, end, p0, []) && CursorFor(data, p0, [], 0) == p0
  {
  }

  lemma SourcesBelow(data: seq<byte>, at: seq<nat>, ls: seq<Local>, bound: nat, next: nat)
    requires Sources(data, at, ls, bound) && bound <= next
    ensures Sources(data, at, ls, next)
  {
    hide CopyOf, SourceEnd;
  }

  /** The loop over the filled areas. */
  method RecoverByScan(input: ByteFile, output: ByteFile, areas: seq<Area>, scan: Scanner)
    returns (list: seq<CdEntry>, ghost at: seq<nat>, ghost ls: seq<Local>, ghost found: seq<seq<nat>>, ghost cursors: seq<nat>)
    requires input != output && AtEnd(output) && GoodScanner(input.data, scan)
    modifies input`pos, output
    ensures AtEnd(output) && output.data == old(output.data) + LocalsBytes(ls)
    ensures list == Made(ls, |old(output.data)|) && AllWellFormed(list)
    ensures Sources(input.data, at, ls, input.pos)
    ensures |found| == |areas| && AreasScanned(input.data, scan, areas, found, cursors) && at == Flatten(found)
  {
    hide CopyOf, LocalsBytes, Made, WellFormed, SourceEnd, AreaScanned, AreasScanned, Flatten;
    ghost var before := output.data;
    input.Seek(0);
    list, at, ls, found, cursors := [], [], [], [], [0];
    ScanStarts(input.data, scan, areas, before);
    for i := 0 to |areas|
      invariant AtEnd(output) && output.data == before + LocalsBytes(ls)
      invariant list == Made(ls, |before|) && AllWellFormed(list)
      invariant Sources(input.data, at, ls, input.pos) && at == Flatten(found)
      invariant |found| == i && AreasScanned(input.data, scan, areas, found, cursors)
      invariant |cursors| == i + 1 && cursors[i] == input.pos
    {
      var fill := areas[i];
      if input.pos > fill.end {
        AreasAdd(input.data, scan, areas, found, cursors, [], input.pos);
        found, cursors := found + [[]], cursors + [input.pos];
        continue;
      }
      if input.pos < fill.start {
        SourcesBelow(input.data, at, ls, input.pos, fill.start);
        input.Seek(fill.start);
      }
      ghost var here;
      list, at, ls, here := ScanArea(input, output, fill.end, scan, list, before, at, ls);
      AreasAdd(input.data, scan, areas, found, cursors, here, input.pos);
      found, cursors := found + [here], cursors + [input.pos];
    }
  }

  lemma ScanStarts(data: seq<byte>, scan: Scanner, areas: seq<Area>, before: seq<byte>)
    ensures AreasScanned(data, scan, areas, [], [0]) && Flatten([]) == []
    ensures LocalsBytes([]) == [] && Made([], |before|) == [] && before + [] == before
  {
  }
}
