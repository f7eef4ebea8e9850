/** What recovery takes for a local entry, byte by byte, and that an intact archive is recovered whole on both paths. */
module ZipIntact {
  import opened Wrappers
  import opened Bytes
  import opened ByteFiles
  import opened ZipRecords
  import opened ZipDirectory
  import opened ZipRecover
  import opened ZipArchive

  // ---------------------------------------------------------------- an entry, by its bytes

  /** PK\003\004 stands at p. */
  predicate MarkerAt(data: seq<byte>, p: nat) {
    p + 4 <= |data| && data[p] == 0x50 && data[p + 1] == 0x4B && data[p + 2] == 3 && data[p + 3] == 4
  }

  function Number16(data: seq<byte>, at: nat): nat
    requires at + 2 <= |data|
  {
    data[at] as int + 256 * data[at + 1] as int
  }

  function Number32(data: seq<byte>, at: nat): nat
    requires at + 4 <= |data|
  {
    Number16(data, at) + 65536 * Number16(data, at + 2)
  }

  /** A local header by the offsets of section 4.3.7 of the APPNOTE, with what the recovery asks of it. */
  predicate HeaderStandsAt(data: seq<byte>, p: nat) {
    && p + 30 <= |data| && MarkerAt(data, p)
    && Number32(data, p + 14) != 0 && Number32(data, p + 18) != 0 && Number32(data, p + 22) != 0
    && 0 < Number16(data, p + 26) <= 260
  }

  lemma NumberIsVal(data: seq<byte>, p: nat, i: nat, n: nat)
    requires p + 30 <= |data| && (n == 2 || n == 4) && i + n <= 30
    ensures var s := HeaderAt(data, p)[i..i + n];
      if n == 2 then Val16(s) == Number16(data, p + i) else Val32(s) == Number32(data, p + i)
  {
    var s := HeaderAt(data, p)[i..i + n];
    assert forall k :: 0 <= k < n ==> s[k] == data[p + i + k];
  }

  lemma MarkerIsMagic(data: seq<byte>, p: nat)
    requires p + 4 <= |data|
    ensures Number32(data, p) == ZIP_LOCAL_HEADER_MAGIC <==> MarkerAt(data, p)
  {
  }

  lemma HeaderNumbers(data: seq<byte>, p: nat)
    requires p + 30 <= |data|
    ensures var c := Fields(HeaderAt(data, p));
      && c.crc32 == Number32(data, p + 14) && c.lenCompressed == Number32(data, p + 18)
      && c.lenUncompressed == Number32(data, p + 22)
      && c.lenFilename == Number16(data, p + 26) && c.lenExtraField == Number16(data, p + 28)
    ensures GoodHeader(HeaderAt(data, p)) <==> HeaderStandsAt(data, p)
  {
    hide Fields, Val16, Val32, Number16, Number32, MarkerAt;
    FieldsAt(HeaderAt(data, p));
    NumberIsVal(data, p, 0, 4);
    NumberIsVal(data, p, 14, 4);
    NumberIsVal(data, p, 18, 4);
    NumberIsVal(data, p, 22, 4);
    NumberIsVal(data, p, 26, 2);
    NumberIsVal(data, p, 28, 2);
    MarkerIsMagic(data, p);
  }

  /** What recovery takes for an entry at p, by the bytes there: a header, a name in the file, and lengths that fit what is available. */
  lemma AcceptedByBytes(data: seq<byte>, p: nat, available: u32)
    ensures Accepted(data, p, available) <==>
      && HeaderStandsAt(data, p)
      && p + 30 + Number16(data, p + 26) <= |data|
      && 26 <= available
      && (Number16(data, p + 26) + Number16(data, p + 28) + Number32(data, p + 18)) % 0x1_0000_0000 <= available - 26
  {
    hide Fields, GoodHeader, Number16, Number32, HeaderStandsAt;
    if p + 30 <= |data| {
      HeaderNumbers(data, p);
    } else {
      assert !HeaderStandsAt(data, p) by { Short(data, p); }
    }
  }

  lemma Short(data: seq<byte>, p: nat)
    requires p + 30 > |data|
    ensures !HeaderStandsAt(data, p)
  {
  }

  /** An entry of the input's directory survives exactly if its place is filled, for its lengths and the header struct, and holds an entry of at most that size. */
  lemma SurvivesByBytes(data: seq<byte>, areas: seq<Area>, sizeofEntry: nat, e: CdEntry)
    ensures var p: nat := e.place.relativeOffsetOfLocalHeader;
      var n := (sizeofEntry + e.common.lenFilename + e.common.lenExtraField + e.common.lenCompressed) % 0x1_0000_0000;
      Survives(data, areas, sizeofEntry, e) <==>
        && (exists i :: 0 <= i < |areas| && areas[i].end >= p + n && forall j :: 0 <= j <= i ==> areas[j].start <= p)
        && HeaderStandsAt(data, p)
        && p + 30 + Number16(data, p + 26) <= |data|
        && 26 <= n && (Number16(data, p + 26) + Number16(data, p + 28) + Number32(data, p + 18)) % 0x1_0000_0000 <= n - 26
  {
    hide Accepted, HeaderStandsAt, Number16, Number32;
    var n := LenEntry(sizeofEntry, e);
    AcceptedByBytes(data, e.place.relativeOffsetOfLocalHeader, n);
  }

  // ---------------------------------------------------------------- intact archives

  /** A local entry that recovery can take, with name, extra field and data as long as its header says. */
  predicate Whole(l: Local) {
    var c := Fields(l.header);
    GoodHeader(l.header) && |l.filename| == c.lenFilename && |l.extraField| == c.lenExtraField && |l.payload| == c.lenCompressed
  }

  /** The scanner stops at a marker that it starts on. */
  ghost predicate SeesMarkers(data: seq<byte>, scan: Scanner) {
    forall p: nat, n: nat :: MarkerAt(data, p) && 4 <= n ==> scan(p, n) == Found(p)
  }

  /** The bytes of l stand at p. */
  predicate StandsAt(data: seq<byte>, p: nat, l: Local) {
    p + |LocalBytes(l)| <= |data| && data[p..p + |LocalBytes(l)|] == LocalBytes(l)
  }

  lemma PartsOf(data: seq<byte>, p: nat, l: Local)
    requires StandsAt(data, p, l) && |l.header| == HEADER
    ensures var a := p + HEADER;
      var b := a + |l.filename|;
      var d := b + |l.extraField|;
      && |LocalBytes(l)| == HEADER + |l.filename| + |l.extraField| + |l.payload|
      && d + |l.payload| <= |data|
      && HeaderAt(data, p) == l.header && data[a..b] == l.filename && data[b..d] == l.extraField
      && data[d..d + |l.payload|] == l.payload
  {
    var s := LocalBytes(l);
    var n := |s|;
    var i := HEADER + |l.filename|;
    var j := i + |l.extraField|;
    assert s[..HEADER] == l.header && s[HEADER..i] == l.filename && s[i..j] == l.extraField && s[j..] == l.payload;
    SliceOfSlice(data, p, n, 0, HEADER);
    SliceOfSlice(data, p, n, HEADER, i);
    SliceOfSlice(data, p, n, i, j);
    SliceOfSlice(data, p, n, j, n);
  }

  /** A whole entry is accepted where it stands, and the cursor goes to its end. */
  lemma WholeIsAccepted(data: seq<byte>, p: nat, l: Local, available: u32)
    requires Whole(l) && StandsAt(data, p, l) && |LocalBytes(l)| - 4 <= available
    ensures Accepted(data, p, available) && EndOf(data, p) == p + |LocalBytes(l)| && MarkerAt(data, p)
  {
    hide Fields, GoodHeader, LocalBytes, MarkerAt;
    HeaderLength(l);
    PartsOf(data, p, l);
    HeaderNumbers(data, p);
    assert MarkerAt(data, p);
  }

  lemma HeaderLength(l: Local)
    requires Whole(l)
    ensures |l.header| == HEADER
  {
  }

  /** And it is copied as it is. */
  lemma CopyIsWhole(data: seq<byte>, p: nat, l: Local, copy: Local)
    requires Whole(l) && StandsAt(data, p, l) && CopyOf(data, p, copy)
    ensures copy == l
  {
    hide Fields, GoodHeader, LocalBytes;
    HeaderLength(l);
    PartsOf(data, p, l);
  }

  lemma EntryStands(data: seq<byte>, ls: seq<Local>, tail: seq<byte>, i: nat)
    requires data == LocalsBytes(ls) + tail && i < |ls|
    ensures StandsAt(data, StartOf(0, ls, i), ls[i]) && StartOf(0, ls, i) + |LocalBytes(ls[i])| == StartOf(0, ls, i + 1)
  {
    hide LocalBytes;
    LocalAtStart(ls, i);
    assert ls[..i + 1][..i] == ls[..i];
    var p, n := StartOf(0, ls, i), |LocalBytes(ls[i])|;
    assert data[p..p + n] == LocalsBytes(ls)[p..p + n];
  }

  /** An archive of whole entries, one behind the other from byte 0, all of it in one filled area. */
  ghost predicate Intact(data: seq<byte>, ls: seq<Local>, tail: seq<byte>) {
    data == LocalsBytes(ls) + tail && |data| < TWO_32 && forall l :: l in ls ==> Whole(l)
  }

  /** The search goes through the entries in turn. */
  lemma {:induction false} SearchMeets(data: seq<byte>, ls: seq<Local>, tail: seq<byte>, scan: Scanner, found: seq<nat>, p1: nat, i: nat)
    requires Intact(data, ls, tail) && SeesMarkers(data, scan) && i <= |ls| && data != []
    requires AreaScanned(data, scan, |data| - 1, 0, found, p1)
    ensures i <= |found| && CursorFor(data, 0, found, i) == StartOf(0, ls, i)
    ensures forall k :: 0 <= k < i ==> found[k] == StartOf(0, ls, k)
  {
    hide EndOf, SeesMarkers, Intact, AreaScanned, CursorFor, Hit, Search, StartOf;
    if i == 0 {
      StartsAtZero(ls);
      Turn(data, scan, |data| - 1, 0, found, p1, 0);
    } else {
      SearchMeets(data, ls, tail, scan, found, p1, i - 1);
      NextIsHit(data, ls, tail, scan, i - 1);
      Turn(data, scan, |data| - 1, 0, found, p1, i - 1);
    }
  }

  /** One turn of the search through an area: there is a next entry exactly if the search behind the last one hits. */
  lemma Turn(data: seq<byte>, scan: Scanner, end: nat, p0: nat, found: seq<nat>, p1: nat, k: nat)
    requires AreaScanned(data, scan, end, p0, found, p1) && k <= |found|
    ensures CursorFor(data, p0, found, 0) == p0
    ensures Hit(data, scan, CursorFor(data, p0, found, k), end) <==> k < |found|
    ensures k < |found| ==>
      && Search(scan, CursorFor(data, p0, found, k), end) == Found(found[k])
      && CursorFor(data, p0, found, k + 1) == EndOf(data, found[k])
  {
    hide Hit, Search, EndOf;
  }

  lemma StartsAtZero(ls: seq<Local>)
    ensures StartOf(0, ls, 0) == 0
  {
  }

  lemma NextIsHit(data: seq<byte>, ls: seq<Local>, tail: seq<byte>, scan: Scanner, i: nat)
    requires Intact(data, ls, tail) && SeesMarkers(data, scan) && i < |ls| && data != []
    ensures var p := StartOf(0, ls, i);
      && Hit(data, scan, p, |data| - 1) && Search(scan, p, |data| - 1) == Found(p) && EndOf(data, p) == StartOf(0, ls, i + 1)
  {
    hide LocalBytes, Fields, GoodHeader, EndOf, Accepted, MarkerAt, LocalsBytes;
    var p := StartOf(0, ls, i);
    EntryStands(data, ls, tail, i);
    HeaderLength(ls[i]);
    PartsOf(data, p, ls[i]);
    WholeIsAccepted(data, p, ls[i], |data| - p);
    assert (|data| - p) % TWO_64 == |data| - p && (|data| - p) % TWO_32 == |data| - p;
    assert scan(p, |data| - p) == Found(p);
  }

  /**
   Scanning an intact archive recovers every local entry, in order and byte for byte; whatever comes
   after them does not matter.
   */
  lemma IntactArchiveByScan(data: seq<byte>, ls: seq<Local>, tail: seq<byte>, scan: Scanner,
                            found: seq<seq<nat>>, cursors: seq<nat>, copies: seq<Local>, bound: nat)
    requires Intact(data, ls, tail) && SeesMarkers(data, scan) && data != []
    requires |found| == 1 && AreasScanned(data, scan, [Area(0, |data| - 1)], found, cursors)
    requires Sources(data, Flatten(found), copies, bound)
    ensures ls <= copies
  {
    hide CopyOf, SourceEnd, AreaScanned, Intact, SeesMarkers, LocalsBytes;
    assert found[..0] == [] && Flatten(found) == [] + found[0] == found[0];
    SearchMeets(data, ls, tail, scan, found[0], cursors[1], |ls|);
    forall i | 0 <= i < |ls| ensures copies[i] == ls[i] {
      IntactEntry(data, ls, tail, i, copies[i]);
    }
  }

  lemma IntactEntry(data: seq<byte>, ls: seq<Local>, tail: seq<byte>, i: nat, copy: Local)
    requires Intact(data, ls, tail) && i < |ls| && CopyOf(data, StartOf(0, ls, i), copy)
    ensures copy == ls[i]
  {
    hide CopyOf, LocalsBytes, Whole;
    EntryStands(data, ls, tail, i);
    CopyIsWhole(data, StartOf(0, ls, i), ls[i], copy);
  }

  /** A directory over the entries, and room in the filled part for what the check adds to each of them. */
  ghost predicate DirectoryOver(data: seq<byte>, areas: seq<Area>, sizeofEntry: nat, es: seq<CdEntry>, ls: seq<Local>) {
    && |es| == |ls| && 26 <= sizeofEntry && data != [] && areas == [Area(0, |data| - 1)]
    && forall i :: 0 <= i < |ls| ==>
         var c := Fields(ls[i].header);
         var n := sizeofEntry + c.lenFilename + c.lenExtraField + c.lenCompressed;
         && es[i].common == c && es[i].place.relativeOffsetOfLocalHeader == StartOf(0, ls, i)
         && n < TWO_32 && StartOf(0, ls, i) + n < |data|
  }

  /** By its own directory an intact archive is recovered whole: no entry is deleted, every copy is the entry. */
  lemma IntactArchiveByDirectory(data: seq<byte>, areas: seq<Area>, sizeofEntry: nat, es: seq<CdEntry>, ls: seq<Local>,
                                 tail: seq<byte>, copies: seq<Local>)
    requires Intact(data, ls, tail) && DirectoryOver(data, areas, sizeofEntry, es, ls)
    requires AllCopied(data, Survivors(data, areas, sizeofEntry, es), copies)
    ensures Survivors(data, areas, sizeofEntry, es) == es && copies == ls
  {
    hide CopyOf, Survives, Intact, LocalsBytes, Fields;
    forall i | 0 <= i < |es| ensures Survives(data, areas, sizeofEntry, es[i]) {
      DirectoryEntrySurvives(data, areas, sizeofEntry, es, ls, tail, i);
    }
    AllSurvive(data, areas, sizeofEntry, es);
    forall i | 0 <= i < |ls| ensures copies[i] == ls[i] {
      IntactEntry(data, ls, tail, i, copies[i]);
    }
  }

  lemma DirectoryEntrySurvives(data: seq<byte>, areas: seq<Area>, sizeofEntry: nat, es: seq<CdEntry>, ls: seq<Local>, tail: seq<byte>, i: nat)
    requires Intact(data, ls, tail) && DirectoryOver(data, areas, sizeofEntry, es, ls) && i < |ls|
    ensures Survives(data, areas, sizeofEntry, es[i])
  {
    hide LocalBytes, Fields, GoodHeader, EndOf, Accepted, MarkerAt, LocalsBytes;
    var p := StartOf(0, ls, i);
    EntryStands(data, ls, tail, i);
    HeaderLength(ls[i]);
    PartsOf(data, p, ls[i]);
    WholeIsAccepted(data, p, ls[i], LenEntry(sizeofEntry, es[i]));
    assert Filled(p, p + LenEntry(sizeofEntry, es[i]), areas) by { assert areas[0].end >= p + LenEntry(sizeofEntry, es[i]); }
  }

  lemma {:induction false} AllSurvive(data: seq<byte>, areas: seq<Area>, sizeofEntry: nat, es: seq<CdEntry>)
    requires forall i :: 0 <= i < |es| ==> Survives(data, areas, sizeofEntry, es[i])
    ensures Survivors(data, areas, sizeofEntry, es) == es
  {
    hide Survives;
    if es != [] { AllSurvive(data, areas, sizeofEntry, es[..|es| - 1]); }
  }

  // ---------------------------------------------------------------- the end record and the cursor, by bytes

  /** PK\005\006 stands at p. */
  predicate EndMarkerAt(data: seq<byte>, p: nat) {
    p + 4 <= |data| && data[p] == 0x50 && data[p + 1] == 0x4B && data[p + 2] == 5 && data[p + 3] == 6
  }

  /**
   The end record is taken from 22 bytes before the end, where it stands in an archive without a
   comment, and else from where the scan of the last 1046 bytes finds one.
   */
  lemma EndRecordByBytes(data: seq<byte>, scan: Option<nat>)
    ensures EndRecordAt(data, scan) ==
      if |data| >= 22 && EndMarkerAt(data, |data| - 22) then Some(|data| - 22)
      else if |data| >= 1046 then scan else None
  {
    if |data| >= 22 {
      var t := data[|data| - 22..];
      assert t[..4] == data[|data| - 22..|data| - 18];
      assert forall k :: 0 <= k < 4 ==> t[..4][k] == data[|data| - 22 + k];
    }
  }

  /** The place of the directory is the number at byte 16 of the end record. */
  lemma StartFieldByBytes(data: seq<byte>, p: nat)
    requires p + 20 <= |data|
    ensures StartField(data, p) == Number32(data, p + 16)
  {
    var t := data[p + 16..];
    assert forall k :: 0 <= k < 4 ==> t[..4][k] == data[p + 16 + k];
  }

  /** Where an attempt at p leaves the cursor: behind what it has read or, when the lengths do not fit, skipped. */
  lemma CursorByBytes(data: seq<byte>, p: nat, available: u32)
    ensures available < 26 ==> CursorAfter(data, p, available) == p
    ensures available >= 26 && p + 30 > |data| ==> CursorAfter(data, p, available) == if p <= |data| then |data| else p
    ensures available >= 26 && p + 30 <= |data| && !HeaderStandsAt(data, p) ==> CursorAfter(data, p, available) == p + 30
    ensures available >= 26 && HeaderStandsAt(data, p) ==>
      var n := Number16(data, p + 26) + Number16(data, p + 28) + Number32(data, p + 18);
      CursorAfter(data, p, available) ==
        if n % 0x1_0000_0000 > available - 26 || p + 30 + n <= |data| then p + 30 + n else |data|
  {
    hide Fields, GoodHeader, Number16, Number32, HeaderStandsAt;
    if p + 30 <= |data| {
      HeaderNumbers(data, p);
    } else {
      Short(data, p);
    }
  }
}
