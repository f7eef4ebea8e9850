/**
 The byte layout of ZIP directories: the 26 bytes that local headers and directory entries share,
 the directory entry (section 4.3.12 of the PKWARE APPNOTE) and the end record (section 4.3.16).
 */
module ZipRecords {
  import opened Wrappers
  import opened Bytes

  const ZIP_LOCAL_HEADER_MAGIC: u32 := 0x04034b50
  const ZIP_CD_MAGIC: u32 := 0x02014b50
  const ZIP_END_CD_MAGIC: u32 := 0x06054b50

  /** "Recovered by eMule" */
  const ZIP_COMMENT: seq<byte> :=
    [82, 101, 99, 111, 118, 101, 114, 101, 100, 32, 98, 121, 32, 101, 77, 117, 108, 101]

  type u16 = x: int | 0 <= x < 0x1_0000
  type u32 = x: int | 0 <= x < 0x1_0000_0000

  /** A value read from the head of some bytes, and the bytes behind it. */
  datatype Got<T> = Got(value: T, rest: seq<byte>)

  /** readUInt16: zero, with nothing left, when fewer than two bytes remain. */
  function Get16(s: seq<byte>): Got<u16> {
    if |s| < 2 then Got(0, []) else Got(Val16(s[..2]), s[2..])
  }

  function Get32(s: seq<byte>): Got<u32> {
    if |s| < 4 then Got(0, []) else Got(Val32(s[..4]), s[4..])
  }

  lemma Get16Of(v: u16, t: seq<byte>)
    ensures Get16(Le16(v) + t) == Got(v, t)
  {
  }

  lemma Get32Of(v: u32, t: seq<byte>)
    ensures Get32(Le32(v) + t) == Got(v, t)
  {
    var s := Le32(v) + t;
    assert s[..4] == Le32(v);
    assert s[4..] == t;
  }

  /** Bytes 4..30 of a local header, and 6..32 of a directory entry. */
  datatype Common = Common(
    versionToExtract: u16, generalPurposeFlag: u16, compressionMethod: u16,
    lastModFileTime: u16, lastModFileDate: u16,
    crc32: u32, lenCompressed: u32, lenUncompressed: u32,
    lenFilename: u16, lenExtraField: u16)

  /** The fields of c in front of t. */
  function PutCommon(c: Common, t: seq<byte>): seq<byte> {
    Le16(c.versionToExtract) + (Le16(c.generalPurposeFlag) + (Le16(c.compressionMethod) +
    (Le16(c.lastModFileTime) + (Le16(c.lastModFileDate) + PutSizes(c, t)))))
  }

  function PutSizes(c: Common, t: seq<byte>): seq<byte> {
    Le32(c.crc32) + (Le32(c.lenCompressed) + (Le32(c.lenUncompressed) +
    (Le16(c.lenFilename) + (Le16(c.lenExtraField) + t))))
  }

  datatype Sizes = Sizes(crc32: u32, lenCompressed: u32, lenUncompressed: u32, lenFilename: u16, lenExtraField: u16)

  function GetSizes(s: seq<byte>): (g: Got<Sizes>)
    ensures |g.rest| == if |s| < 16 then 0 else |s| - 16
  {
    var crc := Get32(s);
    var comp := Get32(crc.rest);
    var uncomp := Get32(comp.rest);
    var name := Get16(uncomp.rest);
    var extra := Get16(name.rest);
    Got(Sizes(crc.value, comp.value, uncomp.value, name.value, extra.value), extra.rest)
  }

  function GetCommon(s: seq<byte>): (g: Got<Common>)
    ensures |g.rest| == if |s| < 26 then 0 else |s| - 26
  {
    var version := Get16(s);
    var flags := Get16(version.rest);
    var compression := Get16(flags.rest);
    var time := Get16(compression.rest);
    var date := Get16(time.rest);
    var g := GetSizes(date.rest);
    var z := g.value;
    Got(Common(version.value, flags.value, compression.value, time.value, date.value,
               z.crc32, z.lenCompressed, z.lenUncompressed, z.lenFilename, z.lenExtraField), g.rest)
  }

  lemma GetSizesOf(c: Common, t: seq<byte>)
    ensures GetSizes(PutSizes(c, t)) ==
      Got(Sizes(c.crc32, c.lenCompressed, c.lenUncompressed, c.lenFilename, c.lenExtraField), t)
  {
    var t4 := Le16(c.lenExtraField) + t;
    var t3 := Le16(c.lenFilename) + t4;
    var t2 := Le32(c.lenUncompressed) + t3;
    var t1 := Le32(c.lenCompressed) + t2;
    Get32Of(c.crc32, t1);
    Get32Of(c.lenCompressed, t2);
    Get32Of(c.lenUncompressed, t3);
    Get16Of(c.lenFilename, t4);
    Get16Of(c.lenExtraField, t);
  }

  lemma GetCommonOf(c: Common, t: seq<byte>)
    ensures GetCommon(PutCommon(c, t)) == Got(c, t)
  {
    var t5 := PutSizes(c, t);
    var t4 := Le16(c.lastModFileDate) + t5;
    var t3 := Le16(c.lastModFileTime) + t4;
    var t2 := Le16(c.compressionMethod) + t3;
    var t1 := Le16(c.generalPurposeFlag) + t2;
    Get16Of(c.versionToExtract, t1);
    Get16Of(c.generalPurposeFlag, t2);
    Get16Of(c.compressionMethod, t3);
    Get16Of(c.lastModFileTime, t4);
    Get16Of(c.lastModFileDate, t5);
    GetSizesOf(c, t);
  }

  /** The fixed fields of a directory entry that follow the shared ones. */
  datatype Place = Place(
    lenComment: u16, diskNumberStart: u16, internalFileAttributes: u16,
    externalFileAttributes: u32, relativeOffsetOfLocalHeader: u32)

  datatype CdEntry = CdEntry(
    versionMadeBy: u16, common: Common, place: Place,
    filename: seq<byte>, extraField: seq<byte>, comment: seq<byte>)

  /** The writer stores zero for the disk number. */
  function PutPlace(p: Place, t: seq<byte>): seq<byte> {
    Le16(p.lenComment) + (Le16(0) + (Le16(p.internalFileAttributes) +
    (Le32(p.externalFileAttributes) + (Le32(p.relativeOffsetOfLocalHeader) + t))))
  }

  function GetPlace(s: seq<byte>): (g: Got<Place>)
    ensures |g.rest| == if |s| < 14 then 0 else |s| - 14
  {
    var comment := Get16(s);
    var disk := Get16(comment.rest);
    var internal := Get16(disk.rest);
    var external := Get32(internal.rest);
    var offset := Get32(external.rest);
    Got(Place(comment.value, disk.value, internal.value, external.value, offset.value), offset.rest)
  }

  lemma GetPlaceOf(p: Place, t: seq<byte>)
    ensures GetPlace(PutPlace(p, t)) == Got(p.(diskNumberStart := 0), t)
  {
    var t4 := Le32(p.relativeOffsetOfLocalHeader) + t;
    var t3 := Le32(p.externalFileAttributes) + t4;
    var t2 := Le16(p.internalFileAttributes) + t3;
    var t1 := Le16(0) + t2;
    Get16Of(p.lenComment, t1);
    Get16Of(0, t2);
    Get16Of(p.internalFileAttributes, t3);
    Get32Of(p.externalFileAttributes, t4);
    Get32Of(p.relativeOffsetOfLocalHeader, t);
  }

  /** The length fields describe the three buffers. */
  predicate WellFormed(e: CdEntry) {
    |e.filename| == e.common.lenFilename && |e.extraField| == e.common.lenExtraField &&
    |e.comment| == e.place.lenComment
  }

  predicate AllWellFormed(es: seq<CdEntry>) {
    forall i :: 0 <= i < |es| ==> WellFormed(es[i])
  }

  /** A directory entry in front of t. */
  function PutEntry(e: CdEntry, t: seq<byte>): seq<byte> {
    Le32(ZIP_CD_MAGIC) + PutFixed(FixedOf(e), e.filename + (e.extraField + (e.comment + t)))
  }

  /** The fixed 42 bytes behind the magic of an entry. */
  datatype Fixed = Fixed(versionMadeBy: u16, common: Common, place: Place)

  function GetFixed(s: seq<byte>): (g: Got<Fixed>)
    ensures |g.rest| == if |s| < 42 then 0 else |s| - 42
  {
    var v := Get16(s);
    var c := GetCommon(v.rest);
    var p := GetPlace(c.rest);
    Got(Fixed(v.value, c.value, p.value), p.rest)
  }

  function VariableLength(x: Fixed): nat {
    x.common.lenFilename + x.common.lenExtraField + x.place.lenComment
  }

  /** The three variable buffers of an entry with fixed fields x, cut from the head of s. */
  function Cut(x: Fixed, s: seq<byte>): Got<CdEntry>
    requires VariableLength(x) <= |s|
  {
    var s1 := s[x.common.lenFilename..];
    var s2 := s1[x.common.lenExtraField..];
    Got(CdEntry(x.versionMadeBy, x.common, x.place, s[..x.common.lenFilename],
                s1[..x.common.lenExtraField], s2[..x.place.lenComment]), s2[x.place.lenComment..])
  }

  /** Whether a whole entry body, the part behind the magic, is at the head of s. */
  predicate WholeBody(s: seq<byte>) {
    42 <= |s| && VariableLength(GetFixed(s).value) <= |s| - 42
  }

  function GetBody(s: seq<byte>): (g: Got<CdEntry>)
    requires WholeBody(s)
    ensures |g.rest| < |s|
  {
    var g := GetFixed(s);
    Cut(g.value, g.rest)
  }

  predicate HasCdMagic(s: seq<byte>) { Get32(s).value == ZIP_CD_MAGIC }

  predicate WholeEntry(s: seq<byte>) { HasCdMagic(s) && WholeBody(s[4..]) }

  /** The entry at the head of s, when a whole one is there. */
  function GetEntry(s: seq<byte>): (g: Option<Got<CdEntry>>)
    ensures g.Some? <==> WholeEntry(s)
    ensures g.Some? ==> |g.value.rest| < |s|
  {
    if WholeEntry(s) then Some(GetBody(s[4..])) else None
  }

  /** The whole entries at the head of s. */
  function Parse(s: seq<byte>): seq<CdEntry>
    decreases |s|
  {
    match GetEntry(s)
    case None => []
    case Some(g) => [g.value] + Parse(g.rest)
  }

  /** What is left of s behind its whole entries. */
  function After(s: seq<byte>): seq<byte>
    decreases |s|
  {
    match GetEntry(s)
    case None => s
    case Some(g) => After(g.rest)
  }

  lemma ParseStep(s: seq<byte>, e: CdEntry, t: seq<byte>)
    requires GetEntry(s) == Some(Got(e, t))
    ensures Parse(s) == [e] + Parse(t) && After(s) == After(t)
  {
  }

  function Cleared(e: CdEntry): CdEntry { e.(place := e.place.(diskNumberStart := 0)) }

  function ClearedAll(es: seq<CdEntry>): (cs: seq<CdEntry>)
    ensures |cs| == |es| && forall i :: 0 <= i < |es| ==> cs[i] == Cleared(es[i])
  {
    if es == [] then [] else [Cleared(es[0])] + ClearedAll(es[1..])
  }

  function FixedOf(e: CdEntry): Fixed { Fixed(e.versionMadeBy, e.common, e.place) }

  function PutFixed(x: Fixed, t: seq<byte>): seq<byte> {
    Le16(x.versionMadeBy) + PutCommon(x.common, PutPlace(x.place, t))
  }

  lemma GetFixedOf(x: Fixed, t: seq<byte>)
    ensures GetFixed(PutFixed(x, t)) == Got(x.(place := x.place.(diskNumberStart := 0)), t)
    ensures |PutFixed(x, t)| == 42 + |t|
  {
    Get16Of(x.versionMadeBy, PutCommon(x.common, PutPlace(x.place, t)));
    GetCommonOf(x.common, PutPlace(x.place, t));
    GetPlaceOf(x.place, t);
  }

  lemma CutOf(e: CdEntry, t: seq<byte>)
    requires WellFormed(e)
    ensures var s := e.filename + (e.extraField + (e.comment + t));
      VariableLength(FixedOf(e)) <= |s| && Cut(FixedOf(e), s) == Got(e, t)
  {
    var s2 := e.comment + t;
    var s1 := e.extraField + s2;
    var s := e.filename + s1;
    assert s[|e.filename|..] == s1 && s[..|e.filename|] == e.filename;
    assert s1[|e.extraField|..] == s2 && s1[..|e.extraField|] == e.extraField;
    assert s2[|e.comment|..] == t && s2[..|e.comment|] == e.comment;
  }

  lemma GetBodyFrom(body: seq<byte>, x: Fixed, v: seq<byte>)
    requires |body| == 42 + |v| && GetFixed(body) == Got(x, v) && VariableLength(x) <= |v|
    ensures WholeBody(body) && GetBody(body) == Cut(x, v)
  {
  }

  lemma GetBodyOf(e: CdEntry, t: seq<byte>)
    requires WellFormed(e)
    ensures var body := PutFixed(FixedOf(e), e.filename + (e.extraField + (e.comment + t)));
      WholeBody(body) && GetBody(body) == Got(Cleared(e), t)
  {
    var v := e.filename + (e.extraField + (e.comment + t));
    GetFixedOf(FixedOf(e), v);
    CutOf(Cleared(e), t);
    GetBodyFrom(PutFixed(FixedOf(e), v), FixedOf(Cleared(e)), v);
  }

  lemma GetEntryOfBody(body: seq<byte>)
    requires WholeBody(body)
    ensures GetEntry(Le32(ZIP_CD_MAGIC) + body) == Some(GetBody(body))
  {
    Get32Of(ZIP_CD_MAGIC, body);
    assert (Le32(ZIP_CD_MAGIC) + body)[4..] == body;
  }

  /** Reading one written entry gives it back with the disk number cleared, and stops right behind it. */
  lemma GetEntryOf(e: CdEntry, t: seq<byte>)
    requires WellFormed(e)
    ensures GetEntry(PutEntry(e, t)) == Some(Got(Cleared(e), t))
  {
    GetBodyOf(e, t);
    GetEntryOfBody(PutFixed(FixedOf(e), e.filename + (e.extraField + (e.comment + t))));
  }

  // ---------------------------------------------------------------- where the fields lie

  /** The ten shared fields stand at their places of the APPNOTE, counted from at. */
  predicate CommonAt(c: Common, s: seq<byte>, at: nat) {
    at + 26 <= |s| &&
    c.versionToExtract == Val16(s[at..at + 2]) && c.generalPurposeFlag == Val16(s[at + 2..at + 4]) &&
    c.compressionMethod == Val16(s[at + 4..at + 6]) && c.lastModFileTime == Val16(s[at + 6..at + 8]) &&
    c.lastModFileDate == Val16(s[at + 8..at + 10]) && c.crc32 == Val32(s[at + 10..at + 14]) &&
    c.lenCompressed == Val32(s[at + 14..at + 18]) && c.lenUncompressed == Val32(s[at + 18..at + 22]) &&
    c.lenFilename == Val16(s[at + 22..at + 24]) && c.lenExtraField == Val16(s[at + 24..at + 26])
  }

  predicate PlaceAt(p: Place, s: seq<byte>, at: nat) {
    at + 14 <= |s| &&
    p.lenComment == Val16(s[at..at + 2]) && p.diskNumberStart == Val16(s[at + 2..at + 4]) &&
    p.internalFileAttributes == Val16(s[at + 4..at + 6]) && p.externalFileAttributes == Val32(s[at + 6..at + 10]) &&
    p.relativeOffsetOfLocalHeader == Val32(s[at + 10..at + 14])
  }

  predicate FixedAt(x: Fixed, s: seq<byte>) {
    6 <= |s| && x.versionMadeBy == Val16(s[4..6]) && CommonAt(x.common, s, 6) && PlaceAt(x.place, s, 32)
  }

  /** A directory entry by the offsets of section 4.3.12. */
  predicate EntryAt(e: CdEntry, s: seq<byte>) {
    var f := 46 + e.common.lenFilename;
    var x := f + e.common.lenExtraField;
    x + e.place.lenComment <= |s| && Val32(s[0..4]) == ZIP_CD_MAGIC && FixedAt(FixedOf(e), s) &&
    e.filename == s[46..f] && e.extraField == s[f..x] && e.comment == s[x..x + e.place.lenComment]
  }

  lemma Get16At(s: seq<byte>, i: nat)
    requires i + 2 <= |s|
    ensures Get16(s[i..]) == Got(Val16(s[i..i + 2]), s[i + 2..])
  {
    assert s[i..][..2] == s[i..i + 2] && s[i..][2..] == s[i + 2..];
  }

  lemma Get32At(s: seq<byte>, i: nat)
    requires i + 4 <= |s|
    ensures Get32(s[i..]) == Got(Val32(s[i..i + 4]), s[i + 4..])
  {
    assert s[i..][..4] == s[i..i + 4] && s[i..][4..] == s[i + 4..];
  }

  lemma GetCommonAt(s: seq<byte>, at: nat)
    requires at + 26 <= |s|
    ensures CommonAt(GetCommon(s[at..]).value, s, at) && GetCommon(s[at..]).rest == s[at + 26..]
  {
    hide Get16, Get32, Val16, Val32;
    Get16At(s, at);
    Get16At(s, at + 2);
    Get16At(s, at + 4);
    Get16At(s, at + 6);
    Get16At(s, at + 8);
    Get32At(s, at + 10);
    Get32At(s, at + 14);
    Get32At(s, at + 18);
    Get16At(s, at + 22);
    Get16At(s, at + 24);
  }

  lemma GetPlaceAt(s: seq<byte>, at: nat)
    requires at + 14 <= |s|
    ensures PlaceAt(GetPlace(s[at..]).value, s, at) && GetPlace(s[at..]).rest == s[at + 14..]
  {
    hide Get16, Get32, Val16, Val32;
    Get16At(s, at);
    Get16At(s, at + 2);
    Get16At(s, at + 4);
    Get32At(s, at + 6);
    Get32At(s, at + 10);
  }

  lemma GetFixedAt(s: seq<byte>)
    requires 46 <= |s|
    ensures FixedAt(GetFixed(s[4..]).value, s)
    ensures GetFixed(s[4..]).rest == s[46..]
  {
    hide GetCommon, GetPlace, Get16, CommonAt, PlaceAt;
    Get16At(s, 4);
    GetCommonAt(s, 6);
    GetPlaceAt(s, 32);
  }

  /** The reader takes every field from its place. */
  lemma GetEntryAt(s: seq<byte>)
    requires GetEntry(s).Some?
    ensures EntryAt(GetEntry(s).value.value, s)
  {
    hide GetFixed, FixedAt, Get32;
    assert Val32(s[0..4]) == ZIP_CD_MAGIC by { MagicAt(s); }
    assert |s| >= 46;
    GetFixedAt(s);
    CutAt(GetFixed(s[4..]).value, s);
  }

  lemma MagicAt(s: seq<byte>)
    requires HasCdMagic(s)
    ensures |s| >= 4 && Val32(s[0..4]) == ZIP_CD_MAGIC
  {
    assert s[..4] == s[0..4];
  }

  lemma CutAt(x: Fixed, s: seq<byte>)
    requires 46 + VariableLength(x) <= |s|
    ensures var e := Cut(x, s[46..]).value;
      var f := 46 + x.common.lenFilename;
      var y := f + x.common.lenExtraField;
      e.filename == s[46..f] && e.extraField == s[f..y] && e.comment == s[y..y + x.place.lenComment]
  {
    var f := 46 + x.common.lenFilename;
    DropTwice(s, 46, x.common.lenFilename);
    DropTwice(s, f, x.common.lenExtraField);
    var y := f + x.common.lenExtraField;
    assert s[46..][..x.common.lenFilename] == s[46..f];
    assert s[f..][..x.common.lenExtraField] == s[f..y];
    assert s[y..][..x.place.lenComment] == s[y..y + x.place.lenComment];
  }

  /** So the writer, too, puts every field in its place. */
  lemma PutEntryAt(e: CdEntry, t: seq<byte>)
    requires WellFormed(e)
    ensures EntryAt(Cleared(e), PutEntry(e, t))
  {
    hide PutEntry, EntryAt;
    GetEntryOf(e, t);
    GetEntryAt(PutEntry(e, t));
  }

  /** The entries es in front of t. */
  function PutEntries(es: seq<CdEntry>, t: seq<byte>): seq<byte> {
    if es == [] then t else PutEntry(es[0], PutEntries(es[1..], t))
  }

  lemma {:induction false} ParseConsed(s: seq<byte>, e: CdEntry, rest: seq<byte>, cs: seq<CdEntry>, t: seq<byte>)
    requires GetEntry(s) == Some(Got(e, rest))
    requires Parse(rest) == cs + Parse(t) && After(rest) == After(t)
    ensures Parse(s) == [e] + cs + Parse(t) && After(s) == After(t)
  {
    ParseStep(s, e, rest);
    ConsAppend(e, cs, Parse(t));
  }

  lemma ConsAppend<T>(e: T, a: seq<T>, b: seq<T>)
    ensures [e] + (a + b) == [e] + a + b
  {
  }

  /** The reader's view of a written directory: the entries written, then everything behind them. */
  lemma {:induction false} ParseOfPutEntries(es: seq<CdEntry>, t: seq<byte>)
    requires AllWellFormed(es)
    ensures Parse(PutEntries(es, t)) == ClearedAll(es) + Parse(t)
    ensures After(PutEntries(es, t)) == After(t)
  {
    if es == [] {
      assert ClearedAll(es) + Parse(t) == Parse(t);
    } else {
      var rest := PutEntries(es[1..], t);
      ParseOfPutEntries(es[1..], t);
      GetEntryOf(es[0], rest);
      ParseConsed(PutEntry(es[0], rest), Cleared(es[0]), rest, ClearedAll(es[1..]), t);
    }
  }

  /** The end record; every number is cut to its field, as the casts do. */
  function EndRecord(count: nat, size: nat, start: nat): (r: seq<byte>)
    ensures |r| == 40
  {
    Le32(ZIP_END_CD_MAGIC) + (Le16(0) + (Le16(0) + (Le16(count % TWO_16) + (Le16(count % TWO_16) +
    (Le32(size % TWO_32) + (Le32(start % TWO_32) + (Le16(|ZIP_COMMENT|) + ZIP_COMMENT)))))))
  }

  /** Everything the writer puts behind the start bytes of archive already written. */
  function Directory(es: seq<CdEntry>, start: nat): seq<byte> {
    if es == [] then [] else PutEntries(es, []) + EndRecord(|es|, |PutEntries(es, [])|, start)
  }

  lemma {:induction false} PutEntriesSplit(es: seq<CdEntry>, t: seq<byte>)
    ensures PutEntries(es, t) == PutEntries(es, []) + t
  {
    if es != [] {
      var a, b := PutEntries(es[1..], t), PutEntries(es[1..], []);
      PutEntriesSplit(es[1..], t);
      PutEntrySplit(es[0], b, t);
    }
  }

  lemma PutEntrySplit(e: CdEntry, a: seq<byte>, t: seq<byte>)
    ensures PutEntry(e, a + t) == PutEntry(e, a) + t
  {
    var v := e.filename + (e.extraField + (e.comment + a));
    assert e.filename + (e.extraField + (e.comment + (a + t))) == v + t;
    PutFixedSplit(FixedOf(e), v, t);
    var m, x := Le32(ZIP_CD_MAGIC), PutFixed(FixedOf(e), v);
    assert m + (x + t) == (m + x) + t;
  }

  lemma PutFixedSplit(x: Fixed, a: seq<byte>, t: seq<byte>)
    ensures PutFixed(x, a + t) == PutFixed(x, a) + t
  {
    var v, p := Le16(x.versionMadeBy), PutPlace(x.place, a);
    PutPlaceSplit(x.place, a, t);
    PutCommonSplit(x.common, p, t);
    assert v + (PutCommon(x.common, p) + t) == (v + PutCommon(x.common, p)) + t;
  }

  lemma PutPlaceSplit(p: Place, a: seq<byte>, t: seq<byte>)
    ensures PutPlace(p, a + t) == PutPlace(p, a) + t
  {
  }

  lemma PutCommonSplit(c: Common, a: seq<byte>, t: seq<byte>)
    ensures PutCommon(c, a + t) == PutCommon(c, a) + t
  {
    PutSizesSplit(c, a, t);
  }

  lemma PutSizesSplit(c: Common, a: seq<byte>, t: seq<byte>)
    ensures PutSizes(c, a + t) == PutSizes(c, a) + t
  {
  }

  /** r is an end record as the APPNOTE lays it out: the magic and three numbers, each at its offset. */
  predicate IsEndRecord(r: seq<byte>, count: nat, size: nat, start: nat) {
    |r| == 40 && r[20] == |ZIP_COMMENT| && r[21] == 0 &&
    Get32(r).value == ZIP_END_CD_MAGIC && Get16(r[8..]).value == Get16(r[10..]).value == count % TWO_16 &&
    Get32(r[12..]).value == size % TWO_32 && Get32(r[16..]).value == start % TWO_32
  }

  lemma EndRecordShape(count: nat, size: nat, start: nat)
    ensures IsEndRecord(EndRecord(count, size, start), count, size, start)
  {
    var t7 := Le16(|ZIP_COMMENT|) + ZIP_COMMENT;
    var t5 := Le32(size % TWO_32) + (Le32(start % TWO_32) + t7);
    var t3 := Le16(count % TWO_16) + (Le16(count % TWO_16) + t5);
    var t0 := Le16(0) + (Le16(0) + t3);
    var r := EndRecord(count, size, start);
    assert Get32(r) == Got(ZIP_END_CD_MAGIC, t0) by { Get32Of(ZIP_END_CD_MAGIC, t0); }
    assert t0[4..] == t3;
    DropTwice(r, 4, 4);
    EndRecordTail(r, count, size, start, t3, t5, t7);
  }

  lemma EndRecordTail(r: seq<byte>, count: nat, size: nat, start: nat, t3: seq<byte>, t5: seq<byte>, t7: seq<byte>)
    requires |r| == 40 && r[8..] == t3
    requires t3 == Le16(count % TWO_16) + (Le16(count % TWO_16) + t5)
    requires t5 == Le32(size % TWO_32) + (Le32(start % TWO_32) + t7)
    requires t7 == Le16(|ZIP_COMMENT|) + ZIP_COMMENT
    ensures Get16(r[8..]).value == Get16(r[10..]).value == count % TWO_16
    ensures Get32(r[12..]).value == size % TWO_32 && Get32(r[16..]).value == start % TWO_32
    ensures r[20] == |ZIP_COMMENT| && r[21] == 0
  {
    assert r[10..] == Le16(count % TWO_16) + t5 by { DropTwice(r, 8, 2); }
    assert r[12..] == t5 by { DropTwice(r, 10, 2); }
    assert r[16..] == Le32(start % TWO_32) + t7 by { DropTwice(r, 12, 4); }
    assert r[20..] == t7 by { DropTwice(r, 16, 4); }
    Get16Of(count % TWO_16, Le16(count % TWO_16) + t5);
    Get16Of(count % TWO_16, t5);
    Get32Of(size % TWO_32, Le32(start % TWO_32) + t7);
    Get32Of(start % TWO_32, t7);
    assert r[20] == r[20..][0] && r[21] == r[20..][1];
  }

  lemma DropTwice(s: seq<byte>, i: nat, j: nat)
    requires i + j <= |s|
    ensures s[i..][j..] == s[i + j..]
  {
  }

  /**
   Behind archive bytes and directory bytes d the end record stands last, and the numbers stored in
   it are the real ones exactly as far as their fields reach.
   */
  lemma StoredNumbers(archive: seq<byte>, d: seq<byte>, count: nat)
    ensures var data := archive + (d + EndRecord(count, |d|, |archive|));
      var p := |archive| + |d|;
      |data| == p + 40 && Get32(data[p..]).value == ZIP_END_CD_MAGIC &&
      (Get32(data[p + 16..]).value == |archive| <==> |archive| < TWO_32) &&
      (Get32(data[p + 12..]).value == |d| <==> |d| < TWO_32) &&
      (Get16(data[p + 8..]).value == count <==> count < TWO_16) &&
      Get16(data[p + 10..]).value == Get16(data[p + 8..]).value
  {
    EndRecordShape(count, |d|, |archive|);
    NumbersBehind(archive, d, count, EndRecord(count, |d|, |archive|));
  }

  lemma NumbersBehind(archive: seq<byte>, d: seq<byte>, count: nat, r: seq<byte>)
    requires IsEndRecord(r, count, |d|, |archive|)
    ensures var data := archive + (d + r);
      var p := |archive| + |d|;
      |data| == p + 40 && Get32(data[p..]).value == ZIP_END_CD_MAGIC &&
      (Get32(data[p + 16..]).value == |archive| <==> |archive| < TWO_32) &&
      (Get32(data[p + 12..]).value == |d| <==> |d| < TWO_32) &&
      (Get16(data[p + 8..]).value == count <==> count < TWO_16) &&
      Get16(data[p + 10..]).value == Get16(data[p + 8..]).value
  {
    Behind(archive, d, r);
    NumbersFit(count, TWO_16);
    NumbersFit(|d|, TWO_32);
    NumbersFit(|archive|, TWO_32);
  }

  lemma NumbersFit(n: nat, m: nat)
    requires m > 0
    ensures n % m == n <==> n < m
  {
  }

  /**
   The directory round trip. From the start of what was written the reader gets exactly the entries
   written, with the disk number cleared, and stops at the end record.
   */
  lemma {:induction false} DirectoryReadsBack(es: seq<CdEntry>, start: nat)
    requires AllWellFormed(es) && es != []
    ensures Parse(Directory(es, start)) == ClearedAll(es)
    ensures After(Directory(es, start)) == EndRecord(|es|, |PutEntries(es, [])|, start)
  {
    var d := PutEntries(es, []);
    var r := EndRecord(|es|, |d|, start);
    assert !HasCdMagic(r) by { EndRecordShape(|es|, |d|, start); }
    assert d + r == PutEntries(es, r) by { PutEntriesSplit(es, r); }
    ParseOfPutEntries(es, r);
    NoEntry(r);
    assert ClearedAll(es) + [] == ClearedAll(es);
  }

  /** Two directories written in the same place with the same bytes hold the same entries, disk numbers apart. */
  lemma DirectoryIsInjective(start: nat, es: seq<CdEntry>, fs: seq<CdEntry>)
    requires AllWellFormed(es) && AllWellFormed(fs)
    requires Directory(es, start) == Directory(fs, start)
    ensures ClearedAll(es) == ClearedAll(fs)
  {
    if es != [] && fs != [] {
      DirectoryReadsBack(es, start);
      DirectoryReadsBack(fs, start);
    }
  }

  lemma NoEntry(r: seq<byte>)
    requires GetEntry(r).None?
    ensures Parse(r) == [] && After(r) == r
  {
  }

  lemma Behind(a: seq<byte>, d: seq<byte>, r: seq<byte>)
    requires |r| == 40
    ensures var data := a + (d + r);
      var p := |a| + |d|;
      |data| == p + 40 && data[|a|..] == d + r && data[p..] == r && data[p + 8..] == r[8..] &&
      data[p + 10..] == r[10..] && data[p + 12..] == r[12..] && data[p + 16..] == r[16..]
  {
    var data := a + (d + r);
    assert data[|a| + |d|..] == r;
  }

  // ---------------------------------------------------------------- the other half: writing what was read

  lemma Put16Of(s: seq<byte>)
    requires |s| >= 2
    ensures Le16(Get16(s).value) + Get16(s).rest == s
  {
    Le16OfVal16(s[..2]);
    assert s[..2] + s[2..] == s;
  }

  lemma Put32Of(s: seq<byte>)
    requires |s| >= 4
    ensures Le32(Get32(s).value) + Get32(s).rest == s
  {
    Le32OfVal32(s[..4]);
    assert s[..4] + s[4..] == s;
  }

  function SizesOf(c: Common): Sizes {
    Sizes(c.crc32, c.lenCompressed, c.lenUncompressed, c.lenFilename, c.lenExtraField)
  }

  lemma PutSizesOf(s: seq<byte>, c: Common, t: seq<byte>)
    requires |s| >= 16 && GetSizes(s) == Got(SizesOf(c), t)
    ensures PutSizes(c, t) == s
  {
    var s1 := Get32(s).rest;
    var s2 := Get32(s1).rest;
    var s3 := Get32(s2).rest;
    var s4 := Get16(s3).rest;
    Put32Of(s);
    Put32Of(s1);
    Put32Of(s2);
    Put16Of(s3);
    Put16Of(s4);
  }

  lemma PutCommonOf(s: seq<byte>)
    requires |s| >= 26
    ensures PutCommon(GetCommon(s).value, GetCommon(s).rest) == s
  {
    var s1 := Get16(s).rest;
    var s2 := Get16(s1).rest;
    var s3 := Get16(s2).rest;
    var s4 := Get16(s3).rest;
    var s5 := Get16(s4).rest;
    PutSizesOf(s5, GetCommon(s).value, GetCommon(s).rest);
    Put16Of(s);
    Put16Of(s1);
    Put16Of(s2);
    Put16Of(s3);
    Put16Of(s4);
  }

  lemma PutPlaceOf(s: seq<byte>)
    requires |s| >= 14 && GetPlace(s).value.diskNumberStart == 0
    ensures PutPlace(GetPlace(s).value, GetPlace(s).rest) == s
  {
    var s1 := Get16(s).rest;
    var s2 := Get16(s1).rest;
    var s3 := Get16(s2).rest;
    var s4 := Get32(s3).rest;
    Put16Of(s);
    Put16Of(s1);
    Put16Of(s2);
    Put32Of(s3);
    Put32Of(s4);
  }

  lemma PutFixedOf(s: seq<byte>, x: Fixed, t: seq<byte>)
    requires |s| >= 42 && GetFixed(s) == Got(x, t) && x.place.diskNumberStart == 0
    ensures PutFixed(x, t) == s
  {
    hide GetCommon, GetPlace, PutCommon, PutPlace;
    var s1 := Get16(s).rest;
    var s2 := GetCommon(s1).rest;
    Put16Of(s);
    PutCommonOf(s1);
    PutPlaceOf(s2);
  }

  lemma PutCutOf(x: Fixed, v: seq<byte>, e: CdEntry, t: seq<byte>)
    requires VariableLength(x) <= |v| && Cut(x, v) == Got(e, t)
    ensures WellFormed(e) && FixedOf(e) == x && e.filename + (e.extraField + (e.comment + t)) == v
  {
    var v1 := v[x.common.lenFilename..];
    var v2 := v1[x.common.lenExtraField..];
    assert e.comment + t == v2;
    assert e.extraField + v2 == v1;
    assert e.filename + v1 == v;
  }

  /** A whole entry read with disk number 0 is written back as the very bytes it was read from. */
  lemma PutEntryOf(s: seq<byte>, e: CdEntry, t: seq<byte>)
    requires GetEntry(s) == Some(Got(e, t)) && e.place.diskNumberStart == 0
    ensures WellFormed(e) && PutEntry(e, t) == s
  {
    var body := s[4..];
    var g := GetFixed(body);
    PutCutOf(g.value, g.rest, e, t);
    PutFixedOf(body, g.value, g.rest);
    Put32Of(s);
  }

  predicate AllOnDisk0(es: seq<CdEntry>) {
    forall i :: 0 <= i < |es| ==> es[i].place.diskNumberStart == 0
  }

  lemma ConsedOnDisk0(e: CdEntry, es: seq<CdEntry>)
    requires AllOnDisk0([e] + es)
    ensures e.place.diskNumberStart == 0 && AllOnDisk0(es)
  {
    var all := [e] + es;
    assert all[0] == e;
    assert forall i :: 0 <= i < |es| ==> es[i] == all[i + 1];
  }

  lemma PutConsed(e: CdEntry, es: seq<CdEntry>, t: seq<byte>)
    requires WellFormed(e) && AllWellFormed(es)
    ensures AllWellFormed([e] + es) && PutEntries([e] + es, t) == PutEntry(e, PutEntries(es, t))
  {
    hide PutEntry;
    assert ([e] + es)[1..] == es;
  }

  /** The round trip from the other side: a directory on disk 0 that is read and written again is unchanged. */
  lemma {:induction false} PutEntriesOfParse(s: seq<byte>)
    requires AllOnDisk0(Parse(s))
    ensures AllWellFormed(Parse(s)) && PutEntries(Parse(s), After(s)) == s
    decreases |s|
  {
    hide GetEntry, Parse, After, PutEntry, PutEntries, AllOnDisk0, AllWellFormed;
    match GetEntry(s)
    case None =>
      NoEntry(s);
      PutNone(s);
    case Some(g) =>
      ParseStep(s, g.value, g.rest);
      ConsedOnDisk0(g.value, Parse(g.rest));
      PutEntriesOfParse(g.rest);
      PutEntryOf(s, g.value, g.rest);
      PutConsed(g.value, Parse(g.rest), After(g.rest));
  }

  lemma PutNone(t: seq<byte>)
    ensures AllWellFormed([]) && PutEntries([], t) == t
  {
  }
}
