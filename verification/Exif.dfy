/** The EXIF segment of generated test photos (internal/fixtures/fixtures.go:789-963), and a reader that
    follows the pointers the way section 4.6 of Exif 2.3 lays them out. */
module Exif {
  import opened Options
  import opened Sorting
  import opened Tiff

  const EXIF_IFD_TAG := 0x8769
  const GPS_IFD_TAG := 0x8825

  /** A formatted capture time: at least "2006:01:02 15:04:05"; only years past 9999 are longer. */
  predicate IsStamp(s: string) {
    19 <= |s| <= 40 && forall i :: 0 <= i < |s| ==> 0 < s[i] as int < 256
  }

  function Ascii(s: string): Bytes
    requires forall i :: 0 <= i < |s| ==> s[i] as int < 256
  {
    seq(|s|, i requires 0 <= i < |s| => s[i] as int as Byte) + [0]
  }

  function Pad4(b: Bytes): Bytes
    requires |b| <= 4
  {
    b + seq(4 - |b|, _ => 0)
  }

  // ----- degrees -----

  /** What 32 unsigned bits can hold of a degree count. */
  predicate IsDegrees(deg: real) { 0.0 <= deg < 4294967296.0 }

  function WholeDegrees(deg: real): int { deg.Floor }

  function Minutes(deg: real): int { ((deg - WholeDegrees(deg) as real) * 60.0).Floor }

  function Seconds(deg: real): real {
    ((deg - WholeDegrees(deg) as real) * 60.0 - Minutes(deg) as real) * 60.0
  }

  /** math.Round on a value that is not negative. */
  function Round(x: real): int { (x + 0.5).Floor }

  /** Degrees, minutes and ten-thousandths of seconds as three rationals. */
  function Dms(deg: real): (b: Bytes)
    requires IsDegrees(deg)
    ensures |b| == 24
  {
    DmsParts(deg);
    U32(WholeDegrees(deg)) + U32(1) + U32(Minutes(deg)) + U32(1) + U32(Round(Seconds(deg) * 10000.0)) + U32(10000)
  }

  lemma DmsParts(deg: real)
    requires IsDegrees(deg)
    ensures 0 <= WholeDegrees(deg) < 4294967296 && 0 <= Minutes(deg) < 60 && 0.0 <= Seconds(deg) < 60.0
    ensures 0 <= Round(Seconds(deg) * 10000.0) <= 600000
  {
    var f := deg - WholeDegrees(deg) as real;
    assert 0.0 <= f < 1.0;
    assert 0.0 <= f * 60.0 < 60.0;
  }

  /** Three rationals as degrees. */
  function Degrees(b: Bytes): real
    requires |b| == 24 && Long(b, 4) > 0 && Long(b, 12) > 0 && Long(b, 20) > 0
  {
    Long(b, 0) as real / Long(b, 4) as real
    + Long(b, 8) as real / Long(b, 12) as real / 60.0
    + Long(b, 16) as real / Long(b, 20) as real / 3600.0
  }

  lemma DmsReads(deg: real)
    requires IsDegrees(deg)
    ensures var b := Dms(deg);
      && Long(b, 0) == WholeDegrees(deg) && Long(b, 4) == 1 && Long(b, 8) == Minutes(deg) && Long(b, 12) == 1
      && Long(b, 16) == Round(Seconds(deg) * 10000.0) && Long(b, 20) == 10000
  {
    hide Long, U32, WholeDegrees, Minutes, Seconds, Round;
    DmsParts(deg);
    var a, m, s := U32(WholeDegrees(deg)), U32(Minutes(deg)), U32(Round(Seconds(deg) * 10000.0));
    var one, tens := U32(1), U32(10000);
    var b := Dms(deg);
    WholeStands(b);
    U32Length(WholeDegrees(deg));
    U32Length(Minutes(deg));
    U32Length(Round(Seconds(deg) * 10000.0));
    U32Length(1);
    assert b == a + one + m + one + s + tens;
    PartsStandAt(b, 0, a + one + m + one + s, tens);
    PartsStandAt(b, 0, a + one + m + one, s);
    PartsStandAt(b, 0, a + one + m, one);
    PartsStandAt(b, 0, a + one, m);
    PartsStandAt(b, 0, a, one);
    NumbersStandAt(b, 0, WholeDegrees(deg));
    NumbersStandAt(b, 4, 1);
    NumbersStandAt(b, 8, Minutes(deg));
    NumbersStandAt(b, 12, 1);
    NumbersStandAt(b, 16, Round(Seconds(deg) * 10000.0));
    NumbersStandAt(b, 20, 10000);
  }

  lemma U32Length(v: nat)
    ensures |U32(v)| == 4
  {}

  lemma WholeStands(b: Bytes)
    ensures StandsAt(b, 0, b)
  {
    assert b[0..|b|] == b;
  }

  /** The value read back is within half a ten-thousandth of an arcsecond. */
  lemma DmsIsClose(deg: real)
    requires IsDegrees(deg)
    ensures var b := Dms(deg);
      && Long(b, 4) > 0 && Long(b, 12) > 0 && Long(b, 20) > 0
      && -0.5 <= (Degrees(b) - deg) * 3600.0 * 10000.0 <= 0.5
  {
    hide Dms, Long, WholeDegrees, Minutes, Seconds, Round;
    DmsReads(deg);
    var d, m, s := WholeDegrees(deg) as real, Minutes(deg) as real, Seconds(deg);
    assert deg == d + m / 60.0 + s / 3600.0 by { SplitAddsUp(deg); }
    var r := Round(s * 10000.0) as real;
    assert -0.5 <= r - s * 10000.0 <= 0.5 by { RoundIsClose(s * 10000.0); }
    assert Degrees(Dms(deg)) == d / 1.0 + m / 1.0 / 60.0 + r / 10000.0 / 3600.0;
  }

  lemma SplitAddsUp(deg: real)
    ensures deg == WholeDegrees(deg) as real + Minutes(deg) as real / 60.0 + Seconds(deg) / 3600.0
  {}

  lemma RoundIsClose(x: real)
    ensures -0.5 <= Round(x) as real - x <= 0.5
  {}

  /** The seconds field reads 60 instead of carrying into the minutes exactly in the last half step. */
  lemma SecondsReadSixtyIff(deg: real)
    requires IsDegrees(deg)
    ensures Long(Dms(deg), 16) == 600000 <==> Seconds(deg) >= 59.99995
  {
    hide Dms, Long, Seconds;
    DmsReads(deg);
    DmsParts(deg);
  }

  /** An angle whose seconds read 60: 0.9999999999 degrees is written as 0 degrees, 59 minutes, 60 seconds. */
  lemma SecondsMayReadSixty()
    ensures IsDegrees(0.9999999999) && Long(Dms(0.9999999999), 16) == 600000
    ensures Long(Dms(0.9999999999), 0) == 0 && Long(Dms(0.9999999999), 8) == 59
  {
    hide Dms, Long;
    var deg := 0.9999999999;
    DmsReads(deg);
    assert WholeDegrees(deg) == 0 && Minutes(deg) == 59;
    assert Seconds(deg) == (deg * 60.0 - 59.0) * 60.0;
    SecondsReadSixtyIff(deg);
  }

  // ----- the directories -----

  function CameraEntries(): seq<Entry> {
    [Entry(0x010F, ASCII, 16, Pooled(Ascii("photo-organizer"))),
     Entry(0x0110, ASCII, 18, Pooled(Ascii("fixture-generator")))]
  }

  function DateEntries(stamp: string): seq<Entry>
    requires IsStamp(stamp)
  {
    [Entry(0x9003, ASCII, |stamp| + 1, Pooled(Ascii(stamp))),
     Entry(0x9004, ASCII, |stamp| + 1, Pooled(Ascii(stamp)))]
  }

  function Magnitude(deg: real): real { if deg < 0.0 then -deg else deg }

  predicate IsLocation(loc: (real, real)) {
    -4294967296.0 < loc.0 < 4294967296.0 && -4294967296.0 < loc.1 < 4294967296.0
  }

  function GpsEntries(loc: (real, real)): seq<Entry>
    requires IsLocation(loc)
  {
    [Entry(1, ASCII, 2, Inline(Pad4(if loc.0 < 0.0 then Ascii("S") else Ascii("N")))),
     Entry(2, RATIONAL, 3, Pooled(Dms(Magnitude(loc.0)))),
     Entry(3, ASCII, 2, Inline(Pad4(if loc.1 < 0.0 then Ascii("W") else Ascii("E")))),
     Entry(4, RATIONAL, 3, Pooled(Dms(Magnitude(loc.1))))]
  }

  predicate Ascending(es: seq<Entry>) {
    forall i, j :: 0 <= i < j < |es| ==> es[i].tag < es[j].tag
  }

  lemma CameraEntriesFit()
    ensures AllValid(CameraEntries()) && Ascending(CameraEntries()) && Room(CameraEntries()) == 34
  {
    var es := CameraEntries();
    RoomOfTwo(es[0], es[1]);
    assert es == [es[0], es[1]];
  }

  lemma DateEntriesFit(stamp: string)
    requires IsStamp(stamp)
    ensures AllValid(DateEntries(stamp)) && Ascending(DateEntries(stamp)) && Room(DateEntries(stamp)) <= 84
  {
    var es := DateEntries(stamp);
    RoomOfTwo(es[0], es[1]);
    assert es == [es[0], es[1]];
  }

  lemma GpsEntriesFit(loc: (real, real))
    requires IsLocation(loc)
    ensures AllValid(GpsEntries(loc)) && Ascending(GpsEntries(loc)) && Room(GpsEntries(loc)) == 48
  {
    hide Dms;
    var es := GpsEntries(loc);
    RoomOfTwo(es[0], es[1]);
    RoomPush([es[0], es[1]], es[2]);
    RoomPush([es[0], es[1]] + [es[2]], es[3]);
    assert es == [es[0], es[1]] + [es[2]] + [es[3]];
  }

  lemma RoomOfTwo(a: Entry, b: Entry)
    ensures Room([a, b]) ==
      (if a.data.Inline? then 0 else |a.data.bytes| + |a.data.bytes| % 2)
      + if b.data.Inline? then 0 else |b.data.bytes| + |b.data.bytes| % 2
  {
    RoomPush([], a);
    RoomPush([a], b);
    assert [] + [a] == [a] && [a] + [b] == [a, b];
  }

  /** Sorting distinct tags has one outcome, whatever order the map of pointers was walked in. */
  lemma SortedIs(all: seq<Entry>, expected: seq<Entry>)
    requires multiset(all) == multiset(expected) && Ordered(all, TagLess) && Ascending(expected)
    ensures all == expected
  {
    forall a, b | a in all && b in all && a != b ensures TagLess(a, b) || TagLess(b, a) {
      assert a in multiset(expected) && b in multiset(expected);
      var i :| 0 <= i < |expected| && expected[i] == a;
      var j :| 0 <= j < |expected| && expected[j] == b;
    }
    OrderedUnique(all, expected, TagLess);
  }

  // ----- reading a segment -----

  datatype Meta = Meta(ifd0: seq<Field>, exif: Option<seq<Field>>, gps: Option<seq<Field>>)

  function Find(fields: seq<Field>, tag: nat): Option<Field> {
    if fields == [] then None else if fields[0].tag == tag then Some(fields[0]) else Find(fields[1..], tag)
  }

  /** The directory a pointer tag leads to: None when the pointer is broken, Some(None) when absent. */
  function Follow(t: Bytes, fields: seq<Field>, tag: nat): Option<Option<seq<Field>>> {
    var p := Find(fields, tag);
    if p.None? then Some(None)
    else if |p.value.bytes| != 4 then None
    else
      var sub := ReadIfd(t, Long(p.value.bytes, 0));
      if sub.None? then None else Some(sub)
  }

  const HEADER: Bytes := [0x49, 0x49, 42, 0]
  const EXIF_MARK: Bytes := [0x45, 0x78, 0x69, 0x66, 0, 0]

  function ReadTiff(t: Bytes): Option<Meta> {
    if |t| < 8 || t[..4] != HEADER then None
    else
      var ifd0 := ReadIfd(t, Long(t, 4));
      if ifd0.None? then None
      else
        var exif, gps := Follow(t, ifd0.value, EXIF_IFD_TAG), Follow(t, ifd0.value, GPS_IFD_TAG);
        if exif.None? || gps.None? then None else Some(Meta(ifd0.value, exif.value, gps.value))
  }

  /** Marker, a length that covers the rest, the Exif mark, then the TIFF structure. */
  function ReadSegment(seg: Bytes): Option<Meta> {
    if |seg| < 10 || seg[..2] != [0xFF, 0xE1] || seg[4..10] != EXIF_MARK then None
    else if 256 * seg[2] as nat + seg[3] as nat != |seg| - 2 then None
    else ReadTiff(seg[10..])
  }

  // ----- what should be read -----

  function DirectorySize(n: nat): nat { 2 + n * 12 + 4 }

  /** Where the three directories and the pool begin, given which of them exist. */
  function ExifOffset(dated: bool, located: bool): nat {
    8 + DirectorySize(2 + (if dated then 1 else 0) + if located then 1 else 0)
  }

  function GpsOffset(dated: bool, located: bool): nat {
    ExifOffset(dated, located) + if dated then DirectorySize(2) else 0
  }

  function PoolOffset(dated: bool, located: bool): nat {
    GpsOffset(dated, located) + if located then DirectorySize(4) else 0
  }

  function FirstEntries(dated: bool, located: bool): seq<Entry> {
    CameraEntries()
    + (if dated then [Pointer(EXIF_IFD_TAG, ExifOffset(dated, located))] else [])
    + if located then [Pointer(GPS_IFD_TAG, GpsOffset(dated, located))] else []
  }

  lemma FirstEntriesFit(dated: bool, located: bool)
    ensures AllValid(FirstEntries(dated, located)) && Ascending(FirstEntries(dated, located))
    ensures Room(FirstEntries(dated, located)) == 34
    ensures |FirstEntries(dated, located)| == 2 + (if dated then 1 else 0) + if located then 1 else 0
  {
    hide Room, U32;
    CameraEntriesFit();
    U32Length(ExifOffset(dated, located));
    U32Length(GpsOffset(dated, located));
    var x, g := Pointer(EXIF_IFD_TAG, ExifOffset(dated, located)), Pointer(GPS_IFD_TAG, GpsOffset(dated, located));
    RoomPush(CameraEntries(), x);
    RoomPush(CameraEntries(), g);
    RoomPush(CameraEntries() + [x], g);
    assert CameraEntries() + [] == CameraEntries() && CameraEntries() + [x] + [] == CameraEntries() + [x];
  }

  /** The metadata that was given to the writer. */
  ghost function Expected(shot: Option<string>, loc: Option<(real, real)>): Meta
    requires (shot.Some? ==> IsStamp(shot.value)) && (loc.Some? ==> IsLocation(loc.value))
  {
    FirstEntriesFit(shot.Some?, loc.Some?);
    Meta(Meanings(FirstEntries(shot.Some?, loc.Some?)),
         if shot.Some? then DateEntriesFit(shot.value); Some(Meanings(DateEntries(shot.value))) else None,
         if loc.Some? then GpsEntriesFit(loc.value); Some(Meanings(GpsEntries(loc.value))) else None)
  }

  /** The values too long for their entries, read from the bytes of all directories present: word-aligned,
      apart from one another, after the last directory and inside the file. */
  ghost predicate LaidOut(t: Bytes, dated: bool, located: bool) {
    PoolOffset(dated, located) <= |t|
    && Packed(
         Spans(t, 10, |FirstEntries(dated, located)|)
         + (if dated then Spans(t, ExifOffset(dated, located) + 2, 2) else [])
         + (if located then Spans(t, GpsOffset(dated, located) + 2, 4) else []),
         PoolOffset(dated, located), |t|)
  }

  // ----- writing a segment -----

  /** One directory's share of the file: written when present, nothing otherwise. */
  ghost predicate Section(present: bool, w: Bytes, es: seq<Entry>, base: nat, pool: Bytes, pool': Bytes) {
    if present then exists offsets :: Written(w, es, offsets, base, pool, pool')
    else w == [] && pool' == pool
  }

  lemma SectionReads(
    t: Bytes, o: nat, w: Bytes, es: seq<Entry>, base: nat, pool: Bytes, pool': Bytes, whole: Bytes)
    requires Section(true, w, es, base, pool, pool') && AllValid(es) && |es| < 65536
    requires StandsAt(t, o, w) && pool' <= whole && StandsAt(t, base, whole) && |t| < 4294967296
    ensures |w| == DirectorySize(|es|) && o + |w| <= |t|
    ensures ReadIfd(t, o) == Some(Meanings(es))
    ensures Packed(Spans(t, o + 2, |es|), base + |pool|, base + |pool'|)
    ensures |pool'| == |pool| + Room(es) && pool <= pool'
  {
    hide Packed, StandsAt, ReadIfd, Spans, AllValid;
    var offsets :| Written(w, es, offsets, base, pool, pool');
    DirectoryRoundTrip(t, o, w, es, offsets, base, pool, pool', whole);
  }

  lemma SectionSize(w: Bytes, es: seq<Entry>, base: nat, pool: Bytes, pool': Bytes)
    requires Section(true, w, es, base, pool, pool') && AllValid(es)
    ensures |w| == DirectorySize(|es|) && |pool'| == |pool| + Room(es) && pool <= pool'
  {
    hide Packed, AllValid, EncodeAll;
    var offsets :| Written(w, es, offsets, base, pool, pool');
    EncodedLength(es, offsets);
  }

  lemma SectionsStand(h: Bytes, w0: Bytes, w1: Bytes, w2: Bytes, pool: Bytes)
    ensures var t := h + w0 + w1 + w2 + pool;
      StandsAt(t, 0, h) && StandsAt(t, |h|, w0) && StandsAt(t, |h| + |w0|, w1)
      && StandsAt(t, |h| + |w0| + |w1|, w2) && StandsAt(t, |h| + |w0| + |w1| + |w2|, pool)
  {
    hide StandsAt;
    var t := h + w0 + w1 + w2 + pool;
    WholeStands(t);
    PartsStandAt(t, 0, h + w0 + w1 + w2, pool);
    PartsStandAt(t, 0, h + w0 + w1, w2);
    PartsStandAt(t, 0, h + w0, w1);
    PartsStandAt(t, 0, h, w0);
  }

  lemma PackedJoins(a: seq<(nat, nat)>, b: seq<(nat, nat)>, from: nat, mid: nat, to: nat)
    requires Packed(a, from, mid) && Packed(b, mid, to) && from <= mid <= to
    ensures Packed(a + b, from, to)
  {}

  lemma PackedNothing(from: nat, to: nat)
    ensures Packed([], from, to)
  {}

  lemma PointerMeans(tag: nat, offset: nat)
    requires tag < 65536 && offset < 4294967296
    ensures Pointer(tag, offset).Valid() && Pointer(tag, offset).Meaning() == Field(tag, LONG, 1, U32(offset))
    ensures |U32(offset)| == 4 && Long(U32(offset), 0) == offset
  {
    NumbersRoundTrip(0, offset);
    assert U32(offset)[..4] == U32(offset);
  }

  function Led(sub: Option<seq<Field>>): Option<Option<seq<Field>>> { if sub.None? then None else Some(sub) }

  /** A pointer entry leads where it points, and an absent one is not found. */
  lemma PointersFollow(t: Bytes, dated: bool, located: bool)
    requires AllValid(FirstEntries(dated, located))
    ensures var fields := Meanings(FirstEntries(dated, located));
      Follow(t, fields, EXIF_IFD_TAG) == (if dated then Led(ReadIfd(t, ExifOffset(dated, located))) else Some(None))
    ensures var fields := Meanings(FirstEntries(dated, located));
      Follow(t, fields, GPS_IFD_TAG) == (if located then Led(ReadIfd(t, GpsOffset(dated, located))) else Some(None))
  {
    hide ReadIfd, U32, Long, Ascii, Find;
    var es := FirstEntries(dated, located);
    var fields := Meanings(es);
    var x, g := ExifOffset(dated, located), GpsOffset(dated, located);
    PointerMeans(EXIF_IFD_TAG, x);
    PointerMeans(GPS_IFD_TAG, g);
    assert forall i :: 0 <= i < |es| ==> fields[i] == es[i].Meaning();
    assert es[0].tag == 0x010F && es[1].tag == 0x0110;
    var k := if dated then 3 else 2;
    if dated { assert es[2] == Pointer(EXIF_IFD_TAG, x); }
    if located { assert es[k] == Pointer(GPS_IFD_TAG, g); }
    assert |es| == k + if located then 1 else 0;
    FindAt(fields, EXIF_IFD_TAG, 2);
    FindAt(fields, GPS_IFD_TAG, k);
    if !dated && located { FindAt(fields, EXIF_IFD_TAG, 3); }
  }

  lemma {:induction false} FindAt(fields: seq<Field>, tag: nat, k: nat)
    requires forall i :: 0 <= i < |fields| && i < k ==> fields[i].tag != tag
    ensures k < |fields| && fields[k].tag == tag ==> Find(fields, tag) == Some(fields[k])
    ensures k >= |fields| ==> Find(fields, tag) == None
    ensures k + 1 == |fields| && fields[k].tag != tag ==> Find(fields, tag) == None
  {
    if k > 0 && fields != [] { FindAt(fields[1..], tag, k - 1); }
  }

  /** The three sections of one file, in the order they were written. */
  ghost predicate Sections(shot: Option<string>, loc: Option<(real, real)>,
                           w0: Bytes, w1: Bytes, w2: Bytes, pool0: Bytes, pool1: Bytes, pool2: Bytes)
    requires (shot.Some? ==> IsStamp(shot.value)) && (loc.Some? ==> IsLocation(loc.value))
  {
    var base := PoolOffset(shot.Some?, loc.Some?);
    && Section(true, w0, FirstEntries(shot.Some?, loc.Some?), base, [], pool0)
    && Section(shot.Some?, w1, if shot.Some? then DateEntries(shot.value) else [], base, pool0, pool1)
    && Section(loc.Some?, w2, if loc.Some? then GpsEntries(loc.value) else [], base, pool1, pool2)
  }

  function TiffOf(w0: Bytes, w1: Bytes, w2: Bytes, pool: Bytes): Bytes {
    HEADER + U32(8) + w0 + w1 + w2 + pool
  }

  lemma SizesAdd(shot: Option<string>, loc: Option<(real, real)>,
                 w0: Bytes, w1: Bytes, w2: Bytes, pool0: Bytes, pool1: Bytes, pool2: Bytes)
    requires (shot.Some? ==> IsStamp(shot.value)) && (loc.Some? ==> IsLocation(loc.value))
    requires Sections(shot, loc, w0, w1, w2, pool0, pool1, pool2)
    ensures var d, l := shot.Some?, loc.Some?;
      8 + |w0| == ExifOffset(d, l) && 8 + |w0| + |w1| == GpsOffset(d, l)
      && 8 + |w0| + |w1| + |w2| == PoolOffset(d, l)
      && |TiffOf(w0, w1, w2, pool2)| == PoolOffset(d, l) + |pool2| < 1000
      && [] <= pool0 <= pool1 <= pool2
  {
    hide AllValid, Room, DateEntries, GpsEntries, FirstEntries, Written, Section;
    var d, l, base := shot.Some?, loc.Some?, PoolOffset(shot.Some?, loc.Some?);
    FirstEntriesFit(d, l);
    SectionSize(w0, FirstEntries(d, l), base, [], pool0);
    U32Length(8);
    if d {
      DateEntriesFit(shot.value);
      DateCount(shot.value);
      SectionSize(w1, DateEntries(shot.value), base, pool0, pool1);
    } else {
      NoSection(w1, base, pool0, pool1);
    }
    if l {
      GpsEntriesFit(loc.value);
      GpsCount(loc.value);
      SectionSize(w2, GpsEntries(loc.value), base, pool1, pool2);
    } else {
      NoSection(w2, base, pool1, pool2);
    }
  }

  lemma NoSection(w: Bytes, base: nat, pool: Bytes, pool': Bytes)
    requires Section(false, w, [], base, pool, pool')
    ensures w == [] && pool' == pool
  {}

  lemma DateCount(stamp: string)
    requires IsStamp(stamp)
    ensures |DateEntries(stamp)| == 2
  {}

  lemma GpsCount(loc: (real, real))
    requires IsLocation(loc)
    ensures |GpsEntries(loc)| == 4
  {}

  /** The directory at `o` reads back, and the part of the pool it filled is packed. */
  ghost predicate Reads(t: Bytes, o: nat, es: seq<Entry>, from: nat, to: nat)
    requires AllValid(es)
  {
    ReadIfd(t, o) == Some(Meanings(es)) && o + 2 + 12 * |es| <= |t| && Packed(Spans(t, o + 2, |es|), from, to)
  }

  lemma SectionsRead(shot: Option<string>, loc: Option<(real, real)>,
                     w0: Bytes, w1: Bytes, w2: Bytes, pool0: Bytes, pool1: Bytes, pool2: Bytes)
    requires (shot.Some? ==> IsStamp(shot.value)) && (loc.Some? ==> IsLocation(loc.value))
    requires Sections(shot, loc, w0, w1, w2, pool0, pool1, pool2)
    ensures var t, d, l := TiffOf(w0, w1, w2, pool2), shot.Some?, loc.Some?;
      var base := PoolOffset(d, l);
      && |t| == base + |pool2| && |pool0| <= |pool1| <= |pool2|
      && AllValid(FirstEntries(d, l)) && Reads(t, 8, FirstEntries(d, l), base, base + |pool0|)
      && (d ==> AllValid(DateEntries(shot.value))
                && Reads(t, ExifOffset(d, l), DateEntries(shot.value), base + |pool0|, base + |pool1|))
      && (l ==> AllValid(GpsEntries(loc.value))
                && Reads(t, GpsOffset(d, l), GpsEntries(loc.value), base + |pool1|, base + |pool2|))
  {
    hide AllValid, Room, DateEntries, GpsEntries, FirstEntries, Section, StandsAt, ReadIfd, Packed, Spans;
    var t, d, l := TiffOf(w0, w1, w2, pool2), shot.Some?, loc.Some?;
    var base := PoolOffset(d, l);
    SizesAdd(shot, loc, w0, w1, w2, pool0, pool1, pool2);
    U32Length(8);
    SectionsStand(HEADER + U32(8), w0, w1, w2, pool2);
    FirstEntriesFit(d, l);
    assert [] + pool0 == pool0;
    SectionReads(t, 8, w0, FirstEntries(d, l), base, [], pool0, pool2);
    if d {
      DateEntriesFit(shot.value);
      DateCount(shot.value);
      SectionReads(t, ExifOffset(d, l), w1, DateEntries(shot.value), base, pool0, pool1, pool2);
    }
    if l {
      GpsEntriesFit(loc.value);
      GpsCount(loc.value);
      SectionReads(t, GpsOffset(d, l), w2, GpsEntries(loc.value), base, pool1, pool2, pool2);
    }
  }

  lemma HeaderReads(w0: Bytes, w1: Bytes, w2: Bytes, pool: Bytes)
    ensures var t := TiffOf(w0, w1, w2, pool); |t| >= 8 && t[..4] == HEADER && Long(t, 4) == 8
  {
    hide StandsAt, Long, U32;
    var t := TiffOf(w0, w1, w2, pool);
    U32Length(8);
    SectionsStand(HEADER + U32(8), w0, w1, w2, pool);
    PartsStandAt(t, 0, HEADER, U32(8));
    StandsIs(t, 0, HEADER);
    NumbersStandAt(t, 4, 8);
  }

  /** The file the sections make up gives back the metadata, and its values are laid out. */
  lemma FileReads(shot: Option<string>, loc: Option<(real, real)>,
                  w0: Bytes, w1: Bytes, w2: Bytes, pool0: Bytes, pool1: Bytes, pool2: Bytes)
    requires (shot.Some? ==> IsStamp(shot.value)) && (loc.Some? ==> IsLocation(loc.value))
    requires Sections(shot, loc, w0, w1, w2, pool0, pool1, pool2)
    ensures ReadTiff(TiffOf(w0, w1, w2, pool2)) == Some(Expected(shot, loc))
    ensures LaidOut(TiffOf(w0, w1, w2, pool2), shot.Some?, loc.Some?)
  {
    hide AllValid, FirstEntries, DateEntries, GpsEntries, Sections, TiffOf, ReadIfd, Packed, Spans, Follow, Meanings, Long;
    var t, d, l := TiffOf(w0, w1, w2, pool2), shot.Some?, loc.Some?;
    var base := PoolOffset(d, l);
    SectionsRead(shot, loc, w0, w1, w2, pool0, pool1, pool2);
    HeaderReads(w0, w1, w2, pool2);
    PointersFollow(t, d, l);
    if d { DateCount(shot.value); }
    if l { GpsCount(loc.value); }
    var first := Spans(t, 10, |FirstEntries(d, l)|);
    var date := if d then Spans(t, ExifOffset(d, l) + 2, 2) else [];
    var gps := if l then Spans(t, GpsOffset(d, l) + 2, 4) else [];
    PackedNothing(base + |pool0|, base + |pool1|);
    PackedNothing(base + |pool1|, base + |pool2|);
    PackedJoins(first, date, base, base + |pool0|, base + |pool1|);
    PackedJoins(first + date, gps, base, base + |pool1|, base + |pool2|);
  }

  /** The marker and length in front of a structure are read over. */
  lemma SegmentReads(t: Bytes)
    requires |t| < 60000
    ensures var payload := EXIF_MARK + t;
      var seg := [0xFF, 0xE1] + U16Big(|payload| + 2) + payload;
      ReadSegment(seg) == ReadTiff(t) && |seg| >= 10 && seg[10..] == t
  {
    hide ReadTiff;
    var payload := EXIF_MARK + t;
    var seg := [0xFF, 0xE1] + U16Big(|payload| + 2) + payload;
    assert seg[10..] == t && seg[4..10] == EXIF_MARK && seg[..2] == [0xFF, 0xE1];
    var n := |payload| + 2;
    assert 256 * (n / 256 % 256) + n % 256 == n;
  }

  lemma FirstFrom(extra: seq<Entry>, dated: bool, located: bool)
    requires multiset(extra) ==
      multiset((if dated then [Pointer(EXIF_IFD_TAG, ExifOffset(dated, located))] else [])
               + if located then [Pointer(GPS_IFD_TAG, GpsOffset(dated, located))] else [])
    ensures multiset(CameraEntries() + extra) == multiset(FirstEntries(dated, located))
    ensures Ascending(FirstEntries(dated, located))
  {
    hide CameraEntries;
    FirstEntriesFit(dated, located);
  }

  lemma NoExtra(es: seq<Entry>)
    ensures multiset(es + []) == multiset(es)
  {
    assert es + [] == es;
  }

  /** The structure without its segment header. */
  method BuildTiff(shot: Option<string>, loc: Option<(real, real)>) returns (t: Bytes)
    requires (shot.Some? ==> IsStamp(shot.value)) && (loc.Some? ==> IsLocation(loc.value))
    ensures ReadTiff(t) == Some(Expected(shot, loc)) && LaidOut(t, shot.Some?, loc.Some?) && |t| < 1000
  {
    hide Section, ReadTiff, LaidOut, FirstEntries, DateEntries, GpsEntries, Expected, Ascending, Sections;
    var exifIfd := if shot.Some? then DateEntries(shot.value) else [];
    var gpsIfd := if loc.Some? then GpsEntries(loc.value) else [];
    if shot.Some? { DateCount(shot.value); DateEntriesFit(shot.value); } else { NothingAscends(); }
    if loc.Some? { GpsCount(loc.value); GpsEntriesFit(loc.value); } else { NothingAscends(); }
    var exifOff, gpsOff, poolOff := Offsets(|exifIfd|, |gpsIfd|);
    hide ExifOffset, GpsOffset, PoolOffset;
    var extra := PointersInAnyOrder(|exifIfd| > 0, exifOff, |gpsIfd| > 0, gpsOff);
    FirstFrom(extra, shot.Some?, loc.Some?);
    NoExtra(exifIfd);
    NoExtra(gpsIfd);
    var w0, pool0 := WriteSection(true, CameraEntries(), extra, FirstEntries(shot.Some?, loc.Some?), poolOff, []);
    var w1, pool1 := WriteSection(|exifIfd| > 0, exifIfd, [], exifIfd, poolOff, pool0);
    var w2, pool2 := WriteSection(|gpsIfd| > 0, gpsIfd, [], gpsIfd, poolOff, pool1);
    t := HEADER + U32(8) + w0 + w1 + w2 + pool2;
    SectionsFrom(shot, loc, w0, w1, w2, pool0, pool1, pool2);
    FileReads(shot, loc, w0, w1, w2, pool0, pool1, pool2);
    SizesAdd(shot, loc, w0, w1, w2, pool0, pool1, pool2);
  }

  lemma SectionsFrom(shot: Option<string>, loc: Option<(real, real)>,
                     w0: Bytes, w1: Bytes, w2: Bytes, pool0: Bytes, pool1: Bytes, pool2: Bytes)
    requires (shot.Some? ==> IsStamp(shot.value)) && (loc.Some? ==> IsLocation(loc.value))
    requires var base := PoolOffset(shot.Some?, loc.Some?);
      && Section(true, w0, FirstEntries(shot.Some?, loc.Some?), base, [], pool0)
      && Section(shot.Some?, w1, if shot.Some? then DateEntries(shot.value) else [], base, pool0, pool1)
      && Section(loc.Some?, w2, if loc.Some? then GpsEntries(loc.value) else [], base, pool1, pool2)
    ensures Sections(shot, loc, w0, w1, w2, pool0, pool1, pool2)
  {}

  /** The directories follow one another, then comes the pool. */
  method Offsets(exifCount: nat, gpsCount: nat) returns (exifOff: nat, gpsOff: nat, poolOff: nat)
    requires exifCount in {0, 2} && gpsCount in {0, 4}
    ensures exifOff == ExifOffset(exifCount > 0, gpsCount > 0) && gpsOff == GpsOffset(exifCount > 0, gpsCount > 0)
    ensures poolOff == PoolOffset(exifCount > 0, gpsCount > 0) && poolOff % 2 == 0
  {
    var ifd0Count := 2;
    if exifCount > 0 { ifd0Count := ifd0Count + 1; }
    if gpsCount > 0 { ifd0Count := ifd0Count + 1; }
    exifOff := 8 + DirectorySize(ifd0Count);
    gpsOff := exifOff;
    if exifCount > 0 { gpsOff := exifOff + DirectorySize(exifCount); }
    poolOff := gpsOff;
    if gpsCount > 0 { poolOff := gpsOff + DirectorySize(gpsCount); }
  }

  /** The APP1 segment: whatever is given, reading it back by the layout rules gives it again. */
  method BuildExif(shot: Option<string>, loc: Option<(real, real)>) returns (seg: Bytes)
    requires (shot.Some? ==> IsStamp(shot.value)) && (loc.Some? ==> IsLocation(loc.value))
    ensures ReadSegment(seg) == Some(Expected(shot, loc))
    ensures |seg| >= 10 && LaidOut(seg[10..], shot.Some?, loc.Some?)
    ensures seg[..2] == [0xFF, 0xE1] && 256 * seg[2] as int + seg[3] as int == |seg| - 2 < 65536
    ensures seg[4..10] == ['E' as int as Byte, 'x' as int as Byte, 'i' as int as Byte, 'f' as int as Byte, 0, 0]
  {
    hide ReadTiff, ReadSegment, LaidOut, Expected;
    var t := BuildTiff(shot, loc);
    var payload := EXIF_MARK + t;
    seg := [0xFF, 0xE1] + U16Big(|payload| + 2) + payload;
    SegmentReads(t);
  }

  lemma NothingAscends()
    ensures Ascending([])
  {}

  /** The pointers to the directories that exist; a map yields them in no particular order. */
  method PointersInAnyOrder(dated: bool, exifOff: nat, located: bool, gpsOff: nat) returns (extra: seq<Entry>)
    ensures multiset(extra) ==
      multiset((if dated then [Pointer(EXIF_IFD_TAG, exifOff)] else []) + if located then [Pointer(GPS_IFD_TAG, gpsOff)] else [])
  {
    extra := [];
    if dated { extra := extra + [Pointer(EXIF_IFD_TAG, exifOff)]; }
    if located {
      var gps := [Pointer(GPS_IFD_TAG, gpsOff)];
      if * { extra := extra + gps; } else { extra := gps + extra; }
    }
  }

  method WriteSection(present: bool, entries: seq<Entry>, extra: seq<Entry>, ghost expected: seq<Entry>,
                      base: nat, pool: Bytes)
    returns (w: Bytes, pool': Bytes)
    requires |pool| % 2 == 0 && base % 2 == 0
    requires multiset(entries + extra) == multiset(expected) && Ascending(expected)
    ensures |pool'| % 2 == 0
    ensures Section(present, w, expected, base, pool, pool')
  {
    hide Ordered;
    w, pool' := [], pool;
    if present {
      w, pool' := WriteIfd(entries, extra, base, pool);
      ghost var all, offsets :|
        multiset(all) == multiset(entries + extra) && Ordered(all, TagLess) && Written(w, all, offsets, base, pool, pool');
      SortedIs(all, expected);
    }
  }

  // ----- what the fields mean -----

  /** One coordinate: the value's three rationals, negated when the reference letter says so. */
  function Coordinate(gps: seq<Field>, refTag: nat, valueTag: nat, negative: Byte): Option<real> {
    var r, v := Find(gps, refTag), Find(gps, valueTag);
    if r.None? || v.None? || |r.value.bytes| != 2 || |v.value.bytes| != 24 then None
    else
      var b := v.value.bytes;
      if Long(b, 4) == 0 || Long(b, 12) == 0 || Long(b, 20) == 0 then None
      else Some(if r.value.bytes[0] == negative then -Degrees(b) else Degrees(b))
  }

  /** Within half of a ten-thousandth of an arcsecond. */
  ghost predicate Near(a: Option<real>, b: real) { a.Some? && -0.5 <= (a.value - b) * 3600.0 * 10000.0 <= 0.5 }

  /** The date comes back as written, the coordinates with their signs and to half the last digit. */
  lemma MetadataReadsBack(shot: Option<string>, loc: Option<(real, real)>)
    requires (shot.Some? ==> IsStamp(shot.value)) && (loc.Some? ==> IsLocation(loc.value))
    ensures var m := Expected(shot, loc);
      && (m.exif.Some? <==> shot.Some?) && (m.gps.Some? <==> loc.Some?)
      && (shot.Some? ==> Find(m.exif.value, 0x9003) == Some(Field(0x9003, 2, |shot.value| + 1, Ascii(shot.value))))
      && (shot.Some? ==> Find(m.exif.value, 0x9004) == Some(Field(0x9004, 2, |shot.value| + 1, Ascii(shot.value))))
      && (loc.Some? ==> Near(Coordinate(m.gps.value, 1, 2, 0x53), loc.value.0))
      && (loc.Some? ==> Near(Coordinate(m.gps.value, 3, 4, 0x57), loc.value.1))
  {
    hide FirstEntries, Dms, Degrees, Long;
    if shot.Some? {
      DateEntriesFit(shot.value);
      var es := DateEntries(shot.value);
      assert forall i :: 0 <= i < 2 ==> Meanings(es)[i] == es[i].Meaning();
      FindAt(Meanings(es), 0x9003, 0);
      FindAt(Meanings(es), 0x9004, 1);
    }
    if loc.Some? { GpsReadsBack(loc.value); }
  }

  /** The characters, one byte each, and a zero. */
  ghost predicate IsText(bytes: Bytes, s: string) {
    |bytes| == |s| + 1 && bytes[|s|] == 0 && forall i :: 0 <= i < |s| ==> bytes[i] as int == s[i] as int
  }

  lemma AsciiIsText(s: string)
    requires forall i :: 0 <= i < |s| ==> s[i] as int < 256
    ensures IsText(Ascii(s), s)
  {}

  lemma CameraNames()
    ensures var es := CameraEntries();
      && |es| == 2 && es[0].Valid() && es[0].tag == 0x010F && es[1].Valid() && es[1].tag == 0x0110
      && IsField(Some(es[0].Meaning()), 2, 16) && IsText(es[0].Meaning().bytes, "photo-organizer")
      && IsField(Some(es[1].Meaning()), 2, 18) && IsText(es[1].Meaning().bytes, "fixture-generator")
  {
    CameraEntriesFit();
    AsciiIsText("photo-organizer");
    AsciiIsText("fixture-generator");
  }

  lemma ReferenceLetters(loc: (real, real))
    requires IsLocation(loc)
    ensures var es := GpsEntries(loc);
      && es[0].data == Inline([if loc.0 < 0.0 then 'S' as int as Byte else 'N' as int as Byte, 0, 0, 0])
      && es[2].data == Inline([if loc.1 < 0.0 then 'W' as int as Byte else 'E' as int as Byte, 0, 0, 0])
  {}

  /** The field types a reader of the standard expects: 2 is text, 5 is three pairs of numbers. The
      reference letters are followed by zeros up to the end of their entries. */
  lemma FieldsAreStandard(shot: Option<string>, loc: Option<(real, real)>)
    requires (shot.Some? ==> IsStamp(shot.value)) && (loc.Some? ==> IsLocation(loc.value))
    ensures var m := Expected(shot, loc);
      && (shot.Some? ==> m.exif.Some? && IsField(Find(m.exif.value, 0x9003), 2, |shot.value| + 1)
                         && IsText(Find(m.exif.value, 0x9003).value.bytes, shot.value))
      && (loc.Some? ==> m.gps.Some? && IsField(Find(m.gps.value, 1), 2, 2) && IsField(Find(m.gps.value, 2), 5, 3))
      && (loc.Some? ==> m.gps.Some? && IsField(Find(m.gps.value, 3), 2, 2) && IsField(Find(m.gps.value, 4), 5, 3))
    ensures loc.Some? ==> ZeroPadded(GpsEntries(loc.value)[0]) && ZeroPadded(GpsEntries(loc.value)[2])
  {
    hide FirstEntries, Dms, Degrees, Long, IsText;
    MetadataReadsBack(shot, loc);
    if shot.Some? { AsciiIsText(shot.value); }
    if loc.Some? {
      ReferenceLetters(loc.value);
      GpsEntriesFit(loc.value);
      var es := GpsEntries(loc.value);
      var fields := Meanings(es);
      assert |fields| == 4 && forall i :: 0 <= i < 4 ==> fields[i] == es[i].Meaning();
      FindAt(fields, 1, 0);
      FindAt(fields, 2, 1);
      FindAt(fields, 3, 2);
      FindAt(fields, 4, 3);
    }
  }

  ghost predicate ZeroPadded(e: Entry) {
    e.data.Inline? && |e.data.four| == 4 && e.data.four[1] == 0 && e.data.four[2] == 0 && e.data.four[3] == 0
  }

  ghost predicate IsField(f: Option<Field>, typ: nat, count: nat) {
    f.Some? && f.value.typ == typ && f.value.count == count
  }

  /** How a reader gets there: the byte order mark and the number 42, the first directory where the next
      four bytes say, the other two where the entries 0x8769 and 0x8825 of that one say. */
  lemma ReadersFollow(t: Bytes, m: Meta)
    requires ReadTiff(t) == Some(m)
    ensures |t| >= 8 && t[..4] == [0x49, 0x49, 42, 0] && ReadIfd(t, Long(t, 4)) == Some(m.ifd0)
    ensures LeadsTo(t, Find(m.ifd0, 0x8769), m.exif) && LeadsTo(t, Find(m.ifd0, 0x8825), m.gps)
  {
    hide ReadIfd, Find, Long;
  }

  ghost predicate LeadsTo(t: Bytes, pointer: Option<Field>, sub: Option<seq<Field>>) {
    if pointer.None? then sub.None?
    else sub.Some? && |pointer.value.bytes| == 4 && ReadIfd(t, Long(pointer.value.bytes, 0)) == sub
  }

  /** The first directory names the camera, and the others exactly when there is something in them. */
  lemma FirstDirectoryReadsBack(shot: Option<string>, loc: Option<(real, real)>)
    requires (shot.Some? ==> IsStamp(shot.value)) && (loc.Some? ==> IsLocation(loc.value))
    ensures var first := Expected(shot, loc).ifd0;
      && IsField(Find(first, 0x010F), 2, 16) && IsText(Find(first, 0x010F).value.bytes, "photo-organizer")
      && IsField(Find(first, 0x0110), 2, 18) && IsText(Find(first, 0x0110).value.bytes, "fixture-generator")
      && (Find(first, 0x8769).Some? <==> shot.Some?) && (Find(first, 0x8825).Some? <==> loc.Some?)
  {
    CameraNames();
    hide Find, U32, Ascii, CameraEntries, DateEntries, GpsEntries, IsText;
    var d, l := shot.Some?, loc.Some?;
    FirstEntriesFit(d, l);
    var es, x, g := FirstEntries(d, l), ExifOffset(d, l), GpsOffset(d, l);
    var fields := Meanings(es);
    assert forall i :: 0 <= i < |es| ==> fields[i] == es[i].Meaning();
    assert |CameraEntries()| == 2 && es[0] == CameraEntries()[0] && es[1] == CameraEntries()[1];
    if d { assert es[2] == Pointer(EXIF_IFD_TAG, x); }
    if l { assert es[if d then 3 else 2] == Pointer(GPS_IFD_TAG, g); }
    FindAt(fields, 0x010F, 0);
    FindAt(fields, 0x0110, 1);
    FindAt(fields, 0x8769, 2);
    FindAt(fields, 0x8825, if d then 3 else 2);
    if !d && l { FindAt(fields, 0x8769, 3); }
  }

  lemma GpsReadsBack(loc: (real, real))
    requires IsLocation(loc)
    ensures AllValid(GpsEntries(loc))
    ensures Near(Coordinate(Meanings(GpsEntries(loc)), 1, 2, 0x53), loc.0)
    ensures Near(Coordinate(Meanings(GpsEntries(loc)), 3, 4, 0x57), loc.1)
  {
    hide Dms, Degrees, Long, Find;
    GpsEntriesFit(loc);
    var es := GpsEntries(loc);
    var fields := Meanings(es);
    DmsIsClose(Magnitude(loc.0));
    DmsIsClose(Magnitude(loc.1));
    assert |fields| == 4 && forall i :: 0 <= i < 4 ==> fields[i] == es[i].Meaning();
    FindAt(fields, 1, 0);
    FindAt(fields, 2, 1);
    FindAt(fields, 3, 2);
    FindAt(fields, 4, 3);
    assert fields[0].bytes[0] == (if loc.0 < 0.0 then 0x53 else 0x4E);
    assert fields[2].bytes[0] == (if loc.1 < 0.0 then 0x57 else 0x45);
  }
}
