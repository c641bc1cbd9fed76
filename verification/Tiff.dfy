/** TIFF directories (section 2 of TIFF 6.0), little-endian: the writer's layout with its value pool
    (internal/fixtures/fixtures.go:867-908, :955-957) and a reader that follows the standard. */
module Tiff {
  import opened Options
  import opened Sorting

  newtype Byte = x: int | 0 <= x < 256

  type Bytes = seq<Byte>

  // ----- numbers -----

  function U16(v: nat): Bytes { [(v % 256) as Byte, (v / 256 % 256) as Byte] }

  function U32(v: nat): Bytes { 
    [(v % 256) as Byte, (v / 256 % 256) as Byte, (v / 65536 % 256) as Byte, (v / 16777216 % 256) as Byte]
  }

  function U16Big(v: nat): Bytes { [(v / 256 % 256) as Byte, (v % 256) as Byte] }

  function Word(t: Bytes, o: nat): nat
    requires o + 2 <= |t|
  {
    t[o] as nat + 256 * t[o + 1] as nat
  }

  function Long(t: Bytes, o: nat): nat
    requires o + 4 <= |t|
  {
    t[o] as nat + 256 * t[o + 1] as nat + 65536 * t[o + 2] as nat + 16777216 * t[o + 3] as nat
  }

  /** What is written is read back, as long as it fits the field. */
  lemma NumbersRoundTrip(v: nat, w: nat)
    ensures v < 65536 ==> Word(U16(v), 0) == v
    ensures w < 4294967296 ==> Long(U32(w), 0) == w
  {
    assert w / 65536 == w / 256 / 256 && w / 16777216 == w / 65536 / 256;
  }

  // ----- entries -----

  const ASCII := 2
  const LONG := 4
  const RATIONAL := 5

  function TypeSize(typ: int): nat {
    if typ == ASCII then 1 else if typ == LONG then 4 else if typ == RATIONAL then 8 else 0
  }

  /** A value of at most four bytes sits in the entry, a longer one in the pool. */
  datatype Data = Inline(four: Bytes) | Pooled(bytes: Bytes)

  datatype Entry = Entry(tag: nat, typ: nat, count: nat, data: Data)
  {
    function Size(): nat { count * TypeSize(typ) }

    predicate Valid() {
      tag < 65536 && TypeSize(typ) > 0 && count < 4294967296
      && match data
         case Inline(four) => |four| == 4 && Size() <= 4
         case Pooled(bytes) => |bytes| == Size() && Size() > 4
    }

    /** What a reader should find. */
    function Meaning(): Field
      requires Valid()
    {
      Field(tag, typ, count, if data.Inline? then data.four[..Size()] else data.bytes)
    }
  }

  datatype Field = Field(tag: nat, typ: nat, count: nat, bytes: Bytes)

  // ----- reading -----

  function ReadField(t: Bytes, o: nat): Option<Field> {
    if o + 12 > |t| then None
    else
      var tag, typ, count := Word(t, o), Word(t, o + 2), Long(t, o + 4);
      var size := count * TypeSize(typ);
      var at := if size <= 4 then o + 8 else Long(t, o + 8);
      if TypeSize(typ) == 0 || at + size > |t| then None else Some(Field(tag, typ, count, t[at..at + size]))
  }

  /** The first n entries from o on. */
  function ReadFields(t: Bytes, o: nat, n: nat): Option<seq<Field>> {
    if n == 0 then Some([]) else
      var before, last := ReadFields(t, o, n - 1), ReadField(t, o + 12 * (n - 1));
      if before.None? || last.None? then None else Some(before.value + [last.value])
  }

  /** The directory at o. */
  function ReadIfd(t: Bytes, o: nat): Option<seq<Field>> {
    if o + 2 > |t| then None else ReadFields(t, o + 2, Word(t, o))
  }

  /** Where the long values of the first n entries lie: offset and length. */
  function Spans(t: Bytes, o: nat, n: nat): seq<(nat, nat)>
    requires o + 12 * n <= |t|
  {
    if n == 0 then [] else
      var at := o + 12 * (n - 1);
      var size := Long(t, at + 4) * TypeSize(Word(t, at + 2));
      Spans(t, o, n - 1) + if size <= 4 then [] else [(Long(t, at + 8), size)]
  }

  /** Word-aligned, in order, without overlap, between `from` and `to`. */
  ghost predicate Packed(spans: seq<(nat, nat)>, from: nat, to: nat) {
    (forall i :: 0 <= i < |spans| ==> spans[i].0 % 2 == 0 && from <= spans[i].0 && spans[i].0 + spans[i].1 <= to)
    && forall i, j :: 0 <= i < j < |spans| ==> spans[i].0 + spans[i].1 <= spans[j].0
  }

  // ----- writing -----

  function Encode(e: Entry, offset: nat): Bytes {
    U16(e.tag) + U16(e.typ) + U32(e.count) + if e.data.Inline? then e.data.four else U32(offset)
  }

  function EncodeAll(es: seq<Entry>, offsets: seq<nat>): Bytes
    requires |offsets| == |es|
  {
    if es == [] then []
    else EncodeAll(es[..|es| - 1], offsets[..|es| - 1]) + Encode(es[|es| - 1], offsets[|es| - 1])
  }

  /** Where the long values of the entries were put. */
  function Placed(es: seq<Entry>, offsets: seq<nat>): seq<(nat, nat)>
    requires |offsets| == |es|
  {
    if es == [] then [] else
      var n := |es| - 1;
      Placed(es[..n], offsets[..n]) + if es[n].data.Inline? then [] else [(offsets[n], |es[n].data.bytes|)]
  }

  /** Every pooled value stands in the pool at its offset; the pool begins at `base`. */
  ghost predicate InPool(es: seq<Entry>, offsets: seq<nat>, base: nat, pool: Bytes)
    requires |offsets| == |es|
  {
    forall i :: 0 <= i < |es| && es[i].data.Pooled? ==>
      base <= offsets[i] && offsets[i] - base + |es[i].data.bytes| <= |pool|
      && pool[offsets[i] - base..offsets[i] - base + |es[i].data.bytes|] == es[i].data.bytes
  }

  ghost predicate AllValid(es: seq<Entry>) { forall i :: 0 <= i < |es| ==> es[i].Valid() }

  method AddPool(base: nat, pool: Bytes, b: Bytes) returns (offset: nat, pool': Bytes)
    requires |pool| % 2 == 0
    ensures offset == base + |pool| && |pool'| % 2 == 0
    ensures pool + b <= pool' && |pool'| == |pool| + |b| + |b| % 2
  {
    offset := base + |pool|;
    pool' := pool + b;
    if |pool'| % 2 == 1 {
      pool' := pool' + [0];
    }
  }

  predicate TagLess(a: Entry, b: Entry) { a.tag < b.tag }

  lemma TagLessIsWeakOrder(es: seq<Entry>)
    ensures WeakOrder(es, TagLess)
  {}

  function Pointer(tag: nat, offset: nat): Entry { Entry(tag, LONG, 1, Inline(U32(offset))) }

  /** The pool space the entries take, each value padded to an even length. */
  function Room(es: seq<Entry>): nat {
    if es == [] then 0 else
      var e := es[|es| - 1];
      Room(es[..|es| - 1]) + if e.data.Inline? then 0 else |e.data.bytes| + |e.data.bytes| % 2
  }

  lemma RoomPush(es: seq<Entry>, e: Entry)
    ensures Room(es + [e]) == Room(es) + if e.data.Inline? then 0 else |e.data.bytes| + |e.data.bytes| % 2
  {
    assert (es + [e])[..|es|] == es;
  }

  /** What WriteIfd appended: the sorted entries, their offsets, and the pool's growth. */
  ghost predicate Written(w: Bytes, all: seq<Entry>, offsets: seq<nat>, base: nat, pool: Bytes, pool': Bytes) {
    && |offsets| == |all| && pool <= pool' && |pool'| % 2 == 0 && |pool'| == |pool| + Room(all)
    && w == U16(|all|) + EncodeAll(all, offsets) + U32(0)
    && InPool(all, offsets, base, pool')
    && Packed(Placed(all, offsets), base + |pool|, base + |pool'|)
  }

  lemma PushEntry(es: seq<Entry>, offsets: seq<nat>, e: Entry, offset: nat)
    requires |offsets| == |es|
    ensures EncodeAll(es + [e], offsets + [offset]) == EncodeAll(es, offsets) + Encode(e, offset)
    ensures Placed(es + [e], offsets + [offset]) ==
      Placed(es, offsets) + if e.data.Inline? then [] else [(offset, |e.data.bytes|)]
  {
    assert (es + [e])[..|es|] == es && (offsets + [offset])[..|es|] == offsets;
  }

  lemma InPoolGrows(es: seq<Entry>, offsets: seq<nat>, base: nat, pool: Bytes, pool': Bytes)
    requires |offsets| == |es| && InPool(es, offsets, base, pool) && pool <= pool'
    ensures InPool(es, offsets, base, pool')
  {
    forall i | 0 <= i < |es| && es[i].data.Pooled?
      ensures pool'[offsets[i] - base..offsets[i] - base + |es[i].data.bytes|] == es[i].data.bytes
    {
      var a, b := offsets[i] - base, offsets[i] - base + |es[i].data.bytes|;
      assert pool'[a..b] == pool[a..b];
    }
  }

  lemma PushInPool(es: seq<Entry>, offsets: seq<nat>, base: nat, pool: Bytes, pool': Bytes, e: Entry)
    requires |offsets| == |es| && e.data.Pooled? && InPool(es, offsets, base, pool) && pool + e.data.bytes <= pool'
    ensures InPool(es + [e], offsets + [base + |pool|], base, pool')
  {
    assert pool <= pool + e.data.bytes;
    InPoolGrows(es, offsets, base, pool, pool');
    assert pool'[|pool|..|pool| + |e.data.bytes|] == (pool + e.data.bytes)[|pool|..] == e.data.bytes;
  }

  lemma PushSpan(spans: seq<(nat, nat)>, from: nat, to: nat, length: nat, to': nat)
    requires Packed(spans, from, to) && from <= to && to % 2 == 0 && to + length <= to'
    ensures Packed(spans, from, to')
    ensures Packed(spans + [(to, length)], from, to')
  {}

  /** One directory: count, entries in tag order, no next directory; long values go to the pool. */
  method WriteIfd(entries: seq<Entry>, extra: seq<Entry>, base: nat, pool: Bytes)
    returns (w: Bytes, pool': Bytes)
    requires |pool| % 2 == 0 && base % 2 == 0
    ensures exists all, offsets ::
      multiset(all) == multiset(entries + extra) && Ordered(all, TagLess) && Written(w, all, offsets, base, pool, pool')
  {
    hide WeakOrder, Ordered, EncodeAll, Placed, InPool, Packed, Encode, Room;
    TagLessIsWeakOrder(entries + extra);
    var sorted := SortSlice(entries + extra, TagLess);
    pool' := pool;
    ghost var all, offsets: seq<nat> := sorted, [];
    assert |multiset(sorted)| == |sorted| && |multiset(entries + extra)| == |entries| + |extra|;
    w := U16(|entries| + |extra|);
    NothingWritten(base, pool);
    assert sorted[..0] == [];
    for k := 0 to |sorted|
      invariant |offsets| == k && pool <= pool' && |pool'| % 2 == 0 && |pool'| == |pool| + Room(all[..k])
      invariant w == U16(|all|) + EncodeAll(all[..k], offsets)
      invariant InPool(all[..k], offsets, base, pool')
      invariant Packed(Placed(all[..k], offsets), base + |pool|, base + |pool'|)
    {
      var e := sorted[k];
      assert all[..k + 1] == all[..k] + [e];
      ghost var offset := base + |pool'|;
      PushEntry(all[..k], offsets, e, offset);
      RoomPush(all[..k], e);
      if e.data.Pooled? {
        var at, grown := AddPool(base, pool', e.data.bytes);
        PushInPool(all[..k], offsets, base, pool', grown, e);
        PushSpan(Placed(all[..k], offsets), base + |pool|, at, |e.data.bytes|, base + |grown|);
        assert pool' <= pool' + e.data.bytes;
        pool' := grown;
        EncodeIs(e, at);
        w := w + U16(e.tag) + U16(e.typ) + U32(e.count) + U32(at);
      } else {
        PushInline(all[..k], offsets, base, pool', e, offset);
        assert Placed(all[..k], offsets) + [] == Placed(all[..k], offsets);
        EncodeIs(e, offset);
        w := w + U16(e.tag) + U16(e.typ) + U32(e.count) + e.data.four;
      }
      offsets := offsets + [offset];
    }
    assert all[..|all|] == all;
    w := w + U32(0);
    assert Written(w, all, offsets, base, pool, pool');
  }

  lemma NothingWritten(base: nat, pool: Bytes)
    ensures EncodeAll([], []) == [] && InPool([], [], base, pool) && Placed([], []) == []
    ensures Packed([], base + |pool|, base + |pool|) && Room([]) == 0
  {}

  lemma EncodeIs(e: Entry, offset: nat)
    ensures e.data.Pooled? ==> Encode(e, offset) == U16(e.tag) + U16(e.typ) + U32(e.count) + U32(offset)
    ensures e.data.Inline? ==> Encode(e, offset) == U16(e.tag) + U16(e.typ) + U32(e.count) + e.data.four
  {}

  lemma PushInline(es: seq<Entry>, offsets: seq<nat>, base: nat, pool: Bytes, e: Entry, offset: nat)
    requires |offsets| == |es| && e.data.Inline? && InPool(es, offsets, base, pool)
    ensures InPool(es + [e], offsets + [offset], base, pool)
  {}

  // ----- reading back what was written -----

  /** `b` stands at offset o of t. */
  predicate StandsAt(t: Bytes, o: nat, b: Bytes) {
    o + |b| <= |t| && t[o..o + |b|] == b
  }

  lemma PartsStandAt(t: Bytes, o: nat, a: Bytes, b: Bytes)
    requires StandsAt(t, o, a + b)
    ensures StandsAt(t, o, a) && StandsAt(t, o + |a|, b)
  {
    var all := a + b;
    assert all[0..|a|] == a && all[|a|..|all|] == b;
    SliceOfSlice(t, o, |all|, 0, |a|);
    SliceOfSlice(t, o, |all|, |a|, |all|);
  }

  lemma SliceOfSlice(t: Bytes, o: nat, n: nat, i: nat, j: nat)
    requires o + n <= |t| && i <= j <= n
    ensures t[o..o + n][i..j] == t[o + i..o + j]
  {
    var part := t[o..o + n];
    assert forall k :: 0 <= k < n ==> part[k] == t[o + k];
    assert part[i..j] == t[o + i..o + j];
  }

  lemma NumbersStandAt(t: Bytes, o: nat, v: nat)
    ensures v < 65536 && StandsAt(t, o, U16(v)) ==> Word(t, o) == v
    ensures v < 4294967296 && StandsAt(t, o, U32(v)) ==> Long(t, o) == v
  {
    NumbersRoundTrip(v, v);
    if StandsAt(t, o, U16(v)) {
      assert t[o..o + 2][0] == t[o] && t[o..o + 2][1] == t[o + 1];
    }
    if StandsAt(t, o, U32(v)) {
      var s := t[o..o + 4];
      assert s[0] == t[o] && s[1] == t[o + 1] && s[2] == t[o + 2] && s[3] == t[o + 3];
    }
  }

  /** One entry read back by the rules is the entry written. */
  lemma EntryRoundTrip(t: Bytes, o: nat, e: Entry, offset: nat)
    requires e.Valid() && StandsAt(t, o, Encode(e, offset))
    requires e.data.Pooled? ==> offset < 4294967296 && StandsAt(t, offset, e.data.bytes)
    ensures ReadField(t, o) == Some(e.Meaning())
    ensures o + 12 <= |t| && Long(t, o + 4) * TypeSize(Word(t, o + 2)) == e.Size()
    ensures e.data.Pooled? ==> Long(t, o + 8) == offset
  {
    hide StandsAt, Word, Long, U16, U32;
    EntryPartsStand(t, o, e, offset);
    NumbersStandAt(t, o, e.tag);
    NumbersStandAt(t, o + 2, e.typ);
    NumbersStandAt(t, o + 4, e.count);
    if e.data.Pooled? {
      NumbersStandAt(t, o + 8, offset);
      StandsIs(t, offset, e.data.bytes);
    } else {
      StandsIs(t, o + 8, e.data.four);
      assert t[o + 8..o + 12][..e.Size()] == t[o + 8..o + 8 + e.Size()];
    }
  }

  lemma StandsIs(t: Bytes, o: nat, b: Bytes)
    requires StandsAt(t, o, b)
    ensures o + |b| <= |t| && t[o..o + |b|] == b
  {}

  lemma EntryPartsStand(t: Bytes, o: nat, e: Entry, offset: nat)
    requires e.Valid() && StandsAt(t, o, Encode(e, offset))
    ensures o + 12 <= |t| && StandsAt(t, o, U16(e.tag)) && StandsAt(t, o + 2, U16(e.typ))
    ensures StandsAt(t, o + 4, U32(e.count))
    ensures StandsAt(t, o + 8, if e.data.Inline? then e.data.four else U32(offset))
  {
    var last := if e.data.Inline? then e.data.four else U32(offset);
    var most := U16(e.tag) + U16(e.typ) + U32(e.count);
    PartsStandAt(t, o, most, last);
    PartsStandAt(t, o, U16(e.tag) + U16(e.typ), U32(e.count));
    PartsStandAt(t, o, U16(e.tag), U16(e.typ));
  }

  ghost predicate PoolStands(t: Bytes, es: seq<Entry>, offsets: seq<nat>)
    requires |offsets| == |es|
  {
    forall i :: 0 <= i < |es| && es[i].data.Pooled? ==>
      offsets[i] < 4294967296 && StandsAt(t, offsets[i], es[i].data.bytes)
  }

  function Meanings(es: seq<Entry>): seq<Field>
    requires AllValid(es)
  {
    seq(|es|, i requires 0 <= i < |es| => es[i].Meaning())
  }

  lemma {:induction false} EncodedLength(es: seq<Entry>, offsets: seq<nat>)
    requires |offsets| == |es| && AllValid(es)
    ensures |EncodeAll(es, offsets)| == 12 * |es|
  {
    if es != [] {
      assert es[|es| - 1].Valid();
      EncodedLength(es[..|es| - 1], offsets[..|es| - 1]);
    }
  }

  lemma PoolStandsPrefix(t: Bytes, es: seq<Entry>, offsets: seq<nat>, n: nat)
    requires |offsets| == |es| && n < |es| && AllValid(es) && PoolStands(t, es, offsets)
    ensures es[n].Valid() && AllValid(es[..n]) && PoolStands(t, es[..n], offsets[..n])
    ensures es[n].data.Pooled? ==> offsets[n] < 4294967296 && StandsAt(t, offsets[n], es[n].data.bytes)
  {
    hide StandsAt;
  }

  lemma LastStands(t: Bytes, o: nat, es: seq<Entry>, offsets: seq<nat>)
    requires |offsets| == |es| > 0 && AllValid(es) && StandsAt(t, o, EncodeAll(es, offsets))
    ensures var n := |es| - 1;
      StandsAt(t, o, EncodeAll(es[..n], offsets[..n])) && StandsAt(t, o + 12 * n, Encode(es[n], offsets[n]))
  {
    hide StandsAt, Encode, AllValid, EncodeAll;
    var n := |es| - 1;
    ValidPrefix(es, n);
    EncodedLength(es[..n], offsets[..n]);
    EncodeLast(es, offsets);
    PartsStandAt(t, o, EncodeAll(es[..n], offsets[..n]), Encode(es[n], offsets[n]));
  }

  lemma EncodeLast(es: seq<Entry>, offsets: seq<nat>)
    requires |offsets| == |es| > 0
    ensures var n := |es| - 1; EncodeAll(es, offsets) == EncodeAll(es[..n], offsets[..n]) + Encode(es[n], offsets[n])
  {}

  lemma ValidPrefix(es: seq<Entry>, n: nat)
    requires AllValid(es) && n <= |es|
    ensures AllValid(es[..n])
  {}

  /** All entries read back, with their spans. */
  lemma {:induction false} EntriesRoundTrip(t: Bytes, o: nat, es: seq<Entry>, offsets: seq<nat>)
    requires |offsets| == |es| && AllValid(es) && PoolStands(t, es, offsets)
    requires StandsAt(t, o, EncodeAll(es, offsets))
    ensures ReadFields(t, o, |es|) == Some(Meanings(es))
    ensures o + 12 * |es| <= |t| && Spans(t, o, |es|) == Placed(es, offsets)
  {
    hide ReadField, StandsAt, Encode, EncodeAll, PoolStands, AllValid, Long, Word;
    if es == [] {
      StandsIs(t, o, EncodeAll(es, offsets));
      assert Meanings(es) == [];
    } else {
      var n := |es| - 1;
      LastStands(t, o, es, offsets);
      PoolStandsPrefix(t, es, offsets, n);
      EntriesRoundTrip(t, o, es[..n], offsets[..n]);
      EntryRoundTrip(t, o + 12 * n, es[n], offsets[n]);
      LastMeaning(es);
    }
  }

  lemma LastMeaning(es: seq<Entry>)
    requires AllValid(es) && es != []
    ensures AllValid(es[..|es| - 1]) && es[|es| - 1].Valid()
    ensures Meanings(es) == Meanings(es[..|es| - 1]) + [es[|es| - 1].Meaning()]
  {}

  lemma PoolIsThere(t: Bytes, es: seq<Entry>, offsets: seq<nat>, base: nat, pool: Bytes, whole: Bytes)
    requires |offsets| == |es| && InPool(es, offsets, base, pool) && pool <= whole
    requires StandsAt(t, base, whole) && |t| < 4294967296 && AllValid(es)
    ensures PoolStands(t, es, offsets)
  {
    forall i | 0 <= i < |es| && es[i].data.Pooled?
      ensures offsets[i] < 4294967296 && StandsAt(t, offsets[i], es[i].data.bytes)
    {
      assert es[i].Valid();
      var a, n := offsets[i] - base, |es[i].data.bytes|;
      SliceOfSlice(t, base, |whole|, a, a + n);
      assert whole[a..a + n] == pool[a..a + n];
    }
  }

  /** A directory written into a file is read back from its start. */
  lemma DirectoryRoundTrip(
    t: Bytes, o: nat, w: Bytes, all: seq<Entry>, offsets: seq<nat>, base: nat, pool: Bytes, pool': Bytes, whole: Bytes)
    requires Written(w, all, offsets, base, pool, pool') && AllValid(all) && |all| < 65536
    requires StandsAt(t, o, w) && pool' <= whole && StandsAt(t, base, whole) && |t| < 4294967296
    ensures |w| == 2 + 12 * |all| + 4 && o + |w| <= |t| && Word(t, o) == |all|
    ensures ReadIfd(t, o) == Some(Meanings(all))
    ensures Packed(Spans(t, o + 2, |all|), base + |pool|, base + |pool'|)
  {
    hide Packed, EncodeAll, Word, Long, ReadFields, Spans, Placed, PoolStands, AllValid, StandsAt;
    var body := EncodeAll(all, offsets);
    EncodedLength(all, offsets);
    PartsStandAt(t, o, U16(|all|) + body, U32(0));
    PartsStandAt(t, o, U16(|all|), body);
    StandsIs(t, o, w);
    NumbersStandAt(t, o, |all|);
    PoolIsThere(t, all, offsets, base, pool', whole);
    EntriesRoundTrip(t, o + 2, all, offsets);
  }
}
