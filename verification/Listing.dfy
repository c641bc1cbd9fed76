/** ListPhotoViews (internal/store/photoview.go:102-173, :321-374): count and page from one predicate,
    under an ordering that always ends in the photo id. */
module Listing {
  import opened Options
  import opened Sorting
  import opened Ranking
  import opened Filter

  datatype Column = RelativePath | CapturedAt | FileSize | QualityScore | CreatedAt

  datatype Order = Order(column: Column, nullsLast: bool, descending: bool)

  /** The allow-list of sort keys. */
  function SortColumn(key: string): Option<Order> {
    if key == "path" then Some(Order(RelativePath, false, false))
    else if key == "captured_at" then Some(Order(CapturedAt, true, false))
    else if key == "file_size" then Some(Order(FileSize, false, false))
    else if key == "quality" then Some(Order(QualityScore, true, false))
    else if key == "created_at" then Some(Order(CreatedAt, false, false))
    else None
  }

  datatype Query = Query(filter: PhotoFilter, sort: string, descending: bool, limit: int, offset: int)

  function OrderOf(q: Query): Order {
    var order := if SortColumn(q.sort).Some? then SortColumn(q.sort).value else Order(RelativePath, false, false);
    order.(descending := q.descending)
  }

  function LimitOf(q: Query): int { if q.limit <= 0 || q.limit > 500 then 100 else q.limit }

  function OffsetOf(q: Query): int { if q.offset < 0 then 0 else q.offset }

  // ----- ORDER BY -----

  datatype Key = Null | Whole(n: int) | Score(x: real) | Words(text: string)

  function KeyOf(c: Column, p: Photo): Key {
    match c
    case RelativePath => Words(p.relativePath)
    case CapturedAt => if p.capturedAt.None? then Null else Whole(p.capturedAt.value)
    case FileSize => Whole(p.fileSize)
    case QualityScore => if p.qualityScore.None? then Null else Score(p.qualityScore.value)
    case CreatedAt => Whole(p.createdAt)
  }

  predicate KeyLess(text: Collation, a: Key, b: Key) {
    (a.Whole? && b.Whole? && a.n < b.n)
    || (a.Score? && b.Score? && a.x < b.x)
    || (a.Words? && b.Words? && text(a.text, b.text))
  }

  /** PostgreSQL puts NULL above every value unless NULLS LAST says otherwise. */
  predicate NullsFirst(order: Order) { order.descending && !order.nullsLast }

  predicate RowBefore(order: Order, text: Collation, a: Photo, b: Photo) {
    var x, y := KeyOf(order.column, a), KeyOf(order.column, b);
    if x == y then StrLess(a.id, b.id)
    else if x.Null? || y.Null? then x.Null? == NullsFirst(order)
    else if order.descending then KeyLess(text, y, x) else KeyLess(text, x, y)
  }

  function Before(order: Order, text: Collation): (Photo, Photo) -> bool {
    (a, b) => RowBefore(order, text, a, b)
  }

  ghost predicate DistinctIds(table: seq<Photo>) {
    forall a, b :: a in table && b in table && a != b ==> a.id != b.id
  }

  /** Any two different keys of a column compare, one way and transitively. */
  lemma KeysCompare(text: Collation, c: Column, p: Photo, q: Photo, r: Photo)
    requires TotalOrder(text)
    ensures var x, y, z := KeyOf(c, p), KeyOf(c, q), KeyOf(c, r);
      !x.Null? && !y.Null? ==>
        (x != y ==> KeyLess(text, x, y) != KeyLess(text, y, x))
        && (!z.Null? && KeyLess(text, x, y) && KeyLess(text, y, z) ==> KeyLess(text, x, z))
        && !KeyLess(text, x, x)
  {}

  lemma RowsCompare(order: Order, text: Collation, a: Photo, b: Photo)
    requires TotalOrder(text)
    ensures RowBefore(order, text, a, b) ==> !RowBefore(order, text, b, a)
    ensures a.id != b.id ==> RowBefore(order, text, a, b) || RowBefore(order, text, b, a)
  {
    hide TotalOrder, KeyOf, KeyLess;
    KeysCompare(text, order.column, a, b, b);
    StrTrichotomy(a.id, b.id);
  }

  lemma RowsChain(order: Order, text: Collation, a: Photo, b: Photo, c: Photo)
    requires TotalOrder(text) && !RowBefore(order, text, a, b) && !RowBefore(order, text, b, c)
    ensures !RowBefore(order, text, a, c)
  {
    hide TotalOrder, KeyOf, KeyLess;
    var col := order.column;
    KeysCompare(text, col, a, b, c);
    KeysCompare(text, col, c, b, a);
    KeysCompare(text, col, a, c, c);
    KeysCompare(text, col, b, c, c);
    if KeyOf(col, a) == KeyOf(col, b) == KeyOf(col, c) { NotStrLessTransitive(a.id, b.id, c.id); }
  }

  /** Every ordering ends in the id, so it is total: rows with distinct ids have one order only. */
  lemma OrderingIsTotal(order: Order, text: Collation, rows: seq<Photo>)
    requires TotalOrder(text)
    ensures WeakOrder(rows, Before(order, text))
    ensures DistinctIds(rows) ==> Connex(rows, Before(order, text))
  {
    hide RowBefore, TotalOrder;
    var less := Before(order, text);
    forall a, b | a in rows && b in rows && less(a, b) ensures !less(b, a) { RowsCompare(order, text, a, b); }
    forall a, b, c | a in rows && b in rows && c in rows && !less(a, b) && !less(b, c) ensures !less(a, c) {
      RowsChain(order, text, a, b, c);
    }
    if DistinctIds(rows) {
      forall a, b | a in rows && b in rows && a != b ensures less(a, b) || less(b, a) {
        RowsCompare(order, text, a, b);
      }
    }
  }

  // ----- the statements -----

  /** The rows a WHERE clause keeps, in table order. */
  function Kept(clauses: seq<Clause>, args: seq<Value>, table: seq<Photo>, db: Database): seq<Photo>
    requires AllAccepted(clauses, args)
  {
    if table == [] then [] else
      var p := table[|table| - 1];
      Kept(clauses, args, table[..|table| - 1], db) + if Where(clauses, args, p, db) == True then [p] else []
  }

  ghost function WantedRows(f: PhotoFilter, libraryId: string, table: seq<Photo>, db: Database): seq<Photo> {
    if table == [] then [] else
      var p := table[|table| - 1];
      WantedRows(f, libraryId, table[..|table| - 1], db) + if Wanted(f, libraryId, p, db) then [p] else []
  }

  function Slice(rows: seq<Photo>, limit: nat, offset: nat): seq<Photo> {
    var from := if offset > |rows| then |rows| else offset;
    rows[from..if from + limit > |rows| then |rows| else from + limit]
  }

  /** SELECT count(*); None when the database rejects the statement. */
  method CountRows(clauses: seq<Clause>, args: seq<Value>, table: seq<Photo>, db: Database) returns (n: Option<nat>)
    ensures n == if AllAccepted(clauses, args) then Some(|Kept(clauses, args, table, db)|) else None
  {
    if !AllAccepted(clauses, args) {
      return None;
    }
    n := Some(|Kept(clauses, args, table, db)|);
  }

  predicate BindsLimit(args: seq<Value>, k: nat) {
    1 <= k <= |args| && args[k - 1].Number? && args[k - 1].n >= 0
  }

  /** SELECT ... ORDER BY ... LIMIT $limitArg OFFSET $offsetArg. */
  method SelectPage(clauses: seq<Clause>, args: seq<Value>, order: Order, limitArg: nat, offsetArg: nat,
                    table: seq<Photo>, db: Database, text: Collation)
    returns (page: Option<seq<Photo>>, ghost all: seq<Photo>)
    requires TotalOrder(text)
    ensures page.Some? <==> AllAccepted(clauses, args) && BindsLimit(args, limitArg) && BindsLimit(args, offsetArg)
    ensures page.Some? ==>
      multiset(all) == multiset(Kept(clauses, args, table, db)) && Ordered(all, Before(order, text))
      && page.value == Slice(all, args[limitArg - 1].n, args[offsetArg - 1].n)
  {
    hide WeakOrder, Ordered, Before, TotalOrder, Connex;
    if !AllAccepted(clauses, args) || !BindsLimit(args, limitArg) || !BindsLimit(args, offsetArg) {
      page, all := None, [];
      return;
    }
    var kept := Kept(clauses, args, table, db);
    OrderingIsTotal(order, text, kept);
    var sorted := SortSlice(kept, Before(order, text));
    all := sorted;
    page := Some(Slice(sorted, args[limitArg - 1].n, args[offsetArg - 1].n));
  }

  /** A full listing: the wanted rows of the table, each once, in order. */
  ghost predicate IsListing(all: seq<Photo>, q: Query, libraryId: string, table: seq<Photo>, db: Database, text: Collation) {
    multiset(all) == multiset(WantedRows(q.filter, libraryId, table, db)) && Ordered(all, Before(OrderOf(q), text))
  }

  /** Rows with a measured key come first, in the direction asked for; the others last; rows level with
      each other in id order. */
  ghost predicate Sorted(a: Photo, b: Photo, x: Option<real>, y: Option<real>, descending: bool) {
    if x.Some? && y.Some? && x != y then (if descending then x.value > y.value else x.value < y.value)
    else if x.Some? != y.Some? then x.Some?
    else !StrLess(b.id, a.id)
  }

  ghost predicate SortedByText(a: Photo, b: Photo, p: string, q: string, descending: bool, text: Collation) {
    if p != q then (if descending then !text(p, q) else !text(q, p)) else !StrLess(b.id, a.id)
  }

  function Known(n: int): Option<real> { Some(n as real) }

  /** What the sort key and the direction ask of two rows, the first before the second; a key that is not
      on the list asks for paths. */
  ghost predicate InOrder(sort: string, descending: bool, text: Collation, a: Photo, b: Photo) {
    if sort == "captured_at" then
      Sorted(a, b, if a.capturedAt.Some? then Known(a.capturedAt.value) else None,
             if b.capturedAt.Some? then Known(b.capturedAt.value) else None, descending)
    else if sort == "quality" then Sorted(a, b, a.qualityScore, b.qualityScore, descending)
    else if sort == "file_size" then Sorted(a, b, Known(a.fileSize), Known(b.fileSize), descending)
    else if sort == "created_at" then Sorted(a, b, Known(a.createdAt), Known(b.createdAt), descending)
    else SortedByText(a, b, a.relativePath, b.relativePath, descending, text)
  }

  lemma ListedInOrder(q: Query, text: Collation, all: seq<Photo>)
    requires Ordered(all, Before(OrderOf(q), text))
    ensures forall i, j :: 0 <= i < j < |all| ==> InOrder(q.sort, q.descending, text, all[i], all[j])
  {
    hide StrLess;
    forall i, j | 0 <= i < j < |all| ensures InOrder(q.sort, q.descending, text, all[i], all[j]) {
      assert !Before(OrderOf(q), text)(all[j], all[i]);
      NotBefore(q, text, all[i], all[j]);
    }
  }

  lemma NotBefore(q: Query, text: Collation, a: Photo, b: Photo)
    requires !RowBefore(OrderOf(q), text, b, a)
    ensures InOrder(q.sort, q.descending, text, a, b)
  {
    hide StrLess;
  }

  /** The page starts at the offset, a negative one counting as zero, and holds as many rows as asked for,
      a hundred when that is not between 1 and 500, or as many as there are. */
  ghost predicate IsPageOf(page: seq<Photo>, all: seq<Photo>, limit: int, offset: int) {
    var from := if offset > 0 then offset else 0;
    var most := if 1 <= limit <= 500 then limit else 100;
    && |page| == (if |all| <= from then 0 else if |all| - from <= most then |all| - from else most)
    && forall k :: 0 <= k < |page| && from + k < |all| ==> page[k] == all[from + k]
  }

  /** The page is cut from the listing the total counts; only an unknown state makes the call fail. */
  method ListPhotoViews(libraryId: string, q: Query, table: seq<Photo>, db: Database, text: Collation)
    returns (page: Option<seq<Photo>>, total: nat, ghost all: seq<Photo>)
    requires TotalOrder(text)
    ensures page.Some? <==> q.filter.state in {"", "discovered", "processing", "ready", "missing", "failed"}
    ensures page.Some? ==> IsListing(all, q, libraryId, table, db, text)
    ensures page.Some? ==> page.value == Slice(all, LimitOf(q), OffsetOf(q)) && total == |all|
    ensures page.Some? ==> IsPageOf(page.value, all, q.limit, q.offset)
    ensures page.Some? ==> forall i, j :: 0 <= i < j < |all| ==> InOrder(q.sort, q.descending, text, all[i], all[j])
  {
    StatesAccepted(q.filter);
    hide Means, NumberedInSequence, Ordered, Before, TotalOrder, Acceptable, InOrder, IsPageOf, Slice;
    var where, args := Predicate(q.filter, libraryId);
    total, all := 0, [];
    var counted := CountRows(where, args, table, db);
    AcceptedIff(where, args, q.filter, libraryId);
    if counted.None? {
      return None, 0, [];
    }
    total := counted.value;
    var bound := args + [Number(LimitOf(q)), Number(OffsetOf(q))];
    assert bound[|args|] == Number(LimitOf(q)) && bound[|args| + 1] == Number(OffsetOf(q));
    SpareArgumentsKept(where, args, bound[|args|..], table, db);
    assert args + bound[|args|..] == bound;
    page, all := SelectPage(where, bound, OrderOf(q), |args| + 1, |args| + 2, table, db, text);
    KeptAreWanted(where, args, q.filter, libraryId, table, db);
    assert |multiset(all)| == |all|;
    assert |multiset(Kept(where, args, table, db))| == total;
    ListedInOrder(q, text, all);
    SliceIsPage(q, all);
  }

  lemma SliceIsPage(q: Query, all: seq<Photo>)
    ensures IsPageOf(Slice(all, LimitOf(q), OffsetOf(q)), all, q.limit, q.offset)
  {}

  lemma StatesAccepted(f: PhotoFilter)
    ensures Acceptable(f) <==> f.state in {"", "discovered", "processing", "ready", "missing", "failed"}
  {}

  lemma AcceptedIff(clauses: seq<Clause>, args: seq<Value>, f: PhotoFilter, libraryId: string)
    requires Means(clauses, args, f, libraryId)
    ensures AllAccepted(clauses, args) <==> Acceptable(f)
  {}

  lemma {:induction false} SpareArgumentsKept(
    clauses: seq<Clause>, args: seq<Value>, more: seq<Value>, table: seq<Photo>, db: Database)
    requires AllAccepted(clauses, args)
    ensures AllAccepted(clauses, args + more)
    ensures Kept(clauses, args + more, table, db) == Kept(clauses, args, table, db)
  {
    hide Where, AllAccepted;
    SpareArguments(clauses, args, more, Photo("", "", "", "", {}, None, None, None, 0, None, 0), db);
    if table != [] {
      SpareArgumentsKept(clauses, args, more, table[..|table| - 1], db);
      SpareArguments(clauses, args, more, table[|table| - 1], db);
    }
  }

  lemma {:induction false} KeptAreWanted(
    clauses: seq<Clause>, args: seq<Value>, f: PhotoFilter, libraryId: string, table: seq<Photo>, db: Database)
    requires Means(clauses, args, f, libraryId) && AllAccepted(clauses, args)
    ensures Kept(clauses, args, table, db) == WantedRows(f, libraryId, table, db)
  {
    hide Where, Wanted, AllAccepted, Acceptable;
    if table != [] { KeptAreWanted(clauses, args, f, libraryId, table[..|table| - 1], db); }
  }

  // ----- paging -----

  lemma {:induction false} WantedRowsAre(f: PhotoFilter, libraryId: string, table: seq<Photo>, db: Database, p: Photo)
    ensures p in WantedRows(f, libraryId, table, db) <==> p in table && Wanted(f, libraryId, p, db)
  {
    hide Wanted;
    if table != [] {
      WantedRowsAre(f, libraryId, table[..|table| - 1], db, p);
      assert table == table[..|table| - 1] + [table[|table| - 1]];
    }
  }

  /** Two calls over the same rows see the same listing, so their pages fit together. */
  lemma ListingIsUnique(
    q: Query, libraryId: string, table: seq<Photo>, db: Database, text: Collation, a: seq<Photo>, b: seq<Photo>)
    requires TotalOrder(text) && DistinctIds(table)
    requires IsListing(a, q, libraryId, table, db, text) && IsListing(b, q, libraryId, table, db, text)
    ensures a == b
  {
    hide Wanted, Before, Ordered, WeakOrder, Connex, WantedRows;
    forall p | p in a ensures p in table {
      WantedRowsAre(q.filter, libraryId, table, db, p);
      assert p in multiset(a);
    }
    OrderingIsTotal(OrderOf(q), text, a);
    OrderedUnique(a, b, Before(OrderOf(q), text));
  }

  function Pages(all: seq<Photo>, limit: nat, n: nat): seq<Photo> {
    if n == 0 then [] else Pages(all, limit, n - 1) + Slice(all, limit, (n - 1) * limit)
  }

  /** Consecutive pages repeat nothing and skip nothing: n pages are the first n * limit rows. */
  lemma {:induction false} PagesTile(all: seq<Photo>, limit: nat, n: nat)
    ensures Pages(all, limit, n) == all[..if n * limit > |all| then |all| else n * limit]
  {
    if n > 0 {
      PagesTile(all, limit, n - 1);
      assert n * limit == (n - 1) * limit + limit;
    }
  }

  /** "Not measured" never precedes a measurement, in either direction. */
  lemma UnmeasuredLast(q: Query, text: Collation, all: seq<Photo>, i: nat, j: nat)
    requires Ordered(all, Before(OrderOf(q), text)) && i < j < |all|
    ensures KeyOf(OrderOf(q).column, all[i]).Null? ==> KeyOf(OrderOf(q).column, all[j]).Null?
  {
    hide KeyLess;
    assert !Before(OrderOf(q), text)(all[j], all[i]);
  }
}
