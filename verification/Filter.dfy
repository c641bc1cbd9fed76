/** The photo filter (internal/store/photoview.go:81-231): from optional fields to a list of SQL clauses
    with numbered placeholders, and what the database makes of them. */
module Filter {
  import opened Options
  import opened Like

  /** The columns of a photo row that listings filter and sort by; None is SQL's NULL. */
  datatype Photo = Photo(
    id: string, libraryId: string, relativePath: string, state: string, qualityFlags: set<string>,
    capturedAt: Option<int>, latitude: Option<real>, longitude: Option<real>,
    fileSize: int, qualityScore: Option<real>, createdAt: int)

  /** The two membership tables, as the sets of photo ids they mention. */
  datatype Groups = Groups(duplicates: set<string>, similar: set<string>)

  /** One database: membership tables and the case folding of ILIKE. */
  datatype Database = Database(groups: Groups, fold: char -> char)

  datatype PhotoFilter = PhotoFilter(
    state: string, flag: string, hasGps: Option<bool>, hasFlags: Option<bool>,
    hasDuplicates: Option<bool>, hasSimilar: Option<bool>,
    capturedFrom: Option<int>, capturedTo: Option<int>, pathContains: string)

  const NO_FILTER := PhotoFilter("", "", None, None, None, None, None, None, "")

  const PHOTO_STATES := {"discovered", "processing", "ready", "missing", "failed"}

  // ----- what the caller means -----

  predicate Asked(want: Option<bool>, fact: bool) {
    want.None? || want.value == fact
  }

  ghost predicate Wanted(f: PhotoFilter, libraryId: string, p: Photo, db: Database) {
    && p.libraryId == libraryId
    && (f.state == "" || p.state == f.state)
    && (f.flag == "" || f.flag in p.qualityFlags)
    && (f.capturedFrom.None? || (p.capturedAt.Some? && p.capturedAt.value >= f.capturedFrom.value))
    && (f.capturedTo.None? || (p.capturedAt.Some? && p.capturedAt.value <= f.capturedTo.value))
    && (f.pathContains == "" || Occurs(f.pathContains, p.relativePath, db.fold))
    && Asked(f.hasGps, p.latitude.Some? && p.longitude.Some?)
    && Asked(f.hasFlags, p.qualityFlags != {})
    && Asked(f.hasDuplicates, p.id in db.groups.duplicates)
    && Asked(f.hasSimilar, p.id in db.groups.similar)
  }

  /** Only an unknown state makes the query fail: the cast to the enum rejects it. */
  predicate Acceptable(f: PhotoFilter) {
    f.state == "" || f.state in PHOTO_STATES
  }

  // ----- the clauses -----

  datatype Value = Text(text: string) | Moment(at: int) | Number(n: int)

  datatype Operator =
    | LibraryIs | StateIs | CarriesFlag | CapturedAtLeast | CapturedAtMost | PathLike
    | LocationPresent | LocationMissing | SomeFlags | NoFlags
    | InDuplicates | NotInDuplicates | InSimilar | NotInSimilar

  /** arg is the placeholder's number, counted from one. */
  datatype Clause = Clause(op: Operator, arg: Option<nat>)

  datatype Truth = True | False | Unknown

  function Known(b: bool): Truth { if b then True else False }

  /** SQL's AND. */
  function Both(a: Truth, b: Truth): Truth {
    if a == False || b == False then False else if a == Unknown || b == Unknown then Unknown else True
  }

  predicate BindsText(c: Clause, args: seq<Value>) {
    c.arg.Some? && 1 <= c.arg.value <= |args| && args[c.arg.value - 1].Text?
  }

  predicate BindsMoment(c: Clause, args: seq<Value>) {
    c.arg.Some? && 1 <= c.arg.value <= |args| && args[c.arg.value - 1].Moment?
  }

  /** The database accepts the clause: its placeholder is bound, to a value it can cast and parse. */
  predicate Accepted(c: Clause, args: seq<Value>) {
    match c.op
    case LibraryIs | CarriesFlag => BindsText(c, args)
    case StateIs => BindsText(c, args) && args[c.arg.value - 1].text in PHOTO_STATES
    case CapturedAtLeast | CapturedAtMost => BindsMoment(c, args)
    case PathLike => BindsText(c, args) && Parse([WILDCARD] + args[c.arg.value - 1].text + [WILDCARD]).Some?
    case _ => c.arg.None?
  }

  /** One clause on one row. Comparing NULL yields Unknown. */
  function Eval(c: Clause, args: seq<Value>, p: Photo, db: Database): Truth
    requires Accepted(c, args)
  {
    match c.op
    case LibraryIs => Known(p.libraryId == args[c.arg.value - 1].text)
    case StateIs => Known(p.state == args[c.arg.value - 1].text)
    case CarriesFlag => Known(args[c.arg.value - 1].text in p.qualityFlags)
    case CapturedAtLeast =>
      if p.capturedAt.None? then Unknown else Known(p.capturedAt.value >= args[c.arg.value - 1].at)
    case CapturedAtMost =>
      if p.capturedAt.None? then Unknown else Known(p.capturedAt.value <= args[c.arg.value - 1].at)
    case PathLike =>
      Known(Matches(Parse([WILDCARD] + args[c.arg.value - 1].text + [WILDCARD]).value, p.relativePath, db.fold))
    case LocationPresent => Both(Known(p.latitude.Some?), Known(p.longitude.Some?))
    case LocationMissing => Known(p.latitude.None? || p.longitude.None?)
    case SomeFlags => Known(p.qualityFlags != {})
    case NoFlags => Known(p.qualityFlags == {})
    case InDuplicates => Known(p.id in db.groups.duplicates)
    case NotInDuplicates => Known(p.id !in db.groups.duplicates)
    case InSimilar => Known(p.id in db.groups.similar)
    case NotInSimilar => Known(p.id !in db.groups.similar)
  }

  predicate AllAccepted(clauses: seq<Clause>, args: seq<Value>) {
    forall i :: 0 <= i < |clauses| ==> Accepted(clauses[i], args)
  }

  /** The joined WHERE condition on one row. */
  function Where(clauses: seq<Clause>, args: seq<Value>, p: Photo, db: Database): Truth
    requires AllAccepted(clauses, args)
  {
    if clauses == [] then True
    else Both(Where(clauses[..|clauses| - 1], args, p, db), Eval(clauses[|clauses| - 1], args, p, db))
  }

  function Placeholders(clauses: seq<Clause>): seq<nat> {
    if clauses == [] then [] else
      var c := clauses[|clauses| - 1];
      Placeholders(clauses[..|clauses| - 1]) + if c.arg.Some? then [c.arg.value] else []
  }

  /** Read left to right, the placeholders are $1, $2, ... and there are as many as arguments. */
  predicate NumberedInSequence(clauses: seq<Clause>, args: seq<Value>) {
    Placeholders(clauses) == seq(|args|, i requires 0 <= i < |args| => i + 1)
  }

  /** The clauses accept exactly the acceptable filters, and then keep exactly the wanted rows. */
  ghost predicate Means(clauses: seq<Clause>, args: seq<Value>, f: PhotoFilter, libraryId: string) {
    && (AllAccepted(clauses, args) <==> Acceptable(f))
    && (AllAccepted(clauses, args) ==>
          forall p, db :: Where(clauses, args, p, db) == True <==> Wanted(f, libraryId, p, db))
  }

  // ----- one more clause -----

  /** Within the arguments `args`, the clause adds to `f` exactly what `g` asks beyond it. */
  ghost predicate Narrows(c: Clause, args: seq<Value>, f: PhotoFilter, g: PhotoFilter, libraryId: string) {
    && (Acceptable(g) <==> Acceptable(f) && Accepted(c, args))
    && (Accepted(c, args) ==> forall p, db ::
          Wanted(g, libraryId, p, db) <==> Wanted(f, libraryId, p, db) && Eval(c, args, p, db) == True)
  }

  lemma {:induction false} SpareArguments(clauses: seq<Clause>, args: seq<Value>, more: seq<Value>, p: Photo, db: Database)
    requires AllAccepted(clauses, args)
    ensures AllAccepted(clauses, args + more)
    ensures Where(clauses, args + more, p, db) == Where(clauses, args, p, db)
  {
    if clauses != [] {
      var n := |clauses| - 1;
      SpareArguments(clauses[..n], args, more, p, db);
      assert Accepted(clauses[n], args);
      assert forall i :: 0 <= i < n ==> clauses[i] == clauses[..n][i];
    }
  }

  lemma {:induction false} NoSpareAccepted(clauses: seq<Clause>, args: seq<Value>, more: seq<Value>)
    requires NumberedInSequence(clauses, args) && AllAccepted(clauses, args + more)
    ensures AllAccepted(clauses, args)
  {
    forall i | 0 <= i < |clauses| ensures Accepted(clauses[i], args) {
      assert Accepted(clauses[i], args + more);
      if clauses[i].arg.Some? { PlaceholderListed(clauses, i); }
    }
  }

  lemma {:induction false} PlaceholderListed(clauses: seq<Clause>, i: nat)
    requires i < |clauses| && clauses[i].arg.Some?
    ensures clauses[i].arg.value in Placeholders(clauses)
  {
    if i < |clauses| - 1 { PlaceholderListed(clauses[..|clauses| - 1], i); }
  }

  lemma Numbering(clauses: seq<Clause>, args: seq<Value>, c: Clause, v: Value)
    requires NumberedInSequence(clauses, args)
    ensures c.arg == Some(|args| + 1) ==> NumberedInSequence(clauses + [c], args + [v])
    ensures c.arg == None ==> NumberedInSequence(clauses + [c], args)
  {
    assert (clauses + [c])[..|clauses|] == clauses;
  }

  lemma OneMoreClause(
    clauses: seq<Clause>, args: seq<Value>, c: Clause, more: seq<Value>, f: PhotoFilter, g: PhotoFilter, libraryId: string)
    requires NumberedInSequence(clauses, args) && Means(clauses, args, f, libraryId)
    requires Narrows(c, args + more, f, g, libraryId)
    ensures Means(clauses + [c], args + more, g, libraryId)
  {
    hide Eval, Wanted, Accepted, NumberedInSequence, Acceptable;
    var longer, all := clauses + [c], args + more;
    assert longer[..|clauses|] == clauses && longer[|clauses|] == c;
    if AllAccepted(longer, all) {
      assert AllAccepted(clauses, all) by {
        forall i | 0 <= i < |clauses| ensures Accepted(clauses[i], all) { assert Accepted(longer[i], all); }
      }
      NoSpareAccepted(clauses, args, more);
    }
    if Acceptable(g) {
      AcceptedTogether(clauses, args, c, more);
      forall p, db ensures Where(longer, all, p, db) == True <==> Wanted(g, libraryId, p, db) {
        SpareArguments(clauses, args, more, p, db);
      }
    }
  }

  lemma AcceptedTogether(clauses: seq<Clause>, args: seq<Value>, c: Clause, more: seq<Value>)
    requires AllAccepted(clauses, args) && Accepted(c, args + more)
    ensures AllAccepted(clauses + [c], args + more)
  {
    var p := Photo("", "", "", "", {}, None, None, None, 0, None, 0);
    SpareArguments(clauses, args, more, p, Database(Groups({}, {}), x => x));
  }

  /** The closure of the builder: bind a value and use its number. */
  method Add(clauses: seq<Clause>, args: seq<Value>, op: Operator, v: Value,
             ghost f: PhotoFilter, ghost g: PhotoFilter, ghost libraryId: string)
    returns (clauses': seq<Clause>, args': seq<Value>)
    requires NumberedInSequence(clauses, args) && Means(clauses, args, f, libraryId)
    requires Narrows(Clause(op, Some(|args| + 1)), args + [v], f, g, libraryId)
    ensures NumberedInSequence(clauses', args') && Means(clauses', args', g, libraryId)
    ensures args' == args + [v] && |clauses'| == |clauses| + 1
  {
    hide Narrows, Means, NumberedInSequence;
    var c := Clause(op, Some(|args| + 1));
    Numbering(clauses, args, c, v);
    OneMoreClause(clauses, args, c, [v], f, g, libraryId);
    args' := args + [v];
    clauses' := clauses + [c];
  }

  /** A clause without a placeholder: the positive or the negative test of a presence filter. */
  method AddPresence(clauses: seq<Clause>, args: seq<Value>, want: bool, yes: Operator, no: Operator,
                     ghost f: PhotoFilter, ghost g: PhotoFilter, ghost libraryId: string)
    returns (clauses': seq<Clause>)
    requires NumberedInSequence(clauses, args) && Means(clauses, args, f, libraryId)
    requires Narrows(Clause(if want then yes else no, None), args, f, g, libraryId)
    ensures NumberedInSequence(clauses', args) && Means(clauses', args, g, libraryId)
  {
    hide Narrows, Means, NumberedInSequence;
    var c := Clause(if want then yes else no, None);
    Numbering(clauses, args, c, Number(0));
    assert args + [] == args;
    OneMoreClause(clauses, args, c, [], f, g, libraryId);
    clauses' := clauses + [c];
  }

  lemma FirstClause(libraryId: string)
    ensures var clauses, args := [Clause(LibraryIs, Some(1))], [Text(libraryId)];
      NumberedInSequence(clauses, args) && Means(clauses, args, NO_FILTER, libraryId)
  {
    var clauses, args := [Clause(LibraryIs, Some(1))], [Text(libraryId)];
    assert clauses[..0] == [];
    assert Placeholders(clauses) == [1];
    assert forall p, db :: Where(clauses, args, p, db) == Both(Where(clauses[..0], args, p, db), Eval(clauses[0], args, p, db));
  }

  lemma NarrowsPath(args: seq<Value>, f: PhotoFilter, s: string, libraryId: string)
    requires f.pathContains == "" && s != ""
    ensures Narrows(Clause(PathLike, Some(|args| + 1)), args + [Text(EscapeLike(s))], f, f.(pathContains := s), libraryId)
  {
    hide Parse, Matches, Occurs, EscapeLike;
    var c, all, g := Clause(PathLike, Some(|args| + 1)), args + [Text(EscapeLike(s))], f.(pathContains := s);
    EscapedSearchIsSubstring(s, "", x => x);
    assert all[|args|].text == EscapeLike(s);
    forall p, db ensures Wanted(g, libraryId, p, db) <==> Wanted(f, libraryId, p, db) && Eval(c, all, p, db) == True {
      EscapedSearchIsSubstring(s, p.relativePath, db.fold);
    }
  }

  lemma NarrowsText(args: seq<Value>, f: PhotoFilter, s: string, libraryId: string)
    requires s != ""
    ensures f.state == "" ==>
      Narrows(Clause(StateIs, Some(|args| + 1)), args + [Text(s)], f, f.(state := s), libraryId)
    ensures f.flag == "" ==>
      Narrows(Clause(CarriesFlag, Some(|args| + 1)), args + [Text(s)], f, f.(flag := s), libraryId)
  {
    hide Occurs;
    assert (args + [Text(s)])[|args|] == Text(s);
  }

  lemma NarrowsTime(args: seq<Value>, f: PhotoFilter, t: int, libraryId: string)
    ensures f.capturedFrom == None ==>
      Narrows(Clause(CapturedAtLeast, Some(|args| + 1)), args + [Moment(t)], f, f.(capturedFrom := Some(t)), libraryId)
    ensures f.capturedTo == None ==>
      Narrows(Clause(CapturedAtMost, Some(|args| + 1)), args + [Moment(t)], f, f.(capturedTo := Some(t)), libraryId)
  {
    hide Occurs;
    assert (args + [Moment(t)])[|args|] == Moment(t);
  }

  lemma NarrowsPresence(args: seq<Value>, f: PhotoFilter, want: bool, libraryId: string)
    ensures f.hasGps == None ==>
      Narrows(Clause(if want then LocationPresent else LocationMissing, None), args, f, f.(hasGps := Some(want)), libraryId)
    ensures f.hasFlags == None ==>
      Narrows(Clause(if want then SomeFlags else NoFlags, None), args, f, f.(hasFlags := Some(want)), libraryId)
  {
    hide Occurs;
  }

  lemma NarrowsMembership(args: seq<Value>, f: PhotoFilter, want: bool, libraryId: string)
    ensures f.hasDuplicates == None ==>
      Narrows(Clause(if want then InDuplicates else NotInDuplicates, None), args,
              f, f.(hasDuplicates := Some(want)), libraryId)
    ensures f.hasSimilar == None ==>
      Narrows(Clause(if want then InSimilar else NotInSimilar, None), args, f, f.(hasSimilar := Some(want)), libraryId)
  {
    hide Occurs;
  }

  /** The presence filters, the second half of the builder. */
  method PresenceFilters(clauses0: seq<Clause>, args: seq<Value>, f: PhotoFilter, libraryId: string)
    returns (clauses: seq<Clause>)
    requires NumberedInSequence(clauses0, args)
    requires Means(clauses0, args, f.(hasGps := None, hasFlags := None, hasDuplicates := None, hasSimilar := None), libraryId)
    ensures NumberedInSequence(clauses, args)
    ensures Means(clauses, args, f, libraryId)
  {
    hide Means, Narrows, NumberedInSequence;
    clauses := clauses0;
    ghost var g := f.(hasGps := None, hasFlags := None, hasDuplicates := None, hasSimilar := None);
    if f.hasGps.Some? {
      NarrowsPresence(args, g, f.hasGps.value, libraryId);
      clauses := AddPresence(clauses, args, f.hasGps.value, LocationPresent, LocationMissing,
                             g, g.(hasGps := f.hasGps), libraryId);
    }
    g := g.(hasGps := f.hasGps);
    if f.hasFlags.Some? {
      NarrowsPresence(args, g, f.hasFlags.value, libraryId);
      clauses := AddPresence(clauses, args, f.hasFlags.value, SomeFlags, NoFlags,
                             g, g.(hasFlags := f.hasFlags), libraryId);
    }
    g := g.(hasFlags := f.hasFlags);
    if f.hasDuplicates.Some? {
      NarrowsMembership(args, g, f.hasDuplicates.value, libraryId);
      clauses := AddPresence(clauses, args, f.hasDuplicates.value, InDuplicates, NotInDuplicates,
                             g, g.(hasDuplicates := f.hasDuplicates), libraryId);
    }
    g := g.(hasDuplicates := f.hasDuplicates);
    if f.hasSimilar.Some? {
      NarrowsMembership(args, g, f.hasSimilar.value, libraryId);
      clauses := AddPresence(clauses, args, f.hasSimilar.value, InSimilar, NotInSimilar,
                             g, g.(hasSimilar := f.hasSimilar), libraryId);
    }
    assert g.(hasSimilar := f.hasSimilar) == f;
  }

  /** The WHERE clause and its arguments. */
  method Predicate(f: PhotoFilter, libraryId: string) returns (clauses: seq<Clause>, args: seq<Value>)
    ensures NumberedInSequence(clauses, args)
    ensures Means(clauses, args, f, libraryId)
  {
    hide Means, Narrows, NumberedInSequence, EscapeLike;
    args := [Text(libraryId)];
    clauses := [Clause(LibraryIs, Some(1))];
    FirstClause(libraryId);
    ghost var g := NO_FILTER;
    if f.state != "" {
      NarrowsText(args, g, f.state, libraryId);
      clauses, args := Add(clauses, args, StateIs, Text(f.state), g, g.(state := f.state), libraryId);
    }
    g := g.(state := f.state);
    if f.flag != "" {
      NarrowsText(args, g, f.flag, libraryId);
      clauses, args := Add(clauses, args, CarriesFlag, Text(f.flag), g, g.(flag := f.flag), libraryId);
    }
    g := g.(flag := f.flag);
    if f.capturedFrom.Some? {
      NarrowsTime(args, g, f.capturedFrom.value, libraryId);
      clauses, args := Add(clauses, args, CapturedAtLeast, Moment(f.capturedFrom.value),
                           g, g.(capturedFrom := f.capturedFrom), libraryId);
    }
    g := g.(capturedFrom := f.capturedFrom);
    if f.capturedTo.Some? {
      NarrowsTime(args, g, f.capturedTo.value, libraryId);
      clauses, args := Add(clauses, args, CapturedAtMost, Moment(f.capturedTo.value),
                           g, g.(capturedTo := f.capturedTo), libraryId);
    }
    g := g.(capturedTo := f.capturedTo);
    if f.pathContains != "" {
      NarrowsPath(args, g, f.pathContains, libraryId);
      clauses, args := Add(clauses, args, PathLike, Text(EscapeLike(f.pathContains)),
                           g, g.(pathContains := f.pathContains), libraryId);
    }
    g := g.(pathContains := f.pathContains);
    clauses := PresenceFilters(clauses, args, f, libraryId);
  }
}
