/** Substring search through LIKE (internal/store/photoview.go:194, :233-247): patterns as section 8.5 of
    ISO/IEC 9075-2 reads them, and the escaping that makes a search string literal. */
module Like {
  import opened Options

  const WILDCARD := '%'
  const ANY_CHAR := '_'
  const ESCAPE := '\\'

  datatype Token = AnyRun | AnyChar | Literal(c: char)

  /** The tokens of a pattern; None when it ends in a bare escape, which the database rejects. */
  function Parse(pattern: string): Option<seq<Token>> {
    if pattern == "" then Some([])
    else if pattern[0] == ESCAPE then
      if |pattern| == 1 then None else Prepend(Literal(pattern[1]), Parse(pattern[2..]))
    else
      Prepend(
        if pattern[0] == WILDCARD then AnyRun else if pattern[0] == ANY_CHAR then AnyChar else Literal(pattern[0]),
        Parse(pattern[1..]))
  }

  function Prepend(t: Token, rest: Option<seq<Token>>): Option<seq<Token>> {
    if rest.None? then None else Some([t] + rest.value)
  }

  /** Whether the tokens cover the whole text; letters are compared after `fold`. */
  predicate Matches(tokens: seq<Token>, text: string, fold: char -> char) {
    if tokens == [] then text == ""
    else if tokens[0].AnyRun? then exists k :: 0 <= k <= |text| && Matches(tokens[1..], text[k..], fold)
    else
      text != ""
      && (tokens[0].Literal? ==> fold(tokens[0].c) == fold(text[0]))
      && Matches(tokens[1..], text[1..], fold)
  }

  // ----- escaping -----

  /** strings.ReplaceAll of one character by an escaped one. */
  function EscapeEach(s: string, c: char): string {
    if s == "" then "" else (if s[0] == c then [ESCAPE, c] else [s[0]]) + EscapeEach(s[1..], c)
  }

  /** The three replacement passes, the escape character itself first. */
  function EscapeLike(s: string): string {
    EscapeEach(EscapeEach(EscapeEach(s, ESCAPE), WILDCARD), ANY_CHAR)
  }

  predicate Special(c: char) { c == ESCAPE || c == WILDCARD || c == ANY_CHAR }

  function EscapeOnce(s: string): string {
    if s == "" then "" else (if Special(s[0]) then [ESCAPE, s[0]] else [s[0]]) + EscapeOnce(s[1..])
  }

  lemma {:induction false} EscapeEachConcat(a: string, b: string, c: char)
    ensures EscapeEach(a + b, c) == EscapeEach(a, c) + EscapeEach(b, c)
  {
    if a == "" {
      assert a + b == b;
    } else {
      assert (a + b)[1..] == a[1..] + b;
      EscapeEachConcat(a[1..], b, c);
    }
  }

  lemma EscapeEachOne(c: char, d: char)
    ensures EscapeEach([c], d) == if c == d then [ESCAPE, d] else [c]
  {
    assert [c][1..] == "" && EscapeEach("", d) == "";
  }

  lemma EscapeOneChar(c: char)
    ensures EscapeLike([c]) == if Special(c) then [ESCAPE, c] else [c]
  {
    EscapeEachOne(c, ESCAPE);
    EscapeEachOne(c, WILDCARD);
    EscapeEachOne(c, ANY_CHAR);
    EscapeEachOne(ESCAPE, WILDCARD);
    EscapeEachOne(ESCAPE, ANY_CHAR);
    EscapeEachOne(WILDCARD, ANY_CHAR);
    EscapeEachConcat([ESCAPE], [c], ESCAPE);
    EscapeEachConcat([ESCAPE], [c], WILDCARD);
    EscapeEachConcat([ESCAPE], [c], ANY_CHAR);
    assert [ESCAPE] + [c] == [ESCAPE, c];
  }

  /** The passes do not disturb one another: together they escape each special character once. */
  lemma {:induction false} PassesEscapeOnce(s: string)
    ensures EscapeLike(s) == EscapeOnce(s)
  {
    if s != "" {
      var c, rest := [s[0]], s[1..];
      assert s == c + rest;
      EscapeEachConcat(c, rest, ESCAPE);
      var a, b := EscapeEach(c, ESCAPE), EscapeEach(rest, ESCAPE);
      EscapeEachConcat(a, b, WILDCARD);
      EscapeEachConcat(EscapeEach(a, WILDCARD), EscapeEach(b, WILDCARD), ANY_CHAR);
      EscapeOneChar(s[0]);
      PassesEscapeOnce(rest);
    }
  }

  // ----- the pattern '%' || escapeLike(s) || '%' -----

  function Literals(s: string): seq<Token> {
    seq(|s|, i requires 0 <= i < |s| => Literal(s[i]))
  }

  function Containing(s: string): string { [WILDCARD] + EscapeLike(s) + [WILDCARD] }

  /** One parsing step over an escaped character, and over a plain one. */
  lemma ParseStep(c: char, rest: string)
    ensures Parse([ESCAPE, c] + rest) == Prepend(Literal(c), Parse(rest))
    ensures !Special(c) ==> Parse([c] + rest) == Prepend(Literal(c), Parse(rest))
    ensures Parse([WILDCARD] + rest) == Prepend(AnyRun, Parse(rest))
  {
    assert ([ESCAPE, c] + rest)[2..] == rest;
    assert ([c] + rest)[1..] == rest && ([WILDCARD] + rest)[1..] == rest;
  }

  lemma EscapeOnceStep(s: string, tail: string)
    requires s != ""
    ensures EscapeOnce(s) + tail ==
      (if Special(s[0]) then [ESCAPE, s[0]] else [s[0]]) + (EscapeOnce(s[1..]) + tail)
    ensures Literals(s) == [Literal(s[0])] + Literals(s[1..])
  {}

  lemma {:induction false} EscapedParsesLiterally(s: string, tail: string)
    requires Parse(tail).Some?
    ensures Parse(EscapeOnce(s) + tail) == Some(Literals(s) + Parse(tail).value)
  {
    hide Parse, EscapeOnce;
    if s == "" {
      EmptyEscapes(tail);
      assert Literals(s) + Parse(tail).value == Parse(tail).value;
    } else {
      EscapedParsesLiterally(s[1..], tail);
      ParseStep(s[0], EscapeOnce(s[1..]) + tail);
      EscapeOnceStep(s, tail);
      assert Literals(s) + Parse(tail).value == [Literal(s[0])] + (Literals(s[1..]) + Parse(tail).value);
    }
  }

  lemma EmptyEscapes(tail: string)
    ensures EscapeOnce("") + tail == tail
  {}

  /** The search string is read back as itself between two wildcards, and never rejected. */
  lemma ContainingParses(s: string)
    ensures Parse(Containing(s)) == Some([AnyRun] + Literals(s) + [AnyRun])
  {
    hide Parse;
    PassesEscapeOnce(s);
    EmptyParses();
    var last := [WILDCARD];
    ParseStep(WILDCARD, "");
    assert last + "" == last;
    assert Parse(last) == Some([AnyRun] + []);
    EscapedParsesLiterally(s, last);
    var inner := EscapeOnce(s) + last;
    ParseStep(WILDCARD, inner);
    assert Containing(s) == [WILDCARD] + inner;
    assert [AnyRun] + (Literals(s) + ([AnyRun] + [])) == [AnyRun] + Literals(s) + [AnyRun];
  }

  lemma EmptyParses()
    ensures Parse("") == Some([])
  {}

  /** s stands at position k of the text, up to case. */
  ghost predicate OccursAt(s: string, text: string, k: nat, fold: char -> char) {
    k + |s| <= |text| && forall i :: 0 <= i < |s| ==> fold(s[i]) == fold(text[k + i])
  }

  ghost predicate Occurs(s: string, text: string, fold: char -> char) {
    exists k: nat :: OccursAt(s, text, k, fold)
  }

  lemma {:induction false} PrefixMatch(s: string, text: string, fold: char -> char)
    ensures Matches(Literals(s) + [AnyRun], text, fold) <==> OccursAt(s, text, 0, fold)
  {
    var tokens := Literals(s) + [AnyRun];
    if s == "" {
      assert tokens == [AnyRun];
      assert Matches(tokens[1..], text[|text|..], fold);
    } else {
      assert tokens[0] == Literal(s[0]);
      assert tokens[1..] == Literals(s[1..]) + [AnyRun];
      if text != "" {
        PrefixMatch(s[1..], text[1..], fold);
        if OccursAt(s[1..], text[1..], 0, fold) && fold(s[0]) == fold(text[0]) {
          assert forall i :: 1 <= i < |s| ==> s[i] == s[1..][i - 1] && text[i] == text[1..][i - 1];
        }
        if OccursAt(s, text, 0, fold) {
          forall i | 0 <= i < |s[1..]| ensures fold(s[1..][i]) == fold(text[1..][0 + i]) {
            assert fold(s[i + 1]) == fold(text[0 + (i + 1)]);
          }
        }
      }
    }
  }

  lemma OccursFromSuffix(s: string, text: string, k: nat, fold: char -> char)
    requires k <= |text|
    ensures OccursAt(s, text[k..], 0, fold) <==> OccursAt(s, text, k, fold)
  {
    if OccursAt(s, text[k..], 0, fold) {
      forall i | 0 <= i < |s| ensures fold(s[i]) == fold(text[k + i]) {
        assert fold(s[i]) == fold(text[k..][0 + i]);
      }
    }
    if OccursAt(s, text, k, fold) {
      forall i | 0 <= i < |s| ensures fold(s[i]) == fold(text[k..][0 + i]) {
        assert fold(s[i]) == fold(text[k + i]);
      }
    }
  }

  /** The pattern matches exactly the texts that contain the search string literally, up to case. */
  lemma EscapedSearchIsSubstring(s: string, text: string, fold: char -> char)
    ensures Parse(Containing(s)).Some?
    ensures Matches(Parse(Containing(s)).value, text, fold) <==> Occurs(s, text, fold)
  {
    hide Parse, Containing, OccursAt;
    ContainingParses(s);
    var tokens, inner := [AnyRun] + Literals(s) + [AnyRun], Literals(s) + [AnyRun];
    assert tokens[1..] == inner;
    forall k | 0 <= k <= |text| ensures Matches(inner, text[k..], fold) <==> OccursAt(s, text, k, fold) {
      PrefixMatch(s, text[k..], fold);
      OccursFromSuffix(s, text, k, fold);
    }
    if Matches(tokens, text, fold) {
      var k :| 0 <= k <= |text| && Matches(inner, text[k..], fold);
      assert OccursAt(s, text, k, fold);
    }
    if Occurs(s, text, fold) {
      var k: nat :| OccursAt(s, text, k, fold);
      FitsInside(s, text, k, fold);
      assert Matches(inner, text[k..], fold);
    }
  }

  lemma FitsInside(s: string, text: string, k: nat, fold: char -> char)
    requires OccursAt(s, text, k, fold)
    ensures k <= |text|
  {}

  /** Escaping the escape character last would turn a literal percent sign back into a wildcard. */
  lemma EscapeOrderMatters()
    ensures var wrong := EscapeEach(EscapeEach("%", WILDCARD), ESCAPE);
      Parse(wrong) == Some([Literal(ESCAPE), AnyRun])
    ensures Parse(EscapeLike("%")) == Some([Literal(WILDCARD)])
  {
    hide Parse, EscapeEach, EscapeLike;
    assert "%" == [WILDCARD];
    EmptyParses();
    EscapeEachOne(WILDCARD, WILDCARD);
    EscapeEachOne(ESCAPE, ESCAPE);
    EscapeEachOne(WILDCARD, ESCAPE);
    EscapeEachConcat([ESCAPE], [WILDCARD], ESCAPE);
    assert [ESCAPE] + [WILDCARD] == [ESCAPE, WILDCARD];
    assert [ESCAPE, ESCAPE] + [WILDCARD] == [ESCAPE, ESCAPE, WILDCARD];
    ParseStep(WILDCARD, "");
    ParseStep(ESCAPE, [WILDCARD]);
    assert [WILDCARD] + "" == [WILDCARD];
    EscapeOneChar(WILDCARD);
    assert [ESCAPE, WILDCARD] + "" == [ESCAPE, WILDCARD];
    assert [AnyRun] + [] == [AnyRun] && [Literal(WILDCARD)] + [] == [Literal(WILDCARD)];
    assert [Literal(ESCAPE)] + [AnyRun] == [Literal(ESCAPE), AnyRun];
  }
}
