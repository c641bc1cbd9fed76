/** GroupSimilar walks a Go map, and still gives one answer (internal/duplicates/similar.go:148-156): with
    distinct ids, two results over the same candidates are the same list. */
module Determinism {
  import opened Options
  import opened Ranking
  import opened Sorting
  import opened Similar

  /** What GroupSimilar promises of its result. */
  ghost predicate IsGrouping(cs: seq<Candidate>, t: nat, out: seq<Ranked>) {
    && (forall g :: 0 <= g < |out| ==> GoodGroup(cs, t, out[g]))
    && Exhaustive(cs, t, out) && Disjoint(out) && Ordered(out, LargerFirst)
  }

  /** In every group, scores tie transitively. */
  ghost predicate AllTiesCarryOver(cs: seq<Candidate>, out: seq<Ranked>) {
    forall g :: 0 <= g < |out| ==> InRange(out[g].order, cs) && TiesCarryOver(Scores(Pick(cs, out[g].order)))
  }

  ghost predicate NoRepeat<T>(s: seq<T>) { forall i, j :: 0 <= i < j < |s| ==> s[i] != s[j] }

  lemma {:induction false} SameMembers<T>(a: seq<T>, b: seq<T>)
    requires NoRepeat(a) && NoRepeat(b) && forall x :: x in a <==> x in b
    ensures multiset(a) == multiset(b)
  {
    forall x ensures multiset(a)[x] == multiset(b)[x] {
      CountOnce(a, x);
      CountOnce(b, x);
      assert x in multiset(a) <==> x in a;
      assert x in multiset(b) <==> x in b;
    }
  }

  lemma PickedMultiset(cs: seq<Candidate>, a: seq<int>, b: seq<int>)
    requires DistinctIds(cs) && InRange(a, cs) && InRange(b, cs) && NoRepeat(a) && NoRepeat(b)
    requires forall x :: x in a <==> x in b
    ensures multiset(Pick(cs, a)) == multiset(Pick(cs, b))
  {
    PickedDistinct(cs, a);
    PickedDistinct(cs, b);
    PickedFound(cs, a, b);
    PickedFound(cs, b, a);
    SameMembers(Pick(cs, a), Pick(cs, b));
  }

  lemma PickedFound(cs: seq<Candidate>, a: seq<int>, b: seq<int>)
    requires InRange(a, cs) && InRange(b, cs) && forall x :: x in a ==> x in b
    ensures forall c :: c in Pick(cs, a) ==> c in Pick(cs, b)
  {
    forall c | c in Pick(cs, a) ensures c in Pick(cs, b) {
      var k :| 0 <= k < |a| && Pick(cs, a)[k] == c;
      assert a[k] in b;
      var m :| 0 <= m < |b| && b[m] == a[k];
      assert Pick(cs, b)[m] == c;
    }
  }

  lemma PickInjective(cs: seq<Candidate>, a: seq<int>, b: seq<int>)
    requires DistinctIds(cs) && InRange(a, cs) && InRange(b, cs) && Pick(cs, a) == Pick(cs, b)
    ensures a == b
  {
    assert |a| == |Pick(cs, a)| == |Pick(cs, b)| == |b|;
    forall k | 0 <= k < |a| ensures a[k] == b[k] {
      assert Pick(cs, a)[k] == cs[a[k]] && Pick(cs, b)[k] == cs[b[k]];
    }
  }

  lemma PickedDistinct(cs: seq<Candidate>, a: seq<int>)
    requires DistinctIds(cs) && InRange(a, cs) && NoRepeat(a)
    ensures DistinctIds(Pick(cs, a))
  {
    forall i, j | 0 <= i < j < |a| ensures Pick(cs, a)[i].photoId != Pick(cs, a)[j].photoId {
      assert a[i] != a[j];
    }
  }

  /** One component has one order. */
  lemma OrderUnique(cs: seq<Candidate>, t: nat, r: Ranked, s: Ranked)
    requires DistinctIds(cs) && GoodGroup(cs, t, r) && GoodGroup(cs, t, s)
    requires TiesCarryOver(Scores(Pick(cs, r.order))) && forall x :: x in r.order <==> x in s.order
    ensures r.order == s.order
  {
    hide Joined, TiesCarryOver, Describes, DistinctIds, Prefers;
    var a, b := r.order, s.order;
    SameMembers(a, b);
    PickedMultiset(cs, a, b);
    PickedDistinct(cs, a);
    SameElements(a, b);
    SameElements(b, a);
    TiesPermute(cs, a, b);
    RankingUnique(Pick(cs, a), Pick(cs, a), Pick(cs, b));
    PickInjective(cs, a, b);
  }

  /** One order has one description. */
  lemma GroupUnique(cs: seq<Candidate>, r: Ranked, s: Ranked)
    requires DistinctIds(cs) && r.order == s.order && NoRepeat(r.order)
    requires Describes(r.group, cs, r.order) && Describes(s.group, cs, s.order)
    ensures r == s
  {
    hide IsWidest, Distance;
    PickedDistinct(cs, r.order);
    assert r.group.photoIds == s.group.photoIds;
    WidestUnique(cs, r.order, r.group.maxDistance, s.group.maxDistance);
    forall id | id in r.group.distances ensures id in s.group.distances && s.group.distances[id] == r.group.distances[id] {
      var k :| 0 <= k < |r.order| && r.group.photoIds[k] == id;
      assert At(r.group.distances, cs[r.order[k]].photoId, Distance(cs, r.order[0], r.order[k]));
      assert At(s.group.distances, cs[r.order[k]].photoId, Distance(cs, r.order[0], r.order[k]));
    }
    assert r.group.distances == s.group.distances;
  }

  lemma WidestUnique(cs: seq<Candidate>, order: seq<int>, d: nat, e: nat)
    requires InRange(order, cs) && IsWidest(cs, order, d) && IsWidest(cs, order, e)
    ensures d == e
  {
    hide Distance;
    if d != 0 {
      var a, b :| 0 <= a < |order| && 0 <= b < |order| && a < b && Distance(cs, order[a], order[b]) == d;
    }
    if e != 0 {
      var a, b :| 0 <= a < |order| && 0 <= b < |order| && a < b && Distance(cs, order[a], order[b]) == e;
    }
  }

  /** A group of one result is in the other. */
  lemma GroupFound(cs: seq<Candidate>, t: nat, out: seq<Ranked>, others: seq<Ranked>, g: nat)
    requires DistinctIds(cs) && IsGrouping(cs, t, out) && IsGrouping(cs, t, others) && g < |out|
    requires AllTiesCarryOver(cs, out) || AllTiesCarryOver(cs, others)
    ensures out[g] in others
  {
    hide TiesCarryOver, Describes, DistinctIds, Prefers, Ordered, LargerFirst, Joined;
    var r := out[g];
    assert GoodGroup(cs, t, r);
    var i, j := r.order[0], r.order[1];
    assert i in r.order && j in r.order && i != j && Joined(cs, t, i, j);
    var h :| 0 <= h < |others| && i in others[h].order;
    var s := others[h];
    assert GoodGroup(cs, t, s);
    forall x ensures x in r.order <==> x in s.order {
      assert x in r.order <==> Joined(cs, t, i, x);
      assert x in s.order <==> Joined(cs, t, i, x);
    }
    if AllTiesCarryOver(cs, out) { OrderUnique(cs, t, r, s); } else { OrderUnique(cs, t, s, r); }
    GroupUnique(cs, r, s);
  }

  lemma GroupsDiffer(cs: seq<Candidate>, t: nat, out: seq<Ranked>, g: nat, h: nat)
    requires DistinctIds(cs) && IsGrouping(cs, t, out) && g < |out| && h < |out| && g != h
    ensures out[g].group.suggestedKeepId != out[h].group.suggestedKeepId && out[g] != out[h]
  {
    hide TiesCarryOver, IsWidest, Prefers, Ordered, LargerFirst, Joined;
    assert GoodGroup(cs, t, out[g]) && GoodGroup(cs, t, out[h]);
    var x, y := out[g].order[0], out[h].order[0];
    assert x in out[g].order && y in out[h].order;
    assert x != y;
  }

  /** The groups, their order, their members' order, keepers and distances are all determined. */
  lemma GroupingUnique(cs: seq<Candidate>, t: nat, out: seq<Ranked>, others: seq<Ranked>)
    requires DistinctIds(cs) && IsGrouping(cs, t, out) && IsGrouping(cs, t, others)
    requires AllTiesCarryOver(cs, out)
    ensures out == others
  {
    hide GoodGroup, Exhaustive, Disjoint, TiesCarryOver, DistinctIds;
    forall r ensures r in out <==> r in others {
      if r in out {
        var g :| 0 <= g < |out| && out[g] == r;
        GroupFound(cs, t, out, others, g);
      }
      if r in others {
        var g :| 0 <= g < |others| && others[g] == r;
        GroupFound(cs, t, others, out, g);
      }
    }
    forall i, j | 0 <= i < j < |out| ensures out[i] != out[j] { GroupsDiffer(cs, t, out, i, j); }
    forall i, j | 0 <= i < j < |others| ensures others[i] != others[j] { GroupsDiffer(cs, t, others, i, j); }
    SameMembers(out, others);
    forall a, b | a in out && b in out && a != b ensures LargerFirst(a, b) || LargerFirst(b, a) {
      var g :| 0 <= g < |out| && out[g] == a;
      var h :| 0 <= h < |out| && out[h] == b;
      GroupsDiffer(cs, t, out, g, h);
      StrTrichotomy(a.group.suggestedKeepId, b.group.suggestedKeepId);
    }
    OrderedUnique(out, others, LargerFirst);
  }
}
