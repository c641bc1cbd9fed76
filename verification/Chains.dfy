/** Being joined through intermediates: the reflexive, symmetric, transitive closure of a finite set
    of pairs, by explicit paths. Near-duplicate groups and events without GPS are both of this kind. */
module Chains {

  predicate Step<T(==)>(pairs: set<(T, T)>, x: T, y: T) {
    x == y || (x, y) in pairs || (y, x) in pairs
  }

  ghost predicate Path<T>(pairs: set<(T, T)>, path: seq<T>) {
    |path| > 0 && forall i :: 0 <= i < |path| - 1 ==> Step(pairs, path[i], path[i + 1])
  }

  ghost predicate PathFrom<T>(pairs: set<(T, T)>, path: seq<T>, x: T, y: T) {
    Path(pairs, path) && path[0] == x && path[|path| - 1] == y
  }

  ghost predicate Chain<T(!new)>(pairs: set<(T, T)>, x: T, y: T) {
    exists path :: PathFrom(pairs, path, x, y)
  }

  lemma Reflexive<T(!new)>(pairs: set<(T, T)>, x: T)
    ensures Chain(pairs, x, x)
  {
    assert PathFrom(pairs, [x], x, x);
  }

  lemma OneStep<T(!new)>(pairs: set<(T, T)>, x: T, y: T)
    requires Step(pairs, x, y)
    ensures Chain(pairs, x, y)
  {
    assert PathFrom(pairs, [x, y], x, y);
  }

  lemma Transitive<T(!new)>(pairs: set<(T, T)>, x: T, y: T, z: T)
    requires Chain(pairs, x, y) && Chain(pairs, y, z)
    ensures Chain(pairs, x, z)
  {
    var p :| PathFrom(pairs, p, x, y);
    var q :| PathFrom(pairs, q, y, z);
    assert PathFrom(pairs, p + q, x, z);
  }

  lemma {:induction false} PathSymmetric<T(!new)>(pairs: set<(T, T)>, path: seq<T>)
    requires Path(pairs, path)
    ensures Chain(pairs, path[|path| - 1], path[0])
  {
    if |path| == 1 {
      Reflexive(pairs, path[0]);
    } else {
      PathSymmetric(pairs, path[1..]);
      OneStep(pairs, path[1], path[0]);
      Transitive(pairs, path[|path| - 1], path[1], path[0]);
    }
  }

  lemma Symmetric<T(!new)>(pairs: set<(T, T)>, x: T, y: T)
    requires Chain(pairs, x, y)
    ensures Chain(pairs, y, x)
  {
    var p :| PathFrom(pairs, p, x, y);
    PathSymmetric(pairs, p);
  }

  /** More pairs can only join more. */
  lemma Monotone<T(!new)>(few: set<(T, T)>, many: set<(T, T)>, x: T, y: T)
    requires few <= many && Chain(few, x, y)
    ensures Chain(many, x, y)
  {
    var p :| PathFrom(few, p, x, y);
    assert PathFrom(many, p, x, y);
  }

  /** x and y are joined by a path over `pairs` that may use the pair (a, b) as well. */
  ghost predicate ViaPair<T(!new)>(pairs: set<(T, T)>, a: T, b: T, x: T, y: T) {
    || Chain(pairs, x, y)
    || (Chain(pairs, x, a) && Chain(pairs, b, y))
    || (Chain(pairs, x, b) && Chain(pairs, a, y))
  }

  lemma {:induction false} PathViaPair<T(!new)>(pairs: set<(T, T)>, a: T, b: T, path: seq<T>)
    requires Path(pairs + {(a, b)}, path)
    ensures ViaPair(pairs, a, b, path[0], path[|path| - 1])
  {
    var y := path[|path| - 1];
    if |path| == 1 {
      Reflexive(pairs, y);
    } else {
      PathViaPair(pairs, a, b, path[1..]);
      var x, x' := path[0], path[1];
      if Step(pairs, x, x') {
        OneStep(pairs, x, x');
        if Chain(pairs, x', y) { Transitive(pairs, x, x', y); }
        if Chain(pairs, x', a) { Transitive(pairs, x, x', a); }
        if Chain(pairs, x', b) { Transitive(pairs, x, x', b); }
      } else {
        Reflexive(pairs, a);
        Reflexive(pairs, b);
      }
    }
  }

  /** Adding one pair joins exactly the two components it touches. */
  lemma AddPair<T(!new)>(pairs: set<(T, T)>, a: T, b: T, x: T, y: T)
    ensures Chain(pairs + {(a, b)}, x, y) <==> ViaPair(pairs, a, b, x, y)
  {
    var more := pairs + {(a, b)};
    if Chain(more, x, y) {
      var p :| PathFrom(more, p, x, y);
      PathViaPair(pairs, a, b, p);
    }
    if ViaPair(pairs, a, b, x, y) {
      OneStep(more, a, b);
      OneStep(more, b, a);
      if Chain(pairs, x, y) {
        Monotone(pairs, more, x, y);
      } else if Chain(pairs, x, a) && Chain(pairs, b, y) {
        Monotone(pairs, more, x, a);
        Monotone(pairs, more, b, y);
        Transitive(more, x, a, b);
        Transitive(more, x, b, y);
      } else {
        Monotone(pairs, more, x, b);
        Monotone(pairs, more, a, y);
        Transitive(more, x, b, a);
        Transitive(more, x, a, y);
      }
    }
  }
}
