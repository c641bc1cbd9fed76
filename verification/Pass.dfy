/** runPass (internal/ingest/pass.go:38-123): batches of photos drained under a semaphore. Every
    interleaving of the loop, its goroutines and a cancellation is a list of `Step`s. */
module Pass {
  import opened Options
  import opened Paging

  datatype Phase = Fetching | Spawning | Awaiting | Stopped

  /** `needs` is what the fetch query selects; `handled` lists every item a goroutine was started for. */
  datatype Loop = Loop(
    phase: Phase, needs: set<PhotoId>, batch: seq<PhotoId>, next: nat, live: set<PhotoId>,
    done: nat, failed: nat, interrupted: bool, firstErr: bool, cancelled: bool, handled: seq<PhotoId>)

  datatype Step =
    | Fetch(page: seq<PhotoId>)                          // no work left when the page is empty
    | FetchFails
    | SeesCancel                                         // ctx.Err() at the top of the loop
    | Spawn                                              // a slot is taken, then the goroutine starts
    | StopsSpawning                                      // the batch is spawned, or ctx.Done() won the select
    | Finish(item: PhotoId, ok: bool, leaves: bool)      // `leaves`: a completion marker was written
    | Awaited                                            // wg.Wait() returned
    | Cancel
    | Elsewhere(needs: set<PhotoId>)                     // scans and workers change the set

  function Limit(concurrency: int): nat { if concurrency < 1 then 1 else concurrency }

  /** The clamp of the listing queries. */
  function BatchLimit(size: int): nat { if size <= 0 || size > 5000 then 500 else size }

  function Start(needs: set<PhotoId>): Loop {
    Loop(Fetching, needs, [], 0, {}, 0, 0, false, false, false, [])
  }

  ghost predicate Enabled(l: Loop, concurrency: int, size: int, st: Step) {
    match st
    case Fetch(page) => l.phase == Fetching && !l.cancelled && IsPage(page, l.needs, None, BatchLimit(size))
    case FetchFails => l.phase == Fetching
    case SeesCancel => l.phase == Fetching && l.cancelled
    case Spawn => l.phase == Spawning && l.next < |l.batch| && |l.live| < Limit(concurrency) && !l.cancelled
    case StopsSpawning => l.phase == Spawning && (l.next >= |l.batch| || l.cancelled)
    case Finish(item, _, _) => item in l.live
    case Awaited => l.phase == Awaiting && l.live == {}
    case Cancel => true
    case Elsewhere(_) => true
  }

  function After(l: Loop, st: Step): Loop {
    match st
    case Fetch(page) =>
      if page == [] then l.(phase := Stopped) else l.(phase := Spawning, batch := page, next := 0)
    case FetchFails =>
      if l.cancelled then l.(phase := Stopped, interrupted := true) else l.(phase := Stopped, firstErr := true)
    case SeesCancel => l.(phase := Stopped, interrupted := true)
    case Spawn =>
      if l.next < |l.batch| then
        l.(live := l.live + {l.batch[l.next]}, handled := l.handled + [l.batch[l.next]], next := l.next + 1)
      else l
    case StopsSpawning => l.(phase := Awaiting)
    case Finish(item, ok, leaves) =>
      var m := l.(live := l.live - {item}, needs := if leaves then l.needs - {item} else l.needs);
      if ok then m.(done := l.done + 1)
      else if l.cancelled then m
      else m.(failed := l.failed + 1, firstErr := true)
    case Awaited =>
      if l.cancelled then l.(phase := Stopped, interrupted := true)
      else l.(phase := Fetching, batch := [], next := 0)
    case Cancel => l.(cancelled := true)
    case Elsewhere(needs) => l.(needs := needs)
  }

  ghost function Reached(needs: set<PhotoId>, steps: seq<Step>): Loop {
    if steps == [] then Start(needs) else After(Reached(needs, steps[..|steps| - 1]), steps[|steps| - 1])
  }

  ghost predicate Execution(needs: set<PhotoId>, concurrency: int, size: int, steps: seq<Step>) {
    steps == [] ||
    (Execution(needs, concurrency, size, steps[..|steps| - 1])
     && Enabled(Reached(needs, steps[..|steps| - 1]), concurrency, size, steps[|steps| - 1]))
  }

  /** Live goroutines stay under the limit, are distinct items of the current batch, and are all
      finished whenever the next batch is fetched. */
  ghost predicate Bounded(l: Loop, concurrency: int) {
    && |l.live| <= Limit(concurrency)
    && l.next <= |l.batch| && Ascending(l.batch)
    && (forall x :: x in l.live ==> x in l.batch[..l.next])
    && (l.phase == Fetching || l.phase == Stopped ==> l.live == {})
  }

  /** Every started item is counted once it ends; only a cancellation leaves endings uncounted. */
  ghost predicate Counted(l: Loop) {
    l.done + l.failed + |l.live| <= |l.handled|
    && (!l.cancelled ==> l.done + l.failed + |l.live| == |l.handled|)
  }

  lemma StepKeepsBounded(l: Loop, concurrency: int, size: int, st: Step)
    requires Bounded(l, concurrency) && Counted(l) && Enabled(l, concurrency, size, st)
    ensures Bounded(After(l, st), concurrency) && Counted(After(l, st))
  {
    match st
    case Spawn =>
      assert l.batch[..l.next + 1] == l.batch[..l.next] + [l.batch[l.next]];
      assert l.batch[l.next] !in l.batch[..l.next];
    case _ =>
  }

  /** Under every interleaving no more goroutines are live than the limit, and the counts add up. */
  lemma {:induction false} NeverOverLimit(needs: set<PhotoId>, concurrency: int, size: int, steps: seq<Step>)
    requires Execution(needs, concurrency, size, steps)
    ensures Bounded(Reached(needs, steps), concurrency) && Counted(Reached(needs, steps))
  {
    hide Bounded, Counted, Enabled, After;
    if steps == [] {
      StartIsBounded(needs, concurrency);
    } else {
      NeverOverLimit(needs, concurrency, size, steps[..|steps| - 1]);
      StepKeepsBounded(Reached(needs, steps[..|steps| - 1]), concurrency, size, steps[|steps| - 1]);
    }
  }

  lemma StartIsBounded(needs: set<PhotoId>, concurrency: int)
    ensures Bounded(Start(needs), concurrency) && Counted(Start(needs))
  {}

  // ----- what is reported -----

  predicate CancelledIn(steps: seq<Step>) { exists k :: 0 <= k < |steps| && steps[k].Cancel? }

  /** Items that ended well, whenever they did. */
  function Successes(steps: seq<Step>): nat {
    if steps == [] then 0 else
      var last := steps[|steps| - 1];
      Successes(steps[..|steps| - 1]) + if last.Finish? && last.ok then 1 else 0
  }

  /** Items that ended in an error before any cancellation: a cancelled context is a shutdown, not a failure. */
  function Failures(steps: seq<Step>): nat {
    if steps == [] then 0 else
      var init, last := steps[..|steps| - 1], steps[|steps| - 1];
      Failures(init) + if last.Finish? && !last.ok && !CancelledIn(init) then 1 else 0
  }

  /** A fetch failed before any cancellation. */
  predicate FetchFailedIn(steps: seq<Step>) {
    exists k :: 0 <= k < |steps| && steps[k].FetchFails? && !CancelledIn(steps[..k])
  }

  /** The result says what happened: Done and Failed are the good and the bad endings, an error is kept
      exactly when there was one, and only a cancellation interrupts a pass. */
  lemma {:induction false} OutcomesAreReported(needs: set<PhotoId>, concurrency: int, size: int, steps: seq<Step>)
    requires Execution(needs, concurrency, size, steps)
    ensures var l := Reached(needs, steps);
      && l.done == Successes(steps) && l.failed == Failures(steps)
      && (l.firstErr <==> Failures(steps) > 0 || FetchFailedIn(steps))
      && (l.cancelled <==> CancelledIn(steps)) && (l.interrupted ==> CancelledIn(steps) && l.phase == Stopped)
  {
    hide Enabled, CancelledIn, FetchFailedIn;
    if steps == [] {
      NothingHappened();
    } else {
      OutcomesAreReported(needs, concurrency, size, steps[..|steps| - 1]);
      HappenedStep(steps);
      OutcomeStep(Reached(needs, steps[..|steps| - 1]), concurrency, size, steps[|steps| - 1]);
    }
  }

  lemma NothingHappened()
    ensures !CancelledIn([]) && !FetchFailedIn([])
  {}

  lemma HappenedStep(steps: seq<Step>)
    requires steps != []
    ensures var init, last := steps[..|steps| - 1], steps[|steps| - 1];
      && (CancelledIn(steps) <==> CancelledIn(init) || last.Cancel?)
      && (FetchFailedIn(steps) <==> FetchFailedIn(init) || (last.FetchFails? && !CancelledIn(init)))
  {
    var init, n := steps[..|steps| - 1], |steps| - 1;
    assert forall k :: 0 <= k < n ==> init[k] == steps[k] && init[..k] == steps[..k];
    if k :| 0 <= k < |init| && init[k].Cancel? { assert steps[k].Cancel?; }
    if k :| 0 <= k < |init| && init[k].FetchFails? && !CancelledIn(init[..k]) { assert steps[k].FetchFails?; }
    if k :| 0 <= k < |steps| && steps[k].FetchFails? && !CancelledIn(steps[..k]) {
      assert k < n ==> init[k].FetchFails?;
    }
  }

  lemma OutcomeStep(l: Loop, concurrency: int, size: int, st: Step)
    requires Enabled(l, concurrency, size, st)
    requires l.interrupted ==> l.phase == Stopped
    ensures After(l, st).interrupted && !l.interrupted ==> l.cancelled
    ensures After(l, st).interrupted ==> After(l, st).phase == Stopped
  {}

  /** The step that ends the loop. */
  ghost predicate StopsAt(needs: set<PhotoId>, steps: seq<Step>, k: nat) {
    k < |steps| && Reached(needs, steps[..k]).phase != Stopped && Reached(needs, steps[..k + 1]).phase == Stopped
  }

  /** A pass that has stopped was interrupted exactly when a cancellation came before it stopped. */
  lemma {:induction false} InterruptedIff(needs: set<PhotoId>, concurrency: int, size: int, steps: seq<Step>)
    requires Execution(needs, concurrency, size, steps)
    ensures Reached(needs, steps).phase == Stopped ==>
      exists k: nat :: StopsAt(needs, steps, k) && (Reached(needs, steps).interrupted <==> CancelledIn(steps[..k]))
    ensures Reached(needs, steps).phase != Stopped ==> !Reached(needs, steps).interrupted
  {
    hide Enabled, CancelledIn, After, Successes, Failures, FetchFailedIn;
    if steps != [] {
      var init, n := steps[..|steps| - 1], |steps| - 1;
      InterruptedIff(needs, concurrency, size, init);
      OutcomesAreReported(needs, concurrency, size, init);
      LastStep(Reached(needs, init), concurrency, size, steps[n]);
      assert steps[..|steps|] == steps;
      if Reached(needs, init).phase == Stopped {
        var k: nat :| StopsAt(needs, init, k) && (Reached(needs, init).interrupted <==> CancelledIn(init[..k]));
        assert init[..k] == steps[..k] && init[..k + 1] == steps[..k + 1];
        assert StopsAt(needs, steps, k);
      } else if Reached(needs, steps).phase == Stopped {
        assert StopsAt(needs, steps, n);
      }
    }
  }

  lemma LastStep(l: Loop, concurrency: int, size: int, st: Step)
    requires Enabled(l, concurrency, size, st)
    ensures l.phase == Stopped ==> After(l, st).phase == Stopped && After(l, st).interrupted == l.interrupted
    ensures l.phase != Stopped && !l.interrupted && After(l, st).phase == Stopped ==> After(l, st).interrupted == l.cancelled
    ensures l.phase != Stopped && !l.interrupted && After(l, st).phase != Stopped ==> !After(l, st).interrupted
  {}

  /** Nothing is fetched or started once the context is cancelled. That can happen at any time, and so can
      a change of the set by others. */
  lemma CancelledStartsNothing(needs: set<PhotoId>, concurrency: int, size: int, steps: seq<Step>, st: Step,
                               others: set<PhotoId>)
    requires Execution(needs, concurrency, size, steps)
    ensures Execution(needs, concurrency, size, steps + [Cancel])
    ensures Execution(needs, concurrency, size, steps + [Elsewhere(others)])
    ensures CancelledIn(steps) && Enabled(Reached(needs, steps), concurrency, size, st) ==> !st.Fetch? && !st.Spawn?
    ensures CancelledIn(steps) && Enabled(Reached(needs, steps), concurrency, size, st) ==>
      After(Reached(needs, steps), st).handled == Reached(needs, steps).handled
  {
    assert (steps + [Cancel])[..|steps|] == steps;
    assert (steps + [Elsewhere(others)])[..|steps|] == steps;
    OutcomesAreReported(needs, concurrency, size, steps);
  }

  /** A fetch takes all that needs work or as much as was asked for - five hundred when that is not between
      1 and 5000 - and no more goroutines run than asked for, or one. */
  lemma FetchIsFull(needs: set<PhotoId>, concurrency: int, size: int, steps: seq<Step>, page: seq<PhotoId>)
    requires Execution(needs, concurrency, size, steps)
    ensures var l, most := Reached(needs, steps), if 1 <= size <= 5000 then size else 500;
      Enabled(l, concurrency, size, Fetch(page)) ==> |page| == if |l.needs| <= most then |l.needs| else most
    ensures |Reached(needs, steps).live| <= if concurrency > 1 then concurrency else 1
  {
    NeverOverLimit(needs, concurrency, size, steps);
    var l := Reached(needs, steps);
    if Enabled(l, concurrency, size, Fetch(page)) { PageIsFull(page, l.needs, BatchLimit(size)); }
  }

  lemma PageIsFull(page: seq<PhotoId>, needs: set<PhotoId>, limit: nat)
    requires IsPage(page, needs, None, limit)
    ensures |page| == if |needs| <= limit then |needs| else limit
  {
    ListsSet(page, ToSet(page));
    assert ToSet(page) <= needs;
    assert needs == ToSet(page) + (needs - ToSet(page));
    if |page| < limit {
      forall id | id in needs ensures id in page { assert id in Beyond(needs, None); }
      assert ToSet(page) == needs;
    }
  }

  // ----- undisturbed passes -----

  /** No cancellation, no fetch error, nobody else touches the set. */
  predicate Undisturbed(st: Step) {
    !st.Cancel? && !st.FetchFails? && !st.SeesCancel? && !st.Elsewhere?
  }

  predicate AllUndisturbed(steps: seq<Step>) { forall k :: 0 <= k < |steps| ==> Undisturbed(steps[k]) }

  /** The step ends x and writes its completion marker. */
  predicate Marks(st: Step, x: PhotoId) { st.Finish? && st.item == x && st.leaves }

  predicate Marked(steps: seq<Step>, x: PhotoId) { exists k :: 0 <= k < |steps| && Marks(steps[k], x) }

  /** How often x was ended without a marker: a failure worth retrying. */
  function Retried(steps: seq<Step>, x: PhotoId): nat {
    if steps == [] then 0 else
      var last := steps[|steps| - 1];
      Retried(steps[..|steps| - 1], x) + if last.Finish? && last.item == x && !last.leaves then 1 else 0
  }

  /** How many endings wrote no marker, over all items. */
  function Retries(steps: seq<Step>): nat {
    if steps == [] then 0 else
      var last := steps[|steps| - 1];
      Retries(steps[..|steps| - 1]) + if last.Finish? && !last.leaves then 1 else 0
  }

  lemma MarkedStep(steps: seq<Step>, x: PhotoId)
    requires steps != []
    ensures Marked(steps, x) <==> Marked(steps[..|steps| - 1], x) || Marks(steps[|steps| - 1], x)
  {
    var before := steps[..|steps| - 1];
    if Marked(steps, x) {
      var k :| 0 <= k < |steps| && Marks(steps[k], x);
      assert k < |before| ==> Marks(before[k], x);
    }
    if Marked(before, x) {
      var k :| 0 <= k < |before| && Marks(before[k], x);
      assert Marks(steps[k], x);
    }
  }

  /** Live items and the unstarted rest of the batch still need work, each in one place; the batch is
      spent before the next fetch. */
  ghost predicate OnTrack(l: Loop) {
    && !l.cancelled && !l.interrupted && l.live <= l.needs
    && (forall k :: 0 <= l.next <= k < |l.batch| ==> l.batch[k] in l.needs && l.batch[k] !in l.live)
    && (l.phase == Fetching ==> l.batch == [])
    && (l.phase == Awaiting ==> l.next == |l.batch|)
    && (l.phase == Stopped ==> l.needs == {})
  }

  ghost predicate Good(l: Loop, concurrency: int) {
    Bounded(l, concurrency) && OnTrack(l)
  }

  lemma FetchOnTrack(l: Loop, concurrency: int, size: int, page: seq<PhotoId>)
    requires Good(l, concurrency) && Enabled(l, concurrency, size, Fetch(page))
    ensures OnTrack(After(l, Fetch(page)))
  {
    assert page != [] ==> forall k :: 0 <= k < |page| ==> page[k] in page;
    assert forall x :: x in l.needs ==> x in Beyond(l.needs, None);
  }

  lemma SpawnOnTrack(l: Loop, concurrency: int, size: int)
    requires Good(l, concurrency) && Enabled(l, concurrency, size, Spawn)
    ensures OnTrack(After(l, Spawn))
  {
    var m := After(l, Spawn);
    forall k | m.next <= k < |m.batch| ensures m.batch[k] in m.needs && m.batch[k] !in m.live {
      assert l.batch[l.next] < l.batch[k];
    }
  }

  lemma FinishOnTrack(l: Loop, concurrency: int, st: Step)
    requires Good(l, concurrency) && st.Finish? && st.item in l.live
    ensures OnTrack(After(l, st))
  {}

  lemma StepOnTrack(l: Loop, concurrency: int, size: int, st: Step)
    requires Good(l, concurrency) && Enabled(l, concurrency, size, st) && Undisturbed(st)
    ensures OnTrack(After(l, st))
  {
    match st
    case Fetch(page) => FetchOnTrack(l, concurrency, size, page);
    case Spawn => SpawnOnTrack(l, concurrency, size);
    case Finish(_, _, _) => FinishOnTrack(l, concurrency, st);
    case _ =>
  }

  lemma {:induction false} StaysOnTrack(needs: set<PhotoId>, concurrency: int, size: int, steps: seq<Step>)
    requires Execution(needs, concurrency, size, steps) && AllUndisturbed(steps)
    ensures Good(Reached(needs, steps), concurrency)
  {
    hide Bounded, Counted, Enabled, After, OnTrack;
    NeverOverLimit(needs, concurrency, size, steps);
    if steps == [] {
      StartIsOnTrack(needs);
    } else {
      var before := steps[..|steps| - 1];
      StaysOnTrack(needs, concurrency, size, before);
      StepOnTrack(Reached(needs, before), concurrency, size, steps[|steps| - 1]);
    }
  }

  lemma StartIsOnTrack(needs: set<PhotoId>)
    ensures OnTrack(Start(needs))
  {}

  /** Left alone, the set holds exactly the items that have not been marked yet. */
  lemma {:induction false} NeedsAreUnmarked(
    needs: set<PhotoId>, concurrency: int, size: int, steps: seq<Step>, x: PhotoId)
    requires Execution(needs, concurrency, size, steps) && AllUndisturbed(steps)
    ensures x in Reached(needs, steps).needs <==> x in needs && !Marked(steps, x)
  {
    hide Enabled, Marked;
    if steps == [] {
      NothingMarked(x);
    } else {
      NeedsAreUnmarked(needs, concurrency, size, steps[..|steps| - 1], x);
      MarkedStep(steps, x);
      assert Undisturbed(steps[|steps| - 1]);
    }
  }

  lemma NothingMarked(x: PhotoId)
    ensures !Marked([], x)
  {}

  /** Every item is handled once for each retry, and once more when it is marked or running. */
  lemma {:induction false} HandledTimes(
    needs: set<PhotoId>, concurrency: int, size: int, steps: seq<Step>, x: PhotoId)
    requires Execution(needs, concurrency, size, steps) && AllUndisturbed(steps)
    ensures var l := Reached(needs, steps);
      multiset(l.handled)[x] == Retried(steps, x) + (if x in needs && Marked(steps, x) then 1 else 0) + if x in l.live then 1 else 0
  {
    hide Marked;
    if steps == [] {
      NothingMarked(x);
    } else {
      var before, st := steps[..|steps| - 1], steps[|steps| - 1];
      HandledTimes(needs, concurrency, size, before, x);
      StaysOnTrack(needs, concurrency, size, before);
      NeedsAreUnmarked(needs, concurrency, size, before, x);
      MarkedStep(steps, x);
      HandledStep(Reached(needs, before), concurrency, size, st, x);
    }
  }

  lemma HandledStep(l: Loop, concurrency: int, size: int, st: Step, x: PhotoId)
    requires Good(l, concurrency) && Enabled(l, concurrency, size, st)
    ensures var m := After(l, st);
      multiset(m.handled)[x] + (if x in l.live then 1 else 0)
        == multiset(l.handled)[x] + (if x in m.live then 1 else 0) + if st.Finish? && st.item == x then 1 else 0
    ensures st.Finish? && st.item == x ==> x in l.needs
  {
    if st.Spawn? { assert l.batch[l.next] !in l.live; }
  }

  /** A pass that ends has marked every item, and has handled each once more than it was retried; Done
      plus Failed counts them all. */
  lemma EachItemOncePlusRetries(needs: set<PhotoId>, concurrency: int, size: int, steps: seq<Step>, x: PhotoId)
    requires Execution(needs, concurrency, size, steps) && AllUndisturbed(steps)
    requires Reached(needs, steps).phase == Stopped
    ensures var l := Reached(needs, steps);
      && (x in needs ==> Marked(steps, x))
      && multiset(l.handled)[x] == Retried(steps, x) + (if x in needs then 1 else 0)
      && l.done + l.failed == |needs| + Retries(steps) && !l.interrupted
  {
    hide Execution, Reached;
    StaysOnTrack(needs, concurrency, size, steps);
    NeverOverLimit(needs, concurrency, size, steps);
    NeedsAreUnmarked(needs, concurrency, size, steps, x);
    HandledTimes(needs, concurrency, size, steps, x);
    HandledInAll(needs, concurrency, size, steps);
  }

  /** Startings are endings without a marker, items marked, and items running. */
  lemma {:induction false} HandledInAll(needs: set<PhotoId>, concurrency: int, size: int, steps: seq<Step>)
    requires Execution(needs, concurrency, size, steps) && AllUndisturbed(steps)
    ensures var l := Reached(needs, steps);
      |l.handled| + |l.needs| == |needs| + Retries(steps) + |l.live|
  {
    hide Enabled, Bounded, After;
    if steps != [] {
      var before, st := steps[..|steps| - 1], steps[|steps| - 1];
      HandledInAll(needs, concurrency, size, before);
      StaysOnTrack(needs, concurrency, size, before);
      assert Undisturbed(st);
      SizesStep(Reached(needs, before), concurrency, size, st);
    }
  }

  lemma SizesStep(l: Loop, concurrency: int, size: int, st: Step)
    requires Good(l, concurrency) && Enabled(l, concurrency, size, st) && Undisturbed(st)
    ensures var m := After(l, st);
      |m.handled| - |l.handled| == (if st.Spawn? then 1 else 0)
      && |m.live| - |l.live| == (if st.Spawn? then 1 else if st.Finish? then -1 else 0)
      && |m.needs| - |l.needs| == if st.Finish? && st.leaves then -1 else 0
  {
    match st
    case Spawn =>
      assert l.batch[l.next] !in l.live;
      assert |l.live + {l.batch[l.next]}| == |l.live| + 1;
    case Finish(item, _, _) =>
      assert item in l.needs;
      assert |l.live - {item}| == |l.live| - 1 && |l.needs - {item}| == |l.needs| - 1;
    case _ =>
  }

  predicate NoRepeats(items: seq<PhotoId>) {
    forall i, j :: 0 <= i < j < |items| ==> items[i] != items[j]
  }

  lemma {:induction false} ListsSet(items: seq<PhotoId>, s: set<PhotoId>)
    requires NoRepeats(items) && forall x :: x in items <==> x in s
    ensures |items| == |s|
  {
    if items == [] {
      assert s == {};
    } else {
      var n := |items| - 1;
      assert items == items[..n] + [items[n]];
      ListsSet(items[..n], s - {items[n]});
    }
  }

  /** Every ending writes its marker. */
  predicate NoRetries(steps: seq<Step>) {
    forall k :: 0 <= k < |steps| && steps[k].Finish? ==> steps[k].leaves
  }

  lemma {:induction false} NoRetriesCounted(steps: seq<Step>, x: PhotoId)
    requires NoRetries(steps)
    ensures Retried(steps, x) == 0 && Retries(steps) == 0
  {
    if steps != [] { NoRetriesCounted(steps[..|steps| - 1], x); }
  }

  lemma CountedOnce(items: seq<PhotoId>, i: nat, j: nat)
    requires i < j < |items| && items[i] == items[j]
    ensures multiset(items)[items[i]] >= 2
  {
    assert items == items[..j] + [items[j]] + items[j + 1..];
    assert items[..j][i] in multiset(items[..j]);
  }

  /** When every processed item leaves the set, a pass that ends has handled each item exactly once. */
  lemma EachItemOnce(needs: set<PhotoId>, concurrency: int, size: int, steps: seq<Step>)
    requires Execution(needs, concurrency, size, steps) && AllUndisturbed(steps) && NoRetries(steps)
    requires Reached(needs, steps).phase == Stopped
    ensures var l := Reached(needs, steps);
      NoRepeats(l.handled) && (forall x :: x in l.handled <==> x in needs)
      && l.done + l.failed == |needs| && l.needs == {} && !l.interrupted
  {
    hide Execution, Reached, Marked;
    var l := Reached(needs, steps);
    StaysOnTrack(needs, concurrency, size, steps);
    forall x ensures multiset(l.handled)[x] == (if x in needs then 1 else 0) {
      EachItemOncePlusRetries(needs, concurrency, size, steps, x);
      NoRetriesCounted(steps, x);
    }
    EachItemOncePlusRetries(needs, concurrency, size, steps, 0);
    NoRetriesCounted(steps, 0);
    forall x ensures x in l.handled <==> x in needs { assert x in l.handled <==> x in multiset(l.handled); }
    forall i, j | 0 <= i < j < |l.handled| ensures l.handled[i] != l.handled[j] {
      if l.handled[i] == l.handled[j] {
        CountedOnce(l.handled, i, j);
        assert false;
      }
    }
  }

  // ----- termination -----

  function ToSet(items: seq<PhotoId>): set<PhotoId> { set x | x in items }

  /** What is left to do: six for an item still to be fetched, two for one fetched, one for one running,
      and the phase. Items fetched or running are among those needed. */
  function Left(l: Loop): int {
    6 * |l.needs| - 4 * (|l.batch| - l.next) - 5 * |l.live| + PhaseWeight(l.phase)
  }

  function PhaseWeight(phase: Phase): nat {
    match phase case Fetching => 1 case Spawning => 3 case Awaiting => 2 case Stopped => 0
  }

  lemma UnstartedSize(l: Loop, concurrency: int)
    requires Good(l, concurrency)
    ensures |ToSet(l.batch[l.next..])| == |l.batch| - l.next
    ensures ToSet(l.batch[l.next..]) <= l.needs && ToSet(l.batch[l.next..]) !! l.live
  {
    ListsSet(l.batch[l.next..], ToSet(l.batch[l.next..]));
  }

  lemma Apart(a: set<PhotoId>, b: set<PhotoId>, all: set<PhotoId>)
    requires a <= all && b <= all && a !! b
    ensures |a| + |b| <= |all|
  {
    assert all == a + b + (all - a - b);
  }

  lemma LeftNonNegative(l: Loop, concurrency: int)
    requires Good(l, concurrency)
    ensures Left(l) >= 0
  {
    UnstartedSize(l, concurrency);
    Apart(ToSet(l.batch[l.next..]), l.live, l.needs);
  }

  lemma StepFalls(l: Loop, concurrency: int, size: int, st: Step)
    requires Good(l, concurrency) && Enabled(l, concurrency, size, st) && Undisturbed(st)
    ensures Left(After(l, st)) < Left(l) + if st.Finish? && !st.leaves then 6 else 0
  {
    SizesStep(l, concurrency, size, st);
    hide IsPage;
  }

  /** From any point on, a pass takes no more steps than are left there, and six for each retry since. */
  lemma {:induction false} StepsAreSpent(needs: set<PhotoId>, concurrency: int, size: int, steps: seq<Step>, i: nat)
    requires Execution(needs, concurrency, size, steps) && AllUndisturbed(steps) && i <= |steps|
    ensures |steps| - i + Left(Reached(needs, steps)) <=
      Left(Reached(needs, steps[..i])) + 6 * (Retries(steps) - Retries(steps[..i]))
    decreases |steps|
  {
    hide Bounded, Counted, Enabled, After, OnTrack, Left;
    if i == |steps| {
      assert steps[..i] == steps;
    } else {
      var before := steps[..|steps| - 1];
      assert before[..i] == steps[..i];
      StepsAreSpent(needs, concurrency, size, before, i);
      StaysOnTrack(needs, concurrency, size, before);
      assert Undisturbed(steps[|steps| - 1]);
      StepFalls(Reached(needs, before), concurrency, size, steps[|steps| - 1]);
    }
  }

  /** A pass takes at most six steps an item, six for each ending without a marker, and one more. */
  lemma PassIsFinite(needs: set<PhotoId>, concurrency: int, size: int, steps: seq<Step>)
    requires Execution(needs, concurrency, size, steps) && AllUndisturbed(steps)
    ensures |steps| + Left(Reached(needs, steps)) <= 6 * |needs| + 1 + 6 * Retries(steps)
    ensures Left(Reached(needs, steps)) >= 0
  {
    hide Execution, Reached, Left;
    StepsAreSpent(needs, concurrency, size, steps, 0);
    StaysOnTrack(needs, concurrency, size, steps);
    LeftNonNegative(Reached(needs, steps), concurrency);
    NothingReached(needs);
    StartLeft(needs);
    assert steps[..0] == [];
  }

  lemma StartLeft(needs: set<PhotoId>)
    ensures Left(Start(needs)) == 6 * |needs| + 1
  {}

  lemma NothingReached(needs: set<PhotoId>)
    ensures Reached(needs, []) == Start(needs) && Retries([]) == 0
  {}

  /** The loop stops only when every item has been marked, and once every item has, it stops within
      three steps: however many retries there were, it ends if and only if they do. */
  lemma StopsWhenAllMarked(needs: set<PhotoId>, concurrency: int, size: int, steps: seq<Step>, more: seq<Step>)
    requires Execution(needs, concurrency, size, steps + more) && AllUndisturbed(steps + more)
    ensures Reached(needs, steps + more).phase == Stopped ==> forall x :: x in needs ==> Marked(steps + more, x)
    ensures (forall x :: x in needs ==> Marked(steps, x)) ==>
      |more| <= 3 && (Reached(needs, steps + more).phase == Stopped || CanGoOn(Reached(needs, steps + more), concurrency, size, true))
  {
    hide Execution, Reached, Marked, CanGoOn, Enabled;
    var all := steps + more;
    StaysOnTrack(needs, concurrency, size, all);
    forall x | x in needs && Reached(needs, all).phase == Stopped ensures Marked(all, x) {
      NeedsAreUnmarked(needs, concurrency, size, all, x);
    }
    if forall x :: x in needs ==> Marked(steps, x) {
      AllMarkedIsNearlyDone(needs, concurrency, size, steps, more);
      NeverOverLimit(needs, concurrency, size, all);
      if Reached(needs, all).phase != Stopped { NeverStuck(Reached(needs, all), concurrency, size, true); }
    }
  }

  lemma AllMarkedIsNearlyDone(needs: set<PhotoId>, concurrency: int, size: int, steps: seq<Step>, more: seq<Step>)
    requires Execution(needs, concurrency, size, steps + more) && AllUndisturbed(steps + more)
    requires forall x :: x in needs ==> Marked(steps, x)
    ensures |more| <= 3
  {
    hide Bounded, Counted, Enabled, After, OnTrack, Left, Marked;
    var all := steps + more;
    assert all[..|steps|] == steps;
    PrefixExecutes(needs, concurrency, size, all, |steps|);
    forall x ensures x !in Reached(needs, steps).needs { NeedsAreUnmarked(needs, concurrency, size, steps, x); }
    StaysOnTrack(needs, concurrency, size, steps);
    LittleLeft(Reached(needs, steps), concurrency);
    StepsAreSpent(needs, concurrency, size, all, |steps|);
    StaysOnTrack(needs, concurrency, size, all);
    LeftNonNegative(Reached(needs, all), concurrency);
    NothingToRetry(needs, concurrency, size, steps, more);
  }

  lemma {:induction false} PrefixExecutes(needs: set<PhotoId>, concurrency: int, size: int, steps: seq<Step>, n: nat)
    requires Execution(needs, concurrency, size, steps) && n <= |steps|
    ensures Execution(needs, concurrency, size, steps[..n])
    decreases |steps|
  {
    if n == |steps| {
      assert steps[..n] == steps;
    } else {
      assert steps[..|steps| - 1][..n] == steps[..n];
      PrefixExecutes(needs, concurrency, size, steps[..|steps| - 1], n);
    }
  }

  lemma LittleLeft(l: Loop, concurrency: int)
    requires Good(l, concurrency) && l.needs == {}
    ensures Left(l) <= 3
  {
    if l.next < |l.batch| { FirstUnstarted(l, concurrency); }
  }

  lemma FirstUnstarted(l: Loop, concurrency: int)
    requires Good(l, concurrency) && l.next < |l.batch|
    ensures l.needs != {}
  {
    assert l.batch[l.next] in l.needs;
  }

  /** With nothing left to do, no goroutine is running, so none ends without its marker. */
  lemma {:induction false} NothingToRetry(needs: set<PhotoId>, concurrency: int, size: int, steps: seq<Step>, more: seq<Step>)
    requires Execution(needs, concurrency, size, steps + more) && AllUndisturbed(steps + more)
    requires forall x :: x in needs ==> Marked(steps, x)
    ensures Retries(steps + more) == Retries(steps)
    decreases |more|
  {
    hide Marked, Enabled, Bounded, OnTrack, After;
    if more == [] {
      assert steps + more == steps;
    } else {
      var before, last := more[..|more| - 1], more[|more| - 1];
      var so, all := steps + before, steps + more;
      assert all[..|all| - 1] == so && all[|all| - 1] == last;
      assert forall k :: 0 <= k < |so| ==> so[k] == all[k];
      NothingToRetry(needs, concurrency, size, steps, before);
      NoneRunning(needs, concurrency, size, steps, before, last);
    }
  }

  lemma NoneRunning(needs: set<PhotoId>, concurrency: int, size: int, steps: seq<Step>, more: seq<Step>, st: Step)
    requires Execution(needs, concurrency, size, steps + more) && AllUndisturbed(steps + more)
    requires forall x :: x in needs ==> Marked(steps, x)
    requires Enabled(Reached(needs, steps + more), concurrency, size, st)
    ensures !st.Finish?
  {
    hide Marked, Execution, Reached;
    if st.Finish? {
      StaysOnTrack(needs, concurrency, size, steps + more);
      NeedsAreUnmarked(needs, concurrency, size, steps + more, st.item);
      StaysMarked(steps, more, st.item);
      assert false;
    }
  }

  lemma StaysMarked(steps: seq<Step>, more: seq<Step>, x: PhotoId)
    ensures Marked(steps, x) ==> Marked(steps + more, x)
  {
    if Marked(steps, x) {
      var k :| 0 <= k < |steps| && Marks(steps[k], x);
      assert Marks((steps + more)[k], x);
    }
  }

  ghost predicate CanGoOn(l: Loop, concurrency: int, size: int, leaves: bool) {
    exists st :: Undisturbed(st) && (st.Finish? ==> st.leaves == leaves) && Enabled(l, concurrency, size, st)
  }

  lemma {:induction false} FirstPageExists(needs: set<PhotoId>, limit: nat)
    ensures exists page :: IsPage(page, needs, None, limit)
    decreases limit
  {
    if limit == 0 {
      assert IsPage([], needs, None, 0);
    } else {
      FirstPageExists(needs, limit - 1);
      var page :| IsPage(page, needs, None, limit - 1);
      var rest := Beyond(needs, None) - ToSet(page);
      if rest == {} {
        assert forall id :: id in Beyond(needs, None) && id !in page ==> id in rest;
        assert IsPage(page, needs, None, limit);
      } else {
        var x := Least(rest);
        assert forall y :: y in needs && y !in page ==> y in rest;
        LongerPage(page, needs, limit, x);
      }
    }
  }

  lemma LongerPage(page: seq<PhotoId>, needs: set<PhotoId>, limit: nat, x: PhotoId)
    requires limit > 0 && IsPage(page, needs, None, limit - 1)
    requires x in needs && x !in page && forall y :: y in needs && y !in page ==> x <= y
    ensures IsPage(page + [x], needs, None, limit)
  {
    assert x in Beyond(needs, None);
    assert forall k :: 0 <= k < |page| ==> page[k] in page;
  }

  /** The loop is never stuck: some undisturbed step is possible exactly until it stops. */
  lemma NeverStuck(l: Loop, concurrency: int, size: int, leaves: bool)
    requires Bounded(l, concurrency) && !l.cancelled
    ensures CanGoOn(l, concurrency, size, leaves) <==> l.phase != Stopped
  {
    if l.phase == Stopped {
    } else if l.phase == Fetching {
      FirstPageExists(l.needs, BatchLimit(size));
      var page :| IsPage(page, l.needs, None, BatchLimit(size));
      assert Enabled(l, concurrency, size, Fetch(page));
    } else if l.live != {} {
      var x :| x in l.live;
      assert Enabled(l, concurrency, size, Finish(x, false, leaves));
    } else if l.phase == Awaiting {
      assert Enabled(l, concurrency, size, Awaited);
    } else if l.next < |l.batch| {
      assert Enabled(l, concurrency, size, Spawn);
    } else {
      assert Enabled(l, concurrency, size, StopsSpawning);
    }
  }

  /** One item that needs work and gets no marker keeps the loop going for ever: left alone, it can
      neither stop nor get stuck. */
  lemma StuckItemNeverEnds(needs: set<PhotoId>, concurrency: int, size: int, steps: seq<Step>, x: PhotoId)
    requires Execution(needs, concurrency, size, steps) && AllUndisturbed(steps)
    requires x in needs && !Marked(steps, x)
    ensures var l := Reached(needs, steps);
      x in l.needs && l.phase != Stopped && !l.cancelled && CanGoOn(l, concurrency, size, false)
  {
    hide Execution, Reached, Marked, CanGoOn, Enabled;
    NeedsAreUnmarked(needs, concurrency, size, steps, x);
    StaysOnTrack(needs, concurrency, size, steps);
    NeverStuck(Reached(needs, steps), concurrency, size, false);
  }

  /** x gets no marker and is handled once more than before. */
  lemma OnceMore(needs: set<PhotoId>, concurrency: int, size: int, steps: seq<Step>, st: Step)
    requires Execution(needs, concurrency, size, steps) && Enabled(Reached(needs, steps), concurrency, size, st)
    ensures Execution(needs, concurrency, size, steps + [st])
    ensures Reached(needs, steps + [st]) == After(Reached(needs, steps), st)
  {
    assert (steps + [st])[..|steps|] == steps;
  }

  /** The loop after a lone unmarked item was handled n times, all of them failures. */
  function Refetched(x: PhotoId, n: nat): Loop {
    Start({x}).(failed := n, firstErr := n > 0, handled := seq(n, _ => x))
  }

  function Round(x: PhotoId): seq<Step> {
    [Fetch([x]), Spawn, StopsSpawning, Finish(x, false, false), Awaited]
  }

  function Rounds(x: PhotoId, n: nat): seq<Step> {
    if n == 0 then [] else Rounds(x, n - 1) + Round(x)
  }

  /** The loop while the item runs for the time after that. */
  function Running(x: PhotoId, n: nat): Loop {
    Refetched(x, n).(phase := Awaiting, batch := [x], next := 1, live := {x}, handled := seq(n + 1, _ => x))
  }

  lemma RoundStarts(concurrency: int, size: int, steps: seq<Step>, x: PhotoId, n: nat)
    requires Execution({x}, concurrency, size, steps) && Reached({x}, steps) == Refetched(x, n)
    ensures var more := steps + [Fetch([x])] + [Spawn] + [StopsSpawning];
      Execution({x}, concurrency, size, more) && Reached({x}, more) == Running(x, n)
  {
    hide Execution, Reached;
    assert Beyond({x}, None) == {x};
    OnceMore({x}, concurrency, size, steps, Fetch([x]));
    OnceMore({x}, concurrency, size, steps + [Fetch([x])], Spawn);
    OnceMore({x}, concurrency, size, steps + [Fetch([x])] + [Spawn], StopsSpawning);
    assert seq(n + 1, _ => x) == seq(n, _ => x) + [x];
    assert {} + {x} == {x};
  }

  lemma RoundEnds(concurrency: int, size: int, steps: seq<Step>, x: PhotoId, n: nat)
    requires Execution({x}, concurrency, size, steps) && Reached({x}, steps) == Running(x, n)
    ensures var more := steps + [Finish(x, false, false)] + [Awaited];
      Execution({x}, concurrency, size, more) && Reached({x}, more) == Refetched(x, n + 1)
  {
    hide Execution, Reached;
    OnceMore({x}, concurrency, size, steps, Finish(x, false, false));
    assert {x} - {x} == {};
    OnceMore({x}, concurrency, size, steps + [Finish(x, false, false)], Awaited);
  }

  lemma OneRound(concurrency: int, size: int, steps: seq<Step>, x: PhotoId, n: nat)
    requires Execution({x}, concurrency, size, steps) && Reached({x}, steps) == Refetched(x, n)
    ensures Execution({x}, concurrency, size, steps + Round(x))
    ensures Reached({x}, steps + Round(x)) == Refetched(x, n + 1)
  {
    hide Execution, Reached, Refetched, Running;
    RoundStarts(concurrency, size, steps, x, n);
    var halfway := steps + [Fetch([x])] + [Spawn] + [StopsSpawning];
    RoundEnds(concurrency, size, halfway, x, n);
    assert halfway + [Finish(x, false, false)] + [Awaited] == steps + Round(x);
  }

  /** A retryable error that writes no marker is fetched, retried and counted again without end. */
  lemma {:induction false} RefetchedForever(concurrency: int, size: int, x: PhotoId, n: nat)
    ensures Execution({x}, concurrency, size, Rounds(x, n))
    ensures Reached({x}, Rounds(x, n)) == Refetched(x, n)
    ensures Reached({x}, Rounds(x, n)).failed == n && |Reached({x}, Rounds(x, n)).handled| == n
  {
    if n == 0 {
      assert Start({x}).handled == seq(0, _ => x);
    } else {
      RefetchedForever(concurrency, size, x, n - 1);
      OneRound(concurrency, size, Rounds(x, n - 1), x, n - 1);
    }
  }
}
