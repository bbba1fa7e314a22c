// What every step of the detection protocol keeps, and what that means for
// whole runs.
module DetectionSafety {
  import opened DetectionModel

  // ----- counting over the workers -----

  lemma {:induction false} PostersUpdate(workers: seq<Worker>, w: nat, pc: Worker)
    requires w < |workers|
    ensures Posters(workers[w := pc]) + (if workers[w].Posting? then 1 else 0)
         == Posters(workers) + (if pc.Posting? then 1 else 0)
  {
    var n := |workers|;
    if w < n - 1 {
      PostersUpdate(workers[..n - 1], w, pc);
      assert workers[w := pc][..n - 1] == workers[..n - 1][w := pc];
    } else {
      assert workers[w := pc][..n - 1] == workers[..n - 1];
    }
  }

  lemma {:induction false} HeldUpdate(workers: seq<Worker>, w: nat, pc: Worker, d: Detection)
    requires w < |workers|
    ensures Held(workers[w := pc], d) + HeldBy(workers[w], d) == Held(workers, d) + HeldBy(pc, d)
  {
    hide HeldBy;
    var n := |workers|;
    if w < n - 1 {
      HeldUpdate(workers[..n - 1], w, pc, d);
      assert workers[w := pc][..n - 1] == workers[..n - 1][w := pc];
    } else {
      assert workers[w := pc][..n - 1] == workers[..n - 1];
    }
  }

  lemma SpawnedWorkerIsIdle(workers: seq<Worker>)
    ensures Posters(workers + [Idle]) == Posters(workers)
    ensures forall d :: Held(workers + [Idle], d) == Held(workers, d)
  {
    assert (workers + [Idle])[..|workers|] == workers;
  }

  // ----- flag and messages -----

  lemma FlagStep(s: State, a: Action)
    requires Inv(s) && Enabled(s, a)
    ensures FlagCountsMessages(Apply(s, a))
  {
    hide Posters, NoLostWakeUp, ExactlyOnce, ListsSorted;
    if a.Spawn? {
      SpawnedWorkerIsIdle(s.workers);
    } else {
      WorkerStepPosters(s, a);
    }
  }

  lemma WorkerStepPosters(s: State, a: Action)
    requires Enabled(s, a) && !a.Spawn?
    ensures Posters(Apply(s, a).workers)
         == Posters(s.workers) + (if a.Exchange? && !s.flag then 1 else 0) - (if a.Post? then 1 else 0)
  {
    hide Posters;
    if a.Detect? || a.CheckActive? || a.Push? || a.CheckSchedule? || a.Exchange? || a.Post? {
      var pc := Apply(s, a).workers[a.worker];
      PostersUpdate(s.workers, a.worker, pc);
      assert Apply(s, a).workers == s.workers[a.worker := pc];
    }
  }

  // ----- no lost wake-up -----

  lemma WakeUpStep(s: State, a: Action)
    requires Inv(s) && Enabled(s, a)
    ensures NoLostWakeUp(Apply(s, a))
  {
    hide Posters, FlagCountsMessages, ExactlyOnce, ListsSorted;
    var t := Apply(s, a);
    if t.active && !NothingPending(t) && !t.flag && !t.ui.Cleared? {
      if a.Push? || a.CheckSchedule? {
        assert t.workers[a.worker].Pushed? || t.workers[a.worker].Exchanging?;
      } else {
        assert !NothingPending(s) && !s.flag && !s.ui.Cleared?;
        var w :| 0 <= w < |s.workers| && (s.workers[w].Pushed? || s.workers[w].Exchanging?);
        assert t.workers[w] == s.workers[w];
      }
    }
  }

  lemma UiStep(s: State, a: Action)
    requires Inv(s) && Enabled(s, a)
    ensures UiConsistent(Apply(s, a)) && ListsSorted(Apply(s, a))
  {
    hide Apply, ExactlyOnce, NoLostWakeUp, FlagCountsMessages, UiConsistent, ListsSorted;
    ConsistentStep(s, a);
    SortedStep(s, a);
  }

  lemma ConsistentStep(s: State, a: Action)
    requires UiConsistent(s) && Enabled(s, a)
    ensures UiConsistent(Apply(s, a))
  {
  }

  lemma SortedStep(s: State, a: Action)
    requires ListsSorted(s) && Enabled(s, a)
    ensures ListsSorted(Apply(s, a))
  {
  }

  // ----- exactly once -----

  // A worker's step changes the places of `d` only by recording it.
  lemma WorkerStepPlaces(s: State, a: Action, d: Detection)
    requires Enabled(s, a)
    requires a.Detect? || a.CheckActive? || a.Push? || a.CheckSchedule? || a.Exchange? || a.Post?
    ensures Places(Apply(s, a), d) == Places(s, d) + (if Records(s, a, d) then 1 else 0)
  {
    hide Held, Copies;
    var t := Apply(s, a);
    var pc := t.workers[a.worker];
    HeldUpdate(s.workers, a.worker, pc, d);
    assert t.workers == s.workers[a.worker := pc];
    if a.Push? {
      OneMoreCopy(s.pendingKnown, s.workers[a.worker].found, d);
      OneMoreCopy(s.pendingFallback, s.workers[a.worker].found, d);
    } else if a.CheckActive? {
      OneMoreCopy(s.dropped, s.workers[a.worker].found, d);
    }
  }

  lemma NoCopies(d: Detection)
    ensures Copies([], d) == 0
  {
  }

  lemma CopiesAddUp(a: seq<Detection>, b: seq<Detection>, d: Detection)
    ensures Copies(a + b, d) == Copies(a, d) + Copies(b, d)
  {
  }

  lemma OneMoreCopy(list: seq<Detection>, x: Detection, d: Detection)
    ensures Copies(list + [x], d) == Copies(list, d) + (if x == d then 1 else 0)
  {
  }

  predicate Records(s: State, a: Action, d: Detection) {
    a.Detect? && a.path !in s.detected && d == Detection(a.path, a.fallback)
  }

  // A step of the UI thread moves detections and neither makes nor loses any.
  lemma UiStepPlaces(s: State, a: Action, d: Detection)
    requires Enabled(s, a)
    requires !(a.Detect? || a.CheckActive? || a.Push? || a.CheckSchedule? || a.Exchange? || a.Post?)
    ensures Places(Apply(s, a), d) == Places(s, d)
  {
    hide Held, Copies;
    NoCopies(d);
    if a.Spawn? {
      SpawnedWorkerIsIdle(s.workers);
    } else if a.ClearPending? {
      CopiesAddUp(s.dropped, s.pendingKnown, d);
      CopiesAddUp(s.dropped + s.pendingKnown, s.pendingFallback, d);
    } else if a.Complete? {
      if |s.ui.known| > 0 {
        HeadMovesOver(s.completed, s.ui.known, d);
      } else {
        HeadMovesOver(s.completed, s.ui.fallbacks, d);
        assert s.ui.known == [];
      }
    }
  }

  lemma HeadMovesOver(done: seq<Detection>, batch: seq<Detection>, d: Detection)
    requires |batch| > 0
    ensures Copies(done + [batch[0]], d) + Copies(batch[1..], d) == Copies(done, d) + Copies(batch, d)
  {
    assert batch == [batch[0]] + batch[1..];
  }

  lemma OnceStep(s: State, a: Action)
    requires Inv(s) && Enabled(s, a)
    ensures ExactlyOnce(Apply(s, a))
  {
    hide Places, FlagCountsMessages, NoLostWakeUp, UiConsistent, ListsSorted;
    var t := Apply(s, a);
    forall d ensures Places(t, d) == if IsDetected(t, d) then 1 else 0 {
      if a.Detect? || a.CheckActive? || a.Push? || a.CheckSchedule? || a.Exchange? || a.Post? {
        WorkerStepPlaces(s, a, d);
      } else {
        UiStepPlaces(s, a, d);
      }
    }
  }

  // ----- the invariant over whole runs -----

  lemma StepKeepsInv(s: State, a: Action)
    requires Inv(s) && Enabled(s, a)
    ensures Inv(Apply(s, a))
  {
    hide Apply, FlagCountsMessages, NoLostWakeUp, ExactlyOnce, UiConsistent, ListsSorted;
    FlagStep(s, a);
    WakeUpStep(s, a);
    UiStep(s, a);
    OnceStep(s, a);
  }

  lemma {:induction false} RunKeepsInv(s: State, run: seq<Action>)
    requires Inv(s) && Legal(s, run)
    ensures Inv(Exec(s, run))
    decreases |run|
  {
    hide Inv, Apply;
    if |run| > 0 {
      StepKeepsInv(s, run[0]);
      RunKeepsInv(Apply(s, run[0]), run[1..]);
    }
  }

  lemma EmptyStateInv(s: State)
    requires s.detected == map[] && s.active && !s.flag && s.queued == 0 && s.discarded == 0
             && s.workers == [] && s.ui.Waiting?
    requires s.pendingKnown == s.pendingFallback == s.completed == s.dropped == []
    ensures Inv(s)
  {
    forall d ensures Places(s, d) == 0 && !IsDetected(s, d) {
    }
  }

  // Every state any interleaving of any number of workers can reach.
  lemma EveryReachableState(run: seq<Action>)
    requires Legal(INITIAL, run)
    ensures Inv(Exec(INITIAL, run))
  {
    hide Exec, Legal, Inv;
    EmptyStateInv(INITIAL);
    RunKeepsInv(INITIAL, run);
  }

  // ----- what the invariant means -----

  // At most one flush message is ever outstanding.
  lemma AtMostOneMessage(run: seq<Action>)
    requires Legal(INITIAL, run)
    ensures var s := Exec(INITIAL, run);
            && Outstanding(s) <= 1
            && (s.active ==> (s.flag <==> Outstanding(s) == 1))
  {
    hide Exec, Legal, Outstanding, NoLostWakeUp, ExactlyOnce, ListsSorted;
    EveryReachableState(run);
  }

  // When the UI thread looks at the lists again, whoever left something there has
  // set the flag or is about to: looking again is a safeguard, not a necessity.
  lemma LookingAgainIsOnlyASafeguard(run: seq<Action>)
    requires Legal(INITIAL, run)
    requires Enabled(Exec(INITIAL, run), Recheck) && !NothingPending(Exec(INITIAL, run))
    ensures Exec(INITIAL, run).flag || SomeoneWillSchedule(Exec(INITIAL, run))
  {
    hide Exec, Legal, FlagCountsMessages, ExactlyOnce, ListsSorted;
    EveryReachableState(run);
  }

  // Nothing is left to do: workers and UI idle, no message in the queue.
  predicate Quiescent(s: State) {
    && (forall w :: 0 <= w < |s.workers| ==> s.workers[w].Idle?)
    && s.ui.Waiting? && s.queued == 0
  }

  lemma {:induction false} IdleWorkersHoldNothing(workers: seq<Worker>)
    requires forall w :: 0 <= w < |workers| ==> workers[w].Idle?
    ensures Posters(workers) == 0
    ensures forall d :: Held(workers, d) == 0
  {
    if |workers| > 0 {
      IdleWorkersHoldNothing(workers[..|workers| - 1]);
    }
  }

  // When the protocol comes to rest with the window alive, every detected path
  // has been completed, once, and nothing else has.
  lemma RestMeansEverythingCompleted(s: State, d: Detection)
    requires Inv(s) && Quiescent(s) && s.active
    ensures NothingPending(s) && !s.flag
    ensures Copies(s.completed, d) == if IsDetected(s, d) then 1 else 0
  {
    IdleWorkersHoldNothing(s.workers);
    assert Places(s, d) == if IsDetected(s, d) then 1 else 0;
  }

  lemma TwoCopies(list: seq<Detection>, i: nat, j: nat)
    requires i < j < |list| && list[i] == list[j]
    ensures Copies(list, list[i]) >= 2
  {
    assert list == list[..j] + [list[j]] + list[j + 1..];
    assert list[i] in list[..j];
    assert multiset(list[..j])[list[i]] >= 1;
  }

  // No path is shown twice, in any run.
  lemma NoPathCompletedTwice(run: seq<Action>, i: nat, j: nat)
    requires Legal(INITIAL, run)
    requires i < j < |Exec(INITIAL, run).completed|
    ensures Exec(INITIAL, run).completed[i].path != Exec(INITIAL, run).completed[j].path
  {
    hide Exec, Legal, FlagCountsMessages, NoLostWakeUp, UiConsistent, ListsSorted;
    EveryReachableState(run);
    var s := Exec(INITIAL, run);
    var a, b := s.completed[i], s.completed[j];
    assert Places(s, a) == if IsDetected(s, a) then 1 else 0;
    assert Places(s, b) == if IsDetected(s, b) then 1 else 0;
    assert Copies(s.completed, a) >= 1 && Copies(s.completed, b) >= 1;
    if a.path == b.path {
      TwoCopies(s.completed, i, j);
    }
  }

  lemma StepAfterDestroy(s: State, a: Action)
    requires UiConsistent(s) && !s.active && Enabled(s, a)
    ensures !Apply(s, a).active && Apply(s, a).completed == s.completed
  {
  }

  // Once the window has gone nothing more is completed, whatever is still running.
  lemma {:induction false} NothingCompletedAfterDestroy(s: State, run: seq<Action>)
    requires Inv(s) && !s.active && Legal(s, run)
    ensures !Exec(s, run).active && Exec(s, run).completed == s.completed
    decreases |run|
  {
    hide Apply, Enabled, UiConsistent, FlagCountsMessages, NoLostWakeUp, ExactlyOnce, ListsSorted;
    if |run| > 0 {
      StepKeepsInv(s, run[0]);
      StepAfterDestroy(s, run[0]);
      NothingCompletedAfterDestroy(Apply(s, run[0]), run[1..]);
    }
  }

  // Recorded paths stay recorded, as the kind they were recorded as.
  predicate Keeps(before: map<Path, bool>, after: map<Path, bool>) {
    forall path :: path in before ==> path in after && after[path] == before[path]
  }

  lemma StepOnlyAdds(s: State, a: Action)
    requires Enabled(s, a)
    ensures s.completed <= Apply(s, a).completed && Keeps(s.detected, Apply(s, a).detected)
  {
  }

  lemma StatesKeepOn(s: State, t: State, u: State)
    requires s.completed <= t.completed <= u.completed && Keeps(s.detected, t.detected) && Keeps(t.detected, u.detected)
    ensures s.completed <= u.completed && Keeps(s.detected, u.detected)
  {
  }

  // Completed detections stay, in order, and a recorded path is never forgotten
  // or moved to the other list.
  lemma {:induction false} RunsOnlyAdd(s: State, run: seq<Action>)
    requires Legal(s, run)
    ensures s.completed <= Exec(s, run).completed && Keeps(s.detected, Exec(s, run).detected)
    decreases |run|
  {
    hide Apply, Enabled, Keeps;
    if |run| == 0 {
      StandingStill(s);
    } else {
      StepOnlyAdds(s, run[0]);
      RunsOnlyAdd(Apply(s, run[0]), run[1..]);
      StatesKeepOn(s, Apply(s, run[0]), Exec(s, run));
    }
  }

  lemma StandingStill(s: State)
    ensures Keeps(s.detected, s.detected)
  {
  }
}
