// Progress of the detection protocol: once nothing new is detected, every run
// is finite and can only stop with everything completed.
module DetectionProgress {
  import opened DetectionModel
  import opened DetectionSafety

  // Actions that work off what was already detected.
  predicate IsDrain(a: Action) {
    !a.Spawn? && !a.Detect? && !a.Destroy?
  }

  predicate AllDrain(run: seq<Action>) {
    forall i :: 0 <= i < |run| ==> IsDrain(run[i])
  }

  // ----- the ranking function -----

  function WorkerRank(worker: Worker): nat {
    match worker
    case Idle => 0
    case Posting => 7
    case Exchanging => 8
    case Pushed => 9
    case Admitted(_) => 18
    case Added(_) => 19
  }

  function WorkersRank(workers: seq<Worker>): nat {
    if |workers| == 0 then 0
    else WorkersRank(workers[..|workers| - 1]) + WorkerRank(workers[|workers| - 1])
  }

  function UiRank(ui: Ui): nat {
    match ui
    case Waiting => 0
    case Deactivated => 1
    case RecheckExchange => 1
    case RecheckActive => 2
    case Processing(known, fallbacks) => 3 + |known| + |fallbacks|
    case Cleared => 4
    case Dequeued => 5
    case RecheckPost => 7
  }

  // A wake-up that somebody still owes: things are pending, the flag is clear,
  // and the UI thread is not just about to take them.
  function OwedRank(s: State): nat {
    if !s.flag && !NothingPending(s) && !s.ui.Cleared? then 7 else 0
  }

  function Rank(s: State): nat {
    WorkersRank(s.workers) + |s.pendingKnown| + |s.pendingFallback| + 6 * s.queued + UiRank(s.ui) + OwedRank(s)
  }

  lemma {:induction false} WorkersRankUpdate(workers: seq<Worker>, w: nat, pc: Worker)
    requires w < |workers|
    ensures WorkersRank(workers[w := pc]) + WorkerRank(workers[w]) == WorkersRank(workers) + WorkerRank(pc)
  {
    hide WorkerRank;
    var n := |workers|;
    if w < n - 1 {
      WorkersRankUpdate(workers[..n - 1], w, pc);
      assert workers[w := pc][..n - 1] == workers[..n - 1][w := pc];
    } else {
      assert workers[w := pc][..n - 1] == workers[..n - 1];
    }
  }

  // Every draining step makes the rank smaller.
  lemma DrainStepDecreases(s: State, a: Action)
    requires Inv(s) && Enabled(s, a) && IsDrain(a)
    ensures Rank(Apply(s, a)) < Rank(s)
  {
    hide Apply, Enabled, Rank, ExactlyOnce, NoLostWakeUp, ListsSorted;
    if a.CheckActive? || a.Push? || a.CheckSchedule? || a.Exchange? || a.Post? {
      WorkerDrainDecreases(s, a);
    } else {
      UiDrainDecreases(s, a);
    }
  }

  lemma WorkerDrainDecreases(s: State, a: Action)
    requires Enabled(s, a) && (a.CheckActive? || a.Push? || a.CheckSchedule? || a.Exchange? || a.Post?)
    ensures Rank(Apply(s, a)) < Rank(s)
  {
    hide WorkersRank;
    var t := Apply(s, a);
    WorkersRankUpdate(s.workers, a.worker, t.workers[a.worker]);
    assert t.workers == s.workers[a.worker := t.workers[a.worker]];
  }

  lemma UiDrainDecreases(s: State, a: Action)
    requires FlagCountsMessages(s) && UiConsistent(s) && Enabled(s, a) && IsDrain(a)
    requires !(a.CheckActive? || a.Push? || a.CheckSchedule? || a.Exchange? || a.Post?)
    ensures Rank(Apply(s, a)) < Rank(s)
  {
    hide WorkersRank, Posters;
    assert Apply(s, a).workers == s.workers;
  }

  // A draining run is no longer than the rank of where it starts.
  lemma {:induction false} DrainRunsAreBounded(s: State, run: seq<Action>)
    requires Inv(s) && Legal(s, run) && AllDrain(run)
    ensures |run| + Rank(Exec(s, run)) <= Rank(s)
    decreases |run|
  {
    hide Inv, Apply, Rank, IsDrain;
    if |run| > 0 {
      StepKeepsInv(s, run[0]);
      DrainStepDecreases(s, run[0]);
      DrainRunsAreBounded(Apply(s, run[0]), run[1..]);
    }
  }

  // ----- no deadlock -----

  function WorkerAction(worker: Worker, w: nat): Action
    requires !worker.Idle?
  {
    match worker
    case Posting => Post(w)
    case Exchanging => Exchange(w)
    case Pushed => CheckSchedule(w)
    case Admitted(_) => Push(w)
    case Added(_) => CheckActive(w)
  }

  function UiAction(ui: Ui): Action
    requires !ui.Waiting?
  {
    match ui
    case Deactivated => ClearPending
    case RecheckExchange => UiExchange
    case RecheckActive => UiCheck
    case Processing(known, fallbacks) => if |known| + |fallbacks| > 0 then Complete else Recheck
    case Cleared => Swap
    case Dequeued => ClearFlag
    case RecheckPost => UiPost
  }

  // Unless everything is at rest, some draining action can be taken.
  lemma DrainStepExists(s: State) returns (a: Action)
    requires !Quiescent(s)
    ensures Enabled(s, a) && IsDrain(a)
  {
    if !s.ui.Waiting? {
      a := UiAction(s.ui);
    } else if s.queued > 0 {
      a := Dispatch;
    } else {
      var w :| 0 <= w < |s.workers| && !s.workers[w].Idle?;
      a := WorkerAction(s.workers[w], w);
    }
  }

  // A draining run that cannot go on has completed every detected path, once.
  lemma StuckMeansEverythingCompleted(s: State, run: seq<Action>, d: Detection)
    requires Inv(s) && s.active && Legal(s, run) && AllDrain(run)
    requires forall a :: IsDrain(a) ==> !Enabled(Exec(s, run), a)
    ensures Copies(Exec(s, run).completed, d) == if IsDetected(s, d) then 1 else 0
  {
    hide Inv, Enabled, Legal, Exec;
    RunKeepsInv(s, run);
    DrainKeepsDetected(s, run);
    var t := Exec(s, run);
    if !Quiescent(t) {
      var a := DrainStepExists(t);
      assert false;
    }
    RestMeansEverythingCompleted(t, d);
  }

  lemma DrainStepKeepsDetected(s: State, a: Action)
    requires Enabled(s, a) && IsDrain(a)
    ensures Apply(s, a).detected == s.detected && Apply(s, a).active == s.active
  {
  }

  lemma {:induction false} DrainKeepsDetected(s: State, run: seq<Action>)
    requires Legal(s, run) && AllDrain(run)
    ensures Exec(s, run).detected == s.detected && Exec(s, run).active == s.active
    decreases |run|
  {
    hide Apply, Enabled, IsDrain;
    if |run| > 0 {
      assert IsDrain(run[0]);
      DrainStepKeepsDetected(s, run[0]);
      DrainKeepsDetected(Apply(s, run[0]), run[1..]);
    }
  }

  // From every reachable state with the window alive there is a draining run
  // after which exactly the detected paths have been completed.
  lemma {:induction false} EverythingCanBeCompleted(s: State) returns (run: seq<Action>)
    requires Inv(s) && s.active
    ensures Legal(s, run) && AllDrain(run) && |run| <= Rank(s)
    ensures Quiescent(Exec(s, run))
    ensures forall d :: Copies(Exec(s, run).completed, d) == if IsDetected(s, d) then 1 else 0
    decreases Rank(s)
  {
    hide Inv, Apply, Rank, IsDrain, Quiescent, Enabled;
    if Quiescent(s) {
      run := [];
      forall d ensures Copies(s.completed, d) == if IsDetected(s, d) then 1 else 0 {
        RestMeansEverythingCompleted(s, d);
      }
    } else {
      var a := DrainStepExists(s);
      StepKeepsInv(s, a);
      DrainStepDecreases(s, a);
      var t := Apply(s, a);
      DrainStepKeepsDetected(s, a);
      var rest := EverythingCanBeCompleted(t);
      run := [a] + rest;
      assert run[1..] == rest;
    }
  }
}
