// The default view's own code, under interference: between any two atomic
// operations of a method, other threads may take any steps of the protocol.
module DetectionView {
  import opened DetectionModel
  import opened DetectionSafety

  // ----- what the other threads can and cannot do -----

  predicate WorkerMove(a: Action) {
    a.Spawn? || a.Detect? || a.CheckActive? || a.Push? || a.CheckSchedule? || a.Exchange? || a.Post?
  }

  predicate MoveOf(a: Action, w: nat) {
    WorkerMove(a) && !a.Spawn? && a.worker == w
  }

  // No move of worker `w`: what the other threads can do while it stands still.
  predicate OthersOnly(run: seq<Action>, w: nat) {
    forall i :: 0 <= i < |run| ==> !MoveOf(run[i], w)
  }

  // No move of the UI thread.
  predicate WorkersOnly(run: seq<Action>) {
    forall i :: 0 <= i < |run| ==> WorkerMove(run[i])
  }

  lemma OthersStep(s: State, a: Action, w: nat)
    requires Enabled(s, a) && !MoveOf(a, w) && w < |s.workers|
    ensures w < |Apply(s, a).workers| && Apply(s, a).workers[w] == s.workers[w]
  {
  }

  // The moves of the other threads leave a worker where it stands.
  lemma {:induction false} OthersLeaveWorker(s: State, run: seq<Action>, w: nat)
    requires Legal(s, run) && w < |s.workers| && OthersOnly(run, w)
    ensures w < |Exec(s, run).workers| && Exec(s, run).workers[w] == s.workers[w]
    decreases |run|
  {
    hide Apply, Enabled, MoveOf;
    if |run| > 0 {
      assert !MoveOf(run[0], w);
      OthersStep(s, run[0], w);
      OthersLeaveWorker(Apply(s, run[0]), run[1..], w);
    }
  }

  // What a worker cannot touch.
  predicate UiUntouched(s: State, t: State) {
    && t.ui == s.ui && t.active == s.active && t.completed == s.completed
    && (LockHeld(s) ==> t.pendingKnown == s.pendingKnown && t.pendingFallback == s.pendingFallback)
  }

  lemma WorkerStep(s: State, a: Action)
    requires Enabled(s, a) && WorkerMove(a)
    ensures UiUntouched(s, Apply(s, a))
  {
  }

  lemma UntouchedOn(s: State, t: State, u: State)
    requires UiUntouched(s, t) && UiUntouched(t, u)
    ensures UiUntouched(s, s) && UiUntouched(s, u)
  {
  }

  // The workers leave the UI thread, its rows and the activity flag alone, and
  // cannot touch the pending lists while the UI thread holds the lock.
  lemma {:induction false} WorkersLeaveUi(s: State, run: seq<Action>)
    requires Legal(s, run) && WorkersOnly(run)
    ensures UiUntouched(s, Exec(s, run))
    decreases |run|
  {
    hide Apply, Enabled, WorkerMove;
    if |run| > 0 {
      assert WorkerMove(run[0]);
      WorkerStep(s, run[0]);
      WorkersLeaveUi(Apply(s, run[0]), run[1..]);
      UntouchedOn(s, Apply(s, run[0]), Exec(s, run));
    }
  }

  lemma {:induction false} OneMoreStep(s: State, run: seq<Action>, a: Action)
    requires Legal(s, run) && Enabled(Exec(s, run), a)
    ensures Legal(s, run + [a]) && Exec(s, run + [a]) == Apply(Exec(s, run), a)
    decreases |run|
  {
    if |run| == 0 {
      assert run + [a] == [a];
      assert [a][1..] == [];
    } else {
      hide Apply, Enabled;
      OneMoreStep(Apply(s, run[0]), run[1..], a);
      assert (run + [a])[1..] == run[1..] + [a];
    }
  }

  lemma {:induction false} RunsAppend(s: State, run: seq<Action>, more: seq<Action>)
    requires Legal(s, run) && Legal(Exec(s, run), more)
    ensures Legal(s, run + more) && Exec(s, run + more) == Exec(Exec(s, run), more)
    decreases |run|
  {
    hide Apply, Enabled;
    if |run| == 0 {
      assert run + more == more;
    } else {
      RunsAppend(Apply(s, run[0]), run[1..], more);
      assert (run + more)[1..] == run[1..] + more;
    }
  }

  // ----- what a trace tells -----

  // The state in which step `i` of a trace is taken.
  ghost function StateBefore(trace: seq<Action>, i: nat): State
    requires i <= |trace|
  {
    if Legal(INITIAL, trace[..i]) then Exec(INITIAL, trace[..i]) else INITIAL
  }

  lemma SameStateBefore(trace: seq<Action>, longer: seq<Action>, i: nat)
    requires trace <= longer && i <= |trace|
    ensures StateBefore(trace, i) == StateBefore(longer, i)
  {
    assert trace[..i] == longer[..i];
  }

  // From step `from` on, worker `w` posts a flush message.
  ghost predicate Posts(trace: seq<Action>, from: nat, w: nat) {
    exists i :: from <= i < |trace| && trace[i] == Post(w)
  }

  // From step `from` on, worker `w` exchanges a flag that is clear.
  ghost predicate TurnsFlagOn(trace: seq<Action>, from: nat, w: nat) {
    exists i :: from <= i < |trace| && trace[i] == Exchange(w) && !StateBefore(trace, i).flag
  }

  // The three ways a worker's scheduling can go, the other threads' steps in between.
  lemma SchedulingGivenUp(before: seq<Action>, w: nat)
    ensures var trace := before + [CheckSchedule(w)];
            !Posts(trace, |before|, w) && !TurnsFlagOn(trace, |before|, w)
  {
  }

  lemma SchedulingNotNeeded(before: seq<Action>, others: seq<Action>, w: nat)
    requires OthersOnly(others, w)
    ensures var trace := before + [CheckSchedule(w)] + others + [Exchange(w)];
            !Posts(trace, |before|, w)
            && (TurnsFlagOn(trace, |before|, w) <==> !StateBefore(trace, |trace| - 1).flag)
  {
    hide StateBefore;
    var trace := before + [CheckSchedule(w)] + others + [Exchange(w)];
    assert trace[|trace| - 1] == Exchange(w);
    forall i | |before| <= i < |trace| - 1 ensures trace[i] != Post(w) && trace[i] != Exchange(w) {
      if i > |before| {
        assert trace[i] == others[i - |before| - 1];
      }
    }
  }

  lemma SchedulingPosts(before: seq<Action>, trace: seq<Action>, i: nat, w: nat)
    requires |before| <= i < |trace| && trace[i] == Exchange(w) && !StateBefore(trace, i).flag
    ensures Posts(trace + [Post(w)], |before|, w) && TurnsFlagOn(trace + [Post(w)], |before|, w)
  {
    var longer := trace + [Post(w)];
    assert longer[|trace|] == Post(w) && longer[i] == Exchange(w);
    SameStateBefore(trace, longer, i);
  }

  lemma AddedKeeps(before: map<Path, bool>, path: Path, fallback: bool)
    ensures Keeps(before, before)
    ensures path !in before ==> Keeps(before, before[path := fallback])
  {
  }

  lemma KeepsOn(a: map<Path, bool>, b: map<Path, bool>, c: map<Path, bool>)
    requires Keeps(a, b) && Keeps(b, c)
    ensures Keeps(a, c)
  {
  }

  lemma KeepsPath(before: map<Path, bool>, after: map<Path, bool>, path: Path)
    requires Keeps(before, after) && path in before
    ensures path in after && after[path] == before[path]
  {
  }

  // The next step of the UI thread's own scheduling.
  function ScheduleAction(ui: Ui): Action {
    if ui.RecheckActive? then UiCheck else if ui.RecheckExchange? then UiExchange else UiPost
  }

  class DefaultView {
    var detectedPaths: map<Path, bool>
    var uiUpdatesActive: bool
    var flushScheduled: bool
    var pendingKnown: seq<Detection>
    var pendingFallback: seq<Detection>
    var messages: nat           // flush messages in the window's queue
    var shown: seq<Detection>   // rows the view has completed

    // Where the threads stand, what was given up, and the steps taken so far.
    var workers: seq<Worker>
    var ui: Ui
    var discarded: nat
    var dropped: seq<Detection>
    ghost var trace: seq<Action>

    function View(): State
      reads this
    {
      State(detectedPaths, uiUpdatesActive, flushScheduled, pendingKnown, pendingFallback, messages, discarded,
            workers, ui, shown, dropped)
    }

    // The fields are what the steps taken so far lead to: every state of the
    // object is a reachable state of the protocol.
    ghost predicate Valid()
      reads this
    {
      Legal(INITIAL, trace) && Exec(INITIAL, trace) == View()
    }

    constructor ()
      ensures Valid() && View() == INITIAL
      ensures detectedPaths == map[] && uiUpdatesActive && !flushScheduled && messages == 0
      ensures pendingKnown == pendingFallback == shown == []
    {
      detectedPaths, uiUpdatesActive, flushScheduled := map[], true, false;
      pendingKnown, pendingFallback, messages, shown := [], [], 0, [];
      workers, ui, discarded, dropped, trace := [], Waiting, 0, [], [];
    }

    // Records that the fields have just moved from `before` by the step `a`.
    ghost method Took(a: Action, before: State)
      requires Legal(INITIAL, trace) && Exec(INITIAL, trace) == before
      requires Enabled(before, a) && View() == Apply(before, a)
      modifies this`trace
      ensures Valid() && trace == old(trace) + [a]
    {
      OneMoreStep(INITIAL, trace, a);
      trace := trace + [a];
    }

    method MoveTo(s: State)
      modifies this
      ensures View() == s && trace == old(trace)
    {
      detectedPaths, uiUpdatesActive, flushScheduled := s.detected, s.active, s.flag;
      pendingKnown, pendingFallback, messages, shown := s.pendingKnown, s.pendingFallback, s.queued, s.completed;
      workers, ui, discarded, dropped := s.workers, s.ui, s.discarded, s.dropped;
    }

    // Steps of other threads: the fields move to where the run leads.
    method Interfere(run: seq<Action>)
      requires Valid() && Legal(View(), run)
      modifies this
      ensures Valid() && View() == Exec(old(View()), run) && trace == old(trace) + run
    {
      hide Legal, Exec;
      RunsAppend(INITIAL, trace, run);
      MoveTo(Exec(View(), run));
      trace := trace + run;
    }

    // A point where the scheduler may run every thread but worker `w`, for as long as
    // it likes.
    method YieldWorker(w: nat)
      requires Valid() && w < |workers|
      modifies this
      ensures Valid() && old(trace) <= trace && OthersOnly(trace[|old(trace)|..], w)
      ensures w < |workers| && workers[w] == old(workers[w])
      ensures Keeps(old(detectedPaths), detectedPaths)
    {
      hide Legal, Exec;
      var run: seq<Action> := *;
      if Legal(View(), run) && OthersOnly(run, w) {
        OthersLeaveWorker(View(), run, w);
        RunsOnlyAdd(View(), run);
        Interfere(run);
      }
    }

    // A point where the scheduler may run the workers, for as long as it likes.
    method YieldUi()
      requires Valid()
      modifies this
      ensures Valid() && old(trace) <= trace && WorkersOnly(trace[|old(trace)|..])
      ensures ui == old(ui) && uiUpdatesActive == old(uiUpdatesActive) && shown == old(shown)
      ensures LockHeld(old(View())) ==> pendingKnown == old(pendingKnown) && pendingFallback == old(pendingFallback)
    {
      hide Legal, Exec;
      var run: seq<Action> := *;
      if Legal(View(), run) && WorkersOnly(run) {
        WorkersLeaveUi(View(), run);
        Interfere(run);
      }
    }

    // ----- the workers -----

    method AddPath(path: Path, fallback: bool, w: nat) returns (added: bool)
      requires Valid() && w < |workers| && workers[w].Idle?
      modifies this
      ensures Valid() && trace == old(trace) + [Detect(w, path, fallback)]
      ensures added == (path !in old(detectedPaths))
      ensures detectedPaths == if added then old(detectedPaths)[path := fallback] else old(detectedPaths)
      ensures w < |workers| && workers[w] == if added then Added(Detection(path, fallback)) else Idle
    {
      hide Legal, Exec;
      ghost var before := View();
      added := path !in detectedPaths;
      if added {
        detectedPaths := detectedPaths[path := fallback];
        workers := workers[w := Added(Detection(path, fallback))];
      }
      Took(Detect(w, path, fallback), before);
    }

    // Reading `ui_updates_active` before pushing.
    method TestActive(w: nat) returns (active: bool)
      requires Valid() && w < |workers| && workers[w].Added?
      modifies this
      ensures Valid() && trace == old(trace) + [CheckActive(w)]
      ensures active == old(uiUpdatesActive) && detectedPaths == old(detectedPaths)
      ensures w < |workers| && workers[w] == if active then Admitted(old(workers[w]).found) else Idle
    {
      hide Legal, Exec;
      ghost var before := View();
      var found := workers[w].found;
      active := uiUpdatesActive;
      if active {
        workers := workers[w := Admitted(found)];
      } else {
        workers, dropped := workers[w := Idle], dropped + [found];
      }
      Took(CheckActive(w), before);
    }

    // The critical section in which a worker pushes.
    method PushPending(w: nat)
      requires Valid() && w < |workers| && workers[w].Admitted? && !LockHeld(View())
      modifies this
      ensures Valid() && trace == old(trace) + [Push(w)]
      ensures detectedPaths == old(detectedPaths)
      ensures w < |workers| && workers[w] == Pushed
      ensures var found := old(workers[w]).found;
              && pendingKnown == old(pendingKnown) + (if found.fallback then [] else [found])
              && pendingFallback == old(pendingFallback) + (if found.fallback then [found] else [])
    {
      hide Legal, Exec;
      ghost var before := View();
      var found := workers[w].found;
      if found.fallback {
        pendingFallback := pendingFallback + [found];
      } else {
        pendingKnown := pendingKnown + [found];
      }
      workers := workers[w := Pushed];
      Took(Push(w), before);
    }

    // Reading `ui_updates_active` before exchanging the flag.
    method TestScheduling(w: nat) returns (active: bool)
      requires Valid() && w < |workers| && workers[w].Pushed?
      modifies this
      ensures Valid() && trace == old(trace) + [CheckSchedule(w)]
      ensures active == old(uiUpdatesActive) && detectedPaths == old(detectedPaths)
      ensures w < |workers| && workers[w] == if active then Exchanging else Idle
    {
      hide Legal, Exec;
      ghost var before := View();
      active := uiUpdatesActive;
      workers := workers[w := if active then Exchanging else Idle];
      Took(CheckSchedule(w), before);
    }

    method ExchangeFlag(w: nat) returns (wasScheduled: bool)
      requires Valid() && w < |workers| && workers[w].Exchanging?
      modifies this
      ensures Valid() && trace == old(trace) + [Exchange(w)]
      ensures flushScheduled && wasScheduled == old(flushScheduled) == StateBefore(trace, |old(trace)|).flag
      ensures detectedPaths == old(detectedPaths)
      ensures w < |workers| && workers[w] == if wasScheduled then Idle else Posting
    {
      hide Legal, Exec;
      ghost var before := View();
      wasScheduled := flushScheduled;
      flushScheduled := true;
      workers := workers[w := if wasScheduled then Idle else Posting];
      ghost var earlier := trace;
      Took(Exchange(w), before);
      assert trace[..|earlier|] == earlier;
    }

    method PostMessage(w: nat)
      requires Valid() && w < |workers| && workers[w].Posting?
      modifies this
      ensures Valid() && trace == old(trace) + [Post(w)]
      ensures messages == old(messages) + 1 && detectedPaths == old(detectedPaths)
      ensures w < |workers| && workers[w] == Idle
    {
      hide Legal, Exec;
      ghost var before := View();
      messages := messages + 1;
      workers := workers[w := Idle];
      Took(Post(w), before);
    }

    // `schedule_detection_flush`, called by a worker that has just pushed: it posts a
    // message exactly when it is the one that turns the flag on.
    method ScheduleDetectionFlush(w: nat)
      requires Valid() && w < |workers| && workers[w].Pushed?
      modifies this
      ensures Valid() && old(trace) <= trace
      ensures w < |workers| && workers[w].Idle?
      ensures Keeps(old(detectedPaths), detectedPaths)
      ensures Posts(trace, |old(trace)|, w) <==> TurnsFlagOn(trace, |old(trace)|, w)
    {
      hide Valid, StateBefore, Posts, TurnsFlagOn;
      ghost var before := trace;
      var active := TestScheduling(w);
      if !active {
        SchedulingGivenUp(before, w);
        return;
      }
      ghost var asked := trace;
      YieldWorker(w);
      ghost var others := trace[|asked|..];
      assert trace == before + [CheckSchedule(w)] + others;
      var wasScheduled := ExchangeFlag(w);
      SchedulingNotNeeded(before, others, w);
      if !wasScheduled {
        ghost var exchanged := trace;
        YieldWorker(w);
        SameStateBefore(exchanged, trace, |exchanged| - 1);
        SchedulingPosts(before, trace, |exchanged| - 1, w);
        PostMessage(w);
      }
    }

    // Waiting for the pending lock: the UI thread, which may hold it, goes on until
    // it is released.
    method AcquireLock(w: nat)
      requires Valid() && w < |workers|
      modifies this
      ensures Valid() && old(trace) <= trace && !LockHeld(View())
      ensures w < |workers| && workers[w] == old(workers[w])
      ensures detectedPaths == old(detectedPaths)
    {
      hide Legal, Exec;
      while LockHeld(View())
        invariant Valid() && old(trace) <= trace
        invariant w < |workers| && workers[w] == old(workers[w])
        invariant detectedPaths == old(detectedPaths)
        decreases if ui.RecheckActive? then 3 else if ui.RecheckExchange? then 2 else if ui.RecheckPost? then 1 else 0
      {
        ScheduleStep();
      }
    }

    // The next atomic operation of a `schedule_detection_flush` the UI thread is in.
    method ScheduleStep()
      requires Valid() && LockHeld(View())
      modifies this
      ensures Valid() && old(trace) <= trace
      ensures View() == Apply(old(View()), ScheduleAction(old(ui)))
    {
      hide Legal, Exec;
      ghost var before := View();
      match ui {
        case RecheckActive =>
          ui := if uiUpdatesActive then RecheckExchange else Waiting;
          Took(UiCheck, before);
        case RecheckExchange =>
          ui := if flushScheduled then Waiting else RecheckPost;
          flushScheduled := true;
          Took(UiExchange, before);
        case RecheckPost =>
          messages, ui := messages + 1, Waiting;
          Took(UiPost, before);
      }
    }

    // The tail of `process_path` and `process_fallback`: record the path and, if
    // it is new and the window is there, push it and wake the UI thread.
    method ReportDetection(path: Path, fallback: bool, w: nat)
      requires Valid() && w < |workers| && workers[w].Idle?
      modifies this
      ensures Valid() && old(trace) <= trace
      ensures w < |workers| && workers[w].Idle?
      ensures Keeps(old(detectedPaths), detectedPaths)
      ensures path in detectedPaths && (path !in old(detectedPaths) ==> detectedPaths[path] == fallback)
      ensures |old(trace)| < |trace| && trace[|old(trace)|] == Detect(w, path, fallback)
    {
      hide Valid, Keeps;
      ghost var before := detectedPaths;
      var added := AddPath(path, fallback, w);
      ghost var recorded := detectedPaths;
      AddedKeeps(before, path, fallback);
      if !added {
        return;
      }
      YieldWorker(w);
      var active := TestActive(w);
      KeepsOn(before, recorded, detectedPaths);
      KeepsPath(recorded, detectedPaths, path);
      if active {
        ghost var admitted := detectedPaths;
        PushAndSchedule(w);
        KeepsOn(recorded, admitted, detectedPaths);
        KeepsOn(before, recorded, detectedPaths);
        KeepsPath(recorded, detectedPaths, path);
      }
    }

    // What follows when the window is there.
    method PushAndSchedule(w: nat)
      requires Valid() && w < |workers| && workers[w].Admitted?
      modifies this
      ensures Valid() && old(trace) <= trace
      ensures w < |workers| && workers[w].Idle?
      ensures Keeps(old(detectedPaths), detectedPaths)
    {
      hide Valid, Keeps;
      ghost var first := detectedPaths;
      YieldWorker(w);
      AcquireLock(w);
      PushPending(w);
      ghost var second := detectedPaths;
      YieldWorker(w);
      ghost var third := detectedPaths;
      ScheduleDetectionFlush(w);
      KeepsOn(first, second, third);
      KeepsOn(first, third, detectedPaths);
    }

    // ----- the UI thread -----

    method ClearFlagStep()
      requires Valid() && ui.Dequeued?
      modifies this
      ensures Valid() && trace == old(trace) + [ClearFlag]
      ensures !flushScheduled && ui == Cleared && shown == old(shown)
    {
      hide Legal, Exec;
      ghost var before := View();
      flushScheduled, ui := false, Cleared;
      Took(ClearFlag, before);
    }

    // The critical section in which both lists are swapped out.
    method SwapPending() returns (known: seq<Detection>, fallbacks: seq<Detection>)
      requires Valid() && ui.Cleared?
      modifies this
      ensures Valid() && trace == old(trace) + [Swap]
      ensures known == old(pendingKnown) == StateBefore(trace, |old(trace)|).pendingKnown
      ensures fallbacks == old(pendingFallback) == StateBefore(trace, |old(trace)|).pendingFallback
      ensures pendingKnown == [] && pendingFallback == []
      ensures ui == Processing(known, fallbacks) && shown == old(shown)
    {
      hide Legal, Exec;
      ghost var before := View();
      known, fallbacks := pendingKnown, pendingFallback;
      pendingKnown, pendingFallback, ui := [], [], Processing(known, fallbacks);
      ghost var earlier := trace;
      Took(Swap, before);
      assert trace[..|earlier|] == earlier;
    }

    // Looking at the lists again, now holding the lock.
    method LookAgain() returns (more: bool)
      requires Valid() && ui == Processing([], [])
      modifies this
      ensures Valid() && trace == old(trace) + [Recheck]
      ensures more == (pendingKnown != [] || pendingFallback != [])
      ensures ui == (if more then RecheckActive else Waiting) && shown == old(shown)
    {
      hide Legal, Exec;
      ghost var before := View();
      more := pendingKnown != [] || pendingFallback != [];
      ui := if more then RecheckActive else Waiting;
      Took(Recheck, before);
    }

    // `wm_flush_detections`: clear the flag, take both lists, complete what was
    // taken, known detections first, and look again under the lock. Step `swapAt` is
    // the one that takes the lists, and `known` and `fallbacks` are what they hold then.
    method WmFlushDetections() returns (ghost known: seq<Detection>, ghost fallbacks: seq<Detection>, ghost swapAt: nat)
      requires Valid() && ui.Dequeued?
      modifies this
      ensures Valid() && old(trace) <= trace && ui.Waiting?
      ensures |old(trace)| <= swapAt < |trace| && trace[swapAt] == Swap
      ensures known == StateBefore(trace, swapAt).pendingKnown
              && fallbacks == StateBefore(trace, swapAt).pendingFallback
      ensures shown == old(shown) + known + fallbacks
    {
      hide Valid, StateBefore;
      ClearFlagStep();
      YieldUi();
      swapAt := |trace|;
      var knownBatch, fallbackBatch := SwapPending();
      known, fallbacks := knownBatch, fallbackBatch;
      ghost var swapped := trace;
      CompleteKnown(knownBatch, fallbackBatch);
      CompleteFallbacks(fallbackBatch);

      YieldUi();
      var more := LookAgain();
      if more {
        ScheduleFromUi();
      }
      SameStateBefore(swapped, trace, swapAt);
    }

    // The loop over the known batch.
    method CompleteKnown(batch: seq<Detection>, ghost fallbacks: seq<Detection>)
      requires Valid() && ui == Processing(batch, fallbacks)
      modifies this
      ensures Valid() && old(trace) <= trace
      ensures ui == Processing([], fallbacks) && shown == old(shown) + batch
    {
      hide Valid;
      for i := 0 to |batch|
        invariant Valid() && old(trace) <= trace
        invariant ui == Processing(batch[i..], fallbacks) && shown == old(shown) + batch[..i]
      {
        YieldUi();
        assert batch[i..][1..] == batch[i + 1..];
        CompleteDetection(batch[i]);
      }
      assert batch[..|batch|] == batch;
    }

    // The loop over the fallback batch, when the known ones are completed.
    method CompleteFallbacks(batch: seq<Detection>)
      requires Valid() && ui == Processing([], batch)
      modifies this
      ensures Valid() && old(trace) <= trace
      ensures ui == Processing([], []) && shown == old(shown) + batch
    {
      hide Valid;
      for i := 0 to |batch|
        invariant Valid() && old(trace) <= trace
        invariant ui == Processing([], batch[i..]) && shown == old(shown) + batch[..i]
      {
        YieldUi();
        assert batch[i..][1..] == batch[i + 1..];
        CompleteDetection(batch[i]);
      }
      assert batch[..|batch|] == batch;
    }

    // The row for the first detection of the batch, known ones first.
    method CompleteDetection(found: Detection)
      requires Valid() && ui.Processing?
      requires if ui.known != [] then found == ui.known[0] else ui.fallbacks != [] && found == ui.fallbacks[0]
      modifies this
      ensures Valid() && trace == old(trace) + [Complete]
      ensures shown == old(shown) + [found]
      ensures ui == if old(ui).known != [] then Processing(old(ui).known[1..], old(ui).fallbacks)
                    else Processing([], old(ui).fallbacks[1..])
    {
      hide Legal, Exec;
      ghost var before := View();
      shown := shown + [found];
      ui := if ui.known != [] then Processing(ui.known[1..], ui.fallbacks) else Processing([], ui.fallbacks[1..]);
      Took(Complete, before);
    }

    // `schedule_detection_flush`, called by the UI thread holding the lock.
    method ScheduleFromUi()
      requires Valid() && LockHeld(View())
      modifies this
      ensures Valid() && old(trace) <= trace && ui.Waiting? && shown == old(shown)
    {
      hide Legal, Exec;
      while LockHeld(View())
        invariant Valid() && old(trace) <= trace && shown == old(shown)
        invariant LockHeld(View()) || ui.Waiting?
        decreases if ui.RecheckActive? then 3 else if ui.RecheckExchange? then 2 else if ui.RecheckPost? then 1 else 0
      {
        YieldUi();
        ScheduleStep();
      }
    }

    // The window procedure's branch for a flush message taken from the queue.
    method DispatchFlush()
      requires Valid() && ui.Waiting? && messages > 0
      modifies this
      ensures Valid() && old(trace) <= trace && ui.Waiting?
      ensures old(shown) <= shown
      ensures !old(uiUpdatesActive) ==> shown == old(shown) && discarded == old(discarded) + 1
    {
      hide Legal, Exec;
      ghost var before := View();
      messages := messages - 1;
      if uiUpdatesActive {
        ui := Dequeued;
        Took(Dispatch, before);
        YieldUi();
        ghost var known, fallbacks, swapAt := WmFlushDetections();
      } else {
        discarded := discarded + 1;
        Took(Dispatch, before);
      }
    }

    // The critical section in which a window that goes clears both lists.
    method ClearPendingLists()
      requires Valid() && ui.Deactivated?
      modifies this
      ensures Valid() && trace == old(trace) + [ClearPending]
      ensures pendingKnown == [] && pendingFallback == [] && ui == Waiting
      ensures uiUpdatesActive == old(uiUpdatesActive) && shown == old(shown)
    {
      hide Legal, Exec;
      ghost var before := View();
      dropped := dropped + pendingKnown + pendingFallback;
      pendingKnown, pendingFallback, ui := [], [], Waiting;
      Took(ClearPending, before);
    }

    // `wm_destroy`: stop, then clear both lists.
    method WmDestroy()
      requires Valid() && ui.Waiting? && uiUpdatesActive
      modifies this
      ensures Valid() && old(trace) <= trace && ui.Waiting?
      ensures !uiUpdatesActive && pendingKnown == [] && pendingFallback == [] && shown == old(shown)
    {
      hide Legal, Exec;
      ghost var before := View();
      uiUpdatesActive, ui := false, Deactivated;
      Took(Destroy, before);
      hide Valid;
      YieldUi();
      ClearPendingLists();
    }
  }

  // Whatever calls were made, with whatever interference: the object's state
  // satisfies the protocol's invariant.
  lemma ViewKeepsInvariant(view: DefaultView)
    requires view.Valid()
    ensures Inv(view.View())
  {
    EveryReachableState(view.trace);
  }

  // When all threads are at rest and the window is alive, the rows shown are the
  // recorded paths, each exactly once.
  lemma RowsAreTheDetectedPaths(view: DefaultView, d: Detection)
    requires view.Valid() && view.uiUpdatesActive && Quiescent(view.View())
    ensures Copies(view.shown, d)
         == if d.path in view.detectedPaths && view.detectedPaths[d.path] == d.fallback then 1 else 0
  {
    hide Legal, Exec, Inv;
    ViewKeepsInvariant(view);
    RestMeansEverythingCompleted(view.View(), d);
  }
}
