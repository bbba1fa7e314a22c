// The game-detection flush protocol of the default view, as a state machine:
// workers find games and push them under a lock, one flag coalesces the wake-up
// messages, and the UI thread drains what was pushed. Each action is one atomic
// operation or one critical section of the code.
module DetectionModel {
  type Path = string

  // A detected executable; `fallback` tells which of the two lists it goes to.
  datatype Detection = Detection(path: Path, fallback: bool)

  // Where a worker stands between two atomic operations.
  datatype Worker =
    | Idle                        // looking for executables
    | Added(found: Detection)     // the path is recorded; about to test ui_updates_active
    | Admitted(found: Detection)  // about to take the lock and push
    | Pushed                      // about to test ui_updates_active again
    | Exchanging                  // about to exchange the flag
    | Posting                     // won the exchange; about to post the message

  // Where the UI thread stands. The last three hold the pending lock.
  datatype Ui =
    | Waiting
    | Dequeued                                                  // a flush message was taken; flag not yet cleared
    | Cleared                                                   // flag cleared; lists not yet swapped
    | Processing(known: seq<Detection>, fallbacks: seq<Detection>)
    | Deactivated                                               // the window is going; lists not yet cleared
    | RecheckActive
    | RecheckExchange
    | RecheckPost

  datatype State = State(
    detected: map<Path, bool>,
    active: bool,
    flag: bool,
    pendingKnown: seq<Detection>,
    pendingFallback: seq<Detection>,
    queued: nat,                  // flush messages in the window's queue
    discarded: nat,               // flush messages that arrived after the window went
    workers: seq<Worker>,
    ui: Ui,
    completed: seq<Detection>,    // detections shown in the view
    dropped: seq<Detection>)      // detections given up because the window went

  const INITIAL: State := State(map[], true, false, [], [], 0, 0, [], Waiting, [], [])

  datatype Action =
    | Spawn
    | Detect(worker: nat, path: Path, fallback: bool)
    | CheckActive(worker: nat)
    | Push(worker: nat)
    | CheckSchedule(worker: nat)
    | Exchange(worker: nat)
    | Post(worker: nat)
    | Dispatch
    | ClearFlag
    | Swap
    | Complete
    | Recheck
    | UiCheck
    | UiExchange
    | UiPost
    | Destroy
    | ClearPending

  predicate LockHeld(s: State) {
    s.ui.RecheckActive? || s.ui.RecheckExchange? || s.ui.RecheckPost?
  }

  predicate NothingPending(s: State) {
    s.pendingKnown == [] && s.pendingFallback == []
  }

  predicate Enabled(s: State, a: Action) {
    match a
    case Spawn => true
    case Detect(w, _, _) => w < |s.workers| && s.workers[w].Idle?
    case CheckActive(w) => w < |s.workers| && s.workers[w].Added?
    case Push(w) => w < |s.workers| && s.workers[w].Admitted? && !LockHeld(s)
    case CheckSchedule(w) => w < |s.workers| && s.workers[w].Pushed?
    case Exchange(w) => w < |s.workers| && s.workers[w].Exchanging?
    case Post(w) => w < |s.workers| && s.workers[w].Posting?
    case Dispatch => s.ui.Waiting? && s.queued > 0
    case ClearFlag => s.ui.Dequeued?
    case Swap => s.ui.Cleared?
    case Complete => s.ui.Processing? && |s.ui.known| + |s.ui.fallbacks| > 0
    case Recheck => s.ui.Processing? && |s.ui.known| + |s.ui.fallbacks| == 0
    case UiCheck => s.ui.RecheckActive?
    case UiExchange => s.ui.RecheckExchange?
    case UiPost => s.ui.RecheckPost?
    case Destroy => s.ui.Waiting? && s.active
    case ClearPending => s.ui.Deactivated?
  }

  function Apply(s: State, a: Action): State
    requires Enabled(s, a)
  {
    match a
    case Spawn => s.(workers := s.workers + [Idle])
    case Detect(w, path, fallback) =>
      if path in s.detected then s
      else s.(detected := s.detected[path := fallback], workers := s.workers[w := Added(Detection(path, fallback))])
    case CheckActive(w) =>
      var found := s.workers[w].found;
      if s.active then s.(workers := s.workers[w := Admitted(found)])
      else s.(workers := s.workers[w := Idle], dropped := s.dropped + [found])
    case Push(w) =>
      var found := s.workers[w].found;
      if found.fallback then s.(pendingFallback := s.pendingFallback + [found], workers := s.workers[w := Pushed])
      else s.(pendingKnown := s.pendingKnown + [found], workers := s.workers[w := Pushed])
    case CheckSchedule(w) => s.(workers := s.workers[w := if s.active then Exchanging else Idle])
    case Exchange(w) => s.(flag := true, workers := s.workers[w := if s.flag then Idle else Posting])
    case Post(w) => s.(queued := s.queued + 1, workers := s.workers[w := Idle])
    case Dispatch =>
      if s.active then s.(queued := s.queued - 1, ui := Dequeued)
      else s.(queued := s.queued - 1, discarded := s.discarded + 1)
    case ClearFlag => s.(flag := false, ui := Cleared)
    case Swap => s.(pendingKnown := [], pendingFallback := [], ui := Processing(s.pendingKnown, s.pendingFallback))
    case Complete =>
      if |s.ui.known| > 0 then
        s.(completed := s.completed + [s.ui.known[0]], ui := Processing(s.ui.known[1..], s.ui.fallbacks))
      else
        s.(completed := s.completed + [s.ui.fallbacks[0]], ui := Processing([], s.ui.fallbacks[1..]))
    case Recheck => s.(ui := if NothingPending(s) then Waiting else RecheckActive)
    case UiCheck => s.(ui := if s.active then RecheckExchange else Waiting)
    case UiExchange => s.(flag := true, ui := if s.flag then Waiting else RecheckPost)
    case UiPost => s.(queued := s.queued + 1, ui := Waiting)
    case Destroy => s.(active := false, ui := Deactivated)
    case ClearPending =>
      s.(dropped := s.dropped + s.pendingKnown + s.pendingFallback,
         pendingKnown := [], pendingFallback := [], ui := Waiting)
  }

  // ----- runs -----

  predicate Legal(s: State, run: seq<Action>)
    decreases |run|
  {
    |run| == 0 || (Enabled(s, run[0]) && Legal(Apply(s, run[0]), run[1..]))
  }

  function Exec(s: State, run: seq<Action>): State
    requires Legal(s, run)
    decreases |run|
  {
    if |run| == 0 then s else Exec(Apply(s, run[0]), run[1..])
  }

  // ----- the invariant -----

  // Flush messages a worker is about to post.
  function Posters(workers: seq<Worker>): nat {
    if |workers| == 0 then 0
    else Posters(workers[..|workers| - 1]) + (if workers[|workers| - 1].Posting? then 1 else 0)
  }

  // Flush messages that are about to be posted, queued, or taken from the queue
  // and not acknowledged by clearing the flag.
  function Outstanding(s: State): nat {
    Posters(s.workers) + s.queued + (if s.ui.RecheckPost? || s.ui.Dequeued? then 1 else 0)
  }

  function Copies(list: seq<Detection>, d: Detection): nat {
    multiset(list)[d]
  }

  // A detection is with a worker from being recorded until it is pushed.
  function HeldBy(worker: Worker, d: Detection): nat {
    if (worker.Added? || worker.Admitted?) && worker.found == d then 1 else 0
  }

  function Held(workers: seq<Worker>, d: Detection): nat {
    if |workers| == 0 then 0 else Held(workers[..|workers| - 1], d) + HeldBy(workers[|workers| - 1], d)
  }

  function Batched(ui: Ui, d: Detection): nat {
    if ui.Processing? then Copies(ui.known, d) + Copies(ui.fallbacks, d) else 0
  }

  function Pending(s: State, d: Detection): nat {
    Copies(s.pendingKnown, d) + Copies(s.pendingFallback, d)
  }

  // How many times `d` occurs in all the places a detection can be.
  function Places(s: State, d: Detection): nat {
    Copies(s.completed, d) + Batched(s.ui, d) + Pending(s, d) + Held(s.workers, d) + Copies(s.dropped, d)
  }

  predicate IsDetected(s: State, d: Detection) {
    d.path in s.detected && s.detected[d.path] == d.fallback
  }

  // Every detected path is in exactly one place, once, and nothing else is anywhere.
  ghost predicate ExactlyOnce(s: State) {
    forall d :: Places(s, d) == if IsDetected(s, d) then 1 else 0
  }

  // The flag is set exactly when one message is outstanding or was discarded.
  predicate FlagCountsMessages(s: State) {
    Outstanding(s) + s.discarded == if s.flag then 1 else 0
  }

  predicate SomeoneWillSchedule(s: State) {
    exists w :: 0 <= w < |s.workers| && (s.workers[w].Pushed? || s.workers[w].Exchanging?)
  }

  // A pending detection is never forgotten.
  predicate NoLostWakeUp(s: State) {
    s.active && !NothingPending(s) ==> s.flag || s.ui.Cleared? || SomeoneWillSchedule(s)
  }

  predicate UiConsistent(s: State) {
    && (!s.active ==> s.ui.Waiting? || s.ui.Deactivated?)
    && (s.active ==> !s.ui.Deactivated? && s.discarded == 0 && s.dropped == [])
    && (LockHeld(s) ==> !NothingPending(s))
  }

  // Each list holds detections of its own kind.
  predicate ListsSorted(s: State) {
    && (forall d :: d in s.pendingKnown ==> !d.fallback)
    && (forall d :: d in s.pendingFallback ==> d.fallback)
  }

  ghost predicate Inv(s: State) {
    FlagCountsMessages(s) && NoLostWakeUp(s) && ExactlyOnce(s) && UiConsistent(s) && ListsSorted(s)
  }
}
