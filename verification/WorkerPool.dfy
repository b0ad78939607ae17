/**
  The hand-off of accepted sockets from the listener to the workers: one mutex, one queue, one condition
  variable. The listener notifies after it has released the mutex, and a wait may also end by itself.
*/
module WorkerPool {
  import opened Base

  datatype Worker =
    | Wanting                  // about to lock, coming from outside
    | Holding(woken: bool)     // mutex held, about to test the queue
    | Blocked                  // in wait
    | Woken                    // left wait, mutex not yet held again
    | Took(socket: int)        // popped, mutex held
    | Handling(socket: int)    // returned, running the session

  datatype Listener =
    | Accepting
    | Pushing(socket: int)     // accepted, mutex not held
    | Locked(socket: int)      // mutex held, not yet pushed
    | Pushed                   // pushed, mutex held
    | Notifying                // mutex released, notify_one not yet called

  datatype Owner = Free | Held(w: nat) | ByListener

  datatype State = State(
    queue: seq<int>,
    mtx: Owner,
    workers: seq<Worker>,
    listener: Listener,
    accepted: seq<int>,         // every socket accepted so far
    handed: seq<(nat, int)>)    // every hand-over so far: worker and socket

  datatype Action =
    | Accept(socket: int) | Lock | Push | Unlock | Notify(chosen: nat)          // listener
    | Acquire(w: nat) | Test(w: nat) | Release(w: nat) | Spurious(w: nat) | Finish(w: nat)

  function Init(workers: nat): State {
    State([], Free, seq(workers, _ => Wanting), Accepting, [], [])
  }

  function Put(s: State, w: nat, k: Worker): State
    requires w < |s.workers|
  {
    s.(workers := s.workers[w := k])
  }

  predicate NoneBlocked(s: State) {
    forall w :: 0 <= w < |s.workers| ==> s.workers[w] != Blocked
  }

  function Step(s: State, a: Action): Option<State> {
    match a
    case Accept(socket) =>
      if s.listener == Accepting then Some(s.(listener := Pushing(socket), accepted := s.accepted + [socket])) else None
    case Lock =>
      if !s.listener.Pushing? || s.mtx != Free then None
      else Some(s.(listener := Locked(s.listener.socket), mtx := ByListener))
    case Push =>
      if s.listener.Locked? then Some(s.(listener := Pushed, queue := s.queue + [s.listener.socket])) else None
    case Unlock =>
      if s.listener == Pushed then Some(s.(listener := Notifying, mtx := Free)) else None
    case Notify(w) =>
      if s.listener != Notifying then None
      else if NoneBlocked(s) then Some(s.(listener := Accepting))
      else if w < |s.workers| && s.workers[w] == Blocked then Some(Put(s.(listener := Accepting), w, Woken))
      else None
    case Acquire(w) =>
      if w < |s.workers| && s.mtx == Free && (s.workers[w] == Wanting || s.workers[w] == Woken)
      then Some(Put(s.(mtx := Held(w)), w, Holding(s.workers[w] == Woken))) else None
    case Test(w) =>
      if w < |s.workers| && s.workers[w].Holding? then
        if s.queue == [] then Some(Put(s.(mtx := Free), w, Blocked))
        else Some(Put(s.(queue := s.queue[1..], handed := s.handed + [(w, s.queue[0])]), w, Took(s.queue[0])))
      else None
    case Release(w) =>
      if w >= |s.workers| || !s.workers[w].Took? then None
      else Some(Put(s.(mtx := Free), w, Handling(s.workers[w].socket)))
    case Spurious(w) =>
      if w < |s.workers| && s.workers[w] == Blocked then Some(Put(s, w, Woken)) else None
    case Finish(w) =>
      if w < |s.workers| && s.workers[w].Handling? then Some(Put(s, w, Wanting)) else None
  }

  function Exec(s: State, acts: seq<Action>): Option<State>
    decreases |acts|
  {
    if acts == [] then Some(s)
    else
      var next := Step(s, acts[0]);
      if next.None? then None else Exec(next.value, acts[1..])
  }

  // ---------------------------------------------------------------- no lost wakeup

  predicate Rechecking(k: Worker) {
    k == Woken || k == Holding(true)
  }

  /** Workers that left wait and have not tested the queue since. */
  function Woke(ws: seq<Worker>): nat {
    if ws == [] then 0 else (if Rechecking(ws[0]) then 1 else 0) + Woke(ws[1..])
  }

  function PendingNotices(s: State): nat {
    if s.listener == Pushed || s.listener == Notifying then 1 else 0
  }

  lemma {:induction false} WokeUpdate(ws: seq<Worker>, i: nat, k: Worker)
    requires i < |ws|
    ensures Woke(ws[i := k]) + (if Rechecking(ws[i]) then 1 else 0) == Woke(ws) + (if Rechecking(k) then 1 else 0)
  {
    if i == 0 {
      assert ws[0 := k][1..] == ws[1..];
    } else {
      assert ws[i := k][1..] == ws[1..][i - 1 := k];
      WokeUpdate(ws[1..], i - 1, k);
    }
  }

  ghost predicate Mutex(s: State) {
    && (s.mtx.Held? ==> s.mtx.w < |s.workers|)
    && (s.mtx == ByListener <==> s.listener.Locked? || s.listener == Pushed)
    && (forall w :: 0 <= w < |s.workers| ==> (s.workers[w].Holding? || s.workers[w].Took? <==> s.mtx == Held(w)))
  }

  ghost predicate Covered(s: State) {
    !NoneBlocked(s) ==> |s.queue| <= Woke(s.workers) + PendingNotices(s)
  }

  function Sockets(handed: seq<(nat, int)>): seq<int> {
    seq(|handed|, i requires 0 <= i < |handed| => handed[i].1)
  }

  function InHand(l: Listener): seq<int> {
    if l.Pushing? || l.Locked? then [l.socket] else []
  }

  ghost predicate InOrder(s: State) {
    && s.accepted == Sockets(s.handed) + s.queue + InHand(s.listener)
    && (forall w :: 0 <= w < |s.workers| && (s.workers[w].Took? || s.workers[w].Handling?) ==>
         (w, s.workers[w].socket) in s.handed)
  }

  ghost predicate Inv(s: State) {
    Mutex(s) && Covered(s) && InOrder(s)
  }

  lemma StepKeepsMutex(s: State, a: Action)
    requires Mutex(s) && Step(s, a).Some?
    ensures Mutex(Step(s, a).value)
  {
  }

  lemma StepKeepsCovered(s: State, a: Action)
    requires Mutex(s) && Covered(s) && Step(s, a).Some?
    ensures Covered(Step(s, a).value)
  {
    var s' := Step(s, a).value;
    match a {
      case Notify(w) =>
        if !NoneBlocked(s) { WokeUpdate(s.workers, w, s'.workers[w]); }
      case Acquire(w) => WokeUpdate(s.workers, w, s'.workers[w]);
      case Test(w) => WokeUpdate(s.workers, w, s'.workers[w]);
      case Release(w) => WokeUpdate(s.workers, w, s'.workers[w]);
      case Spurious(w) => WokeUpdate(s.workers, w, s'.workers[w]);
      case Finish(w) => WokeUpdate(s.workers, w, s'.workers[w]);
      case _ =>
    }
    if !NoneBlocked(s') && NoneBlocked(s) {
      assert a.Test? && s'.queue == [];
    }
  }

  lemma StepKeepsOrder(s: State, a: Action)
    requires InOrder(s) && Step(s, a).Some?
    ensures InOrder(Step(s, a).value)
  {
    var s' := Step(s, a).value;
    if a.Test? && s.queue != [] {
      assert Sockets(s'.handed) == Sockets(s.handed) + [s.queue[0]];
      assert s.queue == [s.queue[0]] + s.queue[1..];
    }
    forall w | 0 <= w < |s'.workers| && (s'.workers[w].Took? || s'.workers[w].Handling?)
      ensures (w, s'.workers[w].socket) in s'.handed
    {
      if a.Test? && a.w == w {
        assert s'.handed[|s.handed|] == (w, s'.workers[w].socket);
      } else {
        assert (w, s.workers[w].socket) in s.handed;
      }
    }
  }

  lemma {:induction false} RunKeepsInv(s: State, acts: seq<Action>)
    requires Inv(s) && Exec(s, acts).Some?
    ensures Inv(Exec(s, acts).value)
    decreases |acts|
  {
    if acts != [] {
      StepKeepsMutex(s, acts[0]);
      StepKeepsCovered(s, acts[0]);
      StepKeepsOrder(s, acts[0]);
      RunKeepsInv(Step(s, acts[0]).value, acts[1..]);
    }
  }

  lemma InitInv(workers: nat)
    ensures Inv(Init(workers))
  {
  }

  lemma {:induction false} NobodyWoke(ws: seq<Worker>)
    requires forall w :: 0 <= w < |ws| ==> !Rechecking(ws[w])
    ensures Woke(ws) == 0
  {
    if ws != [] {
      assert !Rechecking(ws[0]);
      assert forall w :: 0 <= w < |ws[1..]| ==> ws[1..][w] == ws[w + 1];
      NobodyWoke(ws[1..]);
    }
  }

  /**
    No lost wakeup, under every schedule: while some worker is blocked, the queue is no longer than the number of
    workers that left wait and have yet to look plus the notice still to come. So a queued socket never waits with
    every worker blocked and no notice pending.
  */
  lemma NoLostWakeup(workers: nat, acts: seq<Action>)
    requires Exec(Init(workers), acts).Some?
    ensures var s := Exec(Init(workers), acts).value;
            && (!NoneBlocked(s) ==> |s.queue| <= Woke(s.workers) + PendingNotices(s))
            && (|s.workers| > 0 && (forall w :: 0 <= w < |s.workers| ==> s.workers[w] == Blocked) &&
                PendingNotices(s) == 0 ==>
                  s.queue == [])
  {
    InitInv(workers);
    RunKeepsInv(Init(workers), acts);
    var s := Exec(Init(workers), acts).value;
    if |s.workers| > 0 && forall w :: 0 <= w < |s.workers| ==> s.workers[w] == Blocked {
      assert s.workers[0] == Blocked;
      NobodyWoke(s.workers);
    }
  }

  /**
    Every accepted socket is handed to exactly one worker, in acceptance order: hand-overs, queue and the socket the
    listener still holds spell out the accepted sockets with nothing lost, doubled or reordered.
  */
  lemma HandedOnceInOrder(workers: nat, acts: seq<Action>)
    requires Exec(Init(workers), acts).Some?
    ensures var s := Exec(Init(workers), acts).value;
            && s.accepted == Sockets(s.handed) + s.queue + InHand(s.listener)
            && (forall w :: 0 <= w < |s.workers| && s.workers[w].Handling? ==> (w, s.workers[w].socket) in s.handed)
  {
    InitInv(workers);
    RunKeepsInv(Init(workers), acts);
  }

  // ---------------------------------------------------------------- a queued socket is picked up

  /** Neither holding a socket nor running a session. */
  predicate Available(k: Worker) {
    !k.Took? && !k.Handling?
  }

  ghost predicate SomeAvailable(s: State) {
    exists w :: 0 <= w < |s.workers| && Available(s.workers[w])
  }

  /** Steps of the hand-off itself: no arrival, no spurious wakeup, no session ending. */
  predicate Internal(a: Action) {
    !a.Accept? && !a.Spurious? && !a.Finish?
  }

  /** Steps left before the next hand-over, at most. */
  function Ahead(k: Worker): nat {
    match k
    case Wanting => 2
    case Woken => 2
    case Holding(_) => 1
    case Took(_) => 1
    case _ => 0
  }

  function AheadAll(ws: seq<Worker>): nat {
    if ws == [] then 0 else Ahead(ws[0]) + AheadAll(ws[1..])
  }

  function ListenerAhead(l: Listener): nat {
    match l
    case Pushing(_) => 6
    case Locked(_) => 5
    case Pushed => 4
    case Notifying => 3
    case Accepting => 0
  }

  function Measure(s: State): nat {
    ListenerAhead(s.listener) + AheadAll(s.workers)
  }

  lemma {:induction false} AheadUpdate(ws: seq<Worker>, i: nat, k: Worker)
    requires i < |ws|
    ensures AheadAll(ws[i := k]) + Ahead(ws[i]) == AheadAll(ws) + Ahead(k)
  {
    if i == 0 {
      assert ws[0 := k][1..] == ws[1..];
    } else {
      assert ws[i := k][1..] == ws[1..][i - 1 := k];
      AheadUpdate(ws[1..], i - 1, k);
    }
  }

  lemma CanMove(s: State) returns (a: Action)
    requires Inv(s) && s.queue != []
    requires exists w :: 0 <= w < |s.workers| && !s.workers[w].Handling?
    ensures Step(s, a).Some? && Internal(a)
  {
    var w :| 0 <= w < |s.workers| && !s.workers[w].Handling?;
    if s.listener.Locked? {
      a := Push;
    } else if s.listener == Pushed {
      a := Unlock;
    } else if s.listener == Notifying {
      var v :| 0 <= v < |s.workers| && (NoneBlocked(s) || s.workers[v] == Blocked);
      a := Notify(v);
    } else if s.mtx.Held? && s.workers[s.mtx.w].Took? {
      a := Release(s.mtx.w);
    } else if s.mtx.Held? {
      a := Test(s.mtx.w);
    } else if s.workers[w] == Blocked {
      if forall v :: 0 <= v < |s.workers| ==> !Rechecking(s.workers[v]) {
        NobodyWoke(s.workers);
      }
      var v :| 0 <= v < |s.workers| && Rechecking(s.workers[v]);
      a := Acquire(v);
    } else {
      a := Acquire(w);
    }
  }

  /**
    Whoever could pick the next socket up can move: some action other than a new arrival or a spurious wakeup is
    enabled.
  */
  lemma QueuedSocketCanMove(workers: nat, acts: seq<Action>) returns (a: Action)
    requires Exec(Init(workers), acts).Some?
    requires Exec(Init(workers), acts).value.queue != []
    requires exists w :: && 0 <= w < |Exec(Init(workers), acts).value.workers|
                         && !Exec(Init(workers), acts).value.workers[w].Handling?
    ensures Step(Exec(Init(workers), acts).value, a).Some?
    ensures !a.Accept? && !a.Spurious? && !a.Finish?
  {
    InitInv(workers);
    RunKeepsInv(Init(workers), acts);
    a := CanMove(Exec(Init(workers), acts).value);
  }

  /** Every internal step with a socket queued is the hand-over of the first one or brings it closer. */
  lemma InternalStepsAdvance(s: State, a: Action)
    requires s.queue != [] && SomeAvailable(s) && Step(s, a).Some? && Internal(a)
    ensures var s' := Step(s, a).value;
            if a.Test? then a.w < |s.workers| && s'.handed == s.handed + [(a.w, s.queue[0])] && s'.queue == s.queue[1..]
            else Measure(s') < Measure(s) && SomeAvailable(s') && s.queue <= s'.queue && s'.handed == s.handed
  {
    var w :| 0 <= w < |s.workers| && Available(s.workers[w]);
    if !a.Test? {
      StaysAvailable(s, a, w);
      if a.Notify? || a.Acquire? || a.Release? {
        WorkerStepLowers(s, a);
      }
    }
  }

  lemma StaysAvailable(s: State, a: Action, w: nat)
    requires w < |s.workers| && Available(s.workers[w]) && Step(s, a).Some? && !a.Test?
    ensures |Step(s, a).value.workers| == |s.workers| && Available(Step(s, a).value.workers[w])
  {
  }

  lemma WorkerStepLowers(s: State, a: Action)
    requires Step(s, a).Some? && (a.Notify? || a.Acquire? || a.Release?)
    ensures Measure(Step(s, a).value) < Measure(s)
  {
    var s' := Step(s, a).value;
    match a {
      case Notify(v) =>
        if !NoneBlocked(s) { AheadUpdate(s.workers, v, s'.workers[v]); }
      case Acquire(v) => AheadUpdate(s.workers, v, s'.workers[v]);
      case Release(v) => AheadUpdate(s.workers, v, s'.workers[v]);
      case _ =>
    }
  }

  lemma {:induction false} HandOver(s: State) returns (acts: seq<Action>, w: nat)
    requires Inv(s) && s.queue != [] && SomeAvailable(s)
    ensures Exec(s, acts).Some? && (forall i :: 0 <= i < |acts| ==> Internal(acts[i]))
    ensures w < |s.workers| && Exec(s, acts).value.handed == s.handed + [(w, s.queue[0])]
    decreases Measure(s)
  {
    var v :| 0 <= v < |s.workers| && Available(s.workers[v]);
    assert !s.workers[v].Handling?;
    var a := CanMove(s);
    InternalStepsAdvance(s, a);
    var s' := Step(s, a).value;
    if a.Test? {
      acts, w := [a], a.w;
      assert Exec(s', []) == Some(s') && acts[1..] == [];
    } else {
      StepKeepsMutex(s, a);
      StepKeepsCovered(s, a);
      StepKeepsOrder(s, a);
      var more;
      more, w := HandOver(s');
      acts := [a] + more;
      assert acts[1..] == more;
    }
  }

  /**
    A queued socket is never stuck: from any reachable state with one and a worker free to take it, the listener's and
    the workers' own steps suffice to hand the first one over, whatever the sessions that run do meanwhile.
  */
  lemma QueuedSocketHandedOver(workers: nat, acts: seq<Action>) returns (more: seq<Action>, w: nat)
    requires Exec(Init(workers), acts).Some?
    requires var s := Exec(Init(workers), acts).value; s.queue != [] && SomeAvailable(s)
    ensures var s := Exec(Init(workers), acts).value;
            && (forall i :: 0 <= i < |more| ==> Internal(more[i]))
            && Exec(s, more).Some? && Exec(s, more).value.handed == s.handed + [(w, s.queue[0])]
  {
    InitInv(workers);
    RunKeepsInv(Init(workers), acts);
    more, w := HandOver(Exec(Init(workers), acts).value);
  }

  /** No internal step delays it for ever: each one with a socket queued hands the first over or lowers the measure. */
  lemma EveryInternalStepCounts(workers: nat, acts: seq<Action>, a: Action)
    requires Exec(Init(workers), acts).Some?
    requires var s := Exec(Init(workers), acts).value;
             s.queue != [] && SomeAvailable(s) && Step(s, a).Some? && Internal(a)
    ensures var s := Exec(Init(workers), acts).value;
            var s' := Step(s, a).value;
            (|s'.handed| == |s.handed| + 1 && s'.handed[|s.handed|].1 == s.queue[0]) || Measure(s') < Measure(s)
  {
    InternalStepsAdvance(Exec(Init(workers), acts).value, a);
  }

  /** A session that ends frees its worker for the next socket, and nothing else changes. */
  lemma FinishedWorkerReturns(s: State, w: nat)
    requires w < |s.workers| && s.workers[w].Handling?
    ensures Step(s, Finish(w)) == Some(s.(workers := s.workers[w := Wanting]))
    ensures SomeAvailable(Step(s, Finish(w)).value)
  {
    assert Available(Step(s, Finish(w)).value.workers[w]);
  }
}
