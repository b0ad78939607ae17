/**
  Any number of workers inside `consumeTimestamp`, `saveToFile` and `signDoc` at once, one memory access per
  step. User u owns two cells: 2u is timestamps_remaining, 2u+1 is timestamps_consumed. Only the save holds
  the mutex; opening the file for writing truncates it, and the copy that is written is read cell by cell.
*/
module Ledger {
  import opened Base

  datatype Phase =
    | Idle                         // no session
    | Serving                      // logged in, between requests
    | Checking                     // before the test for zero
    | Loading                      // about to read the cell to decrement
    | Storing(value: uint32)       // about to write it back
    | LoadingC                     // about to read the cell to increment
    | StoringC(value: uint32)      // about to write it back
    | Waiting                      // entered saveToFile, mutex not held
    | Opening                      // mutex held, file not yet opened
    | Copying(copy: seq<uint32>)   // file truncated, list partly copied
    | Closing                      // file written, mutex held
    | Signing                      // consumeTimestamp returned OK, response not yet sent

  /** `spent` and `signed` count what the current session took and what it got. */
  datatype Worker = Worker(user: nat, phase: Phase, spent: nat, signed: nat)

  datatype Ended = Ended(user: nat, spent: nat, signed: nat)

  datatype State = State(
    start: seq<uint32>,          // the cells at start-up
    cells: seq<uint32>,
    file: Option<seq<uint32>>,   // None while truncated
    holder: Option<nat>,         // who holds the mutex
    workers: seq<Worker>,
    taken: seq<nat>,             // per user: decrements done
    responses: seq<nat>,         // per user: signed responses fully sent
    ended: seq<Ended>)

  /**
    Deliver and Fail are the ways out of `signDoc` after a consumption; `Refinement.ServingStepIsLedgerRun` ties every
    action that ends or continues a session to what the server does.
  */
  datatype Action =
    | Login(w: nat, user: nat)
    | Request(w: nat)
    | Advance(w: nat)
    | Deliver(w: nat)
    | Fail(w: nat)
    | Leave(w: nat)

  function Init(cells: seq<uint32>, workers: nat): State
    requires |cells| % 2 == 0
  {
    State(cells, cells, Some(cells), None, seq(workers, _ => Worker(0, Idle, 0, 0)),
          seq(|cells| / 2, _ => 0), seq(|cells| / 2, _ => 0), [])
  }

  ghost predicate Shaped(s: State) {
    && |s.cells| == |s.start| == 2 * |s.taken| && |s.responses| == |s.taken|
    && (forall w :: 0 <= w < |s.workers| && s.workers[w].phase != Idle ==> s.workers[w].user < |s.taken|)
  }

  function Move(s: State, w: nat, phase: Phase): State
    requires w < |s.workers|
  {
    s.(workers := s.workers[w := s.workers[w].(phase := phase)])
  }

  /** The next memory access of worker `w`, or None when it has none or must wait for the mutex. */
  function Progress(s: State, w: nat): Option<State>
    requires Shaped(s)
  {
    if w >= |s.workers| || s.workers[w].phase.Idle? then None
    else
      var k := s.workers[w];
      var r, c := 2 * k.user, 2 * k.user + 1;
      match k.phase
      case Checking => Some(Move(s, w, if s.cells[r] == 0 then Serving else Loading))
      case Loading => Some(Move(s, w, Storing(Pred(s.cells[r]))))
      case Storing(v) =>
        Some(s.(cells := s.cells[r := v],
                taken := s.taken[k.user := s.taken[k.user] + 1],
                workers := s.workers[w := k.(phase := LoadingC, spent := k.spent + 1)]))
      case LoadingC => Some(Move(s, w, StoringC(Succ(s.cells[c]))))
      case StoringC(v) => Some(Move(s.(cells := s.cells[c := v]), w, Waiting))
      case Waiting => if s.holder == None then Some(Move(s.(holder := Some(w)), w, Opening)) else None
      case Opening => Some(Move(s.(file := None), w, Copying([])))
      case Copying(copy) =>
        if |copy| < |s.cells| then Some(Move(s, w, Copying(copy + [s.cells[|copy|]])))
        else Some(Move(s.(file := Some(copy)), w, Closing))
      case Closing => Some(Move(s.(holder := None), w, Signing))
      case _ => None
  }

  function End(s: State, w: nat): State
    requires w < |s.workers|
  {
    var k := s.workers[w];
    Move(s.(ended := s.ended + [Ended(k.user, k.spent, k.signed)]), w, Idle)
  }

  function Step(s: State, act: Action): Option<State>
    requires Shaped(s)
  {
    if act.w >= |s.workers| then None
    else
      var w := act.w;
      var k := s.workers[w];
      match act
      case Login(_, user) =>
        if k.phase != Idle || user >= |s.taken| then None
        else Some(s.(workers := s.workers[w := Worker(user, Serving, 0, 0)]))
      case Request(_) => if k.phase == Serving then Some(Move(s, w, Checking)) else None
      case Advance(_) => Progress(s, w)
      case Deliver(_) =>
        if k.phase == Signing then
          Some(s.(responses := s.responses[k.user := s.responses[k.user] + 1],
                  workers := s.workers[w := k.(phase := Serving, signed := k.signed + 1)]))
        else None
      case Fail(_) => if k.phase == Signing then Some(End(s, w)) else None
      case Leave(_) => if k.phase == Serving then Some(End(s, w)) else None
  }

  lemma StepKeepsShape(s: State, act: Action)
    requires Shaped(s)
    ensures Step(s, act).Some? ==> Shaped(Step(s, act).value)
    ensures Step(s, act).Some? ==> |Step(s, act).value.workers| == |s.workers| && Step(s, act).value.start == s.start
    ensures Step(s, act).Some? ==> |Step(s, act).value.taken| == |s.taken|
  {
  }

  /** The state after a run, or None when some action of it is not enabled. */
  function Exec(s: State, acts: seq<Action>): (r: Option<State>)
    requires Shaped(s)
    ensures r.Some? ==> Shaped(r.value) && r.value.start == s.start && |r.value.workers| == |s.workers|
    decreases |acts|
  {
    if acts == [] then Some(s)
    else
      StepKeepsShape(s, acts[0]);
      var next := Step(s, acts[0]);
      if next.None? then None else Exec(next.value, acts[1..])
  }

  // ---------------------------------------------------------------- what the file holds

  /** On user `u`, changed in memory and not yet through with its own save. */
  predicate Dirty(k: Worker, u: nat) {
    k.user == u && (k.phase.LoadingC? || k.phase.StoringC? || k.phase.Waiting? || k.phase.Opening? || k.phase.Copying?)
  }

  ghost predicate DirtyBut(ws: seq<Worker>, except: int, u: nat) {
    exists v :: 0 <= v < |ws| && v != except && Dirty(ws[v], u)
  }

  predicate Saving(k: Worker) {
    k.phase.Opening? || k.phase.Copying? || k.phase.Closing?
  }

  ghost predicate Agrees(s: State, image: seq<uint32>, except: int)
    requires |image| <= |s.cells|
  {
    forall c :: 0 <= c < |image| ==> image[c] == s.cells[c] || DirtyBut(s.workers, except, c / 2)
  }

  ghost predicate Mutex(s: State) {
    forall w :: 0 <= w < |s.workers| ==> (Saving(s.workers[w]) <==> s.holder == Some(w))
  }

  ghost predicate CopyGood(s: State, w: nat)
    requires w < |s.workers|
  {
    s.workers[w].phase.Copying? ==>
      var copy := s.workers[w].phase.copy;
      s.file == None && |copy| <= |s.cells| && Agrees(s, copy, w)
  }

  ghost predicate FileGood(s: State) {
    match s.file
    case None => exists w :: 0 <= w < |s.workers| && s.workers[w].phase.Copying?
    case Some(f) => |f| == |s.cells| && Agrees(s, f, -1)
  }

  ghost predicate Persisted(s: State) {
    && Shaped(s) && Mutex(s) && FileGood(s)
    && forall w :: 0 <= w < |s.workers| ==> CopyGood(s, w)
  }

  lemma DirtyStays(ws: seq<Worker>, w: nat, k: Worker, except: int, u: nat)
    requires w < |ws|
    requires w != except ==> Dirty(ws[w], u) ==> Dirty(k, u)
    requires DirtyBut(ws, except, u)
    ensures DirtyBut(ws[w := k], except, u)
  {
    var v :| 0 <= v < |ws| && v != except && Dirty(ws[v], u);
    assert Dirty(ws[w := k][v], u);
  }

  /** An image stays good while the cells that change have a dirty owner other than `except`. */
  lemma AgreesStays(s: State, s': State, w: nat, image: seq<uint32>, except: int)
    requires w < |s.workers| == |s'.workers| && |s'.cells| == |s.cells| && |image| <= |s.cells|
    requires s'.workers == s.workers[w := s'.workers[w]]
    requires Agrees(s, image, except)
    requires forall u :: w != except && Dirty(s.workers[w], u) ==> Dirty(s'.workers[w], u)
    requires forall c :: 0 <= c < |s.cells| && s.cells[c] != s'.cells[c] ==> w != except && Dirty(s'.workers[w], c / 2)
    ensures Agrees(s', image, except)
  {
    forall c | 0 <= c < |image| ensures image[c] == s'.cells[c] || DirtyBut(s'.workers, except, c / 2) {
      if DirtyBut(s.workers, except, c / 2) {
        DirtyStays(s.workers, w, s'.workers[w], except, c / 2);
      } else if s.cells[c] != s'.cells[c] {
        assert Dirty(s'.workers[w], c / 2);
      }
    }
  }

  lemma StepKeepsPersisted(s: State, act: Action)
    requires Persisted(s) && Step(s, act).Some?
    ensures Persisted(Step(s, act).value)
  {
    StepKeepsShape(s, act);
    var s' := Step(s, act).value;
    var w := act.w;
    var k, k' := s.workers[w], s'.workers[w];
    assert s'.workers == s.workers[w := k'];
    StepKeepsMutex(s, act);
    forall v | 0 <= v < |s'.workers| ensures CopyGood(s', v) {
      assert CopyGood(s, v);
      StepKeepsCopy(s, act, v);
    }
    StepKeepsFile(s, act);
  }

  lemma StepKeepsMutex(s: State, act: Action)
    requires Shaped(s) && Mutex(s) && Step(s, act).Some?
    ensures Mutex(Step(s, act).value)
  {
    var s' := Step(s, act).value;
    forall v | 0 <= v < |s'.workers| ensures Saving(s'.workers[v]) <==> s'.holder == Some(v) {
      assert Saving(s.workers[v]) <==> s.holder == Some(v);
      assert Saving(s.workers[act.w]) <==> s.holder == Some(act.w);
    }
  }

  lemma StepKeepsCopy(s: State, act: Action, v: nat)
    requires Shaped(s) && Mutex(s) && v < |s.workers| && CopyGood(s, v) && Step(s, act).Some?
    ensures v < |Step(s, act).value.workers| && CopyGood(Step(s, act).value, v)
  {
    var s' := Step(s, act).value;
    var w := act.w;
    var k' := s'.workers[w];
    assert s'.workers == s.workers[w := k'];
    if s.workers[v].phase.Copying? && s'.workers[v].phase.Copying? {
      assert Saving(s.workers[v]) && s.holder == Some(v);
      assert Saving(s.workers[w]) <==> w == v;
      AgreesStays(s, s', w, s.workers[v].phase.copy, v);
    }
  }

  lemma StepKeepsFile(s: State, act: Action)
    requires Persisted(s) && Step(s, act).Some?
    ensures FileGood(Step(s, act).value)
  {
    var s' := Step(s, act).value;
    var w := act.w;
    var k, k' := s.workers[w], s'.workers[w];
    assert s'.workers == s.workers[w := k'];
    assert CopyGood(s, w);
    if s'.file == None {
      if k'.phase.Copying? {
      } else {
        var v :| 0 <= v < |s.workers| && s.workers[v].phase.Copying?;
        assert s'.workers[v].phase.Copying?;
      }
    } else if k.phase.Copying? && k'.phase.Closing? {
      var f := k.phase.copy;
      forall c | 0 <= c < |f| ensures f[c] == s'.cells[c] || DirtyBut(s'.workers, -1, c / 2) {
        if f[c] != s.cells[c] {
          var v :| 0 <= v < |s.workers| && v != w && Dirty(s.workers[v], c / 2);
          assert Dirty(s'.workers[v], c / 2);
        }
      }
    } else {
      AgreesStays(s, s', w, s.file.value, -1);
    }
  }

  lemma InitPersisted(cells: seq<uint32>, workers: nat)
    requires |cells| % 2 == 0
    ensures Persisted(Init(cells, workers))
  {
  }

  lemma {:induction false} RunKeepsPersisted(s: State, acts: seq<Action>)
    requires Persisted(s) && Exec(s, acts).Some?
    ensures Persisted(Exec(s, acts).value)
    decreases |acts|
  {
    if acts != [] {
      StepKeepsPersisted(s, acts[0]);
      RunKeepsPersisted(Step(s, acts[0]).value, acts[1..]);
    }
  }

  predicate InsideConsume(k: Worker) {
    !(k.phase.Idle? || k.phase.Serving? || k.phase.Signing?)
  }

  /**
    Under every interleaving: the file is truncated exactly while one worker is between opening and writing it;
    otherwise, wherever it differs from memory, some worker on that very user has updated and not yet saved.
    So once no worker is inside `consumeTimestamp` the file is the list.
  */
  lemma FileConverges(cells: seq<uint32>, workers: nat, acts: seq<Action>)
    requires |cells| % 2 == 0
    requires Exec(Init(cells, workers), acts).Some?
    ensures var s := Exec(Init(cells, workers), acts).value;
            && (s.file == None <==> exists w :: 0 <= w < |s.workers| && s.workers[w].phase.Copying?)
            && (s.file.Some? ==>
                  && |s.file.value| == |s.cells|
                  && forall c :: 0 <= c < |s.cells| && s.file.value[c] != s.cells[c] ==> DirtyBut(s.workers, -1, c / 2))
            && ((forall w :: 0 <= w < |s.workers| ==> !InsideConsume(s.workers[w])) ==> s.file == Some(s.cells))
  {
    InitPersisted(cells, workers);
    RunKeepsPersisted(Init(cells, workers), acts);
    var s := Exec(Init(cells, workers), acts).value;
    forall w | 0 <= w < |s.workers| && s.workers[w].phase.Copying? ensures s.file == None {
      assert CopyGood(s, w);
    }
    if forall w :: 0 <= w < |s.workers| ==> !InsideConsume(s.workers[w]) {
      assert s.file.Some?;
      forall c | 0 <= c < |s.cells| ensures s.file.value[c] == s.cells[c] {
        assert !DirtyBut(s.workers, -1, c / 2);
      }
      assert s.file.value == s.cells;
    }
  }
}
