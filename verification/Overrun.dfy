/**
  What a user sees when two workers are in the unlocked lines for one user: `timestamps_remaining` wraps to 2^32 - 1
  and one signature more is handed out than was ever paid for. All runs here start at start-up.
*/
module Overrun {
  import opened Base
  import opened Ledger
  import opened Quota
  import opened Schedules

  /** Both have found the last credit there. */
  lemma BothDecrement(s0: State, acts: seq<Action>, s: State, u: nat, v: nat, w: nat)
    returns (acts': seq<Action>, t: State)
    requires Shaped(s0) && Exec(s0, acts) == Some(s) && v < |s.workers| && w < |s.workers| && v != w
    requires s.workers[v].phase == s.workers[w].phase == Loading && s.workers[v].user == s.workers[w].user == u
    requires s.cells[2 * u] == 1
    ensures acts' == acts + [Advance(v)] + [Advance(v)] + [Advance(w)] + [Advance(w)] && Exec(s0, acts') == Some(t)
    ensures Shaped(t) && |t.workers| == |s.workers| && |t.taken| == |s.taken|
    ensures t.cells[2 * u] == WORD - 1 && t.taken[u] == s.taken[u] + 2
    ensures t.responses == s.responses && t.holder == s.holder
    ensures t.workers[v].phase == LoadingC && t.workers[v].user == u
    ensures t.workers[w].phase == LoadingC && t.workers[w].user == u
  {
    var acts1, s1 := Decrement(s0, acts, s, v);
    acts', t := Decrement(s0, acts1, s1, w);
  }

  lemma BothChecked(s: State) returns (acts: seq<Action>, t: State)
    requires s == Init([1, 0], 2)
    ensures acts == [Login(0, 0), Login(1, 0), Request(0), Request(1), Advance(0), Advance(1)]
    ensures Exec(s, acts) == Some(t)
    ensures t == s.(workers := [Worker(0, Loading, 0, 0), Worker(0, Loading, 0, 0)])
  {
    var a1, s1 := Go(s, [], s, Login(0, 0));
    var a2, s2 := Go(s, a1, s1, Login(1, 0));
    assert s2.workers == [Worker(0, Serving, 0, 0), Worker(0, Serving, 0, 0)];
    var a3, s3 := Go(s, a2, s2, Request(0));
    var a4, s4 := Go(s, a3, s3, Request(1));
    var a5, s5 := Go(s, a4, s4, Advance(0));
    var a6, s6 := Go(s, a5, s5, Advance(1));
    acts, t := a6, s6;
  }

  /** The shortest case: two sessions of a user with one credit, which is taken twice. */
  lemma OneCreditTakenTwice(s: State, acts: seq<Action>)
    requires s == Init([1, 0], 2)
    requires acts == [Login(0, 0), Login(1, 0), Request(0), Request(1), Advance(0), Advance(1)]
                     + [Advance(0), Advance(0), Advance(1), Advance(1)]
    ensures Exec(s, acts).Some?
    ensures Exec(s, acts).value.cells[0] == WORD - 1 && Exec(s, acts).value.taken[0] == 2
  {
    var a6, t := BothChecked(s);
    var a10, s10 := BothDecrement(s, a6, t, 0, 0, 1);
    assert a10 == acts;
  }

  /** Two workers serve user `u`, everything else is at rest. */
  ghost predicate TwoAtRest(s: State, u: nat, v: nat, w: nat) {
    && Shaped(s) && u < |s.taken| && s.holder == None
    && v < |s.workers| && w < |s.workers| && v != w
    && s.workers[v].phase == Serving && s.workers[v].user == u
    && s.workers[w].phase == Serving && s.workers[w].user == u
  }

  /** One worker at a time, all credits but the last are turned into signatures. */
  lemma {:induction false} SpendDown(s0: State, acts: seq<Action>, s: State, u: nat, v: nat, w: nat)
    returns (acts': seq<Action>, t: State)
    requires Shaped(s0) && Exec(s0, acts) == Some(s) && TwoAtRest(s, u, v, w) && s.cells[2 * u] >= 1
    ensures Exec(s0, acts') == Some(t) && TwoAtRest(t, u, v, w)
    ensures t.cells[2 * u] == 1 && t.responses[u] == s.responses[u] + s.cells[2 * u] - 1
    ensures t.taken[u] == s.taken[u] + s.cells[2 * u] - 1
    decreases s.cells[2 * u]
  {
    if s.cells[2 * u] == 1 {
      return acts, s;
    }
    var acts1, s1 := TakeAlone(s0, acts, s, v);
    var acts2, s2 := Go(s0, acts1, s1, Deliver(v));
    acts', t := SpendDown(s0, acts2, s2, u, v, w);
  }

  /** Both check the last credit before either takes it. */
  lemma LastCreditTwice(s0: State, acts: seq<Action>, s: State, u: nat, v: nat, w: nat)
    returns (acts': seq<Action>, t: State)
    requires Shaped(s0) && Exec(s0, acts) == Some(s) && TwoAtRest(s, u, v, w) && s.cells[2 * u] == 1
    ensures Exec(s0, acts') == Some(t) && Shaped(t) && |t.workers| == |s.workers| && |t.taken| == |s.taken|
    ensures t.cells[2 * u] == WORD - 1 && t.taken[u] == s.taken[u] + 2
    ensures t.responses == s.responses && t.holder == None
    ensures t.workers[v].phase == LoadingC && t.workers[v].user == u
    ensures t.workers[w].phase == LoadingC && t.workers[w].user == u
  {
    var acts1, s1 := PassCheck(s0, acts, s, v);
    var acts2, s2 := PassCheck(s0, acts1, s1, w);
    acts', t := BothDecrement(s0, acts2, s2, u, v, w);
  }

  /** A worker past its decrement is served to the end. */
  lemma ToResponse(s0: State, acts: seq<Action>, s: State, w: nat) returns (acts': seq<Action>, t: State)
    requires Shaped(s0) && Exec(s0, acts) == Some(s) && w < |s.workers|
    requires s.workers[w].phase == LoadingC && s.holder == None
    ensures var u := s.workers[w].user;
            && Exec(s0, acts') == Some(t) && Shaped(t) && t.holder == None && |t.taken| == |s.taken|
            && t.cells[2 * u] == s.cells[2 * u] && t.taken == s.taken
            && t.responses == s.responses[u := s.responses[u] + 1]
            && |t.workers| == |s.workers|
            && forall i :: 0 <= i < |s.workers| && i != w ==> t.workers[i] == s.workers[i]
  {
    var acts1, s1 := Increment(s0, acts, s, w);
    var acts2, s2 := Save(s0, acts1, s1, w);
    acts', t := Go(s0, acts2, s2, Deliver(w));
  }

  lemma TwoLogins(cells: seq<uint32>, workers: nat, u: nat) returns (acts: seq<Action>, t: State)
    requires |cells| % 2 == 0 && workers >= 2 && 2 * u < |cells|
    ensures Exec(Init(cells, workers), acts) == Some(t) && TwoAtRest(t, u, 0, 1)
    ensures t.cells == cells && t.responses[u] == 0 && t.taken[u] == 0
  {
    var s := Init(cells, workers);
    var acts1, s1 := Go(s, [], s, Login(0, u));
    acts, t := Go(s, acts1, s1, Login(1, u));
  }

  /**
    Every quota can be exceeded: with two workers or more, whatever the list holds, each user with at least one credit
    has a run from start-up that ends with one signature more than credits and with 2^32 - 1 credits remaining.
  */
  lemma EveryQuotaCanBeExceeded(cells: seq<uint32>, workers: nat, u: nat) returns (acts: seq<Action>)
    requires |cells| % 2 == 0 && workers >= 2 && 2 * u < |cells| && cells[2 * u] > 0
    ensures Exec(Init(cells, workers), acts).Some?
    ensures var t := Exec(Init(cells, workers), acts).value;
            var paid: nat := cells[2 * u];
            && u < |t.taken|
            && t.responses[u] == t.taken[u] == paid + 1
            && t.cells[2 * u] == WORD - 1
  {
    var s0 := Init(cells, workers);
    var acts1, s1 := TwoLogins(cells, workers, u);
    var acts2, s2 := SpendDown(s0, acts1, s1, u, 0, 1);
    var acts3, s3 := LastCreditTwice(s0, acts2, s2, u, 0, 1);
    var acts4, s4 := ToResponse(s0, acts3, s3, 0);
    var acts5, s5 := ToResponse(s0, acts4, s4, 1);
    acts := acts5;
  }

  /** With one worker no run is ever unguarded. */
  lemma {:induction false} OneWorkerIsGuarded(s: State, acts: seq<Action>)
    requires Shaped(s) && |s.workers| <= 1
    ensures Guarded(s, acts)
    decreases |acts|
  {
    if acts != [] && Step(s, acts[0]).Some? {
      StepKeepsShape(s, acts[0]);
      OneWorkerIsGuarded(Step(s, acts[0]).value, acts[1..]);
    }
  }

  /** A user's quota can be exceeded exactly when it is not zero and there are two workers. */
  lemma QuotaExceededExactly(cells: seq<uint32>, workers: nat, u: nat)
    requires |cells| % 2 == 0 && 2 * u < |cells|
    ensures (exists acts :: Exceeds(cells, workers, u, acts)) <==> workers >= 2 && cells[2 * u] > 0
  {
    if workers >= 2 && cells[2 * u] > 0 {
      var acts := EveryQuotaCanBeExceeded(cells, workers, u);
      assert Exceeds(cells, workers, u, acts);
    }
    forall acts | Exceeds(cells, workers, u, acts) ensures workers >= 2 && cells[2 * u] > 0 {
      if workers < 2 {
        OneWorkerIsGuarded(Init(cells, workers), acts);
        QuotaHolds(cells, workers, acts, u);
      } else if cells[2 * u] == 0 {
        EmptyAccountStays(Init(cells, workers), acts, u);
      }
    }
  }

  ghost predicate Exceeds(cells: seq<uint32>, workers: nat, u: nat, acts: seq<Action>)
    requires |cells| % 2 == 0 && 2 * u < |cells|
  {
    && Exec(Init(cells, workers), acts).Some?
    && var t := Exec(Init(cells, workers), acts).value;
       u < |t.responses| && t.responses[u] > cells[2 * u]
  }

  /** Nobody works on user `u`'s account beyond the check, and nothing was ever taken from it. */
  ghost predicate Untouched(s: State, u: nat) {
    && Shaped(s) && u < |s.taken| && s.cells[2 * u] == 0 && s.responses[u] == 0
    && forall w :: 0 <= w < |s.workers| && s.workers[w].user == u ==>
                     s.workers[w].phase.Idle? || s.workers[w].phase.Serving? || s.workers[w].phase.Checking?
  }

  lemma StepKeepsUntouched(s: State, act: Action, u: nat)
    requires Untouched(s, u) && Step(s, act).Some?
    ensures Untouched(Step(s, act).value, u)
  {
    StepKeepsShape(s, act);
  }

  lemma {:induction false} EmptyAccountStays(s: State, acts: seq<Action>, u: nat)
    requires Untouched(s, u) && Exec(s, acts).Some?
    ensures Untouched(Exec(s, acts).value, u)
    decreases |acts|
  {
    if acts != [] {
      StepKeepsUntouched(s, acts[0], u);
      EmptyAccountStays(Step(s, acts[0]).value, acts[1..], u);
    }
  }

  // ---------------------------------------------------------------- from any state with exact accounts

  lemma WrapsFrom(s0: State, s: State, v: nat, w: nat) returns (t: State)
    requires Reaches(s0, s) && Shaped(s) && v < |s.workers| && w < |s.workers| && v != w
    requires s.workers[w].phase == Loading && s.workers[v].user == s.workers[w].user
    requires s.cells[2 * s.workers[w].user] == 1
    requires s.workers[v].phase == Loading || s.workers[v].phase == Storing(0)
    ensures var u := s.workers[w].user;
            Reaches(s0, t) && t.start == s.start && |t.taken| == |s.taken| && |t.cells| == |s.cells|
            && t.cells[2 * u] == WORD - 1 && t.taken[u] == s.taken[u] + 2
    decreases if s.workers[v].phase == Loading then 1 else 0
  {
    if s.workers[v].phase == Loading {
      ReachesOn(s0, s, v);
      t := WrapsFrom(s0, Progress(s, v).value, v, w);
    } else {
      ReachesOn(s0, s, v);
      var s1 := Progress(s, v).value;
      ReachesOn(s0, s1, w);
      var s2 := Progress(s1, w).value;
      ReachesOn(s0, s2, w);
      t := Progress(s2, w).value;
    }
  }

  /**
    From any state with exact accounts in which a user has one credit: a worker that asks for it while another has yet
    to take it has a schedule in which `remaining` wraps and more credits have been taken than there ever were.
  */
  lemma LastCreditWraps(s: State, v: nat, w: nat) returns (t: State)
    requires Good(s) && v < |s.workers| && w < |s.workers| && v != w && s.workers[w].phase == Serving
    requires s.workers[v].phase.Checking? || s.workers[v].phase.Loading? || s.workers[v].phase.Storing?
    requires s.workers[v].user == s.workers[w].user && s.cells[2 * s.workers[w].user] == 1
    ensures var u := s.workers[w].user;
            var paid: nat := s.start[2 * u];
            && Reaches(Move(s, w, Checking), t) && |t.taken| == |s.taken| && |t.cells| == |s.cells|
            && t.cells[2 * u] == WORD - 1 && t.taken[u] == paid + 1
  {
    var s1 := Move(s, w, Checking);
    assert BalancedAt(s, s.workers[w].user) && Sound(s, s.workers[v]);
    ReachesSelf(s1);
    ReachesOn(s1, s1, w);
    var s2 := Progress(s1, w).value;
    if s.workers[v].phase.Checking? {
      ReachesOn(s1, s2, v);
      t := WrapsFrom(s1, Progress(s2, v).value, v, w);
    } else {
      t := WrapsFrom(s1, s2, v, w);
    }
  }
}
