/**
  What the quota promises under interleaving, and exactly when: a sign request keeps every account exact
  iff, when it enters, the user has no credit left or no other worker is in the unlocked lines for that user.
*/
module Quota {
  import opened Base
  import opened Ledger
  import Users

  function Count(ws: seq<Worker>, f: Worker -> bool): nat {
    if ws == [] then 0 else (if f(ws[0]) then 1 else 0) + Count(ws[1..], f)
  }

  lemma {:induction false} CountUpdate(ws: seq<Worker>, i: nat, k: Worker, f: Worker -> bool)
    requires i < |ws|
    ensures Count(ws[i := k], f) + (if f(ws[i]) then 1 else 0) == Count(ws, f) + (if f(k) then 1 else 0)
  {
    if i == 0 {
      assert ws[0 := k][1..] == ws[1..];
    } else {
      assert ws[i := k][1..] == ws[1..][i - 1 := k];
      CountUpdate(ws[1..], i - 1, k, f);
    }
  }

  lemma {:induction false} CountNone(ws: seq<Worker>, f: Worker -> bool)
    requires forall i :: 0 <= i < |ws| ==> !f(ws[i])
    ensures Count(ws, f) == 0
  {
    if ws != [] {
      assert !f(ws[0]);
      assert forall i :: 0 <= i < |ws[1..]| ==> ws[1..][i] == ws[i + 1];
      CountNone(ws[1..], f);
    }
  }

  /** Decrement done, increment not yet. */
  function PendingOn(u: nat): Worker -> bool {
    (k: Worker) => k.user == u && (k.phase.LoadingC? || k.phase.StoringC?)
  }

  /** Credit taken, response not yet sent. */
  predicate Owing(k: Worker) {
    || k.phase.LoadingC? || k.phase.StoringC? || k.phase.Waiting?
    || k.phase.Opening? || k.phase.Copying? || k.phase.Closing? || k.phase.Signing?
  }

  function OwingOn(u: nat): Worker -> bool {
    (k: Worker) => k.user == u && Owing(k)
  }

  predicate InSection(k: Worker) {
    k.phase.Checking? || k.phase.Loading? || k.phase.Storing? || k.phase.LoadingC? || k.phase.StoringC?
  }

  ghost predicate BalancedAt(s: State, u: nat)
    requires Shaped(s) && u < |s.taken|
  {
    && s.taken[u] <= s.start[2 * u]
    && s.cells[2 * u] == s.start[2 * u] - s.taken[u]
    && (s.cells[2 * u + 1] + Count(s.workers, PendingOn(u))) % WORD == (s.start[2 * u + 1] + s.taken[u]) % WORD
  }

  /**
    Both counters of every user are exact: what is missing from `remaining` was taken, and is or will be in
    `consumed`.
  */
  ghost predicate Balanced(s: State) {
    Shaped(s) && forall u {:trigger BalancedAt(s, u)} :: 0 <= u < |s.taken| ==> BalancedAt(s, u)
  }

  /** What a worker loaded is still what the cell holds. */
  ghost predicate Sound(s: State, k: Worker)
    requires Shaped(s) && (k.phase != Idle ==> k.user < |s.taken|)
  {
    match k.phase
    case Loading => s.cells[2 * k.user] > 0
    case Storing(v) => s.cells[2 * k.user] > 0 && v == s.cells[2 * k.user] - 1
    case StoringC(v) => v == Succ(s.cells[2 * k.user + 1])
    case _ => true
  }

  /** Two workers may share the section only when the user has nothing left and one of them is only checking. */
  ghost predicate MayShare(s: State, a: Worker, b: Worker)
    requires Shaped(s) && a.user < |s.taken|
  {
    && s.cells[2 * a.user] == 0
    && !a.phase.Loading? && !a.phase.Storing? && !b.phase.Loading? && !b.phase.Storing?
    && (a.phase.Checking? || b.phase.Checking?)
  }

  ghost predicate Apart(s: State)
    requires Shaped(s)
  {
    forall a, b :: 0 <= a < b < |s.workers| && InSection(s.workers[a]) && InSection(s.workers[b])
                   && s.workers[a].user == s.workers[b].user ==>
                     MayShare(s, s.workers[a], s.workers[b])
  }

  ghost predicate Good(s: State) {
    && Balanced(s)
    && (forall w {:trigger Sound(s, s.workers[w])} :: 0 <= w < |s.workers| ==> Sound(s, s.workers[w]))
    && Apart(s)
  }

  /** The condition on entry: nothing left to take, or nobody else in the section for this user. */
  ghost predicate Guard(s: State, w: nat)
    requires Shaped(s) && w < |s.workers| && s.workers[w].phase == Serving
  {
    var u := s.workers[w].user;
    || s.cells[2 * u] == 0
    || forall v :: 0 <= v < |s.workers| && v != w && s.workers[v].user == u ==> !InSection(s.workers[v])
  }

  lemma CongruentSucc(x: nat, y: nat)
    requires x % WORD == y % WORD
    ensures (x + 1) % WORD == (y + 1) % WORD
  {
  }

  lemma CongruentAbsorb(c: uint32, n: nat)
    requires n > 0
    ensures (Succ(c) + (n - 1)) % WORD == (c + n) % WORD
  {
    if c + 1 == WORD {
      assert (c + n) % WORD == (n - 1) % WORD;
    }
  }

  /** The two stores; every other step leaves cells, tallies and pending counts alone. */
  lemma StoreKeepsBalance(s: State, w: nat, u: nat)
    requires Balanced(s) && w < |s.workers| && u < |s.taken| && Sound(s, s.workers[w])
    requires s.workers[w].phase.Storing? || s.workers[w].phase.StoringC?
    ensures var s' := Progress(s, w).value; Shaped(s') && u < |s'.taken| && BalancedAt(s', u)
  {
    var k := s.workers[w];
    var s' := Progress(s, w).value;
    var f := PendingOn(u);
    var n := Count(s.workers, f);
    CountUpdate(s.workers, w, s'.workers[w], f);
    assert BalancedAt(s, u);
    if k.user == u {
      if k.phase.Storing? {
        assert Count(s'.workers, f) == n + 1;
        CongruentSucc(s.cells[2 * u + 1] + n, s.start[2 * u + 1] + s.taken[u]);
      } else {
        assert Count(s'.workers, f) == n - 1;
        CongruentAbsorb(s.cells[2 * u + 1], n);
      }
    } else {
      assert Count(s'.workers, f) == n;
    }
  }

  lemma StepKeepsBalance(s: State, act: Action, u: nat)
    requires Balanced(s) && Step(s, act).Some? && Sound(s, s.workers[act.w])
    requires u < |s.taken|
    ensures Shaped(Step(s, act).value) && u < |Step(s, act).value.taken| && BalancedAt(Step(s, act).value, u)
  {
    StepKeepsShape(s, act);
    var s' := Step(s, act).value;
    var w := act.w;
    assert BalancedAt(s, u);
    if act.Advance? && (s.workers[w].phase.Storing? || s.workers[w].phase.StoringC?) {
      StoreKeepsBalance(s, w, u);
    } else {
      CountUpdate(s.workers, w, s'.workers[w], PendingOn(u));
      assert s'.workers == s.workers[w := s'.workers[w]];
      assert s'.cells == s.cells && s'.taken == s.taken;
    }
  }

  lemma StepKeepsApart(s: State, act: Action)
    requires Good(s) && Step(s, act).Some?
    requires act.Request? ==> Guard(s, act.w)
    ensures Shaped(Step(s, act).value) && Apart(Step(s, act).value)
  {
    StepKeepsShape(s, act);
    var s' := Step(s, act).value;
    var w := act.w;
    forall a, b | 0 <= a < b < |s'.workers| && InSection(s'.workers[a]) && InSection(s'.workers[b])
                  && s'.workers[a].user == s'.workers[b].user
      ensures MayShare(s', s'.workers[a], s'.workers[b])
    {
      assert Sound(s, s.workers[a]) && Sound(s, s.workers[b]);
      if act.Request? && (w == a || w == b) {
        assert s.cells[2 * s.workers[w].user] == 0;
      } else {
        assert InSection(s.workers[a]) && InSection(s.workers[b]);
        assert MayShare(s, s.workers[a], s.workers[b]);
      }
    }
  }

  lemma StepKeepsSound(s: State, act: Action, v: nat)
    requires Good(s) && Step(s, act).Some?
    requires v < |s.workers|
    ensures var s' := Step(s, act).value; Shaped(s') && v < |s'.workers| && Sound(s', s'.workers[v])
  {
    StepKeepsShape(s, act);
    var s' := Step(s, act).value;
    var w := act.w;
    assert Sound(s, s.workers[v]) && Sound(s, s.workers[w]);
    if v != w && InSection(s.workers[v]) && InSection(s.workers[w]) && s.workers[v].user == s.workers[w].user {
      assert MayShare(s, s.workers[Min(v, w)], s.workers[v + w - Min(v, w)]);
    }
  }

  lemma StepKeepsGood(s: State, act: Action)
    requires Good(s) && Step(s, act).Some?
    requires act.Request? ==> Guard(s, act.w)
    ensures Good(Step(s, act).value)
  {
    StepKeepsShape(s, act);
    var s' := Step(s, act).value;
    forall u | 0 <= u < |s'.taken| ensures BalancedAt(s', u) {
      StepKeepsBalance(s, act, u);
    }
    StepKeepsApart(s, act);
    forall v | 0 <= v < |s'.workers| ensures Sound(s', s'.workers[v]) {
      StepKeepsSound(s, act, v);
    }
  }

  lemma InitGood(cells: seq<uint32>, workers: nat)
    requires |cells| % 2 == 0
    ensures Good(Init(cells, workers))
  {
    var s := Init(cells, workers);
    forall u | 0 <= u < |s.taken| ensures BalancedAt(s, u) {
      CountNone(s.workers, PendingOn(u));
    }
  }

  /** A run in which every sign request meets the guard when it enters. */
  ghost predicate Guarded(s: State, acts: seq<Action>)
    requires Shaped(s)
    decreases |acts|
  {
    acts != [] && Step(s, acts[0]).Some? ==>
      && (acts[0].Request? ==> Guard(s, acts[0].w))
      && (StepKeepsShape(s, acts[0]); Guarded(Step(s, acts[0]).value, acts[1..]))
  }

  lemma {:induction false} GuardedRunKeepsGood(s: State, acts: seq<Action>)
    requires Good(s) && Guarded(s, acts) && Exec(s, acts).Some?
    ensures Good(Exec(s, acts).value)
    decreases |acts|
  {
    if acts != [] {
      StepKeepsGood(s, acts[0]);
      GuardedRunKeepsGood(Step(s, acts[0]).value, acts[1..]);
    }
  }

  // ---------------------------------------------------------------- the plain hypothesis

  /** No two workers in the unlocked lines for one user. */
  ghost predicate Exclusive(s: State) {
    forall a, b :: 0 <= a < |s.workers| && 0 <= b < |s.workers| && a != b
                   && InSection(s.workers[a]) && InSection(s.workers[b]) ==>
                     s.workers[a].user != s.workers[b].user
  }

  ghost predicate AlwaysExclusive(s: State, acts: seq<Action>)
    requires Shaped(s)
    decreases |acts|
  {
    && Exclusive(s)
    && (acts != [] && Step(s, acts[0]).Some? ==>
          (StepKeepsShape(s, acts[0]); AlwaysExclusive(Step(s, acts[0]).value, acts[1..])))
  }

  lemma {:induction false} ExclusiveRunIsGuarded(s: State, acts: seq<Action>)
    requires Shaped(s) && AlwaysExclusive(s, acts)
    ensures Guarded(s, acts)
    decreases |acts|
  {
    if acts != [] && Step(s, acts[0]).Some? {
      StepKeepsShape(s, acts[0]);
      var s', w := Step(s, acts[0]).value, acts[0].w;
      assert Exclusive(s') by {
        assert AlwaysExclusive(s', acts[1..]);
      }
      if acts[0].Request? {
        forall v | 0 <= v < |s.workers| && v != w && s.workers[v].user == s.workers[w].user
          ensures !InSection(s.workers[v])
        {
          assert s'.workers[v] == s.workers[v] && InSection(s'.workers[w]);
        }
      }
      ExclusiveRunIsGuarded(s', acts[1..]);
    }
  }

  // ---------------------------------------------------------------- credits and signatures

  function Lost(ended: seq<Ended>, u: nat): nat {
    if ended == [] then 0
    else
      var last := ended[|ended| - 1];
      Lost(ended[..|ended| - 1], u) + if last.user == u && last.spent != last.signed then 1 else 0
  }

  ghost predicate CreditedAt(s: State, u: nat)
    requires Shaped(s) && u < |s.taken|
  {
    s.taken[u] == s.responses[u] + Lost(s.ended, u) + Count(s.workers, OwingOn(u))
  }

  /** A session owes at most the one response it is working on. */
  ghost predicate PaidUp(k: Worker) {
    k.phase != Idle ==> k.spent == k.signed + if Owing(k) then 1 else 0
  }

  ghost predicate Credited(s: State) {
    && Shaped(s)
    && (forall u {:trigger CreditedAt(s, u)} :: 0 <= u < |s.taken| ==> CreditedAt(s, u))
    && (forall w :: 0 <= w < |s.workers| ==> PaidUp(s.workers[w]))
    && (forall e :: 0 <= e < |s.ended| ==> s.ended[e].signed <= s.ended[e].spent <= s.ended[e].signed + 1)
  }

  /** A session that ends owing a response is the one counted as lost. */
  lemma EndKeepsCreditedAt(s: State, w: nat, u: nat)
    requires Credited(s) && u < |s.taken| && w < |s.workers| && s.workers[w].phase != Idle
    requires s.workers[w].phase == Signing || s.workers[w].phase == Serving
    ensures var s' := End(s, w); Shaped(s') && CreditedAt(s', u)
  {
    var s' := End(s, w);
    assert CreditedAt(s, u) && PaidUp(s.workers[w]);
    CountUpdate(s.workers, w, s'.workers[w], OwingOn(u));
    assert s'.ended[..|s'.ended| - 1] == s.ended;
  }

  lemma StoreKeepsCreditedAt(s: State, w: nat, u: nat)
    requires Credited(s) && u < |s.taken| && w < |s.workers| && s.workers[w].phase.Storing?
    ensures var s' := Progress(s, w).value; Shaped(s') && CreditedAt(s', u)
  {
    var s' := Progress(s, w).value;
    assert CreditedAt(s, u);
    CountUpdate(s.workers, w, s'.workers[w], OwingOn(u));
  }

  lemma DeliverKeepsCreditedAt(s: State, w: nat, u: nat)
    requires Credited(s) && u < |s.taken| && w < |s.workers| && s.workers[w].phase.Signing?
    ensures var s' := Step(s, Deliver(w)).value; Shaped(s') && CreditedAt(s', u)
  {
    var s' := Step(s, Deliver(w)).value;
    assert CreditedAt(s, u);
    CountUpdate(s.workers, w, s'.workers[w], OwingOn(u));
  }

  lemma StepKeepsCreditedAt(s: State, act: Action, u: nat)
    requires Credited(s) && Step(s, act).Some?
    requires u < |s.taken|
    ensures Shaped(Step(s, act).value) && u < |Step(s, act).value.taken| && CreditedAt(Step(s, act).value, u)
  {
    StepKeepsShape(s, act);
    var s' := Step(s, act).value;
    var w := act.w;
    var k, k' := s.workers[w], s'.workers[w];
    if act.Fail? || act.Leave? {
      EndKeepsCreditedAt(s, w, u);
    } else if k.phase.Storing? {
      StoreKeepsCreditedAt(s, w, u);
    } else if act.Deliver? {
      DeliverKeepsCreditedAt(s, w, u);
    } else {
      assert CreditedAt(s, u);
      assert s'.ended == s.ended && s'.taken == s.taken && s'.responses == s.responses;
      assert (Owing(k) <==> Owing(k')) && (Owing(k) ==> k.user == k'.user);
      CountUpdate(s.workers, w, k', OwingOn(u));
      assert s'.workers == s.workers[w := k'];
    }
  }

  lemma StepKeepsCredited(s: State, act: Action)
    requires Credited(s) && Step(s, act).Some?
    ensures Credited(Step(s, act).value)
  {
    StepKeepsShape(s, act);
    var s' := Step(s, act).value;
    forall u | 0 <= u < |s'.taken| ensures CreditedAt(s', u) {
      StepKeepsCreditedAt(s, act, u);
    }
    assert PaidUp(s.workers[act.w]);
    forall v | 0 <= v < |s'.workers| ensures PaidUp(s'.workers[v]) {
      assert PaidUp(s.workers[v]);
    }
  }

  lemma {:induction false} RunKeepsCredited(s: State, acts: seq<Action>)
    requires Credited(s) && Exec(s, acts).Some?
    ensures Credited(Exec(s, acts).value)
    decreases |acts|
  {
    if acts != [] {
      StepKeepsCredited(s, acts[0]);
      RunKeepsCredited(Step(s, acts[0]).value, acts[1..]);
    }
  }

  lemma InitCredited(cells: seq<uint32>, workers: nat)
    requires |cells| % 2 == 0
    ensures Credited(Init(cells, workers))
  {
    var s := Init(cells, workers);
    forall u | 0 <= u < |s.taken| ensures CreditedAt(s, u) {
      CountNone(s.workers, OwingOn(u));
    }
  }

  /**
    Over every run, guarded or not: every decrement done for a user is a signed response sent to it, a session
    of it that ended in a signing or sending failure, or a request still in progress; and every session that
    ended, and every session alive, lost at most one credit.
  */
  lemma CreditsAccountedFor(cells: seq<uint32>, workers: nat, acts: seq<Action>)
    requires |cells| % 2 == 0
    requires Exec(Init(cells, workers), acts).Some?
    ensures var s := Exec(Init(cells, workers), acts).value;
            && (forall u :: 0 <= u < |s.taken| ==>
                 s.taken[u] == s.responses[u] + Lost(s.ended, u) + Count(s.workers, OwingOn(u)))
            && (forall w :: 0 <= w < |s.workers| && s.workers[w].phase != Idle ==>
                              s.workers[w].signed <= s.workers[w].spent <= s.workers[w].signed + 1)
            && (forall e :: 0 <= e < |s.ended| ==> s.ended[e].signed <= s.ended[e].spent <= s.ended[e].signed + 1)
  {
    InitCredited(cells, workers);
    RunKeepsCredited(Init(cells, workers), acts);
    var s := Exec(Init(cells, workers), acts).value;
    forall u | 0 <= u < |s.taken|
      ensures s.taken[u] == s.responses[u] + Lost(s.ended, u) + Count(s.workers, OwingOn(u))
    {
      assert CreditedAt(s, u);
    }
    forall w | 0 <= w < |s.workers| && s.workers[w].phase != Idle
      ensures s.workers[w].signed <= s.workers[w].spent <= s.workers[w].signed + 1
    {
      assert PaidUp(s.workers[w]);
    }
  }

  ghost predicate Outside(s: State, u: nat) {
    forall w :: 0 <= w < |s.workers| && s.workers[w].user == u ==> !InSection(s.workers[w])
  }

  /**
    The quota over every guarded run, whatever the other users do meanwhile: `remaining` is its initial value less the
    credits taken and never wraps; outside the unlocked lines for a user the two counters add up to their initial
    total; and signed responses never exceed the initial `remaining`.
  */
  lemma QuotaHolds(cells: seq<uint32>, workers: nat, acts: seq<Action>, u: nat)
    requires |cells| % 2 == 0 && 2 * u < |cells|
    requires Exec(Init(cells, workers), acts).Some? && Guarded(Init(cells, workers), acts)
    ensures var s := Exec(Init(cells, workers), acts).value;
            && u < |s.taken|
            && s.cells[2 * u] + s.taken[u] == cells[2 * u]
            && s.responses[u] + Lost(s.ended, u) <= s.taken[u]
            && (Outside(s, u) ==>
                  && s.cells[2 * u + 1] == (cells[2 * u + 1] + s.taken[u]) % WORD
                  && (s.cells[2 * u] + s.cells[2 * u + 1]) % WORD == (cells[2 * u] + cells[2 * u + 1]) % WORD)
  {
    InitGood(cells, workers);
    InitCredited(cells, workers);
    QuotaFrom(Init(cells, workers), acts, u);
  }

  lemma QuotaFrom(s0: State, acts: seq<Action>, u: nat)
    requires Good(s0) && Credited(s0) && 2 * u < |s0.start|
    requires Exec(s0, acts).Some? && Guarded(s0, acts)
    ensures var s := Exec(s0, acts).value;
            && s.start == s0.start && u < |s.taken|
            && s.cells[2 * u] + s.taken[u] == s.start[2 * u]
            && s.responses[u] + Lost(s.ended, u) <= s.taken[u]
            && (Outside(s, u) ==>
                  && s.cells[2 * u + 1] == (s.start[2 * u + 1] + s.taken[u]) % WORD
                  && (s.cells[2 * u] + s.cells[2 * u + 1]) % WORD == (s.start[2 * u] + s.start[2 * u + 1]) % WORD)
  {
    GuardedRunKeepsGood(s0, acts);
    RunKeepsCredited(s0, acts);
    QuotaOf(Exec(s0, acts).value, u);
  }

  lemma QuotaOf(s: State, u: nat)
    requires Balanced(s) && Credited(s) && 2 * u < |s.start|
    ensures u < |s.taken|
    ensures s.cells[2 * u] + s.taken[u] == s.start[2 * u]
    ensures s.responses[u] + Lost(s.ended, u) <= s.taken[u]
    ensures Outside(s, u) ==>
              && s.cells[2 * u + 1] == (s.start[2 * u + 1] + s.taken[u]) % WORD
              && (s.cells[2 * u] + s.cells[2 * u + 1]) % WORD == (s.start[2 * u] + s.start[2 * u + 1]) % WORD
  {
    assert BalancedAt(s, u) && CreditedAt(s, u);
    if Outside(s, u) {
      BalancedOutside(s, u);
    }
  }

  lemma BalancedOutside(s: State, u: nat)
    requires Shaped(s) && u < |s.taken| && BalancedAt(s, u) && Outside(s, u)
    ensures s.cells[2 * u + 1] == (s.start[2 * u + 1] + s.taken[u]) % WORD
    ensures (s.cells[2 * u] + s.cells[2 * u + 1]) % WORD == (s.start[2 * u] + s.start[2 * u + 1]) % WORD
  {
    CountNone(s.workers, PendingOn(u));
    TotalKept(s.cells[2 * u], s.cells[2 * u + 1], s.start[2 * u], s.start[2 * u + 1], s.taken[u]);
  }

  lemma TotalKept(r: uint32, c: uint32, r0: uint32, c0: uint32, k: nat)
    requires r + k == r0 && c == (c0 + k) % WORD
    ensures (r + c) % WORD == (r0 + c0) % WORD
  {
    assert c0 + k == (c0 + k) / WORD * WORD + c;
    assert r0 + c0 == r + c + (c0 + k) / WORD * WORD;
  }

  // ---------------------------------------------------------------- exactness of the guard

  /** `t` follows from `s` by `n` further accesses of the workers, with no new request. */
  ghost predicate ReachesIn(s: State, t: State, n: nat)
    decreases n
  {
    if n == 0 then s == t
    else exists m: State, w: nat :: ReachesIn(s, m, n - 1) && Advances(m, w, t)
  }

  ghost predicate Advances(m: State, w: nat, t: State) {
    Shaped(m) && Progress(m, w) == Some(t)
  }

  ghost predicate Reaches(s: State, t: State) {
    exists n: nat :: ReachesIn(s, t, n)
  }

  lemma ReachesSelf(s: State)
    ensures Reaches(s, s)
  {
    assert ReachesIn(s, s, 0);
  }

  lemma ReachesOn(s: State, t: State, w: nat)
    requires Reaches(s, t) && Shaped(t) && w < |t.workers| && Progress(t, w).Some?
    ensures Reaches(s, Progress(t, w).value) && Shaped(Progress(t, w).value)
  {
    StepKeepsShape(t, Advance(w));
    var n: nat :| ReachesIn(s, t, n);
    assert Advances(t, w, Progress(t, w).value);
    assert ReachesIn(s, Progress(t, w).value, n + 1);
  }

  lemma {:induction false} AdvancesKeepGood(s: State, t: State, n: nat)
    requires Good(s) && ReachesIn(s, t, n)
    ensures Good(t)
    decreases n
  {
    hide Good, Advances;
    if n > 0 {
      var m: State, w: nat :| ReachesIn(s, m, n - 1) && Advances(m, w, t);
      AdvancesKeepGood(s, m, n - 1);
      AdvanceKeepsGood(m, w, t);
    }
  }

  lemma AdvanceKeepsGood(m: State, w: nat, t: State)
    requires Good(m) && Advances(m, w, t)
    ensures Good(t)
  {
    assert Step(m, Advance(w)) == Some(t);
    StepKeepsGood(m, Advance(w));
  }

  /** One more access of worker `w` that keeps the accounts. */
  lemma Onward(s: State, t: State, w: nat) returns (t': State)
    requires Reaches(s, t)
    requires Balanced(t) && w < |t.workers| && Sound(t, t.workers[w]) && Progress(t, w).Some?
    ensures Reaches(s, t') && Balanced(t')
    ensures t.workers[w].phase.Checking? && t.cells[2 * t.workers[w].user] > 0 ==> t' == Move(t, w, Loading)
    ensures t.workers[w].phase.Loading? ==> t' == Move(t, w, Storing(Pred(t.cells[2 * t.workers[w].user])))
    ensures t.workers[w].phase.LoadingC? ==> t' == Move(t, w, StoringC(Succ(t.cells[2 * t.workers[w].user + 1])))
    ensures t.workers[w].phase.Storing? ==>
              && |t'.workers| == |t.workers|
              && t'.workers[w].phase == LoadingC && t'.workers[w].user == t.workers[w].user
              && (forall v :: 0 <= v < |t.workers| && v != w ==> t'.workers[v] == t.workers[v])
              && t'.cells[2 * t.workers[w].user + 1] == t.cells[2 * t.workers[w].user + 1]
  {
    ReachesOn(s, t, w);
    t' := Progress(t, w).value;
    forall u | 0 <= u < |t'.taken| ensures BalancedAt(t', u) {
      StepKeepsBalance(t, Advance(w), u);
    }
  }

  /** A worker that found a credit is brought to the point of storing the decremented value. */
  lemma {:induction false} ToStoring(s: State, t: State, w: nat) returns (t': State)
    requires Reaches(s, t)
    requires Balanced(t) && w < |t.workers| && Sound(t, t.workers[w])
    requires t.workers[w].phase.Checking? || t.workers[w].phase.Loading? || t.workers[w].phase.Storing?
    requires t.cells[2 * t.workers[w].user] > 0
    ensures Reaches(s, t') && Balanced(t') && t'.cells == t.cells
    ensures t'.workers == t.workers[w := t.workers[w].(phase := Storing(t.cells[2 * t.workers[w].user] - 1))]
    decreases if t.workers[w].phase.Checking? then 2 else if t.workers[w].phase.Loading? then 1 else 0
  {
    if t.workers[w].phase.Storing? {
      t' := t;
    } else {
      var next := Onward(s, t, w);
      t' := ToStoring(s, next, w);
    }
  }

  /** A worker past its decrement is brought to the point of storing the incremented value. */
  lemma ToStoringC(s: State, t: State, w: nat) returns (t': State)
    requires Reaches(s, t)
    requires Balanced(t) && w < |t.workers| && Sound(t, t.workers[w])
    requires t.workers[w].phase.LoadingC? || t.workers[w].phase.StoringC?
    ensures Reaches(s, t') && Balanced(t') && t'.cells == t.cells
    ensures t'.workers == t.workers[w := t.workers[w].(phase := StoringC(Succ(t.cells[2 * t.workers[w].user + 1])))]
  {
    if t.workers[w].phase.StoringC? {
      t' := t;
    } else {
      t' := Onward(s, t, w);
    }
  }

  lemma ToLoadingC(s: State, t: State, w: nat) returns (t': State)
    requires Reaches(s, t)
    requires Balanced(t) && w < |t.workers| && Sound(t, t.workers[w]) && t.workers[w].phase.Storing?
    ensures Reaches(s, t') && Balanced(t') && |t'.workers| == |t.workers|
    ensures t'.workers[w].phase.LoadingC? && t'.workers[w].user == t.workers[w].user
    ensures forall v :: 0 <= v < |t.workers| && v != w ==> t'.workers[v] == t.workers[v]
    ensures t'.cells[2 * t.workers[w].user + 1] == t.cells[2 * t.workers[w].user + 1]
  {
    t' := Onward(s, t, w);
  }

  /** Both decrements loaded the same value: two credits are taken and one is gone. */
  lemma DecrementLost(s0: State, s: State, v: nat, w: nat) returns (t: State)
    requires Reaches(s0, s) && Balanced(s)
    requires v < |s.workers| && w < |s.workers| && v != w
    requires s.workers[v].phase.Storing? && s.workers[v].phase == s.workers[w].phase
        && s.workers[v].user == s.workers[w].user
    requires s.workers[v].phase.value + 1 == s.cells[2 * s.workers[v].user]
    ensures Reaches(s0, t) && !Balanced(t)
  {
    var u := s.workers[v].user;
    assert BalancedAt(s, u);
    ReachesOn(s0, s, v);
    var s1 := Progress(s, v).value;
    ReachesOn(s0, s1, w);
    t := Progress(s1, w).value;
    assert t.taken[u] == s.taken[u] + 2 && t.cells[2 * u] == s.cells[2 * u] - 1;
    assert !BalancedAt(t, u);
  }

  lemma IncrementStored(s: State, v: nat, u: nat) returns (t: State)
    requires Shaped(s) && v < |s.workers| && s.workers[v].phase.StoringC? && s.workers[v].user == u
    ensures Progress(s, v) == Some(t) && Shaped(t)
    ensures t.start == s.start && t.taken == s.taken && |t.workers| == |s.workers|
    ensures forall i :: 0 <= i < |s.workers| && i != v ==> t.workers[i] == s.workers[i]
    ensures t.cells[2 * u + 1] == s.workers[v].phase.value
    ensures Count(t.workers, PendingOn(u)) + 1 == Count(s.workers, PendingOn(u))
  {
    StepKeepsShape(s, Advance(v));
    t := Progress(s, v).value;
    CountUpdate(s.workers, v, t.workers[v], PendingOn(u));
  }

  /** Both increments loaded the same value: two are owed and one arrives. */
  lemma IncrementLost(s0: State, s: State, v: nat, w: nat) returns (t: State)
    requires Reaches(s0, s) && Balanced(s)
    requires v < |s.workers| && w < |s.workers| && v != w
    requires s.workers[v].phase.StoringC? && s.workers[v].phase == s.workers[w].phase
        && s.workers[v].user == s.workers[w].user
    requires s.workers[v].phase.value == Succ(s.cells[2 * s.workers[v].user + 1])
    ensures Reaches(s0, t) && !Balanced(t)
  {
    var u := s.workers[v].user;
    var s1 := IncrementStored(s, v, u);
    t := IncrementStored(s1, w, u);
    TwoOwedOneArrived(s, t, u);
    ReachesOn(s0, s, v);
    ReachesOn(s0, s1, w);
  }

  lemma TwoOwedOneArrived(s: State, t: State, u: nat)
    requires Balanced(s) && Shaped(t) && u < |s.taken|
    requires t.start == s.start && t.taken == s.taken
    requires t.cells[2 * u + 1] == Succ(s.cells[2 * u + 1])
    requires Count(s.workers, PendingOn(u)) == Count(t.workers, PendingOn(u)) + 2
    ensures !Balanced(t)
  {
    assert BalancedAt(s, u);
    MissingIncrement(s.cells[2 * u + 1], Count(t.workers, PendingOn(u)), s.start[2 * u + 1] + s.taken[u]);
    assert !BalancedAt(t, u);
  }

  lemma MissingIncrement(c: uint32, n: nat, x: nat)
    requires (c + n + 2) % WORD == x % WORD
    ensures (Succ(c) + n) % WORD != x % WORD
  {
    CongruentAbsorb(c, n + 2);
    var y := Succ(c) + n;
    assert (y + 1) % WORD == x % WORD;
    assert y % WORD != (y + 1) % WORD;
  }

  /** Both workers have yet to decrement. */
  lemma DecrementsCollide(s: State, v: nat, w: nat) returns (t: State)
    requires Balanced(s) && v < |s.workers| && w < |s.workers| && v != w
    requires Sound(s, s.workers[v]) && s.workers[w].phase.Checking?
    requires s.workers[v].phase.Checking? || s.workers[v].phase.Loading? || s.workers[v].phase.Storing?
    requires s.workers[v].user == s.workers[w].user && s.cells[2 * s.workers[w].user] > 0
    ensures Reaches(s, t) && !Balanced(t)
  {
    ReachesSelf(s);
    var t1 := ToStoring(s, s, w);
    var t2 := ToStoring(s, t1, v);
    t := DecrementLost(s, t2, v, w);
  }

  /** The first worker has decremented and not yet incremented. */
  lemma IncrementsCollide(s: State, v: nat, w: nat) returns (t: State)
    requires Balanced(s) && v < |s.workers| && w < |s.workers| && v != w
    requires Sound(s, s.workers[v]) && s.workers[w].phase.Checking?
    requires s.workers[v].phase.LoadingC? || s.workers[v].phase.StoringC?
    requires s.workers[v].user == s.workers[w].user && s.cells[2 * s.workers[w].user] > 0
    ensures Reaches(s, t) && !Balanced(t)
  {
    hide Reaches, Balanced;
    ReachesSelf(s);
    var t1 := ToStoring(s, s, w);
    var t2 := ToLoadingC(s, t1, w);
    assert t2.workers[v] == t1.workers[v] == s.workers[v];
    t := IncrementsMeet(s, t2, v, w);
  }

  lemma IncrementsMeet(s0: State, s: State, v: nat, w: nat) returns (t: State)
    requires Reaches(s0, s) && Balanced(s) && v < |s.workers| && w < |s.workers| && v != w
    requires Sound(s, s.workers[v]) && s.workers[w].phase.LoadingC?
    requires s.workers[v].phase.LoadingC? || s.workers[v].phase.StoringC?
    requires s.workers[v].user == s.workers[w].user
    ensures Reaches(s0, t) && !Balanced(t)
  {
    hide Reaches, Balanced;
    var t1 := ToStoringC(s0, s, w);
    assert t1.workers[v] == s.workers[v] && Sound(t1, t1.workers[v]);
    var t2 := ToStoringC(s0, t1, v);
    assert t2.workers[v].phase == StoringC(Succ(s.cells[2 * s.workers[v].user + 1])) == t2.workers[w].phase;
    t := IncrementLost(s0, t2, v, w);
  }

  /** A second worker enters while the user still has a credit: some schedule spoils the accounts. */
  lemma OverlapSpoils(s: State, v: nat, w: nat) returns (t: State)
    requires Balanced(s) && v < |s.workers| && w < |s.workers| && v != w
    requires Sound(s, s.workers[v]) && s.workers[w].phase.Checking?
    requires InSection(s.workers[v]) && s.workers[v].user == s.workers[w].user
    requires s.cells[2 * s.workers[w].user] > 0
    ensures Reaches(s, t) && !Balanced(t)
  {
    if s.workers[v].phase.LoadingC? || s.workers[v].phase.StoringC? {
      t := IncrementsCollide(s, v, w);
    } else {
      t := DecrementsCollide(s, v, w);
    }
  }

  /**
    Exactly when a request is safe: from a state with exact accounts, letting a sign request in keeps them exact under
    every schedule that follows iff the user has no credit left or no other worker is in the section for that user.
  */
  lemma RequestSafeExactlyWhenGuarded(s: State, w: nat)
    requires Good(s) && w < |s.workers| && s.workers[w].phase == Serving
    ensures Shaped(Move(s, w, Checking))
    ensures Guard(s, w) <==> forall t | Reaches(Move(s, w, Checking), t) :: Balanced(t)
  {
    var s1 := Move(s, w, Checking);
    assert Step(s, Request(w)) == Some(s1);
    StepKeepsShape(s, Request(w));
    if Guard(s, w) {
      StepKeepsGood(s, Request(w));
      forall t | Reaches(s1, t) ensures Balanced(t) {
        var n: nat :| ReachesIn(s1, t, n);
        AdvancesKeepGood(s1, t, n);
      }
    } else {
      var v :| 0 <= v < |s.workers| && v != w && s.workers[v].user == s.workers[w].user && InSection(s.workers[v]);
      forall u | 0 <= u < |s1.taken| ensures BalancedAt(s1, u) {
        StepKeepsBalance(s, Request(w), u);
      }
      StepKeepsSound(s, Request(w), v);
      var t := OverlapSpoils(s1, v, w);
    }
  }

  // ---------------------------------------------------------------- the sequential meaning

  function CellsOf(users: seq<Users.UserInfo>): (c: seq<uint32>)
    ensures |c| == 2 * |users|
  {
    seq(2 * |users|, i requires 0 <= i < 2 * |users| =>
      if i % 2 == 0 then users[i / 2].remaining else users[i / 2].consumed)
  }

  lemma CellsConsumed(users: seq<Users.UserInfo>, u: nat)
    requires u < |users|
    ensures CellsOf(users)[2 * u] == users[u].remaining && CellsOf(users)[2 * u + 1] == users[u].consumed
    ensures users[u].remaining > 0 ==>
              CellsOf(Users.Consume(users, u).1)
              == CellsOf(users)[2 * u := users[u].remaining - 1][2 * u + 1 := Succ(users[u].consumed)]
  {
    if users[u].remaining > 0 {
      var after := Users.Consume(users, u).1;
      var target := CellsOf(users)[2 * u := users[u].remaining - 1][2 * u + 1 := Succ(users[u].consumed)];
      forall i | 0 <= i < 2 * |users| ensures CellsOf(after)[i] == target[i] {
        assert i == 2 * (i / 2) + i % 2;
      }
      assert CellsOf(after) == target;
    }
  }

  /** The accesses up to the first store, of a worker that finds a credit. */
  lemma AloneDecrements(s: State, w: nat) returns (t: State)
    requires Shaped(s) && w < |s.workers| && s.workers[w].phase.Checking?
    requires s.cells[2 * s.workers[w].user] > 0
    ensures var u := s.workers[w].user;
            && Reaches(s, t) && Shaped(t) && |t.workers| == |s.workers|
            && t.cells == s.cells[2 * u := s.cells[2 * u] - 1]
            && t.workers[w].phase == LoadingC && t.workers[w].user == u
            && t.workers == s.workers[w := t.workers[w]] && t.holder == s.holder
  {
    ReachesSelf(s);
    ReachesOn(s, s, w);
    var s1 := Progress(s, w).value;
    ReachesOn(s, s1, w);
    var s2 := Progress(s1, w).value;
    ReachesOn(s, s2, w);
    t := Progress(s2, w).value;
  }

  lemma AloneIncrements(s0: State, s: State, w: nat) returns (t: State)
    requires Reaches(s0, s) && Shaped(s) && w < |s.workers| && s.workers[w].phase.LoadingC?
    ensures var c := 2 * s.workers[w].user + 1;
            && Reaches(s0, t) && Shaped(t) && |t.workers| == |s.workers|
            && t.cells == s.cells[c := Succ(s.cells[c])]
            && t.workers[w].phase == Waiting && t.workers[w].user == s.workers[w].user
            && t.workers == s.workers[w := t.workers[w]] && t.holder == s.holder
  {
    ReachesOn(s0, s, w);
    var s1 := Progress(s, w).value;
    ReachesOn(s0, s1, w);
    t := Progress(s1, w).value;
  }

  /**
    Undisturbed, the accesses of one request add up to `Consume`: refused at zero, and otherwise exactly its new list.
  */
  lemma AloneIsConsume(s: State, w: nat, users: seq<Users.UserInfo>) returns (t: State)
    requires Shaped(s) && w < |s.workers| && s.workers[w].phase.Checking? && s.cells == CellsOf(users)
    ensures var (outcome, after) := Users.Consume(users, s.workers[w].user);
            && Reaches(s, t) && |t.workers| == |s.workers|
            && t.cells == CellsOf(after)
            && t.workers[w].phase == (if outcome == OK then Waiting else Serving)
            && (outcome == OK || outcome == INVALID)
  {
    var u := s.workers[w].user;
    CellsConsumed(users, u);
    if users[u].remaining > 0 {
      var m := AloneDecrements(s, w);
      t := AloneIncrements(s, m, w);
    } else {
      ReachesSelf(s);
      ReachesOn(s, s, w);
      t := Progress(s, w).value;
    }
  }

  lemma AloneTruncates(s0: State, s: State, w: nat) returns (t: State)
    requires Reaches(s0, s) && Shaped(s) && w < |s.workers| && s.workers[w].phase.Waiting? && s.holder == None
    ensures Reaches(s0, t) && t.file == None
    ensures t.workers == s.workers[w := s.workers[w].(phase := Copying([]))]
  {
    ReachesOn(s0, s, w);
    var s1 := Progress(s, w).value;
    ReachesOn(s0, s1, w);
    t := Progress(s1, w).value;
  }

  /**
    Why the file is excepted while it is being rewritten: whenever a worker, alone in `consumeTimestamp`, runs on to its
    save, the file shows nothing of any user, although nobody has changed any user but its own.
  */
  lemma TruncationShowsOnOthers(s: State, w: nat) returns (t: State)
    requires Shaped(s) && s.holder == None && w < |s.workers|
    requires s.workers[w].phase.Checking? && s.cells[2 * s.workers[w].user] > 0
    requires forall v :: 0 <= v < |s.workers| && v != w ==> !InsideConsume(s.workers[v])
    ensures Reaches(s, t) && t.file == None
    ensures forall u: nat :: u != s.workers[w].user ==> !DirtyBut(t.workers, -1, u)
  {
    var m := AloneDecrements(s, w);
    var n := AloneIncrements(s, m, w);
    t := AloneTruncates(s, n, w);
    assert t.workers == s.workers[w := t.workers[w]];
  }
}
