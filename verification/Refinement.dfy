/**
  The two pictures of one worker: the ledger's single memory accesses under interleaving, and the server's steps, which
  consume a credit at once. Each serving step is a run of the ledger, and under the guard each passage through the
  unlocked lines, whatever was interleaved with it, is the server's one step after some change by the others.
*/
module Refinement {
  import opened Base
  import opened Primitives
  import opened Ledger
  import opened Quota
  import opened Schedules
  import opened Credits
  import Record
  import U = Users
  import S = Server

  // ---------------------------------------------------------------- a serving step is a ledger run

  /** Worker `w` of the ledger is between requests of the connection `x`, and its cells are those of `now`. */
  ghost predicate Serves(s: State, w: nat, x: S.Session, now: seq<U.UserInfo>) {
    && Shaped(s) && s.holder == None && s.cells == CellsOf(now)
    && w < |s.workers| && s.workers[w].phase == Serving && s.workers[w].user == x.s.clientId
    && x.phase.Serving?
  }

  /** The ledger after a step that took a credit or not, sent a signature or not, and went on or not. */
  ghost predicate Stepped(s: State, t: State, w: nat, took: bool, signed: bool, over: bool)
    requires Shaped(s) && w < |s.workers| && s.workers[w].phase == Serving
  {
    var k := s.workers[w];
    var spent, got := k.spent + (if took then 1 else 0), k.signed + (if signed then 1 else 0);
    && t.start == s.start && t.holder == None
    && t.taken == (if took then s.taken[k.user := s.taken[k.user] + 1] else s.taken)
    && t.responses == (if signed then s.responses[k.user := s.responses[k.user] + 1] else s.responses)
    && t.file == (if took then Some(t.cells) else s.file)
    && t.workers == s.workers[w := Worker(k.user, if over then Idle else Serving, spent, got)]
    && t.ended == if over then s.ended + [Ended(k.user, spent, got)] else s.ended
  }

  lemma TakingRun(s: State, w: nat, now: seq<U.UserInfo>, signed: bool) returns (acts: seq<Action>, t: State)
    requires Shaped(s) && s.holder == None && s.cells == CellsOf(now) && w < |s.workers|
    requires s.workers[w].phase == Serving && s.cells[2 * s.workers[w].user] > 0
    ensures Exec(s, acts) == Some(t) && ByOne([], acts, w) && Stepped(s, t, w, true, signed, !signed)
    ensures t.cells == CellsOf(U.Consume(now, s.workers[w].user).1)
  {
    var acts1, s1 := TakeAlone(s, [], s, w);
    CellsConsumed(now, s.workers[w].user);
    if signed {
      acts, t := Go(s, acts1, s1, Deliver(w));
    } else {
      acts, t := Go(s, acts1, s1, Fail(w));
    }
  }

  lemma RefusedRun(s: State, w: nat) returns (acts: seq<Action>, t: State)
    requires Shaped(s) && s.holder == None && w < |s.workers|
    requires s.workers[w].phase == Serving && s.cells[2 * s.workers[w].user] == 0
    ensures Exec(s, acts) == Some(t) && ByOne([], acts, w) && Stepped(s, t, w, false, false, false)
        && t.cells == s.cells
  {
    var acts1, s1 := Go(s, [], s, Request(w));
    acts, t := Go(s, acts1, s1, Advance(w));
  }

  /**
    Each serving step, whatever arrived and whatever failed, is a run of worker `w` of the ledger from any state with
    the same list and the mutex free: same new list, same credit taken, same signature counted, and the session
    ends in the one exactly when it ends in the other, with the tallies of the whole session.
  */
  lemma ServingStepIsLedgerRun(p: Crypto, signKey: Bytes, r: S.Run, e: S.Env, s: State, w: nat)
    returns (acts: seq<Action>, t: State)
    requires Serves(s, w, r.x, U.WithCounters(r.users, e.counters))
    ensures var r' := S.Next(p, signKey, r, e);
            && Exec(s, acts) == Some(t) && ByOne([], acts, w)
            && t.cells == CellsOf(r'.users)
            && Stepped(s, t, w, Takes(p, signKey, r, e), Signs(p, signKey, r, e), r'.x.phase.Over?)
  {
    var now := U.WithCounters(r.users, e.counters);
    var r' := S.Next(p, signKey, r, e);
    StepPays(p, signKey, r, e);
    if Takes(p, signKey, r, e) {
      TakesOneCredit(p, signKey, r, e);
      CellsConsumed(now, s.workers[w].user);
      acts, t := TakingRun(s, w, now, Signs(p, signKey, r, e));
    } else if r'.x.phase.Over? {
      acts, t := Go(s, [], s, Leave(w));
    } else if Record.DecRecv(p, r.x.s.ch, e.arrival).written[0] == SIGN && s.cells[2 * s.workers[w].user] == 0 {
      acts, t := RefusedRun(s, w);
    } else {
      acts, t := [], s;
      assert s.workers[w := s.workers[w]] == s.workers;
    }
  }

  // ---------------------------------------------------------------- a guarded passage is one atomic step

  /** A run during which worker `w` is in the unlocked lines up to its last state. */
  ghost predicate InsideUntilLast(s: State, acts: seq<Action>, w: nat)
    requires Shaped(s)
    decreases |acts|
  {
    acts != [] ==>
      && w < |s.workers| && InSection(s.workers[w])
      && (Step(s, acts[0]).Some? ==>
           (StepKeepsShape(s, acts[0]); InsideUntilLast(Step(s, acts[0]).value, acts[1..], w)))
  }

  /** The account of `w`'s user, by how far `w` is, when it entered with `r0` credits left and `c0` consumed. */
  ghost predicate OwnAccount(s: State, w: nat, u: nat, r0: uint32, c0: uint32) {
    && Shaped(s) && w < |s.workers| && u < |s.taken| && s.workers[w].user == u
    && var r, c := s.cells[2 * u], s.cells[2 * u + 1];
       match s.workers[w].phase
       case Checking => r == r0 && (r0 > 0 ==> c == c0)
       case Loading => r0 > 0 && r == r0 && c == c0
       case Storing(_) => r0 > 0 && r == r0 && c == c0
       case LoadingC => r0 > 0 && r == r0 - 1 && c == c0
       case StoringC(_) => r0 > 0 && r == r0 - 1 && c == c0
       case Waiting => r0 > 0 && r == r0 - 1 && c == Succ(c0)
       case Serving => r0 == 0 && r == 0
       case _ => false
  }

  lemma OwnStep(s: State, w: nat, u: nat, r0: uint32, c0: uint32)
    requires Good(s) && w < |s.workers| && InSection(s.workers[w]) && OwnAccount(s, w, u, r0, c0)
    ensures Progress(s, w).Some? && OwnAccount(Progress(s, w).value, w, u, r0, c0)
  {
    assert Sound(s, s.workers[w]);
    StepKeepsShape(s, Advance(w));
  }

  lemma OthersStep(s: State, act: Action, w: nat, u: nat, r0: uint32, c0: uint32)
    requires Good(s) && w < |s.workers| && InSection(s.workers[w]) && OwnAccount(s, w, u, r0, c0)
    requires Step(s, act).Some? && act.w != w
    ensures OwnAccount(Step(s, act).value, w, u, r0, c0)
  {
    StepKeepsShape(s, act);
    var v := act.w;
    if s.workers[v].user == u && InSection(s.workers[v]) {
      assert MayShare(s, s.workers[Min(v, w)], s.workers[v + w - Min(v, w)]);
    }
  }

  lemma {:induction false} PassageKeepsAccount(s: State, acts: seq<Action>, w: nat, u: nat, r0: uint32, c0: uint32)
    requires Good(s) && Guarded(s, acts) && Exec(s, acts).Some?
    requires InsideUntilLast(s, acts, w) && OwnAccount(s, w, u, r0, c0)
    ensures OwnAccount(Exec(s, acts).value, w, u, r0, c0)
    decreases |acts|
  {
    if acts != [] {
      StepKeepsGood(s, acts[0]);
      if acts[0].w == w {
        OwnStep(s, w, u, r0, c0);
      } else {
        OthersStep(s, acts[0], w, u, r0, c0);
      }
      PassageKeepsAccount(Step(s, acts[0]).value, acts[1..], w, u, r0, c0);
    }
  }

  /** The counters read off the cells. */
  function CountersOf(cells: seq<uint32>): (c: seq<(uint32, uint32)>)
    requires |cells| % 2 == 0
    ensures |c| == |cells| / 2
  {
    seq(|cells| / 2, i requires 0 <= i < |cells| / 2 => (cells[2 * i], cells[2 * i + 1]))
  }

  lemma CellsWithCounters(users: seq<U.UserInfo>, cells: seq<uint32>)
    requires |cells| == 2 * |users|
    ensures CellsOf(U.WithCounters(users, CountersOf(cells))) == cells
  {
    var now := U.WithCounters(users, CountersOf(cells));
    forall i | 0 <= i < |cells| ensures CellsOf(now)[i] == cells[i] {
      assert i == 2 * (i / 2) + i % 2;
    }
  }

  /** The list just before `w` took its credit in one go: everybody else's cells as they are at the end. */
  function Before(t: State, u: nat, r0: uint32, c0: uint32): (cells: seq<uint32>)
    requires Shaped(t) && u < |t.taken|
    ensures |cells| == |t.cells|
  {
    if r0 > 0 then t.cells[2 * u := r0][2 * u + 1 := c0] else t.cells
  }

  lemma AccountIsConsume(t: State, w: nat, u: nat, r0: uint32, c0: uint32, users: seq<U.UserInfo>)
    returns (counters: seq<(uint32, uint32)>)
    requires OwnAccount(t, w, u, r0, c0) && !InSection(t.workers[w]) && |users| == |t.taken|
    ensures var (outcome, after) := U.Consume(U.WithCounters(users, counters), u);
            && |counters| == |users| && counters[u].0 == r0 && (r0 > 0 ==> counters[u].1 == c0)
            && t.cells == CellsOf(after)
            && t.workers[w].phase == if outcome == OK then Waiting else Serving
  {
    var cells := Before(t, u, r0, c0);
    counters := CountersOf(cells);
    CellsWithCounters(users, cells);
    ConsumedCells(U.WithCounters(users, counters), u, cells, t.cells);
  }

  /** Consuming the list that `cells` stands for gives the list that `after` stands for. */
  lemma ConsumedCells(now: seq<U.UserInfo>, u: nat, cells: seq<uint32>, after: seq<uint32>)
    requires u < |now| && CellsOf(now) == cells && |after| == |cells|
    requires forall i :: 0 <= i < |cells| && i != 2 * u && i != 2 * u + 1 ==> after[i] == cells[i]
    requires if cells[2 * u] > 0 then
               after[2 * u] == cells[2 * u] - 1 && after[2 * u + 1] == Succ(cells[2 * u + 1])
             else after == cells
    ensures after == CellsOf(U.Consume(now, u).1)
    ensures U.Consume(now, u).0 == if cells[2 * u] > 0 then OK else INVALID
  {
    CellsConsumed(now, u);
  }

  /**
    Atomicity: under the guard, a passage of worker `w` through the unlocked lines, with any accesses of any others in
    between, leaves the list as one `Consume` does after some change of the counters by the others, in which the
    user's own account is as it was when `w` entered. The server's serving step consumes in just that way.
  */
  lemma PassageIsAtomic(s: State, acts: seq<Action>, w: nat, users: seq<U.UserInfo>)
    returns (counters: seq<(uint32, uint32)>)
    requires Good(s) && Guarded(s, acts) && Exec(s, acts).Some?
    requires w < |s.workers| && s.workers[w].phase == Checking && InsideUntilLast(s, acts, w)
    requires !InSection(Exec(s, acts).value.workers[w]) && s.cells == CellsOf(users)
    ensures var t, u := Exec(s, acts).value, s.workers[w].user;
            var (outcome, after) := U.Consume(U.WithCounters(users, counters), u);
            && |counters| == |users| && u < |users|
            && counters[u].0 == users[u].remaining
            && (users[u].remaining > 0 ==> counters[u].1 == users[u].consumed)
            && t.cells == CellsOf(after)
            && t.workers[w].phase == if outcome == OK then Waiting else Serving
  {
    var t, u := Exec(s, acts).value, s.workers[w].user;
    CellsConsumed(users, u);
    PassageKeepsAccount(s, acts, w, u, users[u].remaining, users[u].consumed);
    counters := AccountIsConsume(t, w, u, users[u].remaining, users[u].consumed, users);
  }
}
