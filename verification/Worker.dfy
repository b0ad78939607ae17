/** The worker's loops over one connection, from a completed handshake on. */
module Worker {
  import opened Base
  import opened Primitives
  import opened Record
  import U = Users
  import opened Server
  import opened Credits
  import R = ResponseManager

  ghost predicate At(rm: R.ResponseManager, sent0: seq<Bytes>, r: Run)
    requires rm.Ready()
    reads rm, rm.buffer, rm.conn, rm.conn.cipher, rm.uinfo
  {
    rm.uinfo.users == r.users && rm.View() == r.x.s && rm.conn.sent == sent0 + r.out
  }

  lemma PlayOne(p: Crypto, signKey: Bytes, start: Run, es: seq<Env>, i: nat)
    requires i < |es|
    ensures Play(p, signKey, start, es[..i + 1]) == Next(p, signKey, Play(p, signKey, start, es[..i]), es[i])
  {
    assert es[..i + 1][..i] == es[..i];
  }

  lemma FileOne(p: Crypto, signKey: Bytes, start: Run, file: seq<U.UserInfo>, es: seq<Env>, i: nat)
    requires i < |es|
    ensures FileAfter(p, signKey, start, file, es[..i + 1])
            == if Takes(p, signKey, Play(p, signKey, start, es[..i]), es[i])
                then Play(p, signKey, start, es[..i + 1]).users
               else FileAfter(p, signKey, start, file, es[..i])
  {
    assert es[..i + 1][..i] == es[..i];
  }

  lemma {:induction false} PlayOver(p: Crypto, signKey: Bytes, start: Run, file: seq<U.UserInfo>, es: seq<Env>, i: nat)
    requires i <= |es| && Play(p, signKey, start, es[..i]).x.phase.Over?
    ensures Play(p, signKey, start, es) == Play(p, signKey, start, es[..i])
    ensures FileAfter(p, signKey, start, file, es) == FileAfter(p, signKey, start, file, es[..i])
    decreases |es| - i
  {
    if i < |es| {
      PlayOne(p, signKey, start, es, i);
      FileOne(p, signKey, start, file, es, i);
      LoginSignsNothing(p, signKey, Play(p, signKey, start, es[..i]), es[i]);
      PlayOver(p, signKey, start, file, es, i + 1);
    } else {
      assert es[..i] == es;
    }
  }

  /** The body of the attempts loop: one attempt and what is sent inside the loop. */
  method Round(p: Crypto, rm: R.ResponseManager, tries: nat, e: Env) returns (outcome: Status)
    requires rm.Ready() && U.WellStored(rm.uinfo.users)
    modifies rm, rm.buffer, rm.conn, rm.conn.cipher, rm.uinfo
    ensures rm.conn.cipher == old(rm.conn.cipher) && rm.Ready() && U.WellStored(rm.uinfo.users)
    ensures var users := U.WithCounters(old(rm.uinfo.users), e.counters);
            var m := LoginRound(p, users, old(rm.View()), tries, e);
            rm.uinfo.users == users && rm.View() == m.s && outcome == m.status
                && rm.conn.sent == old(rm.conn.sent) + m.out
    ensures rm.uinfo.file == old(rm.uinfo.file)
  {
    rm.uinfo.Interleave(e.counters);
    outcome := rm.AuthenticationAttempt(p, e.arrival);
    if outcome == ERROR {
      var _ := rm.SendStatus(p, ERROR, e.first);
    } else if outcome == INVALID && tries - 1 > 0 {
      var _ := rm.SendStatus(p, outcome, e.first);
    }
  }

  /** The state between the loop and the send that follows it. */
  ghost predicate Between(p: Crypto, rm: R.ResponseManager, sent0: seq<Bytes>, r: Run, e: Env, outcome: Status)
    requires rm.Ready() && r.x.phase.Login?
    reads rm, rm.buffer, rm.conn, rm.conn.cipher, rm.uinfo
  {
    var users := U.WithCounters(r.users, e.counters);
    var m := LoginRound(p, users, r.x.s, r.x.phase.tries, e);
    && rm.uinfo.users == users && rm.View() == m.s && outcome == m.status && rm.conn.sent == sent0 + (r.out + m.out)
    && !(outcome == INVALID && r.x.phase.tries > 1)
  }

  method Finish(p: Crypto, rm: R.ResponseManager, e: Env, outcome: Status, ghost r: Run, ghost sent0: seq<Bytes>)
    returns (loggedIn: bool)
    requires rm.Ready() && r.x.phase.Login? && Between(p, rm, sent0, r, e, outcome)
    modifies rm.conn, rm.conn.cipher
    ensures rm.conn.cipher == old(rm.conn.cipher) && rm.Ready()
    ensures var r' := Next(p, rm.signKey, r, e); At(rm, sent0, r') && r'.x.phase == if loggedIn then Serving else Over
  {
    if outcome != OK {
      var _ := rm.SendStatus(p, ERROR, if outcome == ERROR then e.second else e.first);
      loggedIn := false;
    } else {
      var _ := rm.SendStatus(p, OK, e.first);
      loggedIn := true;
    }
  }

  /** A round that neither succeeds nor fails for good is a whole step. */
  lemma RoundIsStep(p: Crypto, signKey: Bytes, r: Run, e: Env)
    requires r.x.phase.Login? && r.x.phase.tries > 1
    requires LoginRound(p, U.WithCounters(r.users, e.counters), r.x.s, r.x.phase.tries, e).status == INVALID
    ensures var m := LoginRound(p, U.WithCounters(r.users, e.counters), r.x.s, r.x.phase.tries, e);
            var r' := Next(p, signKey, r, e);
            && r'.users == U.WithCounters(r.users, e.counters) && r'.x.s == m.s && r'.out == r.out + m.out
            && r'.x.phase == Login(r.x.phase.tries - 1)
  {
  }

  datatype Outcome = Undecided | In | Out

  /** One round together with the send after the loop, when the loop ends there. */
  method Attempt(p: Crypto, rm: R.ResponseManager, tries: nat, e: Env, ghost r: Run, ghost sent0: seq<Bytes>)
    returns (o: Outcome)
    requires rm.Ready() && U.WellStored(rm.uinfo.users)
    requires At(rm, sent0, r) && r.x.phase == Login(tries) && tries > 0
    modifies rm, rm.buffer, rm.conn, rm.conn.cipher, rm.uinfo
    ensures rm.conn.cipher == old(rm.conn.cipher) && rm.Ready() && U.WellStored(rm.uinfo.users)
    ensures var r' := Next(p, rm.signKey, r, e);
            && At(rm, sent0, r')
            && (o == Undecided ==> tries > 1)
            && r'.x.phase == (match o case Undecided => Login(tries - 1) case In => Serving case Out => Over)
    ensures rm.uinfo.file == old(rm.uinfo.file)
  {
    var outcome := Round(p, rm, tries, e);
    if outcome != INVALID || tries == 1 {
      var b := Finish(p, rm, e, outcome, r, sent0);
      return if b then In else Out;
    }
    RoundIsStep(p, rm.signKey, r, e);
    o := Undecided;
  }

  /** The attempts loop and its closing send; Undecided when `events` ran out first. */
  method Attempts(p: Crypto, rm: R.ResponseManager, events: seq<Env>, ghost start: Run, ghost sent0: seq<Bytes>)
    returns (loggedIn: Outcome, i: nat)
    requires rm.Ready() && U.WellStored(rm.uinfo.users)
    requires At(rm, sent0, start) && start.x.phase == Login(MAX_TRIES)
    modifies rm, rm.buffer, rm.conn, rm.conn.cipher, rm.uinfo
    ensures rm.conn.cipher == old(rm.conn.cipher) && rm.Ready() && i <= |events|
    ensures var r := Play(p, rm.signKey, start, events[..i]);
            && At(rm, sent0, r)
            && (loggedIn == Undecided ==> i == |events| && r.x.phase.Login?)
            && (loggedIn == In ==> r.x.phase == Serving)
            && (loggedIn == Out ==> r.x.phase == Over)
    ensures rm.uinfo.file == FileAfter(p, rm.signKey, start, old(rm.uinfo.file), events[..i])
  {
    var tries := MAX_TRIES;
    i := 0;
    ghost var r := start;
    assert events[..0] == [];
    while tries > 0
      invariant 0 < tries && i <= |events|
      invariant rm.conn.cipher == old(rm.conn.cipher) && rm.Ready() && U.WellStored(rm.uinfo.users)
      invariant r == Play(p, rm.signKey, start, events[..i]) && At(rm, sent0, r) && r.x.phase == Login(tries)
      invariant rm.uinfo.file == FileAfter(p, rm.signKey, start, old(rm.uinfo.file), events[..i])
      decreases tries
    {
      if i == |events| {
        return Undecided, i;
      }
      PlayOne(p, rm.signKey, start, events, i);
      FileOne(p, rm.signKey, start, old(rm.uinfo.file), events, i);
      LoginSignsNothing(p, rm.signKey, r, events[i]);
      loggedIn := Attempt(p, rm, tries, events[i], r, sent0);
      r := Next(p, rm.signKey, r, events[i]);
      i := i + 1;
      if loggedIn != Undecided {
        return;
      }
      tries := tries - 1;
    }
  }

  lemma IndexStays(p: Crypto, signKey: Bytes, r: Run, e: Env)
    requires r.x.phase == Serving
    ensures var r' := Next(p, signKey, r, e); |r'.users| == |r.users| && r'.x.s.clientId == r.x.s.clientId
  {
    ServingKeepsSession(p, signKey, U.WithCounters(r.users, e.counters), U.WithCounters(r.users, e.counters), r.x.s, e);
  }

  /** One request, seen as a step of the run. */
  method Request(p: Crypto, rm: R.ResponseManager, e: Env, ghost r: Run, ghost sent0: seq<Bytes>)
    returns (outcome: Status)
    requires rm.Ready() && At(rm, sent0, r) && r.x.phase == Serving && 0 <= r.x.s.clientId < |r.users|
    modifies rm, rm.buffer, rm.conn, rm.conn.cipher, rm.uinfo
    ensures rm.conn.cipher == old(rm.conn.cipher) && rm.Ready()
    ensures var r' := Next(p, rm.signKey, r, e);
            && At(rm, sent0, r')
            && r'.x.phase == (if outcome == ERROR then Over else Serving)
            && 0 <= r'.x.s.clientId < |r'.users|
            && rm.uinfo.file == if Takes(p, rm.signKey, r, e) then r'.users else old(rm.uinfo.file)
  {
    IndexStays(p, rm.signKey, r, e);
    rm.uinfo.Interleave(e.counters);
    outcome := rm.ManageRequests(p, e);
  }

  ghost predicate Serves(rm: R.ResponseManager, sent0: seq<Bytes>, r: Run)
    requires rm.Ready()
    reads rm, rm.buffer, rm.conn, rm.conn.cipher, rm.uinfo
  {
    At(rm, sent0, r) && r.x.phase == Serving && 0 <= r.x.s.clientId < |r.users|
  }

  /** Requests until one of them fails or `events` runs out; `i` is how many events were used. */
  method Requests(p: Crypto, rm: R.ResponseManager, events: seq<Env>, from: nat, ghost start: Run,
                  ghost sent0: seq<Bytes>, ghost r0: Run,
                  ghost file0: seq<U.UserInfo>)
    returns (i: nat)
    requires rm.Ready() && from <= |events|
    requires r0 == Play(p, rm.signKey, start, events[..from]) && Serves(rm, sent0, r0)
    requires rm.uinfo.file == FileAfter(p, rm.signKey, start, file0, events[..from])
    modifies rm, rm.buffer, rm.conn, rm.conn.cipher, rm.uinfo
    ensures rm.conn.cipher == old(rm.conn.cipher) && rm.Ready() && i <= |events|
    ensures var r := Play(p, rm.signKey, start, events[..i]);
            At(rm, sent0, r) && (i < |events| ==> r.x.phase == Over)
    ensures rm.uinfo.file == FileAfter(p, rm.signKey, start, file0, events[..i])
  {
    hide Next, Takes;
    i := from;
    ghost var r := r0;
    while i < |events|
      invariant from <= i <= |events|
      invariant rm.conn.cipher == old(rm.conn.cipher) && rm.Ready()
      invariant r == Play(p, rm.signKey, start, events[..i]) && Serves(rm, sent0, r)
      invariant rm.uinfo.file == FileAfter(p, rm.signKey, start, file0, events[..i])
      decreases |events| - i
    {
      PlayOne(p, rm.signKey, start, events, i);
      FileOne(p, rm.signKey, start, file0, events, i);
      var outcome := Request(p, rm, events[i], r, sent0);
      r := Next(p, rm.signKey, r, events[i]);
      i := i + 1;
      if outcome == ERROR {
        return;
      }
    }
  }

  lemma ServingIndex(p: Crypto, signKey: Bytes, users: seq<U.UserInfo>, key: Bytes, buffer: Buffer, es: seq<Env>)
    ensures var r := Play(p, signKey, Run(users, Begin(key, buffer), []), es);
            r.x.phase == Serving ==> 0 <= r.x.s.clientId < |r.users|
  {
    ServedOnlyAfterLogin(p, signKey, users, key, buffer, es);
  }

  /** What follows the attempts loop. */
  method Continue(p: Crypto, rm: R.ResponseManager, loggedIn: Outcome, events: seq<Env>, i: nat, ghost start: Run,
                  ghost sent0: seq<Bytes>,
                  ghost file0: seq<U.UserInfo>)
    requires rm.Ready() && i <= |events| && (loggedIn == Undecided ==> i == |events|)
    requires var r := Play(p, rm.signKey, start, events[..i]);
             && At(rm, sent0, r)
             && (loggedIn == In ==> r.x.phase == Serving && 0 <= r.x.s.clientId < |r.users|)
             && (loggedIn == Out ==> r.x.phase == Over)
    requires rm.uinfo.file == FileAfter(p, rm.signKey, start, file0, events[..i])
    modifies rm, rm.buffer, rm.conn, rm.conn.cipher, rm.uinfo
    ensures rm.conn.cipher == old(rm.conn.cipher) && rm.Ready()
    ensures At(rm, sent0, Play(p, rm.signKey, start, events))
    ensures rm.uinfo.file == FileAfter(p, rm.signKey, start, file0, events)
  {
    var k := i;
    if loggedIn == In {
      k := Requests(p, rm, events, i, start, sent0, Play(p, rm.signKey, start, events[..i]), file0);
    }
    if k < |events| {
      PlayOver(p, rm.signKey, start, file0, events, k);
    } else {
      assert events[..k] == events;
    }
  }

  /** Both loops together do exactly what `Play` says, on any sequence of environment choices. */
  method Serve(p: Crypto, rm: R.ResponseManager, events: seq<Env>, ghost key: Bytes, ghost buffer: Buffer)
    requires rm.Ready() && U.WellStored(rm.uinfo.users)
    requires rm.View() == Begin(key, buffer).s
    modifies rm, rm.buffer, rm.conn, rm.conn.cipher, rm.uinfo
    ensures rm.conn.cipher == old(rm.conn.cipher) && rm.Ready()
    ensures var start := Run(old(rm.uinfo.users), Begin(key, buffer), []);
            && At(rm, old(rm.conn.sent), Play(p, rm.signKey, start, events))
            && rm.uinfo.file == FileAfter(p, rm.signKey, start, old(rm.uinfo.file), events)
  {
    ghost var file0 := rm.uinfo.file;
    ghost var sent0 := rm.conn.sent;
    ghost var users := rm.uinfo.users;
    ghost var start := Run(users, Begin(key, buffer), []);
    var loggedIn, i := Attempts(p, rm, events, start, sent0);
    ServingIndex(p, rm.signKey, users, key, buffer, events[..i]);
    Continue(p, rm, loggedIn, events, i, start, sent0, file0);
  }
}
