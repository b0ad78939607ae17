/**
  What one connection costs its user: over everything a worker can do with it, credits taken against signatures sent.
  Both are observed from outside, in the user list and on the wire.
*/
module Credits {
  import opened Base
  import opened Primitives
  import opened Record
  import opened Users
  import opened Server

  /** The step left the list other than it found it. */
  predicate Takes(p: Crypto, signKey: Bytes, r: Run, e: Env) {
    r.x.phase.Serving? && Next(p, signKey, r, e).users != WithCounters(r.users, e.counters)
  }

  /** A record that opens, under the sender's key and counter, to a signed response. */
  ghost predicate IsSignature(p: Crypto, signKey: Bytes, ch: Chan, rec: Bytes) {
    exists hash: Block, stamp: Stamp :: Open(p, ch.key, ch.tx, rec) == Some(SignedMess(p, signKey, hash, stamp))
  }

  /** The step put exactly one record on the wire, and that is a signed response. */
  ghost predicate Signs(p: Crypto, signKey: Bytes, r: Run, e: Env) {
    var out := Step(p, signKey, r.users, r.x, e).2;
    |out| == 1 && IsSignature(p, signKey, r.x.s.ch, out[0])
  }

  ghost function TakenIn(p: Crypto, signKey: Bytes, start: Run, es: seq<Env>): nat {
    if es == [] then 0
    else
      var before := es[..|es| - 1];
      TakenIn(p, signKey, start, before)
      + if Takes(p, signKey, Play(p, signKey, start, before), es[|es| - 1]) then 1 else 0
  }

  ghost function SignedIn(p: Crypto, signKey: Bytes, start: Run, es: seq<Env>): nat {
    if es == [] then 0
    else
      var before := es[..|es| - 1];
      SignedIn(p, signKey, start, before)
      + if Signs(p, signKey, Play(p, signKey, start, before), es[|es| - 1]) then 1 else 0
  }

  lemma SignedIsSignature(p: Crypto, signKey: Bytes, ch: Chan, hash: Block, stamp: Stamp, iv: Iv)
    ensures IsSignature(p, signKey, ch, Seal(p, ch.key, iv, ch.tx, SignedMess(p, signKey, hash, stamp)))
  {
    OpenSeal(p, ch.key, iv, ch.tx, SignedMess(p, signKey, hash, stamp));
  }

  /**
    A sign request: signature sent iff a credit was taken and nothing failed after that, and otherwise a taken credit
    ends it.
  */
  lemma SignDocPays(p: Crypto, signKey: Bytes, users: seq<UserInfo>, s: ServerState, e: Env)
    ensures var (after, r) := SignDoc(p, signKey, users, s, e);
            var took := Consume(users, s.clientId).0 == OK;
            && (took <==> after != users)
            && (|r.out| == 1 && IsSignature(p, signKey, s.ch, r.out[0])
                <==> took && e.signs && e.first.iv.Some? && e.first.delivered)
            && (took ==> (r.status == ERROR <==> !(e.signs && e.first.iv.Some? && e.first.delivered)))
  {
    if Consume(users, s.clientId).0 == OK && e.signs && e.first.iv.Some? {
      SignedIsSignature(p, signKey, s.ch, s.buffer[1..33], e.stamp, e.first.iv.value);
    }
  }

  lemma ServingPays(p: Crypto, signKey: Bytes, r: Run, e: Env)
    requires r.x.phase.Serving?
    ensures Signs(p, signKey, r, e) <==> Takes(p, signKey, r, e) && e.signs && e.first.iv.Some? && e.first.delivered
    ensures Takes(p, signKey, r, e) && !Signs(p, signKey, r, e) ==> Next(p, signKey, r, e).x.phase.Over?
    ensures Signs(p, signKey, r, e) ==> Next(p, signKey, r, e).x.phase.Serving?
  {
    var users := WithCounters(r.users, e.counters);
    var d := DecRecv(p, r.x.s.ch, e.arrival);
    var s1 := r.x.s.(ch := d.ch, buffer := Splice(r.x.s.buffer, 0, d.written));
    if d.ret > 0 {
      SignDocPays(p, signKey, users, s1, e);
    }
  }

  /** All a login step sends are records of one byte. */
  lemma LoginSendsStatuses(p: Crypto, users: seq<UserInfo>, x: Session, e: Env)
    requires x.phase.Login?
    ensures var out := LoginStep(p, users, x, e).1;
            forall i :: 0 <= i < |out| ==> |out[i]| == IV_SIZE + 1 + TAG_SIZE
  {
  }

  lemma LoginSignsNothing(p: Crypto, signKey: Bytes, r: Run, e: Env)
    requires !r.x.phase.Serving?
    ensures !Signs(p, signKey, r, e) && !Takes(p, signKey, r, e)
    ensures Next(p, signKey, r, e).users == if r.x.phase.Over? then r.users else WithCounters(r.users, e.counters)
  {
    if r.x.phase.Login? {
      LoginSendsStatuses(p, WithCounters(r.users, e.counters), r.x, e);
    }
  }

  /** A step that takes, takes exactly one credit, and of the user who is logged in. */
  lemma TakesOneCredit(p: Crypto, signKey: Bytes, r: Run, e: Env)
    requires Takes(p, signKey, r, e)
    ensures var now, id := WithCounters(r.users, e.counters), r.x.s.clientId;
            && 0 <= id < |now| && now[id].remaining > 0
            && Next(p, signKey, r, e).users
               == now[id := now[id].(remaining := now[id].remaining - 1, consumed := Succ(now[id].consumed))]
  {
  }

  /** A credit is lost in a step iff it was taken and the signing, the generator or the send failed. */
  predicate Loses(p: Crypto, signKey: Bytes, r: Run, e: Env) {
    Takes(p, signKey, r, e) && !(e.signs && e.first.iv.Some? && e.first.delivered)
  }

  predicate LosesAt(p: Crypto, signKey: Bytes, start: Run, es: seq<Env>, k: nat)
    requires k < |es|
  {
    Loses(p, signKey, Play(p, signKey, start, es[..k]), es[k])
  }

  ghost predicate LosesOne(p: Crypto, signKey: Bytes, start: Run, es: seq<Env>) {
    exists k :: 0 <= k < |es| && LosesAt(p, signKey, start, es, k)
  }

  lemma LosesAtEarlier(p: Crypto, signKey: Bytes, start: Run, es: seq<Env>, k: nat)
    requires k + 1 < |es|
    ensures LosesAt(p, signKey, start, es[..|es| - 1], k) <==> LosesAt(p, signKey, start, es, k)
  {
    assert es[..|es| - 1][..k] == es[..k];
  }

  lemma LosesOneOn(p: Crypto, signKey: Bytes, start: Run, es: seq<Env>)
    requires es != []
    ensures LosesOne(p, signKey, start, es)
            <==> LosesOne(p, signKey, start, es[..|es| - 1]) || LosesAt(p, signKey, start, es, |es| - 1)
  {
    hide LosesAt;
    var before := es[..|es| - 1];
    if k :| 0 <= k < |before| && LosesAt(p, signKey, start, before, k) {
      LosesAtEarlier(p, signKey, start, es, k);
    }
    if k :| 0 <= k < |before| && LosesAt(p, signKey, start, es, k) {
      LosesAtEarlier(p, signKey, start, es, k);
    }
  }

  /** What one more step adds to both tallies, and what it means for the session. */
  lemma StepPays(p: Crypto, signKey: Bytes, r: Run, e: Env)
    ensures Signs(p, signKey, r, e) <==> Takes(p, signKey, r, e) && e.signs && e.first.iv.Some? && e.first.delivered
    ensures Takes(p, signKey, r, e) ==>
              r.x.phase.Serving? && Next(p, signKey, r, e).x.phase == if Signs(p, signKey, r, e) then Serving else Over
    ensures r.x.phase.Over? ==> Next(p, signKey, r, e).x.phase.Over?
  {
    if r.x.phase.Serving? {
      ServingPays(p, signKey, r, e);
    } else {
      LoginSignsNothing(p, signKey, r, e);
    }
  }

  /**
    Everything a worker does with one connection, for any peer, any failures and any interference: the credits it took
    are the signatures it sent, or one more. One more iff some step lost its credit, and then the session is over.
  */
  lemma {:induction false} CreditsAreSignatures(p: Crypto, signKey: Bytes, start: Run, es: seq<Env>)
    ensures var t, s := TakenIn(p, signKey, start, es), SignedIn(p, signKey, start, es);
            && (t == s || t == s + 1)
            && (t == s + 1 <==> LosesOne(p, signKey, start, es))
            && (t == s + 1 ==> Play(p, signKey, start, es).x.phase.Over?)
  {
    if es != [] {
      var before, e := es[..|es| - 1], es[|es| - 1];
      var r := Play(p, signKey, start, before);
      CreditsAreSignatures(p, signKey, start, before);
      StepPays(p, signKey, r, e);
      LosesOneOn(p, signKey, start, es);
    }
  }

  // ---------------------------------------------------------------- when the file is saved

  /** What the credentials file holds after a run: the list as it was when this worker last took a credit. */
  function FileAfter(p: Crypto, signKey: Bytes, start: Run, file: seq<UserInfo>, es: seq<Env>): seq<UserInfo> {
    if es == [] then file
    else
      var before := es[..|es| - 1];
      if Takes(p, signKey, Play(p, signKey, start, before), es[|es| - 1]) then Play(p, signKey, start, es).users
      else FileAfter(p, signKey, start, file, before)
  }

  /** Nobody else changes the counters. */
  predicate Alone(users: seq<UserInfo>, es: seq<Env>) {
    forall i :: 0 <= i < |es| ==> |es[i].counters| != |users|
  }

  /** A worker alone with the list keeps the file equal to it after every step. */
  lemma {:induction false} FileFollowsList(p: Crypto, signKey: Bytes, start: Run, es: seq<Env>)
    requires Alone(start.users, es)
    ensures FileAfter(p, signKey, start, start.users, es) == Play(p, signKey, start, es).users
    ensures |Play(p, signKey, start, es).users| == |start.users|
  {
    if es != [] {
      var before, e := es[..|es| - 1], es[|es| - 1];
      assert forall i :: 0 <= i < |before| ==> before[i] == es[i];
      FileFollowsList(p, signKey, start, before);
      var r := Play(p, signKey, start, before);
      if Takes(p, signKey, r, e) {
        TakesOneCredit(p, signKey, r, e);
      } else if !r.x.phase.Serving? {
        LoginSignsNothing(p, signKey, r, e);
      }
    }
  }
}
