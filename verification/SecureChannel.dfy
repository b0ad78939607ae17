/**
  Both directions of an established channel under a network that drops, duplicates, reorders, replays and
  injects. The two ends hold one key, so the only thing assumed of the AEAD is that a record which opens
  under some counter was sealed under that counter by one of the two ends.
*/
module SecureChannel {
  import opened Base
  import opened Primitives
  import opened Record

  datatype Side = A | B

  function Peer(x: Side): Side {
    if x == A then B else A
  }

  /**
    `sent` and `sealed` list every message this end sealed and its record, whether or not the send succeeded.
    `accepted` lists what its receives returned, and `origin` which end had sealed each of them.
  */
  datatype End = End(ch: Chan, sent: seq<Bytes>, sealed: seq<Bytes>, accepted: seq<Bytes>, origin: seq<Side>)

  datatype State = State(a: End, b: End) {
    function Get(x: Side): End {
      if x == A then a else b
    }

    function Put(x: Side, e: End): State {
      if x == A then this.(a := e) else this.(b := e)
    }
  }

  datatype Action =
    | Send(from: Side, msg: Bytes, w: Wire)
    | Deliver(to: Side, arrival: Arrival, origin: Side, pos: nat)

  function Init(key: Bytes): State {
    var e := End(Chan(key, 0, 0), [], [], [], []);
    State(e, e)
  }

  function Pending(a: Arrival): Bytes {
    if a.Data? then a.bytes[..Min(|a.bytes|, MAX_CIPHERTEXT_SIZE)] else []
  }

  /**
    The ideal AEAD: acceptance names an end and a position at which that very record was sealed under the current
    counter.
  */
  predicate Enabled(p: Crypto, s: State, act: Action) {
    match act
    case Send(_, _, _) => true
    case Deliver(to, a, origin, pos) =>
      var rec, ch := Pending(a), s.Get(to).ch;
      |rec| > 32 && p.gmac(ch.key, rec[..16], ch.rx, rec[16..|rec| - 16]) == rec[|rec| - 16..] ==>
        && pos < |s.Get(origin).sealed|
        && s.Get(origin).sealed[pos] == rec
        && pos % WORD == ch.rx
  }

  function Step(p: Crypto, s: State, act: Action): State {
    match act
    case Send(x, msg, w) =>
      var e := s.Get(x);
      var r := EncSend(p, e.ch, msg, w);
      if 1 <= |msg| <= MAX_PLAINTEXT_SIZE && w.iv.Some? then
        var rec := Seal(p, e.ch.key, w.iv.value, e.ch.tx, msg);
        s.Put(x, e.(ch := r.ch, sent := e.sent + [msg], sealed := e.sealed + [rec]))
      else s.Put(x, e.(ch := r.ch))
    case Deliver(x, a, origin, _) =>
      var e := s.Get(x);
      var r := DecRecv(p, e.ch, a);
      if r.ret > 0 then s.Put(x, e.(ch := r.ch, accepted := e.accepted + [r.written], origin := e.origin + [origin]))
      else s.Put(x, e.(ch := r.ch))
  }

  /** The state after a run, or None when some action of it is not enabled. */
  function Exec(p: Crypto, key: Bytes, acts: seq<Action>): Option<State> {
    if acts == [] then Some(Init(key))
    else
      var before := Exec(p, key, acts[..|acts| - 1]);
      var act := acts[|acts| - 1];
      if before.Some? && Enabled(p, before.value, act) then Some(Step(p, before.value, act)) else None
  }

  ghost predicate SealedAt(p: Crypto, key: Bytes, e: End, i: nat)
    requires i < |e.sent| && i < |e.sealed|
  {
    && 1 <= |e.sent[i]| <= MAX_PLAINTEXT_SIZE
    && |e.sealed[i]| >= IV_SIZE
    && e.sealed[i] == Seal(p, key, e.sealed[i][..IV_SIZE], i % WORD, e.sent[i])
  }

  /** What holds of one end however often its counters have wrapped. */
  ghost predicate Counted(p: Crypto, key: Bytes, e: End) {
    && e.ch == Chan(key, |e.sent| % WORD, |e.accepted| % WORD)
    && |e.sealed| == |e.sent| && |e.origin| == |e.accepted|
    && forall i :: 0 <= i < |e.sent| ==> SealedAt(p, key, e, i)
  }

  ghost predicate Traced(s: State, x: Side) {
    var e := s.Get(x);
    && |e.origin| == |e.accepted|
    && forall i :: 0 <= i < |e.accepted| ==> TracedAt(s, e, i)
  }

  /** The message accepted i-th is the i-th message of the end it is attributed to. */
  ghost predicate TracedAt(s: State, e: End, i: nat)
    requires i < |e.accepted| && i < |e.origin|
  {
    i < |s.Get(e.origin[i]).sent| && e.accepted[i] == s.Get(e.origin[i]).sent[i]
  }

  lemma SendKeepsCounted(p: Crypto, key: Bytes, e: End, msg: Bytes, iv: Iv)
    requires Counted(p, key, e)
    requires 1 <= |msg| <= MAX_PLAINTEXT_SIZE
    ensures Counted(p, key, e.(ch := e.ch.(tx := Succ(e.ch.tx)), sent := e.sent + [msg],
                               sealed := e.sealed + [Seal(p, key, iv, e.ch.tx, msg)]))
  {
    var rec := Seal(p, key, iv, e.ch.tx, msg);
    assert rec[..IV_SIZE] == iv;
    var after := e.(ch := e.ch.(tx := Succ(e.ch.tx)), sent := e.sent + [msg], sealed := e.sealed + [rec]);
    forall i | 0 <= i < |after.sent| ensures SealedAt(p, key, after, i) {
      assert i < |e.sent| ==> SealedAt(p, key, e, i);
    }
  }

  /** A receive that accepts under the ideal AEAD returns the message sealed at the named position. */
  lemma AcceptedIsSealed(p: Crypto, key: Bytes, s: State, act: Action)
    requires act.Deliver? && Enabled(p, s, act)
    requires Counted(p, key, s.a) && Counted(p, key, s.b)
    requires DecRecv(p, s.Get(act.to).ch, act.arrival).ret > 0
    ensures act.pos < |s.Get(act.origin).sent|
    ensures DecRecv(p, s.Get(act.to).ch, act.arrival).written == s.Get(act.origin).sent[act.pos]
  {
    var o := s.Get(act.origin);
    assert SealedAt(p, key, o, act.pos);
    OpenSeal(p, key, o.sealed[act.pos][..IV_SIZE], act.pos % WORD, o.sent[act.pos]);
  }

  lemma ReceiveKeepsCounted(p: Crypto, key: Bytes, e: End, e': End)
    requires Counted(p, key, e)
    requires e'.sent == e.sent && e'.sealed == e.sealed && |e'.origin| == |e'.accepted|
    requires e'.ch == Chan(key, e.ch.tx, |e'.accepted| % WORD)
    ensures Counted(p, key, e')
  {
    forall i | 0 <= i < |e'.sent| ensures SealedAt(p, key, e', i) {
      assert SealedAt(p, key, e, i);
    }
  }

  lemma DeliveryKeepsCounted(p: Crypto, key: Bytes, s: State, act: Action)
    requires act.Deliver? && Counted(p, key, s.Get(act.to))
    ensures Counted(p, key, Step(p, s, act).Get(act.to))
  {
    ReceivedExactly(p, s.Get(act.to).ch, act.arrival);
    hide DecRecv;
    ReceiveKeepsCounted(p, key, s.Get(act.to), Step(p, s, act).Get(act.to));
  }

  lemma StepKeepsCounted(p: Crypto, key: Bytes, s: State, act: Action)
    requires Counted(p, key, s.a) && Counted(p, key, s.b)
    ensures Counted(p, key, Step(p, s, act).a) && Counted(p, key, Step(p, s, act).b)
  {
    hide Counted, DecRecv;
    match act
    case Send(x, msg, w) =>
      if 1 <= |msg| <= MAX_PLAINTEXT_SIZE && w.iv.Some? {
        SendKeepsCounted(p, key, s.Get(x), msg, w.iv.value);
      }
    case Deliver(x, a, _, _) =>
      DeliveryKeepsCounted(p, key, s, act);
  }

  lemma BelowWord(n: nat)
    requires n < WORD
    ensures n % WORD == n
  {
  }

  lemma TracedBelow(s: State, x: Side, bound: nat)
    requires Traced(s, x)
    requires |s.a.sent| < bound && |s.b.sent| < bound
    ensures |s.Get(x).accepted| < bound
  {
    var e := s.Get(x);
    var n := |e.accepted|;
    if n > 0 {
      assert TracedAt(s, e, n - 1);
    }
  }

  /** Below 2^32 the counter an acceptance was checked under is the acceptance's own index. */
  lemma AcceptedAtOwnIndex(p: Crypto, key: Bytes, s: State, act: Action)
    requires act.Deliver? && Enabled(p, s, act)
    requires Counted(p, key, s.a) && Counted(p, key, s.b)
    requires Traced(s, act.to)
    requires |s.a.sent| < WORD && |s.b.sent| < WORD
    requires DecRecv(p, s.Get(act.to).ch, act.arrival).ret > 0
    ensures act.pos == |s.Get(act.to).accepted|
  {
    TracedBelow(s, act.to, WORD);
    BelowWord(|s.Get(act.to).accepted|);
    BelowWord(act.pos);
  }

  lemma SentGrows(p: Crypto, s: State, act: Action)
    ensures s.a.sent <= Step(p, s, act).a.sent && s.b.sent <= Step(p, s, act).b.sent
  {
  }

  /** Sending more leaves earlier acceptances traced. */
  lemma TracedStays(s: State, s': State, e: End, e': End, n: nat)
    requires s.a.sent <= s'.a.sent && s.b.sent <= s'.b.sent
    requires n == |e.accepted| == |e.origin| && e.accepted <= e'.accepted && e.origin <= e'.origin
    requires forall i :: 0 <= i < n ==> TracedAt(s, e, i)
    ensures forall i :: 0 <= i < n ==> TracedAt(s', e', i)
  {
    forall i | 0 <= i < n ensures TracedAt(s', e', i) {
      assert TracedAt(s, e, i);
    }
  }

  lemma AcceptanceKeepsTraced(p: Crypto, key: Bytes, s: State, act: Action)
    requires act.Deliver? && Enabled(p, s, act) && DecRecv(p, s.Get(act.to).ch, act.arrival).ret > 0
    requires Counted(p, key, s.a) && Counted(p, key, s.b)
    requires Traced(s, act.to)
    requires |s.a.sent| < WORD && |s.b.sent| < WORD
    ensures Traced(Step(p, s, act), act.to)
  {
    var s' := Step(p, s, act);
    var e, e' := s.Get(act.to), s'.Get(act.to);
    AcceptedIsSealed(p, key, s, act);
    AcceptedAtOwnIndex(p, key, s, act);
    assert TracedAt(s', e', |e.accepted|);
    TracedStays(s, s', e, e', |e.accepted|);
  }

  lemma StepKeepsTraced(p: Crypto, key: Bytes, s: State, act: Action, x: Side)
    requires Enabled(p, s, act)
    requires Counted(p, key, s.a) && Counted(p, key, s.b)
    requires Traced(s, x)
    requires |s.a.sent| < WORD && |s.b.sent| < WORD
    ensures Traced(Step(p, s, act), x)
  {
    var s' := Step(p, s, act);
    var e, e' := s.Get(x), s'.Get(x);
    SentGrows(p, s, act);
    if act.Deliver? && act.to == x && DecRecv(p, e.ch, act.arrival).ret > 0 {
      AcceptanceKeepsTraced(p, key, s, act);
    } else {
      TracedStays(s, s', e, e', |e.accepted|);
    }
  }

  lemma {:induction false} RunKeepsCounted(p: Crypto, key: Bytes, acts: seq<Action>)
    requires Exec(p, key, acts).Some?
    ensures Counted(p, key, Exec(p, key, acts).value.a) && Counted(p, key, Exec(p, key, acts).value.b)
  {
    if acts != [] {
      RunKeepsCounted(p, key, acts[..|acts| - 1]);
      StepKeepsCounted(p, key, Exec(p, key, acts[..|acts| - 1]).value, acts[|acts| - 1]);
    }
  }

  /** With fewer than 2^32 sends at each end, the i-th accepted message is the i-th message of one of the two ends. */
  lemma {:induction false} AcceptedIsIthOfAnEnd(p: Crypto, key: Bytes, acts: seq<Action>, x: Side)
    requires Exec(p, key, acts).Some?
    requires var s := Exec(p, key, acts).value; |s.a.sent| < WORD && |s.b.sent| < WORD
    ensures Traced(Exec(p, key, acts).value, x)
  {
    if acts != [] {
      var before := acts[..|acts| - 1];
      AcceptedIsIthOfAnEnd(p, key, before, x);
      RunKeepsCounted(p, key, before);
      StepKeepsTraced(p, key, Exec(p, key, before).value, acts[|acts| - 1], x);
    }
  }

  ghost predicate SameMessageAt(x: End, y: End, i: nat) {
    i < |x.sent| && i < |y.sent| && x.sent[i] == y.sent[i]
  }

  predicate MatchesAt(u: seq<Bytes>, v: seq<Bytes>, i: nat)
    requires i < |u|
  {
    i < |v| && u[i] == v[i]
  }

  lemma PointwisePrefix(u: seq<Bytes>, v: seq<Bytes>)
    requires forall i :: 0 <= i < |u| ==> MatchesAt(u, v, i)
    ensures u <= v
  {
    if |u| > 0 {
      assert MatchesAt(u, v, |u| - 1);
      forall i | 0 <= i < |u| ensures u[i] == v[i] {
        assert MatchesAt(u, v, i);
      }
      assert u == v[..|u|];
    }
  }

  lemma PrefixInState(s: State, x: Side)
    requires Traced(s, x)
    ensures var own, peer := s.Get(x), s.Get(Peer(x));
            own.accepted <= peer.sent <==>
            forall i :: 0 <= i < |own.origin| && own.origin[i] == x ==> SameMessageAt(own, peer, i)
  {
    var own, peer := s.Get(x), s.Get(Peer(x));
    if forall i :: 0 <= i < |own.origin| && own.origin[i] == x ==> SameMessageAt(own, peer, i) {
      forall i | 0 <= i < |own.accepted| ensures MatchesAt(own.accepted, peer.sent, i) {
        assert TracedAt(s, own, i);
        assert own.origin[i] == x ==> SameMessageAt(own, peer, i);
      }
      PointwisePrefix(own.accepted, peer.sent);
    } else if own.accepted <= peer.sent {
      forall i | 0 <= i < |own.origin| && own.origin[i] == x ensures SameMessageAt(own, peer, i) {
        assert TracedAt(s, own, i);
      }
    }
  }

  /**
    What an end accepted is a prefix of what its peer sent exactly when every one of its own records that
    came back to it carried the message the peer sent at the same position.
  */
  lemma PrefixExactly(p: Crypto, key: Bytes, acts: seq<Action>, x: Side)
    requires Exec(p, key, acts).Some?
    requires var s := Exec(p, key, acts).value; |s.a.sent| < WORD && |s.b.sent| < WORD
    ensures var s := Exec(p, key, acts).value;
            var own, peer := s.Get(x), s.Get(Peer(x));
            own.accepted <= peer.sent <==>
            forall i :: 0 <= i < |own.origin| && own.origin[i] == x ==> SameMessageAt(own, peer, i)
  {
    AcceptedIsIthOfAnEnd(p, key, acts, x);
    PrefixInState(Exec(p, key, acts).value, x);
  }

  /** A network that keeps the two directions apart never hands an end its own records. */
  ghost predicate DirectionsApart(acts: seq<Action>) {
    forall i :: 0 <= i < |acts| && acts[i].Deliver? ==> acts[i].origin == Peer(acts[i].to)
  }

  lemma {:induction false} ApartMeansPeerOrigins(p: Crypto, key: Bytes, acts: seq<Action>, x: Side)
    requires Exec(p, key, acts).Some? && DirectionsApart(acts)
    ensures var e := Exec(p, key, acts).value.Get(x); forall i :: 0 <= i < |e.origin| ==> e.origin[i] == Peer(x)
  {
    if acts != [] {
      var before, act := acts[..|acts| - 1], acts[|acts| - 1];
      ApartMeansPeerOrigins(p, key, before, x);
      assert act.Deliver? ==> act.origin == Peer(act.to);
      var s := Exec(p, key, before).value;
      var e, e' := s.Get(x), Step(p, s, act).Get(x);
      assert e' == Exec(p, key, acts).value.Get(x);
      assert e'.origin == e.origin || (act.Deliver? && act.to == x && e'.origin == e.origin + [act.origin]);
    }
  }

  /** Directions kept apart: what each end accepts is always a prefix of what the other sent. */
  lemma PrefixWhenApart(p: Crypto, key: Bytes, acts: seq<Action>, x: Side)
    requires Exec(p, key, acts).Some? && DirectionsApart(acts)
    requires var s := Exec(p, key, acts).value; |s.a.sent| < WORD && |s.b.sent| < WORD
    ensures var s := Exec(p, key, acts).value; s.Get(x).accepted <= s.Get(Peer(x)).sent
  {
    RunKeepsCounted(p, key, acts);
    ApartMeansPeerOrigins(p, key, acts, x);
    PrefixExactly(p, key, acts, x);
  }

  /** A receive that returns nothing changes neither counter nor anything else of the channel. */
  lemma RejectedChangesNothing(p: Crypto, s: State, act: Action)
    requires act.Deliver? && DecRecv(p, s.Get(act.to).ch, act.arrival).ret <= 0
    ensures Step(p, s, act) == s
  {
  }

  predicate Rejected(p: Crypto, s: State, act: Action) {
    act.Deliver? && DecRecv(p, s.Get(act.to).ch, act.arrival).ret <= 0
  }

  /** A run without the receives that returned nothing. */
  function Purged(p: Crypto, key: Bytes, acts: seq<Action>): (r: seq<Action>)
    requires Exec(p, key, acts).Some?
    ensures |r| <= |acts|
  {
    if acts == [] then []
    else
      var before, act := acts[..|acts| - 1], acts[|acts| - 1];
      var rest := Purged(p, key, before);
      if Rejected(p, Exec(p, key, before).value, act) then rest else rest + [act]
  }

  /**
    Whatever an attacker injects that is rejected, at any points of any run, the channel ends as if it had never come.
  */
  lemma {:induction false} RejectionsLeaveNoTrace(p: Crypto, key: Bytes, acts: seq<Action>)
    requires Exec(p, key, acts).Some?
    ensures Exec(p, key, Purged(p, key, acts)) == Exec(p, key, acts)
  {
    if acts != [] {
      var before, act := acts[..|acts| - 1], acts[|acts| - 1];
      RejectionsLeaveNoTrace(p, key, before);
      if Rejected(p, Exec(p, key, before).value, act) {
        RejectedChangesNothing(p, Exec(p, key, before).value, act);
      } else {
        ExecOn(p, key, Purged(p, key, before), act);
      }
    }
  }

  /** Without that separation the prefix fails at once, because both directions share a key and start at counter 0. */
  lemma OwnRecordComesBack(p: Crypto, key: Bytes, msg: Bytes, iv: Iv)
    requires 1 <= |msg| <= MAX_PLAINTEXT_SIZE
    ensures var rec := Seal(p, key, iv, 0, msg);
            var acts := [Send(A, msg, Wire(Some(iv), true)), Deliver(A, Data(rec), A, 0)];
            && Exec(p, key, acts).Some?
            && Exec(p, key, acts).value.a.accepted == [msg]
            && Exec(p, key, acts).value.b.sent == []
  {
    var rec := Seal(p, key, iv, 0, msg);
    var send := Send(A, msg, Wire(Some(iv), true));
    var back := Deliver(A, Data(rec), A, 0);
    OpenSeal(p, key, iv, 0, msg);
    assert [send, back][..1] == [send] && [send][..0] == [];
    assert Exec(p, key, []) == Some(Init(key));
    assert Exec(p, key, [send]) == Some(Step(p, Init(key), send));
    assert rec[..Min(|rec|, MAX_CIPHERTEXT_SIZE)] == rec;
  }

  // ---------------------------------------------------------------- one acceptance at a time

  /**
    Accepting one more record keeps the prefix iff the record is the peer's, or the peer has already sent
    that same message at the position it is accepted at.
  */
  lemma AcceptanceKeepsPrefixExactly(p: Crypto, key: Bytes, acts: seq<Action>, act: Action)
    requires Exec(p, key, acts).Some?
    requires var s := Exec(p, key, acts).value;
             && |s.a.sent| < WORD && |s.b.sent| < WORD
             && act.Deliver? && Enabled(p, s, act) && DecRecv(p, s.Get(act.to).ch, act.arrival).ret > 0
             && s.Get(act.to).accepted <= s.Get(Peer(act.to)).sent
    ensures var s := Exec(p, key, acts).value;
            var s' := Step(p, s, act);
            var own, peer := s.Get(act.to), s.Get(Peer(act.to));
            s'.Get(act.to).accepted <= s'.Get(Peer(act.to)).sent
            <==> act.origin == Peer(act.to) || SameMessageAt(own, peer, |own.accepted|)
  {
    var s := Exec(p, key, acts).value;
    RunKeepsCounted(p, key, acts);
    AcceptedIsIthOfAnEnd(p, key, acts, act.to);
    AcceptedIsSealed(p, key, s, act);
    AcceptedAtOwnIndex(p, key, s, act);
    PrefixOn(s.Get(act.to).accepted, s.Get(Peer(act.to)).sent, s.Get(act.origin).sent[act.pos]);
  }

  lemma PrefixOn(u: seq<Bytes>, v: seq<Bytes>, m: Bytes)
    requires u <= v
    ensures u + [m] <= v <==> |u| < |v| && v[|u|] == m
  {
    if |u| < |v| && v[|u|] == m {
      assert v[..|u| + 1] == u + [m];
    }
    if u + [m] <= v {
      assert v[|u|] == (u + [m])[|u|];
    }
  }

  // ---------------------------------------------------------------- the bound on sends is sharp

  /**
    After a full round of the counter, in any reachable state, the peer's very first record opens again, and accepting
    it keeps the prefix only if the peer happens to have sent that same message at this position.
  */
  lemma WrappedCounterReopens(p: Crypto, key: Bytes, acts: seq<Action>, x: Side)
    requires Exec(p, key, acts).Some?
    requires var s := Exec(p, key, acts).value;
             && |s.Get(x).accepted| > 0 && |s.Get(x).accepted| % WORD == 0
             && s.Get(x).accepted <= s.Get(Peer(x)).sent
    ensures var s := Exec(p, key, acts).value;
            var own, peer := s.Get(x), s.Get(Peer(x));
            && |peer.sealed| > 0
            && var act := Deliver(x, Data(peer.sealed[0]), Peer(x), 0);
               && Enabled(p, s, act)
               && Step(p, s, act).Get(x).accepted == own.accepted + [peer.sent[0]]
               && Step(p, s, act).Get(Peer(x)) == peer
               && (own.accepted + [peer.sent[0]] <= peer.sent
                   <==> |own.accepted| < |peer.sent| && peer.sent[|own.accepted|] == peer.sent[0])
  {
    RunKeepsCounted(p, key, acts);
    var s := Exec(p, key, acts).value;
    var o := s.Get(Peer(x));
    assert SealedAt(p, key, o, 0);
    OpenSeal(p, key, o.sealed[0][..IV_SIZE], 0, o.sent[0]);
    var first := o.sealed[0];
    assert first[..Min(|first|, MAX_CIPHERTEXT_SIZE)] == first;
    PrefixOn(s.Get(x).accepted, o.sent, o.sent[0]);
  }

  function Times(n: nat, msg: Bytes): seq<Bytes> {
    seq(n, _ => msg)
  }

  lemma ExecOn(p: Crypto, key: Bytes, acts: seq<Action>, act: Action)
    requires Exec(p, key, acts).Some? && Enabled(p, Exec(p, key, acts).value, act)
    ensures Exec(p, key, acts + [act]) == Some(Step(p, Exec(p, key, acts).value, act))
  {
    assert (acts + [act])[..|acts + [act]| - 1] == acts;
  }

  /** `n` messages from one end to the other over a network that does nothing wrong. */
  lemma {:induction false} Pings(p: Crypto, key: Bytes, msg: Bytes, iv: Iv, n: nat) returns (acts: seq<Action>)
    requires 1 <= |msg| <= MAX_PLAINTEXT_SIZE
    ensures Exec(p, key, acts).Some? && DirectionsApart(acts)
    ensures var s := Exec(p, key, acts).value; s.a.sent == s.b.accepted == Times(n, msg) && s.b.sent == []
    decreases n
  {
    if n == 0 {
      acts := [];
    } else {
      var before := Pings(p, key, msg, iv, n - 1);
      acts := Ping(p, key, before, msg, iv, n - 1);
      assert Times(n, msg) == Times(n - 1, msg) + [msg];
    }
  }

  lemma Ping(p: Crypto, key: Bytes, before: seq<Action>, msg: Bytes, iv: Iv, n: nat) returns (acts: seq<Action>)
    requires 1 <= |msg| <= MAX_PLAINTEXT_SIZE
    requires Exec(p, key, before).Some? && DirectionsApart(before)
    requires var s := Exec(p, key, before).value; |s.a.sent| == |s.b.accepted| == n
    ensures Exec(p, key, acts).Some? && DirectionsApart(acts)
    ensures var s, t := Exec(p, key, before).value, Exec(p, key, acts).value;
            t.a.sent == s.a.sent + [msg] && t.b.accepted == s.b.accepted + [msg] && t.b.sent == s.b.sent
  {
    RunKeepsCounted(p, key, before);
    var s := Exec(p, key, before).value;
    var send := Send(A, msg, Wire(Some(iv), true));
    ExecOn(p, key, before, send);
    var s1 := Step(p, s, send);
    var rec := Seal(p, key, iv, s.a.ch.tx, msg);
    var arrive := Deliver(B, Data(rec), A, n);
    DeliveredRecord(p, s.a.ch, s.b.ch, msg, iv);
    assert Pending(Data(rec)) == rec;
    ExecOn(p, key, before + [send], arrive);
    acts := before + [send] + [arrive];
  }

  /**
    So the bound cannot be raised: 2^32 sends and a network that keeps the directions apart are enough for an end
    to accept what is no prefix of what its peer sent.
  */
  lemma BoundIsSharp(p: Crypto, key: Bytes, msg: Bytes, iv: Iv) returns (acts: seq<Action>)
    requires 1 <= |msg| <= MAX_PLAINTEXT_SIZE
    ensures Exec(p, key, acts).Some? && DirectionsApart(acts)
    ensures var s := Exec(p, key, acts).value;
            && |s.a.sent| == WORD && s.b.sent == []
            && !(s.b.accepted <= s.a.sent) && !Traced(s, B)
  {
    var before := Pings(p, key, msg, iv, WORD);
    WrappedCounterReopens(p, key, before, B);
    var s := Exec(p, key, before).value;
    var again := Deliver(B, Data(s.a.sealed[0]), A, 0);
    ExecOn(p, key, before, again);
    acts := before + [again];
    var t := Exec(p, key, acts).value;
    RunKeepsCounted(p, key, acts);
    ApartMeansPeerOrigins(p, key, acts, B);
    assert |t.b.accepted| == WORD + 1;
    assert !TracedAt(t, t.b, WORD);
  }
}
