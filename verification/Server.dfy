/**
  The server's side of one connection after its handshake, on values: credential parsing, the attempts loop,
  and requests answered in one 105-byte buffer that keeps stale bytes between messages.
*/
module Server {
  import opened Base
  import opened Primitives
  import opened Record
  import opened Users

  datatype ServerState = ServerState(ch: Chan, buffer: Buffer, username: Bytes, clientId: int)

  // ---------------------------------------------------------------- credentials

  function Strnlen(buf: Bytes, at: nat, max: nat): (n: nat)
    requires at + max <= |buf|
    ensures n <= max
    ensures forall k :: at <= k < at + n ==> buf[k] != 0
    ensures n < max ==> buf[at + n] == 0
    decreases max
  {
    if max == 0 || buf[at] == 0 then 0 else 1 + Strnlen(buf, at + 1, max - 1)
  }

  predicate ValidString(buf: Bytes, at: nat, maxLen: nat)
    requires 0 < maxLen && at + maxLen <= |buf|
  {
    var n := Strnlen(buf, at, maxLen - 1);
    n != 0 && buf[at + n] == 0
  }

  function Parse(buf: Buffer): Option<(Bytes, Bytes)> {
    if !ValidString(buf, 0, MAX_USERNAME_LEN) then None
    else
      var n := Strnlen(buf, 0, MAX_USERNAME_LEN - 1);
      if !ValidString(buf, n + 1, MAX_PWD_LEN) then None
      else
        var m := Strnlen(buf, n + 1, MAX_PWD_LEN - 1);
        Some((buf[..n], buf[n + 1..n + 1 + m]))
  }

  /** What the client sends: both strings with their terminators. */
  function Encode(name: Bytes, psw: Bytes): Bytes {
    name + [0] + psw + [0]
  }

  predicate Word(s: Bytes, maxLen: nat) {
    1 <= |s| < maxLen && forall k :: 0 <= k < |s| ==> s[k] != 0
  }

  lemma {:induction false} StrnlenIs(buf: Bytes, at: nat, max: nat, n: nat)
    requires at + max <= |buf| && n <= max
    requires forall k :: at <= k < at + n ==> buf[k] != 0
    requires n < max ==> buf[at + n] == 0
    ensures Strnlen(buf, at, max) == n
    decreases n
  {
    if n > 0 {
      StrnlenIs(buf, at + 1, max - 1, n - 1);
    }
  }

  lemma ParsedIsEncoded(buf: Buffer, name: Bytes, psw: Bytes)
    requires Parse(buf) == Some((name, psw))
    ensures Word(name, MAX_USERNAME_LEN) && Word(psw, MAX_PWD_LEN) && Encode(name, psw) <= buf
  {
    var n := Strnlen(buf, 0, MAX_USERNAME_LEN - 1);
    var m := Strnlen(buf, n + 1, MAX_PWD_LEN - 1);
    assert name == buf[..n] && psw == buf[n + 1..n + 1 + m];
    assert buf[n] == 0 && buf[n + 1 + m] == 0;
    assert Encode(name, psw) == buf[..n + m + 2];
  }

  lemma EncodedIsParsed(buf: Buffer, name: Bytes, psw: Bytes)
    requires Word(name, MAX_USERNAME_LEN) && Word(psw, MAX_PWD_LEN) && Encode(name, psw) <= buf
    ensures Parse(buf) == Some((name, psw))
  {
    var code := Encode(name, psw);
    var n := |name|;
    assert forall k :: 0 <= k < |code| ==> buf[k] == code[k];
    StrnlenIs(buf, 0, MAX_USERNAME_LEN - 1, n);
    StrnlenIs(buf, n + 1, MAX_PWD_LEN - 1, |psw|);
    assert buf[..n] == name;
    assert buf[n + 1..n + 1 + |psw|] == psw;
  }

  /** An empty name or an empty password is refused, whatever follows. */
  lemma EmptyRefused(buf: Buffer, name: Bytes, psw: Bytes)
    requires |name| < MAX_USERNAME_LEN && (forall k :: 0 <= k < |name| ==> name[k] != 0)
    requires name == [] || psw == []
    requires Encode(name, psw) <= buf
    ensures Parse(buf) == None
  {
    var code := Encode(name, psw);
    assert code[|name|] == 0 == buf[|name|];
    if name != [] {
      assert forall k :: 0 <= k < |name| ==> buf[k] == code[k] == name[k];
      StrnlenIs(buf, 0, MAX_USERNAME_LEN - 1, |name|);
      assert code[|name| + 1] == 0 == buf[|name| + 1];
    }
  }

  /** Parsing undoes encoding, both ways, whatever follows in the buffer. */
  lemma ParseExactly(buf: Buffer, name: Bytes, psw: Bytes)
    ensures Parse(buf) == Some((name, psw)) <==>
            && 1 <= |name| <= 29 && (forall k :: 0 <= k < |name| ==> name[k] != 0)
            && 1 <= |psw| <= 29 && (forall k :: 0 <= k < |psw| ==> psw[k] != 0)
            && name + [0] + psw + [0] <= buf
  {
    if Parse(buf) == Some((name, psw)) {
      ParsedIsEncoded(buf, name, psw);
    }
    if Word(name, MAX_USERNAME_LEN) && Word(psw, MAX_PWD_LEN) && Encode(name, psw) <= buf {
      EncodedIsParsed(buf, name, psw);
    }
  }

  // ---------------------------------------------------------------- one exchange

  datatype Reply = Reply(s: ServerState, out: seq<Bytes>, status: Status)

  /**
    What the environment decides for one step: the receive, up to two sends, the clock, the signing call, and what
    other workers did to the counters.
  */
  datatype Env = Env(arrival: Arrival, first: Wire, second: Wire, stamp: Stamp, signs: bool,
                     counters: seq<(uint32, uint32)>)

  function AuthenticationAttempt(p: Crypto, users: seq<UserInfo>, s: ServerState, a: Arrival): (ServerState, Status) {
    var r := DecRecv(p, s.ch, a);
    var s1 := s.(ch := r.ch, buffer := Splice(s.buffer, 0, r.written));
    if r.ret <= 0 then (s1, ERROR)
    else
      match Parse(s1.buffer)
      case None => (s1, INVALID)
      case Some((name, psw)) =>
        if Check(p, users, name, psw) then
          (s1.(username := name, clientId := FirstIndex(users, name), buffer := seq(MAX_PLAINTEXT_SIZE, _ => 0)), OK)
        else (s1, INVALID)
  }

  function SendStatus(p: Crypto, s: ServerState, st: Status, w: Wire): Reply {
    var r := EncSend(p, s.ch, [Code(st)], w);
    Reply(s.(ch := r.ch), r.out, if r.ret > 0 then OK else ERROR)
  }

  /** The nine bytes of a balance response. */
  function BalanceMess(u: UserInfo): (m: Bytes)
    ensures |m| == 9
  {
    [Code(OK)] + Le32(u.remaining) + Le32(u.consumed)
  }

  /**
    Reached only after a login, so `clientId` is an index into the list (see ServedOnlyAfterLogin); otherwise nothing
    is answered.
  */
  function SendBalance(p: Crypto, users: seq<UserInfo>, s: ServerState, w: Wire): Reply {
    if s.clientId < 0 || s.clientId >= |users| then Reply(s, [], ERROR)
    else
      var s1 := s.(buffer := Splice(s.buffer, 0, BalanceMess(users[s.clientId])));
      var r := EncSend(p, s.ch, s1.buffer[..9], w);
      Reply(s1.(ch := r.ch), r.out, if r.ret == IV_SIZE + 9 + TAG_SIZE then OK else ERROR)
  }

  /** The 105 bytes of a signed response: OK | hash | timestamp | signature over the last two. */
  function SignedMess(p: Crypto, signKey: Bytes, hash: Block, stamp: Stamp): Buffer {
    [Code(OK)] + hash + stamp + p.sign(signKey, hash + stamp)
  }

  function SignDoc(p: Crypto, signKey: Bytes, users: seq<UserInfo>, s: ServerState, e: Env): (seq<UserInfo>, Reply) {
    var (outcome, after) := Consume(users, s.clientId);
    if outcome != OK then
      (after, SendStatus(p, s, outcome, e.first).(status := if outcome == INVALID then OK else ERROR))
    else if !e.signs then
      (after, SendStatus(p, s, ERROR, e.first).(status := ERROR))
    else
      var s1 := s.(buffer := SignedMess(p, signKey, s.buffer[1..33], e.stamp));
      var r := EncSend(p, s.ch, s1.buffer, e.first);
      (after, Reply(s1.(ch := r.ch), r.out, if r.ret < IV_SIZE + MAX_PLAINTEXT_SIZE + TAG_SIZE then ERROR else OK))
  }

  function ManageRequests(p: Crypto, signKey: Bytes, users: seq<UserInfo>, s: ServerState, e: Env)
    : (seq<UserInfo>, Reply) {
    var r := DecRecv(p, s.ch, e.arrival);
    var s1 := s.(ch := r.ch, buffer := Splice(s.buffer, 0, r.written));
    if r.ret <= 0 then (users, Reply(s1, [], ERROR))
    else if s1.buffer[0] == BALANCE then (users, SendBalance(p, users, s1, e.first))
    else if s1.buffer[0] == SIGN then SignDoc(p, signKey, users, s1, e)
    else (users, Reply(s1, [], ERROR))
  }

  // ---------------------------------------------------------------- the worker's session

  datatype Phase = Login(tries: nat) | Serving | Over

  /** `accepted` is the pair a successful attempt presented; `attempts` and `served` count. */
  datatype Session = Session(phase: Phase, s: ServerState, attempts: nat, accepted: Option<(Bytes, Bytes)>, served: nat)

  function Begin(key: Bytes, buffer: Buffer): Session {
    Session(Login(MAX_TRIES), ServerState(Chan(key, 0, 0), buffer, [], -1), 0, None, 0)
  }

  /** One round of the attempts loop: the attempt and the reply sent inside the loop. */
  function LoginRound(p: Crypto, users: seq<UserInfo>, s: ServerState, tries: nat, e: Env): Reply {
    var (s1, outcome) := AuthenticationAttempt(p, users, s, e.arrival);
    if outcome == ERROR then SendStatus(p, s1, ERROR, e.first).(status := ERROR)
    else if outcome == INVALID && tries > 1 then SendStatus(p, s1, INVALID, e.first).(status := INVALID)
    else Reply(s1, [], outcome)
  }

  /** The reply sent after the loop. After a failed receive it is the second ERROR. */
  function LoginFinish(p: Crypto, s: ServerState, outcome: Status, e: Env): Reply {
    if outcome == OK then SendStatus(p, s, OK, e.first)
    else SendStatus(p, s, ERROR, if outcome == ERROR then e.second else e.first)
  }

  function LoginStep(p: Crypto, users: seq<UserInfo>, x: Session, e: Env): (Session, seq<Bytes>)
    requires x.phase.Login?
  {
    var m := LoginRound(p, users, x.s, x.phase.tries, e);
    var y := x.(attempts := x.attempts + 1);
    if m.status == INVALID && x.phase.tries > 1 then (y.(phase := Login(x.phase.tries - 1), s := m.s), m.out)
    else
      var f := LoginFinish(p, m.s, m.status, e);
      if m.status == OK then
        var pair := Parse(Splice(x.s.buffer, 0, DecRecv(p, x.s.ch, e.arrival).written));
        (y.(phase := Serving, s := f.s, accepted := pair), m.out + f.out)
      else (y.(phase := Over, s := f.s), m.out + f.out)
  }

  lemma PairParsed(buf: Buffer, name: Bytes, psw: Bytes)
    requires Word(name, MAX_USERNAME_LEN) || name == []
    requires Word(psw, MAX_PWD_LEN) || psw == []
    requires |Encode(name, psw)| <= |buf|
    ensures Parse(Splice(buf, 0, Encode(name, psw))) == if name == [] || psw == [] then None else Some((name, psw))
  {
    var b: Buffer := Splice(buf, 0, Encode(name, psw));
    assert Encode(name, psw) == b[..|Encode(name, psw)|];
    if name == [] || psw == [] {
      EmptyRefused(b, name, psw);
    } else {
      EncodedIsParsed(b, name, psw);
    }
  }

  lemma AttemptDecided(p: Crypto, users: seq<UserInfo>, s: ServerState, a: Arrival, name: Bytes, psw: Bytes)
    requires Word(name, MAX_USERNAME_LEN) || name == []
    requires Word(psw, MAX_PWD_LEN) || psw == []
    requires DecRecv(p, s.ch, a).ret > 0 && DecRecv(p, s.ch, a).written == Encode(name, psw)
    ensures AuthenticationAttempt(p, users, s, a).1
            == if name != [] && psw != [] && Check(p, users, name, psw) then OK else INVALID
  {
    PairParsed(s.buffer, name, psw);
  }

  /** A received pair decides what the attempt leads to, whatever the buffer held before. */
  lemma LoginDecided(p: Crypto, users: seq<UserInfo>, x: Session, e: Env, name: Bytes, psw: Bytes)
    requires x.phase.Login?
    requires Word(name, MAX_USERNAME_LEN) || name == []
    requires Word(psw, MAX_PWD_LEN) || psw == []
    requires DecRecv(p, x.s.ch, e.arrival).ret > 0 && DecRecv(p, x.s.ch, e.arrival).written == Encode(name, psw)
    ensures LoginStep(p, users, x, e).0.phase == (if name != [] && psw != [] && Check(p, users, name, psw) then Serving
                                                  else if x.phase.tries > 1 then Login(x.phase.tries - 1) else Over)
  {
    hide AuthenticationAttempt, Parse, Check, DecRecv, EncSend;
    AttemptDecided(p, users, x.s, e.arrival, name, psw);
  }

  function Step(p: Crypto, signKey: Bytes, users0: seq<UserInfo>, x: Session, e: Env)
    : (seq<UserInfo>, Session, seq<Bytes>) {
    var users := WithCounters(users0, e.counters);
    match x.phase
    case Login(_) =>
      var (y, out) := LoginStep(p, users, x, e);
      (users, y, out)
    case Serving =>
      var (after, r) := ManageRequests(p, signKey, users, x.s, e);
      (after, x.(phase := if r.status == ERROR then Over else Serving, s := r.s, served := x.served + 1), r.out)
    case Over => (users0, x, [])
  }

  datatype Run = Run(users: seq<UserInfo>, x: Session, out: seq<Bytes>)

  function Next(p: Crypto, signKey: Bytes, r: Run, e: Env): Run {
    var (users, x, out) := Step(p, signKey, r.users, r.x, e);
    Run(users, x, r.out + out)
  }

  /** Everything a worker does with one connection, for any sequence of environment choices. */
  function Play(p: Crypto, signKey: Bytes, start: Run, es: seq<Env>): Run {
    if es == [] then start
    else Next(p, signKey, Play(p, signKey, start, es[..|es| - 1]), es[|es| - 1])
  }

  // ---------------------------------------------------------------- what a session guarantees

  ghost predicate LoggedIn(p: Crypto, users: seq<UserInfo>, x: Session) {
    && x.accepted.Some?
    && Check(p, users, x.accepted.value.0, x.accepted.value.1)
    && x.s.username == x.accepted.value.0
    && x.s.clientId == FirstIndex(users, x.s.username) >= 0
  }

  ghost predicate SessionGood(p: Crypto, users: seq<UserInfo>, x: Session) {
    && x.attempts <= MAX_TRIES
    && (x.phase.Login? ==> 1 <= x.phase.tries && x.attempts + x.phase.tries == MAX_TRIES)
    && (x.phase.Serving? || x.served > 0 ==> LoggedIn(p, users, x))
    && (x.phase.Login? ==> x.served == 0)
  }

  lemma LoginKeepsSession(p: Crypto, base: seq<UserInfo>, now: seq<UserInfo>, x: Session, e: Env)
    requires SameCredentials(base, now) && SessionGood(p, base, x) && x.phase.Login?
    ensures SessionGood(p, base, LoginStep(p, now, x, e).0)
  {
    var y := LoginStep(p, now, x, e).0;
    if y.phase.Serving? {
      CredentialsDecide(p, base, now, y.accepted.value.0, y.accepted.value.1);
    }
  }

  lemma ServingKeepsSession(p: Crypto, signKey: Bytes, base: seq<UserInfo>, now: seq<UserInfo>, s: ServerState, e: Env)
    requires SameCredentials(base, now)
    ensures var (after, r) := ManageRequests(p, signKey, now, s, e);
            SameCredentials(base, after) && r.s.clientId == s.clientId && r.s.username == s.username
  {
    if 0 <= s.clientId < |now| {
      ConsumeMovesOneCredit(now, s.clientId);
    }
  }

  lemma StepKeepsSession(p: Crypto, signKey: Bytes, base: seq<UserInfo>, users: seq<UserInfo>, x: Session, e: Env)
    requires SameCredentials(base, users) && SessionGood(p, base, x)
    ensures var (users', y, _) := Step(p, signKey, users, x, e);
            SameCredentials(base, users') && SessionGood(p, base, y)
  {
    var now := WithCounters(users, e.counters);
    CountersKeepCredentials(users, e.counters);
    assert SameCredentials(base, now);
    match x.phase {
      case Over =>
      case Login(_) => LoginKeepsSession(p, base, now, x, e);
      case Serving => ServingKeepsSession(p, signKey, base, now, x.s, e);
    }
  }

  lemma {:induction false} PlayKeepsSession(p: Crypto, signKey: Bytes, base: seq<UserInfo>, start: Run, es: seq<Env>)
    requires SameCredentials(base, start.users) && SessionGood(p, base, start.x)
    ensures var r := Play(p, signKey, start, es); SameCredentials(base, r.users) && SessionGood(p, base, r.x)
  {
    if es != [] {
      var r := Play(p, signKey, start, es[..|es| - 1]);
      PlayKeepsSession(p, signKey, base, start, es[..|es| - 1]);
      StepKeepsSession(p, signKey, base, r.users, r.x, es[|es| - 1]);
    }
  }

  /**
    For any bytes the peer may send and any failures: at most three attempts are made, and a request is served only
    once an attempt presented a name and password that match the list; from then on the session's `client_id` is
    that name's first index, in every later state.
  */
  lemma ServedOnlyAfterLogin(p: Crypto, signKey: Bytes, users: seq<UserInfo>, key: Bytes, buffer: Buffer, es: seq<Env>)
    ensures var r := Play(p, signKey, Run(users, Begin(key, buffer), []), es);
            && r.x.attempts <= MAX_TRIES
            && SameCredentials(users, r.users)
            && (r.x.phase.Serving? || r.x.served > 0 ==>
                  && r.x.accepted.Some?
                  && Check(p, users, r.x.accepted.value.0, r.x.accepted.value.1)
                  && 0 <= r.x.s.clientId < |users|
                  && users[r.x.s.clientId].username == r.x.accepted.value.0
                  && forall k :: 0 <= k < r.x.s.clientId ==> users[k].username != r.x.accepted.value.0)
  {
    PlayKeepsSession(p, signKey, users, Run(users, Begin(key, buffer), []), es);
  }

  /** A login is final: no later step changes who is logged in or which index serves. */
  lemma {:induction false} LoginIsFinal(p: Crypto, signKey: Bytes, start: Run, es: seq<Env>, more: seq<Env>)
    requires var x := Play(p, signKey, start, es).x; !x.phase.Login?
    ensures var x, y := Play(p, signKey, start, es).x, Play(p, signKey, start, es + more).x;
            && !y.phase.Login?
            && y.accepted == x.accepted && y.s.clientId == x.s.clientId && y.s.username == x.s.username
            && (x.phase.Over? ==> y == x)
  {
    if more == [] {
      assert es + more == es;
    } else {
      var prior := more[..|more| - 1];
      assert (es + more)[..|es + more| - 1] == es + prior;
      LoginIsFinal(p, signKey, start, es, prior);
      var r := Play(p, signKey, start, es + prior);
      if r.x.phase.Serving? {
        ServingKeepsSession(p, signKey, r.users, WithCounters(r.users, more[|more| - 1].counters), r.x.s,
            more[|more| - 1]);
      }
    }
  }

  /**
    One login step puts exactly one record on the wire iff its receive returned a message; a failed receive puts two.
  */
  lemma LoginAnswersOnceExactly(p: Crypto, users: seq<UserInfo>, x: Session, e: Env)
    requires x.phase.Login?
    requires e.first.iv.Some? && e.first.delivered && e.second.iv.Some? && e.second.delivered
    ensures var out := LoginStep(p, users, x, e).1;
            && (|out| == 1 <==> DecRecv(p, x.s.ch, e.arrival).ret > 0)
            && (|out| == 2 <==> DecRecv(p, x.s.ch, e.arrival).ret <= 0)
  {
  }

  predicate SendsSucceed(es: seq<Env>) {
    forall i :: 0 <= i < |es| ==>
      es[i].first.iv.Some? && es[i].first.delivered && es[i].second.iv.Some? && es[i].second.delivered
  }

  lemma {:induction false} AnsweredSoFar(p: Crypto, signKey: Bytes, users: seq<UserInfo>, key: Bytes, buffer: Buffer,
                                         es: seq<Env>)
    requires SendsSucceed(es)
    requires Play(p, signKey, Run(users, Begin(key, buffer), []), es).x.phase.Login?
    ensures var r := Play(p, signKey, Run(users, Begin(key, buffer), []), es);
            |r.out| == r.x.attempts == |es|
  {
    if es != [] {
      var before := es[..|es| - 1];
      var r := Play(p, signKey, Run(users, Begin(key, buffer), []), before);
      AnsweredSoFar(p, signKey, users, key, buffer, before);
      LoginAnswersOnceExactly(p, WithCounters(r.users, es[|es| - 1].counters), r.x, es[|es| - 1]);
    }
  }

  /**
    A whole login, from the first attempt to the one that ends it: the client gets one record for each attempt
    iff the last receive returned a message, and one too many iff it failed.
  */
  lemma OneAnswerPerAttemptExactly(p: Crypto, signKey: Bytes, users: seq<UserInfo>, key: Bytes, buffer: Buffer,
                                   es: seq<Env>, e: Env)
    requires SendsSucceed(es + [e])
    requires Play(p, signKey, Run(users, Begin(key, buffer), []), es).x.phase.Login?
    ensures var before := Play(p, signKey, Run(users, Begin(key, buffer), []), es);
            var r := Play(p, signKey, Run(users, Begin(key, buffer), []), es + [e]);
            && r.x.attempts == |es| + 1
            && (|r.out| == r.x.attempts <==> DecRecv(p, before.x.s.ch, e.arrival).ret > 0)
            && (|r.out| == r.x.attempts + 1 <==> DecRecv(p, before.x.s.ch, e.arrival).ret <= 0)
  {
    var r := Play(p, signKey, Run(users, Begin(key, buffer), []), es);
    assert (es + [e])[..|es|] == es && (es + [e])[|es|] == e;
    assert SendsSucceed(es) by {
      assert forall i :: 0 <= i < |es| ==> es[i] == (es + [e])[i];
    }
    AnsweredSoFar(p, signKey, users, key, buffer, es);
    LoginAnswersOnceExactly(p, WithCounters(r.users, e.counters), r.x, e);
  }

  /** `signDoc` signs the hash that arrived, whatever the buffer held before, for every request of at least 33 bytes. */
  lemma SignedHashIsTheRequests(p: Crypto, signKey: Bytes, users: seq<UserInfo>, s: ServerState, e: Env)
    requires Consume(users, s.clientId).0 == OK && e.signs && e.first.iv.Some? && e.first.delivered
    requires DecRecv(p, s.ch, e.arrival).ret >= 33 && DecRecv(p, s.ch, e.arrival).written[0] == SIGN
    ensures var req := DecRecv(p, s.ch, e.arrival).written;
            var (after, r) := ManageRequests(p, signKey, users, s, e);
            && r.status == OK
            && r.s.buffer == [Code(OK)] + req[1..33] + e.stamp + p.sign(signKey, req[1..33] + e.stamp)
            && r.out == [Seal(p, s.ch.key, e.first.iv.value, s.ch.tx, r.s.buffer)]
            && after == Consume(users, s.clientId).1
  {
    var req := DecRecv(p, s.ch, e.arrival).written;
    var b := Splice(s.buffer, 0, req);
    assert b[0] == req[0];
    assert b[1..33] == req[1..33];
  }

  // ---------------------------------------------------------------- each step, by what arrived

  /** What the receive of a step leaves in the buffer. */
  function Arrived(p: Crypto, x: Session, e: Env): Buffer {
    Overlaid(x.s.buffer, DecRecv(p, x.s.ch, e.arrival).written)
  }

  /** The session goes on to `phase`, having sent `out` with the cipher as `sent` leaves it. */
  ghost predicate Answers(r: Run, r': Run, sent: Sent, users: seq<UserInfo>, phase: Phase) {
    && r'.users == users && r'.out == r.out + sent.out
    && r'.x.s.ch == sent.ch && r'.x.phase == phase
  }

  /**
    A request that did not arrive, because the client has closed, the receive failed or the record was rejected, ends
    the session with nothing sent and nothing consumed; and so does a request of any kind but 0 and 1.
  */
  lemma NoRequestEndsSession(p: Crypto, signKey: Bytes, r: Run, e: Env)
    requires r.x.phase.Serving?
    requires var d := DecRecv(p, r.x.s.ch, e.arrival); d.ret <= 0 || (d.written[0] != 0 && d.written[0] != 1)
    ensures var ch := DecRecv(p, r.x.s.ch, e.arrival).ch;
            Answers(r, Next(p, signKey, r, e), Sent(ch, [], 0), WithCounters(r.users, e.counters), Over)
  {
    var d := DecRecv(p, r.x.s.ch, e.arrival);
    OverlaidIsSplice(r.x.s.buffer, d.written);
    assert r.out + [] == r.out;
  }

  /**
    A request of kind 0 is answered with the two counters, nothing is consumed, and only a failed send ends the
    session.
  */
  lemma BalanceAnswered(p: Crypto, signKey: Bytes, r: Run, e: Env)
    requires r.x.phase.Serving? && 0 <= r.x.s.clientId < |r.users|
    requires DecRecv(p, r.x.s.ch, e.arrival).ret > 0 && DecRecv(p, r.x.s.ch, e.arrival).written[0] == 0
    ensures var now := WithCounters(r.users, e.counters);
            var u := now[r.x.s.clientId];
            var ch := DecRecv(p, r.x.s.ch, e.arrival).ch;
            var sent := EncSend(p, ch, [0] + Le32(u.remaining) + Le32(u.consumed), e.first);
            Answers(r, Next(p, signKey, r, e), sent, now, if sent.ret > 0 then Serving else Over)
  {
    var u := WithCounters(r.users, e.counters)[r.x.s.clientId];
    var b := Splice(r.x.s.buffer, 0, DecRecv(p, r.x.s.ch, e.arrival).written);
    assert Splice(b, 0, BalanceMess(u))[..9] == BalanceMess(u);
  }

  /**
    A request of kind 1, answered on what is then in the buffer. Without a credit it is refused with a 2 and the
    session goes on, sent or not. With one, that credit moves; then the hash is signed and sent, or a 1 is, and only
    the signature fully sent lets the session go on.
  */
  lemma SignAnswered(p: Crypto, signKey: Bytes, r: Run, e: Env)
    requires r.x.phase.Serving? && 0 <= r.x.s.clientId < |r.users|
    requires DecRecv(p, r.x.s.ch, e.arrival).ret > 0 && DecRecv(p, r.x.s.ch, e.arrival).written[0] == 1
    ensures var now, id := WithCounters(r.users, e.counters), r.x.s.clientId;
            var ch := DecRecv(p, r.x.s.ch, e.arrival).ch;
            var toSign := Arrived(p, r.x, e)[1..33] + e.stamp;
            var r' := Next(p, signKey, r, e);
            if now[id].remaining == 0 then Answers(r, r', EncSend(p, ch, [2], e.first), now, Serving)
            else
              var moved := now[id].(remaining := now[id].remaining - 1, consumed := Succ(now[id].consumed));
              var sent := EncSend(p, ch, if e.signs then [0] + toSign + p.sign(signKey, toSign) else [1], e.first);
              Answers(r, r', sent, now[id := moved], if e.signs && sent.ret > 0 then Serving else Over)
  {
    OverlaidIsSplice(r.x.s.buffer, DecRecv(p, r.x.s.ch, e.arrival).written);
    var h := Arrived(p, r.x, e)[1..33];
    assert SignedMess(p, signKey, h, e.stamp) == [0] + (h + e.stamp) + p.sign(signKey, h + e.stamp);
  }

  /** What an attempt makes of what arrived, before anything is sent. */
  lemma AttemptIs(p: Crypto, users: seq<UserInfo>, s: ServerState, a: Arrival)
    ensures var d := DecRecv(p, s.ch, a);
            var b := Overlaid(s.buffer, d.written);
            var (s', st) := AuthenticationAttempt(p, users, s, a);
            if d.ret <= 0 then st == ERROR && s' == s.(ch := d.ch, buffer := b)
            else
              var pair := Parse(b);
              if pair.Some? && Check(p, users, pair.value.0, pair.value.1) then
                && st == OK && s'.ch == d.ch && s'.buffer == seq(105, _ => 0)
                && s'.username == pair.value.0 && s'.clientId == FirstIndex(users, pair.value.0)
              else st == INVALID && s' == s.(ch := d.ch, buffer := b)
  {
    OverlaidIsSplice(s.buffer, DecRecv(p, s.ch, a).written);
  }

  /**
    A login step whose sends succeed, by what arrived: a failed receive is answered with the byte 1 twice and ends the
    session; the right pair with a 0, after which the buffer is all zeros; a wrong one with a 2, or with a 1 the third
    time.
  */
  lemma LoginAnswered(p: Crypto, signKey: Bytes, r: Run, e: Env)
    requires r.x.phase.Login? && r.x.phase.tries >= 1
    requires e.first.iv.Some? && e.first.delivered && e.second.iv.Some? && e.second.delivered
    ensures var now := WithCounters(r.users, e.counters);
            var d := DecRecv(p, r.x.s.ch, e.arrival);
            var pair := Parse(Arrived(p, r.x, e));
            var tries := r.x.phase.tries;
            var r' := Next(p, signKey, r, e);
            if d.ret <= 0 then
              var once := EncSend(p, d.ch, [1], e.first);
              var twice := EncSend(p, once.ch, [1], e.second);
              Answers(r, r', twice.(out := once.out + twice.out), now, Over)
            else if pair.Some? && Check(p, now, pair.value.0, pair.value.1) then
              && Answers(r, r', EncSend(p, d.ch, [0], e.first), now, Serving)
              && r'.x.s.buffer == seq(105, _ => 0)
              && r'.x.s.username == pair.value.0 && r'.x.s.clientId == FirstIndex(now, pair.value.0)
            else
              Answers(r, r', EncSend(p, d.ch, [if tries > 1 then 2 else 1], e.first), now,
                      if tries > 1 then Login(tries - 1) else Over)
  {
    hide AuthenticationAttempt, Parse, Check, DecRecv, EncSend;
    AttemptIs(p, WithCounters(r.users, e.counters), r.x.s, e.arrival);
    LoginAnswerIs(p, WithCounters(r.users, e.counters), r.x, e);
  }

  /** What a login step sends and where it leads, by the outcome of its attempt. */
  lemma LoginAnswerIs(p: Crypto, users: seq<UserInfo>, x: Session, e: Env)
    requires x.phase.Login? && x.phase.tries >= 1
    requires e.first.iv.Some? && e.first.delivered && e.second.iv.Some? && e.second.delivered
    ensures var (s, st) := AuthenticationAttempt(p, users, x.s, e.arrival);
            var (y, out) := LoginStep(p, users, x, e);
            var tries := x.phase.tries;
            match st
            case ERROR =>
              var once := EncSend(p, s.ch, [1], e.first);
              var twice := EncSend(p, once.ch, [1], e.second);
              y.phase == Over && y.s == s.(ch := twice.ch) && out == once.out + twice.out
            case OK => y.phase == Serving && y.s == s.(ch := EncSend(p, s.ch, [0], e.first).ch)
                       && out == EncSend(p, s.ch, [0], e.first).out
            case INVALID =>
              var sent := EncSend(p, s.ch, [if tries > 1 then 2 else 1], e.first);
              && y.phase == (if tries > 1 then Login(tries - 1) else Over)
              && y.s == s.(ch := sent.ch) && out == sent.out
  {
    hide AuthenticationAttempt, Parse, Check, DecRecv, EncSend;
  }
}
