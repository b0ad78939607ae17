/**
  A client and a server worker composed over two byte streams, from the first hello to the close. The streams have
  no framing: one recv takes whatever is pending. The same system with framed queues is defined beside it.
*/
module Session {
  import opened Base
  import opened Primitives
  import opened Record
  import opened SignatureStore
  import opened Users
  import H = Handshake
  import S = Server
  import C = Client

  /** Long-term keys, and what the two handshake buffers held before. */
  datatype Config = Config(hsKey: Bytes, signKey: Bytes, clientPad: H.Hello, serverPad: H.Hello)

  datatype CPhase =
    | Start
    | AwaitHello(sk: Bytes, nonce: Block)
    | Prompt
    | AwaitLogin(name: C.Line, psw: C.Line)
    | Ready
    | AwaitBalance
    | AwaitSign(hash: Block)
    | Left

  /** `login` is what `login()` returned, `shown` the last balance printed. */
  datatype Client = Client(phase: CPhase, c: C.ClientState, login: Option<Status>, shown: Option<(uint32, uint32)>)

  datatype Server = Fresh(buffer: Buffer) | Live(x: S.Session) | Failed

  datatype Core = Core(k: Client, s: Server, users: seq<UserInfo>)

  datatype Cmd =
    | Hello(sk: Bytes, nonce: Block)
    | Credentials(name: C.Line, psw: C.Line, iv: Iv)
    | AskBalance(iv: Iv)
    | AskSign(hash: Block, iv: Iv)
    | AskVerify(hash: Block)
    | Quit

  /** The environment's choices for one server step; every receive and send succeeds. */
  datatype Choice = Choice(sk: Bytes, nonce: Block, iv: Iv, iv2: Iv, stamp: Stamp, signs: bool,
                           counters: seq<(uint32, uint32)>)

  datatype Act = Type(cmd: Cmd) | ClientRecv | ServerRecv(e: Choice)

  predicate ClientWaits(k: Client) {
    k.phase.AwaitHello? || k.phase.AwaitLogin? || k.phase.AwaitBalance? || k.phase.AwaitSign?
  }

  predicate ServerWaits(s: Server) {
    s.Fresh? || (s.Live? && !s.x.phase.Over?)
  }

  function Sends(p: Crypto, k: Client, c: C.ClientState, msg: Bytes, iv: Iv, next: CPhase): (Client, seq<Bytes>) {
    var r := EncSend(p, c.ch, msg, Wire(Some(iv), true));
    (k.(phase := next, c := c.(ch := r.ch)), r.out)
  }

  /** What the user makes the client do, or None when it is not the time for it. */
  function Typed(p: Crypto, g: Config, k: Client, cmd: Cmd): Option<(Client, seq<Bytes>)> {
    match cmd
    case Hello(sk, nonce) =>
      if k.phase == Start then Some((k.(phase := AwaitHello(sk, nonce)), [H.ClientHello(p, sk, nonce)])) else None
    case Credentials(name, psw, iv) =>
      if k.phase == Prompt then Some(Sends(p, k, k.c, S.Encode(name, psw), iv, AwaitLogin(name, psw))) else None
    case AskBalance(iv) =>
      if k.phase == Ready then Some(Sends(p, k, k.c, [BALANCE], iv, AwaitBalance)) else None
    case AskSign(hash, iv) =>
      if k.phase == Ready then Some(Sends(p, k, C.WithRequest(k.c, hash), [SIGN] + hash, iv, AwaitSign(hash))) else None
    case AskVerify(hash) =>
      if k.phase != Ready then None
      else
        var st := Verdict(p, g, k.c.store, hash);
        Some((k.(phase := if st == ERROR then Left else Ready, c := k.c.(buffer := Splice(k.c.buffer, 0, hash))), []))
    case Quit =>
      if k.phase == Ready then Some((k.(phase := Left), [])) else None
  }

  function ClientGets(p: Crypto, g: Config, k: Client, a: Arrival): Client
    requires ClientWaits(k)
  {
    match k.phase
    case AwaitHello(sk, nonce) =>
      var heard := H.Heard(Splice(g.clientPad, 0, H.ClientHello(p, sk, nonce)), a, H.SERVER_HELLO_SIZE);
      var key := H.ClientKey(p, sk, nonce, heard);
      if a != Closed && H.ClientAccepts(p, p.verKey(g.hsKey), sk, nonce, heard) && key.Some? then
        k.(phase := Prompt, c := k.c.(ch := Chan(key.value, 0, 0)))
      else k.(phase := Left)
    case AwaitLogin(_, _) =>
      var (c, st) := C.RecvOutcome(p, k.c, a);
      if st == INVALID then k.(phase := Prompt, c := c)
      else k.(phase := if st == OK then Ready else Left, c := c, login := Some(st))
    case AwaitBalance =>
      var (c, st, shown) := C.BalanceReply(p, k.c, a);
      if st == ERROR then k.(phase := Left, c := c) else k.(phase := Ready, c := c, shown := shown)
    case AwaitSign(hash) =>
      var (c, st) := C.SignReply(p, p.verKey(g.signKey), k.c, hash, a, Disk(true, STRIDE));
      k.(phase := if st == ERROR then Left else Ready, c := c)
  }

  function EnvOf(a: Arrival, e: Choice): S.Env {
    S.Env(a, Wire(Some(e.iv), true), Wire(Some(e.iv2), true), e.stamp, e.signs, e.counters)
  }

  function ServerGets(p: Crypto, g: Config, users: seq<UserInfo>, s: Server, a: Arrival, e: Choice)
    : (seq<UserInfo>, Server, seq<Bytes>)
    requires ServerWaits(s)
  {
    match s
    case Fresh(buffer) =>
      if !a.Data? then (users, Failed, [])
      else
        var heard := H.Heard(g.serverPad, a, H.HELLO_SIZE);
        var key := H.ServerKey(p, e.sk, e.nonce, heard);
        var s' := if key.Some? then Live(S.Begin(key.value, buffer)) else Failed;
        (users, s', [H.ServerHello(p, g.hsKey, e.sk, e.nonce, heard)])
    case Live(x) =>
      var (after, y, out) := S.Step(p, g.signKey, users, x, EnvOf(a, e));
      (after, Live(y), out)
  }

  // ---------------------------------------------------------------- the framed system

  datatype F = F(core: Core, c2s: seq<Bytes>, s2c: seq<Bytes>)

  function FStep(p: Crypto, g: Config, f: F, act: Act): Option<F> {
    var core := f.core;
    match act
    case Type(cmd) =>
      (match Typed(p, g, core.k, cmd)
       case None => None
       case Some((k, out)) => Some(F(core.(k := k), f.c2s + out, f.s2c)))
    case ClientRecv =>
      if !ClientWaits(core.k) then None
      else if f.s2c != [] then Some(F(core.(k := ClientGets(p, g, core.k, Data(f.s2c[0]))), f.c2s, f.s2c[1..]))
      else if ServerWaits(core.s) then None
      else Some(F(core.(k := ClientGets(p, g, core.k, Closed)), f.c2s, []))
    case ServerRecv(e) =>
      if !ServerWaits(core.s) then None
      else if f.c2s != [] then
        var (users, s, out) := ServerGets(p, g, core.users, core.s, Data(f.c2s[0]), e);
        Some(F(core.(users := users, s := s), f.c2s[1..], f.s2c + out))
      else if core.k.phase != Left then None
      else
        var (users, s, out) := ServerGets(p, g, core.users, core.s, Closed, e);
        Some(F(core.(users := users, s := s), [], f.s2c + out))
  }

  function FExec(p: Crypto, g: Config, start: F, acts: seq<Act>): Option<F> {
    if acts == [] then Some(start)
    else
      match FExec(p, g, start, acts[..|acts| - 1])
      case None => None
      case Some(f) => FStep(p, g, f, acts[|acts| - 1])
  }

  // ---------------------------------------------------------------- the system as it is: two byte streams

  datatype U = U(core: Core, c2s: Bytes, s2c: Bytes)

  function Flat(q: seq<Bytes>): Bytes {
    if q == [] then [] else q[0] + Flat(q[1..])
  }

  /** How many bytes the next recv asks for. */
  function ClientMax(k: Client): nat {
    if k.phase.AwaitHello? then H.SERVER_HELLO_SIZE else MAX_CIPHERTEXT_SIZE
  }

  function ServerMax(s: Server): nat {
    if s.Fresh? then H.HELLO_SIZE else MAX_CIPHERTEXT_SIZE
  }

  function UStep(p: Crypto, g: Config, u: U, act: Act): Option<U> {
    var core := u.core;
    match act
    case Type(cmd) =>
      (match Typed(p, g, core.k, cmd)
       case None => None
       case Some((k, out)) => Some(U(core.(k := k), u.c2s + Flat(out), u.s2c)))
    case ClientRecv =>
      if !ClientWaits(core.k) then None
      else if u.s2c != [] then
        var n := Min(|u.s2c|, ClientMax(core.k));
        Some(U(core.(k := ClientGets(p, g, core.k, Data(u.s2c[..n]))), u.c2s, u.s2c[n..]))
      else if ServerWaits(core.s) then None
      else Some(U(core.(k := ClientGets(p, g, core.k, Closed)), u.c2s, []))
    case ServerRecv(e) =>
      if !ServerWaits(core.s) then None
      else if u.c2s != [] then
        var n := Min(|u.c2s|, ServerMax(core.s));
        var (users, s, out) := ServerGets(p, g, core.users, core.s, Data(u.c2s[..n]), e);
        Some(U(core.(users := users, s := s), u.c2s[n..], u.s2c + Flat(out)))
      else if core.k.phase != Left then None
      else
        var (users, s, out) := ServerGets(p, g, core.users, core.s, Closed, e);
        Some(U(core.(users := users, s := s), [], u.s2c + Flat(out)))
  }

  function UExec(p: Crypto, g: Config, start: U, acts: seq<Act>): Option<U> {
    if acts == [] then Some(start)
    else
      match UExec(p, g, start, acts[..|acts| - 1])
      case None => None
      case Some(u) => UStep(p, g, u, acts[|acts| - 1])
  }

  /** Before the first hello; `store` is the signature file earlier sessions left. */
  datatype Origin = Origin(users: seq<UserInfo>, store: Option<Bytes>, clientBuffer: Buffer, serverBuffer: Buffer)

  function Begin(o: Origin): Core {
    var c := C.ClientState(Chan([], 0, 0), o.clientBuffer, o.store);
    Core(Client(Start, c, None, None), Fresh(o.serverBuffer), o.users)
  }

  // ---------------------------------------------------------------- the invariant

  /** The queue holds one record: the sealing of `msg` under counter `n`. */
  ghost predicate Flying(p: Crypto, q: seq<Bytes>, key: Bytes, n: uint32, msg: Bytes) {
    && |q| == 1
    && 1 <= |msg| <= MAX_PLAINTEXT_SIZE
    && |q[0]| >= IV_SIZE
    && q[0] == Seal(p, key, q[0][..IV_SIZE], n, msg)
  }

  ghost predicate SameKey(k: Client, x: S.Session) {
    k.c.ch.key == x.s.ch.key
  }

  /** Nothing in flight, counters equal in both directions. */
  ghost predicate Quiet(f: F, x: S.Session) {
    && f.c2s == [] && f.s2c == []
    && SameKey(f.core.k, x)
    && f.core.k.c.ch.tx == x.s.ch.rx && x.s.ch.tx == f.core.k.c.ch.rx
  }

  /** The client's `msg` is on its way. */
  ghost predicate Asked(p: Crypto, f: F, x: S.Session, msg: Bytes) {
    && f.s2c == [] && Flying(p, f.c2s, x.s.ch.key, x.s.ch.rx, msg)
    && SameKey(f.core.k, x)
    && f.core.k.c.ch.tx == Succ(x.s.ch.rx) && x.s.ch.tx == f.core.k.c.ch.rx
  }

  /** The server's `msg` is on its way. */
  ghost predicate Answered(p: Crypto, f: F, x: S.Session, msg: Bytes) {
    && f.c2s == [] && Flying(p, f.s2c, f.core.k.c.ch.key, f.core.k.c.ch.rx, msg)
    && SameKey(f.core.k, x)
    && f.core.k.c.ch.tx == x.s.ch.rx && x.s.ch.tx == Succ(f.core.k.c.ch.rx)
  }

  /** The status byte a login attempt is answered with, by what became of the session. */
  function LoginStatus(x: S.Session): Status {
    match x.phase
    case Login(_) => INVALID
    case Serving => OK
    case Over => ERROR
  }

  ghost predicate AwaitingHello(p: Crypto, g: Config, f: F, sk: Bytes, nonce: Block) {
    || (f.core.s.Fresh? && f.c2s == [H.ClientHello(p, sk, nonce)] && f.s2c == [])
    || (!f.core.s.Fresh? && f.c2s == [] && |f.s2c| == 1 && |f.s2c[0]| == H.SERVER_HELLO_SIZE
        && H.ClientAccepts(p, p.verKey(g.hsKey), sk, nonce, f.s2c[0])
        && match f.core.s
           case Failed => H.ClientKey(p, sk, nonce, f.s2c[0]) == None
           case Live(x) => && H.ClientKey(p, sk, nonce, f.s2c[0]) == Some(x.s.ch.key)
                           && x.phase == S.Login(MAX_TRIES) && x.s.ch.tx == 0 && x.s.ch.rx == 0 && x.accepted == None)
  }

  ghost predicate AwaitingLogin(p: Crypto, f: F, x: S.Session, name: C.Line, psw: C.Line) {
    || (x.phase.Login? && Asked(p, f, x, S.Encode(name, psw)))
    || (Answered(p, f, x, [Code(LoginStatus(x))]) && (x.phase.Over? ==> x.accepted == None))
  }

  ghost predicate AwaitingBalance(p: Crypto, f: F, x: S.Session) {
    && x.phase.Serving? && 0 <= x.s.clientId < |f.core.users|
    && (Asked(p, f, x, [BALANCE]) || Answered(p, f, x, S.BalanceMess(f.core.users[x.s.clientId])))
  }

  ghost predicate AwaitingSign(p: Crypto, g: Config, f: F, x: S.Session, hash: Block) {
    || (x.phase.Serving? && Asked(p, f, x, [SIGN] + hash))
    || (x.phase.Serving? && Answered(p, f, x, [Code(INVALID)]))
    || (x.phase.Over? && Answered(p, f, x, [Code(ERROR)]))
    || (x.phase.Serving? && exists stamp: Stamp :: Answered(p, f, x, S.SignedMess(p, g.signKey, hash, stamp)))
  }

  function Decided(s: Server): Option<Status> {
    if !s.Live? then None
    else if s.x.accepted.Some? then Some(OK)
    else if s.x.phase.Over? then Some(ERROR)
    else None
  }

  ghost predicate Turn(p: Crypto, g: Config, f: F) {
    var k, s := f.core.k, f.core.s;
    match k.phase
    case Start => s.Fresh? && f.c2s == [] && f.s2c == []
    case AwaitHello(sk, nonce) => AwaitingHello(p, g, f, sk, nonce)
    case Left => f.c2s == [] && f.s2c == [] && (s.Failed? || (s.Live? && !s.x.phase.Login? && Quiet(f, s.x)))
    case Prompt => s.Live? && s.x.phase.Login? && Quiet(f, s.x)
    case AwaitLogin(name, psw) => s.Live? && AwaitingLogin(p, f, s.x, name, psw)
    case Ready => s.Live? && s.x.phase.Serving? && Quiet(f, s.x)
    case AwaitBalance => s.Live? && AwaitingBalance(p, f, s.x)
    case AwaitSign(hash) => s.Live? && AwaitingSign(p, g, f, s.x, hash)
  }

  ghost predicate Agreed(f: F) {
    && (f.core.k.login.Some? ==> f.core.k.login == Decided(f.core.s))
    && (f.core.k.phase.Ready? || f.core.k.phase.AwaitBalance? || f.core.k.phase.AwaitSign? ==>
         f.core.k.login == Some(OK))
    && (f.core.k.phase.Start? || f.core.k.phase.AwaitHello? || f.core.k.phase.Prompt? || f.core.k.phase.AwaitLogin? ==>
         f.core.k.login == None)
  }

  ghost predicate ServerGood(p: Crypto, base: seq<UserInfo>, core: Core) {
    && SameCredentials(base, core.users)
    && (core.s.Live? ==>
         S.SessionGood(p, base, core.s.x)
             && (core.s.x.phase.Serving? <==> core.s.x.accepted.Some? && !core.s.x.phase.Over?))
  }

  ghost predicate Inv(p: Crypto, g: Config, base: seq<UserInfo>, f: F) {
    && Turn(p, g, f)
    && Agreed(f)
    && ServerGood(p, base, f.core)
  }

  // ---------------------------------------------------------------- records in flight

  lemma FlyingArrives(p: Crypto, q: seq<Bytes>, ch: Chan, msg: Bytes)
    requires Flying(p, q, ch.key, ch.rx, msg)
    ensures DecRecv(p, ch, Data(q[0])) == Received(ch.(rx := Succ(ch.rx)), msg, |msg|)
    ensures |q[0]| == IV_SIZE + |msg| + TAG_SIZE <= MAX_CIPHERTEXT_SIZE
  {
    OpenSeal(p, ch.key, q[0][..IV_SIZE], ch.rx, msg);
    assert q[0][..Min(|q[0]|, MAX_CIPHERTEXT_SIZE)] == q[0];
  }

  lemma SealFlies(p: Crypto, ch: Chan, msg: Bytes, iv: Iv)
    requires 1 <= |msg| <= MAX_PLAINTEXT_SIZE
    ensures var r := EncSend(p, ch, msg, Wire(Some(iv), true));
            && Flying(p, r.out, ch.key, ch.tx, msg)
            && r.ch == ch.(tx := Succ(ch.tx)) && r.ret == IV_SIZE + |msg| + TAG_SIZE
  {
    var rec := Seal(p, ch.key, iv, ch.tx, msg);
    assert rec[..IV_SIZE] == iv;
  }

  // ---------------------------------------------------------------- commands

  lemma SendAsks(p: Crypto, f: F, x: S.Session, c: C.ClientState, msg: Bytes, iv: Iv, next: CPhase)
    requires Quiet(f, x) && c.ch == f.core.k.c.ch && 1 <= |msg| <= MAX_PLAINTEXT_SIZE
    ensures var (k, out) := Sends(p, f.core.k, c, msg, iv, next);
            Asked(p, F(f.core.(k := k), f.c2s + out, f.s2c), x, msg)
  {
    SealFlies(p, c.ch, msg, iv);
    var out := EncSend(p, c.ch, msg, Wire(Some(iv), true)).out;
    assert f.c2s + out == out;
  }

  lemma TypedKeepsTurn(p: Crypto, g: Config, base: seq<UserInfo>, f: F, cmd: Cmd)
    requires Inv(p, g, base, f) && Typed(p, g, f.core.k, cmd).Some?
    ensures Turn(p, g, FStep(p, g, f, Type(cmd)).value)
  {
    var k := f.core.k;
    match cmd {
      case Hello(sk, nonce) => assert f.c2s + [H.ClientHello(p, sk, nonce)] == [H.ClientHello(p, sk, nonce)];
      case Credentials(name, psw, iv) =>
        SendAsks(p, f, f.core.s.x, k.c, S.Encode(name, psw), iv, AwaitLogin(name, psw));
      case AskBalance(iv) => SendAsks(p, f, f.core.s.x, k.c, [BALANCE], iv, AwaitBalance);
      case AskSign(hash, iv) =>
        SendAsks(p, f, f.core.s.x, C.WithRequest(k.c, hash), [SIGN] + hash, iv, AwaitSign(hash));
      case AskVerify(_) =>
      case Quit =>
    }
  }

  // ---------------------------------------------------------------- what the server makes of a record

  lemma HelloServed(p: Crypto, g: Config, f: F, e: Choice)
    requires Turn(p, g, f) && f.core.s.Fresh? && f.core.k.phase.AwaitHello?
    ensures var f' := FStep(p, g, f, ServerRecv(e));
            f'.Some? && Turn(p, g, f'.value) && !f'.value.core.s.Fresh? && f'.value.core.k == f.core.k
    ensures var f' := FStep(p, g, f, ServerRecv(e)).value;
            var secret := p.derive(f.core.k.phase.sk, p.pub(e.sk));
            && (f'.core.s.Live? <==> secret.Some?)
            && (secret.Some? ==> f'.core.s.x.s.ch == Chan(p.kdf(secret.value, f.core.k.phase.nonce + e.nonce), 0, 0))
  {
    var sk, nonce := f.core.k.phase.sk, f.core.k.phase.nonce;
    var hello := H.ClientHello(p, sk, nonce);
    assert hello[..Min(|hello|, H.HELLO_SIZE)] == hello;
    var heard := H.Heard(g.serverPad, Data(hello), H.HELLO_SIZE);
    H.HonestHandshake(p, g.hsKey, sk, nonce, e.sk, e.nonce, g.serverPad);
    assert heard == Splice(g.serverPad, 0, hello);
    var reply := H.ServerHello(p, g.hsKey, e.sk, e.nonce, heard);
    var f' := FStep(p, g, f, ServerRecv(e)).value;
    assert f'.s2c == [reply];
    assert f'.c2s == [];
  }

  /** A reply sent after a delivered request is the one record in flight. */
  lemma ReplyAnswers(p: Crypto, f: F, x: S.Session, y: S.Session, msg: Bytes, iv: Iv, core: Core)
    requires SameKey(f.core.k, x) && f.s2c == [] && |f.c2s| == 1
    requires f.core.k.c.ch.tx == Succ(x.s.ch.rx) && x.s.ch.tx == f.core.k.c.ch.rx
    requires 1 <= |msg| <= MAX_PLAINTEXT_SIZE && core.k == f.core.k
    requires var ch := x.s.ch.(rx := Succ(x.s.ch.rx)); y.s.ch == EncSend(p, ch, msg, Wire(Some(iv), true)).ch
    ensures var ch := x.s.ch.(rx := Succ(x.s.ch.rx));
            Answered(p, F(core, f.c2s[1..], f.s2c + EncSend(p, ch, msg, Wire(Some(iv), true)).out), y, msg)
  {
    var ch := x.s.ch.(rx := Succ(x.s.ch.rx));
    SealFlies(p, ch, msg, iv);
    var out := EncSend(p, ch, msg, Wire(Some(iv), true)).out;
    assert f.s2c + out == out;
    assert f.c2s[1..] == [];
  }

  lemma LoginServed(p: Crypto, g: Config, f: F, e: Choice)
    requires Turn(p, g, f) && f.core.k.phase.AwaitLogin? && f.core.s.x.phase.Login? && f.c2s != []
    requires f.core.s.x.accepted == None
    ensures var f' := FStep(p, g, f, ServerRecv(e));
            && f'.Some? && Turn(p, g, f'.value) && f'.value.s2c != [] && f'.value.core.k == f.core.k
            && f'.value.core.s
                 == Live(S.LoginStep(p, WithCounters(f.core.users, e.counters), f.core.s.x, EnvOf(Data(f.c2s[0]), e)).0)
  {
    var x := f.core.s.x;
    var msg := S.Encode(f.core.k.phase.name, f.core.k.phase.psw);
    FlyingArrives(p, f.c2s, x.s.ch, msg);
    var env := EnvOf(Data(f.c2s[0]), e);
    var users := WithCounters(f.core.users, e.counters);
    var (y, out) := S.LoginStep(p, users, x, env);
    assert out == EncSend(p, x.s.ch.(rx := Succ(x.s.ch.rx)), [Code(LoginStatus(y))], Wire(Some(e.iv), true)).out;
    var core := f.core.(users := users, s := Live(y));
    ReplyAnswers(p, f, x, y, [Code(LoginStatus(y))], e.iv, core);
  }

  lemma BalanceServed(p: Crypto, g: Config, base: seq<UserInfo>, f: F, e: Choice)
    requires Inv(p, g, base, f) && f.core.k.phase.AwaitBalance? && f.c2s != []
    ensures var f' := FStep(p, g, f, ServerRecv(e));
            && f'.Some? && Turn(p, g, f'.value) && f'.value.s2c != []
            && f'.value.core.users == WithCounters(f.core.users, e.counters) && f'.value.core.k == f.core.k
            && f'.value.core.s.Live? && f'.value.core.s.x.s.clientId == f.core.s.x.s.clientId
  {
    var x := f.core.s.x;
    FlyingArrives(p, f.c2s, x.s.ch, [BALANCE]);
    var env := EnvOf(Data(f.c2s[0]), e);
    var users := WithCounters(f.core.users, e.counters);
    var (after, y, out) := S.Step(p, g.signKey, f.core.users, x, env);
    var m := S.BalanceMess(users[x.s.clientId]);
    var b := Splice(x.s.buffer, 0, [BALANCE]);
    assert b[0] == BALANCE;
    assert Splice(b, 0, m)[..9] == m;
    assert after == users && y.phase.Serving? && y.s.clientId == x.s.clientId;
    ReplyAnswers(p, f, x, y, m, e.iv, f.core.(users := after, s := Live(y)));
  }

  /** The response to a sign request, by the outcome of the consumption. */
  function SignAnswer(p: Crypto, g: Config, outcome: Status, hash: Block, e: Choice): Bytes {
    if outcome != OK then [Code(outcome)]
    else if !e.signs then [Code(ERROR)]
    else S.SignedMess(p, g.signKey, hash, e.stamp)
  }

  lemma SignServed(p: Crypto, g: Config, base: seq<UserInfo>, f: F, e: Choice)
    requires Inv(p, g, base, f) && f.core.k.phase.AwaitSign? && f.c2s != []
    ensures var f' := FStep(p, g, f, ServerRecv(e)); f'.Some? && Turn(p, g, f'.value)
    ensures var f' := FStep(p, g, f, ServerRecv(e)).value;
            var users := WithCounters(f.core.users, e.counters);
            var id := f.core.s.x.s.clientId;
            && f'.core.users == Consume(users, id).1 && f'.core.k == f.core.k
            && f'.core.s.Live?
            && f'.core.s.x.phase == (if Consume(users, id).0 == OK && !e.signs then S.Over else S.Serving)
            && Answered(p, f', f'.core.s.x, SignAnswer(p, g, Consume(users, id).0, f.core.k.phase.hash, e))
  {
    var x := f.core.s.x;
    var hash := f.core.k.phase.hash;
    FlyingArrives(p, f.c2s, x.s.ch, [SIGN] + hash);
    var env := EnvOf(Data(f.c2s[0]), e);
    var users := WithCounters(f.core.users, e.counters);
    var (after, y, out) := S.Step(p, g.signKey, f.core.users, x, env);
    var b := Splice(x.s.buffer, 0, [SIGN] + hash);
    assert b[0] == SIGN && b[1..33] == hash;
    var outcome := Consume(users, x.s.clientId).0;
    assert outcome != ERROR;
    var m := SignAnswer(p, g, outcome, hash, e);
    SealFlies(p, x.s.ch.(rx := Succ(x.s.ch.rx)), m, e.iv);
    ReplyAnswers(p, f, x, y, m, e.iv, f.core.(users := after, s := Live(y)));
  }

  lemma DepartureServed(p: Crypto, g: Config, f: F, e: Choice)
    requires Turn(p, g, f) && f.core.k.phase.Left? && ServerWaits(f.core.s)
    ensures var f' := FStep(p, g, f, ServerRecv(e)); f'.Some? && Turn(p, g, f'.value)
  {
  }

  // ---------------------------------------------------------------- what the client makes of a record

  lemma HelloHeard(p: Crypto, g: Config, f: F)
    requires Turn(p, g, f) && f.core.k.phase.AwaitHello? && !f.core.s.Fresh?
    ensures var f' := FStep(p, g, f, ClientRecv); f'.Some? && Turn(p, g, f'.value)
    ensures var f' := FStep(p, g, f, ClientRecv).value;
            && f'.core.s == f.core.s && f'.core.k.phase == (if f.core.s.Live? then Prompt else Left)
            && (f.core.s.Live? ==> f'.core.k.c.ch == f.core.s.x.s.ch)
  {
    var k := f.core.k;
    var h := f.s2c[0];
    assert h[..Min(|h|, H.SERVER_HELLO_SIZE)] == h;
    var greeting := Splice(g.clientPad, 0, H.ClientHello(p, k.phase.sk, k.phase.nonce));
    assert H.Heard(greeting, Data(h), H.SERVER_HELLO_SIZE) == h;
    assert f.s2c[1..] == [];
  }

  lemma LoginHeard(p: Crypto, g: Config, f: F)
    requires Turn(p, g, f) && f.core.k.phase.AwaitLogin? && f.s2c != []
    ensures var f' := FStep(p, g, f, ClientRecv);
            && f'.Some? && Turn(p, g, f'.value)
            && f'.value.core.k.login
                 == (if f.core.s.x.phase.Login? then f.core.k.login else Some(LoginStatus(f.core.s.x)))
            && f'.value.core.s == f.core.s
            && f'.value.core.k.phase
                 == (match LoginStatus(f.core.s.x) case OK => Ready case INVALID => Prompt case ERROR => Left)
  {
    var x := f.core.s.x;
    FlyingArrives(p, f.s2c, f.core.k.c.ch, [Code(LoginStatus(x))]);
    assert f.s2c[1..] == [];
  }

  lemma BalanceDecoded(buf: Buffer, u: UserInfo)
    ensures var b := Splice(buf, 0, S.BalanceMess(u));
            b[0] == Code(OK) && ReadLe32(b[1..5]) == u.remaining && ReadLe32(b[5..9]) == u.consumed
  {
    var b := Splice(buf, 0, S.BalanceMess(u));
    assert b[1..5] == Le32(u.remaining) && b[5..9] == Le32(u.consumed);
    Le32RoundTrip(u.remaining);
    Le32RoundTrip(u.consumed);
  }

  /** The balance printed is the one the server read. */
  lemma BalanceHeard(p: Crypto, g: Config, f: F)
    requires Turn(p, g, f) && f.core.k.phase.AwaitBalance? && f.s2c != []
    ensures var f' := FStep(p, g, f, ClientRecv);
            var u := f.core.users[f.core.s.x.s.clientId];
            && f'.Some? && Turn(p, g, f'.value)
            && f'.value.core.k.phase.Ready? && f'.value.core.k.shown == Some((u.remaining, u.consumed))
            && f'.value.core.users == f.core.users && f'.value.core.k.c.store == f.core.k.c.store
  {
    var x := f.core.s.x;
    var u := f.core.users[x.s.clientId];
    var m := S.BalanceMess(u);
    FlyingArrives(p, f.s2c, f.core.k.c.ch, m);
    BalanceDecoded(f.core.k.c.buffer, u);
    assert f.s2c[1..] == [];
  }

  /** A signed response is verified against the client's own hash and appended to the store. */
  lemma SignedHeard(p: Crypto, g: Config, f: F, hash: Block, stamp: Stamp)
    requires Turn(p, g, f) && f.core.k.phase == AwaitSign(hash)
    requires f.core.s.x.phase.Serving? && Answered(p, f, f.core.s.x, S.SignedMess(p, g.signKey, hash, stamp))
    ensures var f' := FStep(p, g, f, ClientRecv);
            && f'.Some? && Turn(p, g, f'.value)
            && f'.value.core.k.phase.Ready?
            && f'.value.core.k.c.store
                 == Some(Contents(f.core.k.c.store) + (hash + stamp + p.sign(g.signKey, hash + stamp)) + [NEWLINE])
  {
    var m := S.SignedMess(p, g.signKey, hash, stamp);
    FlyingArrives(p, f.s2c, f.core.k.c.ch, m);
    var b := Splice(f.core.k.c.buffer, 0, m);
    assert b == m;
    assert b[0] == Code(OK) && b[33..41] == stamp && b[41..] == p.sign(g.signKey, hash + stamp);
    assert f.s2c[1..] == [];
  }

  lemma RefusalHeard(p: Crypto, g: Config, f: F, hash: Block, st: Status)
    requires Turn(p, g, f) && f.core.k.phase == AwaitSign(hash) && st != OK
    requires Answered(p, f, f.core.s.x, [Code(st)])
    requires if st == INVALID then f.core.s.x.phase.Serving? else f.core.s.x.phase.Over?
    ensures var f' := FStep(p, g, f, ClientRecv);
            && f'.Some? && Turn(p, g, f'.value)
            && f'.value.core.k.phase == (if st == INVALID then Ready else Left)
            && f'.value.core.k.c.store == f.core.k.c.store
  {
    FlyingArrives(p, f.s2c, f.core.k.c.ch, [Code(st)]);
    var b := Splice(f.core.k.c.buffer, 0, [Code(st)]);
    assert b[0] == Code(st);
    assert f.s2c[1..] == [];
  }

  // ---------------------------------------------------------------- every step, every run

  lemma ServerKeepsTurn(p: Crypto, g: Config, base: seq<UserInfo>, f: F, e: Choice)
    requires Inv(p, g, base, f) && FStep(p, g, f, ServerRecv(e)).Some?
    ensures Turn(p, g, FStep(p, g, f, ServerRecv(e)).value)
  {
    match f.core.k.phase {
      case AwaitHello(_, _) => HelloServed(p, g, f, e);
      case AwaitLogin(_, _) => LoginServed(p, g, f, e);
      case AwaitBalance => BalanceServed(p, g, base, f, e);
      case AwaitSign(_) => SignServed(p, g, base, f, e);
      case Left => DepartureServed(p, g, f, e);
      case _ =>
    }
  }

  lemma ClientKeepsTurn(p: Crypto, g: Config, f: F)
    requires Turn(p, g, f) && FStep(p, g, f, ClientRecv).Some?
    ensures Turn(p, g, FStep(p, g, f, ClientRecv).value)
  {
    match f.core.k.phase {
      case AwaitHello(_, _) => HelloHeard(p, g, f);
      case AwaitLogin(_, _) => LoginHeard(p, g, f);
      case AwaitBalance => BalanceHeard(p, g, f);
      case AwaitSign(hash) => SignReplyHeard(p, g, f, hash);
      case _ =>
    }
  }

  lemma SignReplyHeard(p: Crypto, g: Config, f: F, hash: Block)
    requires Turn(p, g, f) && f.core.k.phase == AwaitSign(hash) && FStep(p, g, f, ClientRecv).Some?
    ensures Turn(p, g, FStep(p, g, f, ClientRecv).value)
  {
    var x := f.core.s.x;
    if x.phase.Serving? && Answered(p, f, x, [Code(INVALID)]) {
      RefusalHeard(p, g, f, hash, INVALID);
    } else if x.phase.Over? {
      RefusalHeard(p, g, f, hash, ERROR);
    } else {
      var stamp: Stamp :| Answered(p, f, x, S.SignedMess(p, g.signKey, hash, stamp));
      SignedHeard(p, g, f, hash, stamp);
    }
  }

  lemma ServerKeepsGood(p: Crypto, g: Config, base: seq<UserInfo>, f: F, e: Choice)
    requires Inv(p, g, base, f) && FStep(p, g, f, ServerRecv(e)).Some?
    ensures var f' := FStep(p, g, f, ServerRecv(e)).value;
            ServerGood(p, base, f'.core) && Agreed(f')
  {
    var a := if f.c2s != [] then Data(f.c2s[0]) else Closed;
    if f.core.s.Live? {
      S.StepKeepsSession(p, g.signKey, base, f.core.users, f.core.s.x, EnvOf(a, e));
    }
  }

  lemma ClientKeepsAgreed(p: Crypto, g: Config, base: seq<UserInfo>, f: F)
    requires Inv(p, g, base, f) && FStep(p, g, f, ClientRecv).Some?
    ensures Agreed(FStep(p, g, f, ClientRecv).value)
  {
    if f.core.k.phase.AwaitLogin? {
      LoginHeard(p, g, f);
    }
  }

  lemma StepKeepsInv(p: Crypto, g: Config, base: seq<UserInfo>, f: F, act: Act)
    requires Inv(p, g, base, f) && FStep(p, g, f, act).Some?
    ensures Inv(p, g, base, FStep(p, g, f, act).value)
  {
    match act {
      case Type(cmd) => TypedKeepsTurn(p, g, base, f, cmd);
      case ClientRecv =>
        ClientKeepsTurn(p, g, f);
        ClientKeepsAgreed(p, g, base, f);
      case ServerRecv(e) =>
        ServerKeepsTurn(p, g, base, f, e);
        ServerKeepsGood(p, g, base, f, e);
    }
  }

  function FInit(o: Origin): F {
    F(Begin(o), [], [])
  }

  /** The framed system after a run from the start, or None when some action of it was not enabled. */
  function Reached(p: Crypto, g: Config, o: Origin, acts: seq<Act>): Option<F> {
    FExec(p, g, FInit(o), acts)
  }

  function UInit(o: Origin): U {
    U(Begin(o), [], [])
  }

  lemma {:induction false} RunKeepsInv(p: Crypto, g: Config, base: seq<UserInfo>, start: F, acts: seq<Act>)
    requires Inv(p, g, base, start) && FExec(p, g, start, acts).Some?
    ensures Inv(p, g, base, FExec(p, g, start, acts).value)
  {
    if acts != [] {
      RunKeepsInv(p, g, base, start, acts[..|acts| - 1]);
      StepKeepsInv(p, g, base, FExec(p, g, start, acts[..|acts| - 1]).value, acts[|acts| - 1]);
    }
  }

  // ---------------------------------------------------------------- the byte streams refine the framed queues

  lemma FlatOne(x: Bytes)
    ensures Flat([x]) == x
  {
    assert [x][1..] == [];
  }

  lemma {:induction false} FlatAppend(a: seq<Bytes>, b: seq<Bytes>)
    ensures Flat(a + b) == Flat(a) + Flat(b)
  {
    if a == [] {
      assert a + b == b;
    } else {
      assert (a + b)[1..] == a[1..] + b;
      FlatAppend(a[1..], b);
    }
  }

  /** At most one record is in flight over both directions, its receiver is waiting, and one recv has room for it. */
  lemma OneInFlight(p: Crypto, g: Config, f: F)
    requires Turn(p, g, f)
    ensures |f.c2s| + |f.s2c| <= 1
    ensures f.c2s != [] ==> ServerWaits(f.core.s) && 0 < |f.c2s[0]| <= ServerMax(f.core.s)
    ensures f.s2c != [] ==> ClientWaits(f.core.k) && 0 < |f.s2c[0]| <= ClientMax(f.core.k)
    ensures f.s2c != [] && f.core.k.phase.AwaitLogin? ==> |f.s2c[0]| == IV_SIZE + 1 + TAG_SIZE
  {
  }

  ghost predicate Same(f: F, u: U) {
    u.core == f.core && u.c2s == Flat(f.c2s) && u.s2c == Flat(f.s2c)
  }

  lemma FlatBounded(q: seq<Bytes>, max: nat)
    requires |q| == 1 && 0 < |q[0]| <= max
    ensures Flat(q) == q[0] != []
    ensures Flat(q)[..Min(|Flat(q)|, max)] == q[0] && Flat(q)[Min(|Flat(q)|, max)..] == Flat(q[1..])
  {
    FlatOne(q[0]);
    assert q == [q[0]];
  }

  lemma StepRefines(p: Crypto, g: Config, f: F, u: U, act: Act)
    requires Turn(p, g, f) && Same(f, u)
    ensures FStep(p, g, f, act).Some? <==> UStep(p, g, u, act).Some?
    ensures FStep(p, g, f, act).Some? ==> Same(FStep(p, g, f, act).value, UStep(p, g, u, act).value)
  {
    OneInFlight(p, g, f);
    match act {
      case Type(cmd) =>
        if Typed(p, g, f.core.k, cmd).Some? {
          FlatAppend(f.c2s, Typed(p, g, f.core.k, cmd).value.1);
        }
      case ClientRecv =>
        if f.s2c != [] {
          FlatBounded(f.s2c, ClientMax(f.core.k));
        }
      case ServerRecv(e) =>
        if f.c2s != [] {
          FlatBounded(f.c2s, ServerMax(f.core.s));
        }
        if ServerWaits(f.core.s) {
          FlatAppend(f.s2c,
              ServerGets(p, g, f.core.users, f.core.s, if f.c2s != [] then Data(f.c2s[0]) else Closed, e).2);
        }
    }
  }

  lemma {:induction false} RunRefines(p: Crypto, g: Config, base: seq<UserInfo>, f0: F, u0: U, acts: seq<Act>)
    requires Inv(p, g, base, f0) && Same(f0, u0)
    ensures FExec(p, g, f0, acts).Some? <==> UExec(p, g, u0, acts).Some?
    ensures FExec(p, g, f0, acts).Some? ==> Same(FExec(p, g, f0, acts).value, UExec(p, g, u0, acts).value)
  {
    if acts != [] {
      var prior := acts[..|acts| - 1];
      RunRefines(p, g, base, f0, u0, prior);
      if FExec(p, g, f0, prior).Some? {
        RunKeepsInv(p, g, base, f0, prior);
        StepRefines(p, g, FExec(p, g, f0, prior).value, UExec(p, g, u0, prior).value, acts[|acts| - 1]);
      }
    }
  }

  lemma InitInv(p: Crypto, g: Config, o: Origin)
    ensures Inv(p, g, o.users, FInit(o))
    ensures Same(FInit(o), UInit(o))
  {
  }

  /**
    The unframed system refines the framed one, run by run: they allow the same actions, end in the same client, server
    and user list, and at every point the two streams together hold at most one record, which the next recv takes whole.
  */
  lemma UnframedRefinesFramed(p: Crypto, g: Config, o: Origin, acts: seq<Act>)
    ensures Reached(p, g, o, acts).Some? <==> UExec(p, g, UInit(o), acts).Some?
    ensures UExec(p, g, UInit(o), acts).Some? ==>
              var f, u := Reached(p, g, o, acts).value, UExec(p, g, UInit(o), acts).value;
              && u.core == f.core
              && |f.c2s| + |f.s2c| <= 1
              && u.c2s == (if f.c2s == [] then [] else f.c2s[0]) && u.s2c == (if f.s2c == [] then [] else f.s2c[0])
              && (u.c2s != [] ==> ServerWaits(u.core.s) && |u.c2s| <= ServerMax(u.core.s))
              && (u.s2c != [] ==> ClientWaits(u.core.k) && |u.s2c| <= ClientMax(u.core.k))
              && (u.s2c != [] && u.core.k.phase.AwaitLogin? ==> |u.s2c| == IV_SIZE + 1 + TAG_SIZE)
  {
    InitInv(p, g, o);
    RunRefines(p, g, o.users, FInit(o), UInit(o), acts);
    if UExec(p, g, UInit(o), acts).Some? {
      RunKeepsInv(p, g, o.users, FInit(o), acts);
      var f := Reached(p, g, o, acts).value;
      OneInFlight(p, g, f);
      if f.c2s != [] { FlatBounded(f.c2s, ServerMax(f.core.s)); }
      if f.s2c != [] { FlatBounded(f.s2c, ClientMax(f.core.k)); }
    }
  }

  function Ahead(n: uint32, k: nat): uint32
    requires k <= 1
  {
    if k == 0 then n else Succ(n)
  }

  /**
    In every reachable state: once both ends are keyed, each sender's counter leads its receiver's by exactly the
    records in flight that way; the two ends never both wait with both directions empty; and what the client's login
    returned is what the server decided.
  */
  lemma CountersTurnsAndLogin(p: Crypto, g: Config, o: Origin, acts: seq<Act>)
    requires Reached(p, g, o, acts).Some?
    ensures var f := Reached(p, g, o, acts).value;
            var k, s := f.core.k, f.core.s;
            && |f.c2s| <= 1 && |f.s2c| <= 1
            && (s.Live? && !k.phase.AwaitHello? ==>
                  && k.c.ch.key == s.x.s.ch.key
                  && k.c.ch.tx == Ahead(s.x.s.ch.rx, |f.c2s|)
                  && s.x.s.ch.tx == Ahead(k.c.ch.rx, |f.s2c|))
            && !(ClientWaits(k) && ServerWaits(s) && f.c2s == [] && f.s2c == [])
            && (k.login.Some? ==> k.login == Decided(s) && (k.login == Some(OK) || k.login == Some(ERROR)))
  {
    InitInv(p, g, o);
    RunKeepsInv(p, g, o.users, FInit(o), acts);
    OneInFlight(p, g, Reached(p, g, o, acts).value);
  }

  /** The composed system moves on until the client has left and the worker is done with it. */
  lemma NeverStuck(p: Crypto, g: Config, o: Origin, acts: seq<Act>, e: Choice) returns (act: Act)
    requires Reached(p, g, o, acts).Some?
    requires var core := Reached(p, g, o, acts).value.core; !core.k.phase.Left? || ServerWaits(core.s)
    ensures FStep(p, g, Reached(p, g, o, acts).value, act).Some?
  {
    InitInv(p, g, o);
    RunKeepsInv(p, g, o.users, FInit(o), acts);
    var f := Reached(p, g, o, acts).value;
    match f.core.k.phase {
      case Start => act := Type(Hello(e.sk, e.nonce));
      case Prompt => act := Type(Credentials([], [], e.iv));
      case Ready => act := Type(Quit);
      case _ => act := if f.s2c != [] then ClientRecv else ServerRecv(e);
    }
  }

  // ---------------------------------------------------------------- end to end

  /** Every line of the client's store holds a record that verifies under the server's key. */
  ghost predicate Genuine(p: Crypto, g: Config, store: Option<Bytes>) {
    C.Genuine(p, p.verKey(g.signKey), Contents(store))
  }

  function Verdict(p: Crypto, g: Config, store: Option<Bytes>, hash: Block): Status {
    C.Verify(p, p.verKey(g.signKey), store, hash)
  }

  lemma OnlySignRepliesStore(p: Crypto, g: Config, f: F, act: Act)
    requires FStep(p, g, f, act).Some? && !(act.ClientRecv? && f.core.k.phase.AwaitSign?)
    ensures FStep(p, g, f, act).value.core.k.c.store == f.core.k.c.store
  {
  }

  lemma StepKeepsGenuine(p: Crypto, g: Config, f: F, act: Act)
    requires FStep(p, g, f, act).Some? && Genuine(p, g, f.core.k.c.store)
    ensures Genuine(p, g, FStep(p, g, f, act).value.core.k.c.store)
  {
    if act.ClientRecv? && f.core.k.phase.AwaitSign? {
      var a := if f.s2c != [] then Data(f.s2c[0]) else Closed;
      C.SignReplyKeepsGenuine(p, p.verKey(g.signKey), f.core.k.c, f.core.k.phase.hash, a, Disk(true, STRIDE));
    } else {
      OnlySignRepliesStore(p, g, f, act);
    }
  }

  /** A store filled only by `timestamp` stays one in which every record verifies. */
  lemma {:induction false} RunKeepsGenuine(p: Crypto, g: Config, start: F, acts: seq<Act>)
    requires Genuine(p, g, start.core.k.c.store) && FExec(p, g, start, acts).Some?
    ensures Genuine(p, g, FExec(p, g, start, acts).value.core.k.c.store)
  {
    if acts != [] {
      RunKeepsGenuine(p, g, start, acts[..|acts| - 1]);
      StepKeepsGenuine(p, g, FExec(p, g, start, acts[..|acts| - 1]).value, acts[|acts| - 1]);
    }
  }

  lemma FExecOn(p: Crypto, g: Config, start: F, acts: seq<Act>, act: Act)
    requires FExec(p, g, start, acts).Some?
    ensures FExec(p, g, start, acts + [act]) == FStep(p, g, FExec(p, g, start, acts).value, act)
  {
    assert (acts + [act])[..|acts + [act]| - 1] == acts;
  }

  lemma ThreeOn(p: Crypto, g: Config, start: F, acts: seq<Act>, a1: Act, a2: Act, a3: Act, f1: F, f2: F)
    requires FExec(p, g, start, acts).Some? && FStep(p, g, FExec(p, g, start, acts).value, a1) == Some(f1)
    requires FStep(p, g, f1, a2) == Some(f2)
    ensures FExec(p, g, start, acts + [a1] + [a2] + [a3]) == FStep(p, g, f2, a3)
  {
    FExecOn(p, g, start, acts, a1);
    FExecOn(p, g, start, acts + [a1], a2);
    FExecOn(p, g, start, acts + [a1] + [a2], a3);
  }

  // ---------------------------------------------------------------- logging in, end to end

  /** The server's verdict on a typed pair, whatever stale bytes its buffer holds behind it. */
  lemma LoginDecidedByPair(p: Crypto, g: Config, base: seq<UserInfo>, f: F, e: Choice)
    requires Inv(p, g, base, f) && f.core.k.phase.AwaitLogin? && f.core.s.x.phase.Login? && f.c2s != []
    ensures var x := f.core.s.x;
            var f' := FStep(p, g, f, ServerRecv(e));
            && f'.Some? && f'.value.core.s.Live? && f'.value.core.k == f.core.k && f'.value.s2c != []
            && f'.value.core.s.x.phase == (if RightPair(p, base, f.core.k.phase.name, f.core.k.phase.psw) then S.Serving
                                           else if x.phase.tries > 1 then S.Login(x.phase.tries - 1) else S.Over)
  {
    var x := f.core.s.x;
    var name, psw := f.core.k.phase.name, f.core.k.phase.psw;
    LoginServed(p, g, f, e);
    FlyingArrives(p, f.c2s, x.s.ch, S.Encode(name, psw));
    var users := WithCounters(f.core.users, e.counters);
    CountersKeepCredentials(f.core.users, e.counters);
    CredentialsDecide(p, base, users, name, psw);
    S.LoginDecided(p, users, x, EnvOf(Data(f.c2s[0]), e), name, psw);
  }

  predicate RightPair(p: Crypto, users: seq<UserInfo>, name: C.Line, psw: C.Line) {
    name != [] && psw != [] && Check(p, users, name, psw)
  }

  /**
    The first exchange, from the start: the client comes to its prompt with three attempts before it
    exactly when the key exchange gives a secret, and otherwise gives up.
  */
  lemma HandshakeReachesPrompt(p: Crypto, g: Config, o: Origin, sk: Bytes, nonce: Block, e: Choice)
    ensures var r := Reached(p, g, o, [] + [Type(Hello(sk, nonce))] + [ServerRecv(e)] + [ClientRecv]);
            && r.Some?
            && (if p.derive(sk, p.pub(e.sk)).Some? then
                  var key := p.kdf(p.derive(sk, p.pub(e.sk)).value, nonce + e.nonce);
                  && r.value.core.k.phase == Prompt && r.value.core.k.c.ch == Chan(key, 0, 0)
                  && r.value.core.s.Live? && r.value.core.s.x.phase == S.Login(3)
                  && r.value.core.s.x.s.ch == Chan(key, 0, 0)
                else r.value.core.k.phase == Left && r.value.core.s == Failed)
  {
    var f := FInit(o);
    InitInv(p, g, o);
    var f1 := FStep(p, g, f, Type(Hello(sk, nonce))).value;
    StepKeepsInv(p, g, o.users, f, Type(Hello(sk, nonce)));
    HelloServed(p, g, f1, e);
    var f2 := FStep(p, g, f1, ServerRecv(e)).value;
    HelloHeard(p, g, f2);
    ThreeOn(p, g, f, [], Type(Hello(sk, nonce)), ServerRecv(e), ClientRecv, f1, f2);
  }

  lemma LoginExchange(p: Crypto, g: Config, base: seq<UserInfo>, f: F, name: C.Line, psw: C.Line, iv: Iv, e: Choice)
    returns (f1: F, f2: F)
    requires Inv(p, g, base, f) && f.core.k.phase.Prompt?
    ensures FStep(p, g, f, Type(Credentials(name, psw, iv))) == Some(f1)
    ensures FStep(p, g, f1, ServerRecv(e)) == Some(f2)
    ensures FStep(p, g, f2, ClientRecv).Some?
    ensures LoginOutcome(p, base, f.core, FStep(p, g, f2, ClientRecv).value.core, name, psw)
  {
    f1 := FStep(p, g, f, Type(Credentials(name, psw, iv))).value;
    StepKeepsInv(p, g, base, f, Type(Credentials(name, psw, iv)));
    LoginDecidedByPair(p, g, base, f1, e);
    f2 := FStep(p, g, f1, ServerRecv(e)).value;
    StepKeepsInv(p, g, base, f1, ServerRecv(e));
    LoginHeard(p, g, f2);
  }

  /** What a typed pair must lead to: in if it is right, otherwise one attempt fewer, and out after the last. */
  ghost predicate LoginOutcome(p: Crypto, users: seq<UserInfo>, before: Core, after: Core, name: C.Line, psw: C.Line) {
    && before.s.Live? && before.s.x.phase.Login? && after.s.Live?
    && var tries := before.s.x.phase.tries;
       if RightPair(p, users, name, psw) then
         after.k.phase == Ready && after.k.login == Some(OK) && after.s.x.phase.Serving?
       else if tries > 1 then
         after.k.phase == Prompt && after.k.login == None && after.s.x.phase == S.Login(tries - 1)
       else after.k.phase == Left && after.k.login == Some(ERROR) && after.s.x.phase.Over?
  }

  /**
    A typed name and password, end to end: from any reachable prompt, whatever earlier attempts left in either buffer,
    the client is let in iff both are non-empty and match the list; otherwise it is asked again, or sent away after
    the third.
  */
  lemma LoginEndToEnd(p: Crypto, g: Config, o: Origin, acts: seq<Act>, name: C.Line, psw: C.Line, iv: Iv, e: Choice)
    requires Reached(p, g, o, acts).Some?
    requires Reached(p, g, o, acts).value.core.k.phase.Prompt?
    ensures var r := Reached(p, g, o, acts + [Type(Credentials(name, psw, iv))] + [ServerRecv(e)] + [ClientRecv]);
            r.Some? && LoginOutcome(p, o.users, Reached(p, g, o, acts).value.core, r.value.core, name, psw)
  {
    var start := FInit(o);
    InitInv(p, g, o);
    RunKeepsInv(p, g, o.users, start, acts);
    var f1, f2 := LoginExchange(p, g, o.users, FExec(p, g, start, acts).value, name, psw, iv, e);
    ThreeOn(p, g, start, acts, Type(Credentials(name, psw, iv)), ServerRecv(e), ClientRecv, f1, f2);
  }

  lemma SignAsked(p: Crypto, g: Config, base: seq<UserInfo>, f: F, hash: Block, iv: Iv) returns (f1: F)
    requires Inv(p, g, base, f) && f.core.k.phase.Ready?
    ensures FStep(p, g, f, Type(AskSign(hash, iv))) == Some(f1) && Inv(p, g, base, f1)
    ensures f1.core.k.phase == AwaitSign(hash) && f1.core.users == f.core.users && f1.core.s == f.core.s && f1.c2s != []
    ensures f1.core.k.c.store == f.core.k.c.store
  {
    f1 := FStep(p, g, f, Type(AskSign(hash, iv))).value;
    StepKeepsInv(p, g, base, f, Type(AskSign(hash, iv)));
  }

  /** The client's part: what it makes of the response, whichever it was. */
  lemma SignAnswerHeard(p: Crypto, g: Config, f: F, outcome: Status, hash: Block, e: Choice)
    requires Turn(p, g, f) && f.core.k.phase == AwaitSign(hash) && outcome != ERROR
    requires f.core.s.x.phase == (if outcome == OK && !e.signs then S.Over else S.Serving)
    requires Answered(p, f, f.core.s.x, SignAnswer(p, g, outcome, hash, e))
    ensures var f' := FStep(p, g, f, ClientRecv);
            && f'.Some?
            && f'.value.core.users == f.core.users
            && f'.value.core.k.phase == (if outcome == OK && !e.signs then Left else Ready)
            && f'.value.core.k.c.store
               == if outcome == OK && e.signs then
                    Some(Contents(f.core.k.c.store) + (hash + e.stamp + p.sign(g.signKey, hash + e.stamp)) + [NEWLINE])
                  else f.core.k.c.store
  {
    if outcome != OK {
      RefusalHeard(p, g, f, hash, outcome);
    } else if !e.signs {
      RefusalHeard(p, g, f, hash, ERROR);
    } else {
      SignedHeard(p, g, f, hash, e.stamp);
    }
  }

  /**
    What a sign command must lead to. Without a credit nothing moves and the session goes on. With one, exactly one
    credit of that user moves; if the server can sign, exactly one record is appended, found last, and verify answers
    OK; if it cannot, the store stays as it was and the session is over.
  */
  ghost predicate SignOutcome(p: Crypto, g: Config, before: Core, after: Core, hash: Block, e: Choice) {
    && before.s.Live?
    && var now := WithCounters(before.users, e.counters);
       var id := before.s.x.s.clientId;
       var store, store' := before.k.c.store, after.k.c.store;
       && 0 <= id < |now|
       && (now[id].remaining == 0 ==> after.users == now)
       && (now[id].remaining > 0 ==>
             after.users == now[id := now[id].(remaining := now[id].remaining - 1, consumed := Succ(now[id].consumed))])
       && (after.k.phase == if now[id].remaining > 0 && !e.signs then Left else Ready)
       && (if now[id].remaining > 0 && e.signs then
             var entry := hash + e.stamp + p.sign(g.signKey, hash + e.stamp);
             && store' == Some(Contents(store) + entry + [NEWLINE])
             && Search(Contents(store'), hash) == Search(Contents(store), hash) + [entry]
             && Verdict(p, g, store', hash) == OK
           else store' == store)
  }

  lemma SignOutcomeOf(p: Crypto, g: Config, before: Core, after: Core, hash: Block, e: Choice)
    requires before.s.Live? && 0 <= before.s.x.s.clientId < |before.users| && Genuine(p, g, before.k.c.store)
    requires var (outcome, users) := Consume(WithCounters(before.users, e.counters), before.s.x.s.clientId);
             && after.users == users
             && after.k.phase == (if outcome == OK && !e.signs then Left else Ready)
             && after.k.c.store
                == if outcome == OK && e.signs then
                     Some(Contents(before.k.c.store) + (hash + e.stamp + p.sign(g.signKey, hash + e.stamp)) + [NEWLINE])
                   else before.k.c.store
    ensures SignOutcome(p, g, before, after, hash, e)
  {
    var sig := p.sign(g.signKey, hash + e.stamp);
    AppendedVerifies(p, p.verKey(g.signKey), before.k.c.store, hash, e.stamp, sig);
  }

  lemma SignExchange(p: Crypto, g: Config, base: seq<UserInfo>, f: F, hash: Block, iv: Iv, e: Choice)
    returns (f1: F, f2: F)
    requires Inv(p, g, base, f) && f.core.k.phase.Ready?
    requires Genuine(p, g, f.core.k.c.store)
    ensures FStep(p, g, f, Type(AskSign(hash, iv))) == Some(f1)
    ensures FStep(p, g, f1, ServerRecv(e)) == Some(f2)
    ensures FStep(p, g, f2, ClientRecv).Some?
    ensures SignOutcome(p, g, f.core, FStep(p, g, f2, ClientRecv).value.core, hash, e)
  {
    f1 := SignAsked(p, g, base, f, hash, iv);
    SignServed(p, g, base, f1, e);
    f2 := FStep(p, g, f1, ServerRecv(e)).value;
    var outcome := Consume(WithCounters(f.core.users, e.counters), f.core.s.x.s.clientId).0;
    SignAnswerHeard(p, g, f2, outcome, hash, e);
    SignOutcomeOf(p, g, f.core, FStep(p, g, f2, ClientRecv).value.core, hash, e);
  }

  /** Sign, end to end, from any reachable state in which the user may sign. */
  lemma SignEndToEnd(p: Crypto, g: Config, o: Origin, acts: seq<Act>, hash: Block, iv: Iv, e: Choice)
    requires Genuine(p, g, o.store)
    requires Reached(p, g, o, acts).Some?
    requires Reached(p, g, o, acts).value.core.k.phase.Ready?
    ensures var r := Reached(p, g, o, acts + [Type(AskSign(hash, iv))] + [ServerRecv(e)] + [ClientRecv]);
            r.Some? && SignOutcome(p, g, Reached(p, g, o, acts).value.core, r.value.core, hash, e)
  {
    var start := FInit(o);
    InitInv(p, g, o);
    RunKeepsInv(p, g, o.users, start, acts);
    RunKeepsGenuine(p, g, start, acts);
    var f1, f2 := SignExchange(p, g, o.users, FExec(p, g, start, acts).value, hash, iv, e);
    ThreeOn(p, g, start, acts, Type(AskSign(hash, iv)), ServerRecv(e), ClientRecv, f1, f2);
  }

  /**
    Balance, end to end: what is printed are the two counters the list held when the server answered; nothing else
    moves.
  */
  lemma BalanceEndToEnd(p: Crypto, g: Config, o: Origin, acts: seq<Act>, iv: Iv, e: Choice)
    requires Reached(p, g, o, acts).Some?
    requires Reached(p, g, o, acts).value.core.k.phase.Ready?
    ensures var f := Reached(p, g, o, acts).value;
            var r := Reached(p, g, o, acts + [Type(AskBalance(iv))] + [ServerRecv(e)] + [ClientRecv]);
            r.Some? && BalanceOutcome(f.core, r.value.core, e)
  {
    var start := FInit(o);
    InitInv(p, g, o);
    RunKeepsInv(p, g, o.users, start, acts);
    var f := FExec(p, g, start, acts).value;
    var f1 := FStep(p, g, f, Type(AskBalance(iv))).value;
    StepKeepsInv(p, g, o.users, f, Type(AskBalance(iv)));
    BalanceServed(p, g, o.users, f1, e);
    var f2 := FStep(p, g, f1, ServerRecv(e)).value;
    BalanceHeard(p, g, f2);
    ThreeOn(p, g, start, acts, Type(AskBalance(iv)), ServerRecv(e), ClientRecv, f1, f2);
  }

  ghost predicate BalanceOutcome(before: Core, after: Core, e: Choice) {
    && before.s.Live?
    && var now := WithCounters(before.users, e.counters);
       var id := before.s.x.s.clientId;
       && 0 <= id < |now|
       && after.k.phase == Ready && after.k.shown == Some((now[id].remaining, now[id].consumed))
       && after.users == now && after.k.c.store == before.k.c.store
  }

  lemma AppendedVerifies(p: Crypto, pub: Bytes, store: Option<Bytes>, hash: Block, stamp: Stamp, sig: Bytes)
    requires C.Genuine(p, pub, Contents(store)) && |sig| == SIGNATURE_SIZE && p.verify(pub, hash + stamp, sig)
    ensures var file := Contents(store) + (hash + stamp + sig) + [NEWLINE];
            && Search(file, hash) == Search(Contents(store), hash) + [hash + stamp + sig]
            && C.Verify(p, pub, Some(file), hash) == OK
  {
    var entry: Entry := hash + stamp + sig;
    assert entry[..HASH_SIZE] == hash && entry[..40] == hash + stamp && entry[40..] == sig;
    C.SearchFindsAppended(p, pub, Contents(store), entry, hash);
  }

  lemma StepKeepsFound(p: Crypto, g: Config, f: F, act: Act, hash: Block)
    requires FStep(p, g, f, act).Some? && Genuine(p, g, f.core.k.c.store)
    ensures var before, after := f.core.k.c.store, FStep(p, g, f, act).value.core.k.c.store;
            && (before.Some? ==> after.Some?)
            && |Search(Contents(before), hash)| <= |Search(Contents(after), hash)|
  {
    if act.ClientRecv? && f.core.k.phase.AwaitSign? {
      var a := if f.s2c != [] then Data(f.s2c[0]) else Closed;
      C.SignReplyKeepsFound(p, p.verKey(g.signKey), f.core.k.c, f.core.k.phase.hash, a, Disk(true, STRIDE), hash);
    } else {
      OnlySignRepliesStore(p, g, f, act);
    }
  }

  lemma StepKeepsVerified(p: Crypto, g: Config, f: F, act: Act, hash: Block)
    requires FStep(p, g, f, act).Some? && Genuine(p, g, f.core.k.c.store)
    requires Verdict(p, g, f.core.k.c.store, hash) == OK
    ensures Verdict(p, g, FStep(p, g, f, act).value.core.k.c.store, hash) == OK
  {
    StepKeepsGenuine(p, g, f, act);
    StepKeepsFound(p, g, f, act, hash);
    C.VerifyExactly(p, p.verKey(g.signKey), f.core.k.c.store, hash);
    C.VerifyExactly(p, p.verKey(g.signKey), FStep(p, g, f, act).value.core.k.c.store, hash);
  }

  /** Once a document verifies it verifies in every later state of the session. */
  lemma {:induction false} VerifiedForGood(p: Crypto, g: Config, o: Origin, acts: seq<Act>, more: seq<Act>, hash: Block)
    requires Genuine(p, g, o.store)
    requires Reached(p, g, o, acts + more).Some?
    requires Reached(p, g, o, acts).Some?
    requires Verdict(p, g, Reached(p, g, o, acts).value.core.k.c.store, hash) == OK
    ensures Verdict(p, g, Reached(p, g, o, acts + more).value.core.k.c.store, hash) == OK
  {
    if more == [] {
      assert acts + more == acts;
    } else {
      var prior := more[..|more| - 1];
      assert (acts + more)[..|acts + more| - 1] == acts + prior;
      VerifiedForGood(p, g, o, acts, prior, hash);
      RunKeepsGenuine(p, g, FInit(o), acts + prior);
      StepKeepsVerified(p, g, Reached(p, g, o, acts + prior).value, more[|more| - 1], hash);
    }
  }

  // ---------------------------------------------------------------- leaving

  /**
    From any reachable state in which the client has left and the worker still waits for it, one receive sends the
    worker back to the pool, with nothing sent and nobody's credit taken.
  */
  lemma DepartureFreesWorker(p: Crypto, g: Config, o: Origin, acts: seq<Act>, e: Choice)
    requires Reached(p, g, o, acts).Some?
    requires var core := Reached(p, g, o, acts).value.core; core.k.phase.Left? && ServerWaits(core.s)
    ensures var f := Reached(p, g, o, acts).value;
            var f' := Reached(p, g, o, acts + [ServerRecv(e)]);
            && f'.Some? && !ServerWaits(f'.value.core.s)
            && f'.value.core.users == WithCounters(f.core.users, e.counters) && f'.value.s2c == []
  {
    InitInv(p, g, o);
    RunKeepsInv(p, g, o.users, FInit(o), acts);
    FExecOn(p, g, FInit(o), acts, ServerRecv(e));
    var f := Reached(p, g, o, acts).value;
    S.NoRequestEndsSession(p, g.signKey, S.Run(f.core.users, f.core.s.x, []), EnvOf(Closed, e));
  }

  // ---------------------------------------------------------------- the client, command by command

  /** What each command puts on the wire: one record of exactly these bytes, or nothing. */
  lemma CommandBytes(p: Crypto, g: Config, k: Client, cmd: Cmd)
    requires Typed(p, g, k, cmd).Some?
    ensures var out := Typed(p, g, k, cmd).value.1;
            match cmd
            case Hello(sk, nonce) => out == [nonce + p.pub(sk)]
            case Credentials(name, psw, iv) => out == [Seal(p, k.c.ch.key, iv, k.c.ch.tx, name + [0] + psw + [0])]
            case AskBalance(iv) => out == [Seal(p, k.c.ch.key, iv, k.c.ch.tx, [0])]
            case AskSign(hash, iv) => out == [Seal(p, k.c.ch.key, iv, k.c.ch.tx, [1] + hash)]
            case AskVerify(_) => out == []
            case Quit => out == []
  {
  }

  /**
    Verify needs no server: the session goes on iff there is a signature file, with the hash at the start of the
    buffer.
  */
  lemma VerifyTyped(p: Crypto, g: Config, k: Client, hash: Block)
    requires k.phase.Ready?
    ensures var r := Typed(p, g, k, AskVerify(hash));
            && r.Some?
            && r.value.0.phase == (if k.c.store.Some? then Ready else Left)
            && r.value.0.c == k.c.(buffer := Overlaid(k.c.buffer, hash))
  {
    C.VerifyIs(p, p.verKey(g.signKey), k.c.store, hash);
    OverlaidIsSplice(k.c.buffer, hash);
  }

  /**
    Which replies end the client's session, whatever arrives: at login no message or a 1, for a balance a failed
    receive or a 1, for a signature no message or a 1; a 2 at login asks again. The handshake goes on iff the hello
    verifies over both nonces and both keys and gives a secret.
  */
  lemma ClientGoesOnExactly(p: Crypto, g: Config, k: Client, a: Arrival)
    requires ClientWaits(k)
    ensures var r := DecRecv(p, k.c.ch, a);
            var b := Overlaid(k.c.buffer, r.written);
            var phase := ClientGets(p, g, k, a).phase;
            match k.phase
            case AwaitHello(sk, nonce) =>
              var heard := H.Heard(Splice(g.clientPad, 0, nonce + p.pub(sk)), a, 128);
              var verified := p.verify(p.verKey(g.hsKey), nonce + heard[..32] + p.pub(sk) + heard[32..64], heard[64..]);
              phase == if a != Closed && verified && p.derive(sk, heard[32..64]).Some? then Prompt else Left
            case AwaitLogin(_, _) =>
              phase == if r.ret <= 0 || r.written[0] == 1 then Left else if r.written[0] == 2 then Prompt else Ready
            case AwaitBalance => phase == if r.ret < 0 || b[0] == 1 then Left else Ready
            case AwaitSign(_) => phase == if r.ret <= 0 || b[0] == 1 then Left else Ready
  {
    OverlaidIsSplice(k.c.buffer, DecRecv(p, k.c.ch, a).written);
    if k.phase.AwaitLogin? {
      C.LoginReplyIs(p, k.c, a);
    } else if k.phase.AwaitBalance? {
      C.BalanceReplyIs(p, k.c, a);
    } else if k.phase.AwaitSign? {
      C.SignReplyIs(p, p.verKey(g.signKey), k.c, k.phase.hash, a, Disk(true, STRIDE));
    }
  }

  /**
    A round of the client's login loop is what a typed pair and its reply do here: asking again is being at the
    prompt.
  */
  lemma LoginRoundIsExchange(p: Crypto, g: Config, k: Client, name: C.Line, psw: C.Line, iv: Iv, a: Arrival)
    requires k.phase.Prompt?
    ensures var typed := Typed(p, g, k, Credentials(name, psw, iv));
            && typed.Some? && ClientWaits(typed.value.0)
            && var k' := ClientGets(p, g, typed.value.0, a);
               var round := C.LoginRound(p, k.c, C.Attempt(name, psw, Wire(Some(iv), true), a));
               && round.c == k'.c && round.out == typed.value.1
               && (C.AsksAgain(round) <==> k'.phase.Prompt?)
               && (round.outcome == Some(OK) <==> k'.phase.Ready?)
               && (round.outcome == Some(ERROR) <==> k'.phase.Left?)
  {
  }
}
