/**
  Any number of client and server handshakes over a network that decides every byte each end hears. Assumed:
  nonces are fresh, and a signature that verifies was made by some server session over the same conversation.
*/
module Agreement {
  import opened Base
  import opened Primitives
  import opened Handshake

  datatype Client = Client(sk: Bytes, nonce: Block, done: Option<Outcome>)
  datatype Outcome = Outcome(conv: Hello, key: Bytes)  // of a handshake that returned OK

  /** `hello` is what was sent, `conv` what it was signed over; `key` is None when the server failed after signing. */
  datatype Server = Server(sk: Bytes, nonce: Block, hello: Hello, conv: Hello, key: Option<Bytes>)

  datatype State = State(clients: seq<Client>, servers: seq<Server>)

  datatype Action =
    | Begin(sk: Bytes, nonce: Block)
    | Serve(sk: Bytes, nonce: Block, heard: Hello, completes: bool)
    | Finish(i: nat, heard: Hello)

  ghost predicate Signed(s: State, conv: Hello) {
    exists j :: 0 <= j < |s.servers| && s.servers[j].conv == conv
  }

  ghost predicate Enabled(p: Crypto, hsKey: Bytes, s: State, act: Action) {
    match act
    case Begin(_, nonce) => forall i :: 0 <= i < |s.clients| ==> s.clients[i].nonce != nonce
    case Serve(_, nonce, _, _) => forall j :: 0 <= j < |s.servers| ==> s.servers[j].nonce != nonce
    case Finish(i, heard) =>
      && i < |s.clients| && s.clients[i].done == None
      && var c := s.clients[i];
         var said := c.nonce + heard[..32] + p.pub(c.sk) + heard[32..64];
         p.verify(p.verKey(hsKey), said, heard[64..]) ==> Signed(s, said)
  }

  function Serving(p: Crypto, hsKey: Bytes, sk: Bytes, nonce: Block, heard: Hello, completes: bool): Server {
    var key := if completes then ServerKey(p, sk, nonce, heard) else None;
    Server(sk, nonce, ServerHello(p, hsKey, sk, nonce, heard), ServerConversation(p, sk, nonce, heard), key)
  }

  function Step(p: Crypto, hsKey: Bytes, s: State, act: Action): State
    requires act.Finish? ==> act.i < |s.clients|
  {
    match act
    case Begin(sk, nonce) => s.(clients := s.clients + [Client(sk, nonce, None)])
    case Serve(sk, nonce, heard, completes) =>
      s.(servers := s.servers + [Serving(p, hsKey, sk, nonce, heard, completes)])
    case Finish(i, heard) =>
      var c := s.clients[i];
      var key := ClientKey(p, c.sk, c.nonce, heard);
      if ClientAccepts(p, p.verKey(hsKey), c.sk, c.nonce, heard) && key.Some? then
        s.(clients := s.clients[i := c.(done := Some(Outcome(ClientConversation(p, c.sk, c.nonce, heard), key.value)))])
      else s
  }

  ghost function Exec(p: Crypto, hsKey: Bytes, acts: seq<Action>): Option<State> {
    if acts == [] then Some(State([], []))
    else
      var before := Exec(p, hsKey, acts[..|acts| - 1]);
      var act := acts[|acts| - 1];
      if before.Some? && Enabled(p, hsKey, before.value, act) then Some(Step(p, hsKey, before.value, act)) else None
  }

  ghost predicate ServerGood(p: Crypto, hsKey: Bytes, x: Server) {
    && x.hello == x.nonce + p.pub(x.sk) + p.sign(hsKey, x.conv)
    && x.conv[32..64] == x.nonce
    && x.conv[96..] == p.pub(x.sk)
    && (x.key.Some? ==> x.key == SessionKey(p, x.sk, x.conv[64..96], x.conv))
  }

  ghost predicate ClientGood(p: Crypto, s: State, c: Client) {
    c.done.Some? ==>
      var conv := c.done.value.conv;
      && conv[..32] == c.nonce
      && conv[64..96] == p.pub(c.sk)
      && Some(c.done.value.key) == SessionKey(p, c.sk, conv[96..], conv)
      && Signed(s, conv)
  }

  ghost predicate Inv(p: Crypto, hsKey: Bytes, s: State) {
    && (forall i, k :: 0 <= i < k < |s.clients| ==> s.clients[i].nonce != s.clients[k].nonce)
    && (forall i, k :: 0 <= i < k < |s.servers| ==> s.servers[i].nonce != s.servers[k].nonce)
    && (forall j :: 0 <= j < |s.servers| ==> ServerGood(p, hsKey, s.servers[j]))
    && (forall i :: 0 <= i < |s.clients| ==> ClientGood(p, s, s.clients[i]))
  }

  lemma SignedStays(s: State, s': State, conv: Hello)
    requires s.servers <= s'.servers && Signed(s, conv)
    ensures Signed(s', conv)
  {
    var j :| 0 <= j < |s.servers| && s.servers[j].conv == conv;
    assert s'.servers[j].conv == conv;
  }

  lemma NewServerGood(p: Crypto, hsKey: Bytes, sk: Bytes, nonce: Block, heard: Hello, completes: bool)
    ensures ServerGood(p, hsKey, Serving(p, hsKey, sk, nonce, heard, completes))
  {
    Sections(heard[..32], nonce, heard[32..64], p.pub(sk));
  }

  lemma NewOutcomeGood(p: Crypto, s: State, c: Client, heard: Hello)
    requires Signed(s, ClientConversation(p, c.sk, c.nonce, heard)) && ClientKey(p, c.sk, c.nonce, heard).Some?
    ensures var conv := ClientConversation(p, c.sk, c.nonce, heard);
            ClientGood(p, s, c.(done := Some(Outcome(conv, ClientKey(p, c.sk, c.nonce, heard).value))))
  {
    Sections(c.nonce, heard[..32], p.pub(c.sk), heard[32..64]);
  }

  lemma StepKeepsInv(p: Crypto, hsKey: Bytes, s: State, act: Action)
    requires Inv(p, hsKey, s) && Enabled(p, hsKey, s, act)
    ensures Inv(p, hsKey, Step(p, hsKey, s, act))
  {
    var s' := Step(p, hsKey, s, act);
    if act.Serve? {
      NewServerGood(p, hsKey, act.sk, act.nonce, act.heard, act.completes);
    }
    forall i | 0 <= i < |s'.clients| ensures ClientGood(p, s', s'.clients[i]) {
      if act.Finish? && act.i == i && s'.clients[i] != s.clients[i] {
        NewOutcomeGood(p, s, s.clients[i], act.heard);
      } else if i < |s.clients| && s.clients[i].done.Some? {
        assert ClientGood(p, s, s.clients[i]);
        SignedStays(s, s', s.clients[i].done.value.conv);
      }
    }
  }

  lemma {:induction false} RunKeepsInv(p: Crypto, hsKey: Bytes, acts: seq<Action>)
    requires Exec(p, hsKey, acts).Some?
    ensures Inv(p, hsKey, Exec(p, hsKey, acts).value)
  {
    if acts != [] {
      RunKeepsInv(p, hsKey, acts[..|acts| - 1]);
      StepKeepsInv(p, hsKey, Exec(p, hsKey, acts[..|acts| - 1]).value, acts[|acts| - 1]);
    }
  }

  ghost predicate Accepted(c: Client, conv: Hello) {
    c.done.Some? && c.done.value.conv == conv
  }

  /**
    A client returns OK iff the 64 bytes after the hello verify over both nonces and both keys, and there is a secret.
  */
  lemma OkMeansVerified(p: Crypto, hsKey: Bytes, s: State, i: nat, heard: Hello)
    requires i < |s.clients| && s.clients[i].done == None
    ensures var c := s.clients[i];
            var said := c.nonce + heard[..32] + p.pub(c.sk) + heard[32..64];
            Step(p, hsKey, s, Finish(i, heard)).clients[i].done.Some?
            <==> p.verify(p.verKey(hsKey), said, heard[64..]) && p.derive(c.sk, heard[32..64]).Some?
  {
  }

  /**
    Whatever the network did: a client handshake that returned OK shares its whole conversation with exactly one
    server session, which signed both nonces and both ephemeral keys; no other client session shares it; the client's
    key is derived from the secret of the two private keys and the two nonces; and if that server session completed it
    holds it.
  */
  lemma ClientOkMeansAgreement(p: Crypto, hsKey: Bytes, acts: seq<Action>, i: nat) returns (j: nat)
    requires Exec(p, hsKey, acts).Some?
    requires i < |Exec(p, hsKey, acts).value.clients| && Exec(p, hsKey, acts).value.clients[i].done.Some?
    ensures var s := Exec(p, hsKey, acts).value;
            var c, mine := s.clients[i], s.clients[i].done.value;
            && j < |s.servers| && s.servers[j].conv == mine.conv
            && (forall k :: 0 <= k < |s.servers| && s.servers[k].conv == mine.conv ==> k == j)
            && (forall k :: 0 <= k < |s.clients| && Accepted(s.clients[k], mine.conv) ==> k == i)
            && var x := s.servers[j];
               var secret := p.derive(c.sk, p.pub(x.sk));
               && mine.conv == c.nonce + x.nonce + p.pub(c.sk) + p.pub(x.sk)
               && x.hello == x.nonce + p.pub(x.sk) + p.sign(hsKey, mine.conv)
               && secret.Some? && mine.key == p.kdf(secret.value, c.nonce + x.nonce)
               && (x.key.Some? ==> x.key == Some(mine.key))
  {
    RunKeepsInv(p, hsKey, acts);
    var s := Exec(p, hsKey, acts).value;
    var c := s.clients[i];
    var conv := c.done.value.conv;
    assert ClientGood(p, s, c);
    j :| 0 <= j < |s.servers| && s.servers[j].conv == conv;
    assert ServerGood(p, hsKey, s.servers[j]);
    forall k | 0 <= k < |s.servers| && s.servers[k].conv == conv ensures k == j {
      assert ServerGood(p, hsKey, s.servers[k]);
    }
    forall k | 0 <= k < |s.clients| && Accepted(s.clients[k], conv) ensures k == i {
      assert ClientGood(p, s, s.clients[k]);
    }
    SameSecret(p, c.sk, s.servers[j].sk, conv);
    FourSections(conv);
    assert conv[..64] == conv[..32] + conv[32..64];
  }

  lemma SameSecret(p: Crypto, csk: Bytes, ssk: Bytes, conv: Hello)
    requires conv[64..96] == p.pub(csk) && conv[96..] == p.pub(ssk)
    ensures SessionKey(p, csk, conv[96..], conv) == SessionKey(p, ssk, conv[64..96], conv)
  {
    assert p.derive(csk, p.pub(ssk)) == p.derive(ssk, p.pub(csk));
  }
}
