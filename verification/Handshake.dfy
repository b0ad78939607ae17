/**
  The handshake: both hellos and, at the server, the shared secret live in one 128-byte buffer, while the
  conversation (c_nonce | s_nonce | c_eph_key | s_eph_key) is filled beside it.
*/
module Handshake {
  import opened Base
  import opened Primitives
  import opened Record
  import C = Connection

  const HELLO_SIZE: nat := 64
  const SERVER_HELLO_SIZE: nat := 128

  type Hello = b: Bytes | |b| == 128 witness seq(128, _ => 0)

  function ClientHello(p: Crypto, sk: Bytes, nonce: Block): (h: Bytes)
    ensures |h| == HELLO_SIZE
  {
    nonce + p.pub(sk)
  }

  /** Both ends salt the key derivation with the two nonces, the first half of the conversation. */
  function SessionKey(p: Crypto, sk: Bytes, peer: Bytes, conv: Hello): Option<Bytes> {
    match p.derive(sk, peer)
    case None => None
    case Some(secret) => Some(p.kdf(secret, conv[..64]))
  }

  /** What the server makes of the first 64 bytes of its buffer. */
  function ServerConversation(p: Crypto, sk: Bytes, nonce: Block, heard: Hello): Hello {
    heard[..32] + nonce + heard[32..64] + p.pub(sk)
  }

  function ServerHello(p: Crypto, hsKey: Bytes, sk: Bytes, nonce: Block, heard: Hello): Hello {
    nonce + p.pub(sk) + p.sign(hsKey, ServerConversation(p, sk, nonce, heard))
  }

  function ServerKey(p: Crypto, sk: Bytes, nonce: Block, heard: Hello): Option<Bytes> {
    SessionKey(p, sk, heard[32..64], ServerConversation(p, sk, nonce, heard))
  }

  /** What the client makes of the 128 bytes of its buffer. */
  function ClientConversation(p: Crypto, sk: Bytes, nonce: Block, heard: Hello): Hello {
    nonce + heard[..32] + p.pub(sk) + heard[32..64]
  }

  predicate ClientAccepts(p: Crypto, hsPub: Bytes, sk: Bytes, nonce: Block, heard: Hello) {
    p.verify(hsPub, ClientConversation(p, sk, nonce, heard), heard[64..])
  }

  function ClientKey(p: Crypto, sk: Bytes, nonce: Block, heard: Hello): Option<Bytes> {
    SessionKey(p, sk, heard[32..64], ClientConversation(p, sk, nonce, heard))
  }

  lemma Sections(a: Block, b: Block, c: Block, d: Block)
    ensures var conv := a + b + c + d;
            conv[..32] == a && conv[32..64] == b && conv[64..96] == c && conv[96..] == d && conv[..64] == a + b
  {
  }

  /** Undisturbed, the client accepts the server's answer and both ends derive the same key, or both none. */
  lemma HonestHandshake(p: Crypto, hsKey: Bytes, csk: Bytes, cNonce: Block, ssk: Bytes, sNonce: Block, pad: Hello)
    ensures var heardS := Splice(pad, 0, ClientHello(p, csk, cNonce));
            var heardC := ServerHello(p, hsKey, ssk, sNonce, heardS);
            && ClientAccepts(p, p.verKey(hsKey), csk, cNonce, heardC)
            && ClientConversation(p, csk, cNonce, heardC) == ServerConversation(p, ssk, sNonce, heardS)
            && ClientKey(p, csk, cNonce, heardC) == ServerKey(p, ssk, sNonce, heardS)
            && ClientKey(p, csk, cNonce, heardC)
               == match p.derive(csk, p.pub(ssk))
                  case None => None
                  case Some(secret) => Some(p.kdf(secret, cNonce + sNonce))
  {
    var heardS := Splice(pad, 0, ClientHello(p, csk, cNonce));
    assert heardS[..32] == cNonce && heardS[32..64] == p.pub(csk);
    var heardC := ServerHello(p, hsKey, ssk, sNonce, heardS);
    assert heardC[..32] == sNonce && heardC[32..64] == p.pub(ssk);
    assert heardC[64..] == p.sign(hsKey, ServerConversation(p, ssk, sNonce, heardS));
    assert p.derive(csk, p.pub(ssk)) == p.derive(ssk, p.pub(csk));
    Sections(cNonce, sNonce, p.pub(csk), p.pub(ssk));
  }

  // ---------------------------------------------------------------- the two ends in place

  /** The buffer after one recv of at most `max` bytes: a failed recv leaves it as it was. */
  function Heard(buf: Bytes, a: Arrival, max: nat): (r: Bytes)
    requires max <= |buf|
    ensures |r| == |buf|
  {
    if a.Data? then Splice(buf, 0, a.bytes[..Min(|a.bytes|, max)]) else buf
  }

  /** Fills the four sections of a conversation, in the order in which they become known. */
  method Fill(conv: array<byte>, at: nat, first: Block, second: Block)
    requires conv.Length == 128 && (at == 0 || at == 32)
    modifies conv
    ensures conv[at..at + 32] == first && conv[at + 64..at + 96] == second
    ensures conv[32 - at..64 - at] == old(conv[32 - at..64 - at])
    ensures conv[96 - at..128 - at] == old(conv[96 - at..128 - at])
  {
    ghost var c0 := conv[..];
    Memcpy(conv, at, first);
    ghost var c1 := conv[..];
    Memcpy(conv, at + 64, second);
    SpliceHas(c0, at, first);
    SpliceHas(c1, at + 64, second);
    SpliceKeeps(c1, at + 64, second, at, at + 32);
    SpliceKeeps(c0, at, first, 32 - at, 64 - at);
    SpliceKeeps(c1, at + 64, second, 32 - at, 64 - at);
    SpliceKeeps(c0, at, first, 96 - at, 128 - at);
    SpliceKeeps(c1, at + 64, second, 96 - at, 128 - at);
  }

  lemma FourSections(c: Hello)
    ensures c == c[0..32] + c[32..64] + c[64..96] + c[96..128]
  {
  }

  /** Which calls into the library succeed: rebuilding the peer's key, signing, verifying, deriving the session key. */
  datatype Library = Library(rebuilds: bool, signs: bool, verifies: bool, derives: bool)

  class ClientAsym {
    const hsPub: Bytes
    const conn: C.Connection

    constructor (hsPub: Bytes, conn: C.Connection)
      ensures this.hsPub == hsPub && this.conn == conn
    {
      this.hsPub, this.conn := hsPub, conn;
    }

    /** Fills in the ClientHello; a failed generator leaves the nonce bytes as they were. */
    method Greet(p: Crypto, buffer: array<byte>, sk: Bytes, nonce: Option<Block>)
      requires buffer.Length == SERVER_HELLO_SIZE
      modifies buffer
      ensures var own := if nonce.Some? then nonce.value else old(buffer[..32]);
              buffer[..] == own + p.pub(sk) + old(buffer[64..])
    {
      Memcpy(buffer, 32, p.pub(sk));
      if nonce.Some? {
        Memcpy(buffer, 0, nonce.value);
      }
    }

    /** The two hellos: sends one, receives the other over it, and fills the conversation. */
    method Converse(p: Crypto, buffer: array<byte>, conv: array<byte>, sk: Bytes, ghost own: Block,
                    delivered: bool, a: Arrival)
      returns (heard: bool)
      requires buffer.Length == SERVER_HELLO_SIZE && conv.Length == 128 && buffer != conv
      requires buffer[..64] == own + p.pub(sk)
      modifies buffer, conv, conn`sent
      ensures heard == (delivered && a != Closed && a != Data([]))
      ensures conn.sent == old(conn.sent) + if delivered then [ClientHello(p, sk, own)] else []
      ensures heard ==> buffer[..] == Heard(old(buffer[..]), a, SERVER_HELLO_SIZE)
      ensures heard ==> conv[..] == ClientConversation(p, sk, own, buffer[..])
    {
      var cNonce, cKey := buffer[0..32], buffer[32..64];
      assert cNonce == buffer[..64][..32] == own && cKey == buffer[..64][32..] == p.pub(sk);
      var sent := conn.SendMess(buffer, HELLO_SIZE, delivered);
      if sent < 0 {
        return false;
      }
      Fill(conv, 0, cNonce, cKey);
      var received := conn.RecvMess(buffer, SERVER_HELLO_SIZE, a);
      if received == 0 {
        return false;
      }
      Fill(conv, 32, buffer[0..32], buffer[32..64]);
      FourSections(conv[..]);
      heard := true;
    }

    /** What follows the verification of the signature. */
    method Agree(p: Crypto, conv: array<byte>, sk: Bytes, lib: Library) returns (outcome: Status)
      requires conv.Length == 128
      modifies conn`cipher
      ensures var key := SessionKey(p, sk, conv[96..], conv[..]);
              && outcome == (if lib.rebuilds && key.Some? && lib.derives then OK else ERROR)
              && (outcome == OK ==>
                   conn.cipher != null && fresh(conn.cipher) && conn.cipher.View() == Chan(key.value, 0, 0))
              && (outcome != OK ==> conn.cipher == old(conn.cipher))
    {
      if !lib.rebuilds {
        return ERROR;
      }
      assert conv[..][96..] == conv[96..128] == conv[96..];
      var secret := p.derive(sk, conv[96..128]);
      if secret.None? {
        return ERROR;
      }
      if !lib.derives {
        return ERROR;
      }
      assert conv[..][..64] == conv[..64];
      conn.SymCipherInit(p.kdf(secret.value, conv[..64]));
      outcome := OK;
    }

    /**
      `sk` is None when no ephemeral key could be generated or exported. `received == -1` is not tested: whatever then
      lies in the buffer must still carry a valid signature.
    */
    method PerformHandshake(p: Crypto, buffer: array<byte>, sk: Option<Bytes>, nonce: Option<Block>, delivered: bool,
                            a: Arrival, lib: Library)
      returns (outcome: Status)
      requires buffer.Length == SERVER_HELLO_SIZE
      modifies buffer, conn
      ensures sk.None? || !delivered ==>
                outcome == ERROR && conn.sent == old(conn.sent) && conn.cipher == old(conn.cipher)
      ensures sk.Some? && delivered ==>
                var own := if nonce.Some? then nonce.value else old(buffer[..32]);
                var hello := own + p.pub(sk.value);
                var heard := Heard(hello + old(buffer[64..]), a, SERVER_HELLO_SIZE);
                var verified := p.verify(hsPub, own + heard[..32] + p.pub(sk.value) + heard[32..64], heard[64..]);
                var secret := p.derive(sk.value, heard[32..64]);
                && conn.sent == old(conn.sent) + [hello]
                && outcome == (if a == Closed || a == Data([]) || !lib.verifies then ERROR
                               else if !verified then INVALID
                               else if lib.rebuilds && secret.Some? && lib.derives then OK else ERROR)
                && (outcome == OK ==>
                      && conn.cipher != null && fresh(conn.cipher)
                      && conn.cipher.View() == Chan(p.kdf(secret.value, own + heard[..32]), 0, 0))
                && (outcome != OK ==> conn.cipher == old(conn.cipher))
    {
      if sk.None? {
        return ERROR;
      }
      Greet(p, buffer, sk.value, nonce);
      ghost var own: Block := if nonce.Some? then nonce.value else old(buffer[..32]);
      var conv := new byte[128];
      var heard := Converse(p, buffer, conv, sk.value, own, delivered, a);
      if !heard {
        return ERROR;
      }
      if !lib.verifies {
        return ERROR;
      }
      if !p.verify(hsPub, conv[..], buffer[64..]) {
        return INVALID;
      }
      assert conv[96..] == buffer[32..64] && conv[..64] == own + buffer[..32];
      outcome := Agree(p, conv, sk.value, lib);
    }
  }

  class ServerAsym {
    const hsKey: Bytes
    const conn: C.Connection

    constructor (hsKey: Bytes, conn: C.Connection)
      ensures this.hsKey == hsKey && this.conn == conn
    {
      this.hsKey, this.conn := hsKey, conn;
    }

    /** What is sent: when signing fails, the last 64 bytes stay what they were. */
    ghost function Hello(p: Crypto, sk: Bytes, nonce: Block, heard: Hello, signs: bool): Hello {
      if signs then ServerHello(p, hsKey, sk, nonce, heard) else nonce + p.pub(sk) + heard[64..]
    }

    /**
      The nonce and the key go into the buffer and the conversation, then the signature, whose failure is not tested.
    */
    method Answer(p: Crypto, buffer: array<byte>, conv: array<byte>, sk: Bytes, nonce: Block, ghost heard: Hello,
                  signs: bool)
      requires buffer.Length == SERVER_HELLO_SIZE && conv.Length == 128 && buffer != conv
      requires buffer[..] == heard && conv[0..32] == heard[..32] && conv[64..96] == heard[32..64]
      modifies buffer, conv
      ensures conv[..] == ServerConversation(p, sk, nonce, heard)
      ensures buffer[..] == Hello(p, sk, nonce, heard, signs)
    {
      Memcpy(buffer, 0, nonce);
      ghost var b1 := buffer[..];
      Memcpy(buffer, 32, p.pub(sk));
      SpliceHas(heard, 0, nonce);
      SpliceKeeps(b1, 32, p.pub(sk), 0, 32);
      SpliceHas(b1, 32, p.pub(sk));
      Fill(conv, 32, buffer[0..32], buffer[32..64]);
      FourSections(conv[..]);
      assert buffer[..] == nonce + p.pub(sk) + heard[64..];
      if signs {
        Memcpy(buffer, 64, p.sign(hsKey, conv[..]));
      }
    }

    /**
      Neither the signature's result nor that of the send is tested. `sk` is None when no key could be generated or
      exported.
    */
    method PerformHandshake(p: Crypto, buffer: array<byte>, sk: Option<Bytes>, nonce: Option<Block>, a: Arrival,
                            delivered: bool, lib: Library)
      returns (outcome: Status)
      requires buffer.Length == SERVER_HELLO_SIZE
      modifies buffer, conn
      ensures var heard := Heard(old(buffer[..]), a, HELLO_SIZE);
              if !a.Data? || a.bytes == [] || !lib.rebuilds || sk.None? || nonce.None? then
                outcome == ERROR && conn.sent == old(conn.sent) && conn.cipher == old(conn.cipher)
              else
                var said := heard[..32] + nonce.value + heard[32..64] + p.pub(sk.value);
                var tail := if lib.signs then p.sign(hsKey, said) else heard[64..];
                var secret := p.derive(sk.value, heard[32..64]);
                && conn.sent == old(conn.sent) + (if delivered then [nonce.value + p.pub(sk.value) + tail] else [])
                && outcome == (if secret.Some? && lib.derives then OK else ERROR)
                && (outcome == OK ==>
                      && conn.cipher != null && fresh(conn.cipher)
                      && conn.cipher.View() == Chan(p.kdf(secret.value, heard[..32] + nonce.value), 0, 0))
                && (outcome != OK ==> conn.cipher == old(conn.cipher))
    {
      var received := conn.RecvMess(buffer, HELLO_SIZE, a);
      if received == 0 || received < 0 {
        return ERROR;
      }
      ghost var heard := buffer[..];
      var conv := new byte[128];
      var client := buffer[32..64];
      Fill(conv, 0, buffer[0..32], client);
      if !lib.rebuilds {
        return ERROR;
      }
      if sk.None? {
        return ERROR;
      }
      if nonce.None? {
        return ERROR;
      }
      Answer(p, buffer, conv, sk.value, nonce.value, heard, lib.signs);
      assert buffer[..SERVER_HELLO_SIZE] == buffer[..];
      var n := conn.SendMess(buffer, SERVER_HELLO_SIZE, delivered);
      var secret := p.derive(sk.value, client);
      if secret.None? {
        return ERROR;
      }
      Memcpy(buffer, 0, secret.value);
      assert buffer[..32] == secret.value;
      assert conv[..64] == heard[..32] + nonce.value;
      if !lib.derives {
        return ERROR;
      }
      conn.SymCipherInit(p.kdf(buffer[..32], conv[..64]));
      outcome := OK;
    }
  }
}
