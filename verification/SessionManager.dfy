/** The client session as it runs: requests, replies and the verification hash all lie over one 105-byte buffer. */
module SessionManager {
  import opened Base
  import opened Primitives
  import opened Record
  import opened SignatureStore
  import C = Connection
  import Server
  import opened Client

  /** What one recv meets carries at most a one-byte message. */
  predicate FitsOneByte(a: Arrival) {
    a.Data? ==> Min(|a.bytes|, MAX_CIPHERTEXT_SIZE) <= IV_SIZE + 1 + TAG_SIZE
  }

  class SessionManager {
    const signPub: Bytes
    const conn: C.Connection
    const buffer: array<byte>
    var store: Option<Bytes>  // the signature file, None while it does not exist

    constructor (signPub: Bytes, conn: C.Connection, store: Option<Bytes>)
      ensures this.signPub == signPub && this.conn == conn && this.store == store
      ensures fresh(buffer) && buffer.Length == MAX_PLAINTEXT_SIZE
    {
      this.signPub, this.conn, this.store := signPub, conn, store;
      buffer := new byte[MAX_PLAINTEXT_SIZE];
    }

    ghost predicate Ready()
      reads this, conn
    {
      conn.cipher != null && buffer.Length == MAX_PLAINTEXT_SIZE
    }

    ghost function View(): ClientState
      requires Ready()
      reads this, buffer, conn, conn.cipher
    {
      ClientState(conn.cipher.View(), buffer[..], store)
    }

    /** The outcome is received into a single byte. */
    method RecvOutcome(p: Crypto, a: Arrival) returns (outcome: Status)
      requires Ready()
      requires FitsOneByte(a)
      modifies conn.cipher
      ensures conn.cipher == old(conn.cipher) && Ready()
      ensures (View(), outcome) == Client.RecvOutcome(p, old(View()), a)
    {
      var raw := new byte[1];
      var ret := conn.DecRecv(p, raw, a);
      outcome := if ret > 0 then OutcomeOf(raw[0]) else ERROR;
    }

    /** One pair of lines: send both strings with their terminators, wait for the outcome; None when the send failed. */
    method LoginRound(p: Crypto, at: Attempt) returns (outcome: Option<Status>)
      requires Ready()
      requires FitsOneByte(at.reply)
      modifies conn`sent, conn.cipher
      ensures conn.cipher == old(conn.cipher) && Ready()
      ensures var r := Client.LoginRound(p, old(View()), at);
              View() == r.c && outcome == r.outcome && conn.sent == old(conn.sent) + r.out
    {
      var credentials := new byte[|at.name| + 1 + |at.psw| + 1];
      Memcpy(credentials, 0, at.name + [0]);
      Memcpy(credentials, |at.name| + 1, at.psw + [0]);
      assert credentials[..credentials.Length] == Server.Encode(at.name, at.psw);
      var sent := conn.EncSend(p, credentials, credentials.Length, at.w);
      if sent < 0 {
        return None;
      }
      var st := RecvOutcome(p, at.reply);
      outcome := Some(st);
    }

    /** `login`: asks until the outcome is not INVALID; None when `ats` ran out first. */
    method Login(p: Crypto, ats: seq<Attempt>) returns (outcome: Option<Status>)
      requires Ready()
      requires forall at :: at in ats ==> FitsOneByte(at.reply)
      modifies conn`sent, conn.cipher
      ensures conn.cipher == old(conn.cipher) && Ready()
      ensures var r := Client.Login(p, old(View()), ats);
              View() == r.c && outcome == r.outcome && conn.sent == old(conn.sent) + r.out
    {
      hide Client.LoginRound;
      var i := 0;
      ghost var c := View();
      ghost var out: seq<Bytes> := [];
      assert ats[0..] == ats;
      ghost var all := Client.Login(p, c, ats);
      assert all == After(out, all);
      while i < |ats|
        invariant 0 <= i <= |ats|
        invariant conn.cipher == old(conn.cipher) && Ready() && View() == c
        invariant conn.sent == old(conn.sent) + out
        invariant all == After(out, Client.Login(p, c, ats[i..]))
      {
        LoginOn(p, c, ats, i, out);
        ghost var r := Client.LoginRound(p, c, ats[i]);
        outcome := LoginRound(p, ats[i]);
        c, out := r.c, out + r.out;
        if outcome != None && outcome != Some(INVALID) {
          return;
        }
        i := i + 1;
      }
      assert ats[i..] == [];
      outcome := None;
    }

    /** `balance`: the request is one byte, the reply is decoded in place. */
    method Balance(p: Crypto, w: Wire, a: Arrival) returns (outcome: Status, shown: Option<(uint32, uint32)>)
      requires Ready()
      modifies buffer, conn`sent, conn.cipher
      ensures conn.cipher == old(conn.cipher) && Ready()
      ensures var s := EncSend(p, old(View()).ch, [BALANCE], w);
              && conn.sent == old(conn.sent) + s.out
              && if s.ret <= 0 then outcome == ERROR && shown == None && View() == old(View()).(ch := s.ch)
                 else (View(), outcome, shown) == BalanceReply(p, old(View()).(ch := s.ch), a)
    {
      var raw := new byte[1];
      raw[0] := BALANCE;
      assert raw[..1] == [BALANCE];
      var ret := conn.EncSend(p, raw, 1, w);
      if ret <= 0 {
        return ERROR, None;
      }
      var n := conn.DecRecv(p, buffer, a);
      if n < 0 {
        return ERROR, None;
      }
      if buffer[0] == Code(ERROR) {
        return ERROR, None;
      }
      outcome, shown := OK, Some((ReadLe32(buffer[1..5]), ReadLe32(buffer[5..9])));
    }

    method StoreSignature(signature: array<byte>, d: Disk) returns (outcome: Status)
      requires signature.Length == RECORD
      modifies `store
      ensures (store, outcome) == Store(old(store), signature[..], d)
    {
      if !d.opens {
        return ERROR;
      }
      var file := Contents(store);
      var written := Min(RECORD, d.room);
      file := file + signature[..written];
      assert signature[..RECORD] == signature[..];
      store := Some(file);
      if written < RECORD {
        return ERROR;
      }
      if d.room - written < 1 {
        return ERROR;
      }
      store := Some(file + [NEWLINE]);
      outcome := OK;
    }

    /** The three sections of a record, copied one by one. */
    static method Assemble(hash: Block, stamp: Stamp, sig: Bytes) returns (record: array<byte>)
      requires |sig| == SIGNATURE_SIZE
      ensures fresh(record) && record.Length == RECORD
      ensures record[..] == hash + stamp + sig && record[..40] == hash + stamp && record[40..] == sig
    {
      record := new byte[RECORD];
      Memcpy(record, 0, hash);
      Memcpy(record, 32, stamp);
      Memcpy(record, 40, sig);
    }

    /** `timestamp`: the document's own hash, kept aside, is what the signature is checked against and stored with. */
    method Timestamp(p: Crypto, hash: Block, w: Wire, a: Arrival, d: Disk) returns (outcome: Status)
      requires Ready()
      modifies this, buffer, conn`sent, conn.cipher
      ensures conn.cipher == old(conn.cipher) && Ready()
      ensures var c := WithRequest(old(View()), hash);
              var s := EncSend(p, c.ch, [SIGN] + hash, w);
              && conn.sent == old(conn.sent) + s.out
              && if s.ret < 0 then outcome == ERROR && View() == c.(ch := s.ch)
                 else (View(), outcome) == SignReply(p, signPub, c.(ch := s.ch), hash, a, d)
    {
      ghost var b0 := buffer[..];
      Memcpy(buffer, 1, hash);
      buffer[0] := SIGN;
      assert buffer[..] == Splice(b0, 0, [SIGN] + hash);
      assert buffer[..33] == [SIGN] + hash;
      var sent := conn.EncSend(p, buffer, 33, w);
      if sent < 0 {
        return ERROR;
      }
      var n := conn.DecRecv(p, buffer, a);
      if n < 0 {
        return ERROR;
      }
      if n == 0 {
        return ERROR;
      }
      outcome := OutcomeOf(buffer[0]);
      if outcome == INVALID {
        return;
      }
      if outcome == ERROR {
        return;
      }
      ghost var b := buffer[..];
      var record := Assemble(hash, buffer[33..41], buffer[41..105]);
      assert b[41..105] == b[41..];
      if p.verify(signPub, record[..40], record[40..]) {
        outcome := StoreSignature(record, d);
      } else {
        outcome := INVALID;
      }
    }

    /** `verify`: the document's hash goes to the start of the buffer; the verdict is that of the last record found. */
    method Verify(p: Crypto, hash: Block) returns (outcome: Status)
      requires buffer.Length == MAX_PLAINTEXT_SIZE
      modifies buffer
      ensures buffer[..] == Splice(old(buffer[..]), 0, hash)
      ensures outcome == Client.Verify(p, signPub, store, hash)
      ensures var es := if store.None? then [] else Search(store.value, hash);
              var signed := es != [] && p.verify(signPub, es[|es| - 1][..40], es[|es| - 1][40..]);
              outcome == if store.None? then ERROR else if signed then OK else INVALID
    {
      Memcpy(buffer, 0, hash);
      assert buffer[..HASH_SIZE] == hash;
      if store.None? {
        return ERROR;
      }
      var docs := SearchSignature(store.value, buffer);
      if docs == [] {
        return INVALID;
      }
      outcome := INVALID;
      var i := 0;
      while i < |docs|
        invariant 0 <= i <= |docs|
        invariant i > 0 ==> outcome == VerifyAll(p, signPub, docs[..i])
      {
        outcome := if p.verify(signPub, docs[i][..40], docs[i][40..]) then OK else INVALID;
        i := i + 1;
        assert docs[..i][|docs[..i]| - 1] == docs[i - 1];
      }
      assert docs[..i] == docs;
    }
  }
}
