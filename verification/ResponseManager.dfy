/** The server's request handling and worker loop as it runs: one buffer rewritten in place through several views. */
module ResponseManager {
  import opened Base
  import opened Primitives
  import opened Record
  import C = Connection
  import U = Users
  import opened Server

  class ResponseManager {
    const signKey: Bytes
    const uinfo: U.UserInfoManager
    const conn: C.Connection
    const buffer: array<byte>
    var username: Bytes
    var clientId: int

    constructor (signKey: Bytes, uinfo: U.UserInfoManager, conn: C.Connection)
      ensures this.signKey == signKey && this.uinfo == uinfo && this.conn == conn
      ensures fresh(buffer) && buffer.Length == MAX_PLAINTEXT_SIZE
      ensures username == [] && clientId == -1
    {
      this.signKey, this.uinfo, this.conn := signKey, uinfo, conn;
      buffer := new byte[MAX_PLAINTEXT_SIZE];
      username, clientId := [], -1;
    }

    /** The handshake has succeeded, so the cipher exists. */
    ghost predicate Ready()
      reads this, conn
    {
      conn.cipher != null && buffer.Length == MAX_PLAINTEXT_SIZE
    }

    ghost function View(): ServerState
      requires Ready()
      reads this, buffer, conn, conn.cipher
    {
      ServerState(conn.cipher.View(), buffer[..], username, clientId)
    }

    method SendStatus(p: Crypto, st: Status, w: Wire) returns (outcome: Status)
      requires Ready()
      modifies conn`sent, conn.cipher
      ensures conn.cipher == old(conn.cipher) && Ready()
      ensures var r := Server.SendStatus(p, old(View()), st, w);
              View() == r.s && outcome == r.status && conn.sent == old(conn.sent) + r.out
    {
      var raw := new byte[1];
      raw[0] := Code(st);
      assert raw[..1] == [Code(st)];
      var ret := conn.EncSend(p, raw, 1, w);
      outcome := if ret > 0 then OK else ERROR;
    }

    method ClearBuffer()
      requires buffer.Length == MAX_PLAINTEXT_SIZE
      modifies buffer
      ensures buffer[..] == seq(MAX_PLAINTEXT_SIZE, _ => 0)
    {
      forall k | 0 <= k < buffer.Length {
        buffer[k] := 0;
      }
    }

    method AuthenticationAttempt(p: Crypto, a: Arrival) returns (outcome: Status)
      requires Ready() && U.WellStored(uinfo.users)
      modifies this, buffer, conn.cipher
      ensures conn.cipher == old(conn.cipher) && Ready()
      ensures (View(), outcome) == Server.AuthenticationAttempt(p, uinfo.users, old(View()), a)
    {
      var n := conn.DecRecv(p, buffer, a);
      if n <= 0 {
        return ERROR;
      }
      var text := buffer[..];
      var len := Strnlen(text, 0, MAX_USERNAME_LEN - 1);
      if !ValidString(text, 0, MAX_USERNAME_LEN) {
        return INVALID;
      }
      var pos := len + 1;
      if !ValidString(text, pos, MAX_PWD_LEN) {
        return INVALID;
      }
      var name := text[..len];
      var psw := text[pos..pos + Strnlen(text, pos, MAX_PWD_LEN - 1)];
      assert Parse(text) == Some((name, psw));
      outcome := Admit(p, name, psw);
    }

    /** The parsed pair against the list: who matches becomes the session's user. */
    method Admit(p: Crypto, name: Bytes, psw: Bytes) returns (outcome: Status)
      requires buffer.Length == MAX_PLAINTEXT_SIZE && U.WellStored(uinfo.users)
      modifies this, buffer
      ensures outcome == if U.Check(p, uinfo.users, name, psw) then OK else INVALID
      ensures outcome == OK ==>
                && username == name && clientId == U.FirstIndex(uinfo.users, name)
                && buffer[..] == seq(MAX_PLAINTEXT_SIZE, _ => 0)
      ensures outcome != OK ==>
                username == old(username) && clientId == old(clientId) && buffer[..] == old(buffer[..])
    {
      var valid := uinfo.CheckCredentials(p, name, psw);
      if !valid {
        return INVALID;
      }
      username := name;
      clientId := uinfo.FindUser(name);
      ClearBuffer();
      outcome := OK;
    }

    method SendBalance(p: Crypto, w: Wire) returns (outcome: Status)
      requires Ready() && 0 <= clientId < |uinfo.users|
      modifies buffer, conn`sent, conn.cipher
      ensures conn.cipher == old(conn.cipher) && Ready()
      ensures var r := Server.SendBalance(p, uinfo.users, old(View()), w);
              View() == r.s && outcome == r.status && conn.sent == old(conn.sent) + r.out
    {
      var u := uinfo.users[clientId];
      ghost var b0 := buffer[..];
      buffer[0] := Code(OK);
      Memcpy(buffer, 1, Le32(u.remaining) + Le32(u.consumed));
      assert buffer[..] == Splice(b0, 0, BalanceMess(u));
      var ret := conn.EncSend(p, buffer, 9, w);
      outcome := if ret != IV_SIZE + 9 + TAG_SIZE then ERROR else OK;
    }

    /**
      Every view of the response lies over the request: the hash is read out before anything is written, the signature
      goes in first, then hash and timestamp, and the status byte last.
    */
    method FillResponse(p: Crypto, stamp: Stamp)
      requires buffer.Length == MAX_PLAINTEXT_SIZE
      modifies buffer
      ensures buffer[..] == SignedMess(p, signKey, old(buffer[1..33]), stamp)
    {
      ghost var h := buffer[1..33];
      var toSign := new byte[HASH_SIZE + TS_SIZE];
      Memcpy(toSign, 0, buffer[1..33]);
      Memcpy(toSign, HASH_SIZE, stamp);
      assert toSign[..] == h + stamp;
      Memcpy(buffer, 41, p.sign(signKey, toSign[..]));
      Memcpy(buffer, 1, toSign[..]);
      buffer[0] := Code(OK);
    }

    method SignDoc(p: Crypto, e: Env) returns (outcome: Status)
      requires Ready()
      modifies buffer, conn`sent, conn.cipher, uinfo
      ensures conn.cipher == old(conn.cipher) && Ready()
      ensures var (after, r) := Server.SignDoc(p, signKey, old(uinfo.users), old(View()), e);
              && uinfo.users == after
              && uinfo.file == (if U.Consume(old(uinfo.users), clientId).0 == OK then after else old(uinfo.file))
              && View() == r.s && outcome == r.status && conn.sent == old(conn.sent) + r.out
    {
      var consumed := uinfo.ConsumeTimestamp(clientId);
      if consumed != OK {
        var _ := SendStatus(p, consumed, e.first);
        return if consumed == INVALID then OK else ERROR;
      }
      if !e.signs {
        var _ := SendStatus(p, ERROR, e.first);
        return ERROR;
      }
      FillResponse(p, e.stamp);
      var ret := conn.EncSend(p, buffer, MAX_PLAINTEXT_SIZE, e.first);
      assert buffer[..MAX_PLAINTEXT_SIZE] == buffer[..];
      outcome := if ret < IV_SIZE + MAX_PLAINTEXT_SIZE + TAG_SIZE then ERROR else OK;
    }

    method ManageRequests(p: Crypto, e: Env) returns (outcome: Status)
      requires Ready() && 0 <= clientId < |uinfo.users|
      modifies buffer, conn`sent, conn.cipher, uinfo
      ensures conn.cipher == old(conn.cipher) && Ready()
      ensures var (after, r) := Server.ManageRequests(p, signKey, old(uinfo.users), old(View()), e);
              uinfo.users == after && View() == r.s && outcome == r.status && conn.sent == old(conn.sent) + r.out
      ensures uinfo.file == if uinfo.users != old(uinfo.users) then uinfo.users else old(uinfo.file)
    {
      var n := conn.DecRecv(p, buffer, e.arrival);
      if n <= 0 {
        return ERROR;
      }
      if buffer[0] == BALANCE {
        outcome := SendBalance(p, e.first);
      } else if buffer[0] == SIGN {
        outcome := SignDoc(p, e);
      } else {
        outcome := ERROR;
      }
    }
  }
}
