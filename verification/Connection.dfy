/** The stateful cipher and the two record operations over fixed buffers. */
module Connection {
  import opened Base
  import opened Primitives
  import opened Record

  class CryptoSym {
    const key: Bytes
    var tx: uint32
    var rx: uint32

    constructor (key: Bytes)
      ensures this.key == key && tx == 0 && rx == 0
    {
      this.key := key;
      tx, rx := 0, 0;
    }

    function View(): Chan
      reads this
    {
      Chan(key, tx, rx)
    }

    /** iv, ciphertext and tag are three regions of one output array. */
    method Encrypt(p: Crypto, plain: array<byte>, len: nat, out: array<byte>, ivAt: nat, ctAt: nat, tagAt: nat)
      requires plain != out && len <= plain.Length
      requires ivAt + IV_SIZE <= ctAt && ctAt + len <= tagAt && tagAt + TAG_SIZE <= out.Length
      modifies `tx, out
      ensures tx == Succ(old(tx))
      ensures var iv := old(out[ivAt..ivAt + IV_SIZE]);
              var c := p.gctr(key, iv, plain[..len]);
              out[..] == Splice(Splice(old(out[..]), ctAt, c), tagAt, p.gmac(key, iv, old(tx), c))
    {
      var iv := out[ivAt..ivAt + IV_SIZE];
      var c := p.gctr(key, iv, plain[..len]);
      Memcpy(out, ctAt, c);
      Memcpy(out, tagAt, p.gmac(key, iv, tx, c));
      tx := Succ(tx);
    }

    /** The plaintext is written before the tag is compared; only a matching tag moves the counter. */
    method Decrypt(p: Crypto, rec: array<byte>, ivAt: nat, ctAt: nat, len: nat, tagAt: nat, out: array<byte>)
      returns (outcome: Status)
      requires rec != out && len <= out.Length
      requires ivAt + IV_SIZE <= rec.Length && ctAt + len <= rec.Length && tagAt + TAG_SIZE <= rec.Length
      modifies `rx, out
      ensures var iv := rec[ivAt..ivAt + IV_SIZE];
              var c := rec[ctAt..ctAt + len];
              && out[..] == Splice(old(out[..]), 0, p.gctr(key, iv, c))
              && (outcome == OK <==> p.gmac(key, iv, old(rx), c) == rec[tagAt..tagAt + TAG_SIZE])
              && (outcome == OK || outcome == ERROR)
              && rx == if outcome == OK then Succ(old(rx)) else old(rx)
    {
      var iv := rec[ivAt..ivAt + IV_SIZE];
      var c := rec[ctAt..ctAt + len];
      Memcpy(out, 0, p.gctr(key, iv, c));
      if p.gmac(key, iv, rx, c) == rec[tagAt..tagAt + TAG_SIZE] {
        rx := Succ(rx);
        return OK;
      }
      outcome := ERROR;
    }
  }

  class Connection {
    var cipher: CryptoSym?
    var sent: seq<Bytes>  // what each successful send gave to the stream, oldest first

    constructor ()
      ensures cipher == null && sent == []
    {
      cipher, sent := null, [];
    }

    method SymCipherInit(key: Bytes)
      modifies `cipher
      ensures cipher != null && fresh(cipher) && cipher.View() == Chan(key, 0, 0)
    {
      cipher := new CryptoSym(key);
    }

    method SendMess(buf: array<byte>, len: nat, delivered: bool) returns (n: int)
      requires len <= buf.Length
      modifies `sent
      ensures n == if delivered then len else -1
      ensures sent == if delivered then old(sent) + [buf[..len]] else old(sent)
    {
      if !delivered {
        return -1;
      }
      sent := sent + [buf[..len]];
      n := len;
    }

    method RecvMess(buf: array<byte>, len: nat, a: Arrival) returns (n: int)
      requires len <= buf.Length
      modifies buf
      ensures match a
              case Closed => n == 0 && buf[..] == old(buf[..])
              case Fault => n == -1 && buf[..] == old(buf[..])
              case Data(bytes) =>
                && n == Min(|bytes|, len)
                && buf[..] == Splice(old(buf[..]), 0, bytes[..Min(|bytes|, len)])
    {
      match a
      case Closed => n := 0;
      case Fault => n := -1;
      case Data(bytes) =>
        n := Min(|bytes|, len);
        Memcpy(buf, 0, bytes[..n]);
    }

    method EncSend(p: Crypto, mess: array<byte>, len: int, w: Wire) returns (n: int)
      requires len <= mess.Length
      modifies `sent, cipher
      ensures cipher == old(cipher)
      ensures cipher == null || len < 0 ==> n == -1 && sent == old(sent)
      ensures cipher != null && len < 0 ==> cipher.View() == old(cipher.View())
      ensures cipher != null && len >= 0 ==>
                var s := Record.EncSend(p, old(cipher.View()), mess[..len], w);
                n == s.ret && cipher.View() == s.ch && sent == old(sent) + s.out
    {
      if cipher == null {
        return -1;
      }
      if len == 0 {
        return 0;
      }
      if len > MAX_PLAINTEXT_SIZE || len < 0 {
        return -1;
      }
      var payload := new byte[MAX_CIPHERTEXT_SIZE];
      if w.iv.None? {
        return -1;
      }
      Memcpy(payload, 0, w.iv.value);
      assert payload[..IV_SIZE] == w.iv.value;
      cipher.Encrypt(p, mess, len, payload, 0, IV_SIZE, IV_SIZE + len);
      assert payload[..IV_SIZE + len + TAG_SIZE] == Seal(p, cipher.key, w.iv.value, old(cipher.tx), mess[..len]);
      n := SendMess(payload, IV_SIZE + len + TAG_SIZE, w.delivered);
    }

    /** The caller's buffer must hold the payload: the source passes no length. */
    method DecRecv(p: Crypto, buffer: array<byte>, a: Arrival) returns (n: int)
      requires a.Data? ==> Min(|a.bytes|, MAX_CIPHERTEXT_SIZE) <= IV_SIZE + buffer.Length + TAG_SIZE
      modifies cipher, buffer
      ensures cipher == null ==> n == -1 && buffer[..] == old(buffer[..])
      ensures cipher != null ==>
                var r := Record.DecRecv(p, old(cipher.View()), a);
                && n == r.ret && cipher.View() == r.ch
                && |r.written| <= buffer.Length && buffer[..] == Splice(old(buffer[..]), 0, r.written)
    {
      if cipher == null {
        return -1;
      }
      var recv := new byte[MAX_CIPHERTEXT_SIZE];
      var got := RecvMess(recv, MAX_CIPHERTEXT_SIZE, a);
      if got == 0 {
        return 0;
      }
      if got == -1 {
        return -1;
      }
      var len := got - IV_SIZE - TAG_SIZE;
      if len < 1 {
        return -1;
      }
      ghost var rec := a.bytes[..got];
      assert recv[..IV_SIZE] == rec[..IV_SIZE];
      assert recv[IV_SIZE..IV_SIZE + len] == rec[IV_SIZE..got - TAG_SIZE];
      assert recv[IV_SIZE + len..IV_SIZE + len + TAG_SIZE] == rec[got - TAG_SIZE..];
      var outcome := cipher.Decrypt(p, recv, 0, IV_SIZE, len, IV_SIZE + len, buffer);
      if outcome == ERROR {
        return -1;
      }
      n := len;
    }
  }
}
