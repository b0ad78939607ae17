/**
  The record layer: what one `encSend` puts on the wire and what one `decRecv` makes of one `recv`.
  A record is iv (16) | ciphertext (1..105) | tag (16); the 32-bit sequence counter is associated data.
*/
module Record {
  import opened Base
  import opened Primitives

  /** A cipher's key and its two counters. */
  datatype Chan = Chan(key: Bytes, tx: uint32, rx: uint32)

  /** What the environment decides for one send: the random iv (None when the generator fails) and delivery. */
  datatype Wire = Wire(iv: Option<Iv>, delivered: bool)

  /** What one `recv` meets: pending bytes, an orderly close, or an error. */
  datatype Arrival = Data(bytes: Bytes) | Closed | Fault

  function Seal(p: Crypto, key: Bytes, iv: Iv, n: uint32, msg: Bytes): (r: Bytes)
    ensures |r| == IV_SIZE + |msg| + TAG_SIZE
  {
    var c := p.gctr(key, iv, msg);
    iv + c + p.gmac(key, iv, n, c)
  }

  function Open(p: Crypto, key: Bytes, n: uint32, rec: Bytes): (r: Option<Bytes>)
    ensures r.Some? ==> |rec| == IV_SIZE + |r.value| + TAG_SIZE && |r.value| > 0
  {
    if |rec| < IV_SIZE + 1 + TAG_SIZE then None
    else
      var iv := rec[..IV_SIZE];
      var c := rec[IV_SIZE..|rec| - TAG_SIZE];
      if p.gmac(key, iv, n, c) == rec[|rec| - TAG_SIZE..] then Some(p.gctr(key, iv, c)) else None
  }

  lemma OpenSeal(p: Crypto, key: Bytes, iv: Iv, n: uint32, msg: Bytes)
    requires |msg| > 0
    ensures Open(p, key, n, Seal(p, key, iv, n, msg)) == Some(msg)
  {
    var c := p.gctr(key, iv, msg);
    var tag := p.gmac(key, iv, n, c);
    var rec := Seal(p, key, iv, n, msg);
    assert rec[..IV_SIZE] == iv;
    assert rec[IV_SIZE..|rec| - TAG_SIZE] == c;
    assert rec[|rec| - TAG_SIZE..] == tag;
  }

  /** The converse: a record that opens is the sealing, under its own iv, of exactly what it opens to. */
  lemma SealOpen(p: Crypto, key: Bytes, n: uint32, rec: Bytes)
    requires Open(p, key, n, rec).Some?
    ensures rec == Seal(p, key, rec[..IV_SIZE], n, Open(p, key, n, rec).value)
  {
    var iv := rec[..IV_SIZE];
    var c := rec[IV_SIZE..|rec| - TAG_SIZE];
    var msg := p.gctr(key, iv, c);
    assert p.gctr(key, iv, msg) == c;
    assert rec == iv + c + rec[|rec| - TAG_SIZE..];
  }

  datatype Sent = Sent(ch: Chan, out: seq<Bytes>, ret: int)

  /** `encSend`: the counter moves as soon as the record is sealed, even if the send then fails. */
  function EncSend(p: Crypto, ch: Chan, msg: Bytes, w: Wire): Sent {
    if |msg| == 0 then Sent(ch, [], 0)
    else if |msg| > MAX_PLAINTEXT_SIZE || w.iv.None? then Sent(ch, [], -1)
    else
      var rec := Seal(p, ch.key, w.iv.value, ch.tx, msg);
      var next := ch.(tx := Succ(ch.tx));
      if w.delivered then Sent(next, [rec], |rec|) else Sent(next, [], -1)
  }

  /** `written` is what lands at the start of the caller's buffer; a rejected record leaves its decryption there too. */
  datatype Received = Received(ch: Chan, written: Bytes, ret: int)

  function DecRecv(p: Crypto, ch: Chan, a: Arrival): (r: Received)
    ensures |r.written| <= MAX_PLAINTEXT_SIZE
    ensures r.ret > 0 ==> r.ret == |r.written|
    ensures r.ret <= 0 ==> r.ch == ch
  {
    match a
    case Closed => Received(ch, [], 0)
    case Fault => Received(ch, [], -1)
    case Data(bytes) =>
      var rec := bytes[..Min(|bytes|, MAX_CIPHERTEXT_SIZE)];
      if |rec| == 0 then Received(ch, [], 0)
      else if |rec| < IV_SIZE + 1 + TAG_SIZE then Received(ch, [], -1)
      else
        match Open(p, ch.key, ch.rx, rec)
        case Some(msg) => Received(ch.(rx := Succ(ch.rx)), msg, |msg|)
        case None => Received(ch, p.gctr(ch.key, rec[..IV_SIZE], rec[IV_SIZE..|rec| - TAG_SIZE]), -1)
  }

  /**
    Round trip between two ends whose counters agree: the receiver gets the message and its length and
    the ends' counters agree again.
  */
  lemma DeliveredRecord(p: Crypto, tx: Chan, rx: Chan, msg: Bytes, iv: Iv)
    requires 1 <= |msg| <= MAX_PLAINTEXT_SIZE
    requires tx.key == rx.key && tx.tx == rx.rx
    ensures var s := EncSend(p, tx, msg, Wire(Some(iv), true));
            var c := p.gctr(tx.key, iv, msg);
            var rec := iv + c + p.gmac(tx.key, iv, tx.tx, c);
            && s == Sent(tx.(tx := Succ(tx.tx)), [rec], |msg| + 32)
            && 33 <= |rec| <= MAX_CIPHERTEXT_SIZE
            && DecRecv(p, rx, Data(rec)) == Received(rx.(rx := Succ(rx.rx)), msg, |msg|)
  {
    OpenSeal(p, tx.key, iv, tx.tx, msg);
    var rec := Seal(p, tx.key, iv, tx.tx, msg);
    assert rec[..Min(|rec|, MAX_CIPHERTEXT_SIZE)] == rec;
  }

  /**
    Acceptance decided exactly: a receive yields a message iff the first 137 pending bytes are some iv, the message
    under that iv, and the tag over iv, current counter and ciphertext.
  */
  lemma AcceptedExactly(p: Crypto, ch: Chan, bytes: Bytes, msg: Bytes)
    requires |msg| > 0
    ensures var r := DecRecv(p, ch, Data(bytes));
            var rec := if |bytes| <= 137 then bytes else bytes[..137];
            (r.ret > 0 && r.written == msg) <==>
            exists iv: Iv :: rec == iv + p.gctr(ch.key, iv, msg) + p.gmac(ch.key, iv, ch.rx, p.gctr(ch.key, iv, msg))
  {
    var rec := bytes[..Min(|bytes|, MAX_CIPHERTEXT_SIZE)];
    assert rec == if |bytes| <= 137 then bytes else bytes[..137];
    var r := DecRecv(p, ch, Data(bytes));
    if r.ret > 0 && r.written == msg {
      SealOpen(p, ch.key, ch.rx, rec);
      var iv: Iv := rec[..IV_SIZE];
      assert rec == iv + p.gctr(ch.key, iv, msg) + p.gmac(ch.key, iv, ch.rx, p.gctr(ch.key, iv, msg));
    }
    forall iv: Iv | rec == iv + p.gctr(ch.key, iv, msg) + p.gmac(ch.key, iv, ch.rx, p.gctr(ch.key, iv, msg))
      ensures r.ret > 0 && r.written == msg
    {
      assert rec == Seal(p, ch.key, iv, ch.rx, msg);
      OpenSeal(p, ch.key, iv, ch.rx, msg);
    }
  }

  /** Every receive, by the bytes that were pending: what it returns, what it leaves in the buffer and which counter. */
  lemma ReceivedExactly(p: Crypto, ch: Chan, a: Arrival)
    ensures var r := DecRecv(p, ch, a);
            var rec := if !a.Data? then [] else if |a.bytes| <= 137 then a.bytes else a.bytes[..137];
            var n := |rec| - 32;
            && (r.ret == 0 <==> a == Closed || a == Data([]))
            && (n < 1 ==> r.ret <= 0 && r.written == [])
            && (n >= 1 ==>
                  && r.written == p.gctr(ch.key, rec[..16], rec[16..16 + n])
                  && r.ret == if p.gmac(ch.key, rec[..16], ch.rx, rec[16..16 + n]) == rec[16 + n..] then n else -1)
            && r.ch == if r.ret > 0 then Chan(ch.key, ch.tx, (ch.rx + 1) % 0x1_0000_0000) else ch
  {
    if a.Data? {
      var rec := a.bytes[..Min(|a.bytes|, MAX_CIPHERTEXT_SIZE)];
      assert rec == if |a.bytes| <= 137 then a.bytes else a.bytes[..137];
      if |rec| > 32 {
        var n := |rec| - 32;
        assert rec[IV_SIZE..|rec| - TAG_SIZE] == rec[16..16 + n] && rec[|rec| - TAG_SIZE..] == rec[16 + n..];
      }
    }
  }

  /** Every send: the counter moves iff a record was sealed, delivered or not. */
  lemma SentExactly(p: Crypto, ch: Chan, msg: Bytes, w: Wire)
    ensures var s := EncSend(p, ch, msg, w);
            var sealed := 1 <= |msg| <= 105 && w.iv.Some?;
            && s.ch == (if sealed then Chan(ch.key, (ch.tx + 1) % 0x1_0000_0000, ch.rx) else ch)
            && s.ret == (if msg == [] then 0 else if sealed && w.delivered then |msg| + 32 else -1)
            && (sealed && w.delivered ==>
                  var c := p.gctr(ch.key, w.iv.value, msg);
                  s.out == [w.iv.value + c + p.gmac(ch.key, w.iv.value, ch.tx, c)])
            && (!sealed || !w.delivered ==> s.out == [])
  {
  }
}
