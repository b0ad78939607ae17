/**
  The client's side of one connection after its handshake, on values: what each command sends and what it makes of the
  reply.
*/
module Client {
  import opened Base
  import opened Primitives
  import opened Record
  import opened SignatureStore
  import Server

  /** What `fgets` into 30 bytes leaves once the line end is cut off. */
  type Line = b: Bytes | |b| <= 28 && (forall k :: 0 <= k < |b| ==> b[k] != 0) witness []

  datatype ClientState = ClientState(ch: Chan, buffer: Buffer, store: Option<Bytes>)

  function OutcomeOf(b: byte): Status {
    if b == Code(INVALID) then INVALID else if b == Code(ERROR) then ERROR else OK
  }

  function RecvOutcome(p: Crypto, c: ClientState, a: Arrival): (ClientState, Status) {
    var r := DecRecv(p, c.ch, a);
    (c.(ch := r.ch), if r.ret > 0 then OutcomeOf(r.written[0]) else ERROR)
  }

  datatype Attempt = Attempt(name: Line, psw: Line, w: Wire, reply: Arrival)

  datatype LoginResult = LoginResult(c: ClientState, out: seq<Bytes>, outcome: Option<Status>)

  /** One round of the login loop; no outcome when the send failed. */
  function LoginRound(p: Crypto, c: ClientState, at: Attempt): LoginResult {
    var s := EncSend(p, c.ch, Server.Encode(at.name, at.psw), at.w);
    if s.ret < 0 then LoginResult(c.(ch := s.ch), s.out, None)
    else
      var (c1, st) := RecvOutcome(p, c.(ch := s.ch), at.reply);
      LoginResult(c1, s.out, Some(st))
  }

  /** The login loop over the lines typed so far: a failed send or INVALID asks again. */
  function Login(p: Crypto, c: ClientState, ats: seq<Attempt>): LoginResult
    decreases |ats|
  {
    if ats == [] then LoginResult(c, [], None)
    else
      var r := LoginRound(p, c, ats[0]);
      if AsksAgain(r) then After(r.out, Login(p, r.c, ats[1..])) else r
  }

  function After(out: seq<Bytes>, r: LoginResult): LoginResult {
    r.(out := out + r.out)
  }

  predicate AsksAgain(r: LoginResult) {
    r.outcome == None || r.outcome == Some(INVALID)
  }

  lemma LoginOn(p: Crypto, c: ClientState, ats: seq<Attempt>, i: nat, out: seq<Bytes>)
    requires i < |ats|
    ensures var r := LoginRound(p, c, ats[i]);
            After(out, Login(p, c, ats[i..]))
            == if AsksAgain(r) then After(out + r.out, Login(p, r.c, ats[i + 1..])) else After(out, r)
  {
    assert ats[i..][0] == ats[i] && ats[i..][1..] == ats[i + 1..];
    var r := LoginRound(p, c, ats[i]);
    assert out + (r.out + Login(p, r.c, ats[i + 1..]).out) == (out + r.out) + Login(p, r.c, ats[i + 1..]).out;
  }

  /** The client's state after `i` rounds, and what they sent. */
  function AfterRounds(p: Crypto, c: ClientState, ats: seq<Attempt>, i: nat): (r: LoginResult)
    requires i <= |ats|
  {
    if i == 0 then LoginResult(c, [], None)
    else
      var before := AfterRounds(p, c, ats, i - 1);
      After(before.out, LoginRound(p, before.c, ats[i - 1]))
  }

  /** The i-th round was answered with something other than INVALID. */
  predicate Decides(p: Crypto, c: ClientState, ats: seq<Attempt>, i: nat)
    requires i < |ats|
  {
    var st := LoginRound(p, AfterRounds(p, c, ats, i).c, ats[i]).outcome;
    st == Some(OK) || st == Some(ERROR)
  }

  lemma {:induction false} LoginFrom(p: Crypto, c: ClientState, ats: seq<Attempt>, i: nat)
    requires i <= |ats| && forall k :: 0 <= k < i ==> !Decides(p, c, ats, k)
    ensures var r := AfterRounds(p, c, ats, i);
            Login(p, c, ats) == After(r.out, Login(p, r.c, ats[i..]))
    decreases i
  {
    if i == 0 {
      assert ats[0..] == ats;
    } else {
      LoginFrom(p, c, ats, i - 1);
      var r := AfterRounds(p, c, ats, i - 1);
      assert !Decides(p, c, ats, i - 1);
      LoginOn(p, r.c, ats, i - 1, r.out);
    }
  }

  /**
    The whole login: the first round that is sent and answered with anything but INVALID decides it, and nothing is
    sent after that; while there is none, the client has sent every pair and is still asking.
  */
  lemma FirstDecisionCounts(p: Crypto, c: ClientState, ats: seq<Attempt>, i: nat)
    requires i <= |ats| && forall k :: 0 <= k < i ==> !Decides(p, c, ats, k)
    ensures i < |ats| && Decides(p, c, ats, i) ==> Login(p, c, ats) == AfterRounds(p, c, ats, i + 1)
    ensures i == |ats| ==> Login(p, c, ats) == AfterRounds(p, c, ats, i).(outcome := None)
  {
    LoginFrom(p, c, ats, i);
    var r := AfterRounds(p, c, ats, i);
    if i < |ats| {
      LoginOn(p, r.c, ats, i, r.out);
    } else {
      assert ats[i..] == [] && r.out + [] == r.out;
    }
  }

  /** One round: both strings with their terminators as one record; nothing is waited for when the send fails. */
  lemma LoginRoundIs(p: Crypto, c: ClientState, at: Attempt)
    ensures var s := EncSend(p, c.ch, at.name + [0] + at.psw + [0], at.w);
            var d := DecRecv(p, s.ch, at.reply);
            LoginRound(p, c, at)
            == if s.ret < 0 then LoginResult(c.(ch := s.ch), s.out, None)
               else LoginResult(c.(ch := d.ch), s.out,
                                Some(if d.ret <= 0 || d.written[0] == 1 then ERROR
                                     else if d.written[0] == 2 then INVALID else OK))
  {
  }

  function BalanceReply(p: Crypto, c: ClientState, a: Arrival): (ClientState, Status, Option<(uint32, uint32)>) {
    var r := DecRecv(p, c.ch, a);
    var c1 := c.(ch := r.ch, buffer := Splice(c.buffer, 0, r.written));
    if r.ret < 0 || c1.buffer[0] == Code(ERROR) then (c1, ERROR, None)
    else (c1, OK, Some((ReadLe32(c1.buffer[1..5]), ReadLe32(c1.buffer[5..9]))))
  }

  /** The 33 bytes of a sign request lie at the start of the shared buffer. */
  function WithRequest(c: ClientState, hash: Block): ClientState {
    c.(buffer := Splice(c.buffer, 0, [SIGN] + hash))
  }

  lemma WithRequestIs(c: ClientState, hash: Block)
    ensures WithRequest(c, hash) == c.(buffer := [1] + hash + c.buffer[33..])
  {
  }

  function SignReply(p: Crypto, signPub: Bytes, c: ClientState, hash: Block, a: Arrival, d: Disk)
    : (ClientState, Status) {
    var r := DecRecv(p, c.ch, a);
    var c1 := c.(ch := r.ch, buffer := Splice(c.buffer, 0, r.written));
    if r.ret <= 0 then (c1, ERROR)
    else if OutcomeOf(c1.buffer[0]) != OK then (c1, OutcomeOf(c1.buffer[0]))
    else
      var stamp, sig := c1.buffer[33..41], c1.buffer[41..];
      if p.verify(signPub, hash + stamp, sig) then
        var (file, st) := Store(c.store, hash + stamp + sig, d);
        (c1.(store := file), st)
      else (c1, INVALID)
  }

  predicate Verifies(p: Crypto, signPub: Bytes, e: Entry) {
    p.verify(signPub, e[..40], e[40..])
  }

  /** `verify` reports the outcome of the last record it looked at. */
  function VerifyAll(p: Crypto, signPub: Bytes, es: seq<Entry>): Status
    requires es != []
  {
    if Verifies(p, signPub, es[|es| - 1]) then OK else INVALID
  }

  function Verify(p: Crypto, signPub: Bytes, store: Option<Bytes>, hash: Block): Status {
    if store.None? then ERROR
    else
      var es := Search(store.value, hash);
      if es == [] then INVALID else VerifyAll(p, signPub, es)
  }

  /**
    What verify answers, for every file whatever it holds: ERROR iff there is none, OK iff a record of that hash is
    found and the last one's 64 bytes are a signature of the 40 before them, INVALID otherwise.
  */
  lemma VerifyIs(p: Crypto, signPub: Bytes, store: Option<Bytes>, hash: Block)
    ensures var es := if store.None? then [] else Search(store.value, hash);
            var signed := es != [] && p.verify(signPub, es[|es| - 1][..40], es[|es| - 1][40..]);
            Verify(p, signPub, store, hash) == if store.None? then ERROR else if signed then OK else INVALID
  {
  }

  // ---------------------------------------------------------------- replies, byte by byte

  /** A login reply: nothing received or the byte 1 is ERROR, the byte 2 INVALID, anything else OK. */
  lemma LoginReplyIs(p: Crypto, c: ClientState, a: Arrival)
    ensures var r := DecRecv(p, c.ch, a);
            RecvOutcome(p, c, a)
            == (c.(ch := r.ch),
                if r.ret <= 0 || r.written[0] == 1 then ERROR else if r.written[0] == 2 then INVALID else OK)
  {
  }

  /**
    A balance reply: ERROR iff the receive failed or the first byte is then 1; otherwise two little-endian numbers are
    shown, out of the bytes of earlier messages if the connection was closed.
  */
  lemma BalanceReplyIs(p: Crypto, c: ClientState, a: Arrival)
    ensures var r := DecRecv(p, c.ch, a);
            var b := Overlaid(c.buffer, r.written);
            var (c', st, shown) := BalanceReply(p, c, a);
            && c' == c.(ch := r.ch, buffer := b)
            && st == (if r.ret < 0 || b[0] == 1 then ERROR else OK)
            && (shown.Some? <==> st == OK)
            && (st == OK ==>
                  && shown.value.0
                     == b[1] as int + 0x100 * b[2] as int + 0x1_0000 * b[3] as int + 0x100_0000 * b[4] as int
                  && shown.value.1
                     == b[5] as int + 0x100 * b[6] as int + 0x1_0000 * b[7] as int + 0x100_0000 * b[8] as int)
  {
    OverlaidIsSplice(c.buffer, DecRecv(p, c.ch, a).written);
  }

  /**
    A sign reply: stored iff a message came, its status byte is neither 1 nor 2, and its last 64 bytes sign the
    client's own hash with the timestamp; and what is stored then starts with that own hash.
  */
  lemma SignReplyIs(p: Crypto, signPub: Bytes, c: ClientState, hash: Block, a: Arrival, d: Disk)
    ensures var r := DecRecv(p, c.ch, a);
            var b := Overlaid(c.buffer, r.written);
            var (c', st) := SignReply(p, signPub, c, hash, a, d);
            var signed := p.verify(signPub, hash + b[33..41], b[41..105]);
            var line := hash + b[33..41] + b[41..105] + [10];
            && c'.ch == r.ch && c'.buffer == b
            && st == (if r.ret <= 0 || b[0] == 1 then ERROR
                      else if b[0] == 2 || !signed then INVALID
                      else if d.opens && d.room >= 105 then OK else ERROR)
            && c'.store == if r.ret > 0 && b[0] != 1 && b[0] != 2 && signed && d.opens then
                             Some(Contents(c.store) + line[..Min(d.room, 105)])
                           else c.store
  {
    var b := Overlaid(c.buffer, DecRecv(p, c.ch, a).written);
    OverlaidIsSplice(c.buffer, DecRecv(p, c.ch, a).written);
    assert b[41..105] == b[41..];
    StoreIs(c.store, hash + b[33..41] + b[41..], d);
  }

  // ---------------------------------------------------------------- the store a client fills

  /** Every 105-byte line of the file holds a record that verifies. */
  ghost predicate Genuine(p: Crypto, signPub: Bytes, file: Bytes)
    decreases |file|
  {
    |file| == 0 || (|file| >= STRIDE && Verifies(p, signPub, file[..RECORD]) && Genuine(p, signPub, file[STRIDE..]))
  }

  lemma {:induction false} GenuineAppend(p: Crypto, signPub: Bytes, file: Bytes, e: Entry)
    requires Genuine(p, signPub, file) && Verifies(p, signPub, e)
    ensures Genuine(p, signPub, file + e + [NEWLINE])
    decreases |file|
  {
    var more := file + e + [NEWLINE];
    if |file| == 0 {
      assert more[..RECORD] == e && more[STRIDE..] == [];
    } else {
      assert more[..RECORD] == file[..RECORD] && more[STRIDE..] == file[STRIDE..] + e + [NEWLINE];
      GenuineAppend(p, signPub, file[STRIDE..], e);
    }
  }

  lemma {:induction false} GenuineSearch(p: Crypto, signPub: Bytes, file: Bytes, hash: Block)
    requires Genuine(p, signPub, file)
    ensures forall i :: 0 <= i < |Search(file, hash)| ==> Verifies(p, signPub, Search(file, hash)[i])
    decreases |file|
  {
    if |file| > 0 {
      GenuineSearch(p, signPub, file[STRIDE..], hash);
    }
  }

  lemma AppendedBehind(file: Bytes, e: Entry)
    requires |file| >= STRIDE
    ensures var more := file + e + [NEWLINE];
            && more[..RECORD] == file[..RECORD] && more[..HASH_SIZE] == file[..HASH_SIZE]
            && more[STRIDE..] == file[STRIDE..] + e + [NEWLINE]
  {
    var more := file + e + [NEWLINE];
    assert more[..STRIDE] == file[..STRIDE];
    assert more[..RECORD] == more[..STRIDE][..RECORD] && file[..RECORD] == file[..STRIDE][..RECORD];
    assert more[..HASH_SIZE] == more[..STRIDE][..HASH_SIZE] && file[..HASH_SIZE] == file[..STRIDE][..HASH_SIZE];
  }

  lemma AppendedAlone(e: Entry, hash: Block)
    ensures Search(e + [NEWLINE], hash) == if e[..HASH_SIZE] == hash then [e] else []
  {
    var line := e + [NEWLINE];
    assert line[..RECORD] == e && line[STRIDE..] == [];
    assert line[..HASH_SIZE] == line[..RECORD][..HASH_SIZE];
  }

  /** The search finds a record appended to such a file, after everything it found before. */
  lemma {:induction false} SearchFindsAppended(p: Crypto, signPub: Bytes, file: Bytes, e: Entry, hash: Block)
    requires Genuine(p, signPub, file)
    ensures Search(file + e + [NEWLINE], hash) == Search(file, hash) + (if e[..HASH_SIZE] == hash then [e] else [])
    decreases |file|
  {
    if |file| == 0 {
      assert file + e == e;
      AppendedAlone(e, hash);
    } else {
      AppendedBehind(file, e);
      SearchFindsAppended(p, signPub, file[STRIDE..], e, hash);
    }
  }

  /** Whatever arrives, a store that held only genuine records still does, unless the disk failed. */
  lemma SignReplyKeepsGenuine(p: Crypto, signPub: Bytes, c: ClientState, hash: Block, a: Arrival, d: Disk)
    requires Genuine(p, signPub, Contents(c.store)) && d.opens && d.room > RECORD
    ensures var (c', _) := SignReply(p, signPub, c, hash, a, d); Genuine(p, signPub, Contents(c'.store))
  {
    var (c', st) := SignReply(p, signPub, c, hash, a, d);
    if c'.store != c.store {
      var stamp, sig := c'.buffer[33..41], c'.buffer[41..];
      var e: Entry := hash + stamp + sig;
      assert e[..40] == hash + stamp && e[40..] == sig;
      GenuineAppend(p, signPub, Contents(c.store), e);
    }
  }

  lemma {:induction false} GenuineLength(p: Crypto, signPub: Bytes, file: Bytes)
    requires Genuine(p, signPub, file)
    ensures |file| % STRIDE == 0
    decreases |file|
  {
    if |file| > 0 {
      GenuineLength(p, signPub, file[STRIDE..]);
    }
  }

  /** The reply carries a signature the client accepts: with a healthy disk it would be stored. */
  predicate WouldStore(p: Crypto, signPub: Bytes, c: ClientState, hash: Block, a: Arrival) {
    SignReply(p, signPub, c, hash, a, Disk(true, STRIDE)).1 == OK
  }

  /**
    Whatever arrives and whatever the disk does: a store of genuine records stays one iff nothing is to be stored,
    or the file does not open, or the disk takes nothing or the whole line.
  */
  lemma SignReplyKeepsGenuineExactly(p: Crypto, signPub: Bytes, c: ClientState, hash: Block, a: Arrival, d: Disk)
    requires Genuine(p, signPub, Contents(c.store))
    ensures var (c', _) := SignReply(p, signPub, c, hash, a, d);
            Genuine(p, signPub, Contents(c'.store))
            <==> !WouldStore(p, signPub, c, hash, a) || !d.opens || d.room == 0 || d.room > RECORD
  {
    var (c', st) := SignReply(p, signPub, c, hash, a, d);
    GenuineLength(p, signPub, Contents(c.store));
    if WouldStore(p, signPub, c, hash, a) && d.opens {
      if d.room > RECORD {
        SignReplyKeepsGenuine(p, signPub, c, hash, a, d);
      } else if d.room == 0 {
        assert Contents(c'.store) == Contents(c.store);
      } else {
        TornIsNotGenuine(p, signPub, Contents(c.store), Contents(c'.store), d.room);
      }
    }
  }

  lemma TornIsNotGenuine(p: Crypto, signPub: Bytes, file: Bytes, torn: Bytes, room: nat)
    requires |file| % STRIDE == 0 && |torn| == |file| + room && 0 < room < STRIDE
    ensures !Genuine(p, signPub, torn)
  {
    assert |torn| % STRIDE == room;
    if Genuine(p, signPub, torn) {
      GenuineLength(p, signPub, torn);
      assert false;
    }
  }

  /** A reply never loses a record found before. */
  lemma SignReplyKeepsFound(p: Crypto, signPub: Bytes, c: ClientState, hash: Block, a: Arrival, d: Disk, doc: Block)
    requires Genuine(p, signPub, Contents(c.store)) && d.opens && d.room > RECORD
    ensures var (c', _) := SignReply(p, signPub, c, hash, a, d);
            && (c.store.Some? ==> c'.store.Some?)
            && |Search(Contents(c.store), doc)| <= |Search(Contents(c'.store), doc)|
  {
    var (c', st) := SignReply(p, signPub, c, hash, a, d);
    if c'.store != c.store {
      SearchFindsAppended(p, signPub, Contents(c.store), hash + c'.buffer[33..41] + c'.buffer[41..], doc);
    }
  }

  /** For a file holding only genuine records, Verify answers OK iff the document has a record in it. */
  lemma VerifyExactly(p: Crypto, signPub: Bytes, store: Option<Bytes>, hash: Block)
    requires Genuine(p, signPub, Contents(store))
    ensures Verify(p, signPub, store, hash) == OK <==> store.Some? && Search(store.value, hash) != []
  {
    if store.Some? {
      GenuineSearch(p, signPub, store.value, hash);
    }
  }
}
