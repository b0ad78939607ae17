/**
  The server parses credentials out of a buffer that still holds earlier messages. When does the message alone
  decide the parse, and what happens when it does not?
*/
module Parsing {
  import opened Base
  import opened Primitives
  import opened Record
  import opened Users
  import opened Server
  import Hash

  const WINDOW: nat := 30

  predicate NulFree(m: Bytes) {
    forall k :: 0 <= k < |m| ==> m[k] != 0
  }

  /** The word that starts at `at` ends at the NUL at index `end`. */
  predicate EndsAt(m: Bytes, at: nat, end: nat) {
    at <= end < |m| && m[end] == 0 && NulFree(m[at..end])
  }

  /**
    Bytes of the message decide whether a password starts at `at`: its window is complete, or a NUL lies at or after
    `at`.
  */
  predicate PasswordSettled(m: Bytes, at: nat) {
    |m| >= at + WINDOW || exists k :: at <= k < |m| && m[k] == 0
  }

  /**
    What can be read off a message of any length before it is parsed: its first 30 bytes hold no NUL, or it starts with
    one, or the name ends in it and the password is settled too.
  */
  predicate Settled(m: Bytes) {
    || (|m| >= WINDOW && NulFree(m[..WINDOW]))
    || (|m| > 0 && m[0] == 0)
    || exists n :: 0 < n < WINDOW && EndsAt(m, 0, n) && PasswordSettled(m, n + 1)
  }

  lemma TwoWords(buf: Buffer, n: nat, m: nat)
    requires 0 < n < WINDOW && EndsAt(buf, 0, n)
    requires m < WINDOW && NulFree(buf[n + 1..n + 1 + m]) && (m < WINDOW - 1 ==> buf[n + 1 + m] == 0)
    ensures Parse(buf) == if m > 0 && buf[n + 1 + m] == 0 then Some((buf[..n], buf[n + 1..n + 1 + m])) else None
  {
    assert forall k :: 0 <= k < n ==> buf[k] == buf[0..n][k];
    StrnlenIs(buf, 0, WINDOW - 1, n);
    assert forall k :: n + 1 <= k < n + 1 + m ==> buf[k] == buf[n + 1..n + 1 + m][k - n - 1];
    StrnlenIs(buf, n + 1, WINDOW - 1, m);
  }

  lemma NoName(buf: Buffer)
    requires buf[0] == 0 || NulFree(buf[..WINDOW])
    ensures Parse(buf) == None
  {
    if NulFree(buf[..WINDOW]) {
      assert forall k :: 0 <= k < WINDOW ==> buf[k] == buf[..WINDOW][k];
      StrnlenIs(buf, 0, WINDOW - 1, WINDOW - 1);
    }
  }

  /** How many of at most `max` bytes from `at` come before the first NUL: the length a settled password must have. */
  lemma WordLength(buf: Buffer, at: nat) returns (m: nat)
    requires at + WINDOW <= |buf|
    ensures m < WINDOW && NulFree(buf[at..at + m]) && (m < WINDOW - 1 ==> buf[at + m] == 0)
  {
    m := Strnlen(buf, at, WINDOW - 1);
  }

  lemma SettledDecides(a: Buffer, b: Buffer, n: nat)
    requires n <= |a| && a[..n] == b[..n] && Settled(a[..n])
    ensures Parse(a) == Parse(b)
  {
    var m := a[..n];
    assert forall k :: 0 <= k < n ==> a[k] == m[k] == b[k];
    if n >= WINDOW && NulFree(m[..WINDOW]) {
      assert m[..WINDOW] == a[..WINDOW] == b[..WINDOW];
      NoName(a);
      NoName(b);
    } else if n > 0 && m[0] == 0 {
      NoName(a);
      NoName(b);
    } else {
      var end :| 0 < end < WINDOW && EndsAt(m, 0, end) && PasswordSettled(m, end + 1);
      assert m[0..end] == a[0..end] == b[0..end];
      PasswordDecides(a, b, n, end);
    }
  }

  lemma PasswordDecides(a: Buffer, b: Buffer, n: nat, end: nat)
    requires n <= |a| && a[..n] == b[..n]
    requires 0 < end < WINDOW && EndsAt(a, 0, end) && EndsAt(b, 0, end) && PasswordSettled(a[..n], end + 1)
    ensures Parse(a) == Parse(b)
  {
    var at := end + 1;
    var m := WordLength(a, at);
    assert forall k :: 0 <= k < n ==> a[k] == a[..n][k] == b[..n][k] == b[k];
    if n < at + WINDOW {
      var k :| at <= k < n && a[..n][k] == 0;
      assert forall i :: at <= i < at + m ==> a[i] == a[at..at + m][i - at];
      assert at + m <= k;
    }
    assert forall i :: at <= i < at + m ==> a[i] == b[i];
    assert a[at..at + m] == b[at..at + m];
    assert a[at + m] == b[at + m];
    assert a[..end] == b[..end];
    TwoWords(a, end, m);
    TwoWords(b, end, m);
  }

  /** `m` followed by non-NUL filler, with a NUL at `end`, and another at `last`. */
  function Padded(m: Bytes, end: nat, last: nat): (r: Buffer)
    requires |m| <= MAX_PLAINTEXT_SIZE
    ensures m <= r
    ensures forall i :: |m| <= i < |r| ==> r[i] == if i == end || i == last then 0 else 1
  {
    seq(MAX_PLAINTEXT_SIZE, i requires 0 <= i < MAX_PLAINTEXT_SIZE =>
      if i < |m| then m[i] else if i == end || i == last then 0 else 1)
  }

  /** A message that is not settled can be completed to a buffer that parses and to one that does not. */
  lemma UnsettledUndecided(m: Bytes) returns (yes: Buffer, no: Buffer)
    requires |m| <= MAX_PLAINTEXT_SIZE && !Settled(m)
    ensures m <= yes && m <= no && Parse(yes).Some? && Parse(no) == None
  {
    if exists n :: 0 < n < WINDOW && EndsAt(m, 0, n) {
      var n :| 0 < n < WINDOW && EndsAt(m, 0, n);
      assert !PasswordSettled(m, n + 1);
      yes, no := PasswordOpen(m, n);
    } else {
      yes, no := NameOpen(m);
    }
  }

  lemma PasswordOpen(m: Bytes, n: nat) returns (yes: Buffer, no: Buffer)
    requires |m| <= MAX_PLAINTEXT_SIZE
    requires 0 < n < WINDOW && EndsAt(m, 0, n) && !PasswordSettled(m, n + 1)
    ensures m <= yes && m <= no && Parse(yes).Some? && Parse(no) == None
  {
    var at := n + 1;
    var last := if |m| <= at then at + 1 else |m|;
    yes, no := Padded(m, last, last), Padded(m, MAX_PLAINTEXT_SIZE, MAX_PLAINTEXT_SIZE);
    assert forall k :: at <= k < |m| ==> m[k] != 0;
    PaddedKeepsName(m, n, last, last);
    PaddedKeepsName(m, n, MAX_PLAINTEXT_SIZE, MAX_PLAINTEXT_SIZE);
    Completed(yes, n, last);
    Uncompleted(no, n);
  }

  lemma Completed(b: Buffer, n: nat, last: nat)
    requires 0 < n < WINDOW && EndsAt(b, 0, n) && n + 1 < last < n + WINDOW + 1
    requires b[last] == 0 && forall k :: n + 1 <= k < last ==> b[k] != 0
    ensures Parse(b).Some?
  {
    hide Parse;
    assert NulFree(b[n + 1..last]);
    TwoWords(b, n, last - (n + 1));
  }

  lemma Uncompleted(b: Buffer, n: nat)
    requires 0 < n < WINDOW && EndsAt(b, 0, n)
    requires forall k :: n + 1 <= k < n + 1 + WINDOW ==> b[k] != 0
    ensures Parse(b) == None
  {
    hide Parse;
    assert NulFree(b[n + 1..n + WINDOW]);
    TwoWords(b, n, WINDOW - 1);
  }

  lemma PaddedKeepsName(m: Bytes, n: nat, end: nat, last: nat)
    requires |m| <= MAX_PLAINTEXT_SIZE && EndsAt(m, 0, n)
    ensures EndsAt(Padded(m, end, last), 0, n)
  {
    var b := Padded(m, end, last);
    assert b[0..n] == b[..|m|][0..n] == m[0..n];
  }

  lemma NameOpen(m: Bytes) returns (yes: Buffer, no: Buffer)
    requires |m| <= MAX_PLAINTEXT_SIZE && !Settled(m)
    requires forall n :: 0 < n < WINDOW ==> !EndsAt(m, 0, n)
    ensures m <= yes && m <= no && Parse(yes).Some? && Parse(no) == None
  {
    NoNulYet(m, Min(|m|, WINDOW));
    var end := if |m| == 0 then 1 else |m|;
    yes, no := Padded(m, end, end + 2), Padded(m, MAX_PLAINTEXT_SIZE, MAX_PLAINTEXT_SIZE);
    assert NulFree(yes[0..end]);
    TwoWords(yes, end, 1);
    NoName(no);
  }

  lemma {:induction false} NoNulYet(m: Bytes, n: nat)
    requires n <= |m| && n <= WINDOW && (|m| > 0 ==> m[0] != 0)
    requires forall k :: 0 < k < WINDOW ==> !EndsAt(m, 0, k)
    ensures NulFree(m[..n])
  {
    if n > 0 {
      NoNulYet(m, n - 1);
      assert m[..n - 1] == m[0..n - 1];
      if n > 1 {
        assert !EndsAt(m, 0, n - 1);
      }
    }
  }

  /** The parse of a message is independent of whatever lies behind it iff the message is settled. */
  lemma StaleBytesIgnoredExactly(buf: Buffer, n: nat)
    requires n <= |buf|
    ensures Settled(buf[..n]) <==> forall other: Buffer :: other[..n] == buf[..n] ==> Parse(other) == Parse(buf)
  {
    if Settled(buf[..n]) {
      forall other: Buffer | other[..n] == buf[..n] ensures Parse(other) == Parse(buf) {
        SettledDecides(buf, other, n);
      }
    } else {
      var yes, no := UnsettledUndecided(buf[..n]);
      assert yes[..n] == buf[..n] == no[..n];
    }
  }

  /** What the source's client sends is always settled. */
  lemma ClientMessagesSettled(name: Bytes, psw: Bytes)
    requires |name| < WINDOW && NulFree(name)
    ensures Settled(Encode(name, psw))
  {
    var m := Encode(name, psw);
    var n := |name|;
    assert m[n] == 0;
    if n > 0 {
      assert m[0..n] == name;
      assert EndsAt(m, 0, n);
      assert m[|m| - 1] == 0;
    }
  }

  // ---------------------------------------------------------------- an attempt completed by an earlier one

  const E: Bytes := [101]
  const B: Bytes := [98]
  const P: Bytes := [112]

  function OneUser(p: Crypto): seq<UserInfo> {
    [UserInfo(B, [], Hash.Hex(p.sha(P)), 1, 0)]
  }

  /** The buffer after the refused "e", "p" and then the single byte "b" reads as the pair "b", "p". */
  lemma StalePairParsed(buf: Buffer)
    ensures Parse(Splice(buf, 0, Encode(E, P))) == Some((E, P))
    ensures Parse(Splice(Splice(buf, 0, Encode(E, P)), 0, B)) == Some((B, P))
    ensures !Settled(B)
  {
    EncodedIsParsed(Splice(buf, 0, Encode(E, P)), E, P);
    var b: Buffer := Splice(Splice(buf, 0, Encode(E, P)), 0, B);
    assert b[..4] == Encode(B, P);
    EncodedIsParsed(b, B, P);
  }

  lemma StaleFirst(p: Crypto, signKey: Bytes, key: Bytes, buffer: Buffer, iv: Iv, e: Env) returns (r: Run)
    requires e.arrival == Data(Seal(p, key, iv, 0, Encode(E, P)))
    ensures r == Next(p, signKey, Run(OneUser(p), Begin(key, buffer), []), e)
    ensures r.x.phase == Login(2) && r.x.s.buffer == Splice(buffer, 0, Encode(E, P))
    ensures r.x.s.ch.key == key && r.x.s.ch.rx == 1
    ensures SameCredentials(OneUser(p), r.users)
  {
    r := Next(p, signKey, Run(OneUser(p), Begin(key, buffer), []), e);
    DeliveredRecord(p, Chan(key, 0, 0), Chan(key, 0, 0), Encode(E, P), iv);
    StalePairParsed(buffer);
    CountersKeepCredentials(OneUser(p), e.counters);
  }

  lemma StaleAttempt(p: Crypto, users: seq<UserInfo>, buffer: Buffer, iv: Iv, s: ServerState)
    requires SameCredentials(OneUser(p), users)
    requires s.buffer == Splice(buffer, 0, Encode(E, P)) && s.ch.rx == 1
    ensures var a := Data(Seal(p, s.ch.key, iv, 1, B));
            var (s', st) := AuthenticationAttempt(p, users, s, a);
            && st == OK && s'.clientId == 0
            && Parse(Splice(s.buffer, 0, DecRecv(p, s.ch, a).written)) == Some((B, P))
  {
    DeliveredRecord(p, Chan(s.ch.key, 1, 0), s.ch, B, iv);
    StalePairParsed(buffer);
    CredentialsDecide(p, OneUser(p), users, B, P);
    assert [] + P == P;
    assert FirstIndex(OneUser(p), B) == 0;
  }

  lemma StaleSecond(p: Crypto, signKey: Bytes, buffer: Buffer, iv: Iv, r: Run, e: Env)
    requires SameCredentials(OneUser(p), r.users) && r.x.phase.Login?
    requires r.x.s.buffer == Splice(buffer, 0, Encode(E, P)) && r.x.s.ch.rx == 1
    requires e.arrival == Data(Seal(p, r.x.s.ch.key, iv, 1, B))
    ensures var x := Next(p, signKey, r, e).x; x.phase == Serving && x.accepted == Some((B, P)) && x.s.clientId == 0
  {
    CountersKeepCredentials(r.users, e.counters);
    StaleAttempt(p, WithCounters(r.users, e.counters), buffer, iv, r.x.s);
  }

  /**
    The input: a first attempt "e", "p" is refused, since no user is called "e". A second message of the one byte "b"
    then logs in user "b", with the NUL and the password the first attempt left behind.
  */
  lemma StaleBytesLogIn(p: Crypto, signKey: Bytes, key: Bytes, buffer: Buffer, iv: Iv, e1: Env, e2: Env)
    requires e1.arrival == Data(Seal(p, key, iv, 0, Encode(E, P)))
    requires e2.arrival == Data(Seal(p, key, iv, 1, B))
    ensures var x := Play(p, signKey, Run(OneUser(p), Begin(key, buffer), []), [e1, e2]).x;
            x.phase == Serving && x.accepted == Some((B, P)) && x.s.clientId == 0
  {
    var start := Run(OneUser(p), Begin(key, buffer), []);
    var r := StaleFirst(p, signKey, key, buffer, iv, e1);
    PlayTwo(p, signKey, start, e1, e2);
    StaleSecond(p, signKey, buffer, iv, r, e2);
  }

  lemma PlayTwo(p: Crypto, signKey: Bytes, start: Run, e1: Env, e2: Env)
    ensures Play(p, signKey, start, [e1, e2]) == Next(p, signKey, Next(p, signKey, start, e1), e2)
  {
    hide Next;
    assert [e1, e2][..1] == [e1] && [e1][..0] == [];
    assert Play(p, signKey, start, []) == start;
    assert Play(p, signKey, start, [e1]) == Next(p, signKey, start, e1);
  }
}
