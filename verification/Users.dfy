/** The user list: search, password check and the timestamp quota. */
module Users {
  import opened Base
  import opened Primitives
  import Hash

  datatype UserInfo = UserInfo(username: Bytes, salt: Bytes, password: Bytes, remaining: uint32, consumed: uint32)

  /** The comparison reads 64 bytes of the stored text, whatever its length: each must have that many. */
  ghost predicate WellStored(users: seq<UserInfo>) {
    forall i :: 0 <= i < |users| ==> |users[i].password| >= 2 * HASH_SIZE
  }

  /** Two versions of the list that differ at most in the two counters of each user. */
  ghost predicate SameCredentials(a: seq<UserInfo>, b: seq<UserInfo>) {
    && |a| == |b|
    && forall i :: 0 <= i < |a| ==>
         a[i].username == b[i].username && a[i].salt == b[i].salt && a[i].password == b[i].password
  }

  function FirstIndex(users: seq<UserInfo>, name: Bytes): (i: int)
    ensures -1 <= i < |users|
    ensures i == -1 ==> forall k :: 0 <= k < |users| ==> users[k].username != name
    ensures i >= 0 ==> users[i].username == name && forall k :: 0 <= k < i ==> users[k].username != name
  {
    if users == [] then -1
    else
      var rest := FirstIndex(users[1..], name);
      if users[0].username == name then 0 else if rest == -1 then -1 else rest + 1
  }

  function Check(p: Crypto, users: seq<UserInfo>, name: Bytes, psw: Bytes): bool {
    var i := FirstIndex(users, name);
    && i >= 0 && |users[i].password| >= 2 * HASH_SIZE
    && users[i].password[..2 * HASH_SIZE] == Hash.Hex(p.sha(users[i].salt + psw))
  }

  function Consume(users: seq<UserInfo>, i: int): (Status, seq<UserInfo>) {
    if i < 0 || i >= |users| then (ERROR, users)
    else if users[i].remaining == 0 then (INVALID, users)
    else
      var u := users[i];
      (OK, users[i := u.(remaining := Pred(u.remaining), consumed := Succ(u.consumed))])
  }

  /**
    When the first user of a name stores text that begins with the 64 lowercase hexadecimal characters of a digest,
    the check accepts exactly the passwords with that salted digest; a name nobody has is refused.
  */
  lemma CheckComparesDigests(p: Crypto, users: seq<UserInfo>, i: nat, name: Bytes, psw: Bytes, d: Bytes)
    requires i < |users| && users[i].username == name && forall k :: 0 <= k < i ==> users[k].username != name
    requires |d| == 32 && |users[i].password| >= 64 && Hash.TextOf(d, users[i].password[..64])
    ensures Check(p, users, name, psw) <==> p.sha(users[i].salt + psw) == d
  {
    assert FirstIndex(users, name) == i;
    Hash.HexIsTheText(d, users[i].password[..64]);
    Hash.HexInjective(p.sha(users[i].salt + psw), d);
  }

  lemma UnknownNameRefused(p: Crypto, users: seq<UserInfo>, name: Bytes, psw: Bytes)
    requires forall k :: 0 <= k < |users| ==> users[k].username != name
    ensures !Check(p, users, name, psw)
  {
  }

  /** Neither a search nor a password check can be affected by the counters. */
  lemma {:induction false} CredentialsDecide(p: Crypto, a: seq<UserInfo>, b: seq<UserInfo>, name: Bytes, psw: Bytes)
    requires SameCredentials(a, b)
    ensures FirstIndex(a, name) == FirstIndex(b, name)
    ensures Check(p, a, name, psw) == Check(p, b, name, psw)
  {
    var i, j := FirstIndex(a, name), FirstIndex(b, name);
    if i >= 0 { assert b[i].username == name; }
    if j >= 0 { assert a[j].username == name; }
  }

  /** One success moves exactly one credit of one user; a refusal changes nothing, and happens exactly at zero. */
  lemma ConsumeMovesOneCredit(users: seq<UserInfo>, i: nat)
    requires i < |users|
    ensures var (outcome, after) := Consume(users, i);
            && SameCredentials(users, after)
            && (forall k :: 0 <= k < |users| && k != i ==> after[k] == users[k])
            && (outcome == INVALID <==> users[i].remaining == 0)
            && (outcome == INVALID ==> after == users)
            && (users[i].remaining > 0 ==> && outcome == OK
                                           && after[i].remaining == users[i].remaining - 1
                                           && after[i].consumed == Succ(users[i].consumed))
            && (after[i].remaining + after[i].consumed) % WORD == (users[i].remaining + users[i].consumed) % WORD
  {
  }

  /** An index outside the list is an error and changes nothing. */
  lemma ConsumeOutsideFails(users: seq<UserInfo>, i: int)
    ensures Consume(users, i).0 == ERROR <==> i < 0 || i >= |users|
    ensures Consume(users, i).0 == ERROR ==> Consume(users, i).1 == users
  {
  }

  /** The list after other workers changed the counters. */
  function WithCounters(users: seq<UserInfo>, c: seq<(uint32, uint32)>): (r: seq<UserInfo>)
    ensures |r| == |users|
  {
    if |c| != |users| then users
    else seq(|users|, i requires 0 <= i < |users| => users[i].(remaining := c[i].0, consumed := c[i].1))
  }

  lemma CountersKeepCredentials(users: seq<UserInfo>, c: seq<(uint32, uint32)>)
    ensures SameCredentials(users, WithCounters(users, c))
  {
  }

  class UserInfoManager {
    var users: seq<UserInfo>  // clientListInformation
    var file: seq<UserInfo>   // what the credentials file holds

    constructor (stored: seq<UserInfo>)
      ensures users == file == stored
    {
      users, file := stored, stored;
    }

    /** Other workers ran meanwhile. */
    method Interleave(counters: seq<(uint32, uint32)>)
      modifies `users
      ensures users == WithCounters(old(users), counters)
    {
      users := WithCounters(users, counters);
    }

    method FindUser(name: Bytes) returns (index: int)
      ensures index == FirstIndex(users, name)
    {
      index := -1;
      var i := 0;
      while i < |users|
        invariant 0 <= i <= |users|
        invariant index == -1
        invariant forall k :: 0 <= k < i ==> users[k].username != name
      {
        if users[i].username == name {
          index := i;
          break;
        }
        i := i + 1;
      }
    }

    method SaveToFile()
      modifies `file
      ensures file == users
    {
      file := users;
    }

    method CheckCredentials(p: Crypto, name: Bytes, psw: Bytes) returns (valid: bool)
      requires WellStored(users)
      ensures valid == Check(p, users, name, psw)
    {
      var index := FindUser(name);
      if index == -1 {
        return false;
      }
      var digest := p.sha(users[index].salt + psw);
      var hashed := new byte[HASH_SIZE](k requires 0 <= k < HASH_SIZE => digest[k]);
      assert hashed[..] == digest;
      var text := new byte[2 * HASH_SIZE + 1];
      Hash.HashToString(hashed, text, HASH_SIZE);
      text[2 * HASH_SIZE] := 0;
      assert text[..2 * HASH_SIZE] == Hash.Hex(digest);
      valid := users[index].password[..2 * HASH_SIZE] == text[..2 * HASH_SIZE];
    }

    method ConsumeTimestamp(index: int) returns (outcome: Status)
      modifies this
      ensures (outcome, users) == Consume(old(users), index)
      ensures file == if outcome == OK then users else old(file)
    {
      if index < 0 || index >= |users| {
        return ERROR;
      }
      if users[index].remaining == 0 {
        return INVALID;
      }
      users := users[index := users[index].(remaining := Pred(users[index].remaining))];
      users := users[index := users[index].(consumed := Succ(users[index].consumed))];
      SaveToFile();
      assert users == Consume(old(users), index).1;
      outcome := OK;
    }
  }
}
