/** Lowercase hexadecimal text of a digest, written in place two characters and a trailing NUL at a time. */
module Hash {
  import opened Base

  function HexDigit(n: int): (d: byte)
    requires 0 <= n < 16
  {
    if n < 10 then (48 + n) as byte else (87 + n) as byte
  }

  function HexValue(d: byte): (n: int)
    ensures 0 <= n < 16
  {
    if 48 <= d < 58 then d as int - 48
    else if 97 <= d < 103 then d as int - 87
    else 0
  }

  function Hex(h: Bytes): (s: Bytes)
    ensures |s| == 2 * |h|
  {
    seq(2 * |h|, k requires 0 <= k < 2 * |h| =>
      HexDigit(if k % 2 == 0 then h[k / 2] as int / 16 else h[k / 2] as int % 16))
  }

  function UnHex(s: Bytes): (h: Bytes)
    requires |s| % 2 == 0
    ensures |h| == |s| / 2
  {
    seq(|s| / 2, k requires 0 <= k < |s| / 2 => (16 * HexValue(s[2 * k]) + HexValue(s[2 * k + 1])) as byte)
  }

  /** The character a hexadecimal digit is written as. */
  predicate Writes(c: byte, n: int)
    requires 0 <= n < 16
  {
    c as int == "0123456789abcdef"[n] as int
  }

  lemma DigitWrites(n: int)
    requires 0 <= n < 16
    ensures Writes(HexDigit(n), n)
  {
  }

  /** The lowercase text of a digest: for each byte the character of its high half, then that of its low half. */
  ghost predicate TextOf(h: Bytes, s: Bytes) {
    && |s| == 2 * |h|
    && forall k :: 0 <= k < |h| ==> ByteWritten(h, s, k)
  }

  ghost predicate ByteWritten(h: Bytes, s: Bytes, k: nat)
    requires k < |h| && |s| == 2 * |h|
  {
    Writes(s[2 * k], h[k] as int / 16) && Writes(s[2 * k + 1], h[k] as int % 16)
  }

  /** Which text a digest is given: that one and no other. */
  lemma HexIsTheText(h: Bytes, s: Bytes)
    ensures s == Hex(h) <==> TextOf(h, s)
  {
    forall k | 0 <= k < |h| ensures ByteWritten(h, Hex(h), k) {
      DigitWrites(h[k] as int / 16);
      DigitWrites(h[k] as int % 16);
    }
    if TextOf(h, s) {
      SameText(h, s, Hex(h));
    }
  }

  lemma SameText(h: Bytes, s: Bytes, t: Bytes)
    requires TextOf(h, s) && TextOf(h, t)
    ensures s == t
  {
    forall i | 0 <= i < |s| ensures s[i] == t[i] {
      var k := i / 2;
      assert ByteWritten(h, s, k) && ByteWritten(h, t, k);
      assert i == 2 * k || i == 2 * k + 1;
    }
  }

  lemma HexInverts(h: Bytes)
    ensures UnHex(Hex(h)) == h
  {
    forall k | 0 <= k < |h| ensures UnHex(Hex(h))[k] == h[k] {
      HexAt(h, k);
      ByteInverts(h[k]);
      hide HexDigit, HexValue, Hex;
    }
  }

  lemma HexAt(h: Bytes, k: nat)
    requires k < |h|
    ensures Hex(h)[2 * k] == HexDigit(h[k] as int / 16) && Hex(h)[2 * k + 1] == HexDigit(h[k] as int % 16)
  {
    hide HexDigit;
    assert 2 * k / 2 == k && (2 * k + 1) / 2 == k && 2 * k % 2 == 0 && (2 * k + 1) % 2 == 1;
  }

  lemma ByteInverts(b: byte)
    ensures 16 * HexValue(HexDigit(b as int / 16)) + HexValue(HexDigit(b as int % 16)) == b as int
  {
    DigitInverts(b as int / 16);
    DigitInverts(b as int % 16);
  }

  lemma DigitInverts(n: int)
    requires 0 <= n < 16
    ensures HexValue(HexDigit(n)) == n
  {
  }

  /** Two digests have the same text iff they are the same digest. */
  lemma HexInjective(a: Bytes, b: Bytes)
    ensures Hex(a) == Hex(b) <==> a == b
  {
    HexInverts(a);
    HexInverts(b);
  }

  /** `hashToString`: each sprintf writes two digits and a NUL, which the next one overwrites. */
  method HashToString(hash: array<byte>, text: array<byte>, len: nat)
    requires hash != text
    requires len <= hash.Length
    requires len > 0 ==> 2 * len < text.Length
    modifies text
    ensures len > 0 ==> text[..] == Splice(old(text[..]), 0, Hex(hash[..len]) + [0])
    ensures len > 0 ==> TextOf(hash[..len], text[..2 * len]) && text[2 * len] == 0
    ensures len == 0 ==> text[..] == old(text[..])
  {
    var i := 0;
    while i < len
      invariant 0 <= i <= len
      invariant hash[..] == old(hash[..])
      invariant forall k :: 0 <= k < 2 * i ==> text[k] == Hex(hash[..len])[k]
      invariant i > 0 ==> text[2 * i] == 0
      invariant i == 0 ==> text[..] == old(text[..])
      invariant forall k :: 2 * i < k < text.Length ==> text[k] == old(text[k])
    {
      text[2 * i] := HexDigit(hash[i] as int / 16);
      text[2 * i + 1] := HexDigit(hash[i] as int % 16);
      text[2 * i + 2] := 0;
      i := i + 1;
    }
    if len > 0 {
      assert text[..2 * len] == Hex(hash[..len]);
      HexIsTheText(hash[..len], text[..2 * len]);
    }
  }
}
