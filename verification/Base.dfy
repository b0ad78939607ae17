/** Sizes, wire codes and the byte vocabulary shared by every module. */
module Base {
  newtype byte = x: int | 0 <= x < 256
  type Bytes = seq<byte>

  const WORD: nat := 0x1_0000_0000
  type uint32 = n: nat | n < 0x1_0000_0000

  const MAX_PLAINTEXT_SIZE: nat := 105
  const IV_SIZE: nat := 16
  const TAG_SIZE: nat := 16
  const MAX_CIPHERTEXT_SIZE: nat := 137
  const MAX_USERNAME_LEN: nat := 30
  const MAX_PWD_LEN: nat := 30
  const KEY_SIZE: nat := 32
  const NONCE_SIZE: nat := 32
  const HASH_SIZE: nat := 32
  const SIGNATURE_SIZE: nat := 64
  const TS_SIZE: nat := 8
  const MAX_TRIES: nat := 3

  type Iv = b: Bytes | |b| == 16 witness seq(16, _ => 0)
  type Stamp = b: Bytes | |b| == 8 witness seq(8, _ => 0)
  type Block = b: Bytes | |b| == 32 witness seq(32, _ => 0)
  type Buffer = b: Bytes | |b| == 105 witness seq(105, _ => 0)

  datatype Option<+T> = None | Some(value: T)

  datatype Status = OK | ERROR | INVALID

  /** `status` is an 8-bit enumeration: OK, ERROR, INVALID in that order. */
  function Code(s: Status): byte {
    match s
    case OK => 0
    case ERROR => 1
    case INVALID => 2
  }

  const BALANCE: byte := 0
  const SIGN: byte := 1

  /** `buf` after `data` was copied to offset `at`. */
  function Splice(buf: Bytes, at: nat, data: Bytes): (r: Bytes)
    requires at + |data| <= |buf|
    ensures |r| == |buf|
  {
    buf[..at] + data + buf[at + |data|..]
  }

  lemma SpliceHas(buf: Bytes, at: nat, data: Bytes)
    requires at + |data| <= |buf|
    ensures Splice(buf, at, data)[at..at + |data|] == data
  {
  }

  lemma SpliceKeeps(buf: Bytes, at: nat, data: Bytes, lo: nat, hi: nat)
    requires at + |data| <= |buf| && lo <= hi <= |buf|
    requires hi <= at || at + |data| <= lo
    ensures Splice(buf, at, data)[lo..hi] == buf[lo..hi]
  {
  }

  /** A message over the start of a buffer. */
  function Overlaid(buf: Buffer, msg: Bytes): (b: Buffer)
    requires |msg| <= |buf|
  {
    msg + buf[|msg|..]
  }

  lemma OverlaidIsSplice(buf: Buffer, msg: Bytes)
    requires |msg| <= |buf|
    ensures Splice(buf, 0, msg) == Overlaid(buf, msg)
  {
  }

  function Min(a: int, b: int): int {
    if a <= b then a else b
  }

  /** An unsigned 32-bit increment and decrement, which wrap. */
  function Succ(n: uint32): (m: uint32)
    ensures m == (n + 1) % 0x1_0000_0000
  {
    if n == WORD - 1 then 0 else n + 1
  }

  function Pred(n: uint32): (m: uint32)
    ensures (m + 1) % 0x1_0000_0000 == n
  {
    if n == 0 then WORD - 1 else n - 1
  }

  /** The four bytes of an unsigned int in host (little-endian) order. */
  function Le32(n: uint32): (b: Bytes)
    ensures |b| == 4
  {
    [(n % 256) as byte, (n / 256 % 256) as byte, (n / 65536 % 256) as byte, (n / 16777216) as byte]
  }

  function ReadLe32(b: Bytes): uint32
    requires |b| == 4
  {
    b[0] as int + 256 * b[1] as int + 65536 * b[2] as int + 16777216 * b[3] as int
  }

  /** The order of the bytes, and that reading undoes writing. */
  lemma Le32RoundTrip(n: uint32)
    ensures var b := Le32(n);
            b[0] as int + 0x100 * b[1] as int + 0x1_0000 * b[2] as int + 0x100_0000 * b[3] as int == n
    ensures ReadLe32(Le32(n)) == n
  {
    assert n == n / 256 * 256 + n % 256;
    assert n / 65536 == n / 256 / 256;
    assert n / 16777216 == n / 65536 / 256;
  }

  /** memcpy into an array at an offset. */
  method Memcpy(dst: array<byte>, at: nat, src: Bytes)
    requires at + |src| <= dst.Length
    modifies dst
    ensures dst[..] == Splice(old(dst[..]), at, src)
  {
    forall k | at <= k < at + |src| {
      dst[k] := src[k - at];
    }
  }
}
