/**
  The local signature file: 104-byte records (hash | timestamp | signature), each followed by a newline, read by
  stride.
*/
module SignatureStore {
  import opened Base

  const RECORD: nat := 104
  const STRIDE: nat := 105
  const NEWLINE: byte := 10

  type Entry = b: Bytes | |b| == 104 witness seq(104, _ => 0)

  /** What the disk allows one append: whether the file opens, and how many bytes can be written. */
  datatype Disk = Disk(opens: bool, room: nat)

  function Contents(file: Option<Bytes>): Bytes {
    if file.Some? then file.value else []
  }

  /** `storeSignature`: opening for append creates the file; a short write leaves its bytes behind. */
  function Store(file: Option<Bytes>, e: Entry, d: Disk): (Option<Bytes>, Status) {
    if !d.opens then (file, ERROR)
    else if d.room < RECORD then (Some(Contents(file) + e[..d.room]), ERROR)
    else if d.room == RECORD then (Some(Contents(file) + e), ERROR)
    else (Some(Contents(file) + e + [NEWLINE]), OK)
  }

  /** An append writes the record and a newline as far as there is room. */
  lemma StoreIs(file: Option<Bytes>, e: Entry, d: Disk)
    ensures Store(file, e, d)
            == if !d.opens then (file, ERROR)
               else (Some(Contents(file) + (e + [10])[..Min(d.room, 105)]), if d.room >= 105 then OK else ERROR)
  {
    var line := e + [10];
    if d.room <= 104 {
      assert line[..d.room] == e[..d.room];
      assert e[..104] == e;
    } else {
      assert line[..105] == line;
      assert Contents(file) + line == Contents(file) + e + [10];
    }
  }

  /** The entries of a file read 105 bytes at a time, up to the first short read. */
  function Search(file: Bytes, hash: Block): seq<Entry> {
    if |file| < STRIDE then []
    else (if file[..HASH_SIZE] == hash then [file[..RECORD]] else []) + Search(file[STRIDE..], hash)
  }

  /** A whole 105-byte line, the k-th, that starts with `hash`. */
  predicate LineAt(file: Bytes, k: nat, hash: Block) {
    105 * k + 105 <= |file| && file[105 * k..105 * k + 32] == hash
  }

  /** `at` are the positions of exactly the lines that start with `hash`, in order. */
  ghost predicate Positions(file: Bytes, hash: Block, at: seq<nat>) {
    && (forall i :: 0 <= i < |at| ==> LineAt(file, at[i], hash))
    && (forall i, j :: 0 <= i < j < |at| ==> at[i] < at[j])
    && (forall k :: LineAt(file, k, hash) ==> k in at)
  }

  lemma LineInRest(file: Bytes, k: nat, hash: Block)
    requires |file| >= STRIDE
    ensures LineAt(file[STRIDE..], k, hash) <==> LineAt(file, k + 1, hash)
    ensures 105 * k + 105 <= |file| - STRIDE ==>
              file[STRIDE..][105 * k..105 * k + 104] == file[105 * (k + 1)..105 * (k + 1) + 104]
  {
    if 105 * k + 105 <= |file| - STRIDE {
      assert file[STRIDE..][105 * k..105 * k + 32] == file[105 * (k + 1)..105 * (k + 1) + 32];
    }
  }

  /** Positions in what follows the first line, seen from its start. */
  function Shifted(at: seq<nat>): (r: seq<nat>)
    ensures |r| == |at| && forall i :: 0 <= i < |at| ==> r[i] == at[i] + 1
  {
    seq(|at|, i requires 0 <= i < |at| => at[i] + 1)
  }

  /** The position of the first line, if it starts with `hash`. */
  function First(file: Bytes, hash: Block): (r: seq<nat>)
    requires |file| >= STRIDE
    ensures |r| <= 1
  {
    if file[..HASH_SIZE] == hash then [0] else []
  }

  lemma FirstIs(file: Bytes, hash: Block)
    requires |file| >= STRIDE
    ensures First(file, hash) == if LineAt(file, 0, hash) then [0] else []
  {
    assert file[..HASH_SIZE] == file[105 * 0..105 * 0 + 32];
  }

  lemma LaterFound(file: Bytes, hash: Block, later: seq<nat>, k: nat)
    requires |file| >= STRIDE && Positions(file[STRIDE..], hash, later) && LineAt(file, k, hash)
    ensures k in First(file, hash) + Shifted(later)
  {
    FirstIs(file, hash);
    if k == 0 {
      assert First(file, hash)[0] == 0;
    } else {
      LineInRest(file, k - 1, hash);
      var i :| 0 <= i < |later| && later[i] == k - 1;
      assert Shifted(later)[i] == k;
    }
  }

  lemma PositionsOn(file: Bytes, hash: Block, later: seq<nat>)
    requires |file| >= STRIDE && Positions(file[STRIDE..], hash, later)
    ensures Positions(file, hash, First(file, hash) + Shifted(later))
  {
    var first := First(file, hash);
    var at := first + Shifted(later);
    FirstIs(file, hash);
    forall i | 0 <= i < |at| ensures LineAt(file, at[i], hash) {
      if i >= |first| {
        LineInRest(file, later[i - |first|], hash);
      }
    }
    forall k: nat | LineAt(file, k, hash) ensures k in at {
      LaterFound(file, hash, later, k);
    }
  }

  /** The i-th entry found is the first 104 bytes of the line at position `k`. */
  ghost predicate FoundAt(file: Bytes, hash: Block, i: nat, k: nat) {
    i < |Search(file, hash)| && 105 * k + 105 <= |file| && Search(file, hash)[i] == file[105 * k..105 * k + 104]
  }

  lemma FoundLater(file: Bytes, hash: Block, i: nat, k: nat)
    requires |file| >= STRIDE && FoundAt(file[STRIDE..], hash, i, k)
    ensures FoundAt(file, hash, |First(file, hash)| + i, k + 1)
  {
    LineInRest(file, k, hash);
    assert Search(file, hash)[|First(file, hash)| + i] == Search(file[STRIDE..], hash)[i];
  }

  /**
    What a search finds in any file at all: the first 104 bytes of exactly the lines that start with the hash, in
    order.
  */
  lemma {:induction false} SearchIs(file: Bytes, hash: Block) returns (at: seq<nat>)
    ensures Positions(file, hash, at) && |at| == |Search(file, hash)|
    ensures forall i :: 0 <= i < |at| ==> FoundAt(file, hash, i, at[i])
    decreases |file|
  {
    if |file| < STRIDE {
      at := [];
    } else {
      var later := SearchIs(file[STRIDE..], hash);
      PositionsOn(file, hash, later);
      var first := First(file, hash);
      at := first + Shifted(later);
      forall i | 0 <= i < |at| ensures FoundAt(file, hash, i, at[i]) {
        if i < |first| {
          assert Search(file, hash)[0] == file[105 * 0..105 * 0 + 104];
        } else {
          FoundLater(file, hash, i - |first|, later[i - |first|]);
        }
      }
    }
  }

  function Lines(es: seq<Entry>): (f: Bytes)
    ensures |f| == STRIDE * |es|
  {
    if es == [] then [] else es[0] + [NEWLINE] + Lines(es[1..])
  }

  function Matching(es: seq<Entry>, hash: Block): seq<Entry> {
    if es == [] then [] else (if es[0][..HASH_SIZE] == hash then [es[0]] else []) + Matching(es[1..], hash)
  }

  lemma {:induction false} LinesAppend(es: seq<Entry>, fs: seq<Entry>)
    ensures Lines(es + fs) == Lines(es) + Lines(fs)
  {
    if es == [] {
      assert es + fs == fs;
    } else {
      assert (es + fs)[1..] == es[1..] + fs;
      LinesAppend(es[1..], fs);
    }
  }

  lemma LinesOne(e: Entry)
    ensures Lines([e]) == e + [NEWLINE]
  {
    assert [e][1..] == [];
  }

  lemma {:induction false} MatchingAppend(es: seq<Entry>, fs: seq<Entry>, hash: Block)
    ensures Matching(es + fs, hash) == Matching(es, hash) + Matching(fs, hash)
  {
    if es == [] {
      assert es + fs == fs;
    } else {
      assert (es + fs)[1..] == es[1..] + fs;
      MatchingAppend(es[1..], fs, hash);
    }
  }

  lemma {:induction false} SearchPastLines(es: seq<Entry>, rest: Bytes, hash: Block)
    ensures Search(Lines(es) + rest, hash) == Matching(es, hash) + Search(rest, hash)
  {
    if es == [] {
      assert Lines(es) + rest == rest;
    } else {
      var file := Lines(es) + rest;
      assert file == es[0] + [NEWLINE] + (Lines(es[1..]) + rest);
      assert file[..RECORD] == es[0] && file[..HASH_SIZE] == es[0][..HASH_SIZE];
      assert file[STRIDE..] == Lines(es[1..]) + rest;
      SearchPastLines(es[1..], rest, hash);
    }
  }

  /** The file after a sequence of appends, all of which succeeded. */
  function StoreAll(file: Option<Bytes>, es: seq<Entry>): Option<Bytes>
    decreases |es|
  {
    if es == [] then file else StoreAll(Store(file, es[0], Disk(true, STRIDE)).0, es[1..])
  }

  lemma {:induction false} StoreAllAppends(file: Option<Bytes>, es: seq<Entry>)
    ensures Contents(StoreAll(file, es)) == Contents(file) + Lines(es)
    decreases |es|
  {
    if es != [] {
      StoreAllAppends(Store(file, es[0], Disk(true, STRIDE)).0, es[1..]);
    }
  }

  /**
    After any sequence of successful appends, whatever bytes the records hold and whatever shorter piece is left at the
    end, a search returns exactly the records with that hash, in the order stored.
  */
  lemma SearchFindsExactlyStored(es: seq<Entry>, tail: Bytes, hash: Block)
    requires |tail| < STRIDE
    ensures Search(Contents(StoreAll(None, es)) + tail, hash) == Matching(es, hash)
  {
    StoreAllAppends(None, es);
    assert Contents(StoreAll(None, es)) == Lines(es);
    SearchPastLines(es, tail, hash);
    assert Search(tail, hash) == [];
  }

  /** A record to find after a torn tail: it differs from the tail in its first byte. */
  lemma TornTailHides(es: seq<Entry>, tail: Bytes) returns (e: Entry, hash: Block)
    requires 0 < |tail| < STRIDE
    ensures Search(Lines(es) + tail + e + [NEWLINE], hash) != Matching(es + [e], hash)
  {
    var b: byte := if tail[0] == 0 then 1 else 0;
    e := seq(RECORD, _ => b);
    hash := e[..HASH_SIZE];
    var rest := tail + e + [NEWLINE];
    assert Lines(es) + tail + e + [NEWLINE] == Lines(es) + rest;
    SearchPastLines(es, rest, hash);
    MatchingAppend(es, [e], hash);
    assert Matching([e], hash) == [e] by { assert [e][1..] == []; }
    assert rest[..HASH_SIZE][0] == tail[0] && hash[0] == b;
    assert Search(rest, hash) == Search(rest[STRIDE..], hash);
    assert |rest[STRIDE..]| < STRIDE;
    assert |Matching(es + [e], hash)| == |Matching(es, hash)| + 1;
  }

  lemma AlignedAppendFound(es: seq<Entry>, e: Entry, hash: Block)
    ensures Search(Lines(es) + e + [NEWLINE], hash) == Matching(es + [e], hash)
  {
    LinesAppend(es, [e]);
    LinesOne(e);
    var file := Lines(es + [e]);
    assert file == Lines(es) + e + [NEWLINE];
    SearchPastLines(es + [e], [], hash);
    assert file + [] == file;
  }

  /** Appending after a truncated final record keeps every later search exact iff there is no such record. */
  lemma AppendsFoundExactlyWhenAligned(es: seq<Entry>, tail: Bytes)
    requires |tail| < STRIDE
    ensures tail == [] <==>
            forall e: Entry, hash: Block :: Search(Lines(es) + tail + e + [NEWLINE], hash) == Matching(es + [e], hash)
  {
    if tail == [] {
      forall e: Entry, hash: Block ensures Search(Lines(es) + tail + e + [NEWLINE], hash) == Matching(es + [e], hash) {
        assert Lines(es) + tail == Lines(es);
        AlignedAppendFound(es, e, hash);
      }
    } else {
      var e, hash := TornTailHides(es, tail);
    }
  }

  /** One read at `at` and what it adds to the entries found so far. */
  lemma SearchOn(found: seq<Entry>, file: Bytes, at: nat, hash: Block)
    requires at + STRIDE <= |file|
    ensures var rec := file[at..at + STRIDE];
            found + Search(file[at..], hash)
            == (if rec[..HASH_SIZE] == hash then found + [rec[..RECORD]] else found) + Search(file[at + STRIDE..], hash)
  {
    var rest := file[at..];
    var rec := file[at..at + STRIDE];
    assert rest[..HASH_SIZE] == rec[..HASH_SIZE] && rest[..RECORD] == rec[..RECORD];
    assert rest[STRIDE..] == file[at + STRIDE..];
  }

  /** `searchSignature` on an opened file: a 105-byte read per round, compared on its first 32 bytes. */
  method SearchSignature(file: Bytes, hash: array<byte>) returns (signatures: seq<Entry>)
    requires hash.Length >= HASH_SIZE
    ensures signatures == Search(file, hash[..HASH_SIZE])
  {
    ghost var key := hash[..HASH_SIZE];
    signatures := [];
    var sig := new byte[STRIDE];
    var pos := 0;
    var got := Min(STRIDE, |file|);
    Memcpy(sig, 0, file[..got]);
    assert file[0..] == file;
    while got == STRIDE
      invariant pos + got <= |file| && 0 <= got <= STRIDE
      invariant got < STRIDE ==> pos + got == |file|
      invariant got == STRIDE ==> sig[..] == file[pos..pos + STRIDE]
      invariant hash[..HASH_SIZE] == key
      invariant signatures + Search(file[pos..], key) == Search(file, key)
      decreases |file| - pos
    {
      SearchOn(signatures, file, pos, key);
      if sig[..HASH_SIZE] == hash[..HASH_SIZE] {
        signatures := signatures + [sig[..RECORD]];
      }
      pos := pos + got;
      got := Min(STRIDE, |file| - pos);
      Memcpy(sig, 0, file[pos..pos + got]);
    }
    assert |file[pos..]| < STRIDE;
  }
}
