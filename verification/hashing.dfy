/**
  Keyed hashing and the capacity check (`generate_hashes_for_string` and
  `as_u32_be`, src/lib.rs:61-91 and 135-142). Each trigram is hashed with
  SHA-256 over the partition identifier's bytes (when there is one), then the
  salt, then the trigram's bytes; the first four digest bytes, read
  big-endian, are its fingerprint. More than 225 distinct fingerprints is an
  error.

  SHA-256 itself (section 6.2 of FIPS 180-4) is not modelled: it is the
  parameter `sha256`, any function from byte strings to 32-byte digests. Its
  incremental interface is modelled by a context that records the bytes fed
  to it, which is exactly what its result depends on.
*/
module Hashing {
  import opened Common
  import Utf8
  import opened Normalization
  import opened Trigrams

  /** `MAX_HASHES_SIZE`: the most fingerprints a string may produce. */
  const MaxHashesSize: nat := 225

  /** The error message returned when a string produces too many fingerprints. */
  const TooManyTrigrams: string :=
    "The input produced too many trigrams. This function only supports strings that produce less than 225 trigrams"

  /** A SHA-256 digest: 32 bytes. */
  type Digest = d: seq<byte> | |d| == 32 witness seq(32, _ => 0)

  function Pow2(k: nat): nat {
    if k == 0 then 1 else 2 * Pow2(k - 1)
  }

  /** `x << k` on a `u32`: the bits shifted past bit 31 are lost. */
  function Shl(x: u32, k: nat): u32
    requires k < 32
  {
    x * Pow2(k) % 0x1_0000_0000
  }

  /** A shift that moves no set bit past bit 31 is a multiplication. */
  lemma ShlNoLoss(x: u32, k: nat)
    requires k < 32 && x * Pow2(k) < 0x1_0000_0000
    ensures Shl(x, k) == x * Pow2(k)
  {
  }

  lemma ShiftAmounts()
    ensures Pow2(0) == 1 && Pow2(8) == 0x100 && Pow2(16) == 0x1_0000 && Pow2(24) == 0x100_0000
  {
  }

  /**
    `as_u32_be`: the first four bytes of the digest as a big-endian number,
    assembled with shifts and additions. No shift loses a bit and the sum
    never overflows; the other 28 bytes are ignored.
  */
  function AsU32Be(d: Digest): (r: u32)
    ensures r == d[0] as int * 0x100_0000 + d[1] as int * 0x1_0000 + d[2] as int * 0x100 + d[3] as int
  {
    ShiftAmounts();
    ShlNoLoss(d[0], 24);
    ShlNoLoss(d[1], 16);
    ShlNoLoss(d[2], 8);
    ShlNoLoss(d[3], 0);
    Shl(d[0], 24) + Shl(d[1], 16) + Shl(d[2], 8) + Shl(d[3], 0)
  }

  /** The four big-endian bytes of a `u32` (`u32::to_be_bytes`). */
  function BeBytes(x: u32): (r: seq<byte>)
    ensures |r| == 4
  {
    [x / 0x100_0000, x / 0x1_0000 % 0x100, x / 0x100 % 0x100, x % 0x100]
  }

  /** The fingerprint keeps the digest's first four bytes exactly. */
  lemma AsU32BeKeepsFirstFour(d: Digest)
    ensures BeBytes(AsU32Be(d)) == d[..4]
  {
    var x := AsU32Be(d);
    var q2 := d[0] as int * 0x100 + d[1] as int;
    var q1 := q2 * 0x100 + d[2] as int;
    assert x == q1 * 0x100 + d[3] as int;
    DivMod256(q1, d[3]);
    DivMod256(q2, d[2]);
    DivMod256(d[0], d[1]);
    assert x / 0x100 == q1 && x % 0x100 == d[3];
    assert x / 0x1_0000 == (x / 0x100) / 0x100;
    assert x / 0x100_0000 == (x / 0x1_0000) / 0x100;
  }

  lemma DivMod256(q: int, e: int)
    requires 0 <= q && 0 <= e < 0x100
    ensures (q * 0x100 + e) / 0x100 == q && (q * 0x100 + e) % 0x100 == e
  {
  }

  /** Every `u32` is the fingerprint of any digest that starts with its big-endian bytes. */
  lemma AsU32BeOfBeBytes(x: u32, d: Digest)
    requires d[..4] == BeBytes(x)
    ensures AsU32Be(d) == x
  {
    assert d[0] == d[..4][0] && d[1] == d[..4][1] && d[2] == d[..4][2] && d[3] == d[..4][3];
    var q1 := x / 0x100;
    var q2 := q1 / 0x100;
    assert x == q1 * 0x100 + x % 0x100;
    assert q1 == q2 * 0x100 + q1 % 0x100;
    assert q2 == (q2 / 0x100) * 0x100 + q2 % 0x100;
    assert x / 0x1_0000 == q2;
    assert x / 0x100_0000 == q2 / 0x100;
  }

  /** Digests that agree on their first four bytes have the same fingerprint. */
  lemma AsU32BeFirstFourOnly(d: Digest, e: Digest)
    requires d[..4] == e[..4]
    ensures AsU32Be(d) == AsU32Be(e)
  {
    assert d[0] == d[..4][0] && d[1] == d[..4][1] && d[2] == d[..4][2] && d[3] == d[..4][3];
  }

  /** A SHA-256 context: the bytes fed to it so far. */
  datatype Hasher = Hasher(absorbed: seq<byte>)

  const NewHasher: Hasher := Hasher([])

  /** `Digest::chain`: feeds more bytes. */
  function Chain(h: Hasher, data: seq<byte>): Hasher {
    Hasher(h.absorbed + data)
  }

  /** `Digest::result`: the digest of everything fed. */
  function Finish(sha256: seq<byte> -> Digest, h: Hasher): Digest {
    sha256(h.absorbed)
  }

  function Flatten(chunks: seq<seq<byte>>): seq<byte> {
    if chunks == [] then [] else chunks[0] + Flatten(chunks[1..])
  }

  /** The `fold` that feeds each chunk in turn: the context ends up holding all of them, in order. */
  function ChainAll(h: Hasher, chunks: seq<seq<byte>>): (r: Hasher)
    ensures r.absorbed == h.absorbed + Flatten(chunks)
    decreases |chunks|
  {
    if chunks == [] then h
    else
      var r := ChainAll(Chain(h, chunks[0]), chunks[1..]);
      assert h.absorbed + chunks[0] + Flatten(chunks[1..]) == h.absorbed + Flatten(chunks);
      r
  }

  /** The partition identifier's bytes as an iterator: nothing for `None`. */
  function PartitionChunks(partition: Option<string>): seq<seq<byte>> {
    match partition
    case None => []
    case Some(p) => [Utf8.Encode(p)]
  }

  /** `partial_sha256`: the context after the partition identifier and the salt, reused for every trigram. */
  function PartialHasher(partition: Option<string>, salt: seq<byte>): Hasher {
    ChainAll(NewHasher, PartitionChunks(partition) + [salt])
  }

  /** The partial context holds the partition identifier's bytes (if any) followed by the salt. */
  lemma PartialHasherAbsorbs(partition: Option<string>, salt: seq<byte>)
    ensures PartialHasher(partition, salt).absorbed == PartitionBytes(partition) + salt
  {
    var chunks := PartitionChunks(partition) + [salt];
    match partition
    case None =>
      assert chunks == [salt];
      assert Flatten(chunks) == salt + Flatten([]);
    case Some(p) =>
      assert chunks[1..] == [salt];
      assert Flatten(chunks[1..]) == salt + Flatten([]);
  }

  /** The partition identifier's bytes, or nothing. */
  function PartitionBytes(partition: Option<string>): seq<byte> {
    match partition
    case None => []
    case Some(p) => Utf8.Encode(p)
  }

  /** The message hashed for a trigram: partition identifier, salt and trigram, concatenated. */
  function HashInput(partition: Option<string>, salt: seq<byte>, t: string): seq<byte> {
    PartitionBytes(partition) + salt + Utf8.Encode(t)
  }

  /**
    `short_hash`: the fingerprint of a trigram is the big-endian value of the
    first four bytes of SHA-256(partition ‖ salt ‖ trigram).
  */
  function ShortHash(sha256: seq<byte> -> Digest, partition: Option<string>, salt: seq<byte>, t: string): (r: u32)
    ensures r == AsU32Be(sha256(HashInput(partition, salt, t)))
  {
    PartialHasherAbsorbs(partition, salt);
    AsU32Be(Finish(sha256, Chain(PartialHasher(partition, salt), Utf8.Encode(t))))
  }

  /**
    For a fixed partition and salt, distinct trigrams give distinct hash
    messages: two trigrams share a fingerprint only when SHA-256 or the
    truncation to 32 bits makes them collide.
  */
  lemma HashInputInjective(partition: Option<string>, salt: seq<byte>, t: string, u: string)
    requires HashInput(partition, salt, t) == HashInput(partition, salt, u)
    ensures t == u
  {
    var prefix := PartitionBytes(partition) + salt;
    assert Utf8.Encode(t) == HashInput(partition, salt, t)[|prefix|..];
    assert Utf8.Encode(u) == HashInput(partition, salt, u)[|prefix|..];
    Utf8.EncodeInjective(t, u);
  }

  /** An empty partition identifier hashes exactly like no partition identifier. */
  lemma EmptyPartitionIsNoPartition(sha256: seq<byte> -> Digest, salt: seq<byte>, t: string)
    ensures ShortHash(sha256, Some([]), salt, t) == ShortHash(sha256, None, salt, t)
  {
    assert HashInput(Some([]), salt, t) == HashInput(None, salt, t);
  }

  /**
    The partition identifier and the salt are concatenated without a
    separator: moving characters from the end of the identifier to the front
    of the salt does not change the message.
  */
  lemma PartitionSaltBoundary(p: string, q: string, salt: seq<byte>, t: string)
    ensures HashInput(Some(p + q), salt, t) == HashInput(Some(p), Utf8.Encode(q) + salt, t)
  {
    Utf8.EncodeAppend(p, q);
  }

  /** The fingerprints of a set of trigrams: its image under `ShortHash`. */
  function HashesOf(sha256: seq<byte> -> Digest, partition: Option<string>, salt: seq<byte>, ts: set<string>): set<u32> {
    set t | t in ts :: ShortHash(sha256, partition, salt, t)
  }

  /** Hashing one more trigram adds its fingerprint, which may already be there. */
  lemma HashesOfAdd(sha256: seq<byte> -> Digest, partition: Option<string>, salt: seq<byte>, ts: set<string>, t: string)
    ensures HashesOf(sha256, partition, salt, ts + {t}) == HashesOf(sha256, partition, salt, ts) + {ShortHash(sha256, partition, salt, t)}
  {
  }

  /** Collisions can only shrink the set: there are never more fingerprints than trigrams. */
  lemma {:induction false} HashesOfCount(sha256: seq<byte> -> Digest, partition: Option<string>, salt: seq<byte>, ts: set<string>)
    ensures |HashesOf(sha256, partition, salt, ts)| <= |ts|
    decreases ts
  {
    if ts != {} {
      var t :| t in ts;
      var rest := ts - {t};
      HashesOfCount(sha256, partition, salt, rest);
      HashesOfAdd(sha256, partition, salt, rest, t);
      assert rest + {t} == ts;
    }
  }

  /** The genuine fingerprints of a string: the fingerprints of its trigrams. */
  function Fingerprints(sha256: seq<byte> -> Digest, unidecode: char -> string, words: string -> seq<string>,
                        s: string, partition: Option<string>, salt: seq<byte>): set<u32>
  {
    HashesOf(sha256, partition, salt, MakeTriGrams(unidecode, words, s))
  }

  /** Text with a single trigram has a single fingerprint: that of the trigram's message. */
  lemma FingerprintsOfOneTrigram(sha256: seq<byte> -> Digest, unidecode: char -> string, words: string -> seq<string>,
                                 s: string, partition: Option<string>, salt: seq<byte>, t: string)
    requires MakeTriGrams(unidecode, words, s) == {t}
    ensures Fingerprints(sha256, unidecode, words, s, partition, salt) == {AsU32Be(sha256(HashInput(partition, salt, t)))}
  {
    HashesOfAdd(sha256, partition, salt, {}, t);
    assert HashesOf(sha256, partition, salt, {}) == {};
    assert {} + {t} == {t};
  }

  /** Hashes every trigram of a set, one at a time (the `map` then `collect` of `generate_hashes_for_string`). */
  method HashTrigrams(sha256: seq<byte> -> Digest, partition: Option<string>, salt: seq<byte>, trigrams: set<string>)
    returns (r: set<u32>)
    ensures r == HashesOf(sha256, partition, salt, trigrams)
  {
    r := {};
    var todo := trigrams;
    ghost var done: set<string> := {};
    while todo != {}
      invariant done + todo == trigrams && done !! todo
      invariant r == HashesOf(sha256, partition, salt, done)
      decreases todo
    {
      var t :| t in todo;
      HashesOfAdd(sha256, partition, salt, done, t);
      r := r + {ShortHash(sha256, partition, salt, t)};
      done := done + {t};
      todo := todo - {t};
    }
  }

  /**
    `generate_hashes_for_string`: the fingerprints of every trigram of the
    string, or an error exactly when there are more than 225 distinct ones.
  */
  method GenerateHashes(sha256: seq<byte> -> Digest, unidecode: char -> string, words: string -> seq<string>,
                        s: string, partition: Option<string>, salt: seq<byte>)
    returns (r: Result<set<u32>>)
    ensures r.Err? <==> |Fingerprints(sha256, unidecode, words, s, partition, salt)| > MaxHashesSize
    ensures r.Ok? ==> r.value == Fingerprints(sha256, unidecode, words, s, partition, salt)
    ensures r.Ok? ==> |r.value| <= MaxHashesSize
    ensures r.Err? ==> r.message == TooManyTrigrams && |MakeTriGrams(unidecode, words, s)| > MaxHashesSize
  {
    var trigrams := MakeTriGrams(unidecode, words, s);
    var result := HashTrigrams(sha256, partition, salt, trigrams);
    HashesOfCount(sha256, partition, salt, trigrams);
    if |result| > MaxHashesSize {
      r := Err(TooManyTrigrams);
    } else {
      r := Ok(result);
    }
  }

  /** A value is a genuine fingerprint exactly when some trigram of the string hashes to it. */
  lemma FingerprintsMember(sha256: seq<byte> -> Digest, unidecode: char -> string, words: string -> seq<string>,
                           s: string, partition: Option<string>, salt: seq<byte>, x: u32)
    ensures x in Fingerprints(sha256, unidecode, words, s, partition, salt)
        <==> exists t :: t in MakeTriGrams(unidecode, words, s) && AsU32Be(sha256(HashInput(partition, salt, t))) == x
  {
  }

  /**
    A string with at most 225 distinct trigrams never fails, and neither does
    one whose words have a total budget of at most 225.
  */
  lemma WithinCapacity(sha256: seq<byte> -> Digest, unidecode: char -> string, words: string -> seq<string>,
                       s: string, partition: Option<string>, salt: seq<byte>)
    requires |MakeTriGrams(unidecode, words, s)| <= MaxHashesSize
          || TotalBudget(words(Normalize(unidecode, s))) <= MaxHashesSize
    ensures |Fingerprints(sha256, unidecode, words, s, partition, salt)| <= MaxHashesSize
  {
    TrigramsOfWordsCount(words(Normalize(unidecode, s)));
    HashesOfCount(sha256, partition, salt, MakeTriGrams(unidecode, words, s));
  }

  /** A string that normalises to nothing has no genuine fingerprints. */
  lemma FingerprintsOfNothing(sha256: seq<byte> -> Digest, unidecode: char -> string, words: string -> seq<string>,
                              s: string, partition: Option<string>, salt: seq<byte>)
    requires words([]) == []
    requires forall i :: 0 <= i < |s| ==> IsSpecial(s[i])
    ensures Fingerprints(sha256, unidecode, words, s, partition, salt) == {}
  {
    MakeTriGramsOfNothing(unidecode, words, s);
  }
}
