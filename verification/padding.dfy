/**
  Padding the fingerprint set with random values
  (`generate_hashes_for_string_with_padding`, src/lib.rs:24-59). A tier roll
  in [1, 200] picks the range of `to_add`; the number of values added is
  `to_add` clamped to the room left under 225; the values are random `u32`s,
  and one that is already in the set adds nothing.

  The random generator is not modelled: its outputs are parameters (`roll`,
  `toAdd` and the stream `draws`), constrained to the ranges it draws from.
*/
module Padding {
  import opened Common
  import opened Hashing

  /**
    The exclusive upper bound of `gen_range(1, _)` for `to_add`, by tier roll:
    a roll of 1 allows up to 199, up to 5 allows 29, up to 50 allows 9, and
    any other roll allows 4.
  */
  function ToAddBound(roll: int): (b: int)
    ensures b == 200 || b == 30 || b == 10 || b == 5
  {
    if roll <= 1 then 200
    else if roll <= 5 then 30
    else if roll <= 50 then 10
    else 5
  }

  /** A value the generator can draw for `to_add` after the tier roll `roll`. */
  predicate IsToAdd(roll: int, toAdd: int) {
    1 <= toAdd < ToAddBound(roll)
  }

  lemma {:induction false} TierCount(lo: int, hi: int, b: int)
    requires lo <= hi
    requires forall r :: lo <= r < hi ==> ToAddBound(r) == b
    ensures |set r | lo <= r < hi && ToAddBound(r) == b| == hi - lo
    decreases hi - lo
  {
    if lo == hi {
      assert (set r | lo <= r < hi && ToAddBound(r) == b) == {};
    } else {
      TierCount(lo + 1, hi, b);
      assert (set r | lo <= r < hi && ToAddBound(r) == b) == (set r | lo + 1 <= r < hi && ToAddBound(r) == b) + {lo};
    }
  }

  /**
    Of the 200 equally likely tier rolls, 1 (0.5%) allows heavy padding, 4
    (2%) moderate, 45 (22.5%) light and 150 (75%) minimal.
  */
  lemma TierFrequencies()
    ensures |set r | 1 <= r <= 200 && ToAddBound(r) == 200| == 1
    ensures |set r | 1 <= r <= 200 && ToAddBound(r) == 30| == 4
    ensures |set r | 1 <= r <= 200 && ToAddBound(r) == 10| == 45
    ensures |set r | 1 <= r <= 200 && ToAddBound(r) == 5| == 150
  {
    TierCount(1, 2, 200);
    assert (set r | 1 <= r <= 200 && ToAddBound(r) == 200) == (set r | 1 <= r < 2 && ToAddBound(r) == 200);
    TierCount(2, 6, 30);
    assert (set r | 1 <= r <= 200 && ToAddBound(r) == 30) == (set r | 2 <= r < 6 && ToAddBound(r) == 30);
    TierCount(6, 51, 10);
    assert (set r | 1 <= r <= 200 && ToAddBound(r) == 10) == (set r | 6 <= r < 51 && ToAddBound(r) == 10);
    TierCount(51, 201, 5);
    assert (set r | 1 <= r <= 200 && ToAddBound(r) == 5) == (set r | 51 <= r < 201 && ToAddBound(r) == 5);
  }

  /**
    `pad_len`: `to_add` clamped to the room left under the ceiling. It is
    positive whenever there is room, and zero when the genuine set is full.
  */
  function PadLen(genuine: nat, toAdd: nat): (n: nat)
    requires genuine <= MaxHashesSize
    ensures n <= toAdd && genuine + n <= MaxHashesSize
    ensures n == toAdd || genuine + n == MaxHashesSize
    ensures genuine < MaxHashesSize && toAdd >= 1 ==> n >= 1
  {
    if MaxHashesSize - genuine < toAdd then MaxHashesSize - genuine else toAdd
  }

  /** The values among the first `n` random draws. */
  function Taken(draws: seq<u32>, n: nat): set<u32>
    requires n <= |draws|
  {
    set x | x in draws[..n]
  }

  /** Taking one more draw adds that draw. */
  lemma TakenNext(draws: seq<u32>, n: nat)
    requires n < |draws|
    ensures Taken(draws, n + 1) == Taken(draws, n) + {draws[n]}
  {
    assert draws[..n + 1] == draws[..n] + [draws[n]];
  }

  /** `n` draws give at most `n` distinct values. */
  lemma {:induction false} TakenCount(draws: seq<u32>, n: nat)
    requires n <= |draws|
    ensures |Taken(draws, n)| <= n
  {
    if n == 0 {
      assert Taken(draws, 0) == {};
    } else {
      TakenCount(draws, n - 1);
      TakenNext(draws, n - 1);
    }
  }

  /**
    Padding grows the set exactly when some taken draw is not already in it:
    a draw that collides with a genuine fingerprint (or an earlier draw) adds
    nothing.
  */
  lemma PaddingGrowsUnlessCollision(hashes: set<u32>, draws: seq<u32>, n: nat)
    requires n <= |draws|
    ensures |hashes + Taken(draws, n)| > |hashes| <==> exists i :: 0 <= i < n && draws[i] !in hashes
  {
    if i :| 0 <= i < n && draws[i] !in hashes {
      var added := Taken(draws, n) - hashes;
      assert draws[i] in draws[..n];
      assert draws[i] in added;
      assert hashes + Taken(draws, n) == hashes + added;
      assert hashes !! added;
    } else {
      forall x | x in Taken(draws, n)
        ensures x in hashes
      {
        var k :| 0 <= k < n && draws[..n][k] == x;
        assert draws[k] == x;
      }
      assert hashes + Taken(draws, n) == hashes;
    }
  }

  /** `hashes.extend(... .take(pad_len))`: inserts the first `padLen` draws into the set, one at a time. */
  method PadHashes(hashes: set<u32>, padLen: nat, draws: seq<u32>) returns (padded: set<u32>)
    requires padLen <= |draws|
    ensures padded == hashes + Taken(draws, padLen)
    ensures hashes <= padded && |padded| <= |hashes| + padLen
  {
    padded := hashes;
    var i := 0;
    while i < padLen
      invariant i <= padLen
      invariant padded == hashes + Taken(draws, i)
    {
      TakenNext(draws, i);
      padded := padded + {draws[i]};
      i := i + 1;
    }
    TakenCount(draws, padLen);
  }

  /**
    Padding a genuine set that fits keeps it, adds at most `toAdd` values,
    stays within the ceiling and is never empty.
  */
  lemma PaddedSize(genuine: set<u32>, toAdd: nat, draws: seq<u32>)
    requires |genuine| <= MaxHashesSize && 1 <= toAdd <= |draws|
    ensures var padded := genuine + Taken(draws, PadLen(|genuine|, toAdd));
      && genuine <= padded && |padded| <= |genuine| + toAdd
      && 1 <= |padded| <= MaxHashesSize
  {
    var padLen := PadLen(|genuine|, toAdd);
    var padded := genuine + Taken(draws, padLen);
    TakenCount(draws, padLen);
    if genuine == {} {
      assert draws[0] in draws[..padLen];
      assert draws[0] in padded;
    } else {
      var x :| x in genuine;
      assert x in padded;
    }
  }

  /**
    `generate_hashes_for_string_with_padding`: the same error as the unpadded
    call; otherwise the genuine fingerprints plus the first `pad_len` draws.
    The result never exceeds 225 values and is never empty, not even for a
    string without trigrams.
  */
  method GenerateHashesWithPadding(sha256: seq<byte> -> Digest, unidecode: char -> string, words: string -> seq<string>,
                                   s: string, partition: Option<string>, salt: seq<byte>,
                                   roll: int, toAdd: int, draws: seq<u32>)
    returns (r: Result<set<u32>>)
    requires 1 <= roll <= 200 && IsToAdd(roll, toAdd)
    requires toAdd <= |draws|
    ensures var genuine := Fingerprints(sha256, unidecode, words, s, partition, salt);
      && (r.Err? <==> |genuine| > MaxHashesSize)
      && (r.Err? ==> r.message == TooManyTrigrams)
      && (r.Ok? ==> r.value == genuine + Taken(draws, PadLen(|genuine|, toAdd)))
      && (r.Ok? ==> genuine <= r.value && |r.value| <= |genuine| + toAdd)
    ensures r.Ok? ==> 1 <= |r.value| <= MaxHashesSize
  {
    var hashes := GenerateHashes(sha256, unidecode, words, s, partition, salt);
    if hashes.Err? {
      return hashes;
    }
    var genuine := hashes.value;
    var padLen := PadLen(|genuine|, toAdd);
    var padded := PadHashes(genuine, padLen, draws);
    PaddedSize(genuine, toAdd, draws);
    r := Ok(padded);
  }
}
