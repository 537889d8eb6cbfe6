# search-helpers blind index, modelled in Dafny

The IronCoreLabs `search-helpers` crate (`src/lib.rs`) turns a string into a
blind index. A blind index is a set of 32-bit fingerprints that lets a server
match encrypted records without seeing the plaintext. The pipeline is:

1. Delete the characters of a fixed punctuation class.
2. Replace every remaining character by its lowercased transliteration
   (`char_to_trans`), or keep it when the table has none.
3. Split the text into words. Pad each word shorter than three characters
   with `-`, and take every contiguous three-character window (`make_tri_grams`,
   `word_to_trigrams`).
4. Hash each trigram with SHA-256 over partition ‖ salt ‖ trigram. Keep the
   big-endian value of the first four digest bytes (`as_u32_be`).
5. Fail when more than 225 fingerprints result (`generate_hashes_for_string`).
   Otherwise, optionally add random padding values chosen by a tiered random
   amount and clamped at 225 (`generate_hashes_for_string_with_padding`).

The model keeps every step as a pure function or as a small method with a
loop. Each step has a reference definition or an inverse, and lemmas link the
two. The external collaborators are parameters, so every property holds
whatever they compute:

- `sha256: seq<byte> -> Digest` is SHA-256.
- `unidecode: char -> string` is the transliteration table.
- `words: string -> seq<string>` is the word segmenter.
- The random generator's outputs are method parameters: `roll`, `toAdd` and
  the stream `draws`.

Files:

- `common.dfy`: `byte`, `u32`, `Option` and `Result`.
- `utf8.dfy`: `str::as_bytes`, which is UTF-8 encoding. It comes with a strict
  decoder, which proves the encoding injective.
- `normalize.dfy`: special-character deletion, `char_to_trans`, and the
  normalised text.
- `trigrams.dfy`: `word_to_trigrams`, short-word padding and `make_tri_grams`.
- `hashing.dfy`: `as_u32_be`, the incremental hasher, `short_hash` and
  `generate_hashes_for_string`.
- `padding.dfy`: the padding tiers, `pad_len` and
  `generate_hashes_for_string_with_padding`.
- `known_cases.dfy`: the crate's unit tests, stated as lemmas. A test that
  depends on the transliteration table or on the segmenter is stated for
  every table that maps each ASCII character to itself and agrees with the
  real one on the test's other characters, and for every segmenter that
  splits the test's normalised text as the real one does.

## Model

| member | source | states |
|---|---|---|
| Normalization.IsSpecialIsClassMember | src/lib.rs:16 | A character counts as special exactly when it is one of the 31 characters listed in the regex's class. |
| Normalization.StripSpecial | src/lib.rs:97 | Deletion never lengthens the text. |
| Normalization.StripSpecialSound | src/lib.rs:97 | After deletion no special character remains. Every other character survives exactly as often as it occurred, and no special character is left or inserted. |
| Normalization.StripSpecialChar | src/lib.rs:97 | On a single character, deletion drops it if it is special and keeps it otherwise. With `StripSpecialAppend` this fixes the result of every string: the non-special characters, in their original order. |
| Normalization.StripSpecialAppend | src/lib.rs:97 | Deletion works piecewise: stripping s + t gives strip(s) + strip(t). Together with `StripSpecialChar`, the kept characters stay in their original order. |
| Normalization.StripSpecialNoop | src/lib.rs:97 | Text without special characters is unchanged. |
| Normalization.StripSpecialIdempotent | src/lib.rs:97 | Deleting twice is the same as deleting once. |
| Normalization.SpecialCharDeleted | src/lib.rs:97 | A special character is deleted, not replaced by a separator: s, c, t normalises like s, t, so "812-111-7654" becomes one word. |
| Normalization.LowerChar | src/lib.rs:131 | No capital letter comes out, and a character changes only when it is a capital letter, which then becomes a small letter. |
| Normalization.LowerCharTable | src/lib.rs:131 | Against the two alphabets `A`…`Z` and `a`…`z`: the k-th capital letter lowercases to the k-th small letter. |
| Normalization.ToLowercase | src/lib.rs:131 | Lowercasing keeps the length. |
| Normalization.ToLowercaseChars | src/lib.rs:131 | Lowercasing acts character by character, and no uppercase letter remains. |
| Normalization.LowercaseNoop | src/lib.rs:131 | Text without uppercase letters is unchanged by lowercasing. |
| Normalization.SpecialIsNotLetter | src/lib.rs:16 | No special character is an uppercase letter. |
| Normalization.CharToTrans | src/lib.rs:126-133 | With an empty transliteration the result is the character itself. Otherwise it is the transliteration, of the same length. It is never empty. |
| Normalization.CharToTransLowercase | src/lib.rs:131 | A transliterated result has no uppercase letter and agrees with the table's string up to case. Lowercasing it again changes nothing. |
| Normalization.Transliterate | src/lib.rs:98-101 | Mapping `char_to_trans` over the text never shortens it. The result is empty exactly when the input is. |
| Normalization.TransliterateAppend | src/lib.rs:98-101 | Transliteration distributes over concatenation. |
| Normalization.Normalize | src/lib.rs:97-101 | The text handed to word splitting: special characters deleted first, then each remaining character replaced by `char_to_trans`. It is at least as long as the stripped text, and empty exactly when the stripped text is. |
| Normalization.NormalizeAppend | src/lib.rs:97-101 | Deletion followed by transliteration distributes over concatenation. |
| Normalization.NormalizeEmpty | src/lib.rs:97-101 | The normalised text is empty exactly when every input character is special. |
| Normalization.NormalizeSingle | src/lib.rs:97-101 | A non-special character normalises to its `char_to_trans`. |
| Normalization.UntransliteratedCharSurvives | src/lib.rs:126-130 | A non-special character with no transliteration stays in place between the normalisations of its neighbours. |
| Normalization.TransliterationKeepsProducedSpecials | src/lib.rs:97-101 | Deletion happens before transliteration, so punctuation produced by the table is kept. |
| Trigrams.Window | src/lib.rs:121 | Every window has three characters. |
| Trigrams.WordToTrigrams | src/lib.rs:118-123 | The loop over `tuple_windows` collects exactly the set of contiguous three-character windows of the word. |
| Trigrams.WindowsAreTrigrams | src/lib.rs:121 | Every window has length 3. |
| Trigrams.WindowsCons | src/lib.rs:118-123 | A word of three or more characters has its first three characters as a window, plus the windows of its tail. |
| Trigrams.WindowsCount | src/lib.rs:118-123 | A word shorter than 3 has no window. A word of n ≥ 3 characters has between 1 and n − 2 distinct windows. |
| Trigrams.WindowsOfTrigram | src/lib.rs:118-123 | A three-character word is its only window. |
| Trigrams.PadWord | src/lib.rs:106-112 | A word shorter than 3 is right-padded with `-` to exactly three characters and keeps its prefix. Longer words are unchanged. |
| Trigrams.ShortWordTrigram | src/lib.rs:105-114 | A short word contributes exactly one trigram: the word followed by `-` up to length 3. |
| Trigrams.WordTrigramsCount | src/lib.rs:105-114 | Every word contributes at least one trigram and at most max(1, n − 2). |
| Trigrams.TrigramsOfWords | src/lib.rs:114-115 | Every collected trigram has length 3. |
| Trigrams.TrigramsOfWordsMember | src/lib.rs:102-115 | A string is collected exactly when it is a window of some padded word. |
| Trigrams.TrigramsOfWordsSameWords | src/lib.rs:114-115 | Repetition and order of words do not matter: word lists with the same members give the same set. |
| Trigrams.TrigramsOfWordsCount | src/lib.rs:102-115 | The set has no more elements than the sum of the words' budgets. |
| Trigrams.MakeTriGrams | src/lib.rs:93-116 | Every element of `make_tri_grams` has length 3. |
| Trigrams.MakeTriGramsOfNothing | src/lib.rs:93-116 | Input made only of special characters has no trigrams. |
| Trigrams.MakeTriGramsEmpty | src/lib.rs:93-116 | The empty string has no trigrams. |
| Trigrams.MakeTriGramsMember | src/lib.rs:96-116 | A string is a trigram of the input exactly when it is a window of some padded word of the normalised text. |
| Utf8.EncodeChar | src/lib.rs:84 | A character takes 1 to 4 bytes. The lead byte announces the length, the rest are continuation bytes, and a single byte means ASCII. |
| Utf8.Encode | src/lib.rs:84 | The encoding has between n and 4n bytes. |
| Utf8.DecodeEncode | src/lib.rs:84 | Decoding the encoding gives back the string. |
| Utf8.EncodeInjective | src/lib.rs:84 | Distinct strings have distinct byte encodings. |
| Utf8.EncodeAppend | src/lib.rs:72-84 | Encoding distributes over concatenation. |
| Utf8.EncodeAscii | src/lib.rs:84 | ASCII text encodes to one byte per character, equal to its code. |
| Hashing.AsU32Be | src/lib.rs:137-142 | The shifts and sum never overflow 32 bits. The result is d0·2^24 + d1·2^16 + d2·2^8 + d3. |
| Hashing.AsU32BeKeepsFirstFour | src/lib.rs:135-142 | The big-endian bytes of the result are the digest's first four bytes. |
| Hashing.AsU32BeOfBeBytes | src/lib.rs:135-142 | A digest that starts with the big-endian bytes of x reads back as x. |
| Hashing.AsU32BeFirstFourOnly | src/lib.rs:135-142 | Only the first four bytes matter: digests that agree there give the same value. |
| Hashing.ChainAll | src/lib.rs:70-74 | Folding `chain` over chunks absorbs their concatenation after what was already absorbed. |
| Hashing.PartialHasher | src/lib.rs:71-75 | The definition of `partial_sha256`: a fresh context folded with `chain` over the partition's bytes (when present) and then the salt. `PartialHasherAbsorbs` states what it holds. |
| Hashing.HashInput | src/lib.rs:77-79 | The definition of the message hashed for a trigram: partition bytes ‖ salt ‖ UTF-8 trigram. `ShortHash` shows the cloned partial hasher hashes exactly this, and `HashInputInjective` shows the trigram is recoverable from it. |
| Hashing.PartialHasherAbsorbs | src/lib.rs:70-74 | The reusable partial hasher has absorbed the partition bytes (none for `None`) followed by the salt. |
| Hashing.ShortHash | src/lib.rs:76-79 | A trigram's fingerprint is `as_u32_be` of SHA-256 over partition ‖ salt ‖ UTF-8 trigram. |
| Hashing.HashInputInjective | src/lib.rs:70-84 | For a fixed partition and salt, distinct trigrams give distinct hashed messages. |
| Hashing.EmptyPartitionIsNoPartition | src/lib.rs:70-74 | A partition of `Some("")` fingerprints exactly like no partition. |
| Hashing.PartitionSaltBoundary | src/lib.rs:70-74 | Partition and salt are concatenated with no separator, so moving bytes from the partition's end to the salt's front hashes the same message. |
| Hashing.HashesOf | src/lib.rs:82-85 | The definition of the `map` then `collect`: the set of `short_hash` values of the trigrams. `HashTrigrams` computes it one trigram at a time. |
| Hashing.Fingerprints | src/lib.rs:82-85 | The genuine fingerprints of a string: `HashesOf` applied to `make_tri_grams`. `HashesOfCount` bounds it by the number of trigrams, and `FingerprintsMember` characterises its elements. |
| Hashing.FingerprintsOfOneTrigram | src/lib.rs:82-85 | A string with exactly one trigram has exactly one fingerprint: `as_u32_be` of SHA-256 over that trigram's message. |
| Hashing.HashesOfAdd | src/lib.rs:81-84 | Hashing one more trigram adds its fingerprint, which may already be present. |
| Hashing.HashesOfCount | src/lib.rs:81-84 | There are never more fingerprints than trigrams, since collisions merge them. |
| Hashing.HashTrigrams | src/lib.rs:81-84 | The loop collects exactly the image of the trigram set under `short_hash`. |
| Hashing.GenerateHashes | src/lib.rs:65-91 | The result is `Err` exactly when there are more than 225 fingerprints, and then it carries the crate's message (with more than 225 trigrams). Otherwise it is `Ok` with the fingerprint set, of size at most 225. |
| Hashing.FingerprintsMember | src/lib.rs:81-84 | x is a fingerprint exactly when some trigram of the input hashes to it. |
| Hashing.WithinCapacity | src/lib.rs:81-91 | At most 225 trigrams (or a word budget of at most 225) guarantees no error. |
| Hashing.FingerprintsOfNothing | src/lib.rs:81-93 | Text of special characters only gives the empty fingerprint set. |
| Padding.ToAddBound | src/lib.rs:37-49 | The exclusive bound of `to_add` is one of 200, 30, 10 or 5. |
| Padding.TierFrequencies | src/lib.rs:19-49 | Of the 200 equally likely tier rolls, 1, 4, 45 and 150 select the four tiers. |
| Padding.IsToAdd | src/lib.rs:41-49 | The definition of the values `gen_range(1, b)` can draw for `to_add`: 1 up to, but not including, the tier's bound `ToAddBound(roll)`. |
| Padding.PadLen | src/lib.rs:50 | `pad_len` is at most `to_add` and keeps the total at most 225. It equals `to_add` unless it fills to exactly 225, and is at least 1 while there is room. |
| Padding.Taken | src/lib.rs:52-56 | The definition of the values `.take(pad_len)` yields: the set of the first n draws of the stream. `TakenCount` bounds its size. |
| Padding.TakenCount | src/lib.rs:51-56 | n draws contribute at most n distinct values. |
| Padding.PaddingGrowsUnlessCollision | src/lib.rs:51-56 | Padding enlarges the set exactly when some taken draw is not already in it. |
| Padding.PaddedSize | src/lib.rs:50-58 | Padding a genuine set that fits keeps every genuine fingerprint. It adds at most `to_add` values, stays at most 225 and is never empty, even for a string without trigrams. |
| Padding.PadHashes | src/lib.rs:51-56 | Extending with the first `pad_len` draws gives the genuine set plus those draws. The genuine set is a subset of the result, which grows by at most `pad_len`. |
| Padding.GenerateHashesWithPadding | src/lib.rs:29-59 | It fails exactly as the unpadded call does. Otherwise the result is the genuine fingerprints plus the first `pad_len` draws: a superset of the genuine set, at most `to_add` larger, and holding between 1 and 225 values. |
| KnownCases.NormalizeAscii | src/lib.rs:96-101 | ASCII text without special characters normalises to its lowercase form (under an ASCII-preserving table). |
| KnownCases.AsU32BeKnownResult | src/lib.rs:182-191 | Bytes 1, 2, 3, 4 followed by zeros read as 16909060. |
| KnownCases.WordToTrigramsKnown | src/lib.rs:194-197 | "five" has the windows {"fiv", "ive"}. |
| KnownCases.TrigramsOfMultiWord | src/lib.rs:200-208 | The words "123", "jose", "nunez" and "8121117654" give the test's 14 trigrams. |
| KnownCases.NormalizeJose | src/lib.rs:200-208 | "José" normalises to "jose". |
| KnownCases.NormalizeNunez | src/lib.rs:200-208 | "Núñez" normalises to "nunez". |
| KnownCases.PhoneNumberIsOneWord | src/lib.rs:200-208 | "812-111-7654" has the same trigrams as "8121117654", for every table and segmenter. |
| KnownCases.MakeTriGramsNonAscii | src/lib.rs:211-216 | "TİRYAKİ" gives {"tir", "iry", "rya", "yak", "aki"}. |
| KnownCases.TrigramsOfRepeatedWord | src/lib.rs:219-224 | The word "tiryaki" twice gives its five trigrams once. |
| KnownCases.MakeTriGramsShortNonAscii | src/lib.rs:227-229 | "Tİ" gives {"ti-"}. |
| KnownCases.MakeTriGramsMultichar | src/lib.rs:232-237 | "志    豪 İ" gives {"zhi", "hao", "i--"}, because transliterations carry their own trailing spaces. |
| KnownCases.MakeTriGramsArabic | src/lib.rs:240-245 | "شريط فو" gives {"shr", "hry", "ryt", "fw-"}. |
| KnownCases.MakeTriGramsShortMultibyte | src/lib.rs:247-252 | Two characters without transliteration are kept and padded to one three-character trigram. |
| KnownCases.CharToTransLatinizable | src/lib.rs:255-257 | `İ` becomes "i". |
| KnownCases.CharToTransNotLatinizable | src/lib.rs:260-263 | U+102AE, which has no transliteration, stays itself. |
| KnownCases.KnownHashInput | src/lib.rs:265-275 | The message hashed for "123" under partition "foo" and salt [0] is the bytes of "foo", then 0, then "123". |
| KnownCases.GenerateHashesKnownValue | src/lib.rs:265-277 | The fingerprint set of "123" is exactly {as_u32_be(SHA-256("foo" ‖ 0 ‖ "123"))}. |

## Left out

- SHA-256 itself: the parameter `sha256`, any function to 32-byte digests.
- The `unidecode` table: the parameter `unidecode`, any map from a character
  to a string. The known cases list the table entries each one uses.
- Word segmentation (`voca_rs` `_words`): the parameter `words`, any map from
  text to a word list. The known cases list the segmentation each one uses.
- The regex engine: the class at src/lib.rs:16 is a predicate on characters,
  and `replace_all(s, "")` is modelled as deleting each match.
- `take_lock`, the `Mutex` and lock poisoning (a panic): concurrency, not
  modelled.
- The random generator and its distributions: the tier roll, `to_add` and the
  padding draws are parameters restricted to the ranges drawn from.
  `TierFrequencies` counts the tier rolls, but uniformity itself is not stated.
- `HashSet` mechanics and iteration order: sets are Dafny `set`s.
- Normalization.ToLowercase: lowercases only `A`-`Z`. Rust's
  `str::to_lowercase` is Unicode-aware, but it is applied only to `unidecode`
  output, which is ASCII.
- KnownCases.TrigramsOfMultiWord: the multi-word test (src/lib.rs:200-208) is
  stated in pieces. These are its words' trigrams, the normalisations of
  "José" and "Núñez", and `PhoneNumberIsOneWord`. The whole 28-character
  string's normalisation is not one lemma. `NormalizeAppend` is what
  composes the pieces.
- KnownCases.TrigramsOfRepeatedWord: the duplicates test (src/lib.rs:219-224)
  is stated for the segmenter's output (the word twice) rather than for the
  15-character input string. The single-word normalisation is
  `NormalizeTiryaki`.
- The padding test at src/lib.rs:280-285 claims a result with more than one
  value. `PaddingGrowsUnlessCollision` shows this holds only when some draw
  differs from the genuine fingerprint. The test's claim is not stated as a
  lemma, because it is not always true.
- The too-long test at src/lib.rs:288-296 uses 1000 random alphanumeric
  characters. The model states only the rule it exercises: `GenerateHashes`
  fails exactly when more than 225 fingerprints result.

## Notes on the source

- The capacity check is `len > 225`, so exactly 225 fingerprints are
  accepted, although the error text says "less than 225". With 225 genuine
  fingerprints, `pad_len` is 0 and no padding is added (`PadLen`).
- `gen_range(1, n)` excludes `n`, so `to_add` lies in [1, n − 1] (`IsToAdd`).
- A partition of `Some("")` produces the same fingerprints as `None`
  (`EmptyPartitionIsNoPartition`). Partition and salt are concatenated
  without a separator (`PartitionSaltBoundary`).
