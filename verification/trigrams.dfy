/**
  Trigram extraction (`make_tri_grams` and `word_to_trigrams`,
  src/lib.rs:93-123). The normalised text is split into words; a word shorter
  than three characters is right-padded with `-` to exactly three; every
  contiguous window of three characters of every word is collected into one
  set. Lengths and windows count characters (Unicode scalar values), never
  bytes.

  Word segmentation (the `voca_rs` `_words` splitter, which follows Unicode
  Standard Annex #29, section 4) is not modelled: it is the parameter `words`.
*/
module Trigrams {
  import opened Normalization

  /** The character that right-pads a short word. */
  const Filler: char := '-'

  /** The three characters of `w` starting at position `i`. */
  function Window(w: string, i: nat): (t: string)
    requires i + 3 <= |w|
    ensures |t| == 3
  {
    w[i..i + 3]
  }

  /** Every contiguous window of three characters of `w`. */
  function Windows(w: string): set<string> {
    set i: nat | i + 3 <= |w| :: Window(w, i)
  }

  /** `word_to_trigrams`: slides a three-character window over `w`, as `tuple_windows` does. */
  method WordToTrigrams(w: string) returns (r: set<string>)
    ensures r == Windows(w)
  {
    r := {};
    var i := 0;
    while i + 3 <= |w|
      invariant 0 <= i && (i == 0 || i + 2 <= |w|)
      invariant r == set j: nat | j < i && j + 3 <= |w| :: Window(w, j)
    {
      r := r + {Window(w, i)};
      i := i + 1;
    }
  }

  lemma WindowsAreTrigrams(w: string)
    ensures forall t :: t in Windows(w) ==> |t| == 3
  {
  }

  /** A word of at least three characters: its first window, then the windows of the rest. */
  lemma WindowsCons(w: string)
    requires |w| >= 3
    ensures Windows(w) == {w[..3]} + Windows(w[1..])
  {
    var rest := w[1..];
    forall t | t in Windows(w)
      ensures t in {w[..3]} + Windows(rest)
    {
      var i: nat :| i + 3 <= |w| && t == Window(w, i);
      if i > 0 {
        assert t == Window(rest, i - 1);
      }
    }
    forall t | t in Windows(rest)
      ensures t in Windows(w)
    {
      var i: nat :| i + 3 <= |rest| && t == Window(rest, i);
      assert t == Window(w, i + 1);
    }
    assert w[..3] == Window(w, 0);
  }

  /**
    A word of n >= 3 characters has at most n - 2 distinct windows; a word of
    fewer than three characters has none.
  */
  lemma {:induction false} WindowsCount(w: string)
    ensures |w| < 3 ==> Windows(w) == {}
    ensures |w| >= 3 ==> 1 <= |Windows(w)| <= |w| - 2
  {
    if |w| >= 3 {
      WindowsCons(w);
      WindowsCount(w[1..]);
    }
  }

  /** A word of exactly three characters is its own only window. */
  lemma WindowsOfTrigram(w: string)
    requires |w| == 3
    ensures Windows(w) == {w}
  {
    WindowsCons(w);
    WindowsCount(w[1..]);
    assert w[..3] == w;
  }

  /** The `{:-<3}` formatting: a word shorter than three characters is right-padded with `-` to three. */
  function PadWord(w: string): (r: string)
    ensures |w| < 3 ==> |r| == 3 && r[..|w|] == w && forall i :: |w| <= i < 3 ==> r[i] == Filler
    ensures |w| >= 3 ==> r == w
  {
    if |w| < 3 then w + seq(3 - |w|, _ => Filler) else w
  }

  /** What one word contributes: the windows of the word after padding. */
  function WordTrigrams(w: string): set<string> {
    Windows(PadWord(w))
  }

  /**
    A word shorter than three characters contributes exactly one trigram: the
    word itself followed by `-` up to three characters (so "x" gives "x--",
    never "x-x").
  */
  lemma ShortWordTrigram(w: string)
    requires |w| < 3
    ensures WordTrigrams(w) == {PadWord(w)}
    ensures PadWord(w) == w + seq(3 - |w|, _ => Filler)
  {
    WindowsOfTrigram(PadWord(w));
  }

  /** Every word, even an empty one, contributes at least one trigram, and at most max(1, n - 2). */
  lemma WordTrigramsCount(w: string)
    ensures 1 <= |WordTrigrams(w)| <= Budget(w)
  {
    WindowsCount(PadWord(w));
  }

  /** The most trigrams a word of n characters can contribute: max(1, n - 2). */
  function Budget(w: string): nat {
    if |w| < 3 then 1 else |w| - 2
  }

  /** The trigrams of all the words, collected into one set (`flat_map` then `collect`). */
  function TrigramsOfWords(ws: seq<string>): (r: set<string>)
    ensures forall t :: t in r ==> |t| == 3
  {
    if ws == [] then {}
    else
      WindowsAreTrigrams(PadWord(ws[0]));
      WordTrigrams(ws[0]) + TrigramsOfWords(ws[1..])
  }

  /** A trigram is collected exactly when some word contributes it. */
  lemma {:induction false} TrigramsOfWordsMember(ws: seq<string>, t: string)
    ensures t in TrigramsOfWords(ws) <==> exists k :: 0 <= k < |ws| && t in WordTrigrams(ws[k])
  {
    if ws != [] {
      TrigramsOfWordsMember(ws[1..], t);
      if exists k :: 0 <= k < |ws| && t in WordTrigrams(ws[k]) {
        var k :| 0 <= k < |ws| && t in WordTrigrams(ws[k]);
        if k > 0 {
          assert ws[1..][k - 1] == ws[k];
        }
      }
      if exists k :: 0 <= k < |ws| - 1 && t in WordTrigrams(ws[1..][k]) {
        var k :| 0 <= k < |ws| - 1 && t in WordTrigrams(ws[1..][k]);
        assert ws[k + 1] == ws[1..][k];
      }
    }
  }

  /**
    The collected set depends only on which words occur: their order and
    repetitions do not matter, so a repeated word adds nothing.
  */
  lemma TrigramsOfWordsSameWords(ws: seq<string>, vs: seq<string>)
    requires forall w :: w in ws <==> w in vs
    ensures TrigramsOfWords(ws) == TrigramsOfWords(vs)
  {
    forall t | t in TrigramsOfWords(ws)
      ensures t in TrigramsOfWords(vs)
    {
      TrigramsOfWordsMember(ws, t);
      var k :| 0 <= k < |ws| && t in WordTrigrams(ws[k]);
      assert ws[k] in vs;
      var m :| 0 <= m < |vs| && vs[m] == ws[k];
      TrigramsOfWordsMember(vs, t);
    }
    forall t | t in TrigramsOfWords(vs)
      ensures t in TrigramsOfWords(ws)
    {
      TrigramsOfWordsMember(vs, t);
      var k :| 0 <= k < |vs| && t in WordTrigrams(vs[k]);
      assert vs[k] in ws;
      var m :| 0 <= m < |ws| && ws[m] == vs[k];
      TrigramsOfWordsMember(ws, t);
    }
  }

  /** The total budget of a word list: the sum of max(1, n - 2) over its words. */
  function TotalBudget(ws: seq<string>): nat {
    if ws == [] then 0 else Budget(ws[0]) + TotalBudget(ws[1..])
  }

  /** A word list yields at most its total budget of distinct trigrams. */
  lemma {:induction false} TrigramsOfWordsCount(ws: seq<string>)
    ensures |TrigramsOfWords(ws)| <= TotalBudget(ws)
  {
    if ws != [] {
      WordTrigramsCount(ws[0]);
      TrigramsOfWordsCount(ws[1..]);
      var a := WordTrigrams(ws[0]);
      var b := TrigramsOfWords(ws[1..]);
      assert |a + b| <= |a| + |b|;
    }
  }

  /** `make_tri_grams`: normalise, split into words, collect the trigrams of every (padded) word. */
  function MakeTriGrams(unidecode: char -> string, words: string -> seq<string>, s: string): (r: set<string>)
    ensures forall t :: t in r ==> |t| == 3
  {
    TrigramsOfWords(words(Normalize(unidecode, s)))
  }

  /** Text that normalises to nothing (empty, or special characters only) has no trigrams. */
  lemma MakeTriGramsOfNothing(unidecode: char -> string, words: string -> seq<string>, s: string)
    requires words([]) == []
    requires forall i :: 0 <= i < |s| ==> IsSpecial(s[i])
    ensures MakeTriGrams(unidecode, words, s) == {}
  {
    NormalizeEmpty(unidecode, s);
  }

  /** The empty string has no trigrams. */
  lemma MakeTriGramsEmpty(unidecode: char -> string, words: string -> seq<string>)
    requires words([]) == []
    ensures MakeTriGrams(unidecode, words, []) == {}
  {
    MakeTriGramsOfNothing(unidecode, words, []);
  }

  /** The trigrams are exactly the windows of the padded words the segmenter returns. */
  lemma MakeTriGramsMember(unidecode: char -> string, words: string -> seq<string>, s: string, t: string)
    ensures var ws := words(Normalize(unidecode, s));
      t in MakeTriGrams(unidecode, words, s) <==> exists k :: 0 <= k < |ws| && t in Windows(PadWord(ws[k]))
  {
    TrigramsOfWordsMember(words(Normalize(unidecode, s)), t);
  }
}
