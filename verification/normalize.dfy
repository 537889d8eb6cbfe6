/**
  Text clean-up ahead of word splitting (`make_tri_grams`, src/lib.rs:96-101):
  the characters of a fixed class are deleted, then every remaining character
  is replaced by its lowercased transliteration, or kept as it is when the
  transliteration table has nothing for it.

  The transliteration table (the `unidecode` crate) is not modelled: it is the
  parameter `unidecode`, any total map from a character to a string.
*/
module Normalization {

  /** The characters of the special-character regex's class, in the order it lists them. */
  const SpecialClass: string := "!@#$%^&*(){}_<>:;,.\"'`|+=/~[]\\-"

  /**
    Membership in the special class, written as the four ASCII punctuation
    ranges it fills minus '?' (see `IsSpecialIsClassMember`).
  */
  predicate IsSpecial(c: char) {
    || '!' <= c <= '/' || ':' <= c <= '>' || c == '@' || '[' <= c <= '`' || '{' <= c <= '~'
  }

  /** The range form agrees with the regex's list, character for character. */
  lemma IsSpecialIsClassMember(c: char)
    ensures IsSpecial(c) <==> c in SpecialClass
  {
  }

  /** Deletes (never replaces) every special character. */
  function StripSpecial(s: string): (r: string)
    ensures |r| <= |s|
  {
    if s == [] then []
    else if IsSpecial(s[0]) then StripSpecial(s[1..])
    else [s[0]] + StripSpecial(s[1..])
  }

  /**
    Deletion leaves no special character behind and keeps every other
    character, as often as it occurs.
  */
  lemma {:induction false} StripSpecialSound(s: string)
    ensures forall i :: 0 <= i < |StripSpecial(s)| ==> !IsSpecial(StripSpecial(s)[i])
    ensures forall c :: !IsSpecial(c) ==> multiset(StripSpecial(s))[c] == multiset(s)[c]
    ensures forall c :: IsSpecial(c) ==> multiset(StripSpecial(s))[c] == 0
  {
    if s != [] {
      StripSpecialSound(s[1..]);
      assert s == [s[0]] + s[1..];
    }
  }

  /** On one character, deletion keeps a non-special character and drops a special one. */
  lemma StripSpecialChar(c: char)
    ensures StripSpecial([c]) == (if IsSpecial(c) then [] else [c])
  {
    assert [c][1..] == [];
  }

  /** Deletion works piecewise, which is what lets it merge the fragments around a deleted character. */
  lemma {:induction false} StripSpecialAppend(s: string, t: string)
    ensures StripSpecial(s + t) == StripSpecial(s) + StripSpecial(t)
  {
    if s == [] {
      assert s + t == t;
    } else {
      assert (s + t)[0] == s[0];
      assert (s + t)[1..] == s[1..] + t;
      StripSpecialAppend(s[1..], t);
    }
  }

  /** Text free of special characters passes through unchanged, so deletion is idempotent. */
  lemma {:induction false} StripSpecialNoop(s: string)
    requires forall i :: 0 <= i < |s| ==> !IsSpecial(s[i])
    ensures StripSpecial(s) == s
  {
    if s != [] {
      StripSpecialNoop(s[1..]);
    }
  }

  lemma StripSpecialIdempotent(s: string)
    ensures StripSpecial(StripSpecial(s)) == StripSpecial(s)
  {
    StripSpecialSound(s);
    StripSpecialNoop(StripSpecial(s));
  }

  const UpperLetters: string := "ABCDEFGHIJKLMNOPQRSTUVWXYZ"
  const LowerLetters: string := "abcdefghijklmnopqrstuvwxyz"

  /**
    `char::to_lowercase` on the ASCII letters: no capital letter comes out,
    only capital letters change, and they become small letters
    (`LowerCharTable` says which).
  */
  function LowerChar(c: char): (r: char)
    ensures !('A' <= r <= 'Z')
    ensures r != c ==> 'A' <= c <= 'Z' && 'a' <= r <= 'z'
  {
    if 'A' <= c <= 'Z' then (c as int + 32) as char else c
  }

  /** The k-th capital letter lowercases to the k-th small letter. */
  lemma LowerCharTable()
    ensures forall k :: 0 <= k < |UpperLetters| ==> LowerChar(UpperLetters[k]) == LowerLetters[k]
  {
  }

  /** `str::to_lowercase` applied character by character. */
  function ToLowercase(s: string): (r: string)
    ensures |r| == |s|
  {
    if s == [] then [] else [LowerChar(s[0])] + ToLowercase(s[1..])
  }

  /** Lowercasing maps each character on its own and leaves no uppercase letter. */
  lemma {:induction false} ToLowercaseChars(s: string)
    ensures forall i :: 0 <= i < |s| ==> ToLowercase(s)[i] == LowerChar(s[i])
    ensures HasNoUppercase(ToLowercase(s))
  {
    if s != [] {
      ToLowercaseChars(s[1..]);
    }
  }

  predicate HasNoUppercase(s: string) {
    forall i :: 0 <= i < |s| ==> !('A' <= s[i] <= 'Z')
  }

  lemma LowercaseNoop(s: string)
    requires HasNoUppercase(s)
    ensures ToLowercase(s) == s
  {
    ToLowercaseChars(s);
  }

  lemma SpecialIsNotLetter(c: char)
    requires IsSpecial(c)
    ensures !('A' <= c <= 'Z')
  {
  }

  /**
    `char_to_trans`: the lowercased transliteration of `c` when the table has
    a non-empty one, otherwise the one-character string `c` itself, not
    case-folded.
  */
  function CharToTrans(unidecode: char -> string, c: char): (r: string)
    ensures |r| >= 1
    ensures unidecode(c) == [] ==> r == [c]
    ensures unidecode(c) != [] ==> |r| == |unidecode(c)|
  {
    var trans := unidecode(c);
    if trans == [] then [c] else ToLowercase(trans)
  }

  /**
    A non-empty transliteration comes out with no uppercase letter, equal to
    the table's entry up to case, and lowercasing it again changes nothing.
  */
  lemma CharToTransLowercase(unidecode: char -> string, c: char)
    requires unidecode(c) != []
    ensures HasNoUppercase(CharToTrans(unidecode, c))
    ensures forall i :: 0 <= i < |unidecode(c)| ==> LowerChar(CharToTrans(unidecode, c)[i]) == LowerChar(unidecode(c)[i])
    ensures ToLowercase(CharToTrans(unidecode, c)) == CharToTrans(unidecode, c)
  {
    ToLowercaseChars(unidecode(c));
    LowercaseNoop(CharToTrans(unidecode, c));
  }

  /** Transliteration of a whole string: the per-character results concatenated in order. */
  function Transliterate(unidecode: char -> string, s: string): (r: string)
    ensures |r| >= |s|
    ensures r == [] <==> s == []
  {
    if s == [] then [] else CharToTrans(unidecode, s[0]) + Transliterate(unidecode, s[1..])
  }

  lemma {:induction false} TransliterateAppend(unidecode: char -> string, s: string, t: string)
    ensures Transliterate(unidecode, s + t) == Transliterate(unidecode, s) + Transliterate(unidecode, t)
  {
    if s == [] {
      assert s + t == t;
    } else {
      assert (s + t)[0] == s[0];
      assert (s + t)[1..] == s[1..] + t;
      TransliterateAppend(unidecode, s[1..], t);
    }
  }

  /** The text handed to word splitting: special characters deleted first, then transliteration. */
  function Normalize(unidecode: char -> string, s: string): (r: string)
    ensures |r| >= |StripSpecial(s)|
    ensures r == [] <==> StripSpecial(s) == []
  {
    Transliterate(unidecode, StripSpecial(s))
  }

  /** Normalising works piecewise. */
  lemma NormalizeAppend(unidecode: char -> string, s: string, t: string)
    ensures Normalize(unidecode, s + t) == Normalize(unidecode, s) + Normalize(unidecode, t)
  {
    StripSpecialAppend(s, t);
    TransliterateAppend(unidecode, StripSpecial(s), StripSpecial(t));
  }

  /** Normalised text is empty exactly when the input consists of special characters only. */
  lemma NormalizeEmpty(unidecode: char -> string, s: string)
    ensures Normalize(unidecode, s) == [] <==> forall i :: 0 <= i < |s| ==> IsSpecial(s[i])
  {
    var r := StripSpecial(s);
    StripSpecialSound(s);
    if r == [] {
      forall i | 0 <= i < |s|
        ensures IsSpecial(s[i])
      {
        assert s[i] in multiset(s);
      }
    } else {
      assert r[0] in multiset(r);
    }
  }

  /**
    A character without transliteration that is not special survives
    normalisation verbatim, between the normalisations of its neighbours.
  */
  lemma UntransliteratedCharSurvives(unidecode: char -> string, s: string, c: char, t: string)
    requires unidecode(c) == [] && !IsSpecial(c)
    ensures Normalize(unidecode, s + [c] + t) == Normalize(unidecode, s) + [c] + Normalize(unidecode, t)
  {
    NormalizeAppend(unidecode, s + [c], t);
    NormalizeAppend(unidecode, s, [c]);
    NormalizeSingle(unidecode, c);
  }

  /**
    A special character is deleted, not replaced: its neighbours meet, so
    "812-111-7654" normalises like "8121117654".
  */
  lemma SpecialCharDeleted(unidecode: char -> string, s: string, c: char, t: string)
    requires IsSpecial(c)
    ensures Normalize(unidecode, s + [c] + t) == Normalize(unidecode, s + t)
  {
    assert Normalize(unidecode, [c]) == [] by {
      assert [c][1..] == [];
    }
    NormalizeAppend(unidecode, s + [c], t);
    NormalizeAppend(unidecode, s, [c]);
    NormalizeAppend(unidecode, s, t);
  }

  lemma NormalizeSingle(unidecode: char -> string, c: char)
    requires !IsSpecial(c)
    ensures Normalize(unidecode, [c]) == CharToTrans(unidecode, c)
  {
    assert [c][1..] == [];
    assert StripSpecial([c]) == [c];
    assert [c][1..] == [];
    assert Transliterate(unidecode, [c]) == CharToTrans(unidecode, c) + Transliterate(unidecode, []);
  }

  /**
    Deletion happens before transliteration, so a special character that a
    transliteration produces stays in the text.
  */
  lemma TransliterationKeepsProducedSpecials(unidecode: char -> string, c: char)
    requires !IsSpecial(c)
    requires unidecode(c) != [] && forall i :: 0 <= i < |unidecode(c)| ==> IsSpecial(unidecode(c)[i])
    ensures Normalize(unidecode, [c]) == unidecode(c)
  {
    NormalizeSingle(unidecode, c);
    var u := unidecode(c);
    forall i | 0 <= i < |u|
      ensures !('A' <= u[i] <= 'Z')
    {
      SpecialIsNotLetter(u[i]);
    }
    LowercaseNoop(u);
  }
}
