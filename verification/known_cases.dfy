/**
  The library's unit tests (src/lib.rs:169-297), restated as lemmas about the
  model. A test that depends on the transliteration table or on word
  segmentation holds here for every table that maps each ASCII character to
  itself and agrees with the library's on the test's other characters, and
  for every segmenter that splits the test's normalised text as the
  library's does; the requires clauses list those conditions.
*/
module KnownCases {
  import opened Common
  import Utf8
  import opened Normalization
  import opened Trigrams
  import opened Hashing

  /** The transliteration table maps every ASCII character to itself, as the library's does. */
  predicate KeepsAscii(unidecode: char -> string) {
    forall c: char :: c as int < 0x80 ==> unidecode(c) == [c]
  }

  predicate IsPlainAscii(s: string) {
    forall i :: 0 <= i < |s| ==> s[i] as int < 0x80 && !IsSpecial(s[i])
  }

  /** ASCII text without special characters normalises to its lowercase form. */
  lemma {:induction false} NormalizeAscii(unidecode: char -> string, s: string)
    requires KeepsAscii(unidecode) && IsPlainAscii(s)
    ensures Normalize(unidecode, s) == ToLowercase(s)
  {
    if s != [] {
      NormalizeAscii(unidecode, s[1..]);
      assert s == [s[0]] + s[1..];
      NormalizeAppend(unidecode, [s[0]], s[1..]);
      NormalizeSingle(unidecode, s[0]);
      assert ToLowercase([s[0]]) == [LowerChar(s[0])];
    }
  }

  lemma AsciiPiece(unidecode: char -> string, s: string, r: string)
    requires KeepsAscii(unidecode) && IsPlainAscii(s) && ToLowercase(s) == r
    ensures Normalize(unidecode, s) == r
  {
    NormalizeAscii(unidecode, s);
  }

  /** A character with a lowercase transliteration normalises to it. */
  lemma CharPiece(unidecode: char -> string, c: char, r: string)
    requires !IsSpecial(c) && unidecode(c) != [] && ToLowercase(unidecode(c)) == r
    ensures Normalize(unidecode, [c]) == r
  {
    NormalizeSingle(unidecode, c);
  }

  /** Normalising two pieces and concatenating the results normalises their concatenation. */
  lemma Join(unidecode: char -> string, s: string, t: string, st: string, rs: string, rt: string, rst: string)
    requires Normalize(unidecode, s) == rs && Normalize(unidecode, t) == rt
    requires s + t == st && rs + rt == rst
    ensures Normalize(unidecode, st) == rst
  {
    NormalizeAppend(unidecode, s, t);
  }

  lemma AsU32BeKnownResult()
    ensures AsU32Be([1, 2, 3, 4] + seq(28, _ => 0)) == 16909060
  {
  }

  lemma WordToTrigramsKnown()
    ensures Windows("five") == {"fiv", "ive"}
  {
    var w := "five";
    WindowsCons(w);
    assert w[..3] == "fiv";
    assert w[1..] == "ive";
    WindowsOfTrigram("ive");
  }

  lemma WindowsTiryaki()
    ensures Windows("tiryaki") == {"tir", "iry", "rya", "yak", "aki"}
  {
    var w := "tiryaki";
    WindowsCons(w);
    WindowsCons(w[1..]);
    WindowsCons(w[2..]);
    WindowsCons(w[3..]);
    WindowsOfTrigram(w[4..]);
    assert w[..3] == "tir" && w[1..][..3] == "iry" && w[2..][..3] == "rya" && w[3..][..3] == "yak" && w[4..] == "aki";
    assert w[1..][1..] == w[2..] && w[2..][1..] == w[3..] && w[3..][1..] == w[4..];
  }

  lemma TrigramsOfWordsCons(w: string, ws: seq<string>)
    ensures TrigramsOfWords([w] + ws) == WordTrigrams(w) + TrigramsOfWords(ws)
  {
    assert ([w] + ws)[1..] == ws;
  }

  lemma WindowsPhoneTail()
    ensures Windows("117654") == {"117", "176", "765", "654"}
  {
    var w := "117654";
    WindowsCons(w);
    WindowsCons(w[1..]);
    WindowsCons(w[2..]);
    WindowsOfTrigram(w[3..]);
    assert w[..3] == "117" && w[1..][..3] == "176" && w[2..][..3] == "765" && w[3..] == "654";
    assert w[1..][1..] == w[2..] && w[2..][1..] == w[3..];
  }

  lemma WindowsPhone()
    ensures Windows("8121117654") == {"812", "121", "211", "111", "117", "176", "765", "654"}
  {
    var w := "8121117654";
    WindowsCons(w);
    WindowsCons(w[1..]);
    WindowsCons(w[2..]);
    WindowsCons(w[3..]);
    WindowsPhoneTail();
    assert w[..3] == "812" && w[1..][..3] == "121" && w[2..][..3] == "211" && w[3..][..3] == "111";
    assert w[1..][1..] == w[2..] && w[2..][1..] == w[3..] && w[3..][1..] == w[4..] && w[4..] == "117654";
  }

  /** One word's trigrams. */
  lemma TrigramsOfOneWord(w: string)
    ensures TrigramsOfWords([w]) == WordTrigrams(w)
  {
    TrigramsOfWordsCons(w, []);
  }

  lemma PhoneNumberFirstHyphen(unidecode: char -> string)
    ensures Normalize(unidecode, "812-111-7654") == Normalize(unidecode, "812111-7654")
  {
    SpecialCharDeleted(unidecode, "812", '-', "111-7654");
    assert "812" + ['-'] + "111-7654" == "812-111-7654";
    assert "812" + "111-7654" == "812111-7654";
  }

  lemma PhoneNumberSecondHyphen(unidecode: char -> string)
    ensures Normalize(unidecode, "812111-7654") == Normalize(unidecode, "8121117654")
  {
    SpecialCharDeleted(unidecode, "812111", '-', "7654");
    assert "812111" + ['-'] + "7654" == "812111-7654";
    assert "812111" + "7654" == "8121117654";
  }

  /** The hyphens of a phone number are deleted, so it is split and hashed as one word. */
  lemma PhoneNumberIsOneWord(unidecode: char -> string, words: string -> seq<string>)
    ensures MakeTriGrams(unidecode, words, "812-111-7654") == MakeTriGrams(unidecode, words, "8121117654")
  {
    PhoneNumberFirstHyphen(unidecode);
    PhoneNumberSecondHyphen(unidecode);
  }

  lemma CharToTransLatinizable(unidecode: char -> string)
    requires unidecode('\U{0130}') == "I"
    ensures CharToTrans(unidecode, '\U{0130}') == "i"
  {
  }

  lemma CharToTransNotLatinizable(unidecode: char -> string)
    requires unidecode('\U{102AE}') == []
    ensures CharToTrans(unidecode, '\U{102AE}') == "\U{102AE}"
  {
  }

  lemma NormalizeTi(unidecode: char -> string)
    requires KeepsAscii(unidecode) && unidecode('\U{0130}') == "I"
    ensures Normalize(unidecode, "T\U{0130}") == "ti"
  {
    CharPiece(unidecode, 'T', "t");
    CharPiece(unidecode, '\U{0130}', "i");
    Join(unidecode, "T", "\U{0130}", "T\U{0130}", "t", "i", "ti");
  }

  /** A short word of transliterated characters is padded after transliteration. */
  lemma MakeTriGramsShortNonAscii(unidecode: char -> string, words: string -> seq<string>)
    requires KeepsAscii(unidecode) && unidecode('\U{0130}') == "I"
    requires words("ti") == ["ti"]
    ensures MakeTriGrams(unidecode, words, "T\U{0130}") == {"ti-"}
  {
    NormalizeTi(unidecode);
    TrigramsOfOneWord("ti");
    ShortWordTrigram("ti");
    assert PadWord("ti") == "ti-";
  }

  /** Characters the table cannot transliterate are kept, and a short word of them is padded. */
  lemma MakeTriGramsShortMultibyte(unidecode: char -> string, words: string -> seq<string>)
    requires unidecode('\U{102AE}') == [] && unidecode('\U{102AF}') == []
    requires words("\U{102AE}\U{102AF}") == ["\U{102AE}\U{102AF}"]
    ensures MakeTriGrams(unidecode, words, "\U{102AE}\U{102AF}") == {"\U{102AE}\U{102AF}-"}
  {
    var w := "\U{102AE}\U{102AF}";
    UntransliteratedCharSurvives(unidecode, [], '\U{102AE}', ['\U{102AF}']);
    UntransliteratedCharSurvives(unidecode, [], '\U{102AF}', []);
    assert [] + ['\U{102AE}'] + ['\U{102AF}'] == w;
    assert Normalize(unidecode, w) == w;
    TrigramsOfOneWord(w);
    ShortWordTrigram(w);
    assert PadWord(w) == "\U{102AE}\U{102AF}-";
  }

  lemma NormalizeRyaki(unidecode: char -> string)
    requires KeepsAscii(unidecode) && unidecode('\U{0130}') == "I"
    ensures Normalize(unidecode, "RYAK\U{0130}") == "ryaki"
  {
    AsciiPiece(unidecode, "RYAK", "ryak");
    CharPiece(unidecode, '\U{0130}', "i");
    Join(unidecode, "RYAK", "\U{0130}", "RYAK\U{0130}", "ryak", "i", "ryaki");
  }

  lemma NormalizeTiryaki(unidecode: char -> string)
    requires KeepsAscii(unidecode) && unidecode('\U{0130}') == "I"
    ensures Normalize(unidecode, "T\U{0130}RYAK\U{0130}") == "tiryaki"
  {
    NormalizeTi(unidecode);
    NormalizeRyaki(unidecode);
    Join(unidecode, "T\U{0130}", "RYAK\U{0130}", "T\U{0130}RYAK\U{0130}", "ti", "ryaki", "tiryaki");
  }

  lemma MakeTriGramsNonAscii(unidecode: char -> string, words: string -> seq<string>)
    requires KeepsAscii(unidecode) && unidecode('\U{0130}') == "I"
    requires words("tiryaki") == ["tiryaki"]
    ensures MakeTriGrams(unidecode, words, "T\U{0130}RYAK\U{0130}") == {"tir", "iry", "rya", "yak", "aki"}
  {
    NormalizeTiryaki(unidecode);
    TrigramsOfOneWord("tiryaki");
    WindowsTiryaki();
  }

  lemma MakeTriGramsOfThreeDigits(unidecode: char -> string, words: string -> seq<string>)
    requires KeepsAscii(unidecode) && words("123") == ["123"]
    ensures MakeTriGrams(unidecode, words, "123") == {"123"}
  {
    AsciiPiece(unidecode, "123", "123");
    TrigramsOfOneWord("123");
    WindowsOfTrigram("123");
  }

  /** A word that occurs twice contributes its trigrams once. */
  lemma TrigramsOfRepeatedWord()
    ensures TrigramsOfWords(["tiryaki", "tiryaki"]) == {"tir", "iry", "rya", "yak", "aki"}
  {
    TrigramsOfWordsSameWords(["tiryaki", "tiryaki"], ["tiryaki"]);
    TrigramsOfOneWord("tiryaki");
    WindowsTiryaki();
  }

  /** The bytes hashed for trigram "123" under partition "foo" and salt [0]. */
  lemma KnownHashInput()
    ensures HashInput(Some("foo"), [0], "123") == [0x66, 0x6F, 0x6F, 0x00, 0x31, 0x32, 0x33]
  {
    Utf8.EncodeAscii("foo");
    Utf8.EncodeAscii("123");
  }

  /** The fingerprint of "123" under partition "foo" and salt [0] is that of the bytes "foo", 0, "123". */
  lemma GenerateHashesKnownValue(sha256: seq<byte> -> Digest, unidecode: char -> string, words: string -> seq<string>)
    requires KeepsAscii(unidecode) && words("123") == ["123"]
    ensures Fingerprints(sha256, unidecode, words, "123", Some("foo"), [0])
         == {AsU32Be(sha256([0x66, 0x6F, 0x6F, 0x00, 0x31, 0x32, 0x33]))}
  {
    MakeTriGramsOfThreeDigits(unidecode, words);
    FingerprintsOfOneTrigram(sha256, unidecode, words, "123", Some("foo"), [0], "123");
    KnownHashInput();
  }

  /** The entries of the transliteration table that the Arabic example uses. */
  predicate ArabicTable(unidecode: char -> string) {
    && unidecode('\U{0634}') == "sh" && unidecode('\U{0631}') == "r" && unidecode('\U{064A}') == "y"
    && unidecode('\U{0637}') == "t" && unidecode('\U{0641}') == "f" && unidecode('\U{0648}') == "w"
  }

  lemma NormalizeArabicFirst(unidecode: char -> string)
    requires ArabicTable(unidecode)
    ensures Normalize(unidecode, "\U{0634}\U{0631}") == "shr"
  {
    CharPiece(unidecode, '\U{0634}', "sh");
    CharPiece(unidecode, '\U{0631}', "r");
    Join(unidecode, "\U{0634}", "\U{0631}", "\U{0634}\U{0631}", "sh", "r", "shr");
  }

  lemma NormalizeArabicSecond(unidecode: char -> string)
    requires ArabicTable(unidecode)
    ensures Normalize(unidecode, "\U{064A}\U{0637}") == "yt"
  {
    CharPiece(unidecode, '\U{064A}', "y");
    CharPiece(unidecode, '\U{0637}', "t");
    Join(unidecode, "\U{064A}", "\U{0637}", "\U{064A}\U{0637}", "y", "t", "yt");
  }

  lemma NormalizeArabicThird(unidecode: char -> string)
    requires KeepsAscii(unidecode) && ArabicTable(unidecode)
    ensures Normalize(unidecode, " \U{0641}\U{0648}") == " fw"
  {
    CharPiece(unidecode, ' ', " ");
    CharPiece(unidecode, '\U{0641}', "f");
    CharPiece(unidecode, '\U{0648}', "w");
    Join(unidecode, " ", "\U{0641}", " \U{0641}", " ", "f", " f");
    Join(unidecode, " \U{0641}", "\U{0648}", " \U{0641}\U{0648}", " f", "w", " fw");
  }

  lemma NormalizeArabicWord(unidecode: char -> string)
    requires ArabicTable(unidecode)
    ensures Normalize(unidecode, "\U{0634}\U{0631}\U{064A}\U{0637}") == "shryt"
  {
    NormalizeArabicFirst(unidecode);
    NormalizeArabicSecond(unidecode);
    Join(unidecode, "\U{0634}\U{0631}", "\U{064A}\U{0637}", "\U{0634}\U{0631}\U{064A}\U{0637}", "shr", "yt", "shryt");
  }

  lemma NormalizeArabic(unidecode: char -> string)
    requires KeepsAscii(unidecode) && ArabicTable(unidecode)
    ensures Normalize(unidecode, "\U{0634}\U{0631}\U{064A}\U{0637} \U{0641}\U{0648}") == "shryt fw"
  {
    NormalizeArabicWord(unidecode);
    NormalizeArabicThird(unidecode);
    Join(unidecode, "\U{0634}\U{0631}\U{064A}\U{0637}", " \U{0641}\U{0648}", "\U{0634}\U{0631}\U{064A}\U{0637} \U{0641}\U{0648}",
         "shryt", " fw", "shryt fw");
  }

  /** A five-character word has the three windows starting at positions 0, 1 and 2. */
  lemma WindowsOfFive(w: string)
    requires |w| == 5
    ensures Windows(w) == {w[..3], w[1..4], w[2..]}
  {
    WindowsCons(w);
    WindowsCons(w[1..]);
    WindowsOfTrigram(w[2..]);
    assert w[1..][..3] == w[1..4] && w[1..][1..] == w[2..];
  }

  lemma TrigramsOfFw()
    ensures TrigramsOfWords(["fw"]) == {"fw-"}
  {
    TrigramsOfOneWord("fw");
    ShortWordTrigram("fw");
    assert PadWord("fw") == "fw-";
  }

  lemma TrigramsOfArabic()
    ensures TrigramsOfWords(["shryt", "fw"]) == {"shr", "hry", "ryt", "fw-"}
  {
    TrigramsOfWordsCons("shryt", ["fw"]);
    assert ["shryt"] + ["fw"] == ["shryt", "fw"];
    TrigramsOfFw();
    WindowsOfFive("shryt");
    assert "shryt"[..3] == "shr" && "shryt"[1..4] == "hry" && "shryt"[2..] == "ryt";
  }

  lemma MakeTriGramsArabic(unidecode: char -> string, words: string -> seq<string>)
    requires KeepsAscii(unidecode) && ArabicTable(unidecode)
    requires words("shryt fw") == ["shryt", "fw"]
    ensures MakeTriGrams(unidecode, words, "\U{0634}\U{0631}\U{064A}\U{0637} \U{0641}\U{0648}") == {"shr", "hry", "ryt", "fw-"}
  {
    NormalizeArabic(unidecode);
    TrigramsOfArabic();
  }

  /** The entries of the transliteration table that the multi-character example uses. */
  predicate HanTable(unidecode: char -> string) {
    unidecode('\U{5FD7}') == "Zhi " && unidecode('\U{8C6A}') == "Hao " && unidecode('\U{0130}') == "I"
  }

  lemma NormalizeZhi(unidecode: char -> string)
    requires KeepsAscii(unidecode) && HanTable(unidecode)
    ensures Normalize(unidecode, "\U{5FD7}    ") == "zhi     "
  {
    ToLowercaseChars("Zhi ");
    assert ToLowercase("Zhi ") == "zhi ";
    CharPiece(unidecode, '\U{5FD7}', "zhi ");
    AsciiPiece(unidecode, "    ", "    ");
    Join(unidecode, "\U{5FD7}", "    ", "\U{5FD7}    ", "zhi ", "    ", "zhi     ");
  }

  lemma NormalizeHao(unidecode: char -> string)
    requires KeepsAscii(unidecode) && HanTable(unidecode)
    ensures Normalize(unidecode, "\U{8C6A} \U{0130}") == "hao  i"
  {
    ToLowercaseChars("Hao ");
    assert ToLowercase("Hao ") == "hao ";
    CharPiece(unidecode, '\U{8C6A}', "hao ");
    CharPiece(unidecode, ' ', " ");
    CharPiece(unidecode, '\U{0130}', "i");
    Join(unidecode, "\U{8C6A}", " ", "\U{8C6A} ", "hao ", " ", "hao  ");
    Join(unidecode, "\U{8C6A} ", "\U{0130}", "\U{8C6A} \U{0130}", "hao  ", "i", "hao  i");
  }

  /** A transliteration may contain spaces, so one character can end a word. */
  lemma NormalizeMultichar(unidecode: char -> string)
    requires KeepsAscii(unidecode) && HanTable(unidecode)
    ensures Normalize(unidecode, "\U{5FD7}    \U{8C6A} \U{0130}") == "zhi     hao  i"
  {
    NormalizeZhi(unidecode);
    NormalizeHao(unidecode);
    Join(unidecode, "\U{5FD7}    ", "\U{8C6A} \U{0130}", "\U{5FD7}    \U{8C6A} \U{0130}", "zhi     ", "hao  i", "zhi     hao  i");
  }

  lemma TrigramsOfMultichar()
    ensures TrigramsOfWords(["zhi", "hao", "i"]) == {"zhi", "hao", "i--"}
  {
    TrigramsOfWordsCons("zhi", ["hao", "i"]);
    TrigramsOfWordsCons("hao", ["i"]);
    assert ["zhi"] + ["hao", "i"] == ["zhi", "hao", "i"] && ["hao"] + ["i"] == ["hao", "i"];
    TrigramsOfOneWord("i");
    ShortWordTrigram("i");
    assert PadWord("i") == "i--";
    WindowsOfTrigram("zhi");
    WindowsOfTrigram("hao");
  }

  lemma MakeTriGramsMultichar(unidecode: char -> string, words: string -> seq<string>)
    requires KeepsAscii(unidecode) && HanTable(unidecode)
    requires words("zhi     hao  i") == ["zhi", "hao", "i"]
    ensures MakeTriGrams(unidecode, words, "\U{5FD7}    \U{8C6A} \U{0130}") == {"zhi", "hao", "i--"}
  {
    NormalizeMultichar(unidecode);
    TrigramsOfMultichar();
  }

  /** The entries of the transliteration table that the multi-word example uses. */
  predicate SpanishTable(unidecode: char -> string) {
    KeepsAscii(unidecode) && unidecode('\U{00E9}') == "e" && unidecode('\U{00FA}') == "u" && unidecode('\U{00F1}') == "n"
  }

  lemma NormalizeJose(unidecode: char -> string)
    requires SpanishTable(unidecode)
    ensures Normalize(unidecode, "Jos\U{00E9}") == "jose"
  {
    AsciiPiece(unidecode, "Jos", "jos");
    CharPiece(unidecode, '\U{00E9}', "e");
    Join(unidecode, "Jos", "\U{00E9}", "Jos\U{00E9}", "jos", "e", "jose");
  }

  lemma NormalizeNunez(unidecode: char -> string)
    requires SpanishTable(unidecode)
    ensures Normalize(unidecode, "N\U{00FA}\U{00F1}ez") == "nunez"
  {
    CharPiece(unidecode, 'N', "n");
    CharPiece(unidecode, '\U{00FA}', "u");
    CharPiece(unidecode, '\U{00F1}', "n");
    AsciiPiece(unidecode, "ez", "ez");
    Join(unidecode, "N", "\U{00FA}", "N\U{00FA}", "n", "u", "nu");
    Join(unidecode, "\U{00F1}", "ez", "\U{00F1}ez", "n", "ez", "nez");
    Join(unidecode, "N\U{00FA}", "\U{00F1}ez", "N\U{00FA}\U{00F1}ez", "nu", "nez", "nunez");
  }

  lemma WindowsJose()
    ensures Windows("jose") == {"jos", "ose"}
  {
    WindowsCons("jose");
    assert "jose"[..3] == "jos" && "jose"[1..] == "ose";
    WindowsOfTrigram("ose");
  }

  lemma TrigramsOfMultiWordTail()
    ensures TrigramsOfWords(["nunez", "8121117654"]) == {"nun", "une", "nez", "812", "121", "211", "111", "117", "176", "765", "654"}
  {
    TrigramsOfWordsCons("nunez", ["8121117654"]);
    assert ["nunez"] + ["8121117654"] == ["nunez", "8121117654"];
    TrigramsOfOneWord("8121117654");
    WindowsOfFive("nunez");
    assert "nunez"[..3] == "nun" && "nunez"[1..4] == "une" && "nunez"[2..] == "nez";
    WindowsPhone();
  }

  lemma TrigramsOfMultiWordMiddle()
    ensures TrigramsOfWords(["jose", "nunez", "8121117654"])
         == {"jos", "ose", "nun", "une", "nez", "812", "121", "211", "111", "117", "176", "765", "654"}
  {
    TrigramsOfWordsCons("jose", ["nunez", "8121117654"]);
    assert ["jose"] + ["nunez", "8121117654"] == ["jose", "nunez", "8121117654"];
    TrigramsOfMultiWordTail();
    WindowsJose();
  }

  /** The trigrams of the four words the multi-word example splits into. */
  lemma TrigramsOfMultiWord()
    ensures TrigramsOfWords(["123", "jose", "nunez", "8121117654"])
         == {"123", "jos", "ose", "nun", "une", "nez", "812", "121", "211", "111", "117", "176", "765", "654"}
  {
    TrigramsOfWordsCons("123", ["jose", "nunez", "8121117654"]);
    assert ["123"] + ["jose", "nunez", "8121117654"] == ["123", "jose", "nunez", "8121117654"];
    TrigramsOfMultiWordMiddle();
    WindowsOfTrigram("123");
  }
}
