/**
  The bytes of a Rust `str` (`str::as_bytes`): the UTF-8 encoding of its
  Unicode scalar values, as defined in section 3 of RFC 3629. The library
  feeds these bytes to the hash, so the encoding fixes which trigrams can
  collide before hashing: none, because the encoding is decodable.
*/
module Utf8 {
  import opened Common

  predicate IsScalarValue(n: int) {
    0 <= n < 0xD800 || 0xE000 <= n < 0x11_0000
  }

  predicate IsContinuation(b: byte) {
    0x80 <= b < 0xC0
  }

  /** The sequence length a leading byte announces; 0 when `lead` cannot start a sequence. */
  function SequenceLength(lead: byte): nat {
    if lead < 0x80 then 1
    else if lead < 0xC2 then 0
    else if lead < 0xE0 then 2
    else if lead < 0xF0 then 3
    else if lead < 0xF5 then 4
    else 0
  }

  /** The encoding of one scalar value: one to four bytes, the first announcing the length. */
  function EncodeChar(c: char): (r: seq<byte>)
    ensures 1 <= |r| <= 4
    ensures SequenceLength(r[0]) == |r|
    ensures forall i :: 1 <= i < |r| ==> IsContinuation(r[i])
    ensures |r| == 1 <==> c as int < 0x80
  {
    var n := c as int;
    if n < 0x80 then [n]
    else if n < 0x800 then [0xC0 + n / 0x40, 0x80 + n % 0x40]
    else if n < 0x1_0000 then [0xE0 + n / 0x1000, 0x80 + n / 0x40 % 0x40, 0x80 + n % 0x40]
    else [0xF0 + n / 0x4_0000, 0x80 + n / 0x1000 % 0x40, 0x80 + n / 0x40 % 0x40, 0x80 + n % 0x40]
  }

  /** `str::as_bytes`: the encodings of the characters, in order. */
  function Encode(s: string): (r: seq<byte>)
    ensures |s| <= |r| <= 4 * |s|
  {
    if s == [] then [] else EncodeChar(s[0]) + Encode(s[1..])
  }

  /**
    Decodes the sequence at the front of `bs`, returning the scalar value and
    the number of bytes it took. Rejects stray continuation bytes, truncated
    sequences, overlong forms, surrogates and values past U+10FFFF.
  */
  function DecodeChar(bs: seq<byte>): (r: Option<(char, nat)>)
    ensures r.Some? ==> 1 <= r.value.1 <= |bs|
  {
    if bs == [] then None
    else
      var k := SequenceLength(bs[0]);
      if k == 0 || |bs| < k || exists i :: 1 <= i < k && !IsContinuation(bs[i]) then None
      else
        var n: int :=
          if k == 1 then bs[0]
          else if k == 2 then (bs[0] as int - 0xC0) * 0x40 + (bs[1] as int - 0x80)
          else if k == 3 then (bs[0] as int - 0xE0) * 0x1000 + (bs[1] as int - 0x80) * 0x40 + (bs[2] as int - 0x80)
          else (bs[0] as int - 0xF0) * 0x4_0000 + (bs[1] as int - 0x80) * 0x1000 + (bs[2] as int - 0x80) * 0x40 + (bs[3] as int - 0x80);
        var least: int := if k == 1 then 0 else if k == 2 then 0x80 else if k == 3 then 0x800 else 0x1_0000;
        if least <= n && IsScalarValue(n) then Some((n as char, k)) else None
  }

  /** Decodes a whole byte sequence, or `None` if it is not well-formed UTF-8. */
  function Decode(bs: seq<byte>): Option<string>
    decreases |bs|
  {
    if bs == [] then Some([])
    else
      match DecodeChar(bs)
      case None => None
      case Some((c, k)) =>
        match Decode(bs[k..])
        case None => None
        case Some(rest) => Some([c] + rest)
  }

  lemma DecodeEncodeChar(c: char, tail: seq<byte>)
    ensures DecodeChar(EncodeChar(c) + tail) == Some((c, |EncodeChar(c)|))
  {
    var e := EncodeChar(c);
    var bs := e + tail;
    assert bs[..|e|] == e;
    var n := c as int;
    if n < 0x80 {
    } else if n < 0x800 {
      TwoByteDigits(n);
    } else if n < 0x1_0000 {
      ThreeByteDigits(n);
    } else {
      FourByteDigits(n);
    }
  }

  lemma TwoByteDigits(n: int)
    requires 0 <= n
    ensures (n / 0x40) * 0x40 + n % 0x40 == n
  {
  }

  lemma ThreeByteDigits(n: int)
    requires 0 <= n < 0x1_0000
    ensures (n / 0x1000) * 0x1000 + (n / 0x40 % 0x40) * 0x40 + n % 0x40 == n
  {
    var q := n / 0x40;
    assert q / 0x40 == n / 0x1000;
    assert q == (q / 0x40) * 0x40 + q % 0x40;
  }

  lemma FourByteDigits(n: int)
    requires 0 <= n
    ensures (n / 0x4_0000) * 0x4_0000 + (n / 0x1000 % 0x40) * 0x1000 + (n / 0x40 % 0x40) * 0x40 + n % 0x40 == n
  {
    var q := n / 0x40;
    var p := q / 0x40;
    assert p == n / 0x1000;
    assert p / 0x40 == n / 0x4_0000;
    assert q == p * 0x40 + q % 0x40;
    assert p == (p / 0x40) * 0x40 + p % 0x40;
  }

  /** Decoding inverts encoding, so the encoding of a string determines the string. */
  lemma {:induction false} DecodeEncode(s: string)
    ensures Decode(Encode(s)) == Some(s)
  {
    if s != [] {
      var e := EncodeChar(s[0]);
      var bs := Encode(s);
      assert bs == e + Encode(s[1..]);
      DecodeEncodeChar(s[0], Encode(s[1..]));
      assert bs[|e|..] == Encode(s[1..]);
      DecodeEncode(s[1..]);
      assert [s[0]] + s[1..] == s;
    }
  }

  lemma EncodeInjective(s: string, t: string)
    requires Encode(s) == Encode(t)
    ensures s == t
  {
    DecodeEncode(s);
    DecodeEncode(t);
  }

  /** Encoding distributes over concatenation. */
  lemma {:induction false} EncodeAppend(s: string, t: string)
    ensures Encode(s + t) == Encode(s) + Encode(t)
  {
    if s != [] {
      assert (s + t)[0] == s[0];
      assert (s + t)[1..] == s[1..] + t;
      EncodeAppend(s[1..], t);
    } else {
      assert s + t == t;
    }
  }

  /** ASCII text encodes to its own code points, one byte per character. */
  lemma {:induction false} EncodeAscii(s: string)
    requires forall i :: 0 <= i < |s| ==> s[i] as int < 0x80
    ensures |Encode(s)| == |s|
    ensures forall i :: 0 <= i < |s| ==> Encode(s)[i] == s[i] as int
  {
    if s != [] {
      EncodeAscii(s[1..]);
    }
  }
}
