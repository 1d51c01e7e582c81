/**
 The UTF-8 encoding form of RFC 3629, section 3, over Go strings (byte
 sequences): the width of the character at the head of a string, its decoded
 scalar value, the encoder, whole-string validity (Go's `utf8.ValidString`)
 and the rune sequence a Go `range` loop over a valid string yields.
 */
module Utf8 {

  /** One byte of a Go string. */
  type byte = b: int | 0 <= b < 0x100

  /** A Go string: an immutable sequence of bytes, not necessarily valid UTF-8. */
  type Bytes = seq<byte>

  /** Go's `utf8.RuneSelf`: bytes and runes below it represent themselves. */
  const RuneSelf: int := 0x80

  /** Go's `unicode.MaxRune`, the largest Unicode scalar value. */
  const MaxRune: int := 0x10FFFF

  /** A Unicode scalar value: a code point that is not a surrogate. */
  predicate IsScalar(r: int) {
    0 <= r <= MaxRune && !(0xD800 <= r <= 0xDFFF)
  }

  /** A continuation byte, 10xxxxxx. */
  predicate IsCont(b: byte) {
    0x80 <= b <= 0xBF
  }

  /** Number of bytes RFC 3629 uses to encode the scalar value `r`. */
  function EncodedLength(r: int): (n: nat)
    requires IsScalar(r)
    ensures 1 <= n <= 4
  {
    if r < 0x80 then 1
    else if r < 0x800 then 2
    else if r < 0x10000 then 3
    else 4
  }

  /**
   The width of the well-formed character at the head of `s` according to
   the syntax of section 4 of RFC 3629, or 0 when `s` is empty or does not
   start with a well-formed character (overlong forms, surrogates, values
   above MaxRune and truncated sequences are all ill-formed).
   */
  function Width(s: Bytes): (w: nat)
    ensures w <= 4 && w <= |s|
  {
    if |s| == 0 then 0
    else if s[0] < 0x80 then 1
    else if 0xC2 <= s[0] <= 0xDF then
      if 2 <= |s| && IsCont(s[1]) then 2 else 0
    else if 0xE0 <= s[0] <= 0xEF then
      var lo := if s[0] == 0xE0 then 0xA0 else 0x80;
      var hi := if s[0] == 0xED then 0x9F else 0xBF;
      if 3 <= |s| && lo <= s[1] <= hi && IsCont(s[2]) then 3 else 0
    else if 0xF0 <= s[0] <= 0xF4 then
      var lo := if s[0] == 0xF0 then 0x90 else 0x80;
      var hi := if s[0] == 0xF4 then 0x8F else 0xBF;
      if 4 <= |s| && lo <= s[1] <= hi && IsCont(s[2]) && IsCont(s[3]) then 4 else 0
    else 0
  }

  /**
   The scalar value of the well-formed character at the head of `s`. The
   decoded value is a scalar value, it is ASCII exactly when the lead byte is,
   and its shortest encoding has exactly the width that was consumed.
   */
  function Decode(s: Bytes): (r: int)
    requires Width(s) > 0
    ensures IsScalar(r)
    ensures r < RuneSelf <==> s[0] < RuneSelf
    ensures EncodedLength(r) == Width(s)
  {
    var w := Width(s);
    var b0: int := s[0];
    if w == 1 then b0
    else
      var b1: int := s[1];
      if w == 2 then (b0 - 0xC0) * 0x40 + (b1 - 0x80)
      else
        var b2: int := s[2];
        if w == 3 then (b0 - 0xE0) * 0x1000 + (b1 - 0x80) * 0x40 + (b2 - 0x80)
        else
          var b3: int := s[3];
          (b0 - 0xF0) * 0x40000 + (b1 - 0x80) * 0x1000 + (b2 - 0x80) * 0x40 + (b3 - 0x80)
  }

  /** The RFC 3629 encoding of one scalar value. */
  function Encode(r: int): (e: Bytes)
    requires IsScalar(r)
    ensures |e| == EncodedLength(r)
  {
    if r < 0x80 then [r]
    else if r < 0x800 then [0xC0 + r / 0x40, 0x80 + r % 0x40]
    else if r < 0x10000 then [0xE0 + r / 0x1000, 0x80 + (r / 0x40) % 0x40, 0x80 + r % 0x40]
    else [0xF0 + r / 0x40000, 0x80 + (r / 0x1000) % 0x40, 0x80 + (r / 0x40) % 0x40, 0x80 + r % 0x40]
  }

  /** A whole string is valid UTF-8: it is a concatenation of well-formed characters. */
  predicate Valid(s: Bytes)
    decreases |s|
  {
    |s| == 0 || (Width(s) > 0 && Valid(s[Width(s)..]))
  }

  /** The runes a Go `for _, r := range s` loop yields over a valid string. */
  function Runes(s: Bytes): (rs: seq<int>)
    requires Valid(s)
    ensures |rs| <= |s|
    ensures forall i :: 0 <= i < |rs| ==> IsScalar(rs[i])
    decreases |s|
  {
    if |s| == 0 then [] else [Decode(s)] + Runes(s[Width(s)..])
  }

  /** The encoding of a sequence of scalar values, one after the other. */
  function EncodeAll(rs: seq<int>): (s: Bytes)
    requires forall i :: 0 <= i < |rs| ==> IsScalar(rs[i])
  {
    if |rs| == 0 then [] else Encode(rs[0]) + EncodeAll(rs[1..])
  }

  /** Splitting a value into a quotient and a 6-bit remainder, and putting it back together. */
  lemma Split6(r: nat)
    ensures r == (r / 0x40) * 0x40 + r % 0x40
    ensures 0 <= r % 0x40 < 0x40
  {
  }

  /** Decoding the encoding of any scalar value gives it back, consuming exactly its bytes. */
  lemma EncodeDecode(r: int)
    requires IsScalar(r)
    ensures Width(Encode(r)) == |Encode(r)|
    ensures Decode(Encode(r)) == r
  {
    var e := Encode(r);
    if r < 0x80 {
    } else if r < 0x800 {
      Split6(r);
      assert 2 <= r / 0x40 < 0x20;
    } else if r < 0x10000 {
      var q := r / 0x40;
      Split6(r);
      Split6(q);
      assert q / 0x40 == r / 0x1000;
      assert e[1] == 0x80 + q % 0x40;
      assert 0 <= r / 0x1000 < 0x10;
      assert r / 0x1000 == 0 ==> q % 0x40 >= 0x20;
      assert r / 0x1000 == 0xD ==> q % 0x40 < 0x20;
    } else {
      var q := r / 0x40;
      var q2 := q / 0x40;
      Split6(r);
      Split6(q);
      Split6(q2);
      assert q2 == r / 0x1000;
      assert q2 / 0x40 == r / 0x40000;
      assert e[1] == 0x80 + q2 % 0x40;
      assert e[2] == 0x80 + q % 0x40;
      assert r / 0x40000 <= 4;
      assert r / 0x40000 == 0 ==> q2 % 0x40 >= 0x10;
      assert r / 0x40000 == 4 ==> q2 % 0x40 < 0x10;
    }
  }

  /** Re-encoding the character at the head of a string gives back the bytes it was decoded from. */
  lemma DecodeEncode(s: Bytes)
    requires Width(s) > 0
    ensures Encode(Decode(s)) == s[..Width(s)]
  {
    var w := Width(s);
    var r := Decode(s);
    var e := Encode(r);
    if w == 2 {
      var b0: int, b1: int := s[0], s[1];
      assert r == (b0 - 0xC0) * 0x40 + (b1 - 0x80);
      assert r / 0x40 == b0 - 0xC0 && r % 0x40 == b1 - 0x80;
    } else if w == 3 {
      var b0: int, b1: int, b2: int := s[0], s[1], s[2];
      var q := (b0 - 0xE0) * 0x40 + (b1 - 0x80);
      assert r == q * 0x40 + (b2 - 0x80);
      assert r / 0x40 == q && r % 0x40 == b2 - 0x80;
      assert q / 0x40 == b0 - 0xE0 && q % 0x40 == b1 - 0x80;
      assert r / 0x1000 == q / 0x40;
    } else if w == 4 {
      var b0: int, b1: int, b2: int, b3: int := s[0], s[1], s[2], s[3];
      var q2 := (b0 - 0xF0) * 0x40 + (b1 - 0x80);
      var q := q2 * 0x40 + (b2 - 0x80);
      assert r == q * 0x40 + (b3 - 0x80);
      assert r / 0x40 == q && r % 0x40 == b3 - 0x80;
      assert q / 0x40 == q2 && q % 0x40 == b2 - 0x80;
      assert q2 / 0x40 == b0 - 0xF0 && q2 % 0x40 == b1 - 0x80;
      assert r / 0x1000 == q2;
      assert r / 0x40000 == q2 / 0x40;
    }
  }

  /** Width and Decode look only at the bytes of the head character. */
  lemma WidthPrefix(s: Bytes, t: Bytes)
    requires Width(s) == |s| > 0
    ensures Width(s + t) == |s|
    ensures Decode(s + t) == Decode(s)
  {
    assert (s + t)[..|s|] == s;
  }

  /** Every valid string is the encoding of the runes a `range` loop yields over it. */
  lemma {:induction false} RunesEncode(s: Bytes)
    requires Valid(s)
    ensures EncodeAll(Runes(s)) == s
    decreases |s|
  {
    if |s| > 0 {
      var w := RunesHead(s);
      var tail := s[w..];
      calc {
        EncodeAll(Runes(s));
        EncodeAll([Decode(s)] + Runes(tail));
        { EncodeAllCons(Decode(s), Runes(tail)); }
        Encode(Decode(s)) + EncodeAll(Runes(tail));
        { RunesEncode(tail); DecodeEncode(s); }
        s[..w] + tail;
        s;
      }
    }
  }

  /** A non-empty valid string is one character followed by a valid rest. */
  lemma RunesHead(s: Bytes) returns (w: nat)
    requires Valid(s) && |s| > 0
    ensures w == Width(s) && 0 < w <= |s|
    ensures Valid(s[w..])
    ensures Runes(s) == [Decode(s)] + Runes(s[w..])
  {
    w := Width(s);
  }

  /** Encoding one more rune in front of a sequence. */
  lemma EncodeAllCons(r: int, rs: seq<int>)
    requires IsScalar(r)
    requires forall i :: 0 <= i < |rs| ==> IsScalar(rs[i])
    ensures EncodeAll([r] + rs) == Encode(r) + EncodeAll(rs)
  {
    assert ([r] + rs)[1..] == rs;
  }

  /** Encoding any sequence of scalar values gives a valid string that decodes back to them. */
  lemma {:induction false} EncodeAllRunes(rs: seq<int>)
    requires forall i :: 0 <= i < |rs| ==> IsScalar(rs[i])
    ensures Valid(EncodeAll(rs))
    ensures Runes(EncodeAll(rs)) == rs
  {
    if |rs| > 0 {
      var e := Encode(rs[0]);
      var rest := EncodeAll(rs[1..]);
      EncodeAllRunes(rs[1..]);
      EncodeDecode(rs[0]);
      WidthPrefix(e, rest);
      assert (e + rest)[|e|..] == rest;
    }
  }

  /** A string of bytes below RuneSelf is valid and each byte is its own rune. */
  lemma {:induction false} AsciiRunes(s: Bytes)
    requires forall i :: 0 <= i < |s| ==> s[i] < RuneSelf
    ensures Valid(s)
    ensures Runes(s) == s
    decreases |s|
  {
    if |s| > 0 {
      AsciiRunes(s[1..]);
    }
  }

  /**
   Go's `utf8.ValidString`: walks the string character by character and
   rejects it at the first ill-formed one.
   */
  method ValidString(s: Bytes) returns (ok: bool)
    ensures ok <==> Valid(s)
  {
    var i := 0;
    while i < |s|
      invariant 0 <= i <= |s|
      invariant Valid(s) <==> Valid(s[i..])
      decreases |s| - i
    {
      var w := Width(s[i..]);
      if w == 0 {
        return false;
      }
      assert s[i..][w..] == s[i + w..];
      i := i + w;
    }
    return true;
  }
}
