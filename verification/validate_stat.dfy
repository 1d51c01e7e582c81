/**
 `validateStat`: the check a stat name, a tag key or a tag value must pass.
 The rules run in a fixed order and the first failing one is the verdict:
 empty string, then invalid UTF-8 over the whole string, then a scan of the
 characters left to right in which each character is tested for being
 non-ASCII, then non-printable, then whitespace.
 */
module StatValidation {
  import opened Wrappers
  import opened Utf8

  /** Why a string was rejected; `None` (Go's nil error) means it passed. */
  datatype StatError =
    | EmptyString
    | InvalidUtf8
    | NonAscii
    | NonPrintable(rune: int)
    | Whitespace(rune: int)

  /**
   `unicode.IsPrint` restricted to ASCII: the graphic characters and the
   space. The verdict below never consults it for a rune at or above RuneSelf.
   */
  predicate IsPrintAscii(r: int) {
    0x20 <= r <= 0x7E
  }

  /** `unicode.IsSpace` restricted to ASCII: tab, newline, vertical tab, form feed, carriage return, space. */
  predicate IsSpaceAscii(r: int) {
    r == 0x20 || 0x09 <= r <= 0x0D
  }

  /** A byte that may appear in an accepted string: a printable, non-space ASCII character. */
  predicate IsStatByte(b: int) {
    0x21 <= b <= 0x7E
  }

  /**
   The per-character tests of the scan, in source order. Because the
   printability test comes first, the only whitespace that can be reported
   is the space itself; tab and newline are reported as non-printable.
   */
  function CharVerdict(r: int): (e: Option<StatError>)
    ensures e == None <==> IsStatByte(r)
    ensures e.Some? && e.value.Whitespace? ==> e.value.rune == 0x20
    ensures e.Some? ==> e.value.NonAscii? || e.value.NonPrintable? || e.value.Whitespace?
    ensures r >= RuneSelf ==> e == Some(NonAscii)
    ensures r < 0x20 || r == 0x7F ==> e == Some(NonPrintable(r))
    ensures r == 0x20 ==> e == Some(Whitespace(0x20))
  {
    if r >= RuneSelf then Some(NonAscii)
    else if !IsPrintAscii(r) then Some(NonPrintable(r))
    else if IsSpaceAscii(r) then Some(Whitespace(r))
    else None
  }

  /** The left-to-right scan: the verdict of the first offending character, if any. */
  function FirstOffence(rs: seq<int>): Option<StatError>
    decreases |rs|
  {
    if |rs| == 0 then None
    else if CharVerdict(rs[0]).Some? then CharVerdict(rs[0])
    else FirstOffence(rs[1..])
  }

  /** Go's `validateStat(s)`, over the runes a `range` loop decodes from `s`. */
  function ValidateStat(s: Bytes): Option<StatError>
  {
    if |s| == 0 then Some(EmptyString)
    else if !Valid(s) then Some(InvalidUtf8)
    else FirstOffence(Runes(s))
  }

  /** The scan finds nothing exactly when every character is acceptable. */
  lemma {:induction false} FirstOffenceNone(rs: seq<int>)
    ensures FirstOffence(rs) == None <==> forall i :: 0 <= i < |rs| ==> IsStatByte(rs[i])
    decreases |rs|
  {
    if |rs| > 0 {
      FirstOffenceNone(rs[1..]);
      assert forall i :: 1 <= i < |rs| ==> rs[i] == rs[1..][i - 1];
    }
  }

  /**
   The scan reports `e` exactly when some character has verdict `e` and every
   character before it is acceptable: the first offending character decides.
   */
  lemma {:induction false} FirstOffenceIsFirst(rs: seq<int>, e: StatError)
    ensures FirstOffence(rs) == Some(e) <==>
      exists i :: 0 <= i < |rs| && CharVerdict(rs[i]) == Some(e) &&
        forall j :: 0 <= j < i ==> IsStatByte(rs[j])
    decreases |rs|
  {
    if |rs| > 0 {
      FirstOffenceIsFirst(rs[1..], e);
      if FirstOffence(rs) == Some(e) {
        if CharVerdict(rs[0]).Some? {
          assert CharVerdict(rs[0]) == Some(e);
        } else {
          var i :| 0 <= i < |rs[1..]| && CharVerdict(rs[1..][i]) == Some(e) &&
            forall j :: 0 <= j < i ==> IsStatByte(rs[1..][j]);
          assert forall j :: 0 <= j < i + 1 ==> IsStatByte(rs[j]) by {
            forall j | 0 <= j < i + 1 ensures IsStatByte(rs[j]) {
              if j > 0 { assert rs[j] == rs[1..][j - 1]; }
            }
          }
          assert CharVerdict(rs[i + 1]) == Some(e);
        }
      }
      if exists i :: 0 <= i < |rs| && CharVerdict(rs[i]) == Some(e) &&
          forall j :: 0 <= j < i ==> IsStatByte(rs[j]) {
        var i :| 0 <= i < |rs| && CharVerdict(rs[i]) == Some(e) &&
          forall j :: 0 <= j < i ==> IsStatByte(rs[j]);
        if i > 0 {
          assert IsStatByte(rs[0]);
          assert CharVerdict(rs[1..][i - 1]) == Some(e);
          assert forall j :: 0 <= j < i - 1 ==> IsStatByte(rs[1..][j]) by {
            forall j | 0 <= j < i - 1 ensures IsStatByte(rs[1..][j]) {
              assert rs[1..][j] == rs[j + 1];
            }
          }
        }
      }
    }
  }

  /**
   Over a valid string, scanning the decoded runes and scanning the raw
   bytes give the same verdict: a multi-byte character starts with a byte at
   or above RuneSelf, and decodes to a rune at or above RuneSelf.
   */
  lemma {:induction false} RunesAgreeWithBytes(s: Bytes)
    requires Valid(s)
    ensures FirstOffence(Runes(s)) == FirstOffence(s)
    decreases |s|
  {
    if |s| > 0 {
      var w := Width(s);
      var rs := Runes(s);
      assert rs == [Decode(s)] + Runes(s[w..]);
      assert rs[0] == Decode(s) && rs[1..] == Runes(s[w..]);
      if s[0] < RuneSelf {
        assert w == 1 && rs[0] == s[0];
        RunesAgreeWithBytes(s[1..]);
      } else {
        assert CharVerdict(rs[0]) == Some(NonAscii) == CharVerdict(s[0]);
      }
    }
  }

  /**
   `validateStat` accepts a string exactly when it is non-empty and made only
   of printable, non-space ASCII characters ('!' through '~').
   */
  lemma ValidateStatAcceptsExactly(s: Bytes)
    ensures ValidateStat(s) == None <==> |s| > 0 && forall i :: 0 <= i < |s| ==> IsStatByte(s[i])
  {
    if |s| > 0 && forall i :: 0 <= i < |s| ==> IsStatByte(s[i]) {
      AsciiRunes(s);
      FirstOffenceNone(s);
    }
    if ValidateStat(s) == None {
      RunesAgreeWithBytes(s);
      FirstOffenceNone(s);
    }
  }

  /**
   An ill-formed string is always reported as invalid UTF-8, never as
   non-ASCII, non-printable or whitespace; and invalid UTF-8 is reported for
   nothing else.
   */
  lemma InvalidUtf8First(s: Bytes)
    ensures ValidateStat(s) == Some(InvalidUtf8) <==> |s| > 0 && !Valid(s)
  {
    if |s| > 0 && Valid(s) {
      RunesAgreeWithBytes(s);
      FirstOffenceInvalidNever(s);
    }
  }

  /** The character scan never yields the empty-string or invalid-UTF-8 verdicts. */
  lemma {:induction false} FirstOffenceInvalidNever(rs: seq<int>)
    ensures FirstOffence(rs) != Some(InvalidUtf8)
    ensures FirstOffence(rs) != Some(EmptyString)
    decreases |rs|
  {
    if |rs| > 0 {
      FirstOffenceInvalidNever(rs[1..]);
    }
  }

  /**
   On a non-empty valid string the verdict is that of the first byte that is
   not '!' through '~', classified as non-ASCII, else non-printable, else
   whitespace.
   */
  lemma ValidateStatFirstOffence(s: Bytes, e: StatError)
    requires |s| > 0 && Valid(s)
    ensures ValidateStat(s) == Some(e) <==>
      exists i :: 0 <= i < |s| && CharVerdict(s[i]) == Some(e) &&
        forall j :: 0 <= j < i ==> IsStatByte(s[j])
  {
    RunesAgreeWithBytes(s);
    FirstOffenceIsFirst(s, e);
  }

  /**
   The byte-wise scan: the whole string is checked for UTF-8 validity first,
   then the bytes are classified left to right. It agrees with the rune-wise
   definition on every input.
   */
  method CheckStat(s: Bytes) returns (e: Option<StatError>)
    ensures e == ValidateStat(s)
  {
    if |s| == 0 {
      return Some(EmptyString);
    }
    var ok := ValidString(s);
    if !ok {
      return Some(InvalidUtf8);
    }
    RunesAgreeWithBytes(s);
    var i := 0;
    while i < |s|
      invariant 0 <= i <= |s|
      invariant FirstOffence(s) == FirstOffence(s[i..])
      decreases |s| - i
    {
      var v := CharVerdict(s[i]);
      if v.Some? {
        return v;
      }
      assert s[i..][1..] == s[i + 1..];
      i := i + 1;
    }
    return None;
  }

  /** A non-empty ASCII string is judged by the byte scan alone. */
  lemma AsciiVerdict(s: Bytes)
    requires |s| > 0 && forall i :: 0 <= i < |s| ==> s[i] < RuneSelf
    ensures ValidateStat(s) == FirstOffence(s)
  {
    AsciiRunes(s);
  }

  /** The empty string is rejected as empty and nothing else is looked at. */
  lemma EmptyVerdict()
    ensures ValidateStat([]) == Some(EmptyString)
  {
  }

  /** "a b": the space is printable, so it is reported as whitespace. */
  lemma SpaceVerdict()
    ensures ValidateStat([0x61, 0x20, 0x62]) == Some(Whitespace(0x20))
  {
    AsciiVerdict([0x61, 0x20, 0x62]);
  }

  /** "a\tb": the tab fails the printability test first, so it is non-printable, not whitespace. */
  lemma TabVerdict()
    ensures ValidateStat([0x61, 0x09, 0x62]) == Some(NonPrintable(0x09))
  {
    AsciiVerdict([0x61, 0x09, 0x62]);
  }

  /** "a\x01é": the control character comes first, so the later non-ASCII letter is not reported. */
  lemma ControlBeforeNonAsciiVerdict()
    ensures ValidateStat([0x61, 0x01, 0xC3, 0xA9]) == Some(NonPrintable(0x01))
  {
    var s: Bytes := [0x61, 0x01, 0xC3, 0xA9];
    assert Width(s) == 1 && s[1..] == [0x01, 0xC3, 0xA9];
    assert Width(s[1..]) == 1 && s[1..][1..] == [0xC3, 0xA9];
    assert Width([0xC3, 0xA9]) == 2 && [0xC3, 0xA9][2..] == [];
    assert Valid(s);
    RunesAgreeWithBytes(s);
  }

  /** "aé\x01": the non-ASCII letter comes first. */
  lemma NonAsciiBeforeControlVerdict()
    ensures ValidateStat([0x61, 0xC3, 0xA9, 0x01]) == Some(NonAscii)
  {
    var s: Bytes := [0x61, 0xC3, 0xA9, 0x01];
    assert Width(s) == 1 && s[1..] == [0xC3, 0xA9, 0x01];
    assert Width(s[1..]) == 2 && s[1..][2..] == [0x01];
    assert Valid(s);
    RunesAgreeWithBytes(s);
  }

  /** "a\xff\x01": the whole string is checked for UTF-8 before the control character is seen. */
  lemma InvalidBeforeControlVerdict()
    ensures ValidateStat([0x61, 0xFF, 0x01]) == Some(InvalidUtf8)
  {
    var s: Bytes := [0x61, 0xFF, 0x01];
    assert s[1..] == [0xFF, 0x01];
    assert Width(s[1..]) == 0;
  }
}
