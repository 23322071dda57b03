/**
 * The regular expressions the application validates input with. The same
 * pincode and mobile patterns appear in the customer schema and in the
 * registration form; the e-mail pattern is the form's.
 */
module Patterns {
  import opened Text

  /** `/^[1-9][0-9]{5}$/`: six ASCII digits, the first not zero. */
  predicate ValidPincode(s: string) {
    |s| == 6 && '1' <= s[0] <= '9' && AllDigits(s)
  }

  /** `/^[6-9]\d{9}$/`: ten ASCII digits, the first one of 6 to 9. */
  predicate ValidMobile(s: string) {
    |s| == 10 && '6' <= s[0] <= '9' && AllDigits(s)
  }

  /** A pincode is a six-digit string denoting a number of at least 100000. */
  lemma PincodeAsNumber(s: string)
    ensures ValidPincode(s) <==> |s| == 6 && AllDigits(s) && DecimalValue(s) >= 100000
  {
    if |s| == 6 && AllDigits(s) {
      LeadingDigitBounds(s);
      assert Pow10(5) == 100000;
    }
  }

  /** A mobile number is a ten-digit string denoting a number of at least 6000000000. */
  lemma MobileAsNumber(s: string)
    ensures ValidMobile(s) <==> |s| == 10 && AllDigits(s) && DecimalValue(s) >= 6000000000
  {
    if |s| == 10 && AllDigits(s) {
      LeadingDigitBounds(s);
      assert Pow10(9) == 1000000000;
    }
  }

  /** `[^\s@]+` without the `+`: no whitespace and no '@'. */
  predicate NoSpaceOrAt(s: string) {
    forall i :: 0 <= i < |s| ==> !IsSpace(s[i]) && s[i] != '@'
  }

  /** The position of the first `c` in `s`, or `|s|` when there is none. */
  function IndexOf(s: string, c: char): (r: nat)
    ensures r <= |s| && (r < |s| ==> s[r] == c)
    ensures forall i :: 0 <= i < r ==> s[i] != c
  {
    if s == [] then 0 else if s[0] == c then 0 else 1 + IndexOf(s[1..], c)
  }

  /** Some '.' of `d` that is neither its first nor its last character. */
  predicate HasInnerDot(d: string) {
    exists j :: 0 < j < |d| - 1 && d[j] == '.'
  }

  /** The form's `validateEmail`, computed by splitting at the first '@'. */
  predicate ValidEmail(s: string) {
    var at := IndexOf(s, '@');
    0 < at < |s| && NoSpaceOrAt(s[..at]) && NoSpaceOrAt(s[at + 1..]) && HasInnerDot(s[at + 1..])
  }

  /** One way of matching `/^[^\s@]+@[^\s@]+\.[^\s@]+$/` against `s`: the '@' at `at`, the '.' at `dot`. */
  predicate EmailSplit(s: string, at: int, dot: int) {
    && 0 < at && at + 1 < dot && dot + 1 < |s|
    && s[at] == '@' && s[dot] == '.'
    && NoSpaceOrAt(s[..at]) && NoSpaceOrAt(s[at + 1..dot]) && NoSpaceOrAt(s[dot + 1..])
  }

  /** The split at the first '@' accepts exactly the strings the regular expression matches. */
  lemma ValidEmailIffPattern(s: string)
    ensures ValidEmail(s) <==> exists at, dot :: EmailSplit(s, at, dot)
  {
    if ValidEmail(s) {
      ValidEmailHasSplit(s);
    }
    if exists a, dot :: EmailSplit(s, a, dot) {
      var a, dot :| EmailSplit(s, a, dot);
      SplitIsValidEmail(s, a, dot);
    }
  }

  /** An address the form accepts has a split at its first '@'. */
  lemma ValidEmailHasSplit(s: string)
    requires ValidEmail(s)
    ensures exists dot :: EmailSplit(s, IndexOf(s, '@'), dot)
  {
    var at := IndexOf(s, '@');
    var d := s[at + 1..];
    var j :| 0 < j < |d| - 1 && d[j] == '.';
    assert s[at + 1..at + 1 + j] == d[..j];
    assert s[at + 1 + j + 1..] == d[j + 1..];
    assert EmailSplit(s, at, at + 1 + j);
  }

  /** Any split the regular expression finds is at the first '@', so the form accepts the address. */
  lemma SplitIsValidEmail(s: string, a: int, dot: int)
    requires EmailSplit(s, a, dot)
    ensures ValidEmail(s)
  {
    var at := IndexOf(s, '@');
    forall i | 0 <= i < a ensures s[i] != '@' {
      assert s[..a][i] == s[i];
    }
    assert at == a;
    var d := s[at + 1..];
    assert d[dot - at - 1] == '.';
    forall i | 0 <= i < |d| ensures !IsSpace(d[i]) && d[i] != '@' {
      assert d[i] == s[at + 1 + i];
      if at + 1 + i < dot {
        assert s[at + 1..dot][i] == s[at + 1 + i];
      } else if at + 1 + i > dot {
        assert s[dot + 1..][at + i - dot] == s[at + 1 + i];
      }
    }
  }
}
