/**
 * The JavaScript string operations the application relies on: whitespace
 * trimming, lower-casing, the case-insensitive substring test its regular
 * expression filters amount to, `Array.prototype.join`, and decimal digits.
 */
module Text {

  /** The characters JavaScript's `\s` matches and `String.prototype.trim` strips. */
  predicate IsSpace(c: char) {
    || c == ' ' || c == '\t' || c == '\n' || c == '\U{B}' || c == '\U{C}' || c == '\r'
    || c == '\U{A0}' || c == '\U{1680}' || ('\U{2000}' <= c <= '\U{200A}')
    || c == '\U{2028}' || c == '\U{2029}' || c == '\U{202F}' || c == '\U{205F}'
    || c == '\U{3000}' || c == '\U{FEFF}'
  }

  /** Every character of `s` is whitespace (so `s.trim()` is empty, i.e. falsy). */
  predicate IsBlank(s: string) {
    forall i :: 0 <= i < |s| ==> IsSpace(s[i])
  }

  /** The position of the first non-whitespace character of `s` at or after `i`, or `|s|`. */
  function SkipSpaces(s: string, i: nat): (j: nat)
    requires i <= |s|
    ensures i <= j <= |s|
    ensures forall k :: i <= k < j ==> IsSpace(s[k])
    ensures j == |s| || !IsSpace(s[j])
    decreases |s| - i
  {
    if i < |s| && IsSpace(s[i]) then SkipSpaces(s, i + 1) else i
  }

  /** The end of `s[lo..j]` once its trailing whitespace is dropped. */
  function SkipSpacesBack(s: string, lo: nat, j: nat): (m: nat)
    requires lo <= j <= |s|
    ensures lo <= m <= j
    ensures forall k :: m <= k < j ==> IsSpace(s[k])
    ensures m == lo || !IsSpace(s[m - 1])
    decreases j
  {
    if j > lo && IsSpace(s[j - 1]) then SkipSpacesBack(s, lo, j - 1) else j
  }

  /**
   * `String.prototype.trim`: the input with its leading and trailing
   * whitespace removed; the result is empty exactly for blank input and
   * otherwise begins and ends with a non-space.
   */
  function Trim(s: string): (r: string)
    ensures |r| <= |s|
    ensures r == [] <==> IsBlank(s)
    ensures r == [] || (!IsSpace(r[0]) && !IsSpace(r[|r| - 1]))
  {
    var i := SkipSpaces(s, 0);
    var j := SkipSpacesBack(s, i, |s|);
    s[i..j]
  }

  /** `trim` removes exactly a whitespace prefix and a whitespace suffix of its input. */
  lemma TrimStrips(s: string)
    ensures exists i, j :: 0 <= i <= j <= |s| && Trim(s) == s[i..j] && IsBlank(s[..i]) && IsBlank(s[j..])
  {
    var i := SkipSpaces(s, 0);
    var j := SkipSpacesBack(s, i, |s|);
    assert Trim(s) == s[i..j] && IsBlank(s[..i]) && IsBlank(s[j..]);
  }

  /** Text that neither begins nor ends with whitespace is left as it is by `trim`. */
  lemma TrimUnchanged(s: string)
    requires s == [] || (!IsSpace(s[0]) && !IsSpace(s[|s| - 1]))
    ensures Trim(s) == s
  {
  }

  /** Trimming twice is trimming once. */
  lemma TrimIdempotent(s: string)
    ensures Trim(Trim(s)) == Trim(s)
  {
    TrimUnchanged(Trim(s));
  }

  /** ASCII lower-casing (the only case mapping the model covers). */
  function LowerChar(c: char): char {
    if 'A' <= c <= 'Z' then (c as int + 32) as char else c
  }

  /** `toLowerCase`, character by character. */
  function Lower(s: string): (r: string)
    ensures |r| == |s|
    decreases |s|
  {
    if s == [] then [] else [LowerChar(s[0])] + Lower(s[1..])
  }

  /** `toLowerCase` maps every character of its input by `LowerChar`, in place. */
  lemma {:induction false} LowerMaps(s: string)
    ensures forall k :: 0 <= k < |s| ==> Lower(s)[k] == LowerChar(s[k])
    decreases |s|
  {
    if s != [] {
      LowerMaps(s[1..]);
      assert forall k :: 1 <= k < |s| ==> Lower(s)[k] == Lower(s[1..])[k - 1];
    }
  }

  /** Whether `needle` occurs in `hay`, scanning from the left. */
  predicate Contains(hay: string, needle: string)
    decreases |hay|
  {
    |needle| <= |hay| && (hay[..|needle|] == needle || (hay != [] && Contains(hay[1..], needle)))
  }

  /** `needle` occurs in `hay` starting at offset `i`. */
  predicate OccursAt(hay: string, needle: string, i: int) {
    0 <= i <= |hay| - |needle| && hay[i..i + |needle|] == needle
  }

  /** A slice of the tail of `s` is the slice of `s` one further on. */
  lemma SliceOfTail(s: string, j: nat, n: nat)
    requires s != [] && j + n <= |s| - 1
    ensures s[1..][j..j + n] == s[j + 1..j + 1 + n]
  {
  }

  /** The scan finds exactly the occurrences at some offset. */
  lemma {:induction false} ContainsAt(hay: string, needle: string)
    ensures Contains(hay, needle) <==> exists i :: OccursAt(hay, needle, i)
    decreases |hay|
  {
    var n := |needle|;
    if hay != [] {
      ContainsAt(hay[1..], needle);
    }
    if Contains(hay, needle) {
      if hay[..n] == needle {
        assert OccursAt(hay, needle, 0);
      } else {
        var j :| OccursAt(hay[1..], needle, j);
        SliceOfTail(hay, j, n);
        assert OccursAt(hay, needle, j + 1);
      }
    }
    if exists i :: OccursAt(hay, needle, i) {
      var i :| OccursAt(hay, needle, i);
      if i > 0 {
        assert hay[1..][i - 1..i - 1 + n] == hay[i..i + n];
        assert OccursAt(hay[1..], needle, i - 1);
      }
    }
  }

  /** A regular expression built from `needle` with the `i` flag, read as a literal pattern. */
  predicate ContainsIgnoreCase(hay: string, needle: string) {
    Contains(Lower(hay), Lower(needle))
  }

  /** `Array.prototype.join(sep)`. */
  function Join(parts: seq<string>, sep: string): string
    decreases |parts|
  {
    if |parts| == 0 then ""
    else if |parts| == 1 then parts[0]
    else parts[0] + sep + Join(parts[1..], sep)
  }

  /** A join with a non-empty separator is empty exactly when there is nothing to join but empty text. */
  lemma {:induction false} JoinEmpty(parts: seq<string>, sep: string)
    requires sep != ""
    ensures Join(parts, sep) == "" <==> |parts| == 0 || (|parts| == 1 && parts[0] == "")
  {
    if |parts| > 1 {
      assert |parts[0] + sep + Join(parts[1..], sep)| >= |sep|;
    }
  }

  predicate IsDigit(c: char) {
    '0' <= c <= '9'
  }

  predicate AllDigits(s: string) {
    forall i :: 0 <= i < |s| ==> IsDigit(s[i])
  }

  function Digit(c: char): nat
    requires IsDigit(c)
  {
    c as int - '0' as int
  }

  function Pow10(n: nat): (r: nat)
    ensures r >= 1
  {
    if n == 0 then 1 else 10 * Pow10(n - 1)
  }

  /** The number a string of decimal digits denotes. */
  function DecimalValue(s: string): nat
    requires AllDigits(s)
  {
    if s == [] then 0 else DecimalValue(s[..|s| - 1]) * 10 + Digit(s[|s| - 1])
  }

  /** The decimal rendering of `n` (JavaScript's template interpolation of a non-negative integer). */
  function NatToString(n: nat): (r: string)
    ensures r != [] && AllDigits(r)
  {
    var d := ['0' + (n % 10) as char];
    if n < 10 then d else NatToString(n / 10) + d
  }

  /** Rendering a number and reading it back gives the number. */
  lemma {:induction false} NatToStringRoundTrip(n: nat)
    ensures DecimalValue(NatToString(n)) == n
  {
    var s := NatToString(n);
    var d := ['0' + (n % 10) as char];
    if n >= 10 {
      NatToStringRoundTrip(n / 10);
      assert s[..|s| - 1] == NatToString(n / 10);
    }
  }

  /**
   * The leading digit of a digit string fixes the range its value lies in:
   * `d·10^(k-1) <= value < (d+1)·10^(k-1)` for a string of `k` digits led by `d`.
   */
  lemma {:induction false} LeadingDigitBounds(s: string)
    requires AllDigits(s) && |s| >= 1
    ensures Digit(s[0]) * Pow10(|s| - 1) <= DecimalValue(s) < (Digit(s[0]) + 1) * Pow10(|s| - 1)
    decreases |s|
  {
    if |s| > 1 {
      var t := s[..|s| - 1];
      var d, last := Digit(s[0]), Digit(s[|s| - 1]);
      var p := Pow10(|s| - 2);
      assert t[0] == s[0];
      LeadingDigitBounds(t);
      assert DecimalValue(s) == DecimalValue(t) * 10 + last;
      assert Pow10(|s| - 1) == 10 * p;
      ShiftDigitBounds(d, p, DecimalValue(t), last);
    }
  }

  /** Appending a digit to a value in `[d·p, (d+1)·p)` lands in `[d·10p, (d+1)·10p)`. */
  lemma ShiftDigitBounds(d: nat, p: nat, v: nat, last: nat)
    requires d * p <= v < (d + 1) * p && last <= 9
    ensures d * (10 * p) <= v * 10 + last < (d + 1) * (10 * p)
  {
    assert v + 1 <= (d + 1) * p;
    assert v * 10 + 10 <= (d + 1) * p * 10;
    assert d * p * 10 <= v * 10;
  }
}
