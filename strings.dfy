/**
 * The small part of JavaScript's string library the board relies on:
 * `toLowerCase` (ASCII letters only), `trim`, `includes`, and the decimal
 * rendering of a non-negative integer inside a template literal.
 */
module Strings {

  predicate IsUpper(c: char) {
    'A' <= c <= 'Z'
  }

  /** `toLowerCase` on one character, restricted to the ASCII letters. */
  function LowerChar(c: char): (r: char)
    ensures !IsUpper(r)
    ensures !IsUpper(c) ==> r == c
    ensures IsUpper(c) ==> 'a' <= r <= 'z'
  {
    if IsUpper(c) then (c as int - 'A' as int + 'a' as int) as char else c
  }

  /**
   * `toLowerCase` on a whole string: same length, no upper-case letter left,
   * each capital replaced by its small letter and every other character kept.
   */
  function Lower(s: string): (r: string)
    ensures |r| == |s|
    ensures forall i :: 0 <= i < |r| ==> !IsUpper(r[i])
    ensures forall i :: 0 <= i < |s| && !IsUpper(s[i]) ==> r[i] == s[i]
    ensures forall i :: 0 <= i < |s| && IsUpper(s[i]) ==> r[i] as int == s[i] as int + ('a' as int - 'A' as int)
  {
    seq(|s|, i requires 0 <= i < |s| => LowerChar(s[i]))
  }

  lemma LowerIdempotent(s: string)
    ensures Lower(Lower(s)) == Lower(s)
  {
    var once := Lower(s);
    forall i | 0 <= i < |s|
      ensures Lower(once)[i] == once[i]
    {
      assert !IsUpper(once[i]);
    }
  }

  /**
   * The characters `trim` removes: the ECMAScript WhiteSpace code points
   * (tab, vertical tab, form feed, zero-width no-break space and the space
   * separators) and the LineTerminator code points.
   */
  predicate IsSpace(c: char) {
    var n := c as int;
    n == 0x09 || n == 0x0A || n == 0x0B || n == 0x0C || n == 0x0D || n == 0x20 ||
    n == 0xA0 || n == 0x1680 || (0x2000 <= n <= 0x200A) || n == 0x2028 || n == 0x2029 ||
    n == 0x202F || n == 0x205F || n == 0x3000 || n == 0xFEFF
  }

  /** `t` is `s` with its leading white space dropped. */
  predicate StartTrimmed(s: string, t: string) {
    && |t| <= |s| && t == s[|s| - |t|..]
    && (t == [] || !IsSpace(t[0]))
    && forall i :: 0 <= i < |s| - |t| ==> IsSpace(s[i])
  }

  /** `u` is `t` with its trailing white space dropped. */
  predicate EndTrimmed(t: string, u: string) {
    && |u| <= |t| && u == t[..|u|]
    && (u == [] || !IsSpace(u[|u| - 1]))
    && forall i :: |u| <= i < |t| ==> IsSpace(t[i])
  }

  /** `trimStart`. */
  function TrimStart(s: string): (r: string)
    ensures StartTrimmed(s, r)
  {
    if |s| > 0 && IsSpace(s[0]) then
      var r := TrimStart(s[1..]);
      assert s[1..][|s| - 1 - |r|..] == s[|s| - |r|..];
      r
    else s
  }

  /** `trimEnd`. */
  function TrimEnd(s: string): (r: string)
    ensures EndTrimmed(s, r)
  {
    if |s| > 0 && IsSpace(s[|s| - 1]) then TrimEnd(s[..|s| - 1]) else s
  }

  /** `trim`: drops leading and trailing white space, keeps the middle. */
  function Trim(s: string): (r: string)
    ensures r == [] || (!IsSpace(r[0]) && !IsSpace(r[|r| - 1]))
    ensures exists a :: TrimmedAt(s, r, a)
  {
    var t := TrimStart(s);
    var u := TrimEnd(t);
    TrimSlices(s, t, u);
    u
  }

  /** `r` occurs at index `a` of `s`, and everything before and after it is white space. */
  predicate TrimmedAt(s: string, r: string, a: int) {
    OccursAt(s, r, a) && TrimmedAround(s, r, a)
  }

  /** Everything before index `a` of `s`, and after the `r` that starts there, is white space. */
  predicate TrimmedAround(s: string, r: string, a: int) {
    && (forall i :: 0 <= i < a && i < |s| ==> IsSpace(s[i]))
    && (forall i :: 0 <= a + |r| <= i < |s| ==> IsSpace(s[i]))
  }

  /** Trimming the start, then the end, leaves a middle part with white space on both sides. */
  lemma TrimSlices(s: string, t: string, u: string)
    requires StartTrimmed(s, t) && EndTrimmed(t, u)
    ensures u == [] || (!IsSpace(u[0]) && !IsSpace(u[|u| - 1]))
    ensures TrimmedAt(s, u, |s| - |t|)
  {
    var a := |s| - |t|;
    assert u == s[a..a + |u|];
    forall i | a + |u| <= i < |s|
      ensures IsSpace(s[i])
    {
      assert s[i] == t[i - a];
    }
    if u != [] {
      assert u[0] == t[0];
    }
  }

  /** Every character is white space. */
  predicate IsBlank(s: string) {
    forall i :: 0 <= i < |s| ==> IsSpace(s[i])
  }

  /** `!s.trim()` holds exactly when the string is blank. */
  lemma {:induction false} TrimEmptyIffBlank(s: string)
    ensures Trim(s) == [] <==> IsBlank(s)
  {
    var r := Trim(s);
    var a :| TrimmedAt(s, r, a);
    if r != [] {
      assert r[0] == s[a] && !IsSpace(s[a]);
    }
  }

  /** `needle` occurs in `hay` starting at index `i`. */
  predicate OccursAt(hay: string, needle: string, i: int) {
    0 <= i <= |hay| - |needle| && hay[i..i + |needle|] == needle
  }

  predicate StartsWith(s: string, prefix: string) {
    |prefix| <= |s| && s[..|prefix|] == prefix
  }

  /** `hay.includes(needle)`; the empty needle occurs in every string. */
  predicate Contains(hay: string, needle: string)
    decreases |hay|
  {
    StartsWith(hay, needle) || (|hay| > 0 && Contains(hay[1..], needle))
  }

  lemma {:induction false} ContainsIffOccurs(hay: string, needle: string)
    ensures Contains(hay, needle) <==> exists i :: OccursAt(hay, needle, i)
  {
    if StartsWith(hay, needle) {
      assert OccursAt(hay, needle, 0);
    } else if |hay| > 0 {
      ContainsIffOccurs(hay[1..], needle);
      if Contains(hay[1..], needle) {
        var i :| OccursAt(hay[1..], needle, i);
        assert hay[i + 1..i + 1 + |needle|] == hay[1..][i..i + |needle|];
        assert OccursAt(hay, needle, i + 1);
      }
      if exists i :: OccursAt(hay, needle, i) {
        var i :| OccursAt(hay, needle, i);
        assert i != 0;
        assert hay[1..][i - 1..i - 1 + |needle|] == hay[i..i + |needle|];
        assert OccursAt(hay[1..], needle, i - 1);
      }
    }
  }

  predicate IsDigit(c: char) {
    '0' <= c <= '9'
  }

  /** The decimal numeral a template literal prints for a non-negative integer. */
  function Decimal(n: nat): (r: string)
    ensures |r| > 0
    ensures forall i :: 0 <= i < |r| ==> IsDigit(r[i])
    ensures |r| > 1 ==> r[0] != '0'
    decreases n
  {
    var d := ['0' + (n % 10) as char];
    if n < 10 then d else Decimal(n / 10) + d
  }

  /** The value of a string of decimal digits. */
  function DigitsValue(s: string): nat
    requires forall i :: 0 <= i < |s| ==> IsDigit(s[i])
    decreases |s|
  {
    if s == [] then 0
    else assert IsDigit(s[|s| - 1]); 10 * DigitsValue(s[..|s| - 1]) + (s[|s| - 1] as int - '0' as int)
  }

  /** Printing a number and reading the digits back gives the number. */
  lemma {:induction false} DecimalRoundTrip(n: nat)
    ensures DigitsValue(Decimal(n)) == n
    decreases n
  {
    var r := Decimal(n);
    if n >= 10 {
      DecimalRoundTrip(n / 10);
      assert r[..|r| - 1] == Decimal(n / 10);
    }
  }

  lemma DecimalInjective(a: nat, b: nat)
    requires Decimal(a) == Decimal(b)
    ensures a == b
  {
    DecimalRoundTrip(a);
    DecimalRoundTrip(b);
  }
}
