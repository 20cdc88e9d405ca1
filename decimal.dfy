/**
 * Decimal digit strings: the `\d` character class of the byte-string regular
 * expressions used by the source (ASCII digits only), Python's `int()` on a digit
 * string and `str()` on a non-negative integer.
 */
module Decimal {

  predicate IsDigit(c: char) {
    '0' <= c <= '9'
  }

  predicate AllDigits(s: string) {
    forall i :: 0 <= i < |s| ==> IsDigit(s[i])
  }

  function DigitChar(d: nat): (c: char)
    requires d < 10
    ensures IsDigit(c) && c as int - '0' as int == d
  {
    ('0' as int + d) as char
  }

  /** `int(s)` for a string of decimal digits (leading zeros allowed). */
  function DigitsValue(s: string): nat
    requires AllDigits(s)
  {
    if s == [] then 0
    else DigitsValue(s[..|s| - 1]) * 10 + (s[|s| - 1] as int - '0' as int)
  }

  /** The value of one digit character (0 for anything else). */
  function DigitOf(c: char): nat {
    if IsDigit(c) then c as int - '0' as int else 0
  }

  /** `int(s[i:j])` read in place, without building the slice. */
  function RunValue(s: string, i: nat, j: nat): nat
    requires i <= j <= |s|
    decreases j - i
  {
    if i == j then 0 else RunValue(s, i, j - 1) * 10 + DigitOf(s[j - 1])
  }

  /** Reading a digit run in place gives the value of the digit string it holds. */
  lemma {:induction false} RunValueIs(s: string, i: nat, j: nat, a: string)
    requires i <= j <= |s| && s[i..j] == a && AllDigits(a)
    ensures RunValue(s, i, j) == DigitsValue(a)
    decreases j - i
  {
    if i < j {
      assert s[i..j - 1] == a[..|a| - 1];
      RunValueIs(s, i, j - 1, a[..|a| - 1]);
      assert s[j - 1] == a[|a| - 1];
    }
  }

  /** `str(n)`: the shortest decimal spelling of `n`. */
  function NatToString(n: nat): (r: string)
    ensures |r| >= 1 && (|r| == 1 <==> n < 10)
    decreases n
  {
    if n < 10 then [DigitChar(n)] else NatToString(n / 10) + [DigitChar(n % 10)]
  }

  /** `str(n)` is a digit string and `int(str(n)) == n`. */
  lemma {:induction false} NatToStringDigits(n: nat)
    ensures AllDigits(NatToString(n))
    ensures DigitsValue(NatToString(n)) == n
    decreases n
  {
    if n >= 10 {
      NatToStringDigits(n / 10);
      var r := NatToString(n);
      assert r[..|r| - 1] == NatToString(n / 10);
    }
  }

  /** Length of the longest run of digits starting at position `i` (what a greedy `\d+` consumes). */
  function DigitsLen(s: string, i: nat): (n: nat)
    requires i <= |s|
    ensures i + n <= |s|
    ensures forall k :: i <= k < i + n ==> IsDigit(s[k])
    ensures i + n == |s| || !IsDigit(s[i + n])
    decreases |s| - i
  {
    if i < |s| && IsDigit(s[i]) then 1 + DigitsLen(s, i + 1) else 0
  }

  /** A maximal digit run of known extent is exactly what `DigitsLen` measures. */
  lemma {:induction false} DigitsLenOf(s: string, i: nat, n: nat)
    requires i + n <= |s|
    requires forall k :: i <= k < i + n ==> IsDigit(s[k])
    requires i + n == |s| || !IsDigit(s[i + n])
    ensures DigitsLen(s, i) == n
    decreases n
  {
    if n > 0 {
      DigitsLenOf(s, i + 1, n - 1);
    }
  }

  /** A digit string `a` found at position `i`, followed by a non-digit or the end, is one whole run worth `int(a)`. */
  lemma DigitRunAt(s: string, i: nat, a: string)
    requires i + |a| <= |s| && s[i..i + |a|] == a && AllDigits(a)
    requires i + |a| == |s| || !IsDigit(s[i + |a|])
    ensures DigitsLen(s, i) == |a|
    ensures RunValue(s, i, i + |a|) == DigitsValue(a)
  {
    assert forall k :: i <= k < i + |a| ==> s[k] == a[k - i];
    DigitsLenOf(s, i, |a|);
    RunValueIs(s, i, i + |a|, a);
  }

  /** Reading `str(n)` in place, from `i` to `j`, gives `n`. */
  lemma NatValueAt(s: string, i: nat, j: nat, n: nat)
    requires j == i + |NatToString(n)| <= |s| && s[i..j] == NatToString(n)
    ensures RunValue(s, i, j) == n
  {
    NatToStringDigits(n);
    RunValueIs(s, i, j, NatToString(n));
  }

  /** `str(n)` found from `i` to `j`, followed by a non-digit or the end, is one whole run worth `n`. */
  lemma NatRunAt(s: string, i: nat, j: nat, n: nat)
    requires j == i + |NatToString(n)| <= |s| && s[i..j] == NatToString(n)
    requires j == |s| || !IsDigit(s[j])
    ensures DigitsLen(s, i) == j - i
    ensures RunValue(s, i, j) == n
  {
    NatToStringDigits(n);
    DigitRunAt(s, i, NatToString(n));
  }

  /** `str(n)` never contains anything but digits, so it holds no separator character. */
  lemma NoSeparatorIn(n: nat, c: char)
    requires !IsDigit(c)
    ensures c !in NatToString(n)
  {
    NatToStringDigits(n);
  }

  /** The spelling `str(n)` begins with `0` only for `n == 0`. */
  lemma {:induction false} NatToStringFirst(n: nat)
    ensures NatToString(n)[0] == '0' <==> n == 0
    decreases n
  {
    if n >= 10 {
      NatToStringFirst(n / 10);
    }
  }

  /** Reading a run inside a slice `s[lo:hi]` gives what reading it in `s` does. */
  lemma {:induction false} RunValueSlice(s: string, lo: nat, hi: nat, i: nat, j: nat)
    requires lo <= i <= j <= hi <= |s|
    ensures RunValue(s[lo..hi], i - lo, j - lo) == RunValue(s, i, j)
    decreases j - i
  {
    if i < j {
      RunValueSlice(s, lo, hi, i, j - 1);
      assert s[lo..hi][j - 1 - lo] == s[j - 1];
    }
  }
}
