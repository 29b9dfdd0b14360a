/** Decimal digit strings: the textual form in which every fixed-point
    amount leaves the conversion layer, and the form in which form inputs
    arrive. */
module Digits {

  /** 10^n as a natural number. */
  function Pow10(n: nat): (p: nat)
    ensures p >= 1
  {
    if n == 0 then 1 else 10 * Pow10(n - 1)
  }

  predicate IsDigit(c: char) {
    '0' <= c <= '9'
  }

  predicate AllDigits(s: string) {
    forall i :: 0 <= i < |s| ==> IsDigit(s[i])
  }

  function DigitChar(d: nat): (c: char)
    requires d < 10
    ensures IsDigit(c) && DigitValue(c) == d
  {
    (48 + d) as char
  }

  function DigitValue(c: char): (d: nat)
    requires IsDigit(c)
    ensures d < 10
  {
    c as int - 48
  }

  /** The number a string of decimal digits denotes ("" denotes 0). */
  function ValueOf(s: string): nat
    requires AllDigits(s)
  {
    if s == [] then 0 else ValueOf(s[..|s| - 1]) * 10 + DigitValue(s[|s| - 1])
  }

  /** The canonical decimal form of n: at least one digit, no leading zero. */
  function DigitsOf(n: nat): (s: string)
    ensures |s| > 0 && AllDigits(s)
    ensures |s| > 1 ==> s[0] != '0'
    ensures n > 0 ==> s[0] != '0'
  {
    if n < 10 then [DigitChar(n)] else DigitsOf(n / 10) + [DigitChar(n % 10)]
  }

  /** A string of k zeros. */
  function Zeros(k: nat): (s: string)
    ensures |s| == k && AllDigits(s)
  {
    if k == 0 then "" else Zeros(k - 1) + "0"
  }

  /** Number of leading characters of s that are decimal digits. */
  function LeadingDigits(s: string): (k: nat)
    ensures k <= |s|
    ensures AllDigits(s[..k])
    ensures k < |s| ==> !IsDigit(s[k])
  {
    if s == [] || !IsDigit(s[0]) then 0
    else
      var k' := LeadingDigits(s[1..]);
      assert s[..1 + k'] == [s[0]] + s[1..][..k'];
      1 + k'
  }

  lemma {:induction false} ValueOfDigitsOf(n: nat)
    ensures ValueOf(DigitsOf(n)) == n
  {
    var s := DigitsOf(n);
    if n >= 10 {
      ValueOfDigitsOf(n / 10);
      assert s[..|s| - 1] == DigitsOf(n / 10);
    } else {
      assert s[..|s| - 1] == [];
    }
  }

  lemma {:induction false} ValueOfZeros(n: nat, k: nat)
    ensures AllDigits(DigitsOf(n) + Zeros(k))
    ensures ValueOf(DigitsOf(n) + Zeros(k)) == n * Pow10(k)
  {
    AllDigitsAppend(DigitsOf(n), Zeros(k));
    if k == 0 {
      assert DigitsOf(n) + Zeros(k) == DigitsOf(n);
      ValueOfDigitsOf(n);
    } else {
      var s := DigitsOf(n) + Zeros(k);
      var init := DigitsOf(n) + Zeros(k - 1);
      ValueOfZeros(n, k - 1);
      assert ValueOf(s) == ValueOf(init) * 10 by {
        assert s[..|s| - 1] == init;
        assert s[|s| - 1] == '0';
      }
      MulAssoc(n, Pow10(k - 1), 10);
    }
  }

  lemma MulAssoc(a: int, b: int, c: int)
    ensures (a * b) * c == a * (c * b)
  {
  }

  /** Digit strings are canonical: a string with no superfluous leading zero
      is DigitsOf its own value. */
  lemma {:induction false} DigitsOfValueOf(s: string)
    requires |s| > 0 && AllDigits(s) && (|s| > 1 ==> s[0] != '0')
    ensures DigitsOf(ValueOf(s)) == s
  {
    var init := s[..|s| - 1];
    if |s| == 1 {
      assert ValueOf(s) == DigitValue(s[0]) by { assert init == []; }
    } else {
      assert init[0] == s[0];
      DigitsOfValueOf(init);
      ValueOfPositive(init);
      assert ValueOf(s) / 10 == ValueOf(init);
      assert s == init + [s[|s| - 1]];
    }
  }

  /** A digit string that does not start with '0' denotes a positive number. */
  lemma {:induction false} ValueOfPositive(s: string)
    requires |s| > 0 && AllDigits(s) && s[0] != '0'
    ensures ValueOf(s) > 0
  {
    if |s| > 1 {
      var init := s[..|s| - 1];
      assert init[0] == s[0];
      ValueOfPositive(init);
    }
  }

  /** Appending zeros multiplies by a power of ten: n with k zeros after it is
      the canonical form of n * 10^k when n > 0. */
  lemma DigitsOfShift(n: nat, k: nat)
    requires n > 0
    ensures DigitsOf(n * Pow10(k)) == DigitsOf(n) + Zeros(k)
  {
    var s := DigitsOf(n) + Zeros(k);
    ValueOfZeros(n, k);
    DigitsOfValueOf(s);
  }

  /** The digits before a non-digit character are exactly those counted. */
  lemma {:induction false} LeadingDigitsAppend(a: string, t: string)
    requires AllDigits(a)
    requires t == [] || !IsDigit(t[0])
    ensures LeadingDigits(a + t) == |a|
  {
    if a != [] {
      assert (a + t)[1..] == a[1..] + t;
      LeadingDigitsAppend(a[1..], t);
    } else {
      assert a + t == t;
    }
  }

  /** s zero-padded on the left to at least k digits. */
  function PadLeft(s: string, k: nat): (t: string)
    requires AllDigits(s)
    ensures |t| >= k && |t| >= |s| && AllDigits(t)
    ensures ValueOf(t) == ValueOf(s)
  {
    if |s| >= k then s
    else
      ValueOfZerosPrefix(k - |s|, s);
      Zeros(k - |s|) + s
  }

  lemma AllDigitsSplit(s: string, i: nat)
    requires AllDigits(s) && i <= |s|
    ensures AllDigits(s[..i]) && AllDigits(s[i..])
  {
    forall j | 0 <= j < |s| - i ensures IsDigit(s[i..][j]) {
      assert s[i..][j] == s[i + j];
    }
  }

  lemma AllDigitsAppend(a: string, b: string)
    requires AllDigits(a) && AllDigits(b)
    ensures AllDigits(a + b)
  {
  }

  /** Leading zeros do not change the value of a digit string. */
  lemma {:induction false} ValueOfZerosPrefix(j: nat, s: string)
    requires AllDigits(s)
    ensures AllDigits(Zeros(j) + s)
    ensures ValueOf(Zeros(j) + s) == ValueOf(s)
  {
    var t := Zeros(j) + s;
    if s == [] {
      assert t == Zeros(j);
      ZerosValue(j);
    } else {
      ValueOfZerosPrefix(j, s[..|s| - 1]);
      assert t[..|t| - 1] == Zeros(j) + s[..|s| - 1];
    }
  }

  lemma {:induction false} ZerosValue(j: nat)
    ensures ValueOf(Zeros(j)) == 0
  {
    if j > 0 {
      ZerosValue(j - 1);
      assert Zeros(j)[..j - 1] == Zeros(j - 1);
    }
  }

  lemma LeadingDigitsAll(s: string)
    requires AllDigits(s)
    ensures LeadingDigits(s) == |s|
  {
  }
}
