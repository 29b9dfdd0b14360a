/** The text form of numbers on both sides of the conversion layer.

    `toFixed(dp)` — of bignumber.js and of JavaScript's Number alike —
    prints a value rounded to dp places (ties away from zero), with a '-'
    in front whenever the value itself is negative, even when the rounded
    magnitude is zero ("-0"), and with exactly dp digits after the point.

    JavaScript's `Number(string)` reads such text back. It is modelled for
    strings over the characters "0123456789.,+-", which covers everything
    toFixed prints and everything the max-loan-length validator accepts. */
module Fixed {
  import opened Digits
  import opened Rounding

  /** A JavaScript number: a finite value (held exactly) or NaN. */
  datatype JsNumber = NaN | Finite(value: real)

  /** A value that may be null or undefined (both are None). */
  datatype Option<T> = None | Some(value: T)

  /** One of the characters "0123456789.,+-". */
  predicate NumberChar(c: char) {
    IsDigit(c) || c == '.' || c == ',' || c == '+' || c == '-'
  }

  predicate InNumberAlphabet(s: string) {
    forall i :: 0 <= i < |s| ==> NumberChar(s[i])
  }

  /** The shape of a toFixed(dp) result: an optional '-', a non-empty run of
      digits without superfluous leading zero, then (when dp > 0) a '.' and
      exactly dp digits. */
  predicate FixedForm(s: string, dp: nat) {
    var body := if |s| > 0 && s[0] == '-' then s[1..] else s;
    var point := if dp == 0 then |body| else |body| - dp - 1;
    0 < point <= |body|
    && AllDigits(body[..point])
    && (point > 1 ==> body[0] != '0')
    && (dp > 0 ==> body[point] == '.' && AllDigits(body[point + 1..]) && |body[point + 1..]| == dp)
  }

  /** The digits of n with a point before the last dp of them, zero-padded so
      that at least one digit precedes the point. */
  function PointString(n: nat, dp: nat): string {
    InsertPoint(PadLeft(DigitsOf(n), dp + 1), dp)
  }

  /** d with a point before its last dp digits (none when dp is 0). */
  function InsertPoint(d: string, dp: nat): string
    requires |d| > dp
  {
    if dp == 0 then d else d[..|d| - dp] + "." + d[|d| - dp..]
  }

  /** The point string has the shape toFixed prints, without a sign. */
  lemma PointStringForm(n: nat, dp: nat)
    ensures FixedForm(PointString(n, dp), dp) && PointString(n, dp)[0] != '-'
  {
    PaddedLead(n, dp);
    InsertPointForm(PadLeft(DigitsOf(n), dp + 1), dp);
  }

  lemma InsertPointForm(d: string, dp: nat)
    requires |d| > dp && AllDigits(d) && (|d| - dp > 1 ==> d[0] != '0')
    ensures FixedForm(InsertPoint(d, dp), dp) && InsertPoint(d, dp)[0] != '-'
  {
    if dp == 0 {
      WholeForm(d);
    } else {
      AllDigitsSplit(d, |d| - dp);
      FractionForm(d[..|d| - dp], d[|d| - dp..], dp);
    }
  }

  /** Padding only ever adds a leading zero to a single digit before the
      point. */
  lemma PaddedLead(n: nat, dp: nat)
    ensures var d := PadLeft(DigitsOf(n), dp + 1);
      |d| - dp > 1 ==> d[0] != '0'
  {
  }

  lemma WholeForm(w: string)
    requires |w| > 0 && AllDigits(w) && (|w| > 1 ==> w[0] != '0')
    ensures FixedForm(w, 0) && w[0] != '-'
  {
    assert w[..|w|] == w;
  }

  lemma FractionForm(w: string, f: string, dp: nat)
    requires |w| > 0 && AllDigits(w) && (|w| > 1 ==> w[0] != '0')
    requires AllDigits(f) && |f| == dp > 0
    ensures FixedForm(w + "." + f, dp) && (w + "." + f)[0] != '-'
  {
    var s := w + "." + f;
    assert s[0] == w[0];
    assert s[..|w|] == w && s[|w| + 1..] == f;
  }

  /** x.toFixed(dp) */
  function ToFixed(x: real, dp: nat): (s: string)
    ensures FixedForm(s, dp)
    ensures InNumberAlphabet(s)
    ensures s[0] == '-' <==> x < 0.0
  {
    var p := PointString(RoundScaled(Abs(x), dp), dp);
    PointStringForm(RoundScaled(Abs(x), dp), dp);
    SignedForm(p, dp);
    if x < 0.0 then "-" + p else p
  }

  /** A '-' in front of an unsigned toFixed shape gives a signed one. */
  lemma SignedForm(p: string, dp: nat)
    requires FixedForm(p, dp) && p[0] != '-'
    ensures FixedForm("-" + p, dp) && ("-" + p)[0] == '-'
    ensures InNumberAlphabet(p) && InNumberAlphabet("-" + p)
  {
    assert ("-" + p)[1..] == p;
    FixedFormAlphabet(p, dp);
    FixedFormAlphabet("-" + p, dp);
  }

  lemma FixedFormAlphabet(s: string, dp: nat)
    requires FixedForm(s, dp)
    ensures InNumberAlphabet(s)
  {
    var off := if |s| > 0 && s[0] == '-' then 1 else 0;
    var body := s[off..];
    var point := if dp == 0 then |body| else |body| - dp - 1;
    forall i | 0 <= i < |s|
      ensures NumberChar(s[i])
    {
      if i >= off {
        var j := i - off;
        assert s[i] == body[j];
        if j < point {
          assert body[..point][j] == body[j];
        } else if j > point {
          assert body[point + 1..][j - point - 1] == body[j];
        }
      }
    }
  }

  /** Printed digits are never mistaken for "NaN". */
  lemma FixedFormNotNaN(s: string, dp: nat)
    requires FixedForm(s, dp)
    ensures s != "NaN"
  {
  }

  /** Number.prototype.toFixed on a JavaScript number: NaN prints as "NaN". */
  function NumberToFixed(n: JsNumber, dp: nat): (s: string)
    ensures n.NaN? ==> s == "NaN"
    ensures n.Finite? ==> FixedForm(s, dp)
  {
    match n
    case NaN => "NaN"
    case Finite(v) => ToFixed(v, dp)
  }

  function Negate(n: JsNumber): JsNumber {
    match n
    case NaN => NaN
    case Finite(v) => Finite(-v)
  }

  /** The unsigned part of a decimal literal: digits with an optional '.'
      and optional further digits, at least one digit in all. */
  function UnsignedDecimal(s: string): (n: JsNumber)
    ensures s != [] && AllDigits(s) ==> n == Finite(ValueOf(s) as real)
  {
    var k := LeadingDigits(s);
    if k == |s| then
      assert s[..k] == s;
      if k == 0 then NaN else Finite(ValueOf(s) as real)
    else if s[k] != '.' then NaN
    else
      var frac := s[k + 1..];
      if !AllDigits(frac) || (k == 0 && frac == []) then NaN
      else
        AllDigitsAppend(s[..k], frac);
        Finite(Unshift(ValueOf(s[..k] + frac) as real, |frac|))
  }

  /** Number(s): the empty string is 0, an optional sign, then an unsigned
      decimal; anything else is NaN. */
  function ToNumber(s: string): (n: JsNumber)
    requires InNumberAlphabet(s)
    ensures s == "" ==> n == Finite(0.0)
  {
    if s == "" then Finite(0.0)
    else if s[0] == '-' then Negate(UnsignedDecimal(s[1..]))
    else if s[0] == '+' then UnsignedDecimal(s[1..])
    else UnsignedDecimal(s)
  }

  /** A run of digits reads as the number it denotes. */
  lemma ToNumberDigits(s: string)
    requires s != "" && AllDigits(s)
    ensures InNumberAlphabet(s)
    ensures ToNumber(s) == Finite(ValueOf(s) as real)
  {
    assert IsDigit(s[0]);
    forall i | 0 <= i < |s| ensures NumberChar(s[i]) {
      assert IsDigit(s[i]);
    }
  }

  /** Number() rejects a comma anywhere, and a point with no digit. */
  lemma ToNumberRejects(s: string)
    requires InNumberAlphabet(s)
    ensures ',' in s ==> ToNumber(s) == NaN
    ensures s == "." ==> ToNumber(s) == NaN
  {
    if ',' in s && s[0] != '-' && s[0] != '+' {
      UnsignedDecimalRejectsComma(s);
    } else if ',' in s {
      assert s[0] != ',';
      var j :| 0 <= j < |s| && s[j] == ',';
      assert s[1..][j - 1] == ',';
      UnsignedDecimalRejectsComma(s[1..]);
    }
  }

  lemma UnsignedDecimalRejectsComma(s: string)
    ensures ',' in s ==> UnsignedDecimal(s) == NaN
  {
    if ',' in s {
      var k := LeadingDigits(s);
      var j :| 0 <= j < |s| && s[j] == ',';
      if k < |s| && s[k] == '.' {
        assert s[k + 1..][j - k - 1] == ',';
      }
    }
  }

  /** Reading back what toFixed printed gives the rounded value: the text
      carries exactly the value rounded to dp places. */
  lemma ToNumberToFixed(x: real, dp: nat)
    ensures ToNumber(ToFixed(x, dp)) == Finite(Rounded(x, dp))
  {
    if x < 0.0 {
      ToNumberToFixedNegative(x, dp);
    } else {
      ToNumberToFixedNonNegative(x, dp);
    }
  }

  lemma ToNumberToFixedNegative(x: real, dp: nat)
    requires x < 0.0
    ensures ToNumber(ToFixed(x, dp)) == Finite(Rounded(x, dp))
  {
    var n := RoundScaled(Abs(x), dp);
    NegativeParts(x, dp);
    ToNumberMinusPointString(n, dp);
  }

  lemma ToNumberToFixedNonNegative(x: real, dp: nat)
    requires x >= 0.0
    ensures ToNumber(ToFixed(x, dp)) == Finite(Rounded(x, dp))
  {
    var n := RoundScaled(Abs(x), dp);
    NonNegativeParts(x, dp);
    ToNumberPointString(n, dp);
  }

  /** A negative value prints as '-' and its rounded magnitude, and rounds
      to minus that magnitude. */
  lemma NegativeParts(x: real, dp: nat)
    requires x < 0.0
    ensures var n := RoundScaled(Abs(x), dp);
      && ToFixed(x, dp) == "-" + PointString(n, dp)
      && Rounded(x, dp) == -Unshift(n as real, dp)
  {
  }

  /** Any other value prints as its rounded magnitude and rounds to it. */
  lemma NonNegativeParts(x: real, dp: nat)
    requires x >= 0.0
    ensures var n := RoundScaled(Abs(x), dp);
      && ToFixed(x, dp) == PointString(n, dp)
      && Rounded(x, dp) == Unshift(n as real, dp)
  {
  }

  /** The digits printed for n units of 10^-dp read back as that many
      units ... */
  lemma ToNumberPointString(n: nat, dp: nat)
    ensures InNumberAlphabet(PointString(n, dp))
    ensures ToNumber(PointString(n, dp)) == Finite(Unshift(n as real, dp))
  {
    PointStringForm(n, dp);
    UnsignedPointString(n, dp);
    ToNumberUnsigned(PointString(n, dp), dp);
  }

  /** ... and with a '-' in front, as minus that many. */
  lemma ToNumberMinusPointString(n: nat, dp: nat)
    ensures InNumberAlphabet("-" + PointString(n, dp))
    ensures ToNumber("-" + PointString(n, dp)) == Finite(-Unshift(n as real, dp))
  {
    PointStringForm(n, dp);
    UnsignedPointString(n, dp);
    ToNumberNegative(PointString(n, dp), dp, Unshift(n as real, dp));
  }

  lemma ToNumberUnsigned(p: string, dp: nat)
    requires FixedForm(p, dp) && p[0] != '-'
    ensures InNumberAlphabet(p) && ToNumber(p) == UnsignedDecimal(p)
  {
    FixedFormAlphabet(p, dp);
    assert IsDigit(p[0]) by {
      var point := if dp == 0 then |p| else |p| - dp - 1;
      assert p[..point][0] == p[0];
    }
  }

  lemma ToNumberNegative(p: string, dp: nat, v: real)
    requires FixedForm(p, dp) && p[0] != '-' && UnsignedDecimal(p) == Finite(v)
    ensures InNumberAlphabet("-" + p) && ToNumber("-" + p) == Finite(-v)
  {
    assert ("-" + p)[1..] == p;
    SignedForm(p, dp);
  }


  lemma UnsignedPointString(n: nat, dp: nat)
    ensures UnsignedDecimal(PointString(n, dp)) == Finite(Unshift(n as real, dp))
  {
    ValueOfDigitsOf(n);
    UnsignedInsertPoint(PadLeft(DigitsOf(n), dp + 1), dp);
  }

  /** A digit string with a point inserted denotes its value scaled down by
      the number of digits after the point. */
  lemma UnsignedInsertPoint(d: string, dp: nat)
    requires |d| > dp && AllDigits(d)
    ensures UnsignedDecimal(InsertPoint(d, dp)) == Finite(Unshift(ValueOf(d) as real, dp))
  {
    if dp == 0 {
      LeadingDigitsAll(d);
      assert d[..|d|] == d;
    } else {
      var whole, frac := d[..|d| - dp], d[|d| - dp..];
      assert whole + frac == d;
      AllDigitsSplit(d, |d| - dp);
      UnsignedDecimalPoint(whole, frac);
    }
  }

  /** Digits, a point and further digits denote the digits run together,
      scaled down by the number of digits after the point. */
  lemma UnsignedDecimalPoint(whole: string, frac: string)
    requires |whole| > 0 && AllDigits(whole) && AllDigits(frac)
    ensures UnsignedDecimal(whole + "." + frac)
         == Finite(Unshift(ValueOf(whole + frac) as real, |frac|))
  {
    var p := whole + "." + frac;
    var k := |whole|;
    assert p == whole + ("." + frac);
    LeadingDigitsAppend(whole, "." + frac);
    assert p[..k] == whole;
    assert p[k + 1..] == frac;
  }

  /** A whole number prints as its canonical digits. */
  lemma ToFixedWhole(m: nat)
    ensures ToFixed(m as real, 0) == DigitsOf(m)
  {
    assert Shift(m as real, 0) == m as real;
    assert RoundScaled(m as real, 0) == m;
  }

  /** A value printed with no fractional digits reads back as a whole number
      within half a unit of it, and exactly when it already was whole. */
  lemma ToFixedInteger(y: real)
    ensures ToNumber(ToFixed(y, 0)).Finite?
    ensures var v := ToNumber(ToFixed(y, 0)).value;
      && v.Floor as real == v
      && -0.5 <= v - y <= 0.5
      && (y.Floor as real == y ==> v == y)
  {
    ToNumberToFixed(y, 0);
    var v := Rounded(y, 0);
    assert Shift(v, 0) == v && Shift(y, 0) == y;
    if y.Floor as real == y {
      RoundedExact(y, 0);
    }
  }

  /** Scaling a whole number by 10^k gives the whole number n * 10^k. */
  lemma {:induction false} ShiftWhole(n: nat, k: nat)
    ensures Shift(n as real, k) == (n * Pow10(k)) as real
  {
    if k > 0 {
      ShiftWhole(n, k - 1);
      MulAssoc(n, Pow10(k - 1), 10);
    }
  }
}
