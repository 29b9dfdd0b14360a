/** The admin screen that sets a pool's maximum loan length: the validation
    of the typed number of days, the choice of the contract argument, and
    the condition under which the contract call is prepared. */
module SetMaxLoanLength {
  import opened Digits
  import opened Rounding
  import opened Fixed
  import opened Utils

  predicate IsSeparator(c: char) {
    c == '.' || c == ','
  }

  predicate DigitOrSeparator(c: char) {
    IsDigit(c) || IsSeparator(c)
  }

  /** The pattern ^[0-9]*[.,]?[0-9]*$ : a run of digits, then optionally one
      separator followed by another run of digits. */
  predicate MatchesLoanLengthPattern(s: string) {
    var k := LeadingDigits(s);
    k == |s| || (IsSeparator(s[k]) && AllDigits(s[k + 1..]))
  }

  /** The number of separators in s. */
  function Separators(s: string): (n: nat)
    ensures n <= |s|
  {
    if s == [] then 0 else (if IsSeparator(s[0]) then 1 else 0) + Separators(s[1..])
  }

  /** The input is present, non-empty and matches the pattern. */
  predicate ValidMaxLoanLength(newMaxLoanLength: Option<string>) {
    newMaxLoanLength.Some? && newMaxLoanLength.value != "" && MatchesLoanLengthPattern(newMaxLoanLength.value)
  }

  lemma {:induction false} SeparatorsAppend(a: string, b: string)
    ensures Separators(a + b) == Separators(a) + Separators(b)
  {
    if a != [] {
      assert (a + b)[1..] == a[1..] + b;
      SeparatorsAppend(a[1..], b);
    } else {
      assert a + b == b;
    }
  }

  lemma {:induction false} DigitsHaveNoSeparators(s: string)
    requires AllDigits(s)
    ensures Separators(s) == 0
  {
    if s != [] {
      DigitsHaveNoSeparators(s[1..]);
    }
  }

  lemma {:induction false} SeparatorCounted(s: string, i: nat)
    requires i < |s| && IsSeparator(s[i])
    ensures Separators(s) >= 1
  {
    if i > 0 {
      assert s[1..][i - 1] == s[i];
      SeparatorCounted(s[1..], i - 1);
    }
  }

  /** The separators of s, counted around position k after a run of digits. */
  lemma {:induction false} SeparatorsAround(s: string, k: nat)
    requires k < |s| && AllDigits(s[..k])
    ensures Separators(s) == (if IsSeparator(s[k]) then 1 else 0) + Separators(s[k + 1..])
  {
    if k > 0 {
      var t := s[1..];
      assert IsDigit(s[0]) by { assert s[..k][0] == s[0]; }
      var u := t[..k - 1];
      assert AllDigits(u) by {
        forall i | 0 <= i < |u| ensures IsDigit(u[i]) {
          assert u[i] == s[..k][i + 1];
        }
      }
      SeparatorsAround(t, k - 1);
      assert t[k - 1] == s[k] && t[k..] == s[k + 1..];
    }
  }

  /** Every character of s is a digit or a separator. */
  predicate OnlyDigitsAndSeparators(s: string) {
    forall i :: 0 <= i < |s| ==> DigitOrSeparator(s[i])
  }

  /** The pattern accepts exactly the strings made of digits and separators
      with at most one separator. */
  lemma MatchesIffOneSeparator(s: string)
    ensures MatchesLoanLengthPattern(s) <==> OnlyDigitsAndSeparators(s) && Separators(s) <= 1
  {
    if MatchesLoanLengthPattern(s) {
      MatchesOneSeparator(s);
    } else if OnlyDigitsAndSeparators(s) {
      MismatchTwoSeparators(s);
    }
  }

  lemma MatchesOneSeparator(s: string)
    requires MatchesLoanLengthPattern(s)
    ensures OnlyDigitsAndSeparators(s) && Separators(s) <= 1
  {
    var k := LeadingDigits(s);
    if k < |s| {
      var rest := s[k + 1..];
      SeparatorsAround(s, k);
      DigitsHaveNoSeparators(rest);
      forall i | 0 <= i < |s| ensures DigitOrSeparator(s[i]) {
        if i < k {
          assert s[..k][i] == s[i];
        } else if i > k {
          assert rest[i - k - 1] == s[i];
        }
      }
    } else {
      assert s[..k] == s;
      DigitsHaveNoSeparators(s);
    }
  }

  lemma MismatchTwoSeparators(s: string)
    requires !MatchesLoanLengthPattern(s) && OnlyDigitsAndSeparators(s)
    ensures Separators(s) >= 2
  {
    var k := LeadingDigits(s);
    var rest := s[k + 1..];
    SeparatorsAround(s, k);
    // s[k] is one separator and rest holds another
    assert IsSeparator(s[k]) && !AllDigits(rest);
    var j :| 0 <= j < |rest| && !IsDigit(rest[j]);
    assert rest[j] == s[k + 1 + j];
    SeparatorCounted(rest, j);
  }

  /** Whatever the validator accepts can be handed to Number(). */
  lemma ValidInNumberAlphabet(s: Option<string>)
    requires ValidMaxLoanLength(s)
    ensures InNumberAlphabet(s.value)
  {
    MatchesIffOneSeparator(s.value);
    forall i | 0 <= i < |s.value| ensures NumberChar(s.value[i]) {
      assert DigitOrSeparator(s.value[i]);
    }
  }

  /** A missing or empty input is invalid. */
  lemma MissingOrEmptyInvalid()
    ensures !ValidMaxLoanLength(None)
    ensures !ValidMaxLoanLength(Some(""))
  {
  }

  /** A non-empty run of digits is valid. */
  lemma DigitsValid(s: string)
    requires s != "" && AllDigits(s)
    ensures ValidMaxLoanLength(Some(s))
  {
    LeadingDigitsAll(s);
  }

  /** Two separators anywhere make the input invalid ("1.5.2", "1,,"). */
  lemma TwoSeparatorsInvalid(s: string, i: nat, j: nat)
    requires i < j < |s| && IsSeparator(s[i]) && IsSeparator(s[j])
    ensures !ValidMaxLoanLength(Some(s))
  {
    MatchesIffOneSeparator(s);
    assert s == s[..j] + s[j..];
    SeparatorsAppend(s[..j], s[j..]);
    assert s[..j][i] == s[i];
    SeparatorCounted(s[..j], i);
    SeparatorCounted(s[j..], 0);
  }

  /** A character that is neither a digit nor a separator ('-', 'e', a
      space) makes the input invalid. */
  lemma ForeignCharacterInvalid(s: string, i: nat)
    requires i < |s| && !DigitOrSeparator(s[i])
    ensures !ValidMaxLoanLength(Some(s))
  {
    MatchesIffOneSeparator(s);
  }

  /** The gap between the validator and Number(): an accepted input reads as
      NaN exactly when it uses ',' as its separator or is a lone ".". */
  lemma ValidButNaN(s: string)
    requires ValidMaxLoanLength(Some(s))
    ensures InNumberAlphabet(s)
    ensures ToNumber(s) == NaN <==> (',' in s || s == ".")
  {
    ValidInNumberAlphabet(Some(s));
    UnsignedValid(s);
    var k := LeadingDigits(s);
    if k == |s| {
      AllDigitsReads(s);
    } else {
      SeparatorValid(s);
    }
  }

  /** An accepted input carries no sign, so Number() reads it unsigned. */
  lemma UnsignedValid(s: string)
    requires ValidMaxLoanLength(Some(s))
    ensures InNumberAlphabet(s) && ToNumber(s) == UnsignedDecimal(s)
  {
    ValidInNumberAlphabet(Some(s));
    MatchesIffOneSeparator(s);
    assert DigitOrSeparator(s[0]);
  }

  /** A run of digits reads as a number and holds no ','. */
  lemma AllDigitsReads(s: string)
    requires s != [] && LeadingDigits(s) == |s|
    ensures UnsignedDecimal(s).Finite? && ',' !in s && s != "."
  {
    assert s[..|s|] == s;
    forall i | 0 <= i < |s| ensures s[i] != ',' {
      assert IsDigit(s[..|s|][i]);
    }
  }

  /** An accepted input with a separator reads as NaN exactly when the
      separator is ',' or nothing but the '.' is there. */
  lemma SeparatorValid(s: string)
    requires ValidMaxLoanLength(Some(s)) && LeadingDigits(s) < |s|
    ensures UnsignedDecimal(s) == NaN <==> (',' in s || s == ".")
  {
    var k := LeadingDigits(s);
    var frac := s[k + 1..];
    assert ',' in s <==> s[k] == ',' by {
      forall i | 0 <= i < |s| && i != k ensures s[i] != ',' {
        if i < k {
          assert IsDigit(s[..k][i]);
        } else {
          assert IsDigit(frac[i - k - 1]);
        }
      }
    }
    assert s == "." <==> (s[k] == '.' && k == 0 && frac == []) by {
      if s[k] == '.' && k == 0 && frac == [] {
        assert s == [s[k]] + frac;
      }
    }
  }

  /** The argument passed to setMaxLoanLength: the typed days in seconds
      when the input is valid, otherwise the seconds of "0" days. */
  function MaxLoanLengthArg(newMaxLoanLength: Option<string>): (r: string)
    // an invalid input falls back to "0"
    ensures !ValidMaxLoanLength(newMaxLoanLength) ==> r == "0"
    // a valid one is converted as the input itself
    ensures ValidMaxLoanLength(newMaxLoanLength) ==>
      InNumberAlphabet(newMaxLoanLength.value) && r == FormatMaxLoanLength(newMaxLoanLength.value)
  {
    if ValidMaxLoanLength(newMaxLoanLength) then
      ValidInNumberAlphabet(newMaxLoanLength);
      FormatMaxLoanLength(newMaxLoanLength.value)
    else
      FormatMaxLoanLengthZero();
      FormatMaxLoanLength("0")
  }

  /** A valid input is passed on as "NaN" exactly when it uses ',' or is a
      lone "."; otherwise as its count of seconds, rounded to a whole second. */
  lemma ValidArg(s: string)
    requires ValidMaxLoanLength(Some(s))
    ensures MaxLoanLengthArg(Some(s)) == "NaN" <==> (',' in s || s == ".")
    ensures !(',' in s || s == ".") ==>
      && ToNumber(s).Finite?
      && FixedForm(MaxLoanLengthArg(Some(s)), 0)
      && ToNumber(MaxLoanLengthArg(Some(s))) == Finite(Rounded(InSeconds(ToNumber(s).value), 0))
  {
    ValidButNaN(s);
    var r := MaxLoanLengthArg(Some(s));
    if ToNumber(s).Finite? {
      FormatMaxLoanLengthValue(s);
      FixedFormNotNaN(r, 0);
    }
  }

  /** A whole number of days typed in digits becomes its canonical count of
      seconds. */
  lemma WholeDaysArg(s: string)
    requires s != "" && AllDigits(s)
    ensures MaxLoanLengthArg(Some(s)) == DigitsOf(ValueOf(s) * SECONDS_IN_A_DAY)
  {
    DigitsValid(s);
    FormatMaxLoanLengthWholeDays(s);
  }

  /** ASCII lower case of one character. */
  function LowerChar(c: char): (l: char)
    ensures !('A' <= l <= 'Z')
    ensures c != l ==> 'A' <= c <= 'Z'
  {
    if 'A' <= c <= 'Z' then (c as int + 32) as char else c
  }

  /** String.prototype.toLowerCase on ASCII text. */
  function ToLower(s: string): (t: string)
    ensures |t| == |s|
    ensures forall i :: 0 <= i < |s| ==> t[i] == LowerChar(s[i])
  {
    seq(|s|, i requires 0 <= i < |s| => LowerChar(s[i]))
  }

  /** Lower-casing twice changes nothing more. */
  lemma ToLowerIdempotent(s: string)
    ensures ToLower(ToLower(s)) == ToLower(s)
  {
    var t := ToLower(s);
    assert forall i :: 0 <= i < |t| ==> LowerChar(t[i]) == t[i];
  }

  /** address?.toLowerCase(): a missing address stays missing. */
  function LowerAddress(a: Option<string>): (r: Option<string>)
    ensures r.Some? <==> a.Some?
  {
    match a
    case None => None
    case Some(s) => Some(ToLower(s))
  }

  /** The call is prepared only on the pool's chain, for the connected
      account, and for a valid input. */
  predicate Enabled(connectedChain: Option<int>, chainId: int, address: Option<string>,
                    userAddress: Option<string>, newMaxLoanLength: Option<string>)
  {
    connectedChain == Some(chainId)
    && LowerAddress(address) == LowerAddress(userAddress)
    && ValidMaxLoanLength(newMaxLoanLength)
  }

  /** An enabled call always carries a valid input, and hence the input's
      own count of seconds rather than the fallback. */
  lemma EnabledImpliesValid(connectedChain: Option<int>, chainId: int, address: Option<string>,
                            userAddress: Option<string>, newMaxLoanLength: Option<string>)
    requires Enabled(connectedChain, chainId, address, userAddress, newMaxLoanLength)
    ensures ValidMaxLoanLength(newMaxLoanLength)
    ensures newMaxLoanLength.value != ""
  {
  }

  /** The address comparison ignores case: the same account written in any
      mix of cases enables the call, and a different case never disables it. */
  lemma EnabledIgnoresCase(connectedChain: Option<int>, chainId: int, address: string,
                           userAddress: string, newMaxLoanLength: Option<string>)
    ensures Enabled(connectedChain, chainId, Some(address), Some(userAddress), newMaxLoanLength)
        <==> connectedChain == Some(chainId) && ToLower(address) == ToLower(userAddress)
             && ValidMaxLoanLength(newMaxLoanLength)
    ensures Enabled(connectedChain, chainId, Some(ToLower(address)), Some(userAddress), newMaxLoanLength)
        == Enabled(connectedChain, chainId, Some(address), Some(userAddress), newMaxLoanLength)
  {
    ToLowerIdempotent(address);
  }

  /** With no connected account only a missing user address matches, since
      both sides of the comparison are then undefined. */
  lemma EnabledWithoutAccount(connectedChain: Option<int>, chainId: int,
                              userAddress: Option<string>, newMaxLoanLength: Option<string>)
    ensures Enabled(connectedChain, chainId, None, userAddress, newMaxLoanLength)
        <==> connectedChain == Some(chainId) && userAddress == None && ValidMaxLoanLength(newMaxLoanLength)
  {
  }
}
