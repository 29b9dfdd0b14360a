/** The conversion layer between the lending front-end's form inputs and the
    arguments of the pool contract: human units (ether, percent, days) become
    integer strings in wei, 1e16-scaled loan-to-value and seconds, and
    contract values come back as display strings.

    JavaScript numbers are held as exact reals; bignumber.js values are exact
    decimals, with `div` rounding to 20 places (Rounding.Div) and `toFixed`
    printing as Fixed.ToFixed does. Multiplying by 1e18 or 1e16 is written
    Shift(x, 18) or Shift(x, 16), dividing by 1e16 or 1e18 Unshift(x, 16) or
    Unshift(x, 18). */
module Utils {
  import opened Digits
  import opened Rounding
  import opened Fixed

  const SECONDS_IN_A_DAY: nat := 86400
  const SECONDS_IN_A_YEAR: nat := 31536000

  // ---------------------------------------------------------------------
  // Display values

  /** Quote price in ether: oraclePrice * ltv, divided by 1e18 twice, with
      four decimals. */
  function GetQuotePrice(oraclePrice: real, ltv: real): (r: string)
    ensures FixedForm(r, 4)
  {
    ToFixed(Div(Div(oraclePrice * ltv, 1e18), 1e18), 4)
  }

  /** The printed quote price is within half a unit of the fourth decimal
      (plus the two divisions' 20-place rounding) of oraclePrice * ltv / 1e36. */
  lemma QuotePriceValue(oraclePrice: real, ltv: real)
    ensures ToNumber(GetQuotePrice(oraclePrice, ltv)).Finite?
    ensures Abs(ToNumber(GetQuotePrice(oraclePrice, ltv)).value - oraclePrice * ltv / 1e36)
            <= 0.00005 + 0.00000000000000000001
  {
    var a := oraclePrice * ltv;
    var d1 := Div(a, 1e18);
    var d2 := Div(d1, 1e18);
    ToNumberToFixed(d2, 4);
    RoundedError(d2, 4);
    assert Unshift(0.5, 4) == 0.00005;
    assert Abs(d1 / 1e18 - a / 1e36) <= 0.000000000000000000005 / 1e18;
  }

  /** currentAnnualInterest / 1e16 with two decimals: the contract's
      1e16-scaled percentage as a percentage. */
  function FormatCurrentAnnualInterest(currentAnnualInterest: real): (r: string)
    ensures FixedForm(r, 2)
    ensures currentAnnualInterest >= 0.0 ==> r[0] != '-'
  {
    UnshiftNonNegative(currentAnnualInterest, 16);
    ToFixed(Unshift(currentAnnualInterest, 16), 2)
  }

  /** The displayed percentage is within half a hundredth of the exact one,
      and is exact when the stored value is a whole number of hundredths of
      a percent. */
  lemma CurrentAnnualInterestValue(currentAnnualInterest: real)
    ensures var v := ToNumber(FormatCurrentAnnualInterest(currentAnnualInterest));
      && v.Finite?
      && Abs(v.value - Unshift(currentAnnualInterest, 16)) <= 0.005
      && (OnGrid(Unshift(currentAnnualInterest, 16), 2) ==> v.value == Unshift(currentAnnualInterest, 16))
  {
    var x := Unshift(currentAnnualInterest, 16);
    ToNumberToFixed(x, 2);
    RoundedError(x, 2);
    assert Unshift(0.5, 2) == 0.005;
    if OnGrid(x, 2) {
      RoundedExact(x, 2);
    }
  }

  lemma UnshiftNonNegative(x: real, k: nat)
    ensures x >= 0.0 ==> Unshift(x, k) >= 0.0
  {
    if x >= 0.0 {
      UnshiftMonotone(0.0, x, k);
    }
  }

  /** oraclePrice * noOfItems * ltv / 1e18 as a whole number. */
  function GetTotalReceivedArg(oraclePrice: real, noOfItems: real, ltv: real): (r: string)
    ensures FixedForm(r, 0)
  {
    ToFixed(Div(oraclePrice * noOfItems * ltv, 1e18), 0)
  }

  /** The argument reads back as a whole number within half a unit (plus the
      division's 20-place rounding) of oraclePrice * noOfItems * ltv / 1e18. */
  lemma TotalReceivedArgValue(oraclePrice: real, noOfItems: real, ltv: real)
    ensures var n := ToNumber(GetTotalReceivedArg(oraclePrice, noOfItems, ltv));
      && n.Finite?
      && n.value.Floor as real == n.value
      && Abs(n.value - oraclePrice * noOfItems * ltv / 1e18) <= 0.5 + 0.000000000000000000005
  {
    var q := Div(oraclePrice * noOfItems * ltv, 1e18);
    ToFixedInteger(q);
  }

  // ---------------------------------------------------------------------
  // Contract arguments from form values

  /** x * 10^k printed as a whole number reads back as x * 10^k rounded, and
      exactly when x has at most k decimals. */
  lemma ScaledWhole(x: real, k: nat)
    ensures ToNumber(ToFixed(Shift(x, k), 0)) == Finite(Rounded(Shift(x, k), 0))
    ensures OnGrid(x, k) ==> ToNumber(ToFixed(Shift(x, k), 0)) == Finite(Shift(x, k))
  {
    ToNumberToFixed(Shift(x, k), 0);
    if OnGrid(x, k) {
      assert Shift(Shift(x, k), 0) == Shift(x, k);
      RoundedExact(Shift(x, k), 0);
    }
  }

  /** A whole number n scaled by 10^k prints as n followed by k zeros. */
  lemma ScaledWholeDigits(n: nat, k: nat)
    ensures n > 0 ==> ToFixed(Shift(n as real, k), 0) == DigitsOf(n) + Zeros(k)
    ensures n == 0 ==> ToFixed(Shift(n as real, k), 0) == "0"
  {
    var m := n * Pow10(k);
    ShiftWhole(n, k);
    assert Shift(n as real, k) == m as real;
    ToFixedWhole(m);
    if n > 0 {
      DigitsOfShift(n, k);
    } else {
      assert m == 0;
    }
  }

  /** ltv * 1e16 as a whole number: a percentage in the contract's scale. */
  function FormatLtv(ltv: real): (r: string)
    ensures FixedForm(r, 0)
    ensures ToNumber(r) == Finite(Rounded(Shift(ltv, 16), 0))
    ensures OnGrid(ltv, 16) ==> ToNumber(r) == Finite(Shift(ltv, 16))
  {
    ScaledWhole(ltv, 16);
    ToFixed(Shift(ltv, 16), 0)
  }

  /** A whole percentage n prints as n followed by sixteen zeros (and 0 as
      "0"). */
  lemma FormatLtvWholePercent(n: nat)
    ensures n > 0 ==> FormatLtv(n as real) == DigitsOf(n) + Zeros(16)
    ensures n == 0 ==> FormatLtv(n as real) == "0"
  {
    ScaledWholeDigits(n, 16);
  }

  /** maxPrice * 1e18 as a whole number: an ether amount in wei. */
  function FormatMaxPrice(maxPrice: real): (r: string)
    ensures FixedForm(r, 0)
    ensures ToNumber(r) == Finite(Rounded(Shift(maxPrice, 18), 0))
    ensures OnGrid(maxPrice, 18) ==> ToNumber(r) == Finite(Shift(maxPrice, 18))
  {
    ScaledWhole(maxPrice, 18);
    ToFixed(Shift(maxPrice, 18), 0)
  }

  function FormatAmountToDepositOrWithdraw(amount: real): (r: string)
    ensures FixedForm(r, 0)
    ensures ToNumber(r) == Finite(Rounded(Shift(amount, 18), 0))
    ensures OnGrid(amount, 18) ==> ToNumber(r) == Finite(Shift(amount, 18))
  {
    ScaledWhole(amount, 18);
    ToFixed(Shift(amount, 18), 0)
  }

  function FormatMaxDailyBorrows(maxDailyBorrows: real): (r: string)
    ensures FixedForm(r, 0)
    ensures ToNumber(r) == Finite(Rounded(Shift(maxDailyBorrows, 18), 0))
    ensures OnGrid(maxDailyBorrows, 18) ==> ToNumber(r) == Finite(Shift(maxDailyBorrows, 18))
  {
    ScaledWhole(maxDailyBorrows, 18);
    ToFixed(Shift(maxDailyBorrows, 18), 0)
  }

  /** A whole number of ether prints as that number followed by eighteen
      zeros, whichever of the three ether formatters prints it. */
  lemma FormatWholeEther(n: nat)
    requires n > 0
    ensures FormatMaxPrice(n as real) == DigitsOf(n) + Zeros(18)
    ensures FormatAmountToDepositOrWithdraw(n as real) == DigitsOf(n) + Zeros(18)
    ensures FormatMaxDailyBorrows(n as real) == DigitsOf(n) + Zeros(18)
  {
    ScaledWholeDigits(n, 18);
  }

  /** JavaScript subtraction, NaN absorbing. */
  function Minus(a: JsNumber, b: JsNumber): JsNumber {
    if a.Finite? && b.Finite? then Finite(a.value - b.value) else NaN
  }

  /** A duration in days, counted in seconds. */
  function InSeconds(days: real): real {
    days * SECONDS_IN_A_DAY as real
  }

  /** Number(days) * SECONDS_IN_A_DAY as a whole number of seconds. */
  function FormatMaxLoanLength(maxLengthInDays: string): (r: string)
    requires InNumberAlphabet(maxLengthInDays)
    ensures ToNumber(maxLengthInDays) == NaN ==> r == "NaN"
    ensures ToNumber(maxLengthInDays).Finite? ==> FixedForm(r, 0)
  {
    match ToNumber(maxLengthInDays)
    case NaN => "NaN"
    case Finite(days) => ToFixed(InSeconds(days), 0)
  }

  /** A number of days that Number() reads becomes its count of seconds,
      rounded to a whole second. */
  lemma FormatMaxLoanLengthValue(maxLengthInDays: string)
    requires InNumberAlphabet(maxLengthInDays)
    requires ToNumber(maxLengthInDays).Finite?
    ensures ToNumber(FormatMaxLoanLength(maxLengthInDays))
         == Finite(Rounded(InSeconds(ToNumber(maxLengthInDays).value), 0))
  {
    ToNumberToFixed(InSeconds(ToNumber(maxLengthInDays).value), 0);
  }

  /** A whole number of days, written in digits, gives its count of seconds
      in canonical digits; an empty input counts as zero days. */
  lemma FormatMaxLoanLengthWholeDays(days: string)
    requires AllDigits(days)
    ensures FormatMaxLoanLength(days) == DigitsOf(ValueOf(days) * SECONDS_IN_A_DAY)
  {
    var n := ValueOf(days);
    if days == "" {
      assert n == 0;
    } else {
      ToNumberDigits(days);
    }
    assert ToNumber(days) == Finite(n as real);
    assert InSeconds(n as real) == (n * SECONDS_IN_A_DAY) as real;
    ToFixedWhole(n * SECONDS_IN_A_DAY);
  }

  /** Zero days is zero seconds. */
  lemma FormatMaxLoanLengthZero()
    ensures FormatMaxLoanLength("0") == "0"
  {
    assert AllDigits("0") && ValueOf("0") == 0;
    FormatMaxLoanLengthWholeDays("0");
  }

  // ---------------------------------------------------------------------
  // Interest

  lemma DivNonNegative(x: real, y: real)
    requires y > 0.0
    ensures x >= 0.0 ==> x / y >= 0.0
  {
  }

  lemma DivMonotone(a: real, b: real, y: real)
    requires a <= b && y > 0.0
    ensures a / y <= b / y
  {
  }

  /** An annual percentage rate as wei of interest per ether per second:
      rate / 100 * 1e18 / SECONDS_IN_A_YEAR, printed as a whole number. */
  function InterestPerSecond(annualPercent: real): (r: string)
    ensures FixedForm(r, 0)
    ensures annualPercent >= 0.0 ==> r[0] != '-'
  {
    var x := Shift(annualPercent / 100.0, 18);
    ShiftMonotone(0.0, annualPercent / 100.0, 18);
    DivNonNegative(x, SECONDS_IN_A_YEAR as real);
    ToFixed(Div(x, SECONDS_IN_A_YEAR as real), 0)
  }

  /** The whole number InterestPerSecond prints. */
  function RatePerSecond(annualPercent: real): real {
    Rounded(Div(Shift(annualPercent / 100.0, 18), SECONDS_IN_A_YEAR as real), 0)
  }

  /** Reading the printed rate back gives the whole number it denotes. */
  lemma InterestPerSecondValue(annualPercent: real)
    ensures ToNumber(InterestPerSecond(annualPercent)) == Finite(RatePerSecond(annualPercent))
    ensures RatePerSecond(annualPercent).Floor as real == RatePerSecond(annualPercent)
  {
    ToNumberToFixed(Div(Shift(annualPercent / 100.0, 18), SECONDS_IN_A_YEAR as real), 0);
    assert Shift(RatePerSecond(annualPercent), 0) == RatePerSecond(annualPercent);
  }

  /** A higher annual rate never gives a lower rate per second. */
  lemma RatePerSecondMonotone(p: real, q: real)
    requires p <= q
    ensures RatePerSecond(p) <= RatePerSecond(q)
  {
    var y := SECONDS_IN_A_YEAR as real;
    var xp, xq := Shift(p / 100.0, 18), Shift(q / 100.0, 18);
    ShiftMonotone(p / 100.0, q / 100.0, 18);
    DivMonotone(xp, xq, y);
    RoundedMonotone(xp / y, xq / y, 20);
    RoundedMonotone(Div(xp, y), Div(xq, y), 0);
  }

  /** An element of a contract call's argument list. */
  datatype ContractArg = Num(n: int) | Text(s: string)

  /** The (maximum variable interest, minimum interest) pair of per-second
      rates for a pool, or two zeros when the form's rates are invalid. */
  function FormateInterestChange(minimumInterest: real, maximumInterest: real, isInvalidInterests: bool)
    : (r: (ContractArg, ContractArg))
    ensures isInvalidInterests ==> r == (Num(0), Num(0))
    ensures !isInvalidInterests ==>
      && r.0.Text? && r.1.Text?
      && FixedForm(r.0.s, 0) && FixedForm(r.1.s, 0)
      && r.1.s == InterestPerSecond(minimumInterest)
  {
    if isInvalidInterests then (Num(0), Num(0))
    else
      var maxInt := ToNumber(InterestPerSecond(maximumInterest));
      var minInt := ToNumber(InterestPerSecond(minimumInterest));
      InterestDifference(minimumInterest, maximumInterest);
      (Text(NumberToFixed(Minus(maxInt, minInt), 0)), Text(InterestPerSecond(minimumInterest)))
  }

  /** For valid rates the pair reads back as the minimum rate per second and
      the distance from it to the maximum rate per second, both whole. */
  lemma InterestChangeValue(minimumInterest: real, maximumInterest: real)
    ensures var r := FormateInterestChange(minimumInterest, maximumInterest, false);
      && ToNumber(r.1.s) == Finite(RatePerSecond(minimumInterest))
      && ToNumber(r.0.s) == Finite(RatePerSecond(maximumInterest) - RatePerSecond(minimumInterest))
  {
    var d := Minus(ToNumber(InterestPerSecond(maximumInterest)), ToNumber(InterestPerSecond(minimumInterest)));
    InterestDifference(minimumInterest, maximumInterest);
    assert FormateInterestChange(minimumInterest, maximumInterest, false).0.s == ToFixed(d.value, 0);
  }

  lemma InterestDifference(minimumInterest: real, maximumInterest: real)
    ensures var d := Minus(ToNumber(InterestPerSecond(maximumInterest)), ToNumber(InterestPerSecond(minimumInterest)));
      && ToNumber(InterestPerSecond(minimumInterest)) == Finite(RatePerSecond(minimumInterest))
      && d == Finite(RatePerSecond(maximumInterest) - RatePerSecond(minimumInterest))
      && ToNumber(ToFixed(d.value, 0)) == d
  {
    var rmax, rmin := RatePerSecond(maximumInterest), RatePerSecond(minimumInterest);
    InterestPerSecondValue(maximumInterest);
    InterestPerSecondValue(minimumInterest);
    var d := rmax - rmin;
    assert d.Floor as real == d by {
      var a, b := rmax.Floor, rmin.Floor;
      assert d == (a - b) as real;
    }
    ToFixedInteger(d);
  }

  /** Equal minimum and maximum rates leave no variable part; a maximum at
      least the minimum never gives a negative one. */
  lemma InterestChangeVariablePart(minimumInterest: real, maximumInterest: real)
    ensures minimumInterest == maximumInterest ==>
      FormateInterestChange(minimumInterest, maximumInterest, false).0 == Text("0")
    ensures minimumInterest <= maximumInterest ==>
      FormateInterestChange(minimumInterest, maximumInterest, false).0.s[0] != '-'
  {
    InterestDifference(minimumInterest, maximumInterest);
    if minimumInterest <= maximumInterest {
      RatePerSecondMonotone(minimumInterest, maximumInterest);
    }
    ToFixedWhole(0);
  }

  // ---------------------------------------------------------------------
  // createPool arguments

  /** The create-pool form, in its own units. */
  datatype FormArgs = FormArgs(
    nftAddress: string,
    name: string,
    symbol: string,
    maxPrice: real,
    maxDailyBorrows: real,
    maxLengthInDays: real,
    maximumInterest: real,
    minimumInterest: real,
    ltv: real)

  /** The arguments of the pool factory's createPool. */
  datatype CreatePoolArgs = CreatePoolArgs(
    maxPrice: string,
    nftAddress: string,
    maxDailyBorrows: string,
    name: string,
    symbol: string,
    maxLength: string,
    maxVariableInterestPerEthPerSecond: string,
    minimumInterest: string,
    ltv: string)

  function FormatCreatePoolFormInputs(f: FormArgs): (r: CreatePoolArgs)
    // identifiers pass through unchanged
    ensures r.nftAddress == f.nftAddress && r.name == f.name && r.symbol == f.symbol
    // amounts agree with the stand-alone formatters
    ensures r.maxPrice == FormatMaxPrice(f.maxPrice)
    ensures r.maxDailyBorrows == FormatMaxDailyBorrows(f.maxDailyBorrows)
    ensures r.ltv == FormatLtv(f.ltv)
    // the interest pair is the one formateInterestChange gives for valid rates
    ensures FormateInterestChange(f.minimumInterest, f.maximumInterest, false)
            == (Text(r.maxVariableInterestPerEthPerSecond), Text(r.minimumInterest))
  {
    var maxInt := ToNumber(InterestPerSecond(f.maximumInterest));
    var minInt := ToNumber(InterestPerSecond(f.minimumInterest));
    CreatePoolArgs(
      ToFixed(Shift(f.maxPrice, 18), 0),
      f.nftAddress,
      ToFixed(Shift(f.maxDailyBorrows, 18), 0),
      f.name,
      f.symbol,
      ToFixed(InSeconds(f.maxLengthInDays), 0),
      NumberToFixed(Minus(maxInt, minInt), 0),
      InterestPerSecond(f.minimumInterest),
      ToFixed(Shift(f.ltv, 16), 0))
  }

  /** The loan length is the number of days in seconds, rounded, and agrees
      with the admin screen's: the same number of days, typed as text, gives
      the same argument. */
  lemma CreatePoolLoanLength(f: FormArgs, days: string)
    requires InNumberAlphabet(days)
    ensures var len := FormatCreatePoolFormInputs(f).maxLength;
      FixedForm(len, 0) && ToNumber(len) == Finite(Rounded(InSeconds(f.maxLengthInDays), 0))
    ensures ToNumber(days) == Finite(f.maxLengthInDays) ==>
      FormatCreatePoolFormInputs(f).maxLength == FormatMaxLoanLength(days)
  {
    var seconds := InSeconds(f.maxLengthInDays);
    assert FormatCreatePoolFormInputs(f).maxLength == ToFixed(seconds, 0);
    ToNumberToFixed(seconds, 0);
    if ToNumber(days) == Finite(f.maxLengthInDays) {
      assert FormatMaxLoanLength(days) == ToFixed(seconds, 0);
    }
  }

  // ---------------------------------------------------------------------
  // Guarded computations

  /** JavaScript falsiness of an optional number: null, undefined, NaN, 0. */
  predicate Falsy(x: Option<JsNumber>) {
    x.None? || x.value.NaN? || x.value.value == 0.0
  }

  /** The suggested maximum price per NFT in ether: halfway between the
      oracle price and the price divided by the loan-to-value ratio, with four
      decimals; "" while either input is missing. */
  function GetMaxPricePerNft(oraclePrice: Option<JsNumber>, ltv: Option<JsNumber>): (r: string)
    ensures r == "" <==> Falsy(oraclePrice) || Falsy(ltv)
    ensures !Falsy(oraclePrice) && !Falsy(ltv) ==> FixedForm(r, 4)
  {
    if Falsy(oraclePrice) || Falsy(ltv) then ""
    else ToFixed(SuggestedPrice(oraclePrice.value.value, ltv.value.value), 4)
  }

  /** (oraclePrice / 1e18) * (1 / (ltv / 100) + 1) / 2, in exact arithmetic. */
  function SuggestedPrice(oraclePrice: real, ltv: real): real
    requires ltv != 0.0
  {
    var ltvRatio := ltv / 100.0;
    ((oraclePrice / 1e18) * (1.0 / ltvRatio + 1.0)) / 2.0
  }

  /** For a positive price and loan-to-value the suggestion is the mean of
      the oracle price and the oracle price over the loan-to-value ratio, to
      four places. */
  lemma MaxPricePerNftValue(oraclePrice: real, ltv: real)
    requires oraclePrice > 0.0 && ltv > 0.0
    ensures var p := oraclePrice / 1e18;
      ToNumber(GetMaxPricePerNft(Some(Finite(oraclePrice)), Some(Finite(ltv))))
      == Finite(Rounded((p + p / (ltv / 100.0)) / 2.0, 4))
  {
    var r := GetMaxPricePerNft(Some(Finite(oraclePrice)), Some(Finite(ltv)));
    assert r == ToFixed(SuggestedPrice(oraclePrice, ltv), 4);
    MeanReadsBack(oraclePrice, ltv);
  }

  lemma MeanReadsBack(oraclePrice: real, ltv: real)
    requires oraclePrice > 0.0 && ltv > 0.0
    ensures var p := oraclePrice / 1e18;
      ToNumber(ToFixed(SuggestedPrice(oraclePrice, ltv), 4)) == Finite(Rounded((p + p / (ltv / 100.0)) / 2.0, 4))
  {
    var p, ratio := oraclePrice / 1e18, ltv / 100.0;
    var e := (p * (1.0 / ratio + 1.0)) / 2.0;
    assert e > 0.0 by { MulPositive(p, 1.0 / ratio + 1.0); }
    MeanIdentity(p, ratio);
    ReadsBackAs(SuggestedPrice(oraclePrice, ltv), (p + p / ratio) / 2.0, 4);
  }

  lemma ReadsBackAs(e: real, e': real, dp: nat)
    requires e == e'
    ensures ToNumber(ToFixed(e, dp)) == Finite(Rounded(e', dp))
  {
    ToNumberToFixed(e, dp);
  }

  lemma MeanIdentity(p: real, ratio: real)
    requires ratio != 0.0
    ensures (p * (1.0 / ratio + 1.0)) / 2.0 == (p + p / ratio) / 2.0
  {
  }

  lemma MulNonZero(a: real, b: real)
    requires a != 0.0 && b != 0.0
    ensures a * b != 0.0
  {
  }

  lemma MulPositive(a: real, b: real)
    requires a > 0.0 && b > 0.0
    ensures a * b > 0.0
  {
  }

  /** maxInstantBorrow / (oraclePrice * (ltv / 1e18)) printed as a whole
      number and read back. */
  function BorrowCount(maxInstantBorrow: real, oraclePrice: real, ltv: real): (r: JsNumber)
    requires oraclePrice * (ltv / 1e18) != 0.0
    ensures r == Finite(Rounded(maxInstantBorrow / (oraclePrice * (ltv / 1e18)), 0))
  {
    var q := maxInstantBorrow / (oraclePrice * (ltv / 1e18));
    ToNumberToFixed(q, 0);
    ToNumber(ToFixed(q, 0))
  }

  /** How many NFTs the pool's instant-borrow capacity covers at the oracle
      price and loan-to-value ratio, rounded; 0 while an input is missing. */
  function GetMaxNftsToBorrow(maxInstantBorrow: Option<JsNumber>, oraclePrice: Option<JsNumber>, ltv: Option<JsNumber>)
    : (r: JsNumber)
    ensures Falsy(maxInstantBorrow) || Falsy(oraclePrice) || Falsy(ltv) ==> r == Finite(0.0)
    ensures !Falsy(maxInstantBorrow) && !Falsy(oraclePrice) && !Falsy(ltv) ==>
      oraclePrice.value.value * (ltv.value.value / 1e18) != 0.0
      && r == Finite(Rounded(maxInstantBorrow.value.value / (oraclePrice.value.value * (ltv.value.value / 1e18)), 0))
  {
    if Falsy(maxInstantBorrow) || Falsy(oraclePrice) || Falsy(ltv) then Finite(0.0)
    else
      MulNonZero(oraclePrice.value.value, ltv.value.value / 1e18);
      BorrowCount(maxInstantBorrow.value.value, oraclePrice.value.value, ltv.value.value)
  }

  /** For positive inputs the count is a whole number, never negative. */
  lemma MaxNftsToBorrowWhole(maxInstantBorrow: real, oraclePrice: real, ltv: real)
    requires maxInstantBorrow > 0.0 && oraclePrice > 0.0 && ltv > 0.0
    ensures var r := GetMaxNftsToBorrow(Some(Finite(maxInstantBorrow)), Some(Finite(oraclePrice)), Some(Finite(ltv)));
      r.Finite? && r.value >= 0.0 && r.value.Floor as real == r.value
  {
    var price := oraclePrice * (ltv / 1e18);
    MulPositive(oraclePrice, ltv / 1e18);
    DivNonNegative(maxInstantBorrow, price);
    var v := Rounded(maxInstantBorrow / price, 0);
    assert Shift(v, 0) == v;
  }

  /** What a loan's deadline displays: "Expired", or the time remaining
      (rendered as relative-time text from that distance). */
  datatype DeadlineDisplay = Expired | TimeLeft(milliseconds: int)

  /** The clock reading is a parameter. */
  function FormatLoanDeadline(deadline: int, now: int): (r: DeadlineDisplay)
    ensures r == Expired <==> deadline <= now
    ensures r.TimeLeft? ==> r.milliseconds > 0 && now + r.milliseconds == deadline
  {
    if deadline - now <= 0 then Expired else TimeLeft(deadline - now)
  }

  /** 5% of an amount. */
  function FivePercent(amount: real): real {
    amount * 0.05
  }

  /** BigNumber addition (exact). */
  function Plus(a: real, b: real): real {
    a + b
  }

  /** The amount to repay with a 5% buffer: totalToRepay plus 5% of it
      (rounded to a whole number), rounded to a whole number. */
  function GetLoansPayableAmount(totalToRepay: real): (r: string)
    ensures FixedForm(r, 0)
  {
    var buffer := ToFixed(FivePercent(totalToRepay), 0);
    ToNumberToFixed(FivePercent(totalToRepay), 0);
    ToFixed(Plus(totalToRepay, ToNumber(buffer).value), 0)
  }

  /** For a whole amount the result reads back as exactly the amount plus
      its 5% buffer rounded half up. */
  lemma LoansPayableAmountValue(totalToRepay: nat)
    ensures var t := totalToRepay as real;
      ToNumber(GetLoansPayableAmount(t)) == Finite(Plus(t, Rounded(FivePercent(t), 0)))
  {
    var t := totalToRepay as real;
    WholeSum(totalToRepay, FivePercent(t));
    LoansPayableAmountSum(t);
    ToFixedInteger(Plus(t, Rounded(FivePercent(t), 0)));
  }

  /** The buffer is added as the value its text carries: 5% rounded to a
      whole number. */
  lemma LoansPayableAmountSum(totalToRepay: real)
    ensures GetLoansPayableAmount(totalToRepay) == ToFixed(Plus(totalToRepay, Rounded(FivePercent(totalToRepay), 0)), 0)
  {
    ToNumberToFixed(FivePercent(totalToRepay), 0);
  }

  /** A whole amount plus a value rounded to a whole number is whole. */
  lemma WholeSum(n: nat, x: real)
    ensures var y := Plus(n as real, Rounded(x, 0));
      y.Floor as real == y
  {
    var b := Rounded(x, 0);
    assert Shift(b, 0) == b;
    var k := b.Floor;
    assert b == k as real;
    var m: int := n + k;
    assert Plus(n as real, b) == m as real;
    assert (m as real).Floor == m;
  }

  /** The repay amount is never less than the amount owed and at most half a
      unit over 105% of it. */
  lemma LoansPayableAmountBounds(totalToRepay: nat)
    ensures var t := totalToRepay as real;
      var r := ToNumber(GetLoansPayableAmount(t)).value;
      t <= r <= t + FivePercent(t) + 0.5
  {
    var t := totalToRepay as real;
    var b := Rounded(FivePercent(t), 0);
    LoansPayableAmountValue(totalToRepay);
    assert Shift(b, 0) == b && Shift(FivePercent(t), 0) == FivePercent(t);
  }

  lemma LoansPayableThousand()
    ensures GetLoansPayableAmount(1000.0) == "1050"
  {
    assert Rounded(50.0, 0) == 50.0 by {
      assert Shift(50.0, 0) == 50.0;
      RoundedExact(50.0, 0);
    }
    ToNumberToFixed(1000.0 * 0.05, 0);
    ToFixedWhole(1050);
    Digits1050();
  }

  lemma Digits1050()
    ensures DigitsOf(1050) == "1050"
  {
    assert DigitsOf(10) == "10";
    assert DigitsOf(105) == "105";
  }

  /** The gas limit override: 0.0005 * 1e9. */
  function GasLimitOverride(): (r: string)
    ensures r == "500000"
  {
    GasLimitDigits();
    ToFixed(0.0005 * 1000000000.0, 0)
  }

  lemma GasLimitDigits()
    ensures ToFixed(0.0005 * 1000000000.0, 0) == "500000"
  {
    ToFixedWhole(500000);
    Digits500000();
    assert 0.0005 * 1000000000.0 == 500000.0;
  }

  lemma Digits500000()
    ensures DigitsOf(500000) == "500000"
  {
    assert Pow10(5) == 100000;
    DigitsOfShift(5, 5);
    assert Zeros(5) == "00000";
  }
}
