# nftfi front-end conversion layer, in Dafny

This project models the fixed-point conversion layer of the nftfi lending front-end. These are the pure functions that turn the values a user types into the integer strings a contract call expects, and turn contract values back into display text:

- ether amounts become wei (×10^18);
- loan-to-value percentages become 1e16-scaled integers;
- days become seconds;
- annual interest percentages become a per-second rate in wei per ether;
- a repay amount gets a 5% buffer;
- the create-pool form becomes one argument record.

It also models the admin screen that sets a pool's maximum loan length: the validation of the typed number of days, the choice of contract argument, and the condition under which the call is prepared.

Modules:

- `Digits`: decimal digit strings, their values and their canonical form.
- `Rounding`: scaling by powers of ten, rounding half away from zero (bignumber.js `ROUND_HALF_UP`), and `div`, which rounds its quotient to 20 places.
- `Fixed`: the text that `toFixed(dp)` prints, JavaScript `Number(string)` on decimal text, and the round trip between them (`ToNumberToFixed`: reading back a printed value gives that value rounded to dp places).
- `Utils`: the functions of `utils/index.ts`.
- `SetMaxLoanLength`: lines 35-36 and 42-43 of `queries/admin/useSetMaxLoanLength.tsx`.

JavaScript numbers and bignumber.js values are both held as exact reals. Every rounding step the source performs is written out: each `div` and each `toFixed`. `getQuotePrice` therefore rounds three times, and the per-second rate rounds twice. `SECONDS_IN_A_DAY` is 86400 and `SECONDS_IN_A_YEAR` is 31536000. `lib/constants` is not part of this model, so these values are written out.

## Model

| member | source | states |
|---|---|---|
| Fixed.ToFixed | utils/index.ts:61-69 | toFixed(dp) prints an optional '-', canonical whole digits, and exactly dp decimals after a point; the '-' appears exactly when the value is negative |
| Fixed.ToNumberToFixed | utils/index.ts:56 | Number() of a toFixed(dp) text is the value rounded half away from zero to dp places, so the `Number(...toFixed(0))` round trip keeps the rounded rate |
| Fixed.ToFixedInteger | utils/index.ts:122 | a value printed with toFixed(0) reads back as a whole number within half a unit of it, and unchanged when it was already whole |
| Fixed.ToNumberDigits | utils/index.ts:77 | Number() of a non-empty digit string is the number the digits denote |
| Fixed.ToNumberRejects | utils/index.ts:77 | Number() gives NaN for any text containing ',' and for a lone "." |
| Utils.GetQuotePrice | utils/index.ts:10-12 | the quote price always has the toFixed(4) shape: exactly four decimals |
| Utils.QuotePriceValue | utils/index.ts:11 | the quote price reads back within 0.00005 (plus the divisions' 20-place error) of oraclePrice·ltv/10^36 |
| Utils.FormatCurrentAnnualInterest | utils/index.ts:15-17 | the interest display has exactly two decimals and no '-' for a non-negative rate |
| Utils.CurrentAnnualInterestValue | utils/index.ts:16 | the displayed percentage is within 0.005 of rate/10^16, and exact when that is a whole number of hundredths |
| Utils.GetTotalReceivedArg | utils/index.ts:20-30 | the total-received argument has no fractional digits |
| Utils.TotalReceivedArgValue | utils/index.ts:29 | it reads back as a whole number within half a unit (plus the division's error) of oraclePrice·noOfItems·ltv/10^18 |
| Utils.FormatLtv | utils/index.ts:73 | the LTV argument is ltv·10^16 rounded half up to a whole number, and exactly ltv·10^16 when ltv has at most 16 decimals |
| Utils.FormatLtvWholePercent | utils/index.ts:73 | a whole percentage n prints as n followed by sixteen zeros, and 0 as "0" |
| Utils.FormatMaxPrice | utils/index.ts:74 | the price argument is the amount in wei rounded half up, and exact for at most 18 decimals |
| Utils.FormatAmountToDepositOrWithdraw | utils/index.ts:75 | the deposit/withdraw argument is the amount in wei rounded half up, and exact for at most 18 decimals |
| Utils.FormatMaxDailyBorrows | utils/index.ts:76 | the daily-borrow argument is the amount in wei rounded half up, and exact for at most 18 decimals |
| Utils.FormatWholeEther | utils/index.ts:74-76 | a whole number of ether prints as that number followed by eighteen zeros in all three ether formatters |
| Utils.FormatMaxLoanLength | utils/index.ts:77 | days that Number() cannot read give "NaN"; days it can read give a whole-number toFixed(0) text |
| Utils.FormatMaxLoanLengthValue | utils/index.ts:77 | readable days come back as days·86400 seconds rounded to a whole second |
| Utils.FormatMaxLoanLengthWholeDays | utils/index.ts:77 | days typed as digits give the canonical digits of days·86400 (empty text counts as zero days) |
| Utils.FormatMaxLoanLengthZero | utils/index.ts:77 | "0" days gives "0" |
| Utils.InterestPerSecond | utils/index.ts:93 | the per-second rate is a whole-number text, with no '-' for a non-negative annual rate |
| Utils.InterestPerSecondValue | utils/index.ts:87-89 | the per-second rate reads back as the whole number round(round20(p/100·10^18/31536000)) |
| Utils.RatePerSecondMonotone | utils/index.ts:87-89 | a higher annual rate never gives a lower per-second rate |
| Utils.FormateInterestChange | utils/index.ts:78-95 | invalid rates give [0, 0] whatever the rates are; otherwise two whole-number texts, the second being the minimum's per-second rate |
| Utils.InterestChangeValue | utils/index.ts:87-94 | for valid rates the pair reads back as (rate(max) − rate(min), rate(min)) |
| Utils.InterestChangeVariablePart | utils/index.ts:92 | equal rates give a variable part of "0", and max ≥ min never gives a negative one |
| Utils.FormatCreatePoolFormInputs | utils/index.ts:45-71 | address, name and symbol pass through unchanged; maxPrice, maxDailyBorrows and ltv equal the stand-alone formatters' results; the interest pair is formateInterestChange's for valid rates |
| Utils.CreatePoolLoanLength | utils/index.ts:66 | maxLength is the days in seconds rounded to a whole second, and equals formatMaxLoanLength of any text that Number() reads as the same days |
| Utils.GetMaxPricePerNft | utils/index.ts:98-106 | "" exactly when either input is null, undefined, NaN or 0; otherwise a four-decimal text |
| Utils.MaxPricePerNftValue | utils/index.ts:103-105 | for positive inputs the suggestion is the mean of p and p/(ltv/100), with p = oraclePrice/10^18, rounded to four places |
| Utils.GetMaxNftsToBorrow | utils/index.ts:109-123 | 0 when any input is falsy; otherwise maxInstantBorrow/(oraclePrice·ltv/10^18) rounded half up, with a non-zero divisor |
| Utils.MaxNftsToBorrowWhole | utils/index.ts:122 | for positive inputs the count is a non-negative whole number |
| Utils.FormatLoanDeadline | utils/index.ts:125-130 | "Expired" exactly when deadline ≤ now; otherwise the positive time left, which added to now gives the deadline |
| Utils.GetLoansPayableAmount | utils/index.ts:132-137 | the repay amount has no fractional digits |
| Utils.LoansPayableAmountSum | utils/index.ts:134-136 | the buffer is added as the value its text carries: totalToRepay + round(5%) |
| Utils.LoansPayableAmountValue | utils/index.ts:132-137 | for a whole amount t the result reads back as exactly t + round(0.05·t) |
| Utils.LoansPayableAmountBounds | utils/index.ts:132-137 | for a whole amount t the result is between t and 1.05·t + 0.5 |
| Utils.LoansPayableThousand | utils/index.ts:132-137 | 1000 gives "1050" |
| Utils.GasLimitOverride | utils/index.ts:139 | the gas limit override is "500000" |
| SetMaxLoanLength.MatchesIffOneSeparator | queries/admin/useSetMaxLoanLength.tsx:36 | the pattern ^[0-9]*[.,]?[0-9]*$ accepts exactly the strings made of digits, '.' and ',' with at most one separator |
| SetMaxLoanLength.MissingOrEmptyInvalid | queries/admin/useSetMaxLoanLength.tsx:35-36 | a missing or empty input is invalid |
| SetMaxLoanLength.DigitsValid | queries/admin/useSetMaxLoanLength.tsx:36 | a non-empty digit string is valid |
| SetMaxLoanLength.TwoSeparatorsInvalid | queries/admin/useSetMaxLoanLength.tsx:36 | two separators anywhere make the input invalid |
| SetMaxLoanLength.ForeignCharacterInvalid | queries/admin/useSetMaxLoanLength.tsx:36 | a character that is not a digit, '.' or ',' makes the input invalid |
| SetMaxLoanLength.ValidInNumberAlphabet | queries/admin/useSetMaxLoanLength.tsx:35-36 | every valid input is text that Number() is defined on here |
| SetMaxLoanLength.ValidButNaN | queries/admin/useSetMaxLoanLength.tsx:36 | a valid input reads as NaN exactly when it contains ',' or is a lone "." |
| SetMaxLoanLength.MaxLoanLengthArg | queries/admin/useSetMaxLoanLength.tsx:42 | an invalid input gives the argument "0"; a valid one gives formatMaxLoanLength of the input |
| SetMaxLoanLength.ValidArg | queries/admin/useSetMaxLoanLength.tsx:42 | a valid input gives "NaN" exactly when it has ',' or is "."; otherwise a whole-number text that reads back as the days in seconds, rounded |
| SetMaxLoanLength.WholeDaysArg | queries/admin/useSetMaxLoanLength.tsx:42 | valid digits n give the canonical digits of n·86400 |
| SetMaxLoanLength.EnabledImpliesValid | queries/admin/useSetMaxLoanLength.tsx:43 | an enabled call always carries a valid, non-empty input |
| SetMaxLoanLength.EnabledIgnoresCase | queries/admin/useSetMaxLoanLength.tsx:43 | the account comparison ignores letter case in both directions |
| SetMaxLoanLength.EnabledWithoutAccount | queries/admin/useSetMaxLoanLength.tsx:43 | with no connected account the call is enabled only when the user address is also missing |

## Left out

- JavaScript floating point: `/ 100`, `/ 1e16`, `Number(days) * SECONDS_IN_A_DAY`, and the formulas of getMaxPricePerNft and getMaxNftsToBorrow are computed on exact reals. Binary rounding and precision loss above 2^53 are not modelled.
- `Number.prototype.toFixed` switches to exponent notation at 1e21 and above. The model prints every value in plain digits, as bignumber.js does.
- The BigNumber constructor's parsing of strings and numbers: the formatters take the value the input denotes. For example, formatLtv's string argument is taken as a real.
- `Number(string)` is modelled only on text over "0123456789.,+-": whitespace trimming, exponents, "Infinity" and hexadecimal literals are not modelled. That covers every string the validator accepts and every string toFixed prints.
- Utils.FormatLoanDeadline: `Date.now()` becomes a parameter. The text that dayjs `toNow(true)` renders is kept abstract as the remaining milliseconds. The module-level `dayjs.extend` is not modelled.
- Utils.MaxPricePerNftValue: the read-back value is stated only for positive price and loan-to-value. Negative inputs are covered only by GetMaxPricePerNft's shape guarantee.
- Utils.LoansPayableAmountValue: the exact read-back is stated only for whole non-negative amounts. GetLoansPayableAmount gives only the output shape for other inputs.
- `toLowerCase` is modelled on ASCII letters only.
- The rest of `queries/admin/useSetMaxLoanLength.tsx`, all of it I/O or UI side effects: the `chainConfig` lookup, `usePrepareContractWrite`, `useContractWrite`, `useWaitForTransaction`, the transaction ref and context writes, toasts and query-cache invalidation.
- `queries/useContractApproval.tsx` is wallet and network plumbing. `tailwind.config.js` is styling. Neither is part of this model.
