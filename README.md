# stonks: a verified model of the dashboard's logic

"stonks" is a small Next.js dashboard. It has stock and ETF overview pages, each with a searchable table, a compound-interest calculator, and a navigation sidebar. This project models the parts of it that compute something:

- **`Calculator`** (`calculator.dfy`) is the calculator's yearly projection.
  - The loop (`Project`) is imperative. It adds the monthly contribution every month when it is positive and applies the annual rate every twelfth month. At each year end it records a rounded snapshot.
  - The loop is proved equal to a recursive specification, `Breakdown`.
  - Lemmas establish the rest: the entry count and year offsets; the closed form of the principal and its monotonicity; the per-year balance recurrence; non-negative interest and the profit-ratio rule; zero-rate behaviour; the totals; the calendar-year shift. `Math.round` is `Round`, i.e. floor of `x + 1/2`, on exact reals. The years clamp is `ClampYears`.
- **`AmountFormat`** (`amount_format.dfy`) covers the two amount fields.
  - Typed text is reduced to its digits and parsed, with 0 for no digits.
  - The stored amount is displayed with apostrophes between groups of three digits.
  - The round trip is proved: reading a displayed amount back gives the amount.
- **`OverviewTable`** (`overview_table.dfy`) is the overview table's search and its cell renderers.
  - The search: a blank term keeps all rows. Otherwise a row is kept when some searchable column value contains the lower-cased term, with per-type rules for strings, arrays, objects and other primitives.
  - The renderers: the `tags` and `links` input filters, `Renderers.text` and the default cell classification.
- **`Sidebar`** (`sidebar.dfy`) is the route table and its `isActive` rule.
- **`Seqs`** (`seqs.dfy`) is order-preserving filtering. It is shared by the digit sanitiser, the row filter and the renderers.

Where the code and its description differ, the model follows the code:

- The year-0 entry of the breakdown carries the deposit unrounded. So the recorded principal can drop from entry 0 to entry 1 when the deposit has a fraction (`FractionalDepositDips`). Monotonicity from entry 0 holds for whole-number deposits, which are the only ones the deposit field produces.
- The balance is not always at least the principal. The code only clamps the recorded interest at 0. A balance at least as large as the principal is proved for a non-negative deposit and rate (`NoLossAtNonNegativeRate`). A negative rate does lose money (`NegativeRateLoses`).

## Model

| member | source | states |
|---|---|---|
| Calculator.Round | app/calculator/page.tsx:69-70 | `Math.round` gives the integer within half a unit of its argument, with halves going up |
| Calculator.RoundMonotone | app/calculator/page.tsx:69-70 | rounding never reverses the order of two amounts |
| Calculator.RoundWhole | app/calculator/page.tsx:82-84 | rounding a whole number leaves it unchanged |
| Calculator.ClampYears | app/calculator/page.tsx:122 | the years input is at least 1; an input of 1 or more is kept, anything lower becomes 1 |
| Calculator.Contribution | app/calculator/page.tsx:59 | the amount added each month is never negative (a non-positive contribution adds nothing) |
| Calculator.PrincipalAfter | app/calculator/page.tsx:53-59 | the running principal after any number of months is never below the deposit; its closed form is `PrincipalClosedForm` |
| Calculator.BalanceAfter | app/calculator/page.tsx:52-64 | the running balance after n months at full precision; its properties are `WithinYear`, `YearRecurrence`, `ZeroRateBalanceIsPrincipal` and `NoLossAtFullPrecision` |
| Calculator.AnnualBalance | app/calculator/page.tsx:52-63 | the independent per-year recurrence the simulation is compared with in `YearRecurrence` |
| Calculator.StartPoint | app/calculator/page.tsx:54 | the opening entry; what it holds is stated by `OpeningRow` |
| Calculator.ProfitRatio | app/calculator/page.tsx:72 | the ratio is never negative for non-negative interest, multiplied by a positive principal it gives back the interest, and it is 0 when the principal is not positive |
| Calculator.Snapshot | app/calculator/page.tsx:67-73 | a year-end entry holds whole numbers within half a unit of the running balance and principal, and an interest that is the excess of balance over principal when the balance is not below the principal and 0 otherwise |
| Calculator.Breakdown | app/calculator/page.tsx:54-75 | a projection over `years` years has exactly `years + 1` entries |
| Calculator.Project | app/calculator/page.tsx:45-87 | the month loop produces exactly the recursive breakdown (for years ≤ 0 only the opening entry), and the totals are the rounded balance, principal and interest of its last entry |
| Calculator.BreakdownAt | app/calculator/page.tsx:54-73 | entry k has year offset k; entry 0 is the opening point, and entry k ≥ 1 is the snapshot of the running totals after 12·k months |
| Calculator.OpeningRow | app/calculator/page.tsx:54 | entry 0 is (year 0, principal P, balance P, interest 0, ratio 0) with P unrounded |
| Calculator.PrincipalClosedForm | app/calculator/page.tsx:53-59 | after n months the running principal is P + n·max(M, 0) |
| Calculator.PrincipalBySign | app/calculator/page.tsx:59 | after n months the running principal is P + n·M when M > 0 and stays P otherwise |
| Calculator.RecordedPrincipal | app/calculator/page.tsx:59-70 | the principal recorded at year k is round(P + 12·k·M) when M > 0 and round(P) otherwise |
| Calculator.PrincipalGrows | app/calculator/page.tsx:59 | the running principal never decreases from month to month |
| Calculator.PrincipalNonDecreasing | app/calculator/page.tsx:54-73 | recorded principals do not decrease along the breakdown, from entry 0 when the deposit is whole |
| Calculator.FractionalDepositDips | app/calculator/page.tsx:54-70 | with a deposit of 0.4 the principal falls from 0.4 at entry 0 to 0 at entry 1 |
| Calculator.RowMetrics | app/calculator/page.tsx:71-72 | every entry's interest is max(0, balance − principal) ≥ 0, and its ratio is interest / principal when principal > 0 and 0 otherwise |
| Calculator.ZeroRateBalanceIsPrincipal | app/calculator/page.tsx:59-63 | at rate 0 the running balance equals the running principal in every month |
| Calculator.ZeroRateEarnsNothing | app/calculator/page.tsx:63-71 | at rate 0 every entry's balance equals its principal and its interest and ratio are 0 |
| Calculator.WithinYear | app/calculator/page.tsx:57-64 | between year ends the balance only accumulates contributions: after j < 12 further months it has grown by j·max(M, 0) |
| Calculator.YearRecurrence | app/calculator/page.tsx:52-63 | the running balance at year k satisfies B_k = (B_{k−1} + 12·max(M, 0))·(1 + rate/100) with B_0 = P |
| Calculator.RecordedBalance | app/calculator/page.tsx:63-69 | the balance recorded at year k is the rounded B_k of that recurrence; rounded values never feed back |
| Calculator.NoLossAtFullPrecision | app/calculator/page.tsx:59-63 | for a non-negative deposit and rate the running balance is at least the running principal, which is non-negative |
| Calculator.NoLossAtNonNegativeRate | app/calculator/page.tsx:63-71 | for a non-negative deposit and rate every recorded balance is at least its recorded principal |
| Calculator.NegativeRateLoses | app/calculator/page.tsx:63-71 | 1000 at −10% for one year records a balance of 900 under a principal of 1000, with the interest clamped to 0 |
| Calculator.TotalsAreLastRow | app/calculator/page.tsx:76-84 | for years ≥ 1 the last entry's balance, principal and interest are whole numbers, so the rounded totals equal them exactly |
| Calculator.SingleYearExample | app/calculator/page.tsx:57-73 | 1000 at 10% for one year records principal 1000, balance 1100, interest 100, ratio 0.1 |
| Calculator.OpeningInputsFirstYear | app/calculator/page.tsx:57-73 | with the opening inputs (5000 deposit, 7%, 200 a month) year 1 records principal 7400, balance 7918, interest 518 |
| Calculator.WithCalendarYears | app/calculator/page.tsx:77-78 | the year shift keeps the number of entries |
| Calculator.CalendarYears | app/calculator/page.tsx:77-78 | after the shift entry i is the breakdown's entry i with only its year replaced by currentYear + i, so only entry 0 carries the current year |
| AmountFormat.StripNonDigits | app/calculator/page.tsx:92 | the stripped text consists of digits only |
| AmountFormat.StripKeepsExactlyDigits | app/calculator/page.tsx:92 | stripping keeps each digit as often as it occurs, in order, and drops every other character |
| AmountFormat.SanitizeIgnoresNonDigit | app/calculator/page.tsx:92-93 | inserting a non-digit anywhere in the field text does not change the amount |
| AmountFormat.SanitizeDigits | app/calculator/page.tsx:93 | text made of digits is read as its decimal value, the empty text as 0 |
| AmountFormat.SanitizeNoDigits | app/calculator/page.tsx:92-93 | text without any digit is read as 0 |
| AmountFormat.ParseDigits | app/calculator/page.tsx:93 | `parseInt` of k decimal digits gives a value below 10^k |
| AmountFormat.ParseZeroIff | app/calculator/page.tsx:93 | a string of digits reads as 0 exactly when every digit is `0` |
| AmountFormat.Sanitize | app/calculator/page.tsx:92-93 | the amount is below 10^k for k digits in the field, and it is 0 exactly when the field holds no digit other than `0` |
| AmountFormat.Decimal | app/calculator/page.tsx:18 | the notation of an amount is a non-empty string of digits with no leading zero |
| AmountFormat.DecimalShort | app/calculator/page.tsx:18 | an amount below 1000 has at most three digits |
| AmountFormat.DecimalSplit | app/calculator/page.tsx:18-19 | the digits of an amount of 1000 or more are those of its thousands followed by its last three digits |
| AmountFormat.FormatWithApostrophe | app/calculator/page.tsx:14-20 | the display of an amount is non-empty and made only of digits and apostrophes (where the apostrophes stand is `GroupedInThrees`) |
| AmountFormat.FormatDigitsAreDecimal | app/calculator/page.tsx:14-20 | the digits of the display, in order, are exactly the decimal notation of the amount |
| AmountFormat.GroupedInThrees | app/calculator/page.tsx:18-19 | the display starts with a digit, and a character is an apostrophe exactly when it stands a multiple of four places from the end: every apostrophe is followed by three digits and the first group has one to three |
| AmountFormat.StripFormatted | app/calculator/page.tsx:14-20 | the digits of a displayed amount are non-empty and read back as the amount |
| AmountFormat.SanitizeFormatted | app/calculator/page.tsx:14-20 | round trip: the sanitiser applied to the display of n gives n |
| AmountFormat.HandleAmountChange | app/calculator/page.tsx:90-103 | a change stores the sanitised amount and shows it grouped with apostrophes (`FormatWithApostrophe`), a display that reads back as that amount |
| AmountFormat.HandleAmountChangeIdempotent | app/calculator/page.tsx:90-103 | feeding a field's display back into its handler changes neither amount nor display |
| AmountFormat.FormatExamples | app/calculator/page.tsx:14-20 | 5000 is shown as 5'000, 200 as 200 and 1234567 as 1'234'567 |
| Seqs.Filter | components/overview-table.tsx:117 | filtering never lengthens a sequence and keeps only elements that pass |
| Seqs.FilterAppend | components/overview-table.tsx:32 | filtering a concatenation is the concatenation of the filtered parts |
| Seqs.FilterKeepsAll | components/overview-table.tsx:118 | when every element passes, the sequence is unchanged |
| Seqs.FilterDropsAll | app/calculator/page.tsx:92 | when no element passes, the result is empty |
| Seqs.FilterEmptyIff | components/overview-table.tsx:33 | the result is empty exactly when no element passes |
| Seqs.FilterIsSubsequence | components/overview-table.tsx:117 | the result is a subsequence of the input, so its order is kept |
| Seqs.FilterCounts | components/overview-table.tsx:117 | each passing element survives exactly as often as it occurs, and no other element survives |
| Seqs.FilterNarrows | components/overview-table.tsx:117 | filtering by a stronger test after a weaker one equals filtering by the stronger test alone |
| Seqs.FilterSingleton | components/overview-table.tsx:32 | a one-element sequence keeps its element exactly when it passes |
| OverviewTable.Lower | components/overview-table.tsx:118 | `toLowerCase` keeps the length, leaves no upper-case letter, moves each letter A-Z to its lower-case form and leaves every other character unchanged |
| OverviewTable.TrimStartEmptyIff | components/overview-table.tsx:118 | trimming the front leaves nothing iff the text is all white space, and otherwise starts at a non-space |
| OverviewTable.TrimEndKeepsNonBlankStart | components/overview-table.tsx:118 | trimming the end of a text that starts with a non-space leaves something |
| OverviewTable.TrimStartShape | components/overview-table.tsx:118 | trimming the front removes a run of white space and keeps the rest |
| OverviewTable.TrimEndShape | components/overview-table.tsx:118 | trimming the end removes a run of white space and keeps the rest, which does not end in white space |
| OverviewTable.Trim | components/overview-table.tsx:118 | `trim()`; what it leaves is stated by `TrimShape`, and `IsBlank` by `BlankIffAllWhitespace` |
| OverviewTable.TrimShape | components/overview-table.tsx:118 | the trimmed text is a piece of the text with only white space before and after it, and neither starts nor ends with white space |
| OverviewTable.BlankIffAllWhitespace | components/overview-table.tsx:118 | `trim()` gives '' exactly when every character is white space |
| OverviewTable.LowerIdempotent | components/overview-table.tsx:122 | lower-casing twice is lower-casing once |
| OverviewTable.LowerKeepsBlankness | components/overview-table.tsx:118 | a term is blank exactly when its lower-cased form is |
| OverviewTable.IncludesTransitive | components/overview-table.tsx:122 | `includes` is transitive |
| OverviewTable.IncludedInWhitespace | components/overview-table.tsx:118-122 | text found inside white space is white space |
| OverviewTable.IncludesFirstChar | components/overview-table.tsx:122 | text found inside another starts with one of its characters |
| OverviewTable.Includes | components/overview-table.tsx:122 | a text that `includes` another is at least as long, and every text includes its own prefixes |
| OverviewTable.ToJsString | components/overview-table.tsx:123-125 | `String(value)`; an array is its entries joined by "," (`ToJsStringSnoc`), and concrete values are in `ToJsStringExamples` |
| OverviewTable.ToJsStringExamples | components/overview-table.tsx:123-125 | String([1, null, "a"]) is "1,,a", String([[1, 2], 3]) is "1,2,3", String([]) is "", and true, undefined and {} give "true", "undefined" and "[object Object]" |
| OverviewTable.ValueMatches | components/overview-table.tsx:120-125 | an undefined or null value never matches. The string, number, boolean and object rules are the predicate's own definition; `ScalarArrayMatchesByEntry` restates the array rule entry by entry, and `ValueMatchNarrows` proves that a match survives a shorter term |
| OverviewTable.RowMatches | components/overview-table.tsx:117-126 | a blank term keeps the row; under a non-blank term a kept row has a searchable column whose value is neither undefined nor null |
| OverviewTable.FilterRows | components/overview-table.tsx:117-127 | every row the search keeps matches the term |
| OverviewTable.BlankTermKeepsAllRows | components/overview-table.tsx:118 | an empty or white-space-only term keeps every row |
| OverviewTable.FilteredRowsExactly | components/overview-table.tsx:117-127 | the kept rows are a subsequence of the data; a matching row is kept as often as it occurs, any other row never |
| OverviewTable.SearchIgnoresTermCase | components/overview-table.tsx:118-125 | a term and its lower-cased form keep the same rows |
| OverviewTable.NonSearchableColumnIgnored | components/overview-table.tsx:120 | changing the value under a key that is only used by non-searchable columns changes no search result |
| OverviewTable.NullishCellsNeverMatch | components/overview-table.tsx:120-121 | for a non-blank term, a row whose searchable cells are all missing, undefined or null is dropped |
| OverviewTable.ValueMatchNarrows | components/overview-table.tsx:122-125 | a value that matches a term also matches every part of that term |
| OverviewTable.LongerTermKeepsFewerRows | components/overview-table.tsx:117-127 | a term whose lower-cased form contains the lower-cased form of another keeps a subsequence of the rows the other keeps |
| OverviewTable.NonBlankTermNarrows | components/overview-table.tsx:117-127 | the same narrowing when the shorter term is not blank |
| OverviewTable.ScalarArrayMatchesByEntry | components/overview-table.tsx:123 | an array of primitives matches iff one of its entries would match on its own |
| OverviewTable.UpperCaseTermMatches | components/overview-table.tsx:118-122 | the term "APP" keeps a row named "Apple" |
| OverviewTable.LeadingSpaceTermMisses | components/overview-table.tsx:118-122 | the term " app" is not trimmed and drops the row named "Apple" |
| OverviewTable.KeptTags | components/overview-table.tsx:32 | every kept tag has a non-empty trim |
| OverviewTable.KeptTagsAppend | components/overview-table.tsx:32 | the tags of a concatenation are the tags of the parts, in order |
| OverviewTable.KeptTagsSingleton | components/overview-table.tsx:32 | a single entry is kept exactly when it is a string with a non-empty trim |
| OverviewTable.TagsPlaceholderIff | components/overview-table.tsx:30-34 | the tags cell is "-" exactly when the value is not an array or has no kept tag, and otherwise lists the kept tags |
| OverviewTable.Tags | components/overview-table.tsx:30-39 | the tags cell is either "-" or a non-empty list of at most as many tags as the array has entries, each with a non-empty trim |
| OverviewTable.KeptLinks | components/overview-table.tsx:44-47 | every kept link has a name and a url with non-empty trims |
| OverviewTable.KeptLinksAppend | components/overview-table.tsx:44-47 | the links of a concatenation are the links of the parts, in order |
| OverviewTable.KeptLinksSingleton | components/overview-table.tsx:44-47 | a single entry is kept exactly when it is an object with a non-blank string name and url |
| OverviewTable.LinksPlaceholderIff | components/overview-table.tsx:41-54 | the links cell is "-" exactly when the value is not an array or has no valid link, and otherwise lists the valid links |
| OverviewTable.Links | components/overview-table.tsx:40-55 | the links cell is either "-" or a non-empty list of at most as many links as the array has entries, each with a non-blank name and url |
| OverviewTable.TextCell | components/overview-table.tsx:18-21 | the text cell is "-" exactly for undefined, null and '', and otherwise the `String` text of the value |
| OverviewTable.DefaultCell | components/overview-table.tsx:129-134 | the default cell is a placeholder exactly for undefined, null, '', objects and arrays with a non-string, non-number entry, marked "[Object]", "[Array]" or "-"; otherwise it is text, which for arrays `DefaultCellSingleton` and `DefaultCellSnoc` pin down as the `", "`-join |
| OverviewTable.DefaultCellIsTextOnScalars | components/overview-table.tsx:18-21 | on values that are neither arrays nor objects the default cell agrees with `Renderers.text` |
| OverviewTable.JoinSnoc | components/overview-table.tsx:131 | joining one more part gives the earlier join, the separator and that part |
| OverviewTable.ToJsStringSnoc | components/overview-table.tsx:125 | `String` of an array with one more entry is the earlier text, a ",", and the entry's text, empty for undefined and null |
| OverviewTable.DefaultCellSingleton | components/overview-table.tsx:131 | an array holding one string or number is shown as that entry's text |
| OverviewTable.DefaultCellSnoc | components/overview-table.tsx:131 | a further string or number in an all-scalar array is shown after the earlier entries and a ", " |
| OverviewTable.DefaultCellArrayExamples | components/overview-table.tsx:129-134 | ["AI", 3] is shown as "AI, 3", [] as "", ["AI", null] as "[Array]", {} as "[Object]" and '' as "-" |
| Sidebar.ExactActiveIff | components/sidebar.tsx:38-41 | an exact route is active iff the pathname equals its path |
| Sidebar.IsActive | components/sidebar.tsx:38-44 | `isActive`; its meaning is stated by `ExactActiveIff`, `PrefixActiveIff` and `ActiveImpliesPrefix` |
| Sidebar.PrefixActiveIff | components/sidebar.tsx:43 | a non-exact route is active iff the pathname is its path or its path followed by "/" and anything |
| Sidebar.ActiveImpliesPrefix | components/sidebar.tsx:38-44 | an active route's path is a prefix of the pathname |
| Sidebar.StocksExamples | components/sidebar.tsx:16-44 | Stocks is active for "/stock" and "/stock/abc" but not for "/stocks" or "/etf" |
| Sidebar.HomeOnlyOnRoot | components/sidebar.tsx:9-31 | Home is active iff the pathname is "/"; every other route is non-exact |
| Sidebar.SecondCharSeparates | components/sidebar.tsx:16-31 | the non-root routes differ in their second character |
| Sidebar.AtMostOneActive | components/sidebar.tsx:9-57 | for any pathname at most one sidebar route is highlighted |

## Left out

- JSX rendering, the charts, cards and table markup, plus the copy button with its clipboard, toast and timer: presentation only.
- The wall-clock year: `new Date().getFullYear()` is the `currentYear` parameter of `WithCalendarYears`. The "Start" and "N/A" labels derived from it are presentation.
- IEEE-754 arithmetic: amounts, rates and balances are exact reals. Rounding artefacts of binary floating point, `toFixed(2)` and the `percentage` and `currency` renderers (`toLocaleString`) are not modelled.
- Calculator.Project: `years` is an integer. A fractional or non-numeric years entry, which `Number(...)` can produce and which gives a non-integral month bound, is not modelled.
- AmountFormat.FormatWithApostrophe: modelled for non-negative integers only. Those are the only values the amount fields pass to it. Its '' results for undefined, null, '' and NaN, its stripping of apostrophes from string input, and `Intl.NumberFormat`'s handling of negatives, fractions and locales are not modelled.
- AmountFormat.Sanitize: `parseInt` is exact here. The loss of precision of numbers above 2^53 is not modelled.
- OverviewTable.ValueMatches: `JSON.stringify` is a parameter of the search, returning either text or `Threw`. The serializer itself is not modelled, and the search result depends on it only through that parameter.
- OverviewTable.Lower: lower-casing is ASCII only; full Unicode `toLowerCase` is not modelled.
- Numbers in cell values carry the text `String(value)` gives them; number-to-string conversion is not modelled.
- `renderCell`'s dispatch between a column's own renderer and the default one, the React `isValidElement` check, and the `console.warn` for tables with no valid links: glue and logging.
- Loading the stock and ETF data from files and parsing JSON: file I/O.
- `usePathname`, the navigation callback and the mobile sidebar's event listeners and body-overflow toggling. The pathname is a parameter of `IsActive`.
