# Revenue calculator model

A Dafny model of the revenue calculator page of a small business-tools
dashboard (`app/revenue-calculator/page.tsx`). The page holds an annual
revenue goal and five figures derived from it (yearly, monthly, weekly, daily,
hourly), two lists of offerings (Products and Services) with a price each,
and shows for every offering how many whole units must be sold per year and
per month to reach the goal.

The model is split the way the page's logic is:

- `conversion.dfy` (module `Conversion`): the six figures, the four entry
  points `calculateFromAnnual/Yearly/Monthly/Weekly`, the fixed constants 12,
  52, 365 and 52·5·8 = 2080, `calculateSalesNeeded` and the rounding up that
  `formatInteger` applies. Figures are consistent when yearly = annual,
  12·monthly = annual, 52·weekly = annual, 365·daily = annual and
  2080·hourly = annual; every entry point produces consistent figures, and
  consistent figures are determined by their annual goal.
- `decimal.dfy` (module `Decimal`): the decimal rendering of the name
  counter in `` `Product ${newCounter}` `` and the digit reading that inverts
  it, which makes different counters give different names.
- `parsing.dfy` (module `Parsing`): `parseFormattedNumber` (drop every comma,
  parse, NaN becomes 0) and `formatInputValue` (0 shows as an empty field).
- `offerings.dfy` (module `Offerings`): the `Offering` record, a list as a
  sequence plus its running name counter, and add, remove and update price,
  with the invariant that every name was issued by the counter and no two
  entries share one; sessions of list operations, and the names they hand out.
- `calculator.dfy` (module `Calculator`): the whole page state and the UI
  events that the inputs and buttons are wired to, with the page invariant
  kept across any session of events.

Numbers are Dafny `real`s; the browser's `parseFloat` and `toLocaleString`
are function parameters, and the `Date.now()` id of an added entry is a
parameter of the add.

The hourly figure is the annual goal over 52·5·8 = 2080 working hours
(`app/revenue-calculator/page.tsx:82`), and the weekly figure is an editable
field wired to `calculateFromWeekly` (`app/revenue-calculator/page.tsx:249`),
like the yearly and monthly ones.

## Model

| member | source | states |
|---|---|---|
| Conversion.FromAnnual | app/revenue-calculator/page.tsx:76-83 | the annual goal becomes the typed value and all six figures are consistent with it (yearly equal, 12, 52, 365 and 2080 times the monthly, weekly, daily and hourly figures) |
| Conversion.FromYearly | app/revenue-calculator/page.tsx:85-93 | the yearly field keeps the typed value and the figures are consistent |
| Conversion.FromMonthly | app/revenue-calculator/page.tsx:95-103 | the monthly field keeps the typed value and the figures are consistent, so the annual goal is twelve times it |
| Conversion.FromWeekly | app/revenue-calculator/page.tsx:105-113 | the weekly field keeps the typed value and the figures are consistent, so the annual goal is 52 times it |
| Conversion.ConsistentIsFromAnnual | app/revenue-calculator/page.tsx:76-83 | any consistent set of figures is exactly what the annual entry point builds from its annual goal |
| Conversion.EntryPointsAgreeWithAnnual | app/revenue-calculator/page.tsx:85-113 | editing yearly x, monthly x or weekly x gives the same figures as editing the annual goal to x, 12·x or 52·x |
| Conversion.DerivedFieldRoundTrip | app/revenue-calculator/page.tsx:76-113 | re-entering the exact yearly, monthly or weekly value that an annual goal produced gives back the same six figures (the value, not its two-decimal display) |
| Conversion.FiguresNonNegative | app/revenue-calculator/page.tsx:76-83 | a non-negative goal yields non-negative figures in every period |
| Conversion.SalesNeeded | app/revenue-calculator/page.tsx:115-122 | a price of 0 or below gives 0 (no division); otherwise count times price is the annual goal (yearly) or a twelfth of it (monthly) |
| Conversion.YearlySalesAreTwelveMonthly | app/revenue-calculator/page.tsx:115-122 | for every goal and price the yearly count is twelve times the monthly count, the zero case included |
| Conversion.Ceil | app/revenue-calculator/page.tsx:50-52 | the displayed count is an integer n with x ≤ n < x + 1 |
| Conversion.CeilIsSmallestIntegerAbove | app/revenue-calculator/page.tsx:50-52 | the ceiling is at most every integer at or above x, and is the only integer in [x, x + 1) |
| Conversion.CeilOfIntegralAndFractional | app/revenue-calculator/page.tsx:50-52 | a whole count is shown as is; a fractional one as its floor plus one |
| Conversion.DisplayedYearlyUnitsReachGoal | app/revenue-calculator/page.tsx:307-309 | for a positive price the yearly units shown are the fewest whole sales whose revenue reaches the annual goal |
| Conversion.DisplayedMonthlyUnitsReachGoal | app/revenue-calculator/page.tsx:313-315 | for a positive price the monthly units shown are the fewest whole sales whose revenue reaches a twelfth of the goal |
| Conversion.GoalOf120000Example | app/revenue-calculator/page.tsx:76-122 | a 120,000 goal is 10,000 a month; at price 100 that is 1,200 units a year and 100 a month |
| Decimal.DigitsValueOfNatToString | app/revenue-calculator/page.tsx:126 | reading the decimal digits of the counter back gives the counter |
| Decimal.NatToStringInjective | app/revenue-calculator/page.tsx:126 | two different counters render as two different digit strings |
| Parsing.StripCommas | app/revenue-calculator/page.tsx:65 | the cleaned text has exactly the characters of the input other than commas, with the same multiplicities |
| Parsing.StripCommasAppend | app/revenue-calculator/page.tsx:65 | stripping distributes over concatenation, so the kept characters keep their order |
| Parsing.StripCommasFixesCommaFree | app/revenue-calculator/page.tsx:65 | stripping leaves a text unchanged exactly when it has no comma |
| Parsing.StripCommasIdempotent | app/revenue-calculator/page.tsx:65 | stripping twice is stripping once |
| Parsing.ParseSeesOnlyStrippedText | app/revenue-calculator/page.tsx:64-68 | a field's text and the same text with its commas removed read as the same number |
| Parsing.ParseIgnoresInsertedComma | app/revenue-calculator/page.tsx:64-68 | a comma inserted at any position does not change the number read |
| Parsing.EmptyFieldReadsZero | app/revenue-calculator/page.tsx:64-68 | an empty field, or one holding only commas, reads as 0 |
| Parsing.ZeroFieldRoundTrip | app/revenue-calculator/page.tsx:55-68 | a field holding 0 is shown empty and the empty text reads back as 0 |
| Offerings.DefaultNameInjective | app/revenue-calculator/page.tsx:124-134 | "Product n" and "Service m" names are equal only for the same kind and the same number |
| Offerings.Initial | app/revenue-calculator/page.tsx:27-40 | each list starts with three zero-priced entries with distinct ids and names issued by a counter of 3 |
| Offerings.Add | app/revenue-calculator/page.tsx:124-134 | the list grows by one with the old list as an unchanged prefix; the new entry has the given id, price 0 and the name numbered counter + 1; the counter goes up by one |
| Offerings.AddNameIsFresh | app/revenue-calculator/page.tsx:124-134 | the name an add hands out differs from every name the counter issued before |
| Offerings.AddPreservesValid | app/revenue-calculator/page.tsx:124-134 | after an add, every name is still issued by the counter and names are still distinct |
| Offerings.AddPreservesDistinctIds | app/revenue-calculator/page.tsx:124-134 | an add with a clock reading no entry has keeps ids distinct |
| Offerings.Without | app/revenue-calculator/page.tsx:138 | the filtered list holds every entry without the id as often as before, and none with it |
| Offerings.WithoutAppend | app/revenue-calculator/page.tsx:138 | filtering distributes over concatenation, so the surviving entries keep their relative order |
| Offerings.WithoutDropsAtMostOne | app/revenue-calculator/page.tsx:138 | with distinct ids the filter drops at most one entry, and none when the id is absent |
| Offerings.WithoutPreservesDistinct | app/revenue-calculator/page.tsx:138 | filtering keeps names and ids distinct |
| Offerings.Remove | app/revenue-calculator/page.tsx:136-146 | a list of one entry or fewer is left unchanged; otherwise exactly the entries with the id are dropped; the counter is untouched |
| Offerings.RemoveKeepsOne | app/revenue-calculator/page.tsx:136-146 | with distinct ids a non-empty list still has at least one entry after a remove |
| Offerings.RemoveDuplicateIdsEmptiesList | app/revenue-calculator/page.tsx:136-146 | with two entries sharing an id, removing that id empties the list despite the guard |
| Offerings.RemovePreservesValid | app/revenue-calculator/page.tsx:136-146 | a remove keeps names issued and distinct and ids distinct |
| Offerings.UpdatePrice | app/revenue-calculator/page.tsx:148-154 | length, order, ids, names and the counter are unchanged; exactly the entries with the id get the new price |
| Offerings.UpdatePriceLastWins | app/revenue-calculator/page.tsx:148-154 | of two price edits on the same id the later one wins |
| Offerings.UpdatePriceCommutes | app/revenue-calculator/page.tsx:148-154 | price edits on different ids can be applied in either order |
| Offerings.UpdatePricePreservesValid | app/revenue-calculator/page.tsx:148-154 | a price edit keeps names issued and distinct and ids distinct |
| Offerings.RunCounterCountsAdds | app/revenue-calculator/page.tsx:124-146 | over any session the counter grows by exactly the number of adds; removes and price edits never lower it |
| Offerings.AddedNumbersCountUp | app/revenue-calculator/page.tsx:124-146 | the k-th add of a session leaves the counter at its starting value + k |
| Offerings.GeneratedNamesFollowCounter | app/revenue-calculator/page.tsx:124-134 | the entry each add of a session appends is named after the counter value that add leaves behind |
| Offerings.GeneratedNamesNeverRepeat | app/revenue-calculator/page.tsx:124-146 | the names of the entries the adds of a session append are pairwise different, whatever is removed in between, and differ from every name already in the list |
| Offerings.ApplyPreservesValid | app/revenue-calculator/page.tsx:124-154 | every list operation keeps names issued and distinct, ids distinct and at least one entry |
| Offerings.RunPreservesValid | app/revenue-calculator/page.tsx:124-154 | a session with fresh clock readings keeps names issued and distinct, ids distinct and at least one entry |
| Calculator.RecalculateKeepsEditedValue | app/revenue-calculator/page.tsx:195-249 | editing a figure field keeps the parsed value as that field's state value, makes the figures consistent, and equals editing the annual goal to the implied annual value |
| Calculator.Step | app/revenue-calculator/page.tsx:71-154 | a figure edit rebuilds the figures from the parsed text times the field's periods per year and leaves both lists alone; a list event leaves the figures and the other list alone |
| Calculator.StepOnListIsApply | app/revenue-calculator/page.tsx:286-322 | a price edit, add or remove changes its list exactly as the matching list operation |
| Calculator.InitialPageSatisfiesInvariant | app/revenue-calculator/page.tsx:20-40 | the first render satisfies the page invariant |
| Calculator.StepPreservesInvariant | app/revenue-calculator/page.tsx:71-154 | any event, with a fresh clock reading for an add, keeps the figures consistent and each list valid with distinct ids and at least one entry |
| Calculator.SessionPreservesInvariant | app/revenue-calculator/page.tsx:71-154 | the page invariant holds after any session of events with fresh clock readings |
| Calculator.AddedEntryShowsZeroUnits | app/revenue-calculator/page.tsx:300-315 | a freshly added entry is unpriced and shows 0 units needed per year and per month |

## Left out

- Rendering, the sidebar and header shell, styling, the landing page's tool
  catalog, the theme toggle and the build configuration: presentation only.
- Floating point: all arithmetic is over exact reals. In the page, identities
  such as 12·(v/12) = v hold only up to double rounding, and a tiny positive
  price can make a sales count overflow to Infinity; neither is modelled.
- `parseFloat`: its grammar (leading whitespace, a valid prefix followed by
  junk, exponents, `Infinity`) is not modelled; it is a parameter that yields
  a real or `None` for NaN.
- `toLocaleString` in `formatNumber`, `formatInteger` and `formatInputValue`:
  locale-dependent digit grouping and two-digit fraction rounding are a
  parameter or left out; `formatInteger` is modelled as its `Math.ceil` alone.
- `Date.now()`: the id of an added entry is a parameter; that it differs from
  every id in the list is a precondition of the invariant lemmas, since two
  adds within one millisecond would share an id.
- React's state batching and closures over stale state: every handler is
  modelled as a function from the current state to the next.
- Conversion.DerivedFieldRoundTrip: holds for the exact state values only.
  A field shows its value through `formatInputValue` with at most two
  fraction digits (`app/revenue-calculator/page.tsx:55-61`), so typing back a
  displayed, rounded figure does not round-trip: a goal of 100,000 shows a
  monthly 8,333.33, which gives back a goal of 99,999.96. A 0 is shown as an
  empty field.
- Offerings.GeneratedNamesNeverRepeat: holds for the model's unbounded `nat`
  counter only. The page's counters are JavaScript numbers
  (`app/revenue-calculator/page.tsx:39-40`, 125, 131): past 2^53,
  `counter + 1` no longer increases, and from 10^21 on `${newCounter}`
  renders in exponent notation. Neither is reachable by clicking.
- The remove buttons are only rendered while a list has more than one entry;
  the model relies on the guard inside the remove handler, which has the same
  effect.
