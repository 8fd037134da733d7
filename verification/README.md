# A verified model of the platform's decision kernels

This project models seven clusters of the billing platform and its tools, and
proves what each promises over every input, every run or every accepted history.

1. **Known values in the published contract.** `KnownValues`, `KnownValuesLaws`,
   `JsonPointer` and `PointerLaws` rewrite a JSON document, take the rewriting out
   again, and address its nodes. `Vocabulary`, `Naming`, `Targets`, `Census`,
   `DecisionDocument` and `Advertising` carry a concept from the registry to the
   document: what is advertised is what the consumers that were read hold.
2. **Keyset pagination.** `Pagination` is the server step and the client that
   follows `next_cursor`, over a table that changes and over one that stands still.
3. **Calendar windows.** `Calendar`, `TimeWindows`, `ReportWindows` and `Retention`
   are Gregorian days, half-open UTC windows, closed months and retention horizons.
4. **Money and lines.** `Money`, `Crossing`, `CostTotals` (with `Arithmetic`) are
   exact splitting with carry, rounding, balances that cross lines, and totals
   that are only partly resolved.
5. **Ratchets over histories.** `LedgerRatchet`, `LedgerCompiler` and
   `LedgerHistory` are the migration ledger; `SdkRatchet` is the SDK coverage one;
   `Histories` is what they share.
6. **Decision rules.** `DecisionRules` is the rule language, its load-time
   enumeration and its evaluator.
7. **The forbidden-term sweep.** `SweepPlan`, `Sweep` and `SweepGate` are the
   partition of the tracked tree, its accounting, and the gate against the ledger.

`Json` is parsed JSON and YAML; `Tables` is the dictionary filled in one pass;
`Characters` and `Wrappers` hold what every part uses.

Loops that fill a dictionary, a list or a set are methods with loops, each proved
against a function or a predicate, and the properties are lemmas about those.
Shared lists and rows that callees update (`Found`, `Report`, `AggregateRow`) are
classes. Reading a file, a database or a clock is a parameter: the references
found in each consumer, the text of each file, the rows of a table, today's date.

## Where the code and its documentation part

Each of these is stated as a lemma with the exact condition, an example, or both.

- A refused document root is reported at `/`, which addresses a member named by
  the empty string; below the root the pointer is exact
  (`PointerLaws.RefusalPointsAtItsCause`).
- A concept can be advertised while a declared backend consumer holds none of its
  values, if that consumer could not be read: `serves` asks only those that were.
  The census reports each unread one as a fault, and every declared consumer holds
  the values exactly when it reports none (`Advertising.AdvertisedIsServedWhenAllWereRead`).
- A cursor that unwraps to something other than an object, or to members that are
  not text, escapes the handler that makes an invalid-cursor problem
  (`Pagination.BadCursorIsAProblemUnless`).
- `closed_months` given a close inside the first day of a closed month leaves that
  month out, since it steps back a whole day (`TimeWindows.ClosedMonthsAreTheTouchedOnes`).
- `month_label_bounds` and `same_month` read `now` as it is spelled, so a `now`
  whose offset carries it out of a month's first or last day in UTC gives another
  month than `month_bounds` (`TimeWindows.MonthFunctionsAgree`,
  `TimeWindows.AheadOfUtcExample`).
- Both ratchets tell a new authorisation by its absence from the base, so an old one
  licenses again exactly when it was deleted and returns
  (`LedgerHistory.OldActLicensesAgainIffItReturns`,
  `SdkRatchet.OldIdLicensesAgainIffItReturns`), as two accepted runs show
  (`LedgerHistory.DroppedAuthorisationLicensesAgain`, `SdkRatchet.ReturnedIdLicensesAgain`).
- The ledger's ratchet alone lets a debt move later by way of an owner no slice
  declares; the ledger's own rules close that (`LedgerHistory.ProgrammeNeverDefers`).
- An SDK authorisation for zero operations is refused beside nothing opened, though
  the numbers agree (`SdkRatchet.EqualNumbersAreAcceptedUnless`).
- A reached alert level is above the published percentage exactly when the total
  stands on a line that was rounded down (`Crossing.ReachedLevelLeadsPercentage`),
  and then by at most ceil(99 / cap).
- The plan of the sweep accepts an area whose name holds `::` or ends in `:`; a term
  found there can be excused by no ledger entry
  (`SweepGate.SomeLedgerPassesIffSitesAreWritable`).

## The results

The table below holds a row for every member that states something of the source.
These are the results; the other rows say what a loop computes, or are steps and
readings on the way to one of them.

- Known values: `KnownValuesLaws.StripUndoesApply`, `KnownValuesLaws.SecondApplyRefused`,
  `PointerLaws.MarkedNodesAreAddressed`, `PointerLaws.ApplyKeepsMapping`,
  `PointerLaws.RefusalPointsAtItsCause`, `DecisionDocument.DocumentRoundTrip`,
  `Census.ServesIsFullExtent`, `Advertising.AdvertisedIsServedWhenAllWereRead`,
  `Advertising.ContractAdvertisesOnlyWhatIsServed`, `Naming.IdentifierKernel`,
  `Targets.OtherConceptsDoNotMatter`, `Targets.PythonHoldsByReference`.
- Pagination: `Pagination.ChangingTableWalk`, `Pagination.WholeTableWalk`,
  `Pagination.FollowingEnds`.
- Calendar: `TimeWindows.ClosedMonthsAreTheTouchedOnes`, `TimeWindows.MonthFunctionsAgree`,
  `ReportWindows.WindowsTileTime`, `Retention.HorizonsAscend`,
  `Retention.FiveWindowsNeverReachBack`, `Retention.SixWindowsReachBack`.
- Money: `Money.BillLines`, `Money.RoundChargeIsNearest`, `Money.RoundChargeAscends`,
  `Money.ReversalCancels`, `Crossing.OneCrossingPerDescent`,
  `Crossing.ReachedLevelLeadsPercentage`, `Crossing.AssessmentIsTheTriggerWhenResolved`,
  `CostTotals.GroupsAddUp`, `CostTotals.ZeroCountMeansComplete`.
- Ratchets: `LedgerRatchet.Compare`, `LedgerHistory.DebtIsConserved`,
  `LedgerHistory.OldActLicensesAgainIffItReturns`, `LedgerHistory.DebtIsPaidByItsSlice`,
  `LedgerHistory.EverythingIsPaid`, `LedgerCompiler.CompileLedger`,
  `SdkRatchet.OpeningsAreSigned`, `SdkRatchet.GapsFollowTheTrail`,
  `SdkRatchet.OldIdLicensesAgainIffItReturns`.
- Decision rules: `DecisionRules.CheckRuleIsTotal`, `DecisionRules.AnswersEverythingIffDecides`,
  `DecisionRules.OrderOfCasesIsIrrelevant`.
- Sweep: `SweepPlan.AreaIgnoresOrderIffOneNamePerRoot`, `Sweep.SweptIsTheTreeLessTheDeclared`,
  `SweepGate.GatePassesIffLedgerIsTrue`, `SweepGate.SomeLedgerPassesIffSitesAreWritable`,
  `SweepGate.NothingHides`.

## Model

| member | source | states |
|---|---|---|
| KnownValues.WalkPublishes | tools/known_values/apply.py:142-199 | the walk succeeds exactly for documents whose every marked node can be honoured, and then its output is the published form of each node, built bottom-up; the pointer passed down never changes the outcome |
| KnownValues.AnnotationSeesTheOriginal | tools/known_values/apply.py:156-229 | annotating a node after its children were rewritten gives the same member, or the same refusal, as annotating it as it was written |
| KnownValuesLaws.StripUndoesApply | tools/known_values/apply.py:76-116 | wherever apply succeeds, strip gives back the very document, member order included, and applying again to the stripped output reproduces it |
| KnownValuesLaws.SecondApplyRefused | tools/known_values/apply.py:91-116 | applying to an applied document is refused exactly when the document has a marked node |
| KnownValuesLaws.UnmarkedIsUntouched | tools/known_values/apply.py:142-153 | a document with no marked node passes through unchanged, whatever the decisions |
| KnownValuesLaws.Found.Collect | tools/known_values/apply.py:131-139 | the shared list grows by exactly the marks below the node, in document order |
| KnownValuesLaws.MarkedNodes | tools/known_values/apply.py:119-128 | the list for a whole document is the marks found from its root |
| PointerLaws.MarkedNodesAreAddressed | tools/known_values/apply.py:119-139 | pointers are pairwise distinct, and each resolves under sections 3 and 4 of RFC 6901 to exactly the node it was reported with |
| PointerLaws.EveryNamingNodeIsReported | tools/known_values/apply.py:131-139 | any node a pointer can reach that names a concept is reported: the list is complete |
| JsonPointer.UnescapeEscape | tools/known_values/apply.py:250-253 | the escaping of a member name is undone by the unescaping order of section 4 of RFC 6901, for every name |
| PointerLaws.ApplyKeepsMapping | tools/known_values/apply.py:76-88 | a successful apply leaves the (pointer, concept) pairs as they were, in their order |
| PointerLaws.RefusalIsLocated | tools/known_values/apply.py:142-199 | every refusal names a node the pointer reaches and that node's own fault; the pointer is the root exactly when nothing below the root is refused |
| PointerLaws.RefusalPointsAtItsCause | tools/known_values/apply.py:156-163 | the published location resolves to the refused node exactly when the fault is below the root |
| PointerLaws.RefusedRootExample | tools/known_values/apply.py:156-163 | a refused root is reported at `/`, which resolves to no node of it |
| DecisionDocument.Build | tools/known_values/document.py:167-192 | the loop builds the document holding one row per concept, in registry order |
| DecisionDocument.Read | tools/known_values/document.py:195-246 | the loop reads every row, or refuses at the first that is refused |
| DecisionDocument.RefusedIffNotGood | tools/known_values/document.py:212-245 | a row is refused exactly when it is no object, names no representation, states no boolean, is advertised without a non-empty list of strings, or is not and carries values |
| DecisionDocument.ReadingIsRefusedWhere | tools/known_values/document.py:203-246 | any document at all is read exactly when it is of this version and has rows, every one of them good; otherwise the refusal names the version, the concepts, or the first bad row |
| DecisionDocument.DocumentRoundTrip | tools/known_values/document.py:167-246 | reading a built document gives back every decision, whole |
| DecisionDocument.EveryConceptIsDecided | tools/known_values/document.py:167-192 | what is read for a concept is the decision made about that concept and no other |
| Vocabulary.OccurringIsInhabited | tools/vocabulary/compiler.py:177-182 | a compiled concept that declares values has one that can occur, so an advertised row is never empty |
| Vocabulary.OccurringIsDeclared | tools/vocabulary/compiler.py:170-182 | every occurring value is declared and not withheld |
| Census.TakeCensus | tools/consumers/census.py:322-351 | the verdicts are exactly those on the consumers, of concepts with values, that could be read, and the faults exactly those of the ones that could not |
| Census.RegistryUnreadMembers | tools/consumers/census.py:322-351 | a fault is in the census exactly when some concept declares values and a consumer on a walked surface that could not be read |
| Census.RegistryVerdictsAre | tools/consumers/census.py:322-351 | a verdict is in the census exactly when it is the one on some consumer that was read |
| Census.AskedVerdicts | tools/consumers/census.py:183-203 | the verdicts asked about a concept on a surface are those of its own declared consumers there, and all of them that were read |
| Census.VerdictPartitions | tools/consumers/census.py:392-405 | held and missing partition the declared values, so nothing is missing exactly when all are held |
| Census.ServesIsFullExtent | tools/consumers/census.py:183-232 | a surface serves a concept exactly when the extent is (n, n), and answers nothing exactly when the extent does |
| Advertising.AdvertisedMeans | tools/known_values/document.py:102-148 | a concept is advertised exactly when it has a representation, some backend consumer of it was read, and every one that was read holds every declared value by reference |
| Advertising.AdvertisedIsServedWhenAllWereRead | tools/known_values/document.py:102-148 | for an advertised concept, every declared backend consumer holds every value exactly when the census reports none of them unread |
| Advertising.UnreadConsumerIsPassedOver | tools/consumers/census.py:183-203 | one consumer read and holding beside one that could not be read: advertised all the same, although the second holds nothing, and the census reports it |
| Advertising.FieldValuesAreHonest | tools/known_values/apply.py:202-229 | an accepted narrowing is a non-empty, strictly shorter subsequence of the occurring values in registry order, exactly the values the field names, and only under `enum` |
| Advertising.AnnotationIsHonest | tools/known_values/apply.py:156-199 | a member written on a node states occurring values of the advertised concept the node names: all of them, or an honest narrowing; an open concept is never given an `enum` |
| Advertising.ContractAdvertisesOnlyWhatIsServed | tools/known_values/apply.py:76-88 | census, decide, build, read and apply end to end: every marked node of the published document carries an honest addition for its concept, and every backend consumer of that concept that was read holds every declared value |
| Naming.IdentifierKernel | tools/vocabulary/generate.py:809-824 | two tokens take one constant name exactly when they are the same words, letter case apart |
| Naming.IdentifierIsStable | tools/vocabulary/generate.py:809-824 | a constant name rendered again is itself |
| Targets.CheckForCollisions | tools/vocabulary/generate.py:224-245 | the loop finds no collision exactly when all the names claimed in the registry are distinct, and each collision it reports is two claims on one name |
| Targets.NamesBelongToOneConcept | tools/vocabulary/generate.py:215-245 | an accepted registry gives no name to two concepts |
| Targets.HandlesAreClaimed | tools/vocabulary/generate.py:178-195 | every handle a consumer may reference is a name its concept claimed |
| Targets.PythonHandlesBind | tools/vocabulary/generate.py:309-316 | with distinct claims no value handle overwrites another: the set name carries every value and each constant its own alone |
| Targets.Held | tools/consumers/census.py:392-405 | the loop returns exactly the values that the referenced names carry |
| Targets.OtherConceptsDoNotMatter | tools/vocabulary/generate.py:224-245 | under an accepted registry, references to any other concept never change what is held of this one |
| Targets.PythonHoldsByReference | tools/vocabulary/generate.py:282-316 | a Python consumer holds a declared value exactly when it references the concept's whole set or that value's own constant |
| Targets.ConsoleHoldsAllOrNothing | tools/vocabulary/generate.py:536-555 | a console consumer that references any of the set, the label keys or the type that spells the values holds all of them, and otherwise none |
| Targets.OpenTypeIsNoHandle | tools/vocabulary/generate.py:536-555 | the type of an open concept itself, which admits values nobody declared, is no handle on the declared ones |
| Pagination.CursorRoundTrip | ubb-platform/core/pagination.py:33-66 | a cursor decodes to the key it was made from, and is never the empty string |
| Pagination.BadCursorIsAProblemUnless | ubb-platform/core/pagination.py:43-105 | an unusable cursor is answered as an invalid cursor exactly when it does not unwrap, or unwraps to an object of another version or with textual members |
| Pagination.ListCursorExample | ubb-platform/core/pagination.py:43-66 | a cursor that unwraps to a JSON list fails with an error no handler turns into a problem |
| Pagination.PageSplitsRows | ubb-platform/core/pagination.py:80-105 | a page is the front of the ordered rows: its rows descend, its cursor is its last row, there is one exactly when rows remain, and every row left out is below it |
| Pagination.ChangingTableWalk | ubb-platform/core/pagination.py:69-105 | whatever is inserted or deleted between pages: no row comes twice, rows come in strictly descending (time, id) order, each from a table that held it, and a walk that ends has returned every row present throughout |
| Pagination.WholeTableWalk | ubb-platform/core/pagination.py:80-105 | over a table that stands still an ended walk has returned the whole table in order, in max(1, ceil(rows / n)) pages for the clamped limit n, each but the last saying there is more |
| Pagination.FollowingEnds | ubb-platform/core/pagination.py:80-105 | following the cursors of a table that stands still ends |
| Calendar.OrdinalOrders | ubb-platform/core/time_windows.py:32-33 | the day count orders the Gregorian dates and tells them apart |
| Calendar.AddDaysCounts | ubb-platform/core/time_windows.py:32-33 | moving by n days, over months and leap years, moves the day count by n |
| TimeWindows.UtcIsTheSameInstant | ubb-platform/core/time_windows.py:49-52 | normalising an aware datetime to UTC keeps the instant |
| TimeWindows.MonthBoundsAreTheMonths | ubb-platform/core/time_windows.py:36-56 | the bounds are the first days of the moment's UTC month and of the next, and an instant is in that month exactly when it lies between them |
| TimeWindows.ClosedMonths | ubb-platform/core/time_windows.py:59-92 | the loop ends, and returns the months from the opening one to the earlier of the last reached and the one before now's |
| TimeWindows.MonthsAscendWithoutGaps | ubb-platform/core/time_windows.py:59-92 | the months are first days, strictly ascending, each the end bound of the one before |
| TimeWindows.ClosedMonthsAreTheTouchedOnes | ubb-platform/core/time_windows.py:59-92 | what is returned is exactly the months that meet [opens, closes) before now's, if and only if `closes` is not inside the first day of a closed month; a plain date never is |
| TimeWindows.LateFirstDayExample | ubb-platform/core/time_windows.py:83-87 | a span closing at noon on the first of a closed month loses that month |
| TimeWindows.ClosedMonthOfAnInstant | ubb-platform/core/time_windows.py:59-92 | with no close, the opening month alone, when it has closed |
| TimeWindows.SameMonthIs | ubb-platform/core/crossing.py:182-192 | the comparison reads the record's UTC month against the month `now` spells |
| TimeWindows.MonthFunctionsAgree | ubb-platform/core/crossing.py:173-192 | `month_label_bounds` and `same_month` agree with `month_bounds` exactly when an aware `now` is in UTC on the day it spells, or one day off it inside the same month; a date, a naive or a UTC `now` always is |
| TimeWindows.AheadOfUtcExample | ubb-platform/core/crossing.py:173-192 | at half past midnight on 1 February, an hour ahead of UTC, they answer February where `month_bounds` answers January |
| ReportWindows.WindowLength | ubb-platform/core/report_windows.py:71-92 | an inclusive pair of dates becomes a half-open span of exactly that many days |
| ReportWindows.ResolveAccepts | ubb-platform/core/report_windows.py:101-135 | a request resolves exactly when its completed dates count from one to the ceiling, and is told it runs backwards exactly when they count less |
| ReportWindows.SuppliedDatesAreKept | ubb-platform/core/report_windows.py:71-135 | a supplied date is never altered, and an instant is in the window exactly when its UTC day is between the two dates |
| ReportWindows.OpenRequestsAreNeverRefused | ubb-platform/core/report_windows.py:101-135 | with no start date, with or without an end, no request is refused |
| ReportWindows.WindowsTileTime | ubb-platform/core/report_windows.py:71-92 | consecutive windows cover every instant from the first opening to the last close, each exactly once |
| Retention.HorizonsAreOrdered | ubb-platform/core/retention.py:104-140 | economic horizon <= measurement horizon <= today |
| Retention.HorizonsAscend | ubb-platform/core/retention.py:104-156 | on a later day no horizon is earlier, leap days included |
| Retention.MeasurementIsTheSettingWithinBounds | ubb-platform/core/retention.py:104-140 | the measurement horizon is the configured number of days back, never in the future and never past the economic one |
| Retention.SixYearsOfDates | ubb-platform/core/retention.py:143-156 | the dates from six years ago through today number more than five windows of 366 and no more than six |
| Retention.FiveWindowsNeverReachBack | ubb-platform/core/time_windows.py:15 | consecutive accepted windows that read the whole six-year horizon are at least six |
| Retention.SixWindowsReachBack | ubb-platform/core/time_windows.py:15 | six accepted windows that read the whole six-year horizon, for every day |
| Money.ColumnHoldsTheSignedWords | ubb-platform/core/money.py:60-74 | an amount fits a money column exactly when it is the signed reading of some 64-bit word |
| Money.AlignedIsTheImage | ubb-platform/core/money.py:145-164 | an amount is aligned exactly when it is the conversion of some whole number of minor units |
| Money.ToMinorIsTheOnlySplit | ubb-platform/core/money.py:128-142 | the split is the one pair whose remainder is from zero up to a minor unit and that adds up to the amount, negative amounts included |
| Money.BillLines | ubb-platform/apps/billing/invoicing/services/postpaid_service.py:523-531 | the carried loop conserves money exactly, bills the floor of the grand total, keeps its remainder, and bills no empty line |
| Money.BillingIgnoresOrder | ubb-platform/core/money.py:128-142 | total minor units and what is left do not depend on the order of the amounts |
| Money.BillingIgnoresBatching | ubb-platform/core/money.py:128-142 | billing two batches with the remainder carried bills what one batch would |
| Money.RoundChargeIsNearest | ubb-platform/core/money.py:167-186 | the rounded charge is the nearest whole number to n/d, a tie away from zero, and that alone |
| Money.RoundChargeIsOdd | ubb-platform/core/money.py:167-186 | the charge of the opposite amount is the opposite charge |
| Money.RoundChargeReadsTheRational | ubb-platform/core/money.py:167-186 | equal rationals round alike, whatever numerator and denominator spell them |
| Money.RoundChargeAscends | ubb-platform/core/money.py:167-186 | a greater rational never rounds to less, across denominators |
| Money.CeilingTrailsCharge | ubb-platform/core/money.py:189-200 | the ceiling rounding is the floor of n/d; it never exceeds the charge and trails it by at most one |
| Money.ReversalCancels | ubb-platform/core/money.py:35-38 | any list of lines and its reversal sum to zero |
| Crossing.EdgesMeetAtTheLine | ubb-platform/core/crossing.py:64-93 | recovered is the negation of past; the line itself is allowed and one micro below it is past; a crossing goes from the one to the other |
| Crossing.OneCrossingPerDescent | ubb-platform/core/crossing.py:71-93 | over any run of balances crossings less recoveries is one, zero or minus one, as the ends of the run say |
| Crossing.RecoveryBetweenCrossings | ubb-platform/core/crossing.py:79-93 | between any two firings of one run there is a recovery |
| Crossing.ThreeReadsOfReached | ubb-platform/core/crossing.py:227-316 | for a positive ceiling, reached, a used percentage of a hundred or more and nothing remaining are one and the same |
| Crossing.ReadsAscend | ubb-platform/core/crossing.py:227-316 | as the known total grows, reached stays, the percentage never falls and the remainder never rises |
| Crossing.HighestReachedIs | ubb-platform/core/crossing.py:143-168 | the highest level reported is reached, is a configured one, and no other reached level is above it |
| Crossing.PercentageReachesLevel | ubb-platform/core/crossing.py:143-168 | a published percentage of at least a level means the level is reached |
| Crossing.ReachedLevelLeadsPercentage | ubb-platform/core/crossing.py:101-168 | a reached level is above the published percentage exactly when the total stands on its line and the line was rounded down |
| Crossing.AssessedLevelLeadsPercentage | ubb-platform/core/crossing.py:143-168 | so it is, exactly, with the level an assessment names |
| Crossing.ReachedLevelIsNearPercentage | ubb-platform/core/crossing.py:101-168 | and then by at most ceil(99 / cap) |
| Crossing.LevelAheadOfPercentageExample | ubb-platform/core/crossing.py:101-168 | the bound is met: a cap of one micro reaches level 99 at zero spend and zero percent |
| Crossing.PoolReadsAscend | ubb-platform/core/crossing.py:109-168 | every read of the pool is monotone in the known total, and blocking is the stop trigger itself |
| Crossing.WholeShareBlocks | ubb-platform/core/crossing.py:109-168 | a blocking pool that stops at its whole cap blocks exactly from a hundred percent on; an alerting pool never blocks |
| Crossing.AssessmentIsTheTriggerWhenResolved | ubb-platform/core/crossing.py:227-352 | the assessment gives the trigger's verdict and figures exactly when nothing is unresolved; otherwise it is indeterminate and publishes no figure |
| Crossing.UnresolvedSettlesNothing | ubb-platform/core/crossing.py:257-290 | with something unresolved, some resolution reaches the ceiling and some does not |
| CostTotals.Accumulate | ubb-platform/core/cost_totals.py:134-205 | the Python fold over postings equals the SQL sum and the SQL count |
| CostTotals.PairsAdd | ubb-platform/core/cost_totals.py:156-205 | the pair of two streams is the sum of their pairs |
| CostTotals.GroupsAddUp | ubb-platform/core/cost_totals.py:156-205 | the pairs of any grouping add up to the pair of the whole |
| CostTotals.PairIgnoresOrder | ubb-platform/core/cost_totals.py:156-205 | the pair depends on the multiset of postings alone |
| CostTotals.ResolvingMovesThePair | ubb-platform/core/cost_totals.py:134-205 | resolving one posting at any signed amount moves the pair by (+amount, -1) |
| CostTotals.ZeroCountMeansComplete | ubb-platform/core/cost_totals.py:134-205 | the count is zero exactly when the sum is the true total however the unresolved postings turn out |
| CostTotals.AggregateRow.CarryCostTotal | ubb-platform/core/cost_totals.py:208-222 | the row in place: the sum becomes a number, the count stays, and no other cell changes |
| CostTotals.CarryingCommutes | ubb-platform/core/cost_totals.py:208-222 | resolving two pairs on one row commutes |
| CostTotals.CarryingTwiceIsOnce | ubb-platform/core/cost_totals.py:208-222 | resolving a pair twice is resolving it once |
| LedgerRatchet.Index | tools/gates/ratchet.py:59-74 | the loop builds the map from (gate, site), tolerating entries that are neither; a later entry replaces an earlier one |
| LedgerHistory.IndexFinds | tools/gates/ratchet.py:59-74 | a debt is in that map exactly when some entry states its gate and site, and its body is the last such entry |
| LedgerRatchet.AuthorisationIdentities | tools/gates/ratchet.py:89-100 | the loop collects the gate and issue of every authorisation |
| LedgerRatchet.LicensedPerGate | tools/gates/ratchet.py:121-131 | the nested loops give each gate named by a new authorisation the sum its new authorisations state, and name no other gate |
| LedgerRatchet.AddedPerGate | tools/gates/ratchet.py:133-136 | the loop counts the additions of each gate |
| LedgerRatchet.Compare | tools/gates/ratchet.py:108-175 | the comparison reports every growth, miscount, inert authorisation and deferral there is, and nothing else |
| LedgerHistory.AcceptedMeansSigned | tools/gates/ratchet.py:108-175 | a change passes exactly when every gate's additions are licensed by new authorisations in that very number, no new authorisation is without additions, and no kept debt is deferred |
| LedgerHistory.DebtIsConserved | tools/gates/ratchet.py:108-175 | over every run of accepted changes, per gate: final size = initial size + all that was signed for - all that was paid |
| LedgerHistory.UnsignedRunOnlyShrinks | tools/gates/ratchet.py:108-175 | a run with no new authorisation ends with a subset of the debts it began with |
| LedgerHistory.OldActLicensesAgainIffItReturns | tools/gates/ratchet.py:89-127 | an authorisation that stands is new to some later change exactly when it is deleted and comes back |
| LedgerHistory.AuditTrailLicensesOnce | tools/gates/ratchet.py:89-100 | where authorisations are never deleted, none licenses twice |
| LedgerHistory.DroppedAuthorisationLicensesAgain | tools/gates/ratchet.py:121-131 | a deleted authorisation that comes back lets in a second entry on the same signature |
| LedgerHistory.KeptDebtIsNeverDeferred | tools/gates/ratchet.py:158-172 | a debt kept through a run whose owners are all declared never ends later in the chain than it began |
| LedgerHistory.UndeclaredOwnerLetsADebtMoveLater | tools/gates/ratchet.py:158-172 | through an owner no slice declares, two accepted changes defer a debt that the ratchet refuses to defer in one |
| LedgerCompiler.CheckRecord | tools/gates/compiler.py:774-799 | reports every missing, undeclared and mistyped field of a mapping and nothing else, and calls the mapping faulty exactly when it is no good record |
| LedgerCompiler.Records | tools/gates/compiler.py:754-800 | the well-formed records come back in order; exactly the faults of the list and of each record are reported, so none when the list is good |
| LedgerCompiler.CheckIdentity | tools/gates/compiler.py:803-816 | reports exactly the ids used before and the debts already recorded, naming the latest entry that records each |
| LedgerCompiler.CheckGateReference | tools/gates/compiler.py:819-835 | reports exactly whether the gate is undeclared, or declared and not installed |
| LedgerCompiler.CheckEntry | tools/gates/compiler.py:718-730 | reports exactly what is wrong with the gate and the owner of one entry |
| LedgerCompiler.CompileLedger | tools/gates/compiler.py:712-740 | reports everything wrong with a ledger and nothing else, and nothing exactly when its records are well formed, its debts distinct, its gates running and its owners declared and not landed |
| LedgerCompiler.AcceptedEntriesAreOwed | tools/gates/compiler.py:712-730 | every entry of an accepted ledger is one the ratchet sees, with a declared owner that has not landed |
| LedgerCompiler.OnlyTheEmptyLedgerIsLeft | tools/gates/compiler.py:718-730 | once every slice has landed only the ledger with no entry is accepted |
| LedgerCompiler.CheckRowStatus | tools/gates/compiler.py:550-591 | a manifest row's status passes exactly when it is a plain status or names a declared slice that has not landed, and each of the two faults is reported exactly when it holds |
| LedgerHistory.ProgrammeNeverDefers | tools/gates/compiler.py:712-730 | with every ledger accepted by its own rules the owners are all declared, so no kept debt is ever deferred |
| LedgerHistory.DebtIsPaidByItsSlice | tools/gates/compiler.py:718-730 | a debt has left the ledger by the time its first owner and every slice before it have landed |
| LedgerHistory.EverythingIsPaid | tools/gates/compiler.py:718-730 | with every slice landed the ledger is empty, and what was paid is what was owed at first plus all that was signed for |
| SdkRatchet.UnwrappedIds | tools/sdk_operations/ratchet.py:81-100 | the loop collects exactly the operation ids some row gives a disposition other than wrapped |
| SdkRatchet.Licences | tools/sdk_operations/ratchet.py:103-118 | the loop fills the table of counts by authorisation id |
| SdkRatchet.LicencesFind | tools/sdk_operations/ratchet.py:103-118 | an id is in that table exactly when an authorisation states it, with the count the last such one states |
| SdkRatchet.Compare | tools/sdk_operations/ratchet.py:121-162 | the verdict, the licensed total and each of the three faults, exactly when each holds |
| SdkRatchet.EqualNumbersAreAcceptedUnless | tools/sdk_operations/ratchet.py:121-162 | a change passes exactly when the new authorisations total what was opened, and none is new when nothing opened |
| SdkRatchet.ZeroCountIsRefused | tools/sdk_operations/ratchet.py:150-157 | a new authorisation for zero operations beside nothing opened agrees in number and is refused |
| SdkRatchet.OpeningsAreSigned | tools/sdk_operations/ratchet.py:121-162 | over every accepted run, openings equal what was signed for, whatever the net count did: final = initial + signed - closed |
| SdkRatchet.EveryNewGapWasSigned | tools/sdk_operations/ratchet.py:121-162 | an operation unwrapped at the end and not at the start was opened in a change with a new authorisation |
| SdkRatchet.TrailAddsUp | tools/sdk_operations/ratchet.py:103-118 | over an audit trail, what was signed for change by change is what the last file states beyond the first |
| SdkRatchet.GapsFollowTheTrail | tools/sdk_operations/ratchet.py:121-162 | so over such a run the unwrapped operations grow by that total less the ones wrapped |
| SdkRatchet.OldIdLicensesAgainIffItReturns | tools/sdk_operations/ratchet.py:131-140 | an authorisation id that stands is new to some later change exactly when it is deleted and comes back |
| SdkRatchet.TrailLicensesOnce | tools/sdk_operations/ratchet.py:103-118 | over an audit trail no id licenses twice |
| SdkRatchet.ReturnedIdLicensesAgain | tools/sdk_operations/ratchet.py:131-140 | one authorisation for one operation, deleted and brought back, signs for a second in a run of accepted changes |
| DecisionRules.CombinationsAreAll | tools/vocabulary/compiler.py:867 | the product lists every combination of n booleans once: two to the n of them |
| DecisionRules.Enumerate | tools/vocabulary/compiler.py:866-880 | the loop collects every combination no case answers and every one that several do, each once |
| DecisionRules.CheckRuleIsTotal | tools/vocabulary/compiler.py:859-889 | no error exactly when every assignment of the inputs matches exactly one case; an error names one combination at fault and counts them all |
| DecisionRules.ReadSemantics | tools/vocabulary/compiler.py:759-856 | a rule loads without error exactly when it is well formed and decides every combination |
| DecisionRules.AnswersEverythingIffDecides | tools/vocabulary/compiler.py:123-140 | the evaluator answers every combination exactly when the enumeration finds no fault |
| DecisionRules.AnswerIsTheOnlyCase | tools/vocabulary/compiler.py:110-140 | the answer is the result of the one case that matches |
| DecisionRules.LoadedRulesAnswer | tools/vocabulary/compiler.py:123-140 | a loaded rule answers every combination with a declared value, and refuses any other set of inputs |
| DecisionRules.OrderOfCasesIsIrrelevant | tools/vocabulary/compiler.py:110-140 | reordering the cases changes no answer, refusals included, and not whether the rule decides |
| DecisionRules.WildcardDecidesAlone | tools/vocabulary/compiler.py:859-889 | a case open in every input decides exactly when it is the only case |
| DecisionRules.TheCapBoundsTheEnumeration | tools/vocabulary/compiler.py:753-756 | at most eight inputs means at most 256 combinations |
| SweepPlan.FindArea | tools/forbidden_terms/plan.py:106-118 | the loop returns the name of the area with the longest root among those that contain the path, or the residual one |
| SweepPlan.BestIsLongest | tools/forbidden_terms/plan.py:106-118 | that area is declared, contains the path, and no containing area has a longer root |
| SweepPlan.AreaIgnoresOrderIffOneNamePerRoot | tools/forbidden_terms/plan.py:106-118 | the area of a path never depends on the order areas are declared in exactly when no non-empty root has two names |
| Sweep.Partition | tools/forbidden_terms/sweep.py:169-191 | every path goes to the files read or to its first rule's bucket, in order, and exactly the paths several rules match are faults |
| Sweep.EveryPathIsCountedOnce | tools/forbidden_terms/sweep.py:169-191 | files read and bucket sizes add up to the number of paths |
| Sweep.PlacesAreDisjoint | tools/forbidden_terms/sweep.py:169-191 | no path is in two places and none in no place |
| Sweep.AccountingFaults | tools/forbidden_terms/sweep.py:194-228 | every inert rule, wrong count and hidden anchor, and nothing else |
| Sweep.VacuityFaults | tools/forbidden_terms/sweep.py:231-253 | every anchor not read and every area without an anchor, and nothing else |
| Sweep.Unaccounted | tools/forbidden_terms/sweep.py:144-166 | exactly the tracked files that were neither read nor excused |
| Sweep.AccountedIffWalked | tools/forbidden_terms/sweep.py:144-166 | nothing is unaccounted for exactly when the walk was given every tracked file |
| Sweep.BucketsAreTheRules | tools/forbidden_terms/sweep.py:194-228 | with no fault each bucket is all that its rule matches, is not empty, and has the declared size |
| Sweep.SweptIsTheTreeLessTheDeclared | tools/forbidden_terms/sweep.py:169-228 | with no fault the tree is the files read plus the declared counts, and the files read are exactly those no rule matches |
| Sweep.EveryAreaWasRead | tools/forbidden_terms/sweep.py:231-253 | with no fault every area, the residual one too, holds an anchor that was read |
| Sweep.EveryPathHasAnAnchor | tools/forbidden_terms/sweep.py:231-253 | so with no fault every path stands in an area that holds an anchor that was read |
| Sweep.HiddenAnchorsAreMissing | tools/forbidden_terms/sweep.py:216-228 | an anchor a rule hides is reported twice: as hidden and as missing |
| SweepGate.Search | tools/forbidden_terms/sweep.py:273-302 | every file read is searched for every retired term: each site holds exactly its files; a file that cannot be read is a fault |
| SweepGate.Run | tools/forbidden_terms/sweep.py:256-310 | the result is the partition, the findings over it, and all the faults of both |
| SweepGate.SiteRoundTrip | tools/forbidden_terms/sweep.py:51-66 | a written site reads back exactly when neither half is empty and the area neither holds `::` nor ends in `:` |
| SweepGate.ParsedSiteIsSpelled | tools/forbidden_terms/sweep.py:56-66 | a site that parses is spelled as its halves |
| SweepGate.Excuses | tools/forbidden_terms/sweep.py:315-341 | the loop fills the table of extents by site and reports exactly the entries it cannot read |
| SweepGate.ExtentsFind | tools/forbidden_terms/sweep.py:315-341 | a site is excused exactly when an entry that can be read speaks of it, to the extent the last such entry records |
| SweepGate.ExtentRoundTrip | tools/forbidden_terms/sweep.py:47-48 | the text the gate asks for reads back as the number measured |
| SweepGate.GateFaults | tools/forbidden_terms/sweep.py:344-393 | every term not owed, spread, overstated or stale, and nothing else |
| SweepGate.GatePassesIffLedgerIsTrue | tools/forbidden_terms/sweep.py:344-393 | the gate passes exactly when the ledger's extents and the measured ones are equal as maps |
| SweepGate.SomeLedgerPassesIffSitesAreWritable | tools/forbidden_terms/sweep.py:315-393 | some ledger makes the gate pass exactly when every site found reads back from its text; recording what was measured is one |
| SweepGate.NothingHides | tools/forbidden_terms/sweep.py:256-393 | with no fault and a passing gate, a file no rule excuses was read beside an anchor of its area, and for a retired term in it the last ledger entry on that area and term records the true number of files |
| SweepGate.EmptyLedgerMeansCleanTree | tools/forbidden_terms/sweep.py:256-393 | where no ledger entry speaks of an area and a term, no file of the area outside the declared rules holds the term |

## Left out

- Text formats: base64, JSON text, ISO 8601 instants and UUIDs inside a cursor are a `Codec` assumed only to read back what it wrote; that such formats exist is shown by `Pagination.PlainCodecIsInvertible`.
- Years: Python dates stop at 1 and 9999; the calendar here does not, so an overflow near either end is not modelled.
- Month labels are the pair (year, month), not the text `YYYY-MM`.
- Letters outside ASCII: `Naming` upper-cases, `Money` lower-cases and `SweepGate` reads digits in ASCII; Python does so for all of Unicode. That a generated name is a legal Python identifier is not part of this model.
- Python's equality of 1, 1.0 and True as dictionary keys: an authorisation's gate and issue are compared as distinct JSON values, and a value Python cannot hash is read as one that matches nothing.
- Order of reports: faults, added and removed debts, findings and occurrences are sorted by the source and are a set or an unordered list here; messages are reduced to what they name.
- `Census.findings`, `Census.extents` and the enumerations a consumer carries: set comprehensions over what `Census.TakeCensus` already returns.
- Census.TakeCensus: does not model the faults of missing artifacts, of console aliases, or of a reader that could read a consumer only in part, because those readers are not part of this model.
- Reading consumers: the readers of imports and references are a parameter (`Census.References`), as is the resolution of console aliases.
- Reading a registry, a plan or a manifest from YAML: shape checks other than those of ledger records and decision rules. The token pattern of a decision rule's inputs is a parameter.
- Rendering: generated constants, TypeScript types, comments and line wrapping.
- Git: which commit a change is compared against; the two states are parameters.
- Cost totals in SQL: the aggregate is modelled by its meaning over a multiset of postings, not by the query that computes it.
- Postpaid invoicing around the carry loop: reservation, statuses, Stripe and the log line for a remainder that cannot happen.
- Django, Celery, Redis, settings and logging: the retention setting is a parameter, and a missing one is the error the source raises.
- Lock order and database triggers (`core/locking.py`, `core/transitions.py`): what they call into is not part of this model.
- `core/scheduling.py`, `core/controls.py`, `core/currency_policy.py`: single-branch lookups.
- A ledger document that is not a mapping, and a declared list that is one of neither kind where the ratchet reads it: the ratchet is given the two lists.
