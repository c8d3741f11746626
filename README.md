# criteria-check: the eligibility engine in Dafny

This project models the eligibility engine of criteria-check, a MediaWiki user script. The script
decides whether a wiki account meets the criteria for voting or standing in an on-wiki election.

The model covers:

- the `User` class: per-criterion dispatch, the memoised account query, the retry loop that follows account renames, the three paginated evidence collectors, and the eight built-in criterion evaluators;
- the engine object: the account cache, handler registration, the multi-account `check` driver, and `summarize`;
- the helpers of `util.js`.

The wiki's query API is an input. A `Wiki` value answers every request the source sends, and a paginated list is the sequence of pages the API returns in order. Instants are integer milliseconds (UTC). The present instant, whether the viewer is an administrator, and the viewer's account name are parameters of the engine object.

Modules, one per file:

- `Values` (values.dfy): `Option`, `Result` and the exceptions the engine can end in. It also holds JavaScript's comparisons on possibly undefined dates, which are false on `undefined`.
- `Calendar` (calendar.dfy): the calendar subtraction the script takes from date-fns. Month and year subtraction clamp the day of the month.
- `Util` (util.dfy): `util.js`.
- `Wiki` (wiki.dfy): the API's answers as data.
- `Criteria` (criteria.dfy): criteria, their options, statuses and verdicts, and the arithmetic shared by the evaluators.
- `Evidence` (evidence.dfy): the pagination loops (`Paginate`, proved equal to the specification function `Collect`), `collectActions`, and the in-place sort of the collected actions.
- `Evaluators` (evaluators.dfy): each built-in criterion as a function of the wiki's answers, together with the loops of `hadFlagFor`, `notLostFlagInLast` and `notInactiveFor` as methods proved against those functions.
- `Engine` (engine.dfy): the classes `Session` (the engine object `cc`) and `User`, proved against `StepOne`, `CheckRound`, `RoundStep` and `CheckRuns`.
- `Index` (index.dfy): `summarize`, the multi-account `check` and `otherThanMeets`. `otherThanMeets` is a helper of `util.js`; it is modelled here because it reads the `Summary` that `summarize` builds.

Behaviours of the code that a reader might not expect:

- The move-log fallback checks that the moved page (`entryMove.ns`) is in the user namespace. It takes the text after the first colon of the target title without checking the target's namespace.
- `firstFailedResult` is the last `notMeets` result before the first `userMissing` one. It is still set when a `userMissing` result follows it.
- A grant in `hadFlagFor` ends at the next rights entry whose new groups lack the flag. The scan for the next grant resumes after that entry.
- Every date is normalised by the corrected `prepareDate` (see Findings). As written, the function throws for every date-only period end.

## Model

| member | source | states |
|---|---|---|
| Calendar.CivilOfDayNumber | src/util.js:130-132 | the date of the day number of any valid date is that date again |
| Calendar.DayNumberOfCivil | src/util.js:130-132 | every day number is the number of a valid date, the one the calendar gives for it |
| Calendar.PrevDayNumber | src/util.js:27 | the day before a date is a valid date whose day number is one less, across the ends of months, of February in leap and common years, and of years |
| Calendar.DaysBeforeNumber | src/util.js:130-132 | counting back k calendar days lowers the day number by exactly k |
| Calendar.SubDays | src/util.js:130-132 | subtracting n days from an instant moves its day number back by exactly n and keeps its time of day |
| Calendar.SubSeconds | src/util.js:27 | subtracting n seconds moves the instant back by exactly n whole seconds and keeps the milliseconds within the second |
| Calendar.SubDaysRule | src/util.js:130-132 | subtracting k days from the midnight that starts a date gives the midnight that starts the date k calendar days earlier |
| Calendar.SecondBeforeMidnight | src/util.js:27 | one second before the midnight that starts a date is 23:59:59 on the calendar day before it |
| Calendar.SubMonthsCivilRule | src/util.js:130-132 | month subtraction on a date gives the same day n months earlier, or the last day of that month when the month is shorter |
| Calendar.SubMonthsRule | src/util.js:130-132 | on any instant, month subtraction moves the date exactly n months back, keeps the day of the month or clamps it to the target month's length, and keeps the time of day |
| Calendar.SubYearsRule | src/util.js:130-132 | on any instant, year subtraction keeps the month, moves the year back by n, clamps the day (29 February becomes 28 February outside leap years) and keeps the time of day |
| Calendar.OneMonthBeforeMarch31 | src/User.js:486-487 | one month before 31 March 2019 is 28 February 2019 (the day is clamped) |
| Calendar.OneMonthBeforeMarch31Leap | src/User.js:486-487 | one month before 31 March 2020 is 29 February 2020 |
| Calendar.OneMonthBeforeMarch1 | src/User.js:486-489 | one month before 1 March 2019 is 28 days earlier, so the exact check of a single period depends on the calendar |
| Calendar.OneMonthBeforeMarch1Leap | src/User.js:486-489 | one month before 1 March 2020 is 29 days earlier |
| Util.PrepareDate | src/util.js:10-28 | as written: a falsy date gives undefined; it throws a ReferenceError exactly for a date-only string as a period end; otherwise the instant, one second earlier for a period end |
| Util.PrepareDateIntended | src/util.js:10-28 | never throws; a falsy date gives undefined; a date-only period end gives the last second of that day |
| Util.PrepareDateAgreesWhereDefined | src/util.js:10-28 | the two versions agree wherever the written one does not throw, and it throws exactly for date-only period ends |
| Util.DateOnlyPeriodEndThrows | src/util.js:17-24 | for the period end "2019-03-31", the written version throws and the intended one gives 23:59:59 that day |
| Util.CreateSubFunc | src/util.js:111-133 | a subtraction exists exactly for the units day, days, month, year and years; it subtracts the given amount of the matching calendar unit |
| Util.MonthsIsNotAUnit | src/util.js:123-128 | "months" gives undefined, while "month" gives a month subtraction |
| Util.DdmmyyyyToYyyymmdd | src/util.js:30-33 | null exactly when no dd-mm-yyyy occurs; otherwise the first occurrence reordered into yyyy-mm-dd |
| Util.IndexOf | src/util.js:36-38 | -1 exactly when the element is absent; otherwise the position of its first occurrence |
| Util.GetMonthNumber | src/util.js:35-40 | null exactly for a word that is not a genitive month name; otherwise the month's number in 1..12 |
| Util.MonthNumbersInOrder | src/util.js:35-40 | the k-th month name maps to k + 1 |
| Util.JsRem | src/util.js:44 | JavaScript's `%`: equal to the mathematical remainder for a non-negative dividend, and never of the opposite sign |
| Util.Plural | src/util.js:42-45 | for a count of zero or more, the result is one of the three forms |
| Util.PluralRule | src/util.js:42-45 | `five` when count mod 100 is 5..19; otherwise `one` for count mod 10 = 1, `two` for 2..4, and `five` otherwise |
| Util.PluralPeriodic | src/util.js:42-45 | the form repeats every 100 |
| Util.RemoveDuplicates | src/util.js:71 | no repeats, and exactly the input's elements |
| Util.RemoveDuplicatesKeepsFirstOccurrenceOrder | src/util.js:71 | the output lists elements in the order of their first occurrence |
| Util.RemoveDuplicatesOfDistinct | src/util.js:71 | a list without repeats comes back unchanged |
| Util.RemoveDuplicatesIdempotent | src/util.js:71 | applying it twice is the same as once |
| Util.VotePageIff | src/util.js:73-87 | a title is a vote page exactly when it starts with one of the election prefixes and is not one of the listed template or style pages |
| Util.AutomaticActions | src/util.js:89-109 | the actions approve-a, approve-ia, approve2-a, approve2-ia, autopatrol, autopromote, delete_redir, hit, move, move_prot, move_redir, renameuser and thank (13 in all), create/create and every `newusers` event are not counted; every other create or delete event, whose action is none of the 13, is counted |
| Util.CalcOptimalLimit | src/util.js:135 | the result is round(1.2 × max(n, 200)): at least 240 and at least n |
| Util.CalcOptimalLimitMonotone | src/util.js:135 | monotone in n |
| Criteria.Round | src/User.js:312 | `Math.round`: the nearest integer, halves rounded up |
| Criteria.SafeValue | src/User.js:305-312 | the margin-inflated target is at least the target for a non-negative target and margin |
| Criteria.MeaningfulEditsMargin | src/User.js:305-312 | 300 meaningful edits with no margin given need 450 |
| Criteria.ResolveFlags | src/User.js:409-411 | `flags` when given; otherwise the single `flag` as a one-element list; nothing when neither is given |
| Criteria.Band | src/User.js:432-448 | a band exists exactly for the six unit spellings, with 0 < min ≤ max and a width of at most three days per unit |
| Criteria.MonthsHasBandButNoSubtraction | src/User.js:440-443 | "months" has a duration band but no calendar subtraction; the other units have both |
| Wiki.Response | src/User.js:175-176 | the k-th request of a loop gets page k; past the last page the response has no entry list |
| Evidence.PageLimit | src/User.js:152-162 | a request never asks for more than the viewer's cap; without vote filtering it asks for at most what is still missing; with it, the cap or at least what is missing |
| Evidence.Collect | src/User.js:147-189 | the items are the accumulator followed by the filtered entries of the pages read, in fetch order |
| Evidence.CollectRequests | src/User.js:152-174 | one request per page read (and one more for a final response without entries), each sized by `PageLimit` from the count held when it was sent |
| Evidence.RequestLimitsBounded | src/User.js:152-162 | every request is within the cap, and within what is still missing when votes are not filtered |
| Evidence.CollectStops | src/User.js:175-186 | every page read had entries; the loop continued after each but the last; it stopped at a response without entries, a missing continuation, or the target reached |
| Evidence.Paginate | src/User.js:147-189 | the do-while loop computes `Collect` |
| Evidence.Revisions | src/User.js:224-228 | one deleted page contributes exactly its revisions |
| Evidence.CollectedActions | src/User.js:239-295 | the actions are sorted by time and are a permutation of everything collected |
| Evidence.CollectedActionsSources | src/User.js:241-282 | contributions first, then deleted edits, then log actions; logs are read only while the count is short |
| Evidence.NoDeletedEditsWithoutRights | src/User.js:247-250 | a viewer who is not an administrator, or `deleted` set to false, brings in no deleted edits |
| Evidence.LoggedAreLogActions | src/User.js:276-279 | everything the log loop adds is a log action |
| Evidence.InsertByTimePermutes | src/User.js:284-292 | inserting adds exactly the inserted action |
| Evidence.InsertByTimeSorted | src/User.js:284-292 | inserting into a sorted list keeps it sorted |
| Evidence.SortByTime | src/User.js:284-292 | the sort's result is sorted by time and a permutation of its input |
| Evidence.SortByTimeOfSorted | src/User.js:284-292 | a sorted list is left unchanged, so ties keep their order |
| Evidence.SortByTimeIdempotent | src/User.js:284-292 | sorting twice is sorting once |
| Evidence.SortActions | src/User.js:284-292 | the array sorted in place holds `SortByTime` of its old contents |
| Evaluators.EditCountNotLessRule | src/User.js:312-344 | `meets` exactly when the count reaches the inflated target; between the target and the inflated target `possiblyMeets`, below the target `notMeets`, and in both cases `notEnoughRights` when deleted edits count and the viewer is not an administrator |
| Evaluators.DeletedEditsOnlyWhenShort | src/User.js:314-324 | deleted edits are read only by an administrator when they count; enough contributions alone give `meets` |
| Evaluators.RegistrationVerdict | src/User.js:347-380 | `userMissing` exactly for a missing account; `meets` exactly when the registration (or first edit) date is not after the limit; the details carry that date and the edit count |
| Evaluators.EditsBetweenVerdict | src/User.js:382-405 | throws exactly when no period start or no period end is given; otherwise `meets` exactly when the first response of the one-contribution query between the prepared start and end has a non-empty contribution list, and `notMeets` otherwise |
| Evaluators.RightsEntries | src/User.js:413-430 | the loop ends only if the first response has no entries or no continuation; otherwise it re-requests the same page forever |
| Evaluators.NextRevocation | src/User.js:466-473 | the first later entry whose new groups lack the flag, or the end of the log |
| Evaluators.GrantSpans | src/User.js:459-478 | each period starts at a grant and ends at the next revocation; periods do not overlap and come in log order |
| Evaluators.GrantSpansCover | src/User.js:459-478 | no grant is missed: every entry that grants the flag lies in one of the periods found, from its grant up to its revocation |
| Evaluators.ScanGrants | src/User.js:456-478 | the nested loops, which share their index, compute the total duration, the count and the last bounds of the periods (`ScanOf`) |
| Evaluators.FlagsVerdict | src/User.js:452-507 | the loop over flags computes `FlagOutcome`, with the period count shared across flags |
| Evaluators.SingleFlagRule | src/User.js:479-507 | for one flag: `meets` exactly when the total reaches the upper band, or a single period passes the calendar check; throws exactly when a single period needs the calendar check and the unit has no subtraction; otherwise `possiblyMeets` when there are several periods and the total reaches the lower band, else `notMeets` |
| Evaluators.OpenSinglePeriodNotByDate | src/User.js:485-495 | a single period that is still open has no end date, so only the band can make it `meets` |
| Evaluators.MonthsSinglePeriodFails | src/User.js:485-489 | a single period under the upper band with the unit "months" throws |
| Evaluators.SharedPeriodCount | src/User.js:452-485 | the period count carried over from an earlier flag turns a 30-day single period from `notMeets` into `possiblyMeets` |
| Evaluators.FirstLossOf | src/User.js:539-549 | the first entry that removes the flag, or the end of the log |
| Evaluators.FirstLoss | src/User.js:538-550 | the first (flag, entry) pair in flag-then-entry order where the flag was lost; none exactly when no flag was lost |
| Evaluators.FirstFlagLoss | src/User.js:538-552 | the nested loops compute `FirstLoss` |
| Evaluators.NotLostRule | src/User.js:510-553 | `meets` exactly when no listed flag was lost in the window; otherwise `notMeets` with a lost flag and the time of its loss |
| Evaluators.NotLostDefaultsToNow | src/User.js:511-527 | without a reference date the window ends at the present instant |
| Evaluators.FirstGap | src/User.js:562-572 | the first gap longer than the period, counting the period bounds as virtual actions |
| Evaluators.FindInactiveGap | src/User.js:562-574 | the loop computes `FirstGap` |
| Evaluators.GapVerdictRule | src/User.js:562-575 | over any actions and bounds: `meets` exactly when no gap is too long; otherwise the reported period is the earliest long gap |
| Evaluators.NotInactiveRule | src/User.js:555-575 | `meets` exactly when no gap is too long; otherwise `notMeets` (or `notEnoughRights` for a viewer who is not an administrator) with the first such gap |
| Evaluators.GapInDays | src/User.js:565 | with a unit of days, a gap is too long exactly when it exceeds n days |
| Evaluators.ActionCountRule | src/User.js:577-596 | `meets` exactly when the action count reaches the target; otherwise `notMeets` or `notEnoughRights` by the viewer's rights; the actions are sorted |
| Evaluators.BlockVerdict | src/User.js:598-636 | no verdict exactly when there is no block record; otherwise `meets` or `notMeets` |
| Evaluators.BlockRule | src/User.js:612-635 | `notMeets` exactly when the block started by the period start, lasts past its end, and is sitewide or covers the criterion's namespace (a namespace of 0 never counts) |
| Engine.UserInfo | src/User.js:125-145 | a remembered entry is returned as it is; otherwise the wiki's entry, remembered, and `missing` set exactly when that entry says so |
| Engine.UserInfoMemoises | src/User.js:126-128 | a second query returns the first one's answer and changes nothing |
| Engine.RateLimit | src/User.js:21-26 | 5000 exactly when the viewer has `apihighlimits`, else 500 |
| Engine.Builtin | src/User.js:36-39 | a name that is not a built-in throws; only `registrationDateNotLater` touches the account's memoised query |
| Engine.DispatchOrder | src/User.js:28-40 | `needsManualCheck` first, even for a missing account; then `userMissing`; then a registered handler's verdict as it is; an unknown name throws |
| Engine.MissingIsSticky | src/User.js:34-35 | within a round, a missing account stays missing and a made query stays made |
| Engine.Attach | src/User.js:41-43 | every result points back at the account and at the criterion |
| Engine.StepOne | src/User.js:20-44 | without a viewer account and no cap yet it throws; with no cap yet the cap becomes `RateLimit` of the viewer's memoised query, and a known cap is kept; the verdict and the account's new query are `Evaluation`'s under the cap in force, starting from the viewer's freshly fetched query when the viewer is the account itself on the first call, and from the account's own query otherwise; the viewer's and the account's memoised queries stay one when they are the same account |
| Engine.CheckRound | src/User.js:50 | one result per criterion, in order, each pointing at the account and its criterion |
| Engine.DirectRenameTarget | src/User.js:73-77 | the rename log's new name, when present and non-empty |
| Engine.AfterColon | src/User.js:107 | the text after the first colon, or the whole title when there is none |
| Engine.MoveRenameTarget | src/User.js:95-107 | a name exactly when the comment carries the rename marker, the moved page is in namespace 2 and the target title gives a non-empty name |
| Engine.NextNameRule | src/User.js:79-118 | the rename log wins when the votes allow it; the move log is consulted only for a missing account; a vote without a date blocks every rename |
| Engine.MoveRenameExample | src/User.js:99-107 | a marked move to "Участник:New" gives "New"; the same move outside namespace 2 gives nothing |
| Engine.RoundStep | src/User.js:49-120 | a round that throws, or that leaves the account existing with nothing failed, ends the check; a final round that succeeded has one result per criterion in order and either met that exit condition or found no rename; otherwise the check goes on under `NextName`'s name with the account's query cleared |
| Engine.CheckRuns | src/User.js:46-123 | a successful check has one result per criterion, in order, from a round after which the account exists and nothing failed, or after which no rename can be followed |
| Engine.StopsAsSoonAs | src/User.js:49-120 | with fuel left, the check stops with the first round's results as soon as that round throws or leaves the account existing with no result `notMeets` or `notEnoughRights`; otherwise it stops when no rename is found, and else goes on under the new name with the account's query cleared |
| Engine.Session.constructor | src/index.js:124 | no handlers and no cap yet; the viewer's account (none when anonymous) is the only cached account |
| Engine.Session.GetUser | src/index.js:43-54 | the cached account for a known name, a new unqueried account cached under a new name, nothing for an empty name; the cache is never re-keyed |
| Engine.Session.AddHandler | src/index.js:120-122 | the handler is registered under the name, and nothing else changes |
| Engine.User.constructor | src/User.js:6-12 | on a vote page the account remembers the name it voted under and starts with no votes |
| Engine.User.ChangeName | src/User.js:14-18 | the new name, `missing` and the memoised query cleared, the votes kept |
| Engine.User.GetUserInfo | src/User.js:125-145 | the method computes `UserInfo` on the account's state |
| Engine.User.RequestContribs | src/User.js:147-189 | the loop returns the items of `Collect` over the contribution pages |
| Engine.User.RequestDeletedContribs | src/User.js:191-237 | the loop returns the items of `Collect` over the deleted-revision pages, flattened |
| Engine.User.GatherActions | src/User.js:240-282 | the three sources pushed in order, as `UnsortedActions` |
| Engine.User.CollectActions | src/User.js:239-295 | the result is `CollectedActions`: sorted and a permutation of what was gathered |
| Engine.User.EditCountNotLess | src/User.js:300-345 | the method computes `EditCountVerdict` |
| Engine.User.RegistrationDateNotLater | src/User.js:347-380 | the method computes `RegistrationVerdict` on the memoised query, which it updates |
| Engine.User.HadFlagFor | src/User.js:407-508 | the method computes `HadFlagForVerdict` |
| Engine.User.NotLostFlagInLast | src/User.js:510-553 | the method computes `NotLostVerdict` |
| Engine.User.NotInactiveFor | src/User.js:555-575 | the method computes `NotInactiveVerdict` |
| Engine.User.ActionCountNotLess | src/User.js:577-596 | the method computes `ActionCountVerdict` |
| Engine.User.Evaluate | src/User.js:32-40 | the dispatch computes `Evaluation`, both the verdict and the account's new state |
| Engine.User.CheckOne | src/User.js:20-44 | the method computes `StepOne`, and the result points at this account |
| Engine.User.CheckEach | src/User.js:50 | the criteria one after the other compute `CheckRound` |
| Engine.User.FollowRename | src/User.js:66-118 | a rename happens exactly when `NextName` finds a name, and the account takes that name with its query cleared |
| Engine.User.Round | src/User.js:49-120 | one pass of the loop: the round and, when called for, the rename compute `RoundStep` |
| Engine.User.Check | src/User.js:46-123 | the retry loop computes `CheckRuns`: the results, the account's final name and its state |
| Index.FirstMissing | src/index.js:73-76 | the position where the loop of `summarize` stops: the first `userMissing` result |
| Index.SummaryOf | src/index.js:68-100 | throws exactly for an empty list; the summary's account is the first result's, and its results are the input |
| Index.Summarize | src/index.js:68-100 | the loop with its early exit computes `SummaryOf` (the conclusion ranks `userMissing`, then `notMeets`, then the undecided statuses, then `meets`) |
| Index.LastNotMeetsExists | src/index.js:77-79 | a failed result is named exactly when some result is `notMeets` |
| Index.LastNotMeetsPosition | src/index.js:77-79 | the failed result named is a `notMeets` one with none after it |
| Index.RawWarningsMembers | src/index.js:85-90 | a warning is collected exactly when some result contributes it |
| Index.RawWarningsCauses | src/index.js:85-90 | `notEnoughRights`, `needsManualCheck` and `0edits` are collected exactly when a result has that status or an edit count of zero |
| Index.SummaryContents | src/index.js:68-100 | no results and no warnings exactly for a missing account; otherwise the results unchanged and the warnings without repeats, each exactly when a result before the first `userMissing` causes it; the failed result is the last `notMeets` before it |
| Index.FirstFailedIsTheLast | src/index.js:73-79 | of two failed results the second is named, and a failed result stays named when a `userMissing` result follows it |
| Index.NamesToCheck | src/index.js:103-107 | a non-empty string is one name, an empty string iterates no names, a list is used as it is, and no names at all throws |
| Index.CheckAccount | src/index.js:108-111 | an empty name has no account and throws; otherwise the outcome is the cached account's check run (`CheckRuns`) from the state it had before the call (a fresh state for a new account) under the session's wiki, clock, rights and handlers, summarised by `SummaryOf` exactly when asked |
| Index.Check | src/index.js:102-118 | one outcome per name in order, each for that name's cached account and equal to what `OutcomeOf` makes of that account's `CheckRuns` from where its turn started; summarised exactly when asked; the callback gets exactly those outcomes in order; cached accounts are kept and only the checked names are added; a name met for the first time and not cached starts from a fresh account under that name with no query made; when a name throws, the cache holds the accounts of the names before it and the callback has received exactly their outcomes |
| Index.OtherThanMeetsRule | src/util.js:137 | false exactly for a summary whose conclusion is `meets`; a criterion's own result always passes, even a met one |
| Index.OtherThanMeetsOfSummary | src/util.js:137 | on a summary it is false exactly when every result met its criterion |

## Left out

- `Promise.all` in `check`: the model evaluates the criteria one after the other, each reading the account state the previous one left. The first criterion that throws ends the round. The interleaving of concurrent requests is not modelled.
- Calls to the query API are inputs (the `Wiki` value). Page contents do not depend on the limit a request sends. The model records the limits it sends but does not use them to choose the page.
- The loops of `hadFlagFor` and `notLostFlagInLast` never send `lecontinue`. A first response with entries and a continuation token would be fetched again forever, so the model ends there with a `NoTermination` error.
- `check` (User) has no bound on its rounds. The model takes `fuel` and returns `OutOfFuel` when it runs out. Chains of renames longer than the fuel are not modelled.
- The account cache is a JavaScript array used as a dictionary. Names that collide with members of `Array`, `Object` or `User` (`length`, `check`, `name`, …) are not modelled: the cache and the dispatch are string-keyed maps.
- A handler registered with `addHandler` runs as a method of `User`. The model passes it the account's name and the criterion's options, so a handler that mutates the account or the engine is not modelled.
- Unparseable dates: a date string is taken to parse to an instant (`DateText` carries the parsed instant). A string that JavaScript's `Date` cannot parse gives an Invalid Date, on which every comparison is false and `toISOString` throws a RangeError (src/User.js:168-169, 390-391, 526-527); that case is not modelled.
- Floating point: the margin, the factor 1.2 and `Math.round` are exact rational arithmetic.
- date-fns works in the browser's local time; the model's calendar is UTC.
- Options arrive as numbers and booleans. JavaScript's coercion of numeric strings (`Boolean(Number(…))`) is not modelled.
- `console.info` diagnostics, `createMessage`, `extractCriteria`, icon preloading, the loader bootstrap, `getLastMatch`, `filterUserLinks` and `getUserNameFromLink`: these are DOM or regular-expression-engine code, outside the engine.
- The applications that fill in votes and criteria (admin and arbcom pages) and webpack.config.js are not part of this model. `votes` is a field that the vote-page application fills.
- The reference to `addDays` at util.js:5 is read when the module loads, before any call. The model assumes the module loads and leaves that entry out; the entry is used nowhere else.
- `Date.now()` is the engine's `now` parameter. `isCurrentUserSysop` and the viewer's name are constructor parameters.

## Findings

| source | as written | input that shows it | evidently intended | confidence | as-written member | corrected member |
|---|---|---|---|---|---|---|
| src/util.js:24 | `addDays` is used at lines 5 and 24, but line 1 imports only `subSeconds`, `subDays`, `subMonths` and `subYears`. Reading `addDays` throws a ReferenceError. The model takes the module as loaded and shows the failure at line 24 | `prepareDate("2019-03-31", true)`, a date-only period end, as the vote pages give it | the last second of 31 March 2019 | not executed | Util.PrepareDate, Util.DateOnlyPeriodEndThrows | Util.PrepareDateIntended, Util.PrepareDateAgreesWhereDefined |
