/** The helpers of the script's utility object: date normalisation and
    calendar subtraction, the two date-string helpers, Russian plural
    selection, order-preserving de-duplication, the two entry filters and
    the page-size optimiser. */
module Util {
  import opened Values
  import opened Calendar
  import opened Wiki

  // ---------------------------------------------------------------------
  // Dates handed to the evaluators

  /** A date option of a criterion: absent, a `Date` object, or a string.
      For a string, `parsed` is the instant the host's `Date` constructor
      gives for it: for a date-time string (one containing ':') the string
      with 'Z' appended, for a date-only string the string itself, which
      `Date` reads as midnight UTC. */
  datatype DateArg = NoDate | DateValue(instant: int) | DateText(text: string, parsed: int)

  /** JavaScript truthiness of a date option: `undefined` and '' are falsy. */
  predicate Truthy(d: DateArg)
  {
    !(d.NoDate? || (d.DateText? && d.text == ""))
  }

  /** A non-empty string without ':' (only a calendar date). */
  predicate IsDateOnly(d: DateArg)
  {
    d.DateText? && d.text != "" && ':' !in d.text
  }

  function InstantOf(d: DateArg): int
    requires !d.NoDate?
  {
    if d.DateValue? then d.instant else d.parsed
  }

  /** `prepareDate` as written. A period end loses one second, so that an
      inclusive bound becomes the last second before it. For a date-only
      period end the source first calls `addDays`, a name the module never
      imports, so that branch raises a ReferenceError. */
  function PrepareDate(date: DateArg, isPeriodEnd: bool): (r: Result<Option<int>>)
    ensures !Truthy(date) <==> r == Ok(None)
    ensures r.Err? <==> isPeriodEnd && IsDateOnly(date)
    ensures r.Err? ==> r.failure == ReferenceError
    ensures r.Ok? && r.value.Some? ==>
      r.value.value == InstantOf(date) - (if isPeriodEnd then SecondMs else 0)
  {
    if !Truthy(date) then Ok(None)
    else if isPeriodEnd && IsDateOnly(date) then Err(ReferenceError)
    else Ok(Some(if isPeriodEnd then SubSeconds(InstantOf(date), 1) else InstantOf(date)))
  }

  /** `prepareDate` with `addDays` resolved to date-fns' function: a
      date-only period end moves to the next midnight first, so the result is
      the last second of the given day. */
  function PrepareDateIntended(date: DateArg, isPeriodEnd: bool): (r: Result<Option<int>>)
    ensures r.Ok?
    ensures !Truthy(date) <==> r.value.None?
    ensures isPeriodEnd && IsDateOnly(date) ==>
      r.value.Some? && date.parsed < r.value.value < date.parsed + DayMs &&
      r.value.value + SecondMs == date.parsed + DayMs
  {
    if !Truthy(date) then Ok(None)
    else if isPeriodEnd && IsDateOnly(date) then Ok(Some(SubSeconds(SubDays(date.parsed, -1), 1)))
    else Ok(Some(if isPeriodEnd then SubSeconds(InstantOf(date), 1) else InstantOf(date)))
  }

  /** The two definitions differ only where the as-written one throws. */
  lemma PrepareDateAgreesWhereDefined(date: DateArg, isPeriodEnd: bool)
    ensures PrepareDate(date, isPeriodEnd).Ok? ==>
      PrepareDate(date, isPeriodEnd) == PrepareDateIntended(date, isPeriodEnd)
    ensures PrepareDate(date, isPeriodEnd).Err? <==> isPeriodEnd && IsDateOnly(date)
  {
  }

  /** The input that shows the missing import: the end of the day "2019-03-31". */
  lemma DateOnlyPeriodEndThrows(midnight: int)
    ensures PrepareDate(DateText("2019-03-31", midnight), true) == Err(ReferenceError)
    ensures PrepareDateIntended(DateText("2019-03-31", midnight), true) == Ok(Some(midnight + DayMs - SecondMs))
  {
    assert IsDateOnly(DateText("2019-03-31", midnight)) by {
      assert forall k | 0 <= k < 10 :: "2019-03-31"[k] != ':';
    }
  }

  // ---------------------------------------------------------------------
  // Calendar subtraction by unit name

  datatype TimeUnit = Days | Months | Years

  /** The closure `createSubFunc` returns: subtract `amount` units. */
  datatype Shift = Shift(amount: int, unit: TimeUnit)

  function ApplyShift(s: Shift, t: int): int
  {
    match s.unit
    case Days => SubDays(t, s.amount)
    case Months => SubMonths(t, s.amount)
    case Years => SubYears(t, s.amount)
  }

  /** Applying the closure to an undefined date gives an invalid date. */
  function ApplyShiftOpt(s: Shift, t: Option<int>): (r: Option<int>)
    ensures r.Some? <==> t.Some?
  {
    if t.Some? then Some(ApplyShift(s, t.value)) else None
  }

  /** `createSubFunc`: the unit names it accepts, as its switch lists them
      ('days' twice, 'months' never). Any other name gives `undefined`. */
  function CreateSubFunc(value: int, unit: string): (r: Option<Shift>)
    ensures r.Some? <==> unit in ["day", "days", "month", "year", "years"]
    ensures r.Some? ==> r.value.amount == value
    ensures r.Some? ==> (r.value.unit == Days <==> unit == "day" || unit == "days")
    ensures r.Some? ==> (r.value.unit == Months <==> unit == "month")
  {
    if unit == "day" || unit == "days" then Some(Shift(value, Days))
    else if unit == "month" then Some(Shift(value, Months))
    else if unit == "year" || unit == "years" then Some(Shift(value, Years))
    else None
  }

  lemma MonthsIsNotAUnit(value: int)
    ensures CreateSubFunc(value, "months") == None
    ensures CreateSubFunc(value, "month") == Some(Shift(value, Months))
  {
  }

  // ---------------------------------------------------------------------
  // Date strings

  predicate IsDigit(c: char)
  {
    '0' <= c <= '9'
  }

  /** `s[i..i+10]` has the shape dd-mm-yyyy. */
  predicate DateAt(s: string, i: int)
  {
    0 <= i && i + 10 <= |s| &&
    IsDigit(s[i]) && IsDigit(s[i + 1]) && s[i + 2] == '-' &&
    IsDigit(s[i + 3]) && IsDigit(s[i + 4]) && s[i + 5] == '-' &&
    IsDigit(s[i + 6]) && IsDigit(s[i + 7]) && IsDigit(s[i + 8]) && IsDigit(s[i + 9])
  }

  /** A ten-character yyyy-mm-dd string. */
  predicate IsoDateShape(s: string)
  {
    |s| == 10 &&
    IsDigit(s[0]) && IsDigit(s[1]) && IsDigit(s[2]) && IsDigit(s[3]) && s[4] == '-' &&
    IsDigit(s[5]) && IsDigit(s[6]) && s[7] == '-' && IsDigit(s[8]) && IsDigit(s[9])
  }

  /** Where a regular-expression search from `i` finds dd-mm-yyyy first. */
  function FirstDateFrom(s: string, i: nat): (k: Option<nat>)
    decreases |s| - i
    ensures k.Some? ==> i <= k.value && DateAt(s, k.value)
    ensures k.Some? ==> forall j | i <= j < k.value :: !DateAt(s, j)
    ensures k.None? ==> forall j | i <= j :: !DateAt(s, j)
  {
    if i + 10 > |s| then None
    else if DateAt(s, i) then Some(i)
    else FirstDateFrom(s, i + 1)
  }

  /** `ddmmyyyyToYyyymmdd`: the first dd-mm-yyyy in `s` rewritten as
      yyyy-mm-dd, or null when there is none. */
  function DdmmyyyyToYyyymmdd(s: string): (r: Option<string>)
    ensures r.None? <==> forall j :: !DateAt(s, j)
    ensures r.Some? ==> IsoDateShape(r.value)
    ensures r.Some? ==> exists k :: (DateAt(s, k) && (forall j | 0 <= j < k :: !DateAt(s, j)) &&
      r.value[..4] == s[k + 6..k + 10] && r.value[5..7] == s[k + 3..k + 5] && r.value[8..] == s[k..k + 2])
  {
    match FirstDateFrom(s, 0)
    case None => None
    case Some(k) => Some(s[k + 6..k + 10] + "-" + s[k + 3..k + 5] + "-" + s[k..k + 2])
  }

  const MonthNames: seq<string> := ["января", "февраля", "марта", "апреля", "мая", "июня", "июля",
    "августа", "сентября", "октября", "ноября", "декабря"]

  /** `Array.prototype.indexOf`. */
  function IndexOf<T(==)>(s: seq<T>, x: T): (k: int)
    ensures -1 <= k < |s|
    ensures k == -1 <==> x !in s
    ensures k >= 0 ==> s[k] == x && x !in s[..k]
  {
    if s == [] then -1
    else if s[0] == x then 0
    else
      var k := IndexOf(s[1..], x);
      assert k >= 0 ==> s[1..][..k] == s[1..k + 1];
      if k == -1 then -1 else k + 1
  }

  /** `getMonthNumber`: the number of a month named in the genitive case. */
  function GetMonthNumber(name: string): (r: Option<int>)
    ensures r.None? <==> name !in MonthNames
    ensures r.Some? ==> 1 <= r.value <= 12 && MonthNames[r.value - 1] == name
  {
    var k := IndexOf(MonthNames, name) + 1;
    if k == 0 then None else Some(k)
  }

  /** Length, first and third letter tell the twelve names apart. */
  function MonthKey(name: string): (int, char, char)
  {
    if |name| < 3 then (|name|, ' ', ' ') else (|name|, name[0], name[2])
  }

  /** No two of the twelve names are the same. */
  lemma MonthNamesDistinct(m: int, k: int)
    requires 0 <= m < 12 && 0 <= k < 12 && MonthNames[m] == MonthNames[k]
    ensures m == k
  {
    assert MonthKey(MonthNames[m]) == MonthKey(MonthNames[k]);
  }

  /** The twelve names are distinct, so each maps to its own position. */
  lemma MonthNumbersInOrder(k: int)
    requires 0 <= k < 12
    ensures GetMonthNumber(MonthNames[k]) == Some(k + 1)
  {
    var m := IndexOf(MonthNames, MonthNames[k]);
    assert MonthNames[k] in MonthNames;
    MonthNamesDistinct(m, k);
  }

  // ---------------------------------------------------------------------
  // Plural

  /** JavaScript's `%` on integers: the remainder takes the dividend's sign. */
  function JsRem(a: int, b: int): (r: int)
    requires b > 0
    ensures a >= 0 ==> r == a % b
    ensures -b < r < b && (r < 0 ==> a < 0)
  {
    if a >= 0 then a % b else -((-a) % b)
  }

  /** `plural`: the Russian noun form for `count`. The source indexes
      `[five, one, two, two, two, five]` with `min(count % 10, 5)`; a negative
      count that is not a multiple of ten indexes below zero and yields
      `undefined` (None here). */
  function Plural<T>(count: int, one: T, two: T, five: T): (r: Option<T>)
    ensures count >= 0 ==> r.Some?
    ensures r.Some? ==> r.value == one || r.value == two || r.value == five
  {
    var h := JsRem(count, 100);
    if 4 < h < 20 then Some(five)
    else
      var i := if JsRem(count, 10) < 5 then JsRem(count, 10) else 5;
      if i < 0 then None else Some([five, one, two, two, two, five][i])
  }

  /** Russian agreement: 1, 21, 101 take `one`; 2-4, 22-24 take `two`; 0,
      5-20, 25-30, 111-114 take `five`. */
  lemma PluralRule<T>(count: int, one: T, two: T, five: T)
    requires count >= 0
    ensures Plural(count, one, two, five) == Some(
      if 5 <= count % 100 <= 19 then five
      else if count % 10 == 1 then one
      else if 2 <= count % 10 <= 4 then two
      else five)
  {
  }

  /** The form depends only on the last two digits. */
  lemma PluralPeriodic<T>(count: int, one: T, two: T, five: T)
    requires count >= 0
    ensures Plural(count + 100, one, two, five) == Plural(count, one, two, five)
  {
    assert JsRem(count + 100, 100) == JsRem(count, 100);
    assert JsRem(count + 100, 10) == JsRem(count, 10);
  }

  // ---------------------------------------------------------------------
  // De-duplication

  predicate NoDuplicates<T(==)>(s: seq<T>)
  {
    forall i, j | 0 <= i < j < |s| :: s[i] != s[j]
  }

  /** `removeDuplicates`: `[...new Set(array)]`, each value once, where it
      first occurs. */
  function RemoveDuplicates<T(==)>(s: seq<T>): (r: seq<T>)
    ensures NoDuplicates(r)
    ensures forall i | 0 <= i < |r| :: r[i] in s
    ensures forall i | 0 <= i < |s| :: s[i] in r
  {
    if s == [] then []
    else
      var r := RemoveDuplicates(s[..|s| - 1]);
      assert forall i | 0 <= i < |s| - 1 :: s[i] == s[..|s| - 1][i];
      if s[|s| - 1] in r then r else r + [s[|s| - 1]]
  }

  /** The values of `r` appear in the order of their first occurrence in `s`. */
  lemma {:induction false} RemoveDuplicatesKeepsFirstOccurrenceOrder<T>(s: seq<T>)
    ensures forall i, j | 0 <= i < j < |RemoveDuplicates(s)| ::
      IndexOf(s, RemoveDuplicates(s)[i]) < IndexOf(s, RemoveDuplicates(s)[j])
  {
    if s != [] {
      var s' := s[..|s| - 1];
      var x := s[|s| - 1];
      RemoveDuplicatesKeepsFirstOccurrenceOrder(s');
      var r' := RemoveDuplicates(s');
      forall y | y in s'
        ensures IndexOf(s, y) == IndexOf(s', y)
      {
        FirstIndexOfPrefix(s, s', y);
      }
      if x !in r' {
        assert x !in s';
        assert IndexOf(s, x) == |s| - 1 by {
          assert s[..|s| - 1] == s';
        }
      }
    }
  }

  lemma FirstIndexOfPrefix<T>(s: seq<T>, p: seq<T>, y: T)
    requires p <= s && y in p
    ensures IndexOf(s, y) == IndexOf(p, y)
  {
    var k, k' := IndexOf(s, y), IndexOf(p, y);
    assert s[..k'] == p[..k'];
  }

  /** A list without repeats is returned unchanged. */
  lemma {:induction false} RemoveDuplicatesOfDistinct<T>(s: seq<T>)
    requires NoDuplicates(s)
    ensures RemoveDuplicates(s) == s
  {
    if s != [] {
      var s' := s[..|s| - 1];
      RemoveDuplicatesOfDistinct(s');
      assert s[|s| - 1] !in s';
      assert s' + [s[|s| - 1]] == s;
    }
  }

  /** Applying `removeDuplicates` twice changes nothing. */
  lemma RemoveDuplicatesIdempotent<T>(s: seq<T>)
    ensures RemoveDuplicates(RemoveDuplicates(s)) == RemoveDuplicates(s)
  {
    RemoveDuplicatesOfDistinct(RemoveDuplicates(s));
  }

  // ---------------------------------------------------------------------
  // Entry filters

  const AdminRequestPrefix := "Википедия:Заявки на статус администратора/"
  const ConfirmationPrefix := "Википедия:Конфирмации/"
  const ArbcomElectionPrefix := "Википедия:Выборы арбитров/"

  /** `isntVotePage`: false for pages of admin requests (the bureaucrat test
      of the source repeats the admin one), confirmations and arbitration
      committee elections, except the listed template and style pages. */
  predicate IsntVotePage(title: string)
  {
    var isAdminElection := AdminRequestPrefix <= title &&
      title != AdminRequestPrefix + "Шаблон" &&
      title != AdminRequestPrefix + "Шаблон требований к голосующим" &&
      title != AdminRequestPrefix + "styles.css";
    var isBureaucratElection := AdminRequestPrefix <= title &&
      title != AdminRequestPrefix + "Шаблон" &&
      title != AdminRequestPrefix + "Шаблон требований к голосующим" &&
      title != AdminRequestPrefix + "styles.css";
    var isConfirmation := ConfirmationPrefix <= title && title != ConfirmationPrefix + "Шаблон";
    var isArbcomElection := ArbcomElectionPrefix <= title;
    !(isAdminElection || isBureaucratElection || isConfirmation || isArbcomElection)
  }

  const VotePagePrefixes: seq<string> := [AdminRequestPrefix, ConfirmationPrefix, ArbcomElectionPrefix]
  const NonVotePages: set<string> := {
    AdminRequestPrefix + "Шаблон",
    AdminRequestPrefix + "Шаблон требований к голосующим",
    AdminRequestPrefix + "styles.css",
    ConfirmationPrefix + "Шаблон" }

  /** A title is a vote page exactly when it lies under one of the three
      prefixes and is not one of the four service pages. */
  lemma VotePageIff(title: string)
    ensures !IsntVotePage(title) <==>
      (exists k | 0 <= k < |VotePagePrefixes| :: VotePagePrefixes[k] <= title) && title !in NonVotePages
  {
    var a, c, e := AdminRequestPrefix, ConfirmationPrefix, ArbcomElectionPrefix;
    assert VotePagePrefixes == [a, c, e];
    assert a[10] == 'З' && c[10] == 'К' && e[10] == 'В';
    assert a <= title ==> title[10] == 'З';
    assert c <= title ==> title[10] == 'К';
    assert e <= title ==> title[10] == 'В';
    assert forall x :: (a + x)[10] == 'З' && (c + x)[10] == 'К';
    if a <= title {
      assert VotePagePrefixes[0] <= title;
    } else if c <= title {
      assert VotePagePrefixes[1] <= title;
    } else if e <= title {
      assert VotePagePrefixes[2] <= title;
    }
  }

  const NotCountedActions: seq<string> := ["approve-a", "approve-ia", "approve2-a", "approve2-ia",
    "autopatrol", "autopromote", "delete_redir", "hit", "move", "move_prot", "move_redir",
    "renameuser", "thank"]

  /** `isntAutomaticAction`: log events that count as the user's own actions. */
  predicate IsntAutomaticAction(e: LogEvent)
  {
    !(e.action in NotCountedActions || (e.kind == "create" && e.action == "create") || e.kind == "newusers")
  }

  /** Thirteen distinct actions are never counted, whatever their type; page
      creations and account creations are not counted either. */
  lemma AutomaticActions(e: LogEvent)
    ensures |set a | a in NotCountedActions| == 13
    ensures (e.action in {"approve-a", "approve-ia", "approve2-a", "approve2-ia", "autopatrol",
                          "autopromote", "delete_redir", "hit", "move", "move_prot", "move_redir",
                          "renameuser", "thank"}) ==> !IsntAutomaticAction(e)
    ensures e.kind == "newusers" ==> !IsntAutomaticAction(e)
    ensures e.kind == "create" && e.action == "create" ==> !IsntAutomaticAction(e)
    ensures (e.kind in {"create", "delete"} && e.action !in NotCountedActions &&
             !(e.kind == "create" && e.action == "create")) ==> IsntAutomaticAction(e)
    ensures e.kind == "create" && e.action == "" ==> IsntAutomaticAction(e)
    ensures e.kind == "delete" && e.action == "delete" ==> IsntAutomaticAction(e)
  {
    assert NoDuplicates(NotCountedActions) by {
      forall i, j | 0 <= i < j < 13 ensures NotCountedActions[i] != NotCountedActions[j] {
        assert NotCountedActions[i][..1] != NotCountedActions[j][..1] ||
          NotCountedActions[i][1..] != NotCountedActions[j][1..];
      }
    }
    DistinctCardinality(NotCountedActions);
  }

  lemma {:induction false} DistinctCardinality<T>(s: seq<T>)
    requires NoDuplicates(s)
    ensures |set x | x in s| == |s|
  {
    if s != [] {
      var s' := s[1..];
      DistinctCardinality(s');
      assert (set x | x in s) == {s[0]} + (set x | x in s');
      assert s[0] !in (set x | x in s');
    }
  }

  // ---------------------------------------------------------------------
  // Page size

  /** `calcOptimalLimit`: the requested page size when vote pages will be
      filtered out, `Math.round(Math.max(n, 200) * 1.2)` in exact arithmetic
      (`Math.round` rounds halves up). */
  function CalcOptimalLimit(n: int): (r: int)
    ensures r >= 240
    ensures r >= n
    ensures var m := if n > 200 then n else 200; 10 * r <= 12 * m + 5 < 10 * r + 10
  {
    var m := if n > 200 then n else 200;
    (12 * m + 5) / 10
  }

  lemma CalcOptimalLimitMonotone(n1: int, n2: int)
    requires n1 <= n2
    ensures CalcOptimalLimit(n1) <= CalcOptimalLimit(n2)
  {
  }
}
