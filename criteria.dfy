/** Criteria as the page markup describes them, and what evaluating one
    yields. */
module Criteria {
  import opened Values
  import opened Util
  import opened Calendar
  import opened Evidence

  /** The options of a criterion (every data attribute but its name and its
      text). `config.value` is read as a number by most evaluators and as a
      date by `registrationDateNotLater`; `count` and `valueDate` are those
      two readings. A missing string option is the empty string, a missing
      date is `NoDate`. */
  datatype Config = Config(
    count: int,
    valueDate: DateArg,
    unit: string,
    margin: Option<real>,
    meaningful: bool,
    deleted: Option<bool>,
    filterVotes: bool,
    ns: Option<int>,
    periodStart: DateArg,
    periodEnd: DateArg,
    start: DateArg,
    end: DateArg,
    startValue: DateArg,
    endValue: DateArg,
    referenceDate: DateArg,
    flags: Option<seq<string>>,
    flag: Option<string>)

  /** A criterion: the evaluator's name, the human-readable text, whether it
      can only be checked by hand, and the options its evaluator receives. */
  datatype Criterion = Criterion(name: string, text: string, needsManualCheck: bool, config: Config)

  datatype Status = Meets | NotMeets | PossiblyMeets | NotEnoughRights | NeedsManualCheck | UserMissing

  /** The fields an evaluator adds to its result besides `result`. */
  datatype Details =
    | NoDetails
    | EditCount(count: nat, edits: Option<seq<Action>>)
    | Registration(registrationDate: Option<int>, overallEditCount: Option<int>)
    | FlagPeriod(flag: string, period: int)
    | LostFlag(flag: string, lostFlagTimestamp: int)
    | InactivePeriod(inactivePeriodStart: Option<int>, inactivePeriodEnd: Option<int>)
    | ActionCount(actionCount: nat, actions: seq<Action>)

  /** What an evaluator returns. */
  datatype Verdict = Verdict(status: Status, details: Details)

  /** `Math.round`: the nearest integer, halves rounded up. */
  function Round(x: real): (r: int)
    ensures r as real - 0.5 <= x < r as real + 0.5
  {
    (x + 0.5).Floor
  }

  /** The margin of `editCountNotLess`: as given, else one half for a
      "meaningful edits" criterion, else none. */
  function Margin(c: Config): real
  {
    if c.margin.Some? then c.margin.value else if c.meaningful then 0.5 else 0.0
  }

  /** The edit count that is certain to satisfy the criterion once
      insignificant edits are allowed for. */
  function SafeValue(c: Config): (r: int)
    ensures c.count >= 0 && Margin(c) >= 0.0 ==> r >= c.count
  {
    Round(c.count as real * (1.0 + Margin(c)))
  }

  /** With no margin given, a "meaningful" criterion of 300 edits asks for
      450 before it is certain. */
  lemma MeaningfulEditsMargin(c: Config)
    requires c.count == 300 && c.meaningful && c.margin.None?
    ensures SafeValue(c) == 450
  {
    assert 300 as real * (1.0 + 0.5) == 450.0;
  }

  /** The flag list of `hadFlagFor` and `notLostFlagInLast`: `flags`, else
      the single `flag`. An empty `flag` is iterated as an empty string,
      which has no elements; no flag at all is `undefined`, which cannot be
      iterated. */
  function ResolveFlags(c: Config): (r: Option<seq<string>>)
    ensures c.flags.Some? ==> r == c.flags
    ensures r.None? <==> c.flags.None? && c.flag.None?
    ensures c.flags.None? && c.flag.Some? && c.flag.value != "" ==> r == Some([c.flag.value])
  {
    if c.flags.Some? then c.flags
    else if c.flag.None? then None
    else if c.flag.value == "" then Some([])
    else Some([c.flag.value])
  }

  /** The shortest and the longest a unit can be, in milliseconds, as
      `hadFlagFor` bounds a sum of periods; `None` for a unit it does not know
      (the bounds are then NaN and no comparison with them holds). */
  function Band(unit: string): (b: Option<(int, int)>)
    ensures b.Some? <==> unit in ["year", "years", "month", "months", "day", "days"]
    ensures b.Some? ==> 0 < b.value.0 <= b.value.1
    ensures b.Some? ==> b.value.1 - b.value.0 <= 3 * DayMs
  {
    if unit == "year" || unit == "years" then Some((365 * DayMs, 366 * DayMs))
    else if unit == "month" || unit == "months" then Some((28 * DayMs, 31 * DayMs))
    else if unit == "day" || unit == "days" then Some((DayMs, DayMs))
    else None
  }

  /** 'months' has a band but no calendar subtraction. */
  lemma MonthsHasBandButNoSubtraction(value: int)
    ensures Band("months").Some? && CreateSubFunc(value, "months").None?
    ensures forall u | u in ["year", "years", "month", "day", "days"] ::
      Band(u).Some? && CreateSubFunc(value, u).Some?
  {
  }
}
