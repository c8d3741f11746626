/** The built-in criterion evaluators of `User`, each as a specification
    function of the wiki's answers and the criterion's options, with the loop
    methods the source runs inside them proved against those functions. */
module Evaluators {
  import opened Values
  import opened Calendar
  import opened Wiki
  import opened Util
  import opened Evidence
  import opened Criteria

  /** `prepareDate` as the engine uses it (see `PrepareDateIntended`). */
  function Prepared(d: DateArg, isPeriodEnd: bool): Option<int>
  {
    PrepareDateIntended(d, isPeriodEnd).value
  }

  /** The window `periodStart` .. `periodEnd` of a criterion. */
  function Period(c: Config): Window
  {
    Window(Prepared(c.periodStart, false), Prepared(c.periodEnd, true))
  }

  function QueryOf(c: Config): Query
  {
    Query(c.ns, Period(c), c.filterVotes, c.deleted)
  }

  /** The result of a criterion the viewer could not fully check without
      administrator rights. */
  function Unproven(isSysop: bool): Status
  {
    if isSysop then NotMeets else NotEnoughRights
  }

  // ---------------------------------------------------------------------
  // editCountNotLess

  /** `deleted` read as `Boolean(Number(config.deleted))`. */
  function CountsDeleted(c: Config): bool
  {
    c.deleted == Some(true)
  }

  /** The edits `editCountNotLess` counts: the contributions, and when they
      fall short, deleted edits counted too and the viewer an administrator,
      the deleted revisions up to what is missing. */
  function CountedEdits(env: Env, c: Config): seq<Action>
  {
    var safe := SafeValue(c);
    var edits := Contribs(env, QueryOf(c), safe).items;
    if |edits| < safe && CountsDeleted(c) && env.isSysop then
      EditActions(edits) + DeletedActions(DeletedContribs(env, QueryOf(c), safe - |edits|).items)
    else EditActions(edits)
  }

  function EditCountVerdict(env: Env, c: Config): Verdict
  {
    var safe := SafeValue(c);
    var edits := Contribs(env, QueryOf(c), safe).items;
    if |edits| >= safe then Verdict(Meets, EditCount(|edits|, None))
    else
      var counted := CountedEdits(env, c);
      var status :=
        if |counted| >= safe then Meets
        else if |counted| >= c.count then (if !CountsDeleted(c) || env.isSysop then PossiblyMeets else NotEnoughRights)
        else if !CountsDeleted(c) || env.isSysop then NotMeets
        else NotEnoughRights;
      Verdict(status, EditCount(|counted|, Some(counted)))
  }

  /** The count decides: `meets` exactly from the safe value on; between the
      plain value and the safe value `possiblyMeets`; below both `notMeets`;
      and `notEnoughRights` instead of the last two when deleted edits count
      but the viewer cannot see them. */
  lemma EditCountNotLessRule(env: Env, c: Config)
    ensures var v := EditCountVerdict(env, c);
      v.details.EditCount? && v.details.count == |CountedEdits(env, c)| &&
      (v.status == Meets <==> v.details.count >= SafeValue(c)) &&
      (c.count <= v.details.count < SafeValue(c) ==>
        v.status == (if CountsDeleted(c) && !env.isSysop then NotEnoughRights else PossiblyMeets)) &&
      (v.details.count < c.count && v.details.count < SafeValue(c) ==>
        v.status == (if CountsDeleted(c) && !env.isSysop then NotEnoughRights else NotMeets))
  {
  }

  /** Deleted revisions are requested only when the visible contributions
      fall short and the viewer may see them. */
  lemma DeletedEditsOnlyWhenShort(env: Env, c: Config)
    ensures !(CountsDeleted(c) && env.isSysop) ==>
      CountedEdits(env, c) == EditActions(Contribs(env, QueryOf(c), SafeValue(c)).items)
    ensures |Contribs(env, QueryOf(c), SafeValue(c)).items| >= SafeValue(c) ==>
      EditCountVerdict(env, c).status == Meets
  {
  }

  // ---------------------------------------------------------------------
  // registrationDateNotLater

  /** The registration date the verdict uses: the recorded one, or for an
      account registered before registration dates were recorded, the date
      of its first edit. */
  function RegistrationDate(entry: Option<UserEntry>, firstEdit: Option<int>): Option<int>
  {
    if entry.Some? && entry.value.registration.None? then firstEdit
    else if entry.Some? then entry.value.registration
    else None
  }

  /** `registrationDateNotLater` once the account's entry is known and
      `missing` has been updated from it. */
  function RegistrationVerdict(missing: bool, entry: Option<UserEntry>, firstEdit: Option<int>, latest: Option<int>): (v: Verdict)
    ensures v.status == Meets <==> !missing && LeOpt(RegistrationDate(entry, firstEdit), latest)
    ensures missing <==> v.status == UserMissing
    ensures !missing ==> v.details == Registration(RegistrationDate(entry, firstEdit), if entry.Some? then entry.value.editcount else None)
  {
    if missing then Verdict(UserMissing, NoDetails)
    else
      var date := RegistrationDate(entry, firstEdit);
      Verdict(if LeOpt(date, latest) then Meets else NotMeets,
        Registration(date, if entry.Some? then entry.value.editcount else None))
  }

  // ---------------------------------------------------------------------
  // editsBetweenDates

  /** `a || b || c` on three date options. */
  function FirstTruthy(a: DateArg, b: DateArg, c: DateArg): DateArg
  {
    if Truthy(a) then a else if Truthy(b) then b else c
  }

  /** The window of `editsBetweenDates`: each bound under the first of its
      three names that is given, prepared as `prepareDate` does. */
  function EditsWindow(c: Config): Window
  {
    Window(Prepared(FirstTruthy(c.periodStart, c.start, c.startValue), false),
           Prepared(FirstTruthy(c.periodEnd, c.end, c.endValue), true))
  }

  /** The first page of the account's contributions in the window lists at
      least one edit. */
  predicate EditedIn(env: Env, w: Window)
  {
    var first := Response(env.wiki.contribs(env.name, None, w), 0);
    first.entries.Some? && |first.entries.value| > 0
  }

  /** `editsBetweenDates`: met when the window holds at least one
      contribution. A bound given under none of its three names leaves the
      date undefined, and `toISOString` on it throws. */
  function EditsBetweenVerdict(env: Env, c: Config): (r: Result<Verdict>)
    ensures r.Err? <==> !Truthy(FirstTruthy(c.periodStart, c.start, c.startValue)) ||
                        !Truthy(FirstTruthy(c.periodEnd, c.end, c.endValue))
    ensures r.Err? ==> r.failure == TypeError
    ensures r.Ok? ==> r.value.status in {Meets, NotMeets}
    ensures r.Ok? ==> (r.value.status == Meets <==> EditedIn(env, EditsWindow(c)))
  {
    var ps := Prepared(FirstTruthy(c.periodStart, c.start, c.startValue), false);
    var pe := Prepared(FirstTruthy(c.periodEnd, c.end, c.endValue), true);
    if ps.None? || pe.None? then Err(TypeError)
    else
      var first := Response(env.wiki.contribs(env.name, None, Window(ps, pe)), 0);
      Ok(Verdict(if first.entries.Some? && |first.entries.value| > 0 then Meets else NotMeets, NoDetails))
  }

  // ---------------------------------------------------------------------
  // The rights log

  /** The rights-log loop of `hadFlagFor` and `notLostFlagInLast`. It never
      sends the continuation token back, so a response that carries one is
      requested again and again, forever. */
  function RightsEntries(env: Env, w: Window): (r: Result<seq<RightsEntry>>)
    ensures r.Err? <==> env.wiki.rightsLog(env.name, w).entries.Some? && env.wiki.rightsLog(env.name, w).more
    ensures r.Err? ==> r.failure == NoTermination
  {
    var p := env.wiki.rightsLog(env.name, w);
    if p.entries.None? then Ok([])
    else if p.more then Err(NoTermination)
    else Ok(p.entries.value)
  }

  /** The entry gives the account the group. */
  predicate Grants(e: RightsEntry, flag: string)
  {
    e.newgroups.Some? && flag in e.newgroups.value
  }

  /** The entry lists the new groups, and the group is not among them. */
  predicate Revokes(e: RightsEntry, flag: string)
  {
    e.newgroups.Some? && flag !in e.newgroups.value
  }

  /** The first entry from `i` on that revokes the group, or `|es|`. */
  function NextRevocation(es: seq<RightsEntry>, flag: string, i: nat): (j: nat)
    requires i <= |es|
    decreases |es| - i
    ensures i <= j <= |es|
    ensures j < |es| ==> Revokes(es[j], flag)
    ensures forall m | i <= m < j :: !Revokes(es[m], flag)
  {
    if i == |es| || Revokes(es[i], flag) then i else NextRevocation(es, flag, i + 1)
  }

  /** A period of holding the group: the granting entry and the revoking
      one (`|es|` when it is still held). */
  datatype Span = Span(grant: nat, revocation: nat)

  predicate ValidSpan(es: seq<RightsEntry>, flag: string, s: Span)
  {
    s.grant < s.revocation <= |es| && Grants(es[s.grant], flag) &&
    (s.revocation < |es| ==> Revokes(es[s.revocation], flag)) &&
    forall m | s.grant < m < s.revocation :: !Revokes(es[m], flag)
  }

  /** The periods `hadFlagFor` finds from entry `i` on: each granting entry
      is paired with the next entry that revokes the group, and the scan
      resumes after that entry. */
  function GrantSpans(es: seq<RightsEntry>, flag: string, i: nat): (r: seq<Span>)
    decreases |es| - i
    ensures forall k | 0 <= k < |r| :: i <= r[k].grant && ValidSpan(es, flag, r[k])
    ensures forall k | 0 <= k < |r| - 1 :: r[k].revocation < r[k + 1].grant
  {
    if i >= |es| then []
    else if Grants(es[i], flag) then
      var j := NextRevocation(es, flag, i + 1);
      [Span(i, j)] + GrantSpans(es, flag, j + 1)
    else GrantSpans(es, flag, i + 1)
  }

  /** Entry `m` lies in one of the periods, from its grant up to (not
      including) its end. */
  predicate Covers(ss: seq<Span>, m: int)
  {
    exists k | 0 <= k < |ss| :: ss[k].grant <= m < ss[k].revocation
  }

  lemma CoversAfter(s: Span, rest: seq<Span>, m: int)
    requires Covers(rest, m)
    ensures Covers([s] + rest, m)
  {
    var k :| 0 <= k < |rest| && rest[k].grant <= m < rest[k].revocation;
    assert ([s] + rest)[k + 1] == rest[k];
  }

  /** No grant is missed: every granting entry from `i` on lies in one of
      the periods found. */
  lemma {:induction false} GrantSpansCover(es: seq<RightsEntry>, flag: string, i: nat)
    decreases |es| - i
    ensures forall m | i <= m < |es| && Grants(es[m], flag) :: Covers(GrantSpans(es, flag, i), m)
  {
    if i < |es| {
      if Grants(es[i], flag) {
        GrantSpansCover(es, flag, NextRevocation(es, flag, i + 1) + 1);
        CoverFromGrant(es, flag, i);
      } else {
        GrantSpansCover(es, flag, i + 1);
      }
    }
  }

  /** A granting entry opens a period that covers every entry up to its
      revocation; the revoking entry grants nothing, and the later entries
      are covered by the periods after it. */
  lemma CoverFromGrant(es: seq<RightsEntry>, flag: string, i: nat)
    requires i < |es| && Grants(es[i], flag)
    requires var j := NextRevocation(es, flag, i + 1);
      forall m | j + 1 <= m < |es| && Grants(es[m], flag) :: Covers(GrantSpans(es, flag, j + 1), m)
    ensures forall m | i <= m < |es| && Grants(es[m], flag) :: Covers(GrantSpans(es, flag, i), m)
  {
    var j := NextRevocation(es, flag, i + 1);
    var rest := GrantSpans(es, flag, j + 1);
    assert GrantSpans(es, flag, i) == [Span(i, j)] + rest;
    forall m | i <= m < |es| && Grants(es[m], flag)
      ensures Covers([Span(i, j)] + rest, m)
    {
      if m < j {
        assert ([Span(i, j)] + rest)[0] == Span(i, j);
      } else {
        assert j < |es| && Revokes(es[j], flag);
        CoversAfter(Span(i, j), rest, m);
      }
    }
  }

  function End(es: seq<RightsEntry>, s: Span, now: int): int
    requires s.grant < |es| && s.revocation <= |es|
  {
    if s.revocation < |es| then es[s.revocation].timestamp else now
  }

  predicate Spans(es: seq<RightsEntry>, ss: seq<Span>)
  {
    forall k | 0 <= k < |ss| :: ss[k].grant < |es| && ss[k].revocation <= |es|
  }

  /** The summed length of the periods, an open one lasting until `now`. */
  function TotalDuration(es: seq<RightsEntry>, ss: seq<Span>, now: int): int
    requires Spans(es, ss)
  {
    if ss == [] then 0
    else
      var s := ss[|ss| - 1];
      TotalDuration(es, ss[..|ss| - 1], now) + End(es, s, now) - es[s.grant].timestamp
  }

  /** `lastStartedHavingFlag`: when the last period began. */
  function LastStart(es: seq<RightsEntry>, ss: seq<Span>): Option<int>
    requires Spans(es, ss)
  {
    if ss == [] then None else Some(es[ss[|ss| - 1].grant].timestamp)
  }

  /** `lastEndedHavingFlag`: when the last period that ended, ended; it is
      not cleared by a later open period. */
  function LastEnd(es: seq<RightsEntry>, ss: seq<Span>): Option<int>
    requires Spans(es, ss)
  {
    if ss == [] then None
    else if ss[|ss| - 1].revocation < |es| then Some(es[ss[|ss| - 1].revocation].timestamp)
    else LastEnd(es, ss[..|ss| - 1])
  }

  /** What the scan of one flag accumulates. */
  datatype FlagScan = FlagScan(period: int, periods: nat, lastStarted: Option<int>, lastEnded: Option<int>)

  function ScanOf(es: seq<RightsEntry>, flag: string, now: int): FlagScan
  {
    var ss := GrantSpans(es, flag, 0);
    FlagScan(TotalDuration(es, ss, now), |ss|, LastStart(es, ss), LastEnd(es, ss))
  }


  /** What appending one period does to the sums over the periods. */
  lemma AppendSpan(es: seq<RightsEntry>, done: seq<Span>, s: Span, now: int)
    requires Spans(es, done) && s.grant < |es| && s.revocation <= |es|
    ensures Spans(es, done + [s])
    ensures TotalDuration(es, done + [s], now) == TotalDuration(es, done, now) + End(es, s, now) - es[s.grant].timestamp
    ensures LastStart(es, done + [s]) == Some(es[s.grant].timestamp)
    ensures LastEnd(es, done + [s]) == if s.revocation < |es| then Some(es[s.revocation].timestamp) else LastEnd(es, done)
  {
    assert (done + [s])[..|done|] == done;
  }

  /** One step of the scan: a granting entry opens the period that ends at
      the next revocation, and the scan resumes after it. */
  lemma GrantSpansStep(es: seq<RightsEntry>, flag: string, done: seq<Span>, i: nat)
    requires i < |es| && Grants(es[i], flag)
    ensures done + GrantSpans(es, flag, i) ==
      (done + [Span(i, NextRevocation(es, flag, i + 1))]) + GrantSpans(es, flag, NextRevocation(es, flag, i + 1) + 1)
  {
    var s := Span(i, NextRevocation(es, flag, i + 1));
    var rest := GrantSpans(es, flag, NextRevocation(es, flag, i + 1) + 1);
    assert GrantSpans(es, flag, i) == [s] + rest;
    assert done + ([s] + rest) == (done + [s]) + rest;
  }

  /** The two nested loops of `hadFlagFor` for one flag, which share the
      index `i`: a grant starts a period, the inner loop runs to the entry
      that revokes the group, and the outer loop resumes after it. */
  method ScanGrants(es: seq<RightsEntry>, flag: string, now: int) returns (scan: FlagScan)
    ensures scan == ScanOf(es, flag, now)
  {
    var period := 0;
    var count := 0;
    var lastStarted: Option<int> := None;
    var lastEnded: Option<int> := None;
    ghost var done: seq<Span> := [];
    var i := 0;
    while i < |es|
      invariant 0 <= i <= |es| + 1
      invariant Spans(es, done)
      invariant GrantSpans(es, flag, 0) == done + GrantSpans(es, flag, i)
      invariant period == TotalDuration(es, done, now) && count == |done|
      invariant lastStarted == LastStart(es, done) && lastEnded == LastEnd(es, done)
      decreases |es| + 1 - i
    {
      if Grants(es[i], flag) {
        var started := es[i].timestamp;
        ghost var grant := i;
        GrantSpansStep(es, flag, done, i);
        lastStarted := Some(started);
        var ended: Option<int> := None;
        i := i + 1;
        while i < |es|
          invariant grant < i <= |es|
          invariant NextRevocation(es, flag, grant + 1) == NextRevocation(es, flag, i)
          invariant ended.None?
          decreases |es| - i
        {
          if Revokes(es[i], flag) {
            ended := Some(es[i].timestamp);
            lastEnded := ended;
            break;
          }
          i := i + 1;
        }
        ghost var s := Span(grant, i);
        assert ended.Some? <==> i < |es|;
        period := period + (if ended.Some? then ended.value else now) - started;
        count := count + 1;
        AppendSpan(es, done, s, now);
        done := done + [s];
      }
      i := i + 1;
    }
    assert GrantSpans(es, flag, i) == [];
    assert done + [] == done;
    scan := FlagScan(period, count, lastStarted, lastEnded);
  }

  // ---------------------------------------------------------------------
  // hadFlagFor

  /** The scan over the flags from the `k`-th on, with `count` periods found
      so far (the count is shared by all flags) and the `possiblyMeets`
      result a previous flag left, if any. A sum of periods of at least the
      longest reading of the required length meets the criterion; a single
      period found in all is judged by calendar subtraction instead, which
      needs `createSubFunc` to know the unit; otherwise a sum of at least the
      shortest reading leaves the decision to a person. */
  function FlagOutcome(es: seq<RightsEntry>, flags: seq<string>, value: int, unit: string, now: int,
                       k: nat, count: nat, pending: Option<Verdict>): (r: Result<Verdict>)
    decreases |flags| - k
  {
    if k >= |flags| then Ok(if pending.Some? then pending.value else Verdict(NotMeets, NoDetails))
    else
      var s := ScanOf(es, flags[k], now);
      var count' := count + s.periods;
      var band := Band(unit);
      var found := Verdict(Meets, FlagPeriod(flags[k], s.period));
      if band.Some? && s.period >= band.value.1 * value then Ok(found)
      else if count' == 1 then
        var sub := CreateSubFunc(value, unit);
        if sub.None? then Err(TypeError)
        else if GtOpt(ApplyShiftOpt(sub.value, s.lastEnded), s.lastStarted) then Ok(found)
        else FlagOutcome(es, flags, value, unit, now, k + 1, count', pending)
      else if band.Some? && s.period >= band.value.0 * value then
        FlagOutcome(es, flags, value, unit, now, k + 1, count', Some(Verdict(PossiblyMeets, FlagPeriod(flags[k], s.period))))
      else FlagOutcome(es, flags, value, unit, now, k + 1, count', pending)
  }

  /** The loop over the flags of `hadFlagFor`. */
  method FlagsVerdict(es: seq<RightsEntry>, flags: seq<string>, value: int, unit: string, now: int)
    returns (r: Result<Verdict>)
    ensures r == FlagOutcome(es, flags, value, unit, now, 0, 0, None)
  {
    var band := Band(unit);
    var count: nat := 0;
    var pending: Option<Verdict> := None;
    for k := 0 to |flags|
      invariant FlagOutcome(es, flags, value, unit, now, 0, 0, None) ==
                FlagOutcome(es, flags, value, unit, now, k, count, pending)
    {
      var s := ScanGrants(es, flags[k], now);
      count := count + s.periods;
      if band.Some? && s.period >= band.value.1 * value {
        return Ok(Verdict(Meets, FlagPeriod(flags[k], s.period)));
      } else if count == 1 {
        var sub := CreateSubFunc(value, unit);
        if sub.None? {
          return Err(TypeError);
        }
        if GtOpt(ApplyShiftOpt(sub.value, s.lastEnded), s.lastStarted) {
          return Ok(Verdict(Meets, FlagPeriod(flags[k], s.period)));
        }
      } else if band.Some? && s.period >= band.value.0 * value {
        pending := Some(Verdict(PossiblyMeets, FlagPeriod(flags[k], s.period)));
      }
    }
    r := Ok(if pending.Some? then pending.value else Verdict(NotMeets, NoDetails));
  }

  /** `hadFlagFor`: the rights log up to the reference date, scanned flag by
      flag. */
  function HadFlagForVerdict(env: Env, c: Config): Result<Verdict>
  {
    var es := RightsEntries(env, Window(None, Prepared(c.referenceDate, true)));
    var flags := ResolveFlags(c);
    if es.Err? then Err(es.failure)
    else if flags.None? then Err(TypeError)
    else FlagOutcome(es.value, flags.value, c.count, c.unit, env.now, 0, 0, None)
  }

  /** With one flag and a known unit: the criterion is met exactly when the
      periods add up to the longest reading of the required length, or there
      is a single period whose end lies more than the required length after
      its start; it fails with a TypeError only for a single shorter period
      in a unit `createSubFunc` does not know. */
  lemma SingleFlagRule(es: seq<RightsEntry>, flag: string, value: int, unit: string, now: int)
    requires Band(unit).Some?
    ensures var r := FlagOutcome(es, [flag], value, unit, now, 0, 0, None);
      var s := ScanOf(es, flag, now);
      var sub := CreateSubFunc(value, unit);
      (r.Err? <==> s.period < Band(unit).value.1 * value && s.periods == 1 && sub.None?) &&
      (r == Ok(Verdict(Meets, FlagPeriod(flag, s.period))) <==>
        s.period >= Band(unit).value.1 * value ||
        (s.periods == 1 && sub.Some? && GtOpt(ApplyShiftOpt(sub.value, s.lastEnded), s.lastStarted))) &&
      (r.Ok? && r.value.status != Meets ==>
        r.value.status == (if s.periods != 1 && s.period >= Band(unit).value.0 * value then PossiblyMeets else NotMeets))
  {
  }

  /** A flag still held has no end date, so a single open period never meets
      the criterion through calendar subtraction. */
  lemma OpenSinglePeriodNotByDate(es: seq<RightsEntry>, flag: string, value: int, unit: string, now: int)
    requires ScanOf(es, flag, now).periods == 1
    requires GrantSpans(es, flag, 0)[0].revocation == |es|
    ensures ScanOf(es, flag, now).lastEnded == None
    ensures Band(unit).Some? && ScanOf(es, flag, now).period < Band(unit).value.1 * value ==>
      FlagOutcome(es, [flag], value, unit, now, 0, 0, None) != Ok(Verdict(Meets, FlagPeriod(flag, ScanOf(es, flag, now).period)))
  {
    var ss := GrantSpans(es, flag, 0);
    assert |ss| == 1;
    assert ss[..0] == [];
    assert LastEnd(es, ss) == LastEnd(es, ss[..0]);
  }

  /** A single closed period in 'months' that falls short of 31 days per
      month fails: the unit has bounds but no calendar subtraction. */
  lemma MonthsSinglePeriodFails(es: seq<RightsEntry>, flag: string, value: int, now: int)
    requires ScanOf(es, flag, now).periods == 1
    requires ScanOf(es, flag, now).period < 31 * DayMs * value
    ensures FlagOutcome(es, [flag], value, "months", now, 0, 0, None) == Err(TypeError)
  {
  }

  /** The period count is shared by the flags: one open grant of two flags
      on the same day, 30 days before `now`, with one month required. Asked
      alone, the second flag's period is judged by the calendar and fails;
      after the first flag, it is the second period counted and is left to a
      person. */
  lemma SharedPeriodCount(t: int)
    ensures var es := [RightsEntry(t, Some([]), Some(["a", "b"]))];
      FlagOutcome(es, ["b"], 1, "month", t + 30 * DayMs, 0, 0, None) == Ok(Verdict(NotMeets, NoDetails)) &&
      FlagOutcome(es, ["a", "b"], 1, "month", t + 30 * DayMs, 0, 0, None) ==
        Ok(Verdict(PossiblyMeets, FlagPeriod("b", 30 * DayMs)))
  {
    var es := [RightsEntry(t, Some([]), Some(["a", "b"]))];
    var now := t + 30 * DayMs;
    forall flag | flag in ["a", "b"]
      ensures ScanOf(es, flag, now) == FlagScan(30 * DayMs, 1, Some(t), None)
    {
      assert Grants(es[0], flag);
      assert NextRevocation(es, flag, 1) == 1;
      assert GrantSpans(es, flag, 2) == [];
      var ss := GrantSpans(es, flag, 0);
      assert ss == [Span(0, 1)];
      assert ss[..0] == [];
      assert TotalDuration(es, ss, now) == 30 * DayMs;
      assert LastEnd(es, ss) == None;
    }
  }

  // ---------------------------------------------------------------------
  // notLostFlagInLast

  /** The entry removes the group: both group lists are present, the old one
      has it and the new one does not. */
  predicate Lost(e: RightsEntry, flag: string)
  {
    e.oldgroups.Some? && e.newgroups.Some? && flag in e.oldgroups.value && flag !in e.newgroups.value
  }

  /** The first entry from `i` on in which the group is lost, or `|es|`. */
  function FirstLossOf(es: seq<RightsEntry>, flag: string, i: nat): (j: nat)
    requires i <= |es|
    decreases |es| - i
    ensures i <= j <= |es|
    ensures j < |es| ==> Lost(es[j], flag)
    ensures forall m | i <= m < j :: !Lost(es[m], flag)
  {
    if i == |es| || Lost(es[i], flag) then i else FirstLossOf(es, flag, i + 1)
  }

  /** The first loss in flag-major order from the `f`-th flag on: the flag's
      index and the entry's. */
  function FirstLoss(es: seq<RightsEntry>, flags: seq<string>, f: nat): (r: Option<(nat, nat)>)
    decreases |flags| - f
    ensures r.Some? ==> f <= r.value.0 < |flags| && r.value.1 < |es| && Lost(es[r.value.1], flags[r.value.0])
    ensures r.Some? ==> forall i | 0 <= i < r.value.1 :: !Lost(es[i], flags[r.value.0])
    ensures r.Some? ==> forall g, i | f <= g < r.value.0 && 0 <= i < |es| :: !Lost(es[i], flags[g])
    ensures r.None? ==> forall g, i | f <= g < |flags| && 0 <= i < |es| :: !Lost(es[i], flags[g])
  {
    if f >= |flags| then None
    else
      var j := FirstLossOf(es, flags[f], 0);
      if j < |es| then Some((f, j)) else FirstLoss(es, flags, f + 1)
  }

  /** The two nested loops of `notLostFlagInLast`, which return at the first
      entry in which a flag is lost. */
  method FirstFlagLoss(es: seq<RightsEntry>, flags: seq<string>) returns (r: Option<(nat, nat)>)
    ensures r == FirstLoss(es, flags, 0)
  {
    for f := 0 to |flags|
      invariant FirstLoss(es, flags, 0) == FirstLoss(es, flags, f)
    {
      for i := 0 to |es|
        invariant FirstLossOf(es, flags[f], 0) == FirstLossOf(es, flags[f], i)
      {
        if Lost(es[i], flags[f]) {
          return Some((f, i));
        }
      }
    }
    return None;
  }

  /** `notLostFlagInLast`: the rights log from the required length before the
      reference date (by default now) up to it. */
  function NotLostVerdict(env: Env, c: Config): (r: Result<Verdict>)
  {
    var ref := Prepared(if Truthy(c.referenceDate) then c.referenceDate else DateValue(env.now), false);
    var sub := CreateSubFunc(c.count, c.unit);
    if sub.None? || ref.None? then Err(TypeError)
    else
      var es := RightsEntries(env, Window(Some(ApplyShift(sub.value, ref.value)), ref));
      var flags := ResolveFlags(c);
      if es.Err? then Err(es.failure)
      else if flags.None? then Err(TypeError)
      else
        var loss := FirstLoss(es.value, flags.value, 0);
        if loss.Some? then Ok(Verdict(NotMeets, LostFlag(flags.value[loss.value.0], es.value[loss.value.1].timestamp)))
        else Ok(Verdict(Meets, NoDetails))
  }

  /** Met exactly when no listed flag was lost in the window; otherwise the
      verdict names a flag that was lost and when. */
  lemma NotLostRule(env: Env, c: Config)
    requires NotLostVerdict(env, c).Ok?
    ensures var v := NotLostVerdict(env, c).value;
      var sub := CreateSubFunc(c.count, c.unit).value;
      var ref := Prepared(if Truthy(c.referenceDate) then c.referenceDate else DateValue(env.now), false);
      var es := RightsEntries(env, Window(Some(ApplyShift(sub, ref.value)), ref)).value;
      var flags := ResolveFlags(c).value;
      (v.status == Meets <==> forall g, i | 0 <= g < |flags| && 0 <= i < |es| :: !Lost(es[i], flags[g])) &&
      (v.status != Meets ==> (v.status == NotMeets && v.details.LostFlag? &&
        exists g, i | 0 <= g < |flags| && 0 <= i < |es| :: Lost(es[i], flags[g]) &&
          v.details == LostFlag(flags[g], es[i].timestamp)))
  {
  }

  /** Without a reference date the window ends now. */
  lemma NotLostDefaultsToNow(env: Env, c: Config)
    requires !Truthy(c.referenceDate) && CreateSubFunc(c.count, c.unit).Some?
    ensures Prepared(if Truthy(c.referenceDate) then c.referenceDate else DateValue(env.now), false) == Some(env.now)
    ensures NotLostVerdict(env, c).Ok? <==>
      RightsEntries(env, Window(Some(ApplyShift(CreateSubFunc(c.count, c.unit).value, env.now)), Some(env.now))).Ok? &&
      ResolveFlags(c).Some?
  {
  }

  // ---------------------------------------------------------------------
  // notInactiveFor

  /** The date before the `i`-th gap: the period start, then each action's. */
  function Previous(acts: seq<Action>, ps: Option<int>, i: nat): Option<int>
    requires i <= |acts|
  {
    if i == 0 then ps else Some(Time(acts[i - 1]))
  }

  /** The date after the `i`-th gap: each action's, then the period end. */
  function Current(acts: seq<Action>, pe: Option<int>, i: nat): Option<int>
    requires i <= |acts|
  {
    if i == |acts| then pe else Some(Time(acts[i]))
  }

  /** The `i`-th gap is longer than the required length: going back that far
      from its end still lands after its start. */
  predicate GapAt(sub: Shift, acts: seq<Action>, ps: Option<int>, pe: Option<int>, i: nat)
    requires i <= |acts|
  {
    GtOpt(ApplyShiftOpt(sub, Current(acts, pe, i)), Previous(acts, ps, i))
  }

  /** The first long gap from the `i`-th on, or `|acts| + 1`. */
  function FirstGap(sub: Shift, acts: seq<Action>, ps: Option<int>, pe: Option<int>, i: nat): (g: nat)
    requires i <= |acts| + 1
    decreases |acts| + 1 - i
    ensures i <= g <= |acts| + 1
    ensures g <= |acts| ==> GapAt(sub, acts, ps, pe, g)
    ensures forall j | i <= j < g && j <= |acts| :: !GapAt(sub, acts, ps, pe, j)
  {
    if i == |acts| + 1 || GapAt(sub, acts, ps, pe, i) then i else FirstGap(sub, acts, ps, pe, i + 1)
  }

  /** The search from the `i`-th gap stops there exactly when it is long. */
  lemma FirstGapAt(sub: Shift, acts: seq<Action>, ps: Option<int>, pe: Option<int>, i: nat)
    requires i <= |acts|
    ensures GapAt(sub, acts, ps, pe, i) ==> FirstGap(sub, acts, ps, pe, i) == i
    ensures !GapAt(sub, acts, ps, pe, i) ==> FirstGap(sub, acts, ps, pe, i) == FirstGap(sub, acts, ps, pe, i + 1)
    ensures GapAt(sub, acts, ps, pe, i) ==
      GtOpt(ApplyShiftOpt(sub, if i == |acts| then pe else Some(Time(acts[i]))), if i == 0 then ps else Some(Time(acts[i - 1])))
  {
  }

  /** The loop of `notInactiveFor` over the `|acts| + 1` gaps. */
  method FindInactiveGap(sub: Shift, acts: seq<Action>, ps: Option<int>, pe: Option<int>) returns (g: nat)
    ensures g == FirstGap(sub, acts, ps, pe, 0)
  {
    g := 0;
    while g <= |acts|
      invariant g <= |acts| + 1
      invariant FirstGap(sub, acts, ps, pe, 0) == FirstGap(sub, acts, ps, pe, g)
    {
      var previous := if g == 0 then ps else Some(Time(acts[g - 1]));
      var current := if g == |acts| then pe else Some(Time(acts[g]));
      FirstGapAt(sub, acts, ps, pe, g);
      if GtOpt(ApplyShiftOpt(sub, current), previous) {
        return;
      }
      g := g + 1;
    }
  }

  /** The verdict on the gaps around `acts`: the first long gap fails the
      criterion. */
  function GapVerdict(sub: Shift, acts: seq<Action>, ps: Option<int>, pe: Option<int>, isSysop: bool): Verdict
  {
    var g := FirstGap(sub, acts, ps, pe, 0);
    if g <= |acts| then Verdict(Unproven(isSysop), InactivePeriod(Previous(acts, ps, g), Current(acts, pe, g)))
    else Verdict(Meets, NoDetails)
  }

  /** `notInactiveFor`: all actions in the period, in time order, with the
      period's bounds around them; the first gap longer than the required
      length fails the criterion. */
  function NotInactiveVerdict(env: Env, c: Config): Result<Verdict>
  {
    var sub := CreateSubFunc(c.count, c.unit);
    if sub.None? then Err(TypeError)
    else
      Ok(GapVerdict(sub.value, CollectedActions(env, QueryOf(c), 0),
        Prepared(c.periodStart, false), Prepared(c.periodEnd, true), env.isSysop))
  }

  /** The verdict on the gaps is met exactly when no gap is too long; when
      not met, the reported period is such a gap, and the earliest. */
  lemma GapVerdictRule(sub: Shift, acts: seq<Action>, ps: Option<int>, pe: Option<int>, isSysop: bool)
    ensures var v := GapVerdict(sub, acts, ps, pe, isSysop);
      (v.status == Meets <==> forall i | 0 <= i <= |acts| :: !GapAt(sub, acts, ps, pe, i)) &&
      (v.status != Meets ==> (v.status == Unproven(isSysop) &&
        exists i | 0 <= i <= |acts| :: GapAt(sub, acts, ps, pe, i) &&
          v.details == InactivePeriod(Previous(acts, ps, i), Current(acts, pe, i)) &&
          forall j | 0 <= j < i :: !GapAt(sub, acts, ps, pe, j)))
  {
    var g := FirstGap(sub, acts, ps, pe, 0);
    if g <= |acts| {
      assert GapAt(sub, acts, ps, pe, g);
    }
  }

  /** Met exactly when no gap between consecutive dates is too long; when not
      met, the reported period is such a gap, and the earliest. */
  lemma NotInactiveRule(env: Env, c: Config)
    requires CreateSubFunc(c.count, c.unit).Some?
    ensures var v := NotInactiveVerdict(env, c);
      var sub := CreateSubFunc(c.count, c.unit).value;
      var acts := CollectedActions(env, QueryOf(c), 0);
      var ps := Prepared(c.periodStart, false);
      var pe := Prepared(c.periodEnd, true);
      v.Ok? &&
      (v.value.status == Meets <==> forall i | 0 <= i <= |acts| :: !GapAt(sub, acts, ps, pe, i)) &&
      (v.value.status != Meets ==> (v.value.status == Unproven(env.isSysop) &&
        exists i | 0 <= i <= |acts| :: GapAt(sub, acts, ps, pe, i) &&
          v.value.details == InactivePeriod(Previous(acts, ps, i), Current(acts, pe, i)) &&
          forall j | 0 <= j < i :: !GapAt(sub, acts, ps, pe, j)))
  {
    GapVerdictRule(CreateSubFunc(c.count, c.unit).value, CollectedActions(env, QueryOf(c), 0),
      Prepared(c.periodStart, false), Prepared(c.periodEnd, true), env.isSysop);
  }

  /** Counted in days, a gap is too long exactly when its dates lie more than
      that many days apart. */
  lemma GapInDays(n: int, acts: seq<Action>, ps: Option<int>, pe: Option<int>, i: nat)
    requires i <= |acts|
    ensures GapAt(Shift(n, Days), acts, ps, pe, i) <==>
      Current(acts, pe, i).Some? && Previous(acts, ps, i).Some? &&
      Current(acts, pe, i).value - Previous(acts, ps, i).value > n * DayMs
  {
  }

  // ---------------------------------------------------------------------
  // actionCountNotLess

  /** `actionCountNotLess`: the actions gathered up to the required count. */
  function ActionCountVerdict(env: Env, c: Config): Verdict
  {
    var acts := CollectedActions(env, QueryOf(c), c.count);
    Verdict(if |acts| < c.count then Unproven(env.isSysop) else Meets, ActionCount(|acts|, acts))
  }

  /** Met exactly when at least the required number of actions was found;
      contributions alone can be enough. */
  lemma ActionCountRule(env: Env, c: Config)
    ensures var v := ActionCountVerdict(env, c);
      v.details.ActionCount? && SortedByTime(v.details.actions) &&
      (v.status == Meets <==> v.details.actionCount >= c.count) &&
      (v.status != Meets ==> v.status == Unproven(env.isSysop))
    ensures |Contribs(env, QueryOf(c), c.count).items| >= c.count ==> ActionCountVerdict(env, c).status == Meets
  {
    var q := QueryOf(c);
    CollectedActionsSources(env, q, c.count);
    var acts := CollectedActions(env, q, c.count);
    assert |acts| == |UnsortedActions(env, q, c.count)| by {
      assert |multiset(acts)| == |multiset(UnsortedActions(env, q, c.count))|;
    }
  }

  // ---------------------------------------------------------------------
  // noActiveBlockBetweenDates

  /** The block restricts the criterion's namespace (`ns` given and not 0,
      and listed among the block's namespaces). */
  predicate PartialInNamespace(b: BlockEntry, ns: Option<int>)
  {
    ns.Some? && ns.value != 0 && b.restrictions.Partial? && b.restrictions.namespaces.Some? &&
    ns.value in b.restrictions.namespaces.value
  }

  /** The block covers the whole site: no restrictions, or an empty list. */
  predicate Sitewide(b: BlockEntry)
  {
    b.restrictions.Absent? || b.restrictions == List(0)
  }

  /** `noActiveBlockBetweenDates` given the account's current block, if any.
      Without one the evaluator returns nothing. */
  function BlockVerdict(block: Option<BlockEntry>, c: Config): (r: Option<Verdict>)
    ensures r.None? <==> block.None?
    ensures r.Some? ==> r.value.details == NoDetails && r.value.status in {Meets, NotMeets}
  {
    if block.None? then None
    else
      var b := block.value;
      var w := Period(c);
      var active := LeOpt(Some(b.timestamp), w.start) && (b.expiry.Infinite? || GtOpt(Some(b.expiry.instant), w.end));
      Some(Verdict(if active && (Sitewide(b) || PartialInNamespace(b, c.ns)) then NotMeets else Meets, NoDetails))
  }

  /** The criterion fails exactly for a block that began by the start of the
      period, lasts beyond its end, and covers the whole site or the
      criterion's namespace. A partial block is never counted in the main
      namespace, nor without a period start. */
  lemma BlockRule(b: BlockEntry, c: Config)
    ensures var w := Period(c);
      BlockVerdict(Some(b), c).value.status == NotMeets <==>
        w.start.Some? && b.timestamp <= w.start.value &&
        (b.expiry.Infinite? || (w.end.Some? && b.expiry.instant > w.end.value)) &&
        (b.restrictions.Absent? || b.restrictions == List(0) ||
          (b.restrictions.Partial? && c.ns.Some? && c.ns.value != 0 &&
           b.restrictions.namespaces.Some? && c.ns.value in b.restrictions.namespaces.value))
    ensures c.ns == Some(0) && b.restrictions.Partial? ==> BlockVerdict(Some(b), c).value.status == Meets
    ensures !Truthy(c.periodStart) ==> BlockVerdict(Some(b), c).value.status == Meets
  {
  }

  /** The names of the built-in evaluators. */
  const BuiltinNames: seq<string> := ["editCountNotLess", "registrationDateNotLater", "editsBetweenDates",
    "hadFlagFor", "notLostFlagInLast", "notInactiveFor", "actionCountNotLess", "noActiveBlockBetweenDates"]
}
