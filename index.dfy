/** The engine's entry points over several criteria and accounts: the
    summary of one account's results, the multi-account driver, and the
    test of a summary used by the applications. */
module Index {
  import opened Values
  import opened Util
  import opened Criteria
  import opened Engine
  import opened Wiki

  /** The warnings a summary may carry: a criterion the viewer could not
      fully check, a criterion to check by hand, and an account without
      edits ('0edits'). */
  datatype Warning = NotEnoughRightsWarning | ManualCheckWarning | ZeroEdits

  /** A summary: `results` and `warnings` are absent for a missing account;
      `firstFailed` is `firstFailedResult`; `user` is the first result's. */
  datatype Summary = Summary(conclusion: Status, results: Option<seq<CheckResult>>, warnings: Option<seq<Warning>>,
                             firstFailed: Option<CheckResult>, user: User)

  predicate HasStatus(rs: seq<CheckResult>, s: Status)
  {
    exists i | 0 <= i < |rs| :: rs[i].status == s
  }

  /** The statuses that leave the decision open. */
  predicate Uncertain(s: Status)
  {
    s == PossiblyMeets || s == NotEnoughRights || s == NeedsManualCheck
  }

  predicate HasUncertain(rs: seq<CheckResult>)
  {
    exists i | 0 <= i < |rs| :: Uncertain(rs[i].status)
  }

  /** The conclusion over all results: a missing account first, then a
      failed criterion, then an open one, else met. */
  function ConclusionOf(rs: seq<CheckResult>): Status
  {
    if HasStatus(rs, UserMissing) then UserMissing
    else if HasStatus(rs, NotMeets) then NotMeets
    else if HasUncertain(rs) then PossiblyMeets
    else Meets
  }

  /** The position of the first `userMissing` result, where the loop of
      `summarize` stops, or the number of results. */
  function FirstMissing(rs: seq<CheckResult>): (k: nat)
    ensures k <= |rs|
    ensures k < |rs| ==> rs[k].status == UserMissing
    ensures forall j | 0 <= j < k :: rs[j].status != UserMissing
  {
    if rs == [] then 0
    else if rs[0].status == UserMissing then 0
    else
      var k := FirstMissing(rs[1..]);
      assert forall j | 1 <= j < k + 1 :: rs[j] == rs[1..][j - 1];
      k + 1
  }

  /** The warnings one result contributes, in the order they are pushed. */
  function WarningsOf(r: CheckResult): seq<Warning>
  {
    (if r.status == NotEnoughRights then [NotEnoughRightsWarning]
     else if r.status == NeedsManualCheck then [ManualCheckWarning]
     else []) +
    (if r.details.Registration? && r.details.overallEditCount == Some(0) then [ZeroEdits] else [])
  }

  function RawWarnings(rs: seq<CheckResult>): seq<Warning>
  {
    if rs == [] then [] else RawWarnings(rs[..|rs| - 1]) + WarningsOf(rs[|rs| - 1])
  }

  /** The last `notMeets` result. */
  function LastNotMeets(rs: seq<CheckResult>): Option<CheckResult>
  {
    if rs == [] then None
    else if rs[|rs| - 1].status == NotMeets then Some(rs[|rs| - 1])
    else LastNotMeets(rs[..|rs| - 1])
  }

  /** `summarize` as a specification: everything but the conclusion is read
      from the results before the first `userMissing` one. An empty list has
      no first result, and reading its user throws. */
  function SummaryOf(rs: seq<CheckResult>): (r: Result<Summary>)
    ensures r.Err? <==> rs == []
    ensures r.Ok? ==> r.value.user == rs[0].user && (r.value.results.Some? ==> r.value.results.value == rs)
  {
    if rs == [] then Err(TypeError)
    else
      var pre := rs[..FirstMissing(rs)];
      var conclusion := ConclusionOf(rs);
      Ok(Summary(conclusion,
        if conclusion != UserMissing then Some(rs) else None,
        if conclusion != UserMissing then Some(RemoveDuplicates(RawWarnings(pre))) else None,
        LastNotMeets(pre),
        rs[0].user))
  }

  lemma StatusStep(rs: seq<CheckResult>, i: nat)
    requires i < |rs|
    ensures forall s :: HasStatus(rs[..i + 1], s) <==> HasStatus(rs[..i], s) || rs[i].status == s
    ensures HasUncertain(rs[..i + 1]) <==> HasUncertain(rs[..i]) || Uncertain(rs[i].status)
  {
    var p, q := rs[..i + 1], rs[..i];
    assert p[i] == rs[i];
    assert forall j | 0 <= j < i :: p[j] == q[j];
    forall s
      ensures HasStatus(p, s) <==> HasStatus(q, s) || rs[i].status == s
    {
      if HasStatus(p, s) && rs[i].status != s {
        var j :| 0 <= j < |p| && p[j].status == s;
        assert q[j].status == s;
      }
      if HasStatus(q, s) {
        var j :| 0 <= j < |q| && q[j].status == s;
        assert p[j].status == s;
      }
    }
    if HasUncertain(p) && !Uncertain(rs[i].status) {
      var j :| 0 <= j < |p| && Uncertain(p[j].status);
      assert Uncertain(q[j].status);
    }
    if HasUncertain(q) {
      var j :| 0 <= j < |q| && Uncertain(q[j].status);
      assert Uncertain(p[j].status);
    }
  }

  /** `summarize`: one pass over the results, stopping at the first
      `userMissing` one. */
  method Summarize(rs: seq<CheckResult>) returns (r: Result<Summary>)
    ensures r == SummaryOf(rs)
  {
    var conclusion := Meets;
    var warnings: seq<Warning> := [];
    var firstFailed: Option<CheckResult> := None;
    var i := 0;
    while i < |rs|
      invariant i <= FirstMissing(rs)
      invariant conclusion == ConclusionOf(rs[..i])
      invariant warnings == RawWarnings(rs[..i])
      invariant firstFailed == LastNotMeets(rs[..i])
    {
      if rs[i].status == UserMissing {
        conclusion := UserMissing;
        break;
      } else if rs[i].status == NotMeets {
        conclusion := NotMeets;
        firstFailed := Some(rs[i]);
      } else if Uncertain(rs[i].status) && conclusion != NotMeets {
        conclusion := PossiblyMeets;
      }
      if rs[i].status == NotEnoughRights || rs[i].status == NeedsManualCheck {
        warnings := warnings + [if rs[i].status == NotEnoughRights then NotEnoughRightsWarning else ManualCheckWarning];
      }
      if rs[i].details.Registration? && rs[i].details.overallEditCount == Some(0) {
        warnings := warnings + [ZeroEdits];
      }
      StatusStep(rs, i);
      assert rs[..i + 1][..i] == rs[..i];
      i := i + 1;
    }
    if i < |rs| {
      assert HasStatus(rs, UserMissing);
    } else {
      assert rs[..i] == rs;
    }
    warnings := RemoveDuplicates(warnings);
    if rs == [] {
      return Err(TypeError);
    }
    var summary := Summary(conclusion, None, None, firstFailed, rs[0].user);
    if conclusion != UserMissing {
      summary := summary.(results := Some(rs), warnings := Some(warnings));
    }
    r := Ok(summary);
  }

  /** `rs[j]` fails its criterion and no later result does. */
  predicate IsLastNotMeets(rs: seq<CheckResult>, j: int)
  {
    0 <= j < |rs| && rs[j].status == NotMeets && forall k | j < k < |rs| :: rs[k].status != NotMeets
  }

  /** There is a last `notMeets` result exactly when some result fails. */
  lemma {:induction false} LastNotMeetsExists(rs: seq<CheckResult>)
    ensures LastNotMeets(rs).None? <==> !HasStatus(rs, NotMeets)
  {
    if rs != [] && rs[|rs| - 1].status != NotMeets {
      var p := rs[..|rs| - 1];
      LastNotMeetsExists(p);
      assert LastNotMeets(rs) == LastNotMeets(p);
      if HasStatus(rs, NotMeets) {
        var j :| 0 <= j < |rs| && rs[j].status == NotMeets;
        assert p[j] == rs[j];
      }
      if HasStatus(p, NotMeets) {
        var j :| 0 <= j < |p| && p[j].status == NotMeets;
        assert rs[j] == p[j];
      }
    }
  }

  /** The result `LastNotMeets` names fails, and no later one does. */
  lemma {:induction false} LastNotMeetsPosition(rs: seq<CheckResult>)
    ensures LastNotMeets(rs).Some? ==> exists j :: IsLastNotMeets(rs, j) && LastNotMeets(rs) == Some(rs[j])
  {
    if rs != [] {
      var n := |rs| - 1;
      if rs[n].status == NotMeets {
        assert IsLastNotMeets(rs, n);
      } else {
        var p := rs[..n];
        LastNotMeetsPosition(p);
        assert LastNotMeets(rs) == LastNotMeets(p);
        if LastNotMeets(p).Some? {
          var j :| IsLastNotMeets(p, j) && LastNotMeets(p) == Some(p[j]);
          forall k | j < k < |rs|
            ensures rs[k].status != NotMeets
          {
            if k < n {
              assert rs[k] == p[k];
            }
          }
          assert rs[j] == p[j];
          assert IsLastNotMeets(rs, j);
        }
      }
    }
  }

  /** A warning is among the raw warnings exactly when some result
      contributes it. */
  lemma {:induction false} RawWarningsMembers(rs: seq<CheckResult>, w: Warning)
    ensures w in RawWarnings(rs) <==> exists i | 0 <= i < |rs| :: w in WarningsOf(rs[i])
  {
    if rs != [] {
      var p, last := rs[..|rs| - 1], rs[|rs| - 1];
      RawWarningsMembers(p, w);
      assert RawWarnings(rs) == RawWarnings(p) + WarningsOf(last);
      if w in WarningsOf(last) {
        assert w in RawWarnings(rs);
      } else {
        if exists i | 0 <= i < |rs| :: w in WarningsOf(rs[i]) {
          var i :| 0 <= i < |rs| && w in WarningsOf(rs[i]);
          assert i < |p| && p[i] == rs[i];
        }
        if exists i | 0 <= i < |p| :: w in WarningsOf(p[i]) {
          var i :| 0 <= i < |p| && w in WarningsOf(p[i]);
          assert p[i] == rs[i];
        }
      }
    }
  }

  /** Each warning and the results that cause it. */
  lemma RawWarningsCauses(rs: seq<CheckResult>)
    ensures NotEnoughRightsWarning in RawWarnings(rs) <==> HasStatus(rs, NotEnoughRights)
    ensures ManualCheckWarning in RawWarnings(rs) <==> HasStatus(rs, NeedsManualCheck)
    ensures ZeroEdits in RawWarnings(rs) <==>
      exists i | 0 <= i < |rs| :: rs[i].details.Registration? && rs[i].details.overallEditCount == Some(0)
  {
    RawWarningsMembers(rs, NotEnoughRightsWarning);
    RawWarningsMembers(rs, ManualCheckWarning);
    RawWarningsMembers(rs, ZeroEdits);
  }

  /** What the summary says: no results and no warnings for a missing
      account, the results unchanged otherwise; the warnings each once, and
      each exactly when a result before the first `userMissing` causes it;
      and the failed result, when there is one before it, the last. */
  lemma SummaryContents(rs: seq<CheckResult>)
    requires rs != []
    ensures var s := SummaryOf(rs).value;
      var pre := rs[..FirstMissing(rs)];
      (s.conclusion == UserMissing <==> s.results.None?) &&
      (s.results.None? <==> s.warnings.None?) &&
      (s.results.Some? ==> s.results.value == rs) &&
      (s.warnings.Some? ==>
        NoDuplicates(s.warnings.value) &&
        (NotEnoughRightsWarning in s.warnings.value <==> HasStatus(pre, NotEnoughRights)) &&
        (ManualCheckWarning in s.warnings.value <==> HasStatus(pre, NeedsManualCheck)) &&
        (ZeroEdits in s.warnings.value <==>
          exists i | 0 <= i < |pre| :: pre[i].details.Registration? && pre[i].details.overallEditCount == Some(0))) &&
      (s.firstFailed.None? <==> !HasStatus(pre, NotMeets)) &&
      (s.firstFailed.Some? ==> exists j :: IsLastNotMeets(pre, j) && s.firstFailed == Some(pre[j]))
  {
    var pre := rs[..FirstMissing(rs)];
    LastNotMeetsExists(pre);
    LastNotMeetsPosition(pre);
    RawWarningsCauses(pre);
    var raw := RawWarnings(pre);
    assert forall w :: w in RemoveDuplicates(raw) <==> w in raw by {
      forall w ensures w in RemoveDuplicates(raw) <==> w in raw {
        if w in raw {
          var i :| 0 <= i < |raw| && raw[i] == w;
        }
      }
    }
  }

  /** The failed result a summary names is the last one, and it stays named
      when a `userMissing` result follows. */
  lemma FirstFailedIsTheLast(u: User, a: Criterion, b: Criterion)
    ensures var first := CheckResult(NotMeets, NoDetails, u, a);
      var second := CheckResult(NotMeets, NoDetails, u, b);
      var missing := CheckResult(UserMissing, NoDetails, u, b);
      SummaryOf([first, second]).value.firstFailed == Some(second) &&
      SummaryOf([first, missing]).value == Summary(UserMissing, None, None, Some(first), u)
  {
    var first := CheckResult(NotMeets, NoDetails, u, a);
    var second := CheckResult(NotMeets, NoDetails, u, b);
    var missing := CheckResult(UserMissing, NoDetails, u, b);
    assert [first, missing][1].status == UserMissing;
    assert FirstMissing([first, missing]) == 1;
    assert [first, missing][..1] == [first];
    assert [first, second][..2] == [first, second];
    assert [first, second][..1] == [first];
  }

  /** The account names `check` iterates: a non-empty string is one name;
      an empty string iterates as no characters; no names cannot be
      iterated. */
  datatype Names = OneName(name: string) | NameList(names: seq<string>) | NoNames

  function NamesToCheck(n: Names): (r: Result<seq<string>>)
    ensures r.Err? <==> n.NoNames?
    ensures n.OneName? ==> r == Ok(if n.name == "" then [] else [n.name])
    ensures n.NameList? ==> r == Ok(n.names)
  {
    match n
    case OneName(s) => Ok(if s == "" then [] else [s])
    case NameList(ns) => Ok(ns)
    case NoNames => Err(TypeError)
  }

  /** What `check` gives for one account: its summary, or its results. */
  datatype Outcome = Summarized(summary: Summary) | Raw(results: seq<CheckResult>)

  /** The results belong to the account, one per criterion, in order. */
  predicate ResultsFit(rs: seq<CheckResult>, u: User, criteria: seq<Criterion>)
  {
    |rs| == |criteria| && forall j | 0 <= j < |rs| :: rs[j].user == u && rs[j].criterion == criteria[j]
  }

  predicate OutcomeFits(o: Outcome, u: User, criteria: seq<Criterion>)
  {
    match o
    case Raw(rs) => ResultsFit(rs, u, criteria)
    case Summarized(s) => s.user == u && (s.results.Some? ==> ResultsFit(s.results.value, u, criteria))
  }

  /** What `check` makes of one account's run: its results, or their
      summary when asked; a failure of either is the call's failure. */
  function OutcomeOf(results: Result<seq<CheckResult>>, doSummarize: bool): Result<Outcome>
  {
    if results.Err? then Err(results.failure)
    else if !doSummarize then Ok(Raw(results.value))
    else if SummaryOf(results.value).Err? then Err(SummaryOf(results.value).failure)
    else Ok(Summarized(SummaryOf(results.value).value))
  }

  /** Where one account's check starts: its context, its world and its votes. */
  type Start = (Ctx, World, Option<seq<Vote>>)

  /** The start lies in a session with this wiki, viewer, clock and these
      handlers, and `self` says whether the account is the viewer's own. */
  ghost predicate StartsIn(st: Start, wiki: Wiki, isSysop: bool, now: int, handlers: map<string, Option<Handler>>, self: bool)
  {
    Coherent(st.0, st.1) &&
    st.0.wiki == wiki && st.0.isSysop == isSysop && st.0.now == now && st.0.handlers == handlers && st.0.self == self
  }

  /** `o` is what `check` reports for account `u` whose check started at
      `st`. */
  ghost predicate Reports(o: Outcome, u: User, st: Start, criteria: seq<Criterion>, doSummarize: bool, fuel: nat)
  {
    Coherent(st.0, st.1) &&
    OutcomeOf(CheckRuns(st.0, st.1, st.2, criteria, u, fuel).result, doSummarize) == Ok(o)
  }

  /** Each outcome is summarised as asked, belongs to its account, and is
      what `check` reports for that account from its start in the session. */
  ghost predicate AllReport(outcomes: seq<Outcome>, accounts: seq<User>, starts: seq<Start>, criteria: seq<Criterion>,
                            doSummarize: bool, fuel: nat, wiki: Wiki, isSysop: bool, now: int,
                            handlers: map<string, Option<Handler>>, current: User?)
  {
    |outcomes| == |accounts| == |starts| &&
    forall j | 0 <= j < |outcomes| ::
      outcomes[j].Summarized? == doSummarize &&
      OutcomeFits(outcomes[j], accounts[j], criteria) &&
      StartsIn(starts[j], wiki, isSysop, now, handlers, current == accounts[j]) &&
      Reports(outcomes[j], accounts[j], starts[j], criteria, doSummarize, fuel)
  }

  lemma AllReportAppend(outcomes: seq<Outcome>, accounts: seq<User>, starts: seq<Start>,
                        o: Outcome, u: User, st: Start, criteria: seq<Criterion>,
                        doSummarize: bool, fuel: nat, wiki: Wiki, isSysop: bool, now: int,
                        handlers: map<string, Option<Handler>>, current: User?)
    requires AllReport(outcomes, accounts, starts, criteria, doSummarize, fuel, wiki, isSysop, now, handlers, current)
    requires o.Summarized? == doSummarize && OutcomeFits(o, u, criteria)
    requires StartsIn(st, wiki, isSysop, now, handlers, current == u) && Reports(o, u, st, criteria, doSummarize, fuel)
    ensures AllReport(outcomes + [o], accounts + [u], starts + [st], criteria, doSummarize, fuel, wiki, isSysop, now, handlers, current)
  {
  }

  /** The cache keeps every account it had, under the same name. */
  predicate Keeps(before: map<string, User>, after: map<string, User>)
  {
    forall n | n in before :: n in after && after[n] == before[n]
  }

  lemma KeepsTransitive(a: map<string, User>, b: map<string, User>, c: map<string, User>)
    requires Keeps(a, b) && Keeps(b, c)
    ensures Keeps(a, c)
  {
  }

  /** The first `|accounts|` names are non-empty and cached as those accounts. */
  predicate Cached(users: map<string, User>, names: seq<string>, accounts: seq<User>)
  {
    |accounts| <= |names| &&
    forall j | 0 <= j < |accounts| :: names[j] != "" && names[j] in users && users[names[j]] == accounts[j]
  }

  lemma CachedGrows(before: map<string, User>, after: map<string, User>, names: seq<string>, accounts: seq<User>, u: User)
    requires Cached(before, names, accounts) && Keeps(before, after) && |accounts| < |names|
    requires names[|accounts|] != "" && names[|accounts|] in after && after[names[|accounts|]] == u
    ensures Cached(after, names, accounts + [u])
  {
  }

  lemma CachedKept(before: map<string, User>, after: map<string, User>, names: seq<string>, accounts: seq<User>)
    requires Cached(before, names, accounts) && Keeps(before, after)
    ensures Cached(after, names, accounts)
  {
  }

  /** Every name in the cache was there before or is one of `added`. */
  predicate OnlyAdds(before: set<string>, after: set<string>, added: seq<string>)
  {
    forall n | n in after :: n in before || n in added
  }

  lemma OnlyAddsGrow(a: set<string>, b: set<string>, c: set<string>, names: seq<string>, i: nat)
    requires i < |names| && OnlyAdds(a, b, names[..i]) && OnlyAdds(b, c, [names[i]])
    ensures OnlyAdds(a, c, names[..i + 1])
  {
    assert names[..i + 1] == names[..i] + [names[i]];
  }

  /** A name met for the first time and not cached before the call starts
      from a new account under that name, with no query made. */
  predicate FreshStarts(before: set<string>, names: seq<string>, starts: seq<Start>)
  {
    |starts| <= |names| &&
    forall j | 0 <= j < |starts| && names[j] !in before && names[j] !in names[..j] ::
      starts[j].0.name == names[j] && starts[j].1.info == Unqueried
  }

  lemma FreshStartsGrow(before: set<string>, now: set<string>, names: seq<string>, starts: seq<Start>, st: Start)
    requires FreshStarts(before, names, starts) && |starts| < |names|
    requires OnlyAdds(before, now, names[..|starts|])
    requires names[|starts|] !in now ==> st.0.name == names[|starts|] && st.1.info == Unqueried
    ensures FreshStarts(before, names, starts + [st])
  {
    var k := |starts|;
    if names[k] !in before && names[k] !in names[..k] {
      assert names[k] !in now;
    }
  }

  /** What `check` has done to the cache after `|accounts|` names: every
      account kept, those names cached as `accounts`, no other name added,
      and each first-time new name started fresh. */
  predicate Walked(before: map<string, User>, users: map<string, User>, names: seq<string>,
                   accounts: seq<User>, starts: seq<Start>)
  {
    |accounts| == |starts| &&
    Keeps(before, users) && Cached(users, names, accounts) &&
    OnlyAdds(before.Keys, users.Keys, names[..|accounts|]) && FreshStarts(before.Keys, names, starts)
  }

  /** One more name checked. */
  lemma WalkedStep(before: map<string, User>, mid: map<string, User>, users: map<string, User>, names: seq<string>,
                   accounts: seq<User>, starts: seq<Start>, u: User, st: Start)
    requires Walked(before, mid, names, accounts, starts) && |accounts| < |names|
    requires Keeps(mid, users) && OnlyAdds(mid.Keys, users.Keys, [names[|accounts|]])
    requires names[|accounts|] != "" && names[|accounts|] in users && users[names[|accounts|]] == u
    requires names[|accounts|] !in mid ==> st.0.name == names[|accounts|] && st.1.info == Unqueried
    ensures Walked(before, users, names, accounts + [u], starts + [st])
  {
    var i := |accounts|;
    KeepsTransitive(before, mid, users);
    CachedGrows(mid, users, names, accounts, u);
    FreshStartsGrow(before.Keys, mid.Keys, names, starts, st);
    OnlyAddsGrow(before.Keys, mid.Keys, users.Keys, names, i);
  }

  /** A name that throws changes no cached account, and adds at most itself. */
  lemma WalkedKept(before: map<string, User>, mid: map<string, User>, users: map<string, User>, names: seq<string>,
                   accounts: seq<User>, starts: seq<Start>)
    requires Walked(before, mid, names, accounts, starts) && |accounts| < |names|
    requires Keeps(mid, users) && OnlyAdds(mid.Keys, users.Keys, [names[|accounts|]])
    ensures Keeps(before, users) && Cached(users, names, accounts) && FreshStarts(before.Keys, names, starts)
    ensures OnlyAdds(before.Keys, users.Keys, names)
  {
    KeepsTransitive(before, mid, users);
    CachedKept(mid, users, names, accounts);
    OnlyAddsGrow(before.Keys, mid.Keys, users.Keys, names, |accounts|);
    OnlyAddsPrefix(before.Keys, users.Keys, names, |accounts| + 1);
  }

  /** Names added for a prefix of the list are added for the list. */
  lemma OnlyAddsPrefix(before: set<string>, after: set<string>, names: seq<string>, i: nat)
    requires i <= |names| && OnlyAdds(before, after, names[..i])
    ensures OnlyAdds(before, after, names)
  {
    forall n | n in after
      ensures n in before || n in names
    {
      if n !in before {
        var k :| 0 <= k < i && names[..i][k] == n;
        assert names[k] == n;
      }
    }
  }

  /** `check`: every name in order, each account from the cache, checked
      (with at most `fuel` rounds), summarised when asked, and handed to the
      callback when there is one; `calls` are the callback's arguments in
      order. An empty name has no account, and calling `check` on nothing
      throws. Each outcome is what `OutcomeOf` makes of the account's
      `CheckRuns` from where its turn started. */
  method Check(session: Session, userNames: Names, criteria: seq<Criterion>, hasCallback: bool, doSummarize: bool, fuel: nat)
    returns (r: Result<seq<Outcome>>, calls: seq<Outcome>, ghost accounts: seq<User>, ghost starts: seq<Start>)
    modifies session, session.users.Values, session.currentUser
    ensures NamesToCheck(userNames).Err? ==> r == Err(TypeError) && calls == []
    ensures r.Ok? ==> (NamesToCheck(userNames).Ok? &&
      var names := NamesToCheck(userNames).value;
      |r.value| == |names| == |accounts| == |starts| && calls == (if hasCallback then r.value else []) &&
      Cached(session.users, names, accounts) &&
      FreshStarts(old(session.users.Keys), names, starts) &&
      AllReport(r.value, accounts, starts, criteria, doSummarize, fuel,
        session.wiki, session.isSysop, session.now, session.handlers, session.currentUser))
    ensures r.Err? && !hasCallback ==> calls == []
    ensures r.Err? && NamesToCheck(userNames).Ok? ==>
      var names := NamesToCheck(userNames).value;
      |accounts| == |starts| < |names| &&
      Cached(session.users, names, accounts) &&
      FreshStarts(old(session.users.Keys), names, starts) &&
      (hasCallback ==> AllReport(calls, accounts, starts, criteria, doSummarize, fuel,
        session.wiki, session.isSysop, session.now, session.handlers, session.currentUser))
    ensures Keeps(old(session.users), session.users)
    ensures NamesToCheck(userNames).Ok? ==> OnlyAdds(old(session.users.Keys), session.users.Keys, NamesToCheck(userNames).value)
    ensures session.currentUser == old(session.currentUser) && session.handlers == old(session.handlers)
  {
    calls, accounts, starts := [], [], [];
    var names := NamesToCheck(userNames);
    if names.Err? {
      return Err(TypeError), calls, accounts, starts;
    }
    var outcomes: seq<Outcome> := [];
    for i := 0 to |names.value|
      invariant |outcomes| == |accounts| == |starts| == i && calls == (if hasCallback then outcomes else [])
      invariant session.currentUser == old(session.currentUser) && session.handlers == old(session.handlers)
      invariant forall n | n in session.users :: session.users[n] in old(session.users.Values) || fresh(session.users[n])
      invariant Walked(old(session.users), session.users, names.value, accounts, starts)
      invariant AllReport(outcomes, accounts, starts, criteria, doSummarize, fuel,
        session.wiki, session.isSysop, session.now, old(session.handlers), old(session.currentUser))
    {
      ghost var before := session.users;
      var outcome, u, st := CheckAccount(session, names.value[i], criteria, doSummarize, fuel);
      if outcome.Err? {
        WalkedKept(old(session.users), before, session.users, names.value, accounts, starts);
        return Err(outcome.failure), calls, accounts, starts;
      }
      WalkedStep(old(session.users), before, session.users, names.value, accounts, starts, u, st);
      AllReportAppend(outcomes, accounts, starts, outcome.value, u, st, criteria, doSummarize, fuel,
        session.wiki, session.isSysop, session.now, old(session.handlers), old(session.currentUser));
      outcomes := outcomes + [outcome.value];
      accounts := accounts + [u];
      starts := starts + [st];
      if hasCallback {
        calls := calls + [outcome.value];
      }
    }
    OnlyAddsPrefix(old(session.users.Keys), session.users.Keys, names.value, |names.value|);
    r := Ok(outcomes);
  }

  /** One name of `check`: the cached account (none for an empty name), its
      check from `start`, and its summary when asked. An account already in
      the cache starts from its state before the call; a new one from a
      fresh state under the name. */
  method CheckAccount(session: Session, name: string, criteria: seq<Criterion>, doSummarize: bool, fuel: nat)
    returns (r: Result<Outcome>, ghost u: User?, ghost start: Start)
    modifies session, session.users.Values, session.currentUser
    ensures u == null <==> name == ""
    ensures u == null ==> r == Err(TypeError)
    ensures u != null ==> (name in session.users && session.users[name] == u &&
      StartsIn(start, session.wiki, session.isSysop, session.now, session.handlers, session.currentUser == u) &&
      r == OutcomeOf(CheckRuns(start.0, start.1, start.2, criteria, u, fuel).result, doSummarize))
    ensures u != null && name in old(session.users) ==> (u == old(session.users[name]) &&
      start == (old(u.CtxOf(session)), old(u.WorldOf(session)), old(u.votes)))
    ensures u != null && name !in old(session.users) ==>
      start.0.name == name && start.1.info == Unqueried && start.1.rate == old(session.apiRateLimit)
    ensures r.Ok? ==> (name != "" && name in session.users && r.value.Summarized? == doSummarize &&
      OutcomeFits(r.value, session.users[name], criteria))
    ensures Keeps(old(session.users), session.users)
    ensures OnlyAdds(old(session.users.Keys), session.users.Keys, [name])
    ensures forall n | n in session.users :: session.users[n] in old(session.users.Values) || fresh(session.users[n])
    ensures session.currentUser == old(session.currentUser) && session.handlers == old(session.handlers)
  {
    start := (Ctx(session.wiki, false, 0, map[], None, false, ""), World(0, Unqueried, Unqueried), None);
    var account := session.GetUser(name);
    u := account;
    if account == null {
      return Err(TypeError), u, start;
    }
    start := (account.CtxOf(session), account.WorldOf(session), account.votes);
    var results := account.Check(session, criteria, fuel);
    if results.Err? {
      return Err(results.failure), u, start;
    }
    if doSummarize {
      var summary := Summarize(results.value);
      if summary.Err? {
        return Err(summary.failure), u, start;
      }
      r := Ok(Summarized(summary.value));
    } else {
      r := Ok(Raw(results.value));
    }
  }


  /** What `otherThanMeets` is given: a summary, or a single criterion's
      result. */
  datatype Examined = OfSummary(summary: Summary) | OfResult(result: CheckResult)

  /** `otherThanMeets`: the `conclusion` field is not 'meets'. A single
      criterion's result has no such field. */
  function OtherThanMeets(x: Examined): (b: bool)
  {
    match x
    case OfSummary(s) => s.conclusion != Meets
    case OfResult(_) => true
  }

  /** Only a summary can pass the test; a criterion's own result never does,
      even one that is met. */
  lemma OtherThanMeetsRule(x: Examined)
    ensures !OtherThanMeets(x) <==> x.OfSummary? && x.summary.conclusion == Meets
    ensures x.OfResult? && x.result.status == Meets ==> OtherThanMeets(x)
  {
  }

  /** On a summary, the test fails exactly when every result met its
      criterion. */
  lemma OtherThanMeetsOfSummary(rs: seq<CheckResult>)
    requires rs != []
    ensures !OtherThanMeets(OfSummary(SummaryOf(rs).value)) <==> forall i | 0 <= i < |rs| :: rs[i].status == Meets
  {
    if forall i | 0 <= i < |rs| :: rs[i].status == Meets {
    } else {
      var i :| 0 <= i < |rs| && rs[i].status != Meets;
      assert HasStatus(rs, rs[i].status);
      assert Uncertain(rs[i].status) ==> HasUncertain(rs);
    }
  }
}
