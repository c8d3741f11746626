/** The engine object and the `User` class: the cache of accounts, the
    registered handlers and the viewer's request cap, and per account the
    dispatch of criteria, the memoised account query and the rename-following
    retry loop. Each state-changing method is proved against a specification
    function of the state before it (`StepOne`, `CheckRound`, `RoundStep`, `CheckRuns`). */
module Engine {
  import opened Values
  import opened Wiki
  import opened Util
  import opened Evidence
  import opened Criteria
  import opened Evaluators

  /** A handler registered with `addHandler`. It runs as a method of the
      account, so it receives the account's name, and the criterion's
      options; `None` is a handler that returns nothing. */
  type Handler = (string, Config) -> Option<Verdict>

  /** A vote of the account on the page being reviewed, as the vote-page
      application records it: its date, if known. */
  datatype Vote = Vote(date: Option<int>)

  /** The memoised account query of a `User`: the `missing` flag and the
      request made so far (`None` before the first `getUserInfo`, else the
      entry it returned). */
  datatype Info = Info(missing: bool, infoRequest: Option<Option<UserEntry>>)

  /** The state after `changeName` or a fresh `User`. */
  const Unqueried := Info(false, None)

  /** `getUserInfo` on an account named `name`: the memoised entry, or a new
      query whose entry is remembered and which sets `missing` when the entry
      says so. */
  function UserInfo(w: Wiki, name: string, info: Info): (r: (Info, Option<UserEntry>))
    ensures info.infoRequest.Some? ==> r == (info, info.infoRequest.value)
    ensures info.infoRequest.None? ==> r.1 == w.users(name)
    ensures r.0.infoRequest == Some(r.1)
    ensures r.0.missing <==> info.missing || (info.infoRequest.None? && r.1.Some? && r.1.value.missing)
  {
    if info.infoRequest.Some? then (info, info.infoRequest.value)
    else
      var e := w.users(name);
      (Info(info.missing || (e.Some? && e.value.missing), Some(e)), e)
  }

  /** A second `getUserInfo` returns what the first did and changes nothing. */
  lemma UserInfoMemoises(w: Wiki, name: string, info: Info)
    ensures var first := UserInfo(w, name, info);
      UserInfo(w, name, first.0) == first
    ensures forall other: string :: UserInfo(w, other, UserInfo(w, name, info).0) == UserInfo(w, name, info)
  {
  }

  /** The request cap `checkOne` derives from the viewer's rights. */
  function RateLimit(entry: Option<UserEntry>): (r: int)
    ensures r == 5000 || r == 500
    ensures r == 5000 <==> entry.Some? && entry.value.rights.Some? && "apihighlimits" in entry.value.rights.value
  {
    if entry.Some? && entry.value.rights.Some? && "apihighlimits" in entry.value.rights.value then 5000 else 500
  }

  /** A built-in evaluator by name, for the account `env.name` whose memoised
      query is `info`; only `registrationDateNotLater` queries the account. A
      name that is not a built-in is an unknown criterion, and an evaluator
      that returns nothing makes the caller's `result.user = this` throw. */
  function Builtin(env: Env, info: Info, name: string, c: Config): (r: (Result<Verdict>, Info))
    ensures name !in BuiltinNames ==> r == (Err(UnknownCriterion(name)), info)
    ensures name != "registrationDateNotLater" ==> r.1 == info
  {
    if name == "editCountNotLess" then (Ok(EditCountVerdict(env, c)), info)
    else if name == "registrationDateNotLater" then
      var fetched := UserInfo(env.wiki, env.name, info);
      (Ok(RegistrationVerdict(fetched.0.missing, fetched.1, env.wiki.firstEdit(env.name), Prepared(c.valueDate, true))),
       fetched.0)
    else if name == "editsBetweenDates" then (EditsBetweenVerdict(env, c), info)
    else if name == "hadFlagFor" then (HadFlagForVerdict(env, c), info)
    else if name == "notLostFlagInLast" then (NotLostVerdict(env, c), info)
    else if name == "notInactiveFor" then (NotInactiveVerdict(env, c), info)
    else if name == "actionCountNotLess" then (Ok(ActionCountVerdict(env, c)), info)
    else if name == "noActiveBlockBetweenDates" then
      var b := BlockVerdict(env.wiki.blocks(env.name), c);
      (if b.None? then Err(TypeError) else Ok(b.value), info)
    else (Err(UnknownCriterion(name)), info)
  }

  /** The dispatch of `checkOne` once the request cap is known: a criterion
      checked by hand, then a missing account, then a registered handler (a
      handler shadows a built-in of the same name; one registered as nothing
      hides it), then a built-in evaluator. */
  function Evaluation(env: Env, info: Info, handlers: map<string, Option<Handler>>, cr: Criterion): (r: (Result<Verdict>, Info))
  {
    if cr.needsManualCheck then (Ok(Verdict(NeedsManualCheck, NoDetails)), info)
    else if info.missing then (Ok(Verdict(UserMissing, NoDetails)), info)
    else if cr.name in handlers then
      var h := handlers[cr.name];
      if h.None? then (Err(UnknownCriterion(cr.name)), info)
      else
        var out := h.value(env.name, cr.config);
        (if out.None? then Err(TypeError) else Ok(out.value), info)
    else Builtin(env, info, cr.name, cr.config)
  }

  /** The order of the dispatch: a criterion checked by hand wins even for a
      missing account; a missing account is reported before any evaluator
      runs; a registered handler's verdict is used as it is; a name neither
      registered nor built in throws. */
  lemma DispatchOrder(env: Env, info: Info, handlers: map<string, Option<Handler>>, cr: Criterion)
    ensures cr.needsManualCheck ==> Evaluation(env, info, handlers, cr) == (Ok(Verdict(NeedsManualCheck, NoDetails)), info)
    ensures !cr.needsManualCheck && info.missing ==> Evaluation(env, info, handlers, cr) == (Ok(Verdict(UserMissing, NoDetails)), info)
    ensures !cr.needsManualCheck && !info.missing && cr.name in handlers && handlers[cr.name].Some? ==>
      var out := handlers[cr.name].value(env.name, cr.config);
      Evaluation(env, info, handlers, cr).0 == (if out.Some? then Ok(out.value) else Err(TypeError))
    ensures !cr.needsManualCheck && !info.missing && cr.name !in handlers && cr.name !in BuiltinNames ==>
      Evaluation(env, info, handlers, cr).0 == Err(UnknownCriterion(cr.name))
  {
  }

  /** A missing account is never queried again during a check: the flag
      only goes from false to true. */
  lemma MissingIsSticky(env: Env, info: Info, handlers: map<string, Option<Handler>>, cr: Criterion)
    ensures info.missing ==> Evaluation(env, info, handlers, cr).1.missing
    ensures Evaluation(env, info, handlers, cr).1.infoRequest.None? ==> info.infoRequest.None?
  {
  }

  /** A criterion's result, pointing back at the account and the criterion. */
  datatype CheckResult = CheckResult(status: Status, details: Details, user: User, criterion: Criterion)

  function Attach(v: Result<Verdict>, u: User, cr: Criterion): (r: Result<CheckResult>)
    ensures r.Ok? <==> v.Ok?
    ensures r.Ok? ==> r.value.user == u && r.value.criterion == cr && r.value.status == v.value.status
  {
    if v.Ok? then Ok(CheckResult(v.value.status, v.value.details, u, cr)) else Err(v.failure)
  }

  /** What one account's check reads of the engine: the wiki and the
      viewer, the handlers, the viewer's account name (`None` when there is
      no viewer account), whether the account checked is the viewer's own,
      and the account's current name. */
  datatype Ctx = Ctx(wiki: Wiki, isSysop: bool, now: int, handlers: map<string, Option<Handler>>,
                     current: Option<string>, self: bool, name: string)

  /** What a check changes: the request cap (0 until known), the account's
      memoised query and the viewer's (the same when `self`). */
  datatype World = World(rate: int, info: Info, currentInfo: Info)

  predicate Coherent(ctx: Ctx, w: World)
  {
    ctx.self ==> ctx.current == Some(ctx.name) && w.currentInfo == w.info
  }

  /** `checkOne`: the request cap is derived once, from the viewer's memoised
      query (which throws when there is no viewer account); then the
      criterion is dispatched. */
  function StepOne(ctx: Ctx, w: World, cr: Criterion): (r: (Result<Verdict>, World))
    requires Coherent(ctx, w)
    ensures Coherent(ctx, r.1)
    ensures r.0.Ok? ==> r.1.rate != 0
    ensures w.rate != 0 ==> r.1.rate == w.rate && r.1.currentInfo == (if ctx.self then r.1.info else w.currentInfo)
    ensures w.rate == 0 && ctx.current.None? ==> r == (Err(TypeError), w)
    ensures w.rate == 0 && ctx.current.Some? ==>
      r.1.rate == RateLimit(UserInfo(ctx.wiki, ctx.current.value, w.currentInfo).1)
    ensures (w.rate != 0 || ctx.current.Some?) ==>
      var info := if w.rate == 0 && ctx.self then UserInfo(ctx.wiki, ctx.current.value, w.currentInfo).0 else w.info;
      var out := Evaluation(Env(ctx.wiki, ctx.name, r.1.rate, ctx.isSysop, ctx.now), info, ctx.handlers, cr);
      r.0 == out.0 && r.1.info == out.1
  {
    if w.rate == 0 && ctx.current.None? then (Err(TypeError), w)
    else
      var w1 :=
        if w.rate != 0 then w
        else
          var fetched := UserInfo(ctx.wiki, ctx.current.value, w.currentInfo);
          World(RateLimit(fetched.1), if ctx.self then fetched.0 else w.info, fetched.0);
      var env := Env(ctx.wiki, ctx.name, w1.rate, ctx.isSysop, ctx.now);
      var out := Evaluation(env, w1.info, ctx.handlers, cr);
      (out.0, World(w1.rate, out.1, if ctx.self then out.1 else w1.currentInfo))
  }

  /** One round of `check`: every criterion in order, stopping at the first
      that throws. */
  function CheckRound(ctx: Ctx, w: World, criteria: seq<Criterion>, u: User): (r: (Result<seq<CheckResult>>, World))
    requires Coherent(ctx, w)
    decreases |criteria|
    ensures Coherent(ctx, r.1)
    ensures r.0.Ok? ==> Aligned(r.0.value, criteria, u)
  {
    if criteria == [] then (Ok([]), w)
    else
      var first := StepOne(ctx, w, criteria[0]);
      if first.0.Err? then (Err(first.0.failure), first.1)
      else
        var rest := CheckRound(ctx, first.1, criteria[1..], u);
        if rest.0.Err? then rest
        else (Ok([Attach(first.0, u, criteria[0]).value] + rest.0.value), rest.1)
  }

  /** One result per criterion, in order, each pointing at the account. */
  predicate Aligned(rs: seq<CheckResult>, criteria: seq<Criterion>, u: User)
  {
    |rs| == |criteria| && forall i | 0 <= i < |criteria| :: rs[i].user == u && rs[i].criterion == criteria[i]
  }

  /** The results that make `check` look for a rename. */
  predicate AnyFailed(rs: seq<CheckResult>)
  {
    exists i | 0 <= i < |rs| :: rs[i].status == NotMeets || rs[i].status == NotEnoughRights
  }

  /** The comment the wiki gives the move of a user page during an account
      rename (possibly cut short). */
  const MoveMarker := "Автоматическое переим"

  /** The rename may be followed: the account has no votes here, or the
      rename is strictly later than its first vote. */
  predicate VotesAllow(votes: Option<seq<Vote>>, date: Option<int>)
  {
    votes.None? || |votes.value| == 0 || GtOpt(date, votes.value[0].date)
  }

  /** The new name in the account's first rename-log entry, if non-empty. */
  function DirectRenameTarget(e: Option<RenameEntry>): (r: Option<string>)
    ensures r.Some? <==> e.Some? && e.value.newuser.Some? && e.value.newuser.value != ""
    ensures r.Some? ==> r == e.value.newuser
  {
    if e.Some? && e.value.newuser.Some? && e.value.newuser.value != "" then e.value.newuser else None
  }

  /** `title.slice(title.indexOf(':') + 1)`: the text after the first colon,
      or the whole title when it has none. */
  function AfterColon(title: string): (r: string)
    ensures ':' !in title ==> r == title
    ensures ':' in title ==> exists k | 0 <= k < |title| :: title[k] == ':' && ':' !in title[..k] && r == title[k + 1..]
  {
    var k := IndexOf(title, ':');
    title[k + 1..]
  }

  /** The new name read from the first move-log entry of the user page: the
      move's comment carries the rename marker, the moved page is in the
      user namespace (2), and the target title has a non-empty name after its
      namespace prefix. */
  function MoveRenameTarget(e: Option<MoveEntry>): (r: Option<string>)
    ensures r.Some? ==> (e.Some? && e.value.comment.Some? && Contains(e.value.comment.value, MoveMarker) &&
      e.value.ns == Some(2) && e.value.targetTitle.Some? && r.value == AfterColon(e.value.targetTitle.value) && r.value != "")
    ensures r.None? ==> (e.None? || e.value.comment.None? || !Contains(e.value.comment.value, MoveMarker) ||
      e.value.ns != Some(2) || e.value.targetTitle.None? || AfterColon(e.value.targetTitle.value) == "")
  {
    if e.Some? && e.value.comment.Some? && e.value.comment.value != "" && Contains(e.value.comment.value, MoveMarker) &&
       e.value.ns == Some(2) && e.value.targetTitle.Some? && e.value.targetTitle.value != "" &&
       AfterColon(e.value.targetTitle.value) != ""
    then Some(AfterColon(e.value.targetTitle.value))
    else None
  }

  function RenameDate(e: Option<RenameEntry>): Option<int>
  {
    if e.Some? then e.value.timestamp else None
  }

  function MoveDate(e: Option<MoveEntry>): Option<int>
  {
    if e.Some? then e.value.timestamp else None
  }

  /** The name `check` moves to after a round that needs it: the rename
      log's target when the votes allow it; otherwise, only for a missing
      account, the move log's target when the votes allow it. */
  function NextName(w: Wiki, name: string, votes: Option<seq<Vote>>, missing: bool): (r: Option<string>)
  {
    var d := w.renameLog(name);
    if DirectRenameTarget(d).Some? && VotesAllow(votes, RenameDate(d)) then DirectRenameTarget(d)
    else if missing then
      var m := w.moveLog(name);
      if MoveRenameTarget(m).Some? && VotesAllow(votes, MoveDate(m)) then MoveRenameTarget(m) else None
    else None
  }

  /** Where the next name comes from: the rename log first; the move log is
      consulted only for a missing account; either needs the votes to allow
      it; a found name is never empty. */
  lemma NextNameRule(w: Wiki, name: string, votes: Option<seq<Vote>>, missing: bool)
    ensures var d := w.renameLog(name);
      DirectRenameTarget(d).Some? && VotesAllow(votes, RenameDate(d)) ==> NextName(w, name, votes, missing) == DirectRenameTarget(d)
    ensures !missing ==> (NextName(w, name, votes, missing).Some? <==>
      DirectRenameTarget(w.renameLog(name)).Some? && VotesAllow(votes, RenameDate(w.renameLog(name))))
    ensures NextName(w, name, votes, missing).Some? ==> NextName(w, name, votes, missing).value != ""
    ensures votes.Some? && |votes.value| > 0 && votes.value[0].date.None? ==> NextName(w, name, votes, missing).None?
  {
  }

  /** A move of "Участник:Old" to "Участник:New" whose comment is the marker
      (cut short as the wiki may) gives the name "New"; the same move outside
      the user namespace gives nothing. */
  lemma MoveRenameExample(t: int)
    ensures MoveRenameTarget(Some(MoveEntry(Some(MoveMarker), Some(2), Some("Участник:New"), Some(t)))) == Some("New")
    ensures MoveRenameTarget(Some(MoveEntry(Some(MoveMarker), Some(3), Some("Участник:New"), Some(t)))) == None
  {
    MarkerContainsItself();
    UserTitleName();
  }

  lemma MarkerContainsItself()
    ensures Contains(MoveMarker, MoveMarker)
  {
    assert OccursAt(MoveMarker, MoveMarker, 0);
  }

  lemma UserTitleName()
    ensures AfterColon("Участник:New") == "New"
  {
    var title := "Участник:New";
    assert title[8] == ':' && ':' !in title[..8];
    assert IndexOf(title, ':') == 8;
    assert title[9..] == "New";
  }

  function Renamed(ctx: Ctx, n: string): Ctx
  {
    ctx.(name := n, current := if ctx.self then Some(n) else ctx.current)
  }

  /** `changeName` clears the account's memoised query. */
  function Cleared(ctx: Ctx, w: World): World
  {
    w.(info := Unqueried, currentInfo := if ctx.self then Unqueried else w.currentInfo)
  }

  /** The outcome of `check`: the results, and the state and name it leaves. */
  datatype CheckRun = CheckRun(result: Result<seq<CheckResult>>, world: World, ctx: Ctx)

  /** What one pass of `check`'s loop decides: stop with a run, or go on
      under a new name from a new state. */
  datatype RoundEnd = Final(run: CheckRun) | Again(next: Ctx, world: World)

  /** One pass of `check`'s loop: a round is final when it throws, when the
      account exists and no result failed, or when no rename can be
      followed; otherwise the account is renamed and its query forgotten. */
  function RoundStep(ctx: Ctx, w: World, votes: Option<seq<Vote>>, criteria: seq<Criterion>, u: User): (e: RoundEnd)
    requires Coherent(ctx, w)
    ensures e.Final? ==> Coherent(e.run.ctx, e.run.world) && e.run.ctx == ctx
    ensures e.Again? ==>
      (Coherent(e.next, e.world) && e.next.wiki == ctx.wiki && e.next.handlers == ctx.handlers && e.next.self == ctx.self)
    ensures e.Final? && e.run.result.Ok? ==>
      (Aligned(e.run.result.value, criteria, u) &&
       ((!e.run.world.info.missing && !AnyFailed(e.run.result.value)) ||
        NextName(ctx.wiki, ctx.name, votes, e.run.world.info.missing).None?))
    ensures var round := CheckRound(ctx, w, criteria, u);
      (round.0.Err? || (!round.1.info.missing && !AnyFailed(round.0.value))) ==> e.Final?
    ensures e.Again? ==>
      var round := CheckRound(ctx, w, criteria, u);
      var n := NextName(ctx.wiki, ctx.name, votes, round.1.info.missing);
      n.Some? && e.next == Renamed(ctx, n.value) && e.world == Cleared(ctx, round.1)
  {
    var round := CheckRound(ctx, w, criteria, u);
    if round.0.Err? then Final(CheckRun(round.0, round.1, ctx))
    else if !round.1.info.missing && !AnyFailed(round.0.value) then Final(CheckRun(round.0, round.1, ctx))
    else
      var n := NextName(ctx.wiki, ctx.name, votes, round.1.info.missing);
      if n.None? then Final(CheckRun(round.0, round.1, ctx))
      else Again(Renamed(ctx, n.value), Cleared(ctx, round.1))
  }

  /** `check` with at most `fuel` passes of its loop. A successful run
      returns one result per criterion, in order, from a round after which
      the account exists and nothing failed, or after which no rename can be
      followed. */
  function CheckRuns(ctx: Ctx, w: World, votes: Option<seq<Vote>>, criteria: seq<Criterion>, u: User, fuel: nat): (run: CheckRun)
    requires Coherent(ctx, w)
    decreases fuel
    ensures Coherent(run.ctx, run.world)
    ensures run.ctx.wiki == ctx.wiki && run.ctx.handlers == ctx.handlers && run.ctx.self == ctx.self
    ensures run.result.Ok? ==>
      Aligned(run.result.value, criteria, u) &&
      ((!run.world.info.missing && !AnyFailed(run.result.value)) ||
       NextName(run.ctx.wiki, run.ctx.name, votes, run.world.info.missing).None?)
  {
    if fuel == 0 then CheckRun(Err(OutOfFuel), w, ctx)
    else
      match RoundStep(ctx, w, votes, criteria, u)
      case Final(run) => run
      case Again(next, w') => CheckRuns(next, w', votes, criteria, u, fuel - 1)
  }

  /** `check` stops as soon as a round throws, or leaves the account
      existing with no result `notMeets` or `notEnoughRights`. Otherwise it
      goes on under the name the logs give, with the account's query
      forgotten, or stops when they give none. */
  lemma StopsAsSoonAs(ctx: Ctx, w: World, votes: Option<seq<Vote>>, criteria: seq<Criterion>, u: User, fuel: nat)
    requires Coherent(ctx, w) && fuel > 0
    ensures var round := CheckRound(ctx, w, criteria, u);
      (round.0.Err? || (!round.1.info.missing && !AnyFailed(round.0.value))) ==>
        CheckRuns(ctx, w, votes, criteria, u, fuel) == CheckRun(round.0, round.1, ctx)
    ensures var round := CheckRound(ctx, w, criteria, u);
      var n := NextName(ctx.wiki, ctx.name, votes, round.1.info.missing);
      (round.0.Ok? && (round.1.info.missing || AnyFailed(round.0.value))) ==>
        CheckRuns(ctx, w, votes, criteria, u, fuel) ==
          (if n.None? then CheckRun(round.0, round.1, ctx)
           else CheckRuns(Renamed(ctx, n.value), Cleared(ctx, round.1), votes, criteria, u, fuel - 1))
  {
  }

  /** A run with fuel left is its first pass, then the rest. */
  lemma CheckRunsStep(ctx: Ctx, w: World, votes: Option<seq<Vote>>, criteria: seq<Criterion>, u: User, n: nat, e: RoundEnd)
    requires Coherent(ctx, w) && n > 0 && e == RoundStep(ctx, w, votes, criteria, u)
    ensures e.Final? ==> CheckRuns(ctx, w, votes, criteria, u, n) == e.run
    ensures e.Again? ==> CheckRuns(ctx, w, votes, criteria, u, n) == CheckRuns(e.next, e.world, votes, criteria, u, n - 1)
  {
  }

  /** One criterion of a round: the round from `criteria[i]` on, seen from
      the results before it. */
  lemma CheckRoundStep(ctx: Ctx, start: World, w: World, criteria: seq<Criterion>, u: User, i: nat,
                       results: seq<CheckResult>)
    requires Coherent(ctx, start) && Coherent(ctx, w) && i < |criteria|
    requires var tail := CheckRound(ctx, w, criteria[i..], u);
      CheckRound(ctx, start, criteria, u) == (if tail.0.Err? then tail else (Ok(results + tail.0.value), tail.1))
    ensures var o := StepOne(ctx, w, criteria[i]);
      var one := Attach(o.0, u, criteria[i]);
      (one.Err? ==> CheckRound(ctx, start, criteria, u) == (Err(one.failure), o.1)) &&
      (one.Ok? ==>
        var tail := CheckRound(ctx, o.1, criteria[i + 1..], u);
        CheckRound(ctx, start, criteria, u) == (if tail.0.Err? then tail else (Ok((results + [one.value]) + tail.0.value), tail.1)))
  {
    var cs := criteria[i..];
    assert cs[0] == criteria[i] && cs[1..] == criteria[i + 1..];
    var o := StepOne(ctx, w, criteria[i]);
    var one := Attach(o.0, u, criteria[i]);
    var tail := CheckRound(ctx, o.1, criteria[i + 1..], u);
    assert CheckRound(ctx, w, cs, u) ==
      (if o.0.Err? then (Err(o.0.failure), o.1)
       else if tail.0.Err? then tail else (Ok([one.value] + tail.0.value), tail.1));
    if one.Ok? && tail.0.Ok? {
      assert results + ([one.value] + tail.0.value) == (results + [one.value]) + tail.0.value;
    }
  }

  /** The engine object `cc`: the account cache, the registered handlers and
      the request cap, with the viewer's account and the page context. */
  class Session {
    var users: map<string, User>
    var handlers: map<string, Option<Handler>>
    var apiRateLimit: int
    var currentUser: User?
    const wiki: Wiki
    const isSysop: bool
    const now: int
    const relevantPage: bool

    /** Start-up: no cached account, no handler, no cap, and the viewer's
        account taken from the cache by its name (none when anonymous). */
    constructor(wiki: Wiki, isSysop: bool, now: int, relevantPage: bool, viewer: string)
      ensures this.wiki == wiki && this.isSysop == isSysop && this.now == now && this.relevantPage == relevantPage
      ensures handlers == map[] && apiRateLimit == 0
      ensures viewer == "" ==> currentUser == null && users == map[]
      ensures viewer != "" ==> (currentUser != null && users == map[viewer := currentUser] &&
        currentUser.name == viewer && currentUser.State() == Unqueried)
    {
      this.wiki := wiki;
      this.isSysop := isSysop;
      this.now := now;
      this.relevantPage := relevantPage;
      users := map[];
      handlers := map[];
      apiRateLimit := 0;
      currentUser := null;
      new;
      currentUser := GetUser(viewer);
    }

    /** `getUser`: the cached account of that name, else a new one, cached
        under it; nothing for an empty name. The cache stays keyed by the
        name an account was created under, whatever it is renamed to. */
    method GetUser(name: string) returns (u: User?)
      modifies this
      ensures handlers == old(handlers) && apiRateLimit == old(apiRateLimit) && currentUser == old(currentUser)
      ensures name == "" ==> u == null && users == old(users)
      ensures name != "" && name in old(users) ==> u == old(users)[name] && users == old(users)
      ensures name != "" && name !in old(users) ==>
        u != null && fresh(u) && users == old(users)[name := u] && u.name == name && u.State() == Unqueried &&
        u.votes == (if relevantPage then Some([]) else None) &&
        u.nameWhenVoted == (if relevantPage then Some(name) else None)
    {
      if name == "" {
        return null;
      }
      if name in users {
        u := users[name];
      } else {
        u := new User(name, relevantPage);
        users := users[name := u];
      }
    }

    /** `addHandler`: the handler is used for the criterion name from now on. */
    method AddHandler(name: string, handler: Option<Handler>)
      modifies this
      ensures handlers == old(handlers)[name := handler]
      ensures users == old(users) && apiRateLimit == old(apiRateLimit) && currentUser == old(currentUser)
    {
      handlers := handlers[name := handler];
    }
  }

  /** One account under check. */
  class User {
    var name: string
    const nameWhenVoted: Option<string>
    var votes: Option<seq<Vote>>
    var missing: bool
    var infoRequest: Option<Option<UserEntry>>

    /** On the vote page the account remembers the name it voted under and
        starts with no votes. */
    constructor(name: string, relevantPage: bool)
      ensures this.name == name && State() == Unqueried
      ensures votes == (if relevantPage then Some([]) else None)
      ensures nameWhenVoted == (if relevantPage then Some(name) else None)
    {
      this.name := name;
      missing := false;
      infoRequest := None;
      if relevantPage {
        nameWhenVoted := Some(name);
        votes := Some([]);
      } else {
        nameWhenVoted := None;
        votes := None;
      }
    }

    function State(): Info
      reads this
    {
      Info(missing, infoRequest)
    }

    /** What a check of this account reads of the engine. */
    function CtxOf(session: Session): Ctx
      reads this, session, session.currentUser
    {
      Ctx(session.wiki, session.isSysop, session.now, session.handlers,
        if session.currentUser == null then None else Some(session.currentUser.name),
        session.currentUser == this, name)
    }

    /** What a check of this account changes. */
    function WorldOf(session: Session): World
      reads this, session, session.currentUser
    {
      World(session.apiRateLimit, State(), if session.currentUser == null then Unqueried else session.currentUser.State())
    }

    function EnvOf(session: Session): Env
      reads this, session
    {
      Env(session.wiki, name, session.apiRateLimit, session.isSysop, session.now)
    }

    /** `changeName`: a new name and a forgotten account query; the name
        voted under and the votes stay. */
    method ChangeName(newName: string)
      modifies this
      ensures name == newName && State() == Unqueried && votes == old(votes)
    {
      name := newName;
      missing := false;
      infoRequest := None;
    }

    /** `getUserInfo`. */
    method GetUserInfo(w: Wiki) returns (entry: Option<UserEntry>)
      modifies this
      ensures (State(), entry) == UserInfo(w, name, old(State()))
      ensures name == old(name) && votes == old(votes)
    {
      if infoRequest.Some? {
        return infoRequest.value;
      }
      entry := w.users(name);
      infoRequest := Some(entry);
      if entry.Some? && entry.value.missing {
        missing := true;
      }
    }

    /** `requestContribs`. */
    method RequestContribs(env: Env, q: Query, enough: int) returns (contribs: seq<Contrib>)
      ensures contribs == Contribs(env, q, enough).items
    {
      var f := Paginate(env.wiki.contribs(env.name, q.ns, q.window), KeepContribs(q.filterVotes), env.rate,
        Adaptive(q.filterVotes), enough, []);
      contribs := f.items;
    }

    /** `requestDeletedContribs`. */
    method RequestDeletedContribs(env: Env, q: Query, enough: int) returns (revisions: seq<DeletedRevision>)
      ensures revisions == DeletedContribs(env, q, enough).items
    {
      var f := Paginate(env.wiki.deletedRevisions(env.name, q.window), KeepDeleted(q.filterVotes), env.rate,
        Adaptive(q.filterVotes), enough, []);
      revisions := f.items;
    }

    /** `collectActions`: the three sources into one array, sorted in place. */
    method CollectActions(env: Env, q: Query, enough: int) returns (actions: seq<Action>)
      ensures actions == CollectedActions(env, q, enough)
    {
      var held := GatherActions(env, q, enough);
      var a := new Action[|held|](i requires 0 <= i < |held| => held[i]);
      assert a[..] == held;
      SortActions(a);
      actions := a[..];
    }

    /** The pushes of `collectActions` before the sort. */
    method GatherActions(env: Env, q: Query, enough: int) returns (held: seq<Action>)
      ensures held == UnsortedActions(env, q, enough)
    {
      var contribs := RequestContribs(env, q, enough);
      held := EditActions(contribs);
      if DeletedWanted(env, q, enough, |held|) {
        var deleted := RequestDeletedContribs(env, q, if enough == 0 then 0 else enough - |held|);
        held := held + DeletedActions(deleted);
      }
      assert held == ActionsBeforeLogs(env, q, enough);
      if Wants(enough, |held|) {
        var f := Paginate(env.wiki.logEvents(env.name, q.window), KeepLogs(), env.rate, FullPages, enough, held);
        held := f.items;
      }
    }

    /** `editCountNotLess`. */
    method EditCountNotLess(env: Env, c: Config) returns (v: Verdict)
      ensures v == EditCountVerdict(env, c)
    {
      var safe := SafeValue(c);
      var contribs := RequestContribs(env, QueryOf(c), safe);
      if |contribs| >= safe {
        return Verdict(Meets, EditCount(|contribs|, None));
      }
      var edits := EditActions(contribs);
      if CountsDeleted(c) && env.isSysop {
        var deleted := RequestDeletedContribs(env, QueryOf(c), safe - |contribs|);
        edits := edits + DeletedActions(deleted);
      }
      var status;
      if |edits| >= safe {
        status := Meets;
      } else if |edits| >= c.count {
        status := if !CountsDeleted(c) || env.isSysop then PossiblyMeets else NotEnoughRights;
      } else {
        status := if !CountsDeleted(c) || env.isSysop then NotMeets else NotEnoughRights;
      }
      v := Verdict(status, EditCount(|edits|, Some(edits)));
    }

    /** `registrationDateNotLater`: queries the account (memoised). */
    method RegistrationDateNotLater(w: Wiki, c: Config) returns (v: Verdict)
      modifies this
      ensures var fetched := UserInfo(w, old(name), old(State()));
        State() == fetched.0 &&
        v == RegistrationVerdict(fetched.0.missing, fetched.1, w.firstEdit(old(name)), Prepared(c.valueDate, true))
      ensures name == old(name) && votes == old(votes)
    {
      var latest := Prepared(c.valueDate, true);
      var entry := GetUserInfo(w);
      if missing {
        return Verdict(UserMissing, NoDetails);
      }
      var date := if entry.Some? then entry.value.registration else None;
      if entry.Some? && entry.value.registration.None? {
        date := w.firstEdit(name);
      }
      v := Verdict(if LeOpt(date, latest) then Meets else NotMeets,
        Registration(date, if entry.Some? then entry.value.editcount else None));
    }

    /** `hadFlagFor`. */
    method HadFlagFor(env: Env, c: Config) returns (r: Result<Verdict>)
      ensures r == HadFlagForVerdict(env, c)
    {
      var entries := RightsEntries(env, Window(None, Prepared(c.referenceDate, true)));
      if entries.Err? {
        return Err(entries.failure);
      }
      var flags := ResolveFlags(c);
      if flags.None? {
        return Err(TypeError);
      }
      r := FlagsVerdict(entries.value, flags.value, c.count, c.unit, env.now);
    }

    /** `notLostFlagInLast`. */
    method NotLostFlagInLast(env: Env, c: Config) returns (r: Result<Verdict>)
      ensures r == NotLostVerdict(env, c)
    {
      var ref := Prepared(if Truthy(c.referenceDate) then c.referenceDate else DateValue(env.now), false);
      var sub := CreateSubFunc(c.count, c.unit);
      if sub.None? || ref.None? {
        return Err(TypeError);
      }
      var flags := ResolveFlags(c);
      var entries := RightsEntries(env, Window(Some(ApplyShift(sub.value, ref.value)), ref));
      if entries.Err? {
        return Err(entries.failure);
      }
      if flags.None? {
        return Err(TypeError);
      }
      var loss := FirstFlagLoss(entries.value, flags.value);
      if loss.Some? {
        return Ok(Verdict(NotMeets, LostFlag(flags.value[loss.value.0], entries.value[loss.value.1].timestamp)));
      }
      r := Ok(Verdict(Meets, NoDetails));
    }

    /** `notInactiveFor`. */
    method NotInactiveFor(env: Env, c: Config) returns (r: Result<Verdict>)
      ensures r == NotInactiveVerdict(env, c)
    {
      var ps := Prepared(c.periodStart, false);
      var pe := Prepared(c.periodEnd, true);
      var sub := CreateSubFunc(c.count, c.unit);
      var actions := CollectActions(env, QueryOf(c), 0);
      if sub.None? {
        return Err(TypeError);
      }
      var g := FindInactiveGap(sub.value, actions, ps, pe);
      if g <= |actions| {
        return Ok(Verdict(Unproven(env.isSysop), InactivePeriod(Previous(actions, ps, g), Current(actions, pe, g))));
      }
      r := Ok(Verdict(Meets, NoDetails));
    }

    /** `actionCountNotLess`. */
    method ActionCountNotLess(env: Env, c: Config) returns (v: Verdict)
      ensures v == ActionCountVerdict(env, c)
    {
      var actions := CollectActions(env, QueryOf(c), c.count);
      v := Verdict(if |actions| < c.count then Unproven(env.isSysop) else Meets, ActionCount(|actions|, actions));
    }

    /** The dispatch of `checkOne` after the request cap. */
    method Evaluate(session: Session, cr: Criterion) returns (v: Result<Verdict>)
      modifies this
      ensures (v, State()) == Evaluation(old(EnvOf(session)), old(State()), session.handlers, cr)
      ensures name == old(name) && votes == old(votes)
    {
      if cr.needsManualCheck {
        return Ok(Verdict(NeedsManualCheck, NoDetails));
      }
      if missing {
        return Ok(Verdict(UserMissing, NoDetails));
      }
      var env := EnvOf(session);
      var c := cr.config;
      if cr.name in session.handlers {
        var h := session.handlers[cr.name];
        if h.None? {
          return Err(UnknownCriterion(cr.name));
        }
        var out := h.value(name, c);
        return if out.None? then Err(TypeError) else Ok(out.value);
      }
      if cr.name == "editCountNotLess" {
        var verdict := EditCountNotLess(env, c);
        v := Ok(verdict);
      } else if cr.name == "registrationDateNotLater" {
        var verdict := RegistrationDateNotLater(session.wiki, c);
        v := Ok(verdict);
      } else if cr.name == "editsBetweenDates" {
        v := EditsBetweenVerdict(env, c);
      } else if cr.name == "hadFlagFor" {
        v := HadFlagFor(env, c);
      } else if cr.name == "notLostFlagInLast" {
        v := NotLostFlagInLast(env, c);
      } else if cr.name == "notInactiveFor" {
        v := NotInactiveFor(env, c);
      } else if cr.name == "actionCountNotLess" {
        var verdict := ActionCountNotLess(env, c);
        v := Ok(verdict);
      } else if cr.name == "noActiveBlockBetweenDates" {
        var b := BlockVerdict(session.wiki.blocks(name), c);
        v := if b.None? then Err(TypeError) else Ok(b.value);
      } else {
        v := Err(UnknownCriterion(cr.name));
      }
    }

    /** `checkOne`. */
    method CheckOne(session: Session, cr: Criterion) returns (r: Result<CheckResult>)
      modifies this, session, session.currentUser
      ensures var o := StepOne(old(CtxOf(session)), old(WorldOf(session)), cr);
        WorldOf(session) == o.1 && r == Attach(o.0, this, cr)
      ensures CtxOf(session) == old(CtxOf(session))
      ensures votes == old(votes) && session.users == old(session.users) && session.currentUser == old(session.currentUser)
    {
      if session.apiRateLimit == 0 {
        if session.currentUser == null {
          return Err(TypeError);
        }
        var entry := session.currentUser.GetUserInfo(session.wiki);
        session.apiRateLimit := RateLimit(entry);
      }
      var v := Evaluate(session, cr);
      r := Attach(v, this, cr);
    }

    /** The `Promise.all` of `check`, one criterion after the other. */
    method CheckEach(session: Session, criteria: seq<Criterion>) returns (r: Result<seq<CheckResult>>)
      modifies this, session, session.currentUser
      ensures var o := CheckRound(old(CtxOf(session)), old(WorldOf(session)), criteria, this);
        r == o.0 && WorldOf(session) == o.1
      ensures CtxOf(session) == old(CtxOf(session))
      ensures votes == old(votes) && session.users == old(session.users) && session.currentUser == old(session.currentUser)
    {
      ghost var ctx := CtxOf(session);
      ghost var start := WorldOf(session);
      var results: seq<CheckResult> := [];
      assert criteria[0..] == criteria;
      assert forall rs: seq<CheckResult> :: results + rs == rs;
      for i := 0 to |criteria|
        invariant CtxOf(session) == ctx
        invariant votes == old(votes) && session.users == old(session.users) && session.currentUser == old(session.currentUser)
        invariant var tail := CheckRound(ctx, WorldOf(session), criteria[i..], this);
          CheckRound(ctx, start, criteria, this) == (if tail.0.Err? then tail else (Ok(results + tail.0.value), tail.1))
      {
        CheckRoundStep(ctx, start, WorldOf(session), criteria, this, i, results);
        var one := CheckOne(session, criteria[i]);
        if one.Err? {
          return Err(one.failure);
        }
        results := results + [one.value];
      }
      assert criteria[|criteria|..] == [];
      assert results + [] == results;
      r := Ok(results);
    }

    /** The rename step of `check` after a round that needs it: `changeName`
        to the name found, if any. */
    method FollowRename(session: Session) returns (renamed: bool)
      modifies this
      ensures var next := NextName(session.wiki, old(name), old(votes), old(missing));
        renamed == next.Some? &&
        (renamed ==> name == next.value && State() == Unqueried) &&
        (!renamed ==> name == old(name) && State() == old(State()))
      ensures votes == old(votes)
    {
      var entry := session.wiki.renameLog(name);
      var newName := DirectRenameTarget(entry);
      if newName.Some? && VotesAllow(votes, RenameDate(entry)) {
        ChangeName(newName.value);
        return true;
      } else if missing {
        var move := session.wiki.moveLog(name);
        var moved := MoveRenameTarget(move);
        if moved.Some? && VotesAllow(votes, MoveDate(move)) {
          ChangeName(moved.value);
          return true;
        }
      }
      return false;
    }

    /** One pass of `check`'s loop: the round, then, when the results call
        for it, the rename. */
    method Round(session: Session, criteria: seq<Criterion>) returns (results: Result<seq<CheckResult>>, again: bool)
      modifies this, session, session.currentUser
      ensures var e := RoundStep(old(CtxOf(session)), old(WorldOf(session)), votes, criteria, this);
        again == e.Again? &&
        (e.Final? ==> e.run == CheckRun(results, WorldOf(session), CtxOf(session))) &&
        (e.Again? ==> e.next == CtxOf(session) && e.world == WorldOf(session))
      ensures votes == old(votes)
      ensures session.users == old(session.users) && session.currentUser == old(session.currentUser)
      ensures session.handlers == old(session.handlers)
    {
      ghost var before := CtxOf(session);
      results := CheckEach(session, criteria);
      if results.Err? || (!missing && !AnyFailed(results.value)) {
        return results, false;
      }
      again := FollowRename(session);
      if again {
        assert CtxOf(session) == Renamed(before, name);
      }
    }

    /** `check`: rounds of checks, following renames, at most `fuel` rounds. */
    method Check(session: Session, criteria: seq<Criterion>, fuel: nat) returns (r: Result<seq<CheckResult>>)
      modifies this, session, session.currentUser
      ensures var run := CheckRuns(old(CtxOf(session)), old(WorldOf(session)), votes, criteria, this, fuel);
        r == run.result && WorldOf(session) == run.world && CtxOf(session) == run.ctx
      ensures votes == old(votes)
      ensures session.users == old(session.users) && session.currentUser == old(session.currentUser)
      ensures session.handlers == old(session.handlers)
    {
      ghost var ctx := CtxOf(session);
      ghost var start := WorldOf(session);
      var n := fuel;
      while true
        invariant votes == old(votes) && session.users == old(session.users) && session.currentUser == old(session.currentUser)
        invariant session.handlers == old(session.handlers)
        invariant CheckRuns(ctx, start, votes, criteria, this, fuel) == CheckRuns(CtxOf(session), WorldOf(session), votes, criteria, this, n)
        decreases n
      {
        if n == 0 {
          return Err(OutOfFuel);
        }
        CheckRunsStep(CtxOf(session), WorldOf(session), votes, criteria, this, n,
          RoundStep(CtxOf(session), WorldOf(session), votes, criteria, this));
        var again;
        r, again := Round(session, criteria);
        if !again {
          return;
        }
        n := n - 1;
      }
    }
  }
}
