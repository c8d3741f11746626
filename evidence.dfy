/** The evidence collectors of `User`: the paginated reads of contributions,
    deleted revisions and log events, and `collectActions`, which merges them
    and sorts the result by time. Each loop is one run of `Paginate`, proved
    equal to the specification function `Collect`, whose contract states
    which pages are read, what each request asks for and why the loop stops. */
module Evidence {
  import opened Values
  import opened Wiki
  import opened Util

  /** What an evaluator works with besides its criterion: the wiki, the
      account name, the page size the viewer may request, whether the viewer
      is an administrator, and the present instant. */
  datatype Env = Env(wiki: Wiki, name: string, rate: int, isSysop: bool, now: int)

  /** The collector options a criterion configures. */
  datatype Query = Query(ns: Option<int>, window: Window, filterVotes: bool, deleted: Option<bool>)

  /** One thing the account did, as `collectActions` gathers it. */
  datatype Action = Edit(contrib: Contrib) | DeletedEdit(revision: DeletedRevision) | LogAction(event: LogEvent)

  function Time(a: Action): int
  {
    match a
    case Edit(c) => c.timestamp
    case DeletedEdit(r) => r.timestamp
    case LogAction(e) => e.timestamp
  }

  // ---------------------------------------------------------------------
  // Pagination

  /** How a loop sizes its requests: the log loop always asks for full pages;
      the two contribution loops size them by what is still missing. */
  datatype LimitRule = FullPages | Adaptive(filterVotes: bool)

  /** One request: the limit it sends and how many items were held when it
      was sent. */
  datatype Request = Request(limit: int, collected: nat)

  /** The outcome of a loop: what it gathered, the requests it sent, and how
      many pages it appended (a final response without entries is requested
      but not appended). */
  datatype Fetched<U> = Fetched(items: seq<U>, requests: seq<Request>, read: nat)

  /** `!enough || collected < enough`: a target of zero (or none) never
      stops a loop. */
  predicate Wants(enough: int, have: int)
  {
    enough == 0 || have < enough
  }

  /** The limit of the next request. With a target, the contribution loops
      ask for what is still missing, or for `calcOptimalLimit` of it when
      vote pages will be filtered out, never more than the viewer's cap. */
  function PageLimit(rate: int, rule: LimitRule, enough: int, have: int): (l: int)
    ensures l <= rate
    ensures rule == Adaptive(false) && enough != 0 ==> l <= enough - have
    ensures rule == Adaptive(true) && enough != 0 ==> l == rate || l >= enough - have
  {
    if rule.Adaptive? && enough != 0 then
      Min(rate, if rule.filterVotes then CalcOptimalLimit(enough - have) else enough - have)
    else rate
  }

  function EntriesOf<T, U>(p: Page<T>, keep: seq<T> -> seq<U>): seq<U>
  {
    if p.entries.Some? then keep(p.entries.value) else []
  }

  /** The kept entries of pages `k` to `k + n - 1`, in fetch order. */
  function Kept<T, U>(pages: seq<Page<T>>, keep: seq<T> -> seq<U>, k: nat, n: nat): seq<U>
    requires k + n <= |pages|
    decreases n
  {
    if n == 0 then [] else EntriesOf(pages[k], keep) + Kept(pages, keep, k + 1, n - 1)
  }

  /** The loop goes on after a page exactly when it carried a continuation
      token and the target is not reached. */
  predicate Continues<T>(p: Page<T>, enough: int, have: int)
  {
    p.more && Wants(enough, have)
  }

  /** The do-while pagination loop from the `k`-th request on, holding `acc`:
      the result is `acc` followed by the kept entries of the pages read, in
      fetch order. `CollectRequests` and `CollectStops` state what each
      request asks for and when the loop ends. */
  function Collect<T, U>(pages: seq<Page<T>>, keep: seq<T> -> seq<U>, rate: int, rule: LimitRule,
                         enough: int, k: nat, acc: seq<U>): (f: Fetched<U>)
    requires k <= |pages|
    decreases |pages| - k
    ensures k + f.read <= |pages|
    ensures f.items == acc + Kept(pages, keep, k, f.read)
  {
    var request := Request(PageLimit(rate, rule, enough, |acc|), |acc|);
    var p := Response(pages, k);
    if p.entries.None? then Fetched(acc, [request], 0)
    else
      var acc' := acc + keep(p.entries.value);
      if Continues(p, enough, |acc'|) then
        var rest := Collect(pages, keep, rate, rule, enough, k + 1, acc');
        Fetched(rest.items, [request] + rest.requests, rest.read + 1)
      else
        Fetched(acc', [request], 1)
  }

  /** One request per page appended, plus one for a final response without
      entries; each request is sized by what was held when it was sent. */
  lemma {:induction false} CollectRequests<T, U>(pages: seq<Page<T>>, keep: seq<T> -> seq<U>, rate: int,
                                               rule: LimitRule, enough: int, k: nat, acc: seq<U>)
    requires k <= |pages|
    decreases |pages| - k
    ensures var f := Collect(pages, keep, rate, rule, enough, k, acc);
      (|f.requests| == f.read || |f.requests| == f.read + 1) &&
      forall i | 0 <= i < |f.requests| ::
        f.requests[i].collected == |acc| + |Kept(pages, keep, k, i)| &&
        f.requests[i].limit == PageLimit(rate, rule, enough, f.requests[i].collected)
  {
    var f := Collect(pages, keep, rate, rule, enough, k, acc);
    var p := Response(pages, k);
    if p.entries.Some? {
      var acc' := acc + keep(p.entries.value);
      if Continues(p, enough, |acc'|) {
        CollectRequests(pages, keep, rate, rule, enough, k + 1, acc');
        var rest := Collect(pages, keep, rate, rule, enough, k + 1, acc');
        forall i | 1 <= i < |f.requests|
          ensures f.requests[i].collected == |acc| + |Kept(pages, keep, k, i)|
        {
          assert f.requests[i] == rest.requests[i - 1];
          assert Kept(pages, keep, k, i) == keep(p.entries.value) + Kept(pages, keep, k + 1, i - 1);
        }
      }
    }
  }

  /** Every request asks for at most the viewer's cap; without vote
      filtering, a loop with a target never asks for more than is missing. */
  lemma RequestLimitsBounded<T, U>(pages: seq<Page<T>>, keep: seq<T> -> seq<U>, rate: int,
                                   rule: LimitRule, enough: int, acc: seq<U>)
    ensures var f := Collect(pages, keep, rate, rule, enough, 0, acc);
      forall i | 0 <= i < |f.requests| ::
        f.requests[i].limit <= rate &&
        (rule == Adaptive(false) && enough != 0 ==> f.requests[i].limit <= enough - f.requests[i].collected)
  {
    CollectRequests(pages, keep, rate, rule, enough, 0, acc);
  }

  /** Every page the loop appends carried entries. */
  lemma {:induction false} CollectReadsEntries<T, U>(pages: seq<Page<T>>, keep: seq<T> -> seq<U>, rate: int,
                                                   rule: LimitRule, enough: int, k: nat, acc: seq<U>)
    requires k <= |pages|
    decreases |pages| - k
    ensures var f := Collect(pages, keep, rate, rule, enough, k, acc);
      forall j | k <= j < k + f.read :: pages[j].entries.Some?
  {
    var p := Response(pages, k);
    if p.entries.Some? {
      var acc' := acc + keep(p.entries.value);
      if Continues(p, enough, |acc'|) {
        CollectReadsEntries(pages, keep, rate, rule, enough, k + 1, acc');
      }
    }
  }

  /** The loop continues past every page it appends but the last. */
  lemma {:induction false} CollectContinues<T, U>(pages: seq<Page<T>>, keep: seq<T> -> seq<U>, rate: int,
                                                rule: LimitRule, enough: int, k: nat, acc: seq<U>)
    requires k <= |pages|
    decreases |pages| - k
    ensures var f := Collect(pages, keep, rate, rule, enough, k, acc);
      forall j | k <= j < k + f.read - 1 ::
        Continues(pages[j], enough, |acc| + |Kept(pages, keep, k, j - k + 1)|)
  {
    var p := Response(pages, k);
    if p.entries.Some? {
      var acc' := acc + keep(p.entries.value);
      assert Kept(pages, keep, k, 1) == keep(p.entries.value);
      if Continues(p, enough, |acc'|) {
        CollectContinues(pages, keep, rate, rule, enough, k + 1, acc');
        var rest := Collect(pages, keep, rate, rule, enough, k + 1, acc');
        assert Collect(pages, keep, rate, rule, enough, k, acc).read == rest.read + 1;
        forall j | k + 1 <= j < k + 1 + rest.read - 1
          ensures Continues(pages[j], enough, |acc| + |Kept(pages, keep, k, j - k + 1)|)
        {
          assert Kept(pages, keep, k, j - k + 1) == keep(p.entries.value) + Kept(pages, keep, k + 1, j - k);
        }
      }
    }
  }

  /** The loop stops on a response without entries, or after a page without
      a token or once the target is met. */
  lemma {:induction false} CollectEnds<T, U>(pages: seq<Page<T>>, keep: seq<T> -> seq<U>, rate: int,
                                           rule: LimitRule, enough: int, k: nat, acc: seq<U>)
    requires k <= |pages|
    decreases |pages| - k
    ensures var f := Collect(pages, keep, rate, rule, enough, k, acc);
      Response(pages, k + f.read).entries.None? ||
      (f.read > 0 && !Continues(pages[k + f.read - 1], enough, |f.items|))
  {
    var p := Response(pages, k);
    if p.entries.Some? {
      var acc' := acc + keep(p.entries.value);
      if Continues(p, enough, |acc'|) {
        CollectEnds(pages, keep, rate, rule, enough, k + 1, acc');
        var rest := Collect(pages, keep, rate, rule, enough, k + 1, acc');
        assert Collect(pages, keep, rate, rule, enough, k, acc) == Fetched(rest.items, [Request(PageLimit(rate, rule, enough, |acc|), |acc|)] + rest.requests, rest.read + 1);
      }
    }
  }

  /** The loop continues past every page it appends but the last, and it
      stops on a response without entries, on a page without a token, or
      once the target is met. */
  lemma CollectStops<T, U>(pages: seq<Page<T>>, keep: seq<T> -> seq<U>, rate: int,
                           rule: LimitRule, enough: int, k: nat, acc: seq<U>)
    requires k <= |pages|
    ensures var f := Collect(pages, keep, rate, rule, enough, k, acc);
      (forall j | k <= j < k + f.read :: pages[j].entries.Some?) &&
      (forall j | k <= j < k + f.read - 1 ::
        Continues(pages[j], enough, |acc| + |Kept(pages, keep, k, j - k + 1)|)) &&
      (Response(pages, k + f.read).entries.None? ||
       (f.read > 0 && !Continues(pages[k + f.read - 1], enough, |f.items|)))
  {
    CollectReadsEntries(pages, keep, rate, rule, enough, k, acc);
    CollectContinues(pages, keep, rate, rule, enough, k, acc);
    CollectEnds(pages, keep, rate, rule, enough, k, acc);
  }

  /** The loop shared by `requestContribs`, `requestDeletedContribs` and the
      log-event part of `collectActions`: request page after page, append the
      kept entries, and stop as the source's `while` condition says. */
  method Paginate<T, U>(pages: seq<Page<T>>, keep: seq<T> -> seq<U>, rate: int, rule: LimitRule,
                        enough: int, acc: seq<U>) returns (f: Fetched<U>)
    ensures f == Collect(pages, keep, rate, rule, enough, 0, acc)
  {
    var items := acc;
    var requests: seq<Request> := [];
    var k := 0;
    while true
      invariant k <= |pages|
      invariant var g := Collect(pages, keep, rate, rule, enough, k, items);
        Fetched(g.items, requests + g.requests, k + g.read) == Collect(pages, keep, rate, rule, enough, 0, acc)
      decreases |pages| - k
    {
      ghost var g := Collect(pages, keep, rate, rule, enough, k, items);
      var request := Request(PageLimit(rate, rule, enough, |items|), |items|);
      var page := Response(pages, k);
      if page.entries.None? {
        assert g == Fetched(items, [request], 0);
        return Fetched(items, requests + [request], k);
      }
      var items' := items + keep(page.entries.value);
      if !Continues(page, enough, |items'|) {
        assert g == Fetched(items', [request], 1);
        return Fetched(items', requests + [request], k + 1);
      }
      ghost var rest := Collect(pages, keep, rate, rule, enough, k + 1, items');
      assert g == Fetched(rest.items, [request] + rest.requests, rest.read + 1);
      assert requests + [request] + rest.requests == requests + ([request] + rest.requests);
      requests := requests + [request];
      items := items';
      k := k + 1;
    }
  }

  // ---------------------------------------------------------------------
  // The three sources

  /** Contributions, without vote pages when `filterVotes` is set. */
  function KeepContribs(filterVotes: bool): seq<Contrib> -> seq<Contrib>
  {
    es => if filterVotes then Filter(es, (c: Contrib) => IsntVotePage(c.title)) else es
  }

  /** The revisions of the deleted pages, in order, after dropping vote
      pages when `filterVotes` is set. */
  function KeepDeleted(filterVotes: bool): seq<DeletedPage> -> seq<DeletedRevision>
  {
    es => Revisions(if filterVotes then Filter(es, (p: DeletedPage) => IsntVotePage(p.title)) else es)
  }

  function Revisions(ps: seq<DeletedPage>): (r: seq<DeletedRevision>)
    ensures |ps| == 1 ==> r == ps[0].revisions
  {
    if ps == [] then [] else ps[0].revisions + Revisions(ps[1..])
  }

  /** Log events that are the account's own actions, as actions. */
  function KeepLogs(): seq<LogEvent> -> seq<Action>
  {
    es => LogActions(Filter(es, IsntAutomaticAction))
  }

  function EditActions(cs: seq<Contrib>): (r: seq<Action>)
    ensures |r| == |cs| && forall i | 0 <= i < |cs| :: r[i] == Edit(cs[i])
  {
    seq(|cs|, i requires 0 <= i < |cs| => Edit(cs[i]))
  }

  function DeletedActions(rs: seq<DeletedRevision>): (r: seq<Action>)
    ensures |r| == |rs| && forall i | 0 <= i < |rs| :: r[i] == DeletedEdit(rs[i])
  {
    seq(|rs|, i requires 0 <= i < |rs| => DeletedEdit(rs[i]))
  }

  function LogActions(es: seq<LogEvent>): (r: seq<Action>)
    ensures |r| == |es| && forall i | 0 <= i < |es| :: r[i] == LogAction(es[i])
  {
    seq(|es|, i requires 0 <= i < |es| => LogAction(es[i]))
  }

  /** `requestContribs(config, enough)` as a specification. */
  function Contribs(env: Env, q: Query, enough: int): Fetched<Contrib>
  {
    Collect(env.wiki.contribs(env.name, q.ns, q.window), KeepContribs(q.filterVotes), env.rate,
      Adaptive(q.filterVotes), enough, 0, [])
  }

  /** `requestDeletedContribs(config, enough)` as a specification. */
  function DeletedContribs(env: Env, q: Query, enough: int): Fetched<DeletedRevision>
  {
    Collect(env.wiki.deletedRevisions(env.name, q.window), KeepDeleted(q.filterVotes), env.rate,
      Adaptive(q.filterVotes), enough, 0, [])
  }

  /** The log-event loop of `collectActions`, continuing after `acc`. */
  function LoggedActions(env: Env, q: Query, enough: int, acc: seq<Action>): Fetched<Action>
  {
    Collect(env.wiki.logEvents(env.name, q.window), KeepLogs(), env.rate, FullPages, enough, 0, acc)
  }

  /** `config.deleted`, which `collectActions` defaults to true. */
  function WithDeleted(q: Query): bool
  {
    q.deleted.None? || q.deleted.value
  }

  /** Whether `collectActions` asks for deleted revisions after
      collecting `held` contributions: deleted edits are wanted, the viewer is
      an administrator and the target is not met. */
  predicate DeletedWanted(env: Env, q: Query, enough: int, held: int)
  {
    WithDeleted(q) && env.isSysop && Wants(enough, held)
  }

  /** What `collectActions` holds before the log loop: the contributions,
      then, when wanted, the deleted revisions with the target reduced by
      what is held. */
  function ActionsBeforeLogs(env: Env, q: Query, enough: int): seq<Action>
  {
    var edits := EditActions(Contribs(env, q, enough).items);
    if DeletedWanted(env, q, enough, |edits|) then
      edits + DeletedActions(DeletedContribs(env, q, if enough == 0 then 0 else enough - |edits|).items)
    else edits
  }

  /** What `collectActions` pushes before sorting: the log loop runs only
      while the target is not met. */
  function UnsortedActions(env: Env, q: Query, enough: int): seq<Action>
  {
    var held := ActionsBeforeLogs(env, q, enough);
    if Wants(enough, |held|) then LoggedActions(env, q, enough, held).items else held
  }

  /** `collectActions(config, enough)`: the gathered actions in time order. */
  function CollectedActions(env: Env, q: Query, enough: int): (r: seq<Action>)
    ensures SortedByTime(r)
    ensures multiset(r) == multiset(UnsortedActions(env, q, enough))
  {
    SortByTime(UnsortedActions(env, q, enough))
  }

  /** The order of the sources: contributions first, then the deleted
      revisions when wanted, then log events, which are gathered only while
      the target is unmet and are all log actions. */
  lemma CollectedActionsSources(env: Env, q: Query, enough: int)
    ensures EditActions(Contribs(env, q, enough).items) <= ActionsBeforeLogs(env, q, enough)
    ensures ActionsBeforeLogs(env, q, enough) <= UnsortedActions(env, q, enough)
    ensures !Wants(enough, |ActionsBeforeLogs(env, q, enough)|) ==>
      UnsortedActions(env, q, enough) == ActionsBeforeLogs(env, q, enough)
    ensures forall i | |ActionsBeforeLogs(env, q, enough)| <= i < |UnsortedActions(env, q, enough)| ::
      UnsortedActions(env, q, enough)[i].LogAction?
  {
    var held := ActionsBeforeLogs(env, q, enough);
    if Wants(enough, |held|) {
      var pages := env.wiki.logEvents(env.name, q.window);
      var logged := LoggedActions(env, q, enough, held);
      assert logged.items == held + Kept(pages, KeepLogs(), 0, logged.read);
      LoggedAreLogActions(pages, 0, logged.read);
    }
  }

  /** Without administrator rights, or with deleted edits switched off, no
      deleted revision is among the actions. */
  lemma NoDeletedEditsWithoutRights(env: Env, q: Query, enough: int)
    requires !env.isSysop || q.deleted == Some(false)
    ensures forall i | 0 <= i < |UnsortedActions(env, q, enough)| :: !UnsortedActions(env, q, enough)[i].DeletedEdit?
  {
    CollectedActionsSources(env, q, enough);
    assert ActionsBeforeLogs(env, q, enough) == EditActions(Contribs(env, q, enough).items);
  }

  predicate AllLogActions(s: seq<Action>)
  {
    forall i | 0 <= i < |s| :: s[i].LogAction?
  }

  lemma PageLogActions(p: Page<LogEvent>)
    ensures AllLogActions(EntriesOf(p, KeepLogs()))
  {
    if p.entries.Some? {
      assert EntriesOf(p, KeepLogs()) == LogActions(Filter(p.entries.value, IsntAutomaticAction));
    }
  }

  lemma ConcatLogActions(a: seq<Action>, b: seq<Action>)
    requires AllLogActions(a) && AllLogActions(b)
    ensures AllLogActions(a + b)
  {
    forall i | 0 <= i < |a + b|
      ensures (a + b)[i].LogAction?
    {
      if i >= |a| {
        assert (a + b)[i] == b[i - |a|];
      }
    }
  }

  lemma {:induction false} LoggedAreLogActions(pages: seq<Page<LogEvent>>, k: nat, n: nat)
    requires k + n <= |pages|
    ensures forall i | 0 <= i < |Kept(pages, KeepLogs(), k, n)| :: Kept(pages, KeepLogs(), k, n)[i].LogAction?
    decreases n
  {
    if n > 0 {
      LoggedAreLogActions(pages, k + 1, n - 1);
      PageLogActions(pages[k]);
      ConcatLogActions(EntriesOf(pages[k], KeepLogs()), Kept(pages, KeepLogs(), k + 1, n - 1));
    }
  }

  // ---------------------------------------------------------------------
  // Sorting

  predicate SortedByTime(s: seq<Action>)
  {
    forall i, j | 0 <= i < j < |s| :: Time(s[i]) <= Time(s[j])
  }

  /** `x` placed after every element of `s` that is not later than it. */
  function InsertByTime(s: seq<Action>, x: Action): (r: seq<Action>)
    ensures |r| == |s| + 1
  {
    if s == [] || Time(s[|s| - 1]) <= Time(x) then s + [x]
    else InsertByTime(s[..|s| - 1], x) + [s[|s| - 1]]
  }

  lemma {:induction false} InsertByTimePermutes(s: seq<Action>, x: Action)
    ensures multiset(InsertByTime(s, x)) == multiset(s) + multiset{x}
  {
    if s != [] && Time(s[|s| - 1]) > Time(x) {
      var init := s[..|s| - 1];
      InsertByTimePermutes(init, x);
      assert s == init + [s[|s| - 1]];
    }
  }

  lemma {:induction false} InsertByTimeSorted(s: seq<Action>, x: Action)
    requires SortedByTime(s)
    ensures SortedByTime(InsertByTime(s, x))
  {
    if s != [] && Time(s[|s| - 1]) > Time(x) {
      var init, last := s[..|s| - 1], s[|s| - 1];
      InsertByTimeSorted(init, x);
      InsertByTimePermutes(init, x);
      var r := InsertByTime(init, x);
      forall i | 0 <= i < |r|
        ensures Time(r[i]) <= Time(last)
      {
        assert r[i] in multiset(r);
        if r[i] != x {
          assert r[i] in multiset(init);
          var k :| 0 <= k < |init| && init[k] == r[i];
          assert s[k] == r[i];
        }
      }
    }
  }

  /** The stable sort by timestamp that `actions.sort` performs with its
      three-way comparator: insertion of each element in turn. */
  function SortByTime(s: seq<Action>): (r: seq<Action>)
    ensures SortedByTime(r)
    ensures multiset(r) == multiset(s)
  {
    if s == [] then []
    else
      var init, last := s[..|s| - 1], s[|s| - 1];
      var sorted := SortByTime(init);
      InsertByTimeSorted(sorted, last);
      InsertByTimePermutes(sorted, last);
      assert s == init + [last];
      InsertByTime(sorted, last)
  }

  /** A list already in time order is left as it is, so the sort never
      reorders actions it has no reason to. */
  lemma {:induction false} SortByTimeOfSorted(s: seq<Action>)
    requires SortedByTime(s)
    ensures SortByTime(s) == s
  {
    if s != [] {
      var init := s[..|s| - 1];
      SortByTimeOfSorted(init);
      assert s == init + [s[|s| - 1]];
    }
  }

  /** Sorting twice changes nothing. */
  lemma SortByTimeIdempotent(s: seq<Action>)
    ensures SortByTime(SortByTime(s)) == SortByTime(s)
  {
    SortByTimeOfSorted(SortByTime(s));
  }

  /** One step of the in-place sort: move `a[i]` left past every later
      element of the sorted prefix `a[..i]`. */
  method InsertInto(a: array<Action>, i: nat)
    requires i < a.Length
    modifies a
    ensures a[..i + 1] == InsertByTime(old(a[..i]), old(a[i]))
    ensures forall k | i < k < a.Length :: a[k] == old(a[k])
  {
    ghost var prefix := a[..i];
    var x := a[i];
    var j := i;
    assert prefix[..i] == prefix && prefix[i..] == [];
    while j > 0 && Time(a[j - 1]) > Time(x)
      invariant 0 <= j <= i
      invariant forall k | 0 <= k < j :: a[k] == prefix[k]
      invariant a[j] == x
      invariant forall k | j < k <= i :: a[k] == prefix[k - 1]
      invariant forall k | i < k < a.Length :: a[k] == old(a[k])
      invariant InsertByTime(prefix, x) == InsertByTime(prefix[..j], x) + prefix[j..]
    {
      InsertStep(prefix, x, j);
      a[j] := a[j - 1];
      a[j - 1] := x;
      j := j - 1;
    }
    assert InsertByTime(prefix[..j], x) == prefix[..j] + [x];
    assert a[..i + 1] == prefix[..j] + [x] + prefix[j..];
  }

  lemma InsertStep(prefix: seq<Action>, x: Action, j: nat)
    requires 0 < j <= |prefix| && Time(prefix[j - 1]) > Time(x)
    ensures InsertByTime(prefix[..j], x) + prefix[j..] == InsertByTime(prefix[..j - 1], x) + prefix[j - 1..]
  {
    assert prefix[..j][..j - 1] == prefix[..j - 1];
    assert prefix[j - 1..] == [prefix[j - 1]] + prefix[j..];
  }

  /** `actions.sort(...)`: an in-place insertion sort whose result is the
      stable sort of the old contents. */
  method SortActions(a: array<Action>)
    modifies a
    ensures a[..] == SortByTime(old(a[..]))
  {
    ghost var original := a[..];
    var i := 0;
    while i < a.Length
      invariant 0 <= i <= a.Length
      invariant a[..i] == SortByTime(original[..i])
      invariant forall k | i <= k < a.Length :: a[k] == original[k]
    {
      SortByTimeStep(original, i);
      InsertInto(a, i);
      i := i + 1;
    }
    assert original[..a.Length] == original;
  }

  lemma SortByTimeStep(s: seq<Action>, i: nat)
    requires i < |s|
    ensures SortByTime(s[..i + 1]) == InsertByTime(SortByTime(s[..i]), s[i])
  {
    assert s[..i + 1][..i] == s[..i];
  }
}
