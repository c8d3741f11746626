/** What the engine reads from the wiki's query API, as plain data. Every
    request the source sends through `mw.Api().get` becomes a lookup in a
    `Wiki` value keyed by the account name and the query's own parameters. A
    paginated list is the sequence of pages the API would return in order:
    the k-th request of a loop receives page k, and asking past the end is
    the same as a response that lacks its entry list. */
module Wiki {
  import opened Values

  /** One row of `list=usercontribs`. */
  datatype Contrib = Contrib(title: string, timestamp: int)

  /** One revision bundled in a row of `list=alldeletedrevisions`. */
  datatype DeletedRevision = DeletedRevision(timestamp: int)

  /** One row of `list=alldeletedrevisions`: a page and its deleted revisions. */
  datatype DeletedPage = DeletedPage(title: string, revisions: seq<DeletedRevision>)

  /** One row of `list=logevents` as the action collector requests it. */
  datatype LogEvent = LogEvent(kind: string, action: string, timestamp: int)

  /** One row of the rights log: the groups before and after the change;
      either list may be absent from the row. */
  datatype RightsEntry = RightsEntry(timestamp: int, oldgroups: Option<seq<string>>, newgroups: Option<seq<string>>)

  /** The first row of the user-rename log for a title. */
  datatype RenameEntry = RenameEntry(newuser: Option<string>, timestamp: Option<int>)

  /** The first row of the page-move log for a title: its comment, the
      namespace of the moved page and the title it was moved to. */
  datatype MoveEntry = MoveEntry(comment: Option<string>, ns: Option<int>, targetTitle: Option<string>, timestamp: Option<int>)

  datatype Expiry = Infinite | ExpiresAt(instant: int)

  /** The `restrictions` member of a block: absent, an array (of this length;
      the API gives an empty one for a sitewide block), or an object that may
      list the namespaces of a partial block. */
  datatype Restrictions = Absent | List(length: nat) | Partial(namespaces: Option<seq<int>>)

  /** The first row of `list=blocks`. */
  datatype BlockEntry = BlockEntry(timestamp: int, expiry: Expiry, restrictions: Restrictions)

  /** The first row of `list=users`. */
  datatype UserEntry = UserEntry(missing: bool, registration: Option<int>, editcount: Option<int>, rights: Option<seq<string>>)

  /** One response of a paginated list: the entry list (absent when the
      response has no such member) and whether it carries a non-empty
      continuation token. The token's value only selects the next page, which
      the position of the page in its sequence already does. */
  datatype Page<T> = Page(entries: Option<seq<T>>, more: bool)

  /** The time window of a query (`*start` / `*end`), each end optional. */
  datatype Window = Window(start: Option<int>, end: Option<int>)

  /** The wiki as the engine sees it. `contribs` is keyed by name, namespace
      and window; the rights log is a single response because the loops that
      read it never send a continuation token; `firstEdit` is the timestamp of
      the oldest contribution, the answer to a one-row `usercontribs` query in
      ascending order. */
  datatype Wiki = Wiki(
    users: string -> Option<UserEntry>,
    contribs: (string, Option<int>, Window) -> seq<Page<Contrib>>,
    firstEdit: string -> Option<int>,
    deletedRevisions: (string, Window) -> seq<Page<DeletedPage>>,
    logEvents: (string, Window) -> seq<Page<LogEvent>>,
    rightsLog: (string, Window) -> Page<RightsEntry>,
    renameLog: string -> Option<RenameEntry>,
    moveLog: string -> Option<MoveEntry>,
    blocks: string -> Option<BlockEntry>)

  /** The response to the k-th request of a paginated loop. */
  function Response<T>(pages: seq<Page<T>>, k: nat): (p: Page<T>)
    ensures k >= |pages| ==> p.entries.None?
    ensures k < |pages| ==> p == pages[k]
  {
    if k < |pages| then pages[k] else Page(None, false)
  }
}
