/** The index and the cached client together, over a registry that serves one fixed catalog, or one fixed
    list of tags: what is listed is that catalog, and the pages of tags show each tag once. */
module ServedCatalog {
  import opened Text
  import opened Sorting
  import opened Names
  import LinkHeader
  import opened Client
  import opened CatalogWalk
  import opened Pagination
  import IndexSlot
  import CatalogIndex

  /** Every catalog answer in the history was the registry's next page of names. */
  ghost predicate ServedThroughout(history: seq<Event>, names: seq<string>, n: nat) {
    forall e :: e in history && e.Fetched? && e.req.CatalogReq? && e.req.n == n ==>
      e.doc.ListAnswer? && Serves(names, e.req.last, n, e.doc.list)
  }

  ghost predicate AllRendered(history: seq<Event>, digestOf: string -> string) {
    forall e :: e in history && e.Fetched? ==> Renders(e.req, e.doc, e.reply, digestOf)
  }

  /** The registry's document behind one visit, cached or not. */
  lemma {:induction false} VisitComesFrom(history: seq<Event>, names: seq<string>, n: nat, cursor: string,
                                          visit: CatalogIndex.Visit, ttl: int, digestOf: string -> string)
    returns (doc: ListDoc)
    requires ServedThroughout(history, names, n) && AllRendered(history, digestOf)
    requires CatalogIndex.VisitJustified(history, n, cursor, visit, ttl)
    ensures Serves(names, cursor, n, doc)
    ensures visit.page == PageData(Cleaned(doc.names), Next(doc, n))
  {
    hide Serves, Cleaned, LinkHeader.NextCursor;
    var r := CatalogReq(n, cursor);
    var e := history[visit.event];
    assert e in history && e.req == r;
    doc := e.doc.list;
  }

  /** The documents behind a walk's visits, of which only the last may lack a cursor. */
  lemma {:induction false} VisitsComeFrom(history: seq<Event>, names: seq<string>, n: nat, visits: seq<CatalogIndex.Visit>,
                                          ttl: int, digestOf: string -> string, m: nat)
    returns (docs: seq<ListDoc>)
    requires ServedThroughout(history, names, n) && AllRendered(history, digestOf) && m <= |visits|
    requires CatalogIndex.VisitsJustified(history, n, visits, ttl)
    ensures |docs| == m
    ensures forall k :: 0 <= k < m ==> Serves(names, CursorAt(docs, n, k), n, docs[k])
    ensures forall k :: 0 <= k < m ==> visits[k].page == PageData(Cleaned(docs[k].names), Next(docs[k], n))
  {
    hide ServedThroughout, AllRendered, CatalogIndex.VisitsJustified, CatalogIndex.VisitJustified, Serves, Cleaned, Next,
         CursorOf, CursorAt, CatalogIndex.PagesOf;
    if m == 0 { return []; }
    var init := VisitsComeFrom(history, names, n, visits, ttl, digestOf, m - 1);
    var cursor := CursorOf(CatalogIndex.PagesOf(visits), m - 1);
    VisitAt(history, n, visits, ttl, m - 1);
    var doc := VisitComesFrom(history, names, n, cursor, visits[m - 1], ttl, digestOf);
    docs := init + [doc];
    SameCursor(visits, init, n, m - 1);
    forall k | 0 <= k < m ensures Serves(names, CursorAt(docs, n, k), n, docs[k]) {
      CursorOfPrefix(init, doc, n, k);
    }
  }

  lemma {:induction false} VisitAt(history: seq<Event>, n: nat, visits: seq<CatalogIndex.Visit>, ttl: int, k: nat)
    requires CatalogIndex.VisitsJustified(history, n, visits, ttl) && k < |visits|
    ensures CatalogIndex.VisitJustified(history, n, CursorOf(CatalogIndex.PagesOf(visits), k), visits[k], ttl)
  {}

  lemma {:induction false} SameCursor(visits: seq<CatalogIndex.Visit>, docs: seq<ListDoc>, n: nat, k: nat)
    requires k == |docs| <= |visits|
    requires forall j :: 0 <= j < k ==> visits[j].page == PageData(Cleaned(docs[j].names), Next(docs[j], n))
    ensures CursorOf(CatalogIndex.PagesOf(visits), k) == CursorAt(docs, n, k)
  {
    hide Cleaned, Next;
  }

  lemma {:induction false} CursorOfPrefix(docs: seq<ListDoc>, doc: ListDoc, n: nat, k: nat)
    requires k <= |docs|
    ensures CursorAt(docs + [doc], n, k) == CursorAt(docs, n, k)
  {
    hide Next;
  }

  /** A walk over pages old and new, each from the cache or from the registry, comes to the first 50000
      names of the catalog, whatever was deleted, evicted or fetched in between. */
  lemma {:induction false} WalkReturnsCatalog(history: seq<Event>, names: seq<string>, n: nat,
                                              visits: seq<CatalogIndex.Visit>, all: seq<string>, ttl: int,
                                              digestOf: string -> string)
    requires IsListing(names) && n > 0 && ServedThroughout(history, names, n) && AllRendered(history, digestOf)
    requires CatalogIndex.VisitsJustified(history, n, visits, ttl) && Walked(CatalogIndex.PagesOf(visits), all)
    ensures all == Truncated(names) && |visits| <= |names| + 1
  {
    hide IsListing, ServedThroughout, AllRendered, CatalogIndex.VisitsJustified, Serves, Cleaned, Next, NamesSeen, Truncated;
    var docs := VisitsComeFrom(history, names, n, visits, ttl, digestOf, |visits|);
    var pages := CatalogIndex.PagesOf(visits);
    assert Rendered(docs, n) == pages;
    forall k | 0 <= k < |docs| - 1 ensures Next(docs[k], n) != "" {
      assert GoesOn(pages[..|pages| - 1], k) && pages[..|pages| - 1][k] == visits[k].page;
    }
    WalkIsComplete(names, n, docs, all);
  }

  lemma {:induction false} ListingIsInOrder(names: seq<string>)
    requires IsListing(names)
    ensures CatalogIndex.InOrder(names)
  {}

  /** The list behind a slot, sorted, is the registry's catalog itself, name for name. */
  lemma {:induction false} IndexListsCatalog(history: seq<Event>, names: seq<string>, n: nat, repos: seq<string>,
                                             walk: CatalogIndex.Walk, ttl: int, digestOf: string -> string)
    requires IsListing(names) && n > 0 && ServedThroughout(history, names, n) && AllRendered(history, digestOf)
    requires CatalogIndex.VisitsJustified(history, n, walk.visits, ttl)
    requires Walked(CatalogIndex.PagesOf(walk.visits), walk.names)
    requires CatalogIndex.InOrder(repos) && multiset(repos) == multiset(walk.names)
    ensures repos == Truncated(names)
  {
    hide ServedThroughout, AllRendered, CatalogIndex.VisitsJustified, Walked, CatalogIndex.PagesOf;
    WalkReturnsCatalog(history, names, n, walk.visits, walk.names, ttl, digestOf);
    CatalogIndex.CompareIsComparison();
    ListingIsInOrder(Truncated(names));
    SortedIsUnique(repos, Truncated(names), Compare);
  }

  // ---------- every list returned is the catalog ----------

  /** Whenever the registry answers a catalog request at all, it serves its next page of names. */
  ghost predicate ServesAlways(answers: CatalogIndex.Registry, names: seq<string>, n: nat) {
    forall k: nat, last: string :: answers(k, last).Answered? ==> Serves(names, last, n, answers(k, last).doc)
  }

  lemma {:induction false} AddedIsServed(before: seq<Event>, history: seq<Event>, names: seq<string>, n: nat,
                                         answers: CatalogIndex.Registry, until: int)
    requires before <= history && ServedThroughout(before, names, n) && ServesAlways(answers, names, n)
    requires CatalogIndex.Added(history, |before|, n, answers, until)
    ensures ServedThroughout(history, names, n)
  {
    hide Serves;
    forall e | e in history && e.Fetched? && e.req.CatalogReq? && e.req.n == n
      ensures e.doc.ListAnswer? && Serves(names, e.req.last, n, e.doc.list)
    {
      var i :| 0 <= i < |history| && history[i] == e;
      if i < |before| {
        assert before[i] == e && e in before;
      } else {
        assert CatalogIndex.FromRegistry(e, n, answers, until);
        var k: nat :| answers(k, e.req.last) == Answered(e.doc.list);
      }
    }
  }

  /** A walk over such a registry is never still going after size + 1 requests, nor after 50000. */
  lemma {:induction false} WalkOverInTime(history: seq<Event>, names: seq<string>, n: nat, visits: seq<CatalogIndex.Visit>,
                                          ttl: int, digestOf: string -> string)
    requires IsListing(names) && n > 0 && ServedThroughout(history, names, n) && AllRendered(history, digestOf)
    requires CatalogIndex.VisitsJustified(history, n, visits, ttl) && Unfinished(CatalogIndex.PagesOf(visits))
    ensures |visits| <= |names| + 1 && |visits| < MAX_ENTRIES
  {
    hide IsListing, ServedThroughout, AllRendered, CatalogIndex.VisitsJustified, Serves, Cleaned, Next, NamesSeen;
    var docs := VisitsComeFrom(history, names, n, visits, ttl, digestOf, |visits|);
    var pages := CatalogIndex.PagesOf(visits);
    assert Rendered(docs, n) == pages;
    forall k | 0 <= k < |docs| - 1 ensures Next(docs[k], n) != "" {
      assert GoesOn(pages, k) && pages[k] == visits[k].page;
    }
    ServedWalkEnds(names, n, docs);
    ProductiveIsNeverIdle(pages);
    UnfinishedIsBounded(pages);
  }

  /** What the slot holds of a successful walk is the catalog. */
  ghost predicate SlotLists(e: IndexSlot.Slot, names: seq<string>) {
    e.repos != [] || (e.at.Some? && e.err.None?) ==> e.repos == Truncated(names)
  }

  lemma {:induction false} ColdSlotLists(names: seq<string>)
    ensures SlotLists(IndexSlot.COLD, names)
  {}

  lemma {:induction false} InvalidSlotLists(e: IndexSlot.Slot, names: seq<string>)
    requires SlotLists(e, names)
    ensures SlotLists(IndexSlot.AfterInvalidate(e), names)
  {}

  /** How a slot moves when its list is asked for, given that a successful walk comes to the catalog. */
  lemma {:induction false} SlotKeepsListing(e: IndexSlot.Slot, names: seq<string>, now: int, ttl: int,
                                            outcome: IndexSlot.Outcome, done: int)
    requires SlotLists(e, names) && (!IndexSlot.IsFresh(e, now, ttl) && outcome.Listed? ==> outcome.repos == Truncated(names))
    ensures SlotLists(IndexSlot.AfterList(e, now, ttl, outcome, done), names)
    ensures var reply := IndexSlot.ListReply(e, now, ttl, outcome);
            reply.Ok? ==> reply.value == Truncated(names) == IndexSlot.AfterList(e, now, ttl, outcome, done).repos
  {
    hide Truncated;
  }

  /** When a list is returned rather than an error. */
  lemma {:induction false} ReplyIsOkIff(e: IndexSlot.Slot, now: int, ttl: int, outcome: IndexSlot.Outcome)
    requires IndexSlot.Consistent(e)
    ensures IndexSlot.ListReply(e, now, ttl, outcome).Ok? <==>
              || e.repos != []
              || if IndexSlot.IsFresh(e, now, ttl) then e.err.None? else outcome.Listed?
  {}

  lemma {:induction false} IndexIsConsistent(index: CatalogIndex.Index, id: string)
    requires index.Valid()
    ensures IndexSlot.Consistent(index.SlotOf(id))
  {
    hide CatalogIndex.Index.Valid;
    index.SlotIsBacked(id);
  }

  /** The registry answers every request. */
  ghost predicate NeverFails(answers: CatalogIndex.Registry) { forall k: nat, last: string :: answers(k, last).Answered? }

  lemma {:induction false} NothingBrokenOff(history: seq<Event>, n: nat, seen: seq<CatalogIndex.Visit>, ttl: int,
                                            answers: CatalogIndex.Registry, clock: nat -> Times, done: int, error: Error)
    requires CatalogIndex.BrokenOff(history, n, seen, ttl, answers, clock, done, error)
    ensures !NeverFails(answers)
  {
    assert answers(|seen|, CursorOf(CatalogIndex.PagesOf(seen), |seen|)).Failed?;
  }

  /** Over a registry that serves one catalog, but may fail at any request, every list returned is that
      catalog: fresh from the index, from a walk over cached and fetched pages, or as the stale fallback.
      And List does return, with a list whenever there is one to serve, or the registry answers and no
      error is remembered. What is needed of the state is kept, so this holds call after call. */
  method ListServesCatalog(index: CatalogIndex.Index, id: string, client: RegistryClient, names: seq<string>, pageSize: int,
                           now: int, answers: CatalogIndex.Registry, clock: nat -> Times, limit: nat)
    returns (result: Result<seq<string>>)
    requires index.Valid() && client.Valid() && index.ttl == client.cacheTTL && index !in client.repr
    requires CatalogIndex.Clocked(clock) && now <= clock(0).look
    requires IsListing(names) && ServesAlways(answers, names, ClampPageSize(pageSize))
    requires ServedThroughout(client.history, names, ClampPageSize(pageSize)) && SlotLists(index.SlotOf(id), names)
    requires limit > |names| + 1 || limit >= MAX_ENTRIES
    modifies index, client, client.cache
    ensures index.Valid() && client.Valid() && fresh(client.repr - old(client.repr))
    ensures ServedThroughout(client.history, names, ClampPageSize(pageSize)) && SlotLists(index.SlotOf(id), names)
    ensures result.Ok? ==> result.value == Truncated(names) == index.SlotOf(id).repos
    ensures old(index.SlotOf(id)).repos != [] ==> result.Ok?
    ensures NeverFails(answers) && (old(index.SlotOf(id)).err.None? || !IndexSlot.IsFresh(old(index.SlotOf(id)), now, index.ttl)) ==>
              result.Ok?
  {
    hide IsListing, ServesAlways, ServedThroughout, SlotLists, Serves, ClampPageSize, RegistryClient.Valid, Walked,
         Unfinished, CatalogIndex.Clocked, CatalogIndex.Index.Valid, CatalogIndex.VisitsJustified, CatalogIndex.AllNew,
         CatalogIndex.SettledBy, CatalogIndex.Added, CatalogIndex.InOrder, CatalogIndex.PagesOf,
         CatalogIndex.NotStalerThan, CatalogIndex.BrokenOff, NeverFails, IndexSlot.Consistent, IndexSlot.IsFresh, IndexSlot.ListReply, IndexSlot.AfterList;
    ghost var n, before, e := ClampPageSize(pageSize), client.history, index.SlotOf(id);
    assert n > 0;
    IndexIsConsistent(index, id);
    var r, outcome, served, seen := index.List(id, client, pageSize, now, answers, clock, limit);
    AddedIsServed(before, client.history, names, n, answers, served);
    ValidIsRendered(client);
    if r.None? { WalkOverInTime(client.history, names, n, seen, index.ttl, client.digestOf); }
    if !IndexSlot.IsFresh(e, now, index.ttl) && outcome.Listed? {
      RefreshedReply(e, now, index.ttl, outcome);
      ghost var w := index.WalkOf(id);
      IndexListsCatalog(client.history, names, n, r.value.value, w, index.ttl, client.digestOf);
    }
    if !IndexSlot.IsFresh(e, now, index.ttl) && outcome.Unlisted? {
      NothingBrokenOff(client.history, n, seen, index.ttl, answers, clock, served, outcome.error);
    }
    SlotKeepsListing(e, names, now, index.ttl, outcome, served);
    ReplyIsOkIff(e, now, index.ttl, outcome);
    return r.value;
  }

  /** From a new client and index: the catalog is listed, invalidated and listed again. Each list returned
      is the catalog; once one that is not empty was, the second is returned even if the registry is then
      out of reach; and if the registry answers, both are. */
  method ListedAgainAfterInvalidate(id: string, cacheTTL: int, digestOf: string -> string, names: seq<string>, pageSize: int,
                                    now: int, later: int, answers: CatalogIndex.Registry, answers': CatalogIndex.Registry,
                                    clock: nat -> Times, clock': nat -> Times, limit: nat)
    returns (first: Result<seq<string>>, second: Result<seq<string>>)
    requires forall b :: IsDigest(digestOf(b))
    requires CatalogIndex.Clocked(clock) && now <= clock(0).look && CatalogIndex.Clocked(clock') && later <= clock'(0).look
    requires IsListing(names) && ServesAlways(answers, names, ClampPageSize(pageSize))
    requires ServesAlways(answers', names, ClampPageSize(pageSize))
    requires limit > |names| + 1 || limit >= MAX_ENTRIES
    ensures first.Ok? ==> first.value == Truncated(names)
    ensures second.Ok? ==> second.value == Truncated(names)
    ensures first.Ok? && names != [] ==> second.Ok?
    ensures NeverFails(answers) ==> first.Ok?
    ensures NeverFails(answers') ==> second.Ok?
  {
    hide IsListing, ServesAlways, SlotLists, ClampPageSize, RegistryClient.Valid, CatalogIndex.Clocked,
         CatalogIndex.Index.Valid, NeverFails, IsDigest;
    var client := new RegistryClient(cacheTTL, true, digestOf);
    ValidCache(client);
    var index := new CatalogIndex.Index(client.cacheTTL);
    ColdSlotLists(names);
    first := ListServesCatalog(index, id, client, names, pageSize, now, answers, clock, limit);
    InvalidSlotLists(index.SlotOf(id), names);
    index.Invalidate(id);
    second := ListServesCatalog(index, id, client, names, pageSize, later, answers', clock', limit);
  }

  lemma {:induction false} ValidIsRendered(client: RegistryClient)
    requires client.Valid()
    ensures AllRendered(client.history, client.digestOf)
  {
    hide Renders, RegistryClient.Holds;
  }

  lemma {:induction false} RefreshedReply(e: IndexSlot.Slot, now: int, ttl: int, outcome: IndexSlot.Outcome)
    requires !IndexSlot.IsFresh(e, now, ttl) && outcome.Listed?
    ensures IndexSlot.ListReply(e, now, ttl, outcome) == Ok(outcome.repos)
  {}

  // ---------- the tags of one repository ----------

  ghost predicate TagsServedThroughout(history: seq<Event>, repo: string, names: seq<string>, n: nat) {
    forall e :: e in history && e.Fetched? && e.req.TagsReq? && e.req.repo == repo && e.req.n == n ==>
      e.doc.ListAnswer? && Serves(names, e.req.last, n, e.doc.list)
  }

  /** A page of tags the client showed for a cursor: an answer in the history, as Justified says. */
  ghost predicate TagPageShown(history: seq<Event>, repo: string, n: nat, cursor: string, page: PageData) {
    exists i :: 0 <= i < |history| && history[i].Fetched? && Answers(history[i], TagsReq(repo, n, cursor), history[i].at)
                && history[i].reply == PageReply(repo, page.items, page.next)
  }

  /** Pages shown one after another, each for the cursor of the one before, until there is none. */
  ghost predicate TagsFollowed(history: seq<Event>, repo: string, n: nat, pages: seq<PageData>) {
    && pages != [] && pages[|pages| - 1].next == ""
    && (forall k :: 0 <= k < |pages| ==> TagPageShown(history, repo, n, CursorOf(pages, k), pages[k]))
    && (forall k :: 0 <= k < |pages| - 1 ==> pages[k].next != "")
  }

  /** The page shows the document's tags, re-sorted, and its cursor. */
  ghost predicate FromDoc(page: PageData, doc: ListDoc, n: nat) {
    multiset(page.items) == multiset(Cleaned(doc.names)) && page.next == Next(doc, n)
  }

  /** What Tags returns is such a page. */
  lemma {:induction false} JustifiedIsShown(history: seq<Event>, repo: string, n: nat, cursor: string, items: seq<string>,
                                            next: string, now: int, ttl: int)
    requires Justified(history, TagsReq(repo, n, cursor), PageReply(repo, items, next), now, ttl)
    ensures TagPageShown(history, repo, n, cursor, PageData(items, next))
  {
    hide NotDeletedSince;
    var r, reply := TagsReq(repo, n, cursor), PageReply(repo, items, next);
    var i: nat, since: int :| i < |history| && Answers(history[i], r, since) && history[i].reply == reply
                              && now < since + Ttl(r, ttl) && NotDeletedSince(history, i, r);
    assert Answers(history[i], r, history[i].at);
  }

  lemma {:induction false} TagPageComesFrom(history: seq<Event>, repo: string, names: seq<string>, n: nat, cursor: string,
                                            page: PageData, digestOf: string -> string)
    returns (doc: ListDoc)
    requires TagsServedThroughout(history, repo, names, n) && AllRendered(history, digestOf)
    requires TagPageShown(history, repo, n, cursor, page)
    ensures Serves(names, cursor, n, doc)
    ensures FromDoc(page, doc, n)
  {
    hide Serves, Cleaned, LinkHeader.NextCursor;
    var r := TagsReq(repo, n, cursor);
    var i :| 0 <= i < |history| && history[i].Fetched? && Answers(history[i], r, history[i].at)
             && history[i].reply == PageReply(repo, page.items, page.next);
    var e := history[i];
    assert e in history && e.req == r;
    doc := e.doc.list;
  }

  lemma {:induction false} TagPagesComeFrom(history: seq<Event>, repo: string, names: seq<string>, n: nat,
                                            pages: seq<PageData>, digestOf: string -> string, m: nat)
    returns (docs: seq<ListDoc>)
    requires TagsServedThroughout(history, repo, names, n) && AllRendered(history, digestOf) && m <= |pages|
    requires forall k :: 0 <= k < |pages| ==> TagPageShown(history, repo, n, CursorOf(pages, k), pages[k])
    ensures |docs| == m
    ensures forall k :: 0 <= k < m ==> Serves(names, CursorAt(docs, n, k), n, docs[k])
    ensures forall k :: 0 <= k < m ==> FromDoc(pages[k], docs[k], n)
  {
    hide TagsServedThroughout, AllRendered, TagPageShown, Serves, Cleaned, Next, CursorAt, CursorOf, FromDoc;
    if m == 0 { return []; }
    var init := TagPagesComeFrom(history, repo, names, n, pages, digestOf, m - 1);
    var doc := TagPageComesFrom(history, repo, names, n, CursorOf(pages, m - 1), pages[m - 1], digestOf);
    docs := init + [doc];
    SameTagCursor(pages, init, n, m - 1);
    forall k | 0 <= k < m ensures Serves(names, CursorAt(docs, n, k), n, docs[k]) {
      CursorOfPrefix(init, doc, n, k);
    }
  }

  lemma {:induction false} SameTagCursor(pages: seq<PageData>, docs: seq<ListDoc>, n: nat, k: nat)
    requires k == |docs| <= |pages| && forall j :: 0 <= j < k ==> FromDoc(pages[j], docs[j], n)
    ensures CursorOf(pages, k) == CursorAt(docs, n, k)
  {
    hide Next;
  }

  /** The items of the pages, page by page. */
  function ItemsOf(pages: seq<PageData>): (shown: seq<seq<string>>)
    ensures |shown| == |pages|
  {
    seq(|pages|, k requires 0 <= k < |pages| => pages[k].items)
  }

  /** A reader who follows the pages of a repository to the end, cached and fetched ones alike, each
      re-sorted for display, sees every tag exactly once. */
  lemma {:induction false} EveryTagIsShownOnce(history: seq<Event>, repo: string, names: seq<string>, n: nat,
                                               pages: seq<PageData>, digestOf: string -> string)
    requires IsListing(names) && n > 0 && TagsServedThroughout(history, repo, names, n) && AllRendered(history, digestOf)
    requires TagsFollowed(history, repo, n, pages)
    ensures Contents(ItemsOf(pages)) == multiset(names) && forall x :: x in names ==> Contents(ItemsOf(pages))[x] == 1
  {
    hide IsListing, TagsServedThroughout, AllRendered, TagPageShown, Serves, Cleaned, Next, Contents;
    var docs := TagPagesComeFrom(history, repo, names, n, pages, digestOf, |pages|);
    TagPagesShowAllOnce(names, n, docs, ItemsOf(pages));
  }
}
