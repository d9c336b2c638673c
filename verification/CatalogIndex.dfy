/** The per-registry catalog index over the cached client (server/catalog.go). */
module CatalogIndex {
  import opened Text
  import opened Sorting
  import opened Names
  import opened Options
  import TtlCache
  import LinkHeader
  import opened Client
  import opened CatalogWalk
  import opened IndexSlot

  // ---------- walkCatalog over the cached client ----------

  /** How a page of a walk came about: from an event of the history, stored at `since`, less than the
      client's ttl before the page was read at `look`. */
  datatype Visit = Visit(page: PageData, event: nat, since: int, look: int)

  function PagesOf(visits: seq<Visit>): (pages: seq<PageData>)
    ensures |pages| == |visits|
  {
    seq(|visits|, k requires 0 <= k < |visits| => visits[k].page)
  }

  ghost predicate VisitsJustified(history: seq<Event>, n: nat, visits: seq<Visit>, ttl: int) {
    forall k :: 0 <= k < |visits| ==> VisitJustified(history, n, CursorOf(PagesOf(visits), k), visits[k], ttl)
  }

  ghost predicate VisitJustified(history: seq<Event>, n: nat, cursor: string, visit: Visit, ttl: int) {
    && visit.look < visit.since + ttl && visit.event < |history|
    && Answers(history[visit.event], CatalogReq(n, cursor), visit.since)
    && history[visit.event].reply == PageReply("", visit.page.items, visit.page.next)
  }

  /** No delete has invalidated the catalog since any of these pages was answered. */
  ghost predicate Undeleted(history: seq<Event>, visits: seq<Visit>) {
    forall k :: 0 <= k < |visits| ==> NoDeleteAfter(history, visits[k].event)
  }

  ghost predicate NoDeleteAfter(history: seq<Event>, i: nat) {
    forall j :: i < j < |history| ==> !history[j].Deleted?
  }

  /** What the registry, or the network, makes of the k-th request of a walk, for a cursor. */
  type Registry = (nat, string) -> Net<ListDoc>

  /** The event is an answer of the registry to a catalog request, stored by `until`. */
  ghost predicate FromRegistry(e: Event, n: nat, answers: Registry, until: int) {
    && e.Fetched? && e.req.CatalogReq? && e.req.n == n && e.doc.ListAnswer? && e.at <= until
    && exists k: nat :: answers(k, e.req.last) == Answered(e.doc.list)
  }

  /** All that was added to the history from `start` on came from the registry. */
  ghost predicate Added(history: seq<Event>, start: nat, n: nat, answers: Registry, until: int) {
    forall i :: start <= i < |history| ==> FromRegistry(history[i], n, answers, until)
  }

  /** The clock readings of successive requests. */
  ghost predicate Clocked(clock: nat -> Times) {
    && (forall k: nat :: Ordered(clock(k)))
    && (forall k: nat :: clock(k).aliasTrim <= clock(k + 1).look)
  }

  /** The visit behind a page shown: the answer just recorded, or else one that justified it. */
  lemma {:induction false} VisitOfShown(history: seq<Event>, n: nat, cursor: string, reply: Reply, look: int, ttl: int,
                                        digestOf: string -> string)
    returns (visit: Visit)
    requires Justified(history, CatalogReq(n, cursor), reply, look, ttl)
    requires forall e :: e in history && e.Fetched? ==> Renders(e.req, e.doc, e.reply, digestOf)
    ensures reply == PageReply("", visit.page.items, visit.page.next) && visit.look == look
    ensures VisitJustified(history, n, cursor, visit, ttl) && NoDeleteAfter(history, visit.event)
  {
    var r := CatalogReq(n, cursor);
    var i: nat, since: int :| i < |history| && Answers(history[i], r, since) && history[i].reply == reply
                              && look < since + Ttl(r, ttl) && NotDeletedSince(history, i, r);
    assert history[i] in history;
    visit := Visit(PageData(reply.items, reply.next), i, since, look);
  }

  lemma {:induction false} VisitOfAnswer(history: seq<Event>, n: nat, cursor: string, look: int, ttl: int)
    returns (visit: Visit)
    requires history != [] && ttl > 0
    requires var e := history[|history| - 1];
             e.Fetched? && e.req == CatalogReq(n, cursor) && e.reply.PageReply? && e.reply.repo == "" && look <= e.at
    ensures history[|history| - 1].reply == PageReply("", visit.page.items, visit.page.next) && visit.look == look
    ensures visit.event == |history| - 1 && VisitJustified(history, n, cursor, visit, ttl)
    ensures NoDeleteAfter(history, visit.event)
  {
    var e := history[|history| - 1];
    visit := Visit(PageData(e.reply.items, e.reply.next), |history| - 1, e.at, look);
  }

  lemma {:induction false} VisitsStayJustified(history: seq<Event>, history': seq<Event>, n: nat, visits: seq<Visit>, ttl: int)
    requires history <= history'
    ensures VisitsJustified(history, n, visits, ttl) ==> VisitsJustified(history', n, visits, ttl)
  {
    hide CursorOf, PagesOf, Answers;
    if VisitsJustified(history, n, visits, ttl) {
      forall k | 0 <= k < |visits| ensures VisitJustified(history', n, CursorOf(PagesOf(visits), k), visits[k], ttl) {
        assert VisitJustified(history, n, CursorOf(PagesOf(visits), k), visits[k], ttl);
      }
    }
  }

  lemma {:induction false} AppendVisit(history: seq<Event>, history': seq<Event>, n: nat, visits: seq<Visit>, visit: Visit, ttl: int)
    requires history <= history' && VisitsJustified(history, n, visits, ttl)
    requires VisitJustified(history', n, CursorOf(PagesOf(visits), |visits|), visit, ttl)
    ensures VisitsJustified(history', n, visits + [visit], ttl)
    ensures PagesOf(visits + [visit]) == PagesOf(visits) + [visit.page]
  {
    hide VisitJustified;
    VisitsStayJustified(history, history', n, visits, ttl);
    var visits' := visits + [visit];
    assert PagesOf(visits') == PagesOf(visits) + [visit.page];
    forall k | 0 <= k < |visits'| ensures VisitJustified(history', n, CursorOf(PagesOf(visits'), k), visits'[k], ttl) {
      assert CursorOf(PagesOf(visits'), k) == CursorOf(PagesOf(visits), k);
    }
  }

  /** The loop over one page's names, cut off at the bound. */
  method AppendNames(before: seq<string>, items: array<string>) returns (all: seq<string>, full: bool)
    requires |before| < MAX_ENTRIES
    ensures all == Truncated(before + items[..]) && (full <==> |before + items[..]| >= MAX_ENTRIES)
  {
    all := before;
    for i := 0 to items.Length
      invariant all == before + items[..i] && |all| < MAX_ENTRIES
    {
      all := all + [items[i]];
      assert items[..i + 1] == items[..i] + [items[i]];
      if |all| >= MAX_ENTRIES {
        assert (before + items[..])[..MAX_ENTRIES] == all;
        return all, true;
      }
    }
    assert items[..items.Length] == items[..];
    return all, false;
  }

  /** The walk so far: it goes on after every page, and has room. */
  ghost predicate Walking(pages: seq<PageData>, all: seq<string>, last: string) {
    Unfinished(pages) && all == NamesSeen(pages) && |all| < MAX_ENTRIES && last == CursorOf(pages, |pages|)
  }

  lemma {:induction false} WalkTurn(pages: seq<PageData>, page: PageData, all: seq<string>, last: string)
    requires Walking(pages, all, last)
    ensures var pages', all' := pages + [page], all + page.items;
            if |all'| >= MAX_ENTRIES || page.next == "" || page.next == last then Walked(pages', Truncated(all'))
            else Walking(pages', all', page.next)
  {
    var pages', n := pages + [page], |pages|;
    assert pages'[..n] == pages && pages'[..n + 1] == pages';
    assert CursorOf(pages', n) == last;
    forall k | 0 <= k < n ensures GoesOn(pages', k) {
      assert GoesOn(pages, k) && pages'[..k + 1] == pages[..k + 1];
      assert CursorOf(pages', k) == CursorOf(pages, k);
    }
    assert forall k :: 0 <= k < n ==> GoesOn(pages'[..n], k);
  }

  /** walkCatalog, followed for at most `limit` requests: None while it is still walking then. */
  method WalkCatalog(client: RegistryClient, pageSize: int, answers: Registry, clock: nat -> Times, limit: nat)
    returns (outcome: Option<Result<seq<string>>>, requests: nat, ghost visits: seq<Visit>)
    requires client.Valid() && Clocked(clock)
    modifies client, client.cache
    ensures client.Valid() && fresh(client.repr - old(client.repr)) && old(client.history) <= client.history
    ensures Added(client.history, |old(client.history)|, ClampPageSize(pageSize), answers, clock(requests).look)
    ensures VisitsJustified(client.history, ClampPageSize(pageSize), visits, client.cacheTTL)
    ensures Undeleted(client.history, visits)
    ensures requests == |visits| + if outcome.Some? && outcome.value.Err? then 1 else 0
    ensures forall k :: 0 <= k < |visits| ==> visits[k].look == clock(k).look
    ensures outcome.None? ==> Unfinished(PagesOf(visits)) && |visits| == limit
    ensures outcome.Some? && outcome.value.Ok? ==> Walked(PagesOf(visits), outcome.value.value)
    ensures outcome.Some? && outcome.value.Err? ==>
              Unfinished(PagesOf(visits)) && answers(|visits|, CursorOf(PagesOf(visits), |visits|)) == Failed(outcome.value.error)
  {
    hide Justified, Renders, VisitsJustified, VisitJustified, Undeleted, Walking, Walked, FromRegistry, RegistryClient.Valid,
         RegistryClient.LastAnswer, TtlCache.Hit, Names.Key, PagesOf, Truncated;
    var size := if pageSize <= 0 then 100 else pageSize;
    assert ClampPageSize(size) == ClampPageSize(pageSize);
    var all, last: string := [], "";
    visits := [];
    var k: nat := 0;
    WalkStart(client.history, ClampPageSize(pageSize), client.cacheTTL);
    while k < limit
      invariant k == |visits| <= limit && client.Valid() && fresh(client.repr - old(client.repr))
      invariant old(client.history) <= client.history
      invariant Added(client.history, |old(client.history)|, ClampPageSize(pageSize), answers, clock(k).look)
      invariant VisitsJustified(client.history, ClampPageSize(pageSize), visits, client.cacheTTL)
      invariant Undeleted(client.history, visits)
      invariant Walking(PagesOf(visits), all, last) && |all| < MAX_ENTRIES
      invariant forall j :: 0 <= j < |visits| ==> visits[j].look == clock(j).look
    {
      WalkingCursor(PagesOf(visits), all, last);
      assert Ordered(clock(k)) && clock(k).aliasTrim <= clock(k + 1).look;
      ghost var before := client.history;
      var page, visit := NextPage(client, size, last, answers(k, last), clock(k), visits);
      AddedGrows(before, client.history, |old(client.history)|, ClampPageSize(pageSize), answers, k, last,
                 clock(k).look, clock(k + 1).look);
      if page.Err? { return Some(Err(page.error)), k + 1, visits; }
      WalkTurn(PagesOf(visits), visit.page, all, last);
      var full;
      ghost var seen := all + visit.page.items;
      all, full := AppendNames(all, page.value.items);
      visits := visits + [visit];
      if full { return Some(Ok(all)), k + 1, visits; }
      assert all == seen by { TruncatedFits(seen); }
      if page.value.next == "" || page.value.next == last { return Some(Ok(all)), k + 1, visits; }
      last := page.value.next;
      k := k + 1;
    }
    WalkingCursor(PagesOf(visits), all, last);
    return None, k, visits;
  }

  /** The history grows by the registry's answer to this request, or not at all. */
  ghost predicate GrowsBy(before: seq<Event>, after: seq<Event>, n: nat, last: string, net: Net<ListDoc>, until: int) {
    after == before ||
    (&& |after| == |before| + 1 && after[..|before|] == before
     && var e := after[|before|];
        && e.Fetched? && e.req == CatalogReq(n, last) && e.doc.ListAnswer? && net == Answered(e.doc.list) && e.at <= until)
  }

  lemma {:induction false} AddedGrows(before: seq<Event>, after: seq<Event>, start: nat, n: nat, answers: Registry, k: nat,
                                      last: string, until: int, until': int)
    requires GrowsBy(before, after, n, last, answers(k, last), until') && until <= until'
    requires Added(before, start, n, answers, until)
    ensures before <= after && Added(after, start, n, answers, until')
  {
    forall i | start <= i < |after| ensures FromRegistry(after[i], n, answers, until') {
      if i < |before| { assert after[i] == before[i] && FromRegistry(before[i], n, answers, until); }
    }
  }

  lemma {:induction false} WalkStart(history: seq<Event>, n: nat, ttl: int)
    ensures VisitsJustified(history, n, [], ttl) && Undeleted(history, []) && Walking(PagesOf([]), [], "")
  {}

  lemma {:induction false} WalkingCursor(pages: seq<PageData>, all: seq<string>, last: string)
    requires Walking(pages, all, last)
    ensures last == CursorOf(pages, |pages|) && Unfinished(pages)
  {}

  lemma {:induction false} TruncatedFits(names: seq<string>)
    ensures |names| < MAX_ENTRIES ==> Truncated(names) == names
  {}

  /** One request of the walk, and the visit it adds. */
  method NextPage(client: RegistryClient, size: int, last: string, net: Net<ListDoc>, t: Times, ghost visits: seq<Visit>)
    returns (page: Result<Page>, ghost visit: Visit)
    requires client.Valid() && Ordered(t) && CursorOf(PagesOf(visits), |visits|) == last
    requires VisitsJustified(client.history, ClampPageSize(size), visits, client.cacheTTL)
    requires Undeleted(client.history, visits)
    modifies client, client.cache
    ensures client.Valid() && fresh(client.repr - old(client.repr))
    ensures GrowsBy(old(client.history), client.history, ClampPageSize(size), last, net, t.store)
    ensures page.Err? ==> net == Failed(page.error) && client.history == old(client.history)
    ensures page.Ok? ==>
              && visit.look == t.look
              && page.value.items[..] == visit.page.items && page.value.next == visit.page.next
              && VisitsJustified(client.history, ClampPageSize(size), visits + [visit], client.cacheTTL)
              && Undeleted(client.history, visits + [visit])
              && PagesOf(visits + [visit]) == PagesOf(visits) + [visit.page]
              && (client.history != old(client.history) ==> visit.event == |old(client.history)|)
  {
    hide Justified, Renders, VisitsJustified, VisitJustified, Undeleted, NoDeleteAfter, TtlCache.Hit, Names.Key, TtlCache.Inv, RegistryClient.Holds,
         RegistryClient.CacheMoves, RegistryClient.Keeps, CursorOf, PagesOf;
    visit := Visit(PageData([], ""), 0, 0, 0);
    ghost var before := client.history;
    ghost var kept;
    page, kept := client.Catalog(size, last, net, t);
    if page.Ok? {
      ghost var n, reply := ClampPageSize(size), page.value.Reply();
      if client.history != before {
        LastIsPage(client, n, last, reply);
        visit := VisitOfAnswer(client.history, n, last, t.look, client.cacheTTL);
      } else {
        visit := VisitOfShown(client.history, n, last, reply, t.look, client.cacheTTL, client.digestOf);
      }
      AppendVisit(before, client.history, n, visits, visit, client.cacheTTL);
      AppendUndeleted(before, client.history, visits, visit);
    }
  }

  lemma {:induction false} AppendUndeleted(before: seq<Event>, after: seq<Event>, visits: seq<Visit>, visit: Visit)
    requires before == after || (|after| == |before| + 1 && after[..|before|] == before && after[|before|].Fetched?)
    requires Undeleted(before, visits) && NoDeleteAfter(after, visit.event)
    ensures Undeleted(after, visits + [visit])
  {
    forall k | 0 <= k < |visits| ensures NoDeleteAfter(after, visits[k].event) {
      assert NoDeleteAfter(before, visits[k].event);
      assert forall j :: 0 <= j < |before| ==> after[j] == before[j];
    }
  }

  lemma {:induction false} LastIsPage(client: RegistryClient, n: nat, last: string, reply: Reply)
    requires client.Valid() && client.history != []
    requires var e := client.history[|client.history| - 1]; e.Fetched? && e.req == CatalogReq(n, last) && e.reply == reply
    ensures reply.PageReply? && reply.repo == "" && client.cacheTTL > 0
  {
    hide TtlCache.Inv, RegistryClient.Holds;
    assert client.history[|client.history| - 1] in client.history;
  }

  // ---------- the index ----------

  /** Strings in the order sort.Strings leaves them. */
  predicate InOrder(names: seq<string>) { Sorted(names, Compare) }

  lemma {:induction false} CompareIsComparison()
    ensures Comparison(Compare) && Strict(Compare)
  {
    var cmp := Compare;
    forall x, y, z
      ensures cmp(x, y) == -cmp(y, x)
      ensures cmp(x, y) <= 0 && cmp(y, z) <= 0 ==> cmp(x, z) <= 0
      ensures cmp(x, y) == 0 ==> x == y
    {
      CompareAntisymmetric(x, y);
      if cmp(x, y) <= 0 && cmp(y, z) <= 0 { CompareTransitive(x, y, z); }
    }
  }

  /** sort.Strings on the walked names. */
  method SortStrings(names: seq<string>) returns (sorted: seq<string>)
    ensures InOrder(sorted) && multiset(sorted) == multiset(names)
  {
    CompareIsComparison();
    var a := new string[|names|](i requires 0 <= i < |names| => names[i]);
    assert a[..] == names;
    Sort(a, Compare);
    sorted := a[..];
  }

  /** The last successful walk behind a slot: its names as the registry gave them, its visits, the length
      of the history when it began, and when it began and ended. */
  datatype Walk = Walk(names: seq<string>, visits: seq<Visit>, start: nat, begun: int, ended: int)

  /** The page was fetched by the walk itself, and not found in the cache. */
  predicate FetchedBy(w: Walk, v: Visit) { v.event >= w.start }

  /** The slot's list is the walk's, sorted; each page was stored less than ttl before it was read, and
      those the walk fetched itself by its end. */
  ghost predicate Backed(e: Slot, w: Walk, ttl: int) {
    && Consistent(e)
    && InOrder(e.repos) && multiset(e.repos) == multiset(w.names)
    && (w.names == [] || Walked(PagesOf(w.visits), w.names))
    && (e.at.Some? && e.err.None? ==> e.at.value == w.ended)
    && (forall v :: v in w.visits ==> w.begun <= v.look <= w.ended && v.look < v.since + ttl)
    && (forall v :: v in w.visits && FetchedBy(w, v) ==> v.since <= w.ended)
  }

  /** Everything behind the list was stored less than 2 ttl, plus the time the walk took, before now. */
  ghost predicate NotStalerThan(w: Walk, now: int, ttl: int) {
    forall v :: v in w.visits ==> now - v.since < 2 * ttl + (w.ended - w.begun)
  }

  const NO_WALK := Walk([], [], 0, 0, 0)

  lemma {:induction false} ColdIsBacked(ttl: int)
    ensures Backed(COLD, NO_WALK, ttl)
  {}

  lemma {:induction false} FreshIsBounded(e: Slot, w: Walk, now: int, ttl: int)
    requires Backed(e, w, ttl) && IsFresh(e, now, ttl) && e.err.None?
    ensures NotStalerThan(w, now, ttl)
  {
    hide InOrder, Walked;
  }

  lemma {:induction false} BackedList(e: Slot, w: Walk, ttl: int)
    requires Backed(e, w, ttl)
    ensures InOrder(e.repos) && multiset(e.repos) == multiset(w.names) && (e.repos != [] ==> e.err.None?)
  {
    hide InOrder, Walked;
  }

  /** A failed walk over an empty slot leaves it empty, with the error noted. */
  lemma {:induction false} FailureIsBacked(e: Slot, w: Walk, ttl: int, done: int, error: Error)
    requires Backed(e, w, ttl) && e.repos == []
    ensures Backed(Slot([], Some(done), Some(error)), w, ttl)
  {
    hide InOrder, Walked;
  }

  lemma {:induction false} InvalidIsBacked(e: Slot, w: Walk, ttl: int)
    requires Backed(e, w, ttl)
    ensures Backed(AfterInvalidate(e), w, ttl)
  {
    hide InOrder, Walked;
  }

  lemma {:induction false} NewWalkIsBacked(e: Slot, w: Walk, ttl: int, history: seq<Event>, n: nat, answers: Registry,
                                           clock: nat -> Times)
    requires e == Slot(e.repos, Some(w.ended), None)
    requires InOrder(e.repos) && multiset(e.repos) == multiset(w.names) && Walked(PagesOf(w.visits), w.names)
    requires Clocked(clock) && w.begun <= clock(0).look && w.ended == clock(|w.visits|).look
    requires VisitsJustified(history, n, w.visits, ttl) && ttl > 0
    requires Added(history, w.start, n, answers, w.ended)
    requires forall k :: 0 <= k < |w.visits| ==> w.visits[k].look == clock(k).look
    ensures Backed(e, w, ttl) && NotStalerThan(w, w.ended, ttl)
  {
    hide InOrder, Walked, Answers, FromRegistry;
    forall v | v in w.visits
      ensures w.begun <= v.look <= w.ended && v.look < v.since + ttl
      ensures FetchedBy(w, v) ==> v.since <= w.ended
    {
      var k :| 0 <= k < |w.visits| && w.visits[k] == v;
      assert VisitJustified(history, n, CursorOf(PagesOf(w.visits), k), v, ttl);
      ClockGoesOn(clock, 0, k);
      ClockGoesOn(clock, k, |w.visits|);
      SinceIsAt(history, n, CursorOf(PagesOf(w.visits), k), v, ttl);
      if FetchedBy(w, v) { AddedBy(history, w.start, n, answers, w.ended, v.event); }
    }
  }

  /** A visit was stored when its event says. */
  lemma {:induction false} SinceIsAt(history: seq<Event>, n: nat, cursor: string, v: Visit, ttl: int)
    requires VisitJustified(history, n, cursor, v, ttl)
    ensures var e := history[v.event]; e.Fetched? && e.req == CatalogReq(n, cursor) && v.since == e.at
  {}

  lemma {:induction false} AddedBy(history: seq<Event>, start: nat, n: nat, answers: Registry, until: int, i: nat)
    requires Added(history, start, n, answers, until) && start <= i < |history|
    ensures history[i].Fetched? && history[i].at <= until
  {
    assert FromRegistry(history[i], n, answers, until);
  }

  lemma {:induction false} ClockGoesOn(clock: nat -> Times, j: nat, k: nat)
    requires Clocked(clock) && j <= k
    ensures clock(j).look <= clock(k).look
    decreases k
  {
    if j < k {
      ClockGoesOn(clock, j, k - 1);
      assert Ordered(clock(k - 1)) && clock(k - 1).aliasTrim <= clock(k - 1 + 1).look;
    }
  }

  // ---------- a refresh caused by age ----------

  /** The list is there, from a successful walk, but too old. */
  predicate Aged(e: Slot, now: int, ttl: int) { e.at.Some? && e.err.None? && !IsFresh(e, now, ttl) }

  /** Every page that a walk fetched itself has expired by the time its list is refreshed for its age. */
  lemma {:induction false} AgedPagesAreExpired(e: Slot, w: Walk, now: int, ttl: int)
    requires Backed(e, w, ttl) && Aged(e, now, ttl)
    ensures forall v :: v in w.visits && FetchedBy(w, v) ==> v.since + ttl <= now
  {
    hide InOrder, Walked;
  }

  /** Every page of w was stored after the walk `was` had ended, so it is none that walk fetched; and if
      no catalog page had been stored between that end and the refresh, w fetched all its pages itself. */
  ghost predicate AllNew(before: seq<Event>, n: nat, was: Walk, w: Walk) {
    && (forall v :: v in w.visits ==> v.since > was.ended)
    && (forall u, v :: u in was.visits && v in w.visits && FetchedBy(was, u) ==> u.since < v.since)
    && (SettledBy(before, n, was.ended) ==> forall v :: v in w.visits ==> v.event >= |before|)
  }

  /** Every catalog page in the history had been stored by t. */
  ghost predicate SettledBy(history: seq<Event>, n: nat, t: int) {
    forall i :: 0 <= i < |history| && history[i].Fetched? && history[i].req.CatalogReq? && history[i].req.n == n ==>
      history[i].at <= t
  }

  lemma {:induction false} AgedRefreshIsNew(e: Slot, was: Walk, w: Walk, now: int, ttl: int, before: seq<Event>,
                                            history: seq<Event>, n: nat)
    requires Backed(e, was, ttl) && Aged(e, now, ttl)
    requires before <= history && VisitsJustified(history, n, w.visits, ttl)
    requires forall v :: v in w.visits ==> now <= v.look
    ensures AllNew(before, n, was, w)
  {
    hide InOrder, Walked, Answers;
    forall v | v in w.visits
      ensures v.since > was.ended
      ensures SettledBy(before, n, was.ended) ==> v.event >= |before|
    {
      var k :| 0 <= k < |w.visits| && w.visits[k] == v;
      assert VisitJustified(history, n, CursorOf(PagesOf(w.visits), k), v, ttl);
      SinceIsAt(history, n, CursorOf(PagesOf(w.visits), k), v, ttl);
      assert v.event < |before| ==> before[v.event] == history[v.event];
    }
  }

  lemma {:induction false} WalkSettles(before: seq<Event>, history: seq<Event>, n: nat, answers: Registry, now: int, until: int)
    requires before <= history && Added(history, |before|, n, answers, until) && now <= until
    ensures SettledBy(before, n, now) ==> SettledBy(history, n, until)
  {
    hide FromRegistry;
    if SettledBy(before, n, now) {
      forall i | 0 <= i < |history| && history[i].Fetched? && history[i].req.CatalogReq? && history[i].req.n == n
        ensures history[i].at <= until
      {
        if i < |before| { assert before[i] == history[i]; } else { AddedBy(history, |before|, n, answers, until, i); }
      }
    }
  }

  // ---------- what a refresh comes to ----------

  /** A finished walk: justified pages, none from before a delete, and begun and ended when the clock was
      read before the first request and after the last. */
  ghost predicate NewWalk(before: seq<Event>, history: seq<Event>, n: nat, w: Walk, ttl: int, clock: nat -> Times, done: int) {
    && Walked(PagesOf(w.visits), w.names) && VisitsJustified(history, n, w.visits, ttl) && Undeleted(history, w.visits)
    && w.start == |before| && w.begun == clock(0).look && w.ended == done == clock(|w.visits|).look
  }

  /** A walk that had seen these pages when the next request failed. */
  ghost predicate BrokenOff(history: seq<Event>, n: nat, seen: seq<Visit>, ttl: int, answers: Registry, clock: nat -> Times,
                            done: int, error: Error) {
    && VisitsJustified(history, n, seen, ttl) && Unfinished(PagesOf(seen)) && done == clock(|seen| + 1).look
    && answers(|seen|, CursorOf(PagesOf(seen), |seen|)) == Failed(error)
  }

  class Index {
    var slots: map<string, Slot>
    ghost var walks: map<string, Walk>
    const ttl: int

    constructor (ttl: int)
      requires ttl > 0
      ensures Valid() && slots == map[] && this.ttl == ttl
    {
      slots, walks, this.ttl := map[], map[], ttl;
    }

    ghost predicate Valid()
      reads this
    {
      ttl > 0 && slots.Keys == walks.Keys && forall id :: id in slots ==> Backed(slots[id], walks[id], ttl)
    }

    /** The slot of a registry, made on first use. */
    function SlotOf(id: string): Slot
      reads this
    {
      if id in slots then slots[id] else COLD
    }

    /** The refresh of one slot: walk, sort, and what the walk came to, if it is over within limit requests.
        The clock is read next after the last request made. */
    method Refresh(client: RegistryClient, pageSize: int, answers: Registry, clock: nat -> Times, limit: nat)
      returns (outcome: Option<Outcome>, done: int, ghost walk: Walk)
      requires ttl > 0 && client.Valid() && ttl == client.cacheTTL && Clocked(clock)
      modifies client, client.cache
      ensures client.Valid() && fresh(client.repr - old(client.repr)) && old(client.history) <= client.history
      ensures done >= clock(0).look
      ensures Added(client.history, |old(client.history)|, ClampPageSize(pageSize), answers, done)
      ensures VisitsJustified(client.history, ClampPageSize(pageSize), walk.visits, ttl)
      ensures forall v :: v in walk.visits ==> clock(0).look <= v.look
      ensures outcome.None? ==> Unfinished(PagesOf(walk.visits)) && |walk.visits| == limit
      ensures outcome.Some? && outcome.value.Unlisted? ==>
                BrokenOff(client.history, ClampPageSize(pageSize), walk.visits, ttl, answers, clock, done, outcome.value.error)
      ensures outcome.Some? && outcome.value.Listed? ==>
                && NewWalk(old(client.history), client.history, ClampPageSize(pageSize), walk, ttl, clock, done)
                && Backed(Slot(outcome.value.repos, Some(done), None), walk, ttl)
                && NotStalerThan(walk, done, ttl)
    {
      hide RegistryClient.Valid, Walked, Unfinished, VisitsJustified, Undeleted, InOrder, Backed, NotStalerThan, PagesOf,
           FromRegistry, Added, Clocked;
      ghost var start := |client.history|;
      var result, requests, visits := WalkCatalog(client, pageSize, answers, clock, limit);
      done := clock(requests).look;
      walk := Walk([], visits, start, clock(0).look, done);
      ClockGoesOn(clock, 0, requests);
      forall v | v in walk.visits ensures clock(0).look <= v.look {
        var k :| 0 <= k < |visits| && visits[k] == v;
        ClockGoesOn(clock, 0, k);
      }
      if result.None? { return None, done, walk; }
      if result.value.Err? { return Some(Unlisted(result.value.error)), done, walk; }
      var sorted := SortStrings(result.value.value);
      walk := Walk(result.value.value, visits, start, clock(0).look, done);
      NewWalkIsBacked(Slot(sorted, Some(done), None), walk, ttl, client.history, ClampPageSize(pageSize), answers, clock);
      return Some(Listed(sorted)), done, walk;
    }

    /** The walk behind a slot. */
    ghost function WalkOf(id: string): Walk
      reads this
    {
      if id in walks then walks[id] else NO_WALK
    }

    lemma {:induction false} SlotIsBacked(id: string)
      requires Valid()
      ensures ttl > 0 && Backed(SlotOf(id), WalkOf(id), ttl)
    {
      hide Backed;
      ColdIsBacked(ttl);
    }

    method Put(id: string, e: Slot, ghost w: Walk)
      requires Valid() && Backed(e, w, ttl)
      modifies this
      ensures Valid() && slots == old(slots)[id := e] && walks == old(walks)[id := w]
    {
      hide Backed;
      slots, walks := slots[id := e], walks[id := w];
    }

    /** List, if its walk is over within limit requests: the slot moves as IndexSlot says, other slots stay,
        and unless the reply is the stale fallback everything behind it is younger than 2 ttl plus the
        duration of its walk. A refresh caused by age sees none of the pages the walk before it fetched. */
    method List(id: string, client: RegistryClient, pageSize: int, now: int, answers: Registry, clock: nat -> Times,
                limit: nat)
      returns (result: Option<Result<seq<string>>>, ghost outcome: Outcome, ghost served: int, ghost seen: seq<Visit>)
      requires Valid() && client.Valid() && ttl == client.cacheTTL && this !in client.repr
      requires Clocked(clock) && now <= clock(0).look
      modifies this, client, client.cache
      ensures Valid() && client.Valid() && fresh(client.repr - old(client.repr)) && old(client.history) <= client.history
      ensures served >= now
      ensures Added(client.history, |old(client.history)|, ClampPageSize(pageSize), answers, served)
      ensures result.None? ==>
                && slots == old(slots)[id := old(SlotOf(id))] && walks == old(walks)[id := old(WalkOf(id))]
                && !IsFresh(old(SlotOf(id)), now, ttl)
                && VisitsJustified(client.history, ClampPageSize(pageSize), seen, ttl)
                && Unfinished(PagesOf(seen)) && |seen| == limit
      ensures result.Some? ==>
                && result.value == ListReply(old(SlotOf(id)), now, ttl, outcome)
                && slots == old(slots)[id := AfterList(old(SlotOf(id)), now, ttl, outcome, served)]
                && walks == old(walks)[id := WalkOf(id)]
      ensures result.Some? && result.value.Ok? ==>
                && InOrder(result.value.value) && multiset(result.value.value) == multiset(WalkOf(id).names)
                && (!FallsBack(old(SlotOf(id)), now, ttl, outcome) ==> NotStalerThan(WalkOf(id), served, ttl))
      ensures IsFresh(old(SlotOf(id)), now, ttl) ==> result.Some? && client.history == old(client.history) && served == now
      ensures result.Some? && (IsFresh(old(SlotOf(id)), now, ttl) || outcome.Unlisted?) ==> WalkOf(id) == old(WalkOf(id))
      ensures var n := ClampPageSize(pageSize);
              old(VisitsJustified(client.history, n, WalkOf(id).visits, ttl)) ==>
                VisitsJustified(client.history, n, WalkOf(id).visits, ttl)
      ensures result.Some? && !IsFresh(old(SlotOf(id)), now, ttl) && outcome.Listed? ==>
                && NewWalk(old(client.history), client.history, ClampPageSize(pageSize), WalkOf(id), ttl, clock, served)
                && (Aged(old(SlotOf(id)), now, ttl) ==>
                      AllNew(old(client.history), ClampPageSize(pageSize), old(WalkOf(id)), WalkOf(id)))
                && (old(SettledBy(client.history, ClampPageSize(pageSize), now)) ==>
                      SettledBy(client.history, ClampPageSize(pageSize), served))
      ensures result.Some? && !IsFresh(old(SlotOf(id)), now, ttl) && outcome.Unlisted? ==>
                BrokenOff(client.history, ClampPageSize(pageSize), seen, ttl, answers, clock, served, outcome.error)
    {
      hide RegistryClient.Valid, Walked, Unfinished, VisitsJustified, Undeleted, InOrder, NotStalerThan, Clocked, Backed, PagesOf,
           ClampPageSize, Index.Valid, AllNew, SettledBy, FromRegistry, BrokenOff;
      SlotIsBacked(id);
      var e := SlotOf(id);
      ghost var w, before, n := WalkOf(id), client.history, ClampPageSize(pageSize);
      BackedList(e, w, ttl);
      Put(id, e, w);
      outcome, served, seen := Unlisted(InvalidName), now, [];
      if e.at.Some? && now - e.at.value < ttl {
        if e.err.Some? { return Some(Err(e.err.value)), outcome, served, seen; }
        FreshIsBounded(e, w, now, ttl);
        return Some(Ok(e.repos)), outcome, served, seen;
      }
      var o, done, walk := Refresh(client, pageSize, answers, clock, limit);
      VisitsStayJustified(before, client.history, n, w.visits, ttl);
      served, seen := done, walk.visits;
      if o.None? { return None, outcome, served, seen; }
      outcome := o.value;
      match o.value
      case Unlisted(error) =>
        if e.repos != [] { return Some(Ok(e.repos)), outcome, served, seen; }
        FailureIsBacked(e, w, ttl, done, error);
        Put(id, Slot([], Some(done), Some(error)), w);
        return Some(Err(error)), outcome, served, seen;
      case Listed(sorted) =>
        if Aged(e, now, ttl) { AgedRefreshIsNew(e, w, walk, now, ttl, before, client.history, n); }
        WalkSettles(before, client.history, n, answers, now, done);
        BackedList(Slot(sorted, Some(done), None), walk, ttl);
        Put(id, Slot(sorted, Some(done), None), walk);
        return Some(Ok(sorted)), outcome, served, seen;
    }

    method Invalidate(id: string)
      requires Valid()
      modifies this
      ensures Valid() && slots == old(slots)[id := AfterInvalidate(old(SlotOf(id)))]
      ensures walks == old(walks)[id := old(WalkOf(id))]
    {
      hide Backed, Index.Valid;
      SlotIsBacked(id);
      InvalidIsBacked(SlotOf(id), WalkOf(id), ttl);
      Put(id, AfterInvalidate(SlotOf(id)), WalkOf(id));
    }
  }

  /** A list is walked for, and asked for again once it is a ttl old, with nothing else fetching catalog
      pages: no page of the second walk is one of the first, and each is an answer the registry gave since. */
  method AgedListRefetches(index: Index, id: string, client: RegistryClient, pageSize: int, now: int, later: int,
                           answers: Registry, answers': Registry, clock: nat -> Times, clock': nat -> Times, limit: nat)
    returns (first: Option<Result<seq<string>>>, second: Option<Result<seq<string>>>, ghost outcome: Outcome,
             ghost outcome': Outcome, ghost served: int, ghost served': int, ghost was: Walk, ghost middle: seq<Event>)
    requires index.Valid() && client.Valid() && index.ttl == client.cacheTTL && index !in client.repr
    requires Clocked(clock) && now <= clock(0).look && Clocked(clock') && later <= clock'(0).look
    requires !IsFresh(index.SlotOf(id), now, index.ttl) && SettledBy(client.history, ClampPageSize(pageSize), now)
    modifies index, client, client.cache
    ensures index.Valid() && client.Valid() && old(client.history) <= middle <= client.history
    ensures Added(middle, |old(client.history)|, ClampPageSize(pageSize), answers, served)
    ensures Added(client.history, |middle|, ClampPageSize(pageSize), answers', served')
    ensures first.Some? && outcome.Unlisted? ==> exists k: nat, last: string :: answers(k, last) == Failed(outcome.error)
    ensures first.Some? && outcome.Listed? && served + index.ttl <= later && second.Some? && outcome'.Unlisted? ==>
              exists k: nat, last: string :: answers'(k, last) == Failed(outcome'.error)
    ensures first.Some? && outcome.Listed? ==>
              && first.value.Ok? && multiset(first.value.value) == multiset(was.names)
              && Walked(PagesOf(was.visits), was.names) && served == clock(|was.visits|).look
              && VisitsJustified(middle, ClampPageSize(pageSize), was.visits, index.ttl)
              && forall u :: u in was.visits ==> u.event < |middle|
    ensures first.Some? && outcome.Listed? && served + index.ttl <= later && second.Some? && outcome'.Listed? ==>
              && second.value.Ok? && multiset(second.value.value) == multiset(index.WalkOf(id).names)
              && Walked(PagesOf(index.WalkOf(id).visits), index.WalkOf(id).names)
              && VisitsJustified(client.history, ClampPageSize(pageSize), index.WalkOf(id).visits, index.ttl)
              && forall v :: v in index.WalkOf(id).visits ==> |middle| <= v.event < |client.history|
  {
    hide RegistryClient.Valid, Walked, Unfinished, VisitsJustified, InOrder, NotStalerThan, Clocked, PagesOf, ClampPageSize,
         Index.Valid, SettledBy, Added, Undeleted, CursorOf;
    ghost var seen, seen';
    first, outcome, served, seen := index.List(id, client, pageSize, now, answers, clock, limit);
    middle := client.history;
    index.SlotIsBacked(id);
    ghost var e, n := index.SlotOf(id), ClampPageSize(pageSize);
    was := index.WalkOf(id);
    if first.Some? && outcome.Listed? { EventsAreThere(middle, n, was.visits, index.ttl); }
    ghost var refetches := first.Some? && outcome.Listed? && served + index.ttl <= later;
    assert refetches ==> Aged(e, later, index.ttl) && SettledBy(middle, n, was.ended);
    second, outcome', served', seen' := index.List(id, client, pageSize, later, answers', clock', limit);
    if refetches && second.Some? && outcome'.Listed? {
      EventsAreThere(client.history, n, index.WalkOf(id).visits, index.ttl);
    }
  }

  lemma {:induction false} EventsAreThere(history: seq<Event>, n: nat, visits: seq<Visit>, ttl: int)
    requires VisitsJustified(history, n, visits, ttl)
    ensures forall v :: v in visits ==> v.event < |history| && history[v.event].Fetched?
  {
    hide CursorOf, PagesOf;
    forall v | v in visits ensures v.event < |history| && history[v.event].Fetched? {
      var k :| 0 <= k < |visits| && visits[k] == v;
      assert VisitJustified(history, n, CursorOf(PagesOf(visits), k), v, ttl);
    }
  }

  /** What handleDelete does, and the next list: after a delete answered 200 or 202 every page behind a list
      walked for is an answer given since the delete; if that walk fails, the list of before is served. */
  method DeleteThenList(index: Index, id: string, client: RegistryClient, repo: string, digest: string, status: int,
                        pageSize: int, now: int, answers: Registry, clock: nat -> Times, limit: nat)
    returns (deleted: Result<()>, result: Option<Result<seq<string>>>, ghost outcome: Outcome)
    requires index.Valid() && client.Valid() && index.ttl == client.cacheTTL && index !in client.repr
    requires client.deleteEnabled && IsRepository(repo) && IsDigest(digest) && Invalidates(status)
    requires Clocked(clock) && now <= clock(0).look
    modifies index, client, client.cache
    ensures index.Valid() && client.Valid() && deleted == Ok(())
    ensures old(client.history) + [Deleted(repo)] <= client.history
    ensures result.Some? && outcome.Listed? ==>
              && result.value == Ok(outcome.repos) && multiset(outcome.repos) == multiset(index.WalkOf(id).names)
              && Walked(PagesOf(index.WalkOf(id).visits), index.WalkOf(id).names)
              && VisitsJustified(client.history, ClampPageSize(pageSize), index.WalkOf(id).visits, index.ttl)
              && forall v :: v in index.WalkOf(id).visits ==> v.event > |old(client.history)|
    ensures result.Some? && outcome.Unlisted? ==>
              && (exists k: nat, last: string :: answers(k, last) == Failed(outcome.error))
              && result.value == if old(index.SlotOf(id)).repos != [] then Ok(old(index.SlotOf(id)).repos) else Err(outcome.error)
  {
    hide RegistryClient.Valid, Walked, Unfinished, VisitsJustified, InOrder, NotStalerThan, Clocked, PagesOf, ClampPageSize,
         Index.Valid, SettledBy, Added, Undeleted, CursorOf, AllNew, IsRepository, IsDigest;
    ghost var start := |client.history|;
    deleted := client.DeleteManifest(repo, digest, Answered(status));
    index.Invalidate(id);
    ghost var served, seen;
    result, outcome, served, seen := index.List(id, client, pageSize, now, answers, clock, limit);
    if result.Some? && outcome.Listed? {
      EventsAreThere(client.history, ClampPageSize(pageSize), index.WalkOf(id).visits, index.ttl);
      AfterTheDelete(client.history, index.WalkOf(id).visits, start);
    }
  }

  lemma {:induction false} AfterTheDelete(history: seq<Event>, visits: seq<Visit>, i: nat)
    requires i < |history| && history[i].Deleted? && Undeleted(history, visits)
    requires forall v :: v in visits ==> v.event < |history| && history[v.event].Fetched?
    ensures forall v :: v in visits ==> v.event > i
  {
    forall v | v in visits ensures v.event > i {
      var k :| 0 <= k < |visits| && visits[k] == v;
      assert NoDeleteAfter(history, visits[k].event);
    }
  }
}
