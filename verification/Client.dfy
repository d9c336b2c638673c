/** The registry client over its reply cache (client.go), with a ghost history of what the registry
    answered and when. Pages and byte slices are heap objects, so sharing is part of the model. */
module Client {
  import opened Text
  import opened Options
  import opened TtlCache
  import CacheRuns
  import opened Names
  import opened NaturalOrder
  import opened Sorting
  import opened LinkHeader

  const SECOND := 1_000_000_000
  const IMMUTABLE_TTL := 3600 * SECOND
  const DEFAULT_PAGE_SIZE := 100
  const MAX_PAGE_SIZE := 1000

  datatype Error = InvalidName | Upstream(code: int) | DeleteDenied

  datatype Result<+T> = Ok(value: T) | Err(error: Error)

  /** What a request comes back with: the decoded document, or any failure on the way. */
  datatype Net<+T> = Answered(doc: T) | Failed(error: Error)

  /** A catalog or tag document: its names, and the cursor of its Link header ("" for none). */
  datatype ListDoc = ListDoc(names: seq<string>, linkCursor: string)

  datatype ManifestDoc = ManifestDoc(raw: string, contentType: string)

  datatype Doc = ListAnswer(list: ListDoc) | ManifestAnswer(manifest: ManifestDoc) | BlobAnswer(bytes: string)

  /** Clock readings of one call, in order: cache look-up, then one pair for each store. */
  datatype Times = Times(look: int, store: int, trim: int, aliasStore: int, aliasTrim: int)

  predicate Ordered(t: Times) { t.look <= t.store <= t.trim <= t.aliasStore <= t.aliasTrim }

  // ---------- replies as values ----------

  datatype Reply =
    | PageReply(repo: string, items: seq<string>, next: string)
    | ManifestReply(raw: string, mediaType: string, digest: string)
    | BlobReply(bytes: string)

  function ClampPageSize(n: int): (r: nat)
    ensures 1 <= n <= 1000 ==> r == n
    ensures n <= 0 ==> r == 100
    ensures n > 1000 ==> r == 1000
  {
    if n <= 0 then DEFAULT_PAGE_SIZE else if n > MAX_PAGE_SIZE then MAX_PAGE_SIZE else n
  }

  /** Names with their outer blanks trimmed, the blank ones dropped. */
  function Cleaned(names: seq<string>): seq<string> {
    if names == [] then []
    else
      var t := TrimSpace(names[|names| - 1]);
      Cleaned(names[..|names| - 1]) + if t == "" then [] else [t]
  }

  function NormaliseMediaType(s: string): string {
    var t := ToLower(TrimSpace(s));
    var k := IndexByte(t, ';');
    var u := if k >= 0 then TrimSpace(t[..k]) else t;
    if u == "application/json" || u == "text/plain" || u == "application/octet-stream" then "" else u
  }

  /** The reply is what the request's code makes of the registry's document. */
  ghost predicate Renders(r: Request, doc: Doc, reply: Reply, digestOf: string -> string) {
    match r
    case CatalogReq(n, _) =>
      doc.ListAnswer?
      && reply == PageReply("", Cleaned(doc.list.names), NextCursor(doc.list.linkCursor, doc.list.names, n))
    case TagsReq(repo, n, _) =>
      && doc.ListAnswer? && reply.PageReply? && reply.repo == repo
      && Displayed(reply.items) && multiset(reply.items) == multiset(Cleaned(doc.list.names))
      && reply.next == NextCursor(doc.list.linkCursor, doc.list.names, n)
    case ManifestReq(_, _) =>
      doc.ManifestAnswer?
      && reply == ManifestReply(doc.manifest.raw, NormaliseMediaType(doc.manifest.contentType), digestOf(doc.manifest.raw))
    case BlobReq(_, _) => doc.BlobAnswer? && reply == BlobReply(doc.bytes)
  }

  function Scope(r: Request): string { if r.CatalogReq? then GLOBAL else r.repo }

  function Ttl(r: Request, cacheTTL: int): int {
    if r.BlobReq? || (r.ManifestReq? && IsDigest(r.reference)) then IMMUTABLE_TTL else cacheTTL
  }

  // ---------- the history ----------

  datatype Event =
    | Fetched(req: Request, doc: Doc, reply: Reply, at: int, aliasAt: int)
    | Deleted(repo: string)

  predicate HasAlias(e: Event) {
    e.Fetched? && e.req.ManifestReq? && !IsDigest(e.req.reference) && e.reply.ManifestReply?
  }

  /** The same bytes, asked for by their digest. */
  function Alias(e: Event): Request
    requires HasAlias(e)
  {
    ManifestReq(e.req.repo, e.reply.digest)
  }

  /** The event answers the request: directly, or as a tag fetch whose bytes hash to the digest
      asked for. `since` is when that answer was stored. */
  predicate Answers(e: Event, r: Request, since: int) {
    e.Fetched? && ((r == e.req && since == e.at) || (HasAlias(e) && r == Alias(e) && since == e.aliasAt))
  }

  /** No successful delete after event i touches the request: a delete touches its own repository
      and every catalog page. */
  predicate NotDeletedSince(history: seq<Event>, i: nat, r: Request) {
    forall j :: i < j < |history| && history[j].Deleted? ==> !r.CatalogReq? && history[j].repo != Scope(r)
  }

  /** The registry gave this reply for this request, it was stored less than its TTL before now,
      and nothing deleted since can have changed it. */
  ghost predicate Justified(history: seq<Event>, r: Request, reply: Reply, now: int, cacheTTL: int) {
    exists i: nat, since: int ::
      && i < |history| && Answers(history[i], r, since) && history[i].reply == reply
      && now < since + Ttl(r, cacheTTL) && NotDeletedSince(history, i, r)
  }

  // ---------- heap objects ----------

  class Page {
    var repo: string
    var items: array<string>
    var next: string

    constructor (repo: string, items: seq<string>, next: string)
      ensures fresh(this.items) && Reply() == PageReply(repo, items, next)
    {
      this.repo, this.next := repo, next;
      this.items := new string[|items|](i requires 0 <= i < |items| => items[i]);
      new;
      assert this.items[..] == items;
    }

    ghost function Reply(): Reply reads this, items { PageReply(repo, items[..], next) }

    method Clone() returns (p: Page)
      ensures fresh(p) && fresh(p.items) && p.Reply() == Reply()
    {
      p := new Page(repo, items[..], next);
    }
  }

  method SortedPage(repo: string, tags: seq<string>, next: string) returns (p: Page)
    ensures fresh(p) && fresh(p.items) && p.repo == repo && p.next == next
    ensures Displayed(p.items[..]) && multiset(p.items[..]) == multiset(tags)
  {
    p := new Page(repo, tags, next);
    assert p.items[..] == p.Reply().items == tags;
    SortTags(p.items);
  }

  datatype Cached = CachedPage(page: Page) | CachedManifest(raw: array<char>, mediaType: string, digest: string)
                  | CachedBlob(bytes: array<char>)

  /** The objects a cached value is made of. */
  ghost function Parts(c: Cached): set<object>
    reads if c.CachedPage? then {c.page} else {}
  {
    match c
    case CachedPage(p) => {p, p.items}
    case CachedManifest(raw, _, _) => {raw}
    case CachedBlob(bytes) => {bytes}
  }

  ghost function Content(c: Cached): Reply
    reads if c.CachedPage? then {c.page} else {}, Parts(c)
  {
    match c
    case CachedPage(p) => p.Reply()
    case CachedManifest(raw, mediaType, digest) => ManifestReply(raw[..], mediaType, digest)
    case CachedBlob(bytes) => BlobReply(bytes[..])
  }

  /** The loop of Catalog and Tags that trims names and drops the blank ones. */
  method Clean(names: seq<string>) returns (items: seq<string>)
    ensures items == Cleaned(names)
  {
    items := [];
    for i := 0 to |names|
      invariant items == Cleaned(names[..i])
    {
      assert names[..i + 1][..i] == names[..i];
      var name := TrimSpace(names[i]);
      if name != "" { items := items + [name]; }
    }
    assert names[..|names|] == names;
  }

  method Bytes(s: string) returns (a: array<char>)
    ensures fresh(a) && a[..] == s
  {
    a := new char[|s|](i requires 0 <= i < |s| => s[i]);
    assert a[..] == s;
  }

  // ---------- what the cache may hold ----------

  /** Where a cached reply comes from: the request it is keyed by, the event, and the time stored. */
  datatype Origin = Origin(req: Request, event: nat, since: int)

  ghost predicate Sound(history: seq<Event>, key: string, o: Origin, reply: Reply, scope: string, expires: int, cacheTTL: int) {
    && WellFormed(o.req) && key == Key(o.req) && scope == Scope(o.req)
    && o.event < |history| && Answers(history[o.event], o.req, o.since) && history[o.event].reply == reply
    && expires == o.since + Ttl(o.req, cacheTTL) && NotDeletedSince(history, o.event, o.req)
  }

  /** A sound entry that has not expired justifies its reply to the request it is keyed by. */
  lemma {:induction false} SoundIsJustified(history: seq<Event>, r: Request, o: Origin, reply: Reply, scope: string,
                                            expires: int, cacheTTL: int, now: int)
    requires WellFormed(r) && Sound(history, Key(r), o, reply, scope, expires, cacheTTL) && now < expires
    ensures o.req == r && Justified(history, r, reply, now, cacheTTL)
  {
    KeyIsInjective(o.req, r);
  }

  lemma {:induction false} FetchKeepsSound(history: seq<Event>, e: Event, key: string, o: Origin, reply: Reply,
                                           scope: string, expires: int, cacheTTL: int)
    requires e.Fetched? && Sound(history, key, o, reply, scope, expires, cacheTTL)
    ensures Sound(history + [e], key, o, reply, scope, expires, cacheTTL)
  {}

  /** An entry that InvalidateRepo leaves alone stays sound across the delete. */
  lemma {:induction false} DeleteKeepsSound(history: seq<Event>, repo: string, key: string, o: Origin, reply: Reply,
                                            scope: string, expires: int, cacheTTL: int)
    requires Sound(history, key, o, reply, scope, expires, cacheTTL) && scope != repo && scope != GLOBAL
    ensures Sound(history + [Deleted(repo)], key, o, reply, scope, expires, cacheTTL)
  {}

  class RegistryClient {
    const cache: Cache<Cached>
    const cacheTTL: int
    const deleteEnabled: bool
    const digestOf: string -> string
    ghost var history: seq<Event>
    ghost var origins: map<string, Origin>
    ghost var repr: set<object>

    ghost predicate Valid()
      reads this, cache, repr
    {
      && this !in repr && cache !in repr
      && cacheTTL > 0 && (forall b :: IsDigest(digestOf(b)))
      && Inv(cache.Contents()) && cache.max >= 2
      && (forall k :: k in cache.entries ==> k in origins && Holds(k))
      && (forall e :: e in history && e.Fetched? ==> Renders(e.req, e.doc, e.reply, digestOf))
    }

    ghost predicate Holds(k: string)
      requires k in cache.entries && k in origins
      reads this, cache, repr
    {
      var e := cache.entries[k];
      && (e.value.CachedPage? ==> e.value.page in repr) && Parts(e.value) <= repr
      && Sound(history, k, origins[k], Content(e.value), e.repo, e.expires, cacheTTL)
    }

    constructor (cacheTTL: int, deleteEnabled: bool, digestOf: string -> string)
      requires forall b :: IsDigest(digestOf(b))
      ensures Valid() && fresh(cache) && history == [] && cache.entries == map[] && repr == {}
      ensures this.deleteEnabled == deleteEnabled && this.digestOf == digestOf
      ensures this.cacheTTL == if cacheTTL <= 0 then 60_000_000_000 else cacheTTL
    {
      this.cacheTTL := if cacheTTL <= 0 then 60 * SECOND else cacheTTL;
      this.deleteEnabled, this.digestOf := deleteEnabled, digestOf;
      cache := new Cache(0);
      history, origins, repr := [], map[], {};
    }

    /** The live cached reply for a request, if any. */
    method Look(ghost r: Request, key: string, now: int) returns (o: Option<Cached>)
      requires Valid() && WellFormed(r) && key == Key(r)
      modifies cache
      ensures Valid() && o.Some? == Hit(old(cache.Contents()), key, now)
      ensures cache.Contents() == AfterGet(old(cache.Contents()), key, now)
      ensures o.Some? ==> key in cache.entries && cache.entries[key].value == o.value == old(cache.entries)[key].value
      ensures o.Some? ==> Parts(o.value) <= repr && Justified(history, r, Content(o.value), now, cacheTTL)
    {
      hide Sound, Justified, WellFormed, Key, Inv, Renders, Content, Parts;
      ghost var before := cache.entries;
      assert Hit(cache.Contents(), key, now) ==> Holds(key);
      o := cache.Get(key, now);
      forall k | k in cache.entries ensures k in origins && Holds(k) {
        assert k in before && cache.entries[k].value == before[k].value;
      }
      if o.Some? {
        SoundIsJustified(history, r, origins[key], Content(o.value), before[key].repo, before[key].expires, cacheTTL, now);
      }
    }

    /** Notes in the history what the registry answered; the objects built from it join the footprint. */
    ghost method Record(e: Event, objects: set<object>)
      requires Valid() && this !in objects && cache !in objects
      requires e.Fetched? && Renders(e.req, e.doc, e.reply, digestOf)
      modifies this`history, this`repr
      ensures Valid() && history == old(history) + [e] && repr == old(repr) + objects
    {
      hide Sound, Inv, Renders, Content, Parts;
      ghost var before := history;
      history := history + [e];
      repr := repr + objects;
      forall k | k in cache.entries ensures k in origins && Holds(k) {
        assert old(k in origins && Holds(k));
        var x := cache.entries[k];
        FetchKeepsSound(before, e, k, origins[k], Content(x.value), x.repo, x.expires, cacheTTL);
      }
    }

    /** cache.set for a reply just recorded. */
    method Store(ghost o: Origin, key: string, scope: string, ttl: int, value: Cached, store: int, trim: int)
      requires Valid() && ttl == Ttl(o.req, cacheTTL)
      requires (value.CachedPage? ==> value.page in repr) && Parts(value) <= repr
      requires Sound(history, key, o, Content(value), scope, store + ttl, cacheTTL)
      modifies this`origins, cache
      ensures Valid()
      ensures AfterSet(old(cache.Contents()), key, scope, value, ttl, store, trim, cache.Contents())
      ensures key in cache.entries ==> cache.entries[key].value == value
    {
      hide Sound, Inv, Renders, Content, Parts, AfterSet;
      ghost var before := cache.Contents();
      cache.Set(key, scope, value, ttl, store, trim);
      origins := origins[key := o];
      forall k | k in cache.entries ensures k in origins && Holds(k) {
        assert k in before.entries ==> old(k in origins && Holds(k));
        SetAddsOnlyKey(before, key, scope, value, ttl, store, trim, cache.Contents(), k);
      }
      if key in cache.entries {
        SetAddsOnlyKey(before, key, scope, value, ttl, store, trim, cache.Contents(), key);
      }
    }

    /** The page handed to a caller is a copy outside the client's footprint, and justified. */
    ghost predicate Shown(p: Page, r: Request, now: int)
      reads this, p, p.items
    {
      p !in repr && p.items !in repr && Justified(history, r, p.Reply(), now, cacheTTL)
    }

    /** A page built from an answer: recorded, cached under its request, and copied for the caller. */
    method Publish(ghost r: Request, key: string, scope: string, doc: ListDoc, page: Page, t: Times) returns (p: Page)
      requires Valid() && Ordered(t) && WellFormed(r) && key == Key(r) && scope == Scope(r)
      requires (r.CatalogReq? || r.TagsReq?) && Renders(r, ListAnswer(doc), page.Reply(), digestOf)
      requires page !in repr && page.items !in repr
      modifies this, cache
      ensures Valid() && repr == old(repr) + {page, page.items}
      ensures history == old(history) + [Fetched(r, ListAnswer(doc), page.Reply(), t.store, t.store)]
      ensures fresh(p) && fresh(p.items) && p.Reply() == page.Reply() && Shown(p, r, t.look)
      ensures AfterSet(old(cache.Contents()), key, scope, CachedPage(page), cacheTTL, t.store, t.trim, cache.Contents())
      ensures key in cache.entries ==> Content(cache.entries[key].value) == p.Reply()
    {
      hide Inv, Renders, Key, WellFormed, AfterSet, Holds, NotDeletedSince;
      ghost var e := Fetched(r, ListAnswer(doc), page.Reply(), t.store, t.store);
      Record(e, {page, page.items});
      NewEventIsSound(history[..|history| - 1], r, e, scope, cacheTTL);
      Store(Origin(r, |history| - 1, t.store), key, scope, cacheTTL, CachedPage(page), t.store, t.trim);
      p := page.Clone();
    }

    /** The last event is the registry's answer to r, stored at `at`. */
    ghost predicate LastAnswer(before: seq<Event>, r: Request, doc: Doc, reply: Reply, at: int)
      reads this
    {
      && |history| == |before| + 1 && history[..|before|] == before
      && var e := history[|before|]; e.Fetched? && e.req == r && e.doc == doc && e.reply == reply && e.at == at
    }

    /** What a call does to the cache: a look-up, and when the registry answered, a store. */
    ghost predicate CacheMoves(before: State<Cached>, r: Request, answered: bool, kept: Option<Cached>, t: Times)
      reads this, cache
    {
      var looked := AfterGet(before, Key(r), t.look);
      if Hit(before, Key(r), t.look) || !answered then cache.Contents() == looked
      else kept.Some? && AfterSet(looked, Key(r), Scope(r), kept.value, Ttl(r, cacheTTL), t.store, t.trim, cache.Contents())
    }

    /** kept is the client's own copy of the reply. */
    ghost predicate Keeps(kept: Option<Cached>, reply: Reply)
      reads this, repr
    {
      && kept.Some? && (kept.value.CachedPage? ==> kept.value.page in repr) && Parts(kept.value) <= repr
      && Content(kept.value) == reply
    }

    /** A live cached page is copied out; otherwise the registry is asked once, and its answer recorded,
        cached and copied. `kept` is what the cache holds of it. */
    method Catalog(size: int, last: string, net: Net<ListDoc>, t: Times)
      returns (result: Result<Page>, ghost kept: Option<Cached>)
      requires Valid() && Ordered(t)
      modifies this, cache
      ensures Valid() && fresh(repr - old(repr))
      ensures result.Ok? ==> fresh(result.value) && fresh(result.value.items)
                             && Shown(result.value, CatalogReq(ClampPageSize(size), last), t.look)
      ensures var r := CatalogReq(ClampPageSize(size), last);
              if old(Hit(cache.Contents(), Key(r), t.look)) then
                && result.Ok? && history == old(history)
                && result.value.Reply() == old(Content(cache.entries[Key(r)].value))
              else if net.Failed? then result == Err(net.error) && history == old(history)
              else result.Ok? && LastAnswer(old(history), r, ListAnswer(net.doc), result.value.Reply(), t.store)
      ensures CacheMoves(old(cache.Contents()), CatalogReq(ClampPageSize(size), last), net.Answered?, kept, t)
      ensures result.Ok? ==> Keeps(kept, result.value.Reply())
      ensures var key := Key(CatalogReq(ClampPageSize(size), last));
              result.Ok? && key in cache.entries ==> Content(cache.entries[key].value) == result.value.Reply()
    {
      hide Inv, Renders, Key, AfterSet, Holds, Justified, NextCursor, Cleaned;
      var n := ClampPageSize(size);
      ghost var r := CatalogReq(n, last);
      var key := Key(CatalogReq(n, last));
      var cached := Look(r, key, t.look);
      if cached.Some? {
        PagesAnswerListings(history, r, Content(cached.value), t.look, cacheTTL, digestOf);
        var p := cached.value.page.Clone();
        return Ok(p), cached;
      }
      if net.Failed? { return Err(net.error), None; }
      var items := Clean(net.doc.names);
      var page := new Page("", items, NextCursor(net.doc.linkCursor, net.doc.names, n));
      CatalogRenders(n, last, net.doc, page.Reply(), digestOf);
      var p := Publish(r, key, GLOBAL, net.doc, page, t);
      return Ok(p), Some(CachedPage(page));
    }

    /** As Catalog, for the tags of a repository. The cursor is taken before the display sort. */
    method Tags(repo: string, size: int, last: string, net: Net<ListDoc>, t: Times)
      returns (result: Result<Page>, ghost kept: Option<Cached>)
      requires Valid() && Ordered(t)
      modifies this, cache
      ensures Valid() && fresh(repr - old(repr))
      ensures result.Ok? ==> fresh(result.value) && fresh(result.value.items)
                             && Shown(result.value, TagsReq(repo, ClampPageSize(size), last), t.look)
      ensures var r := TagsReq(repo, ClampPageSize(size), last);
              if !IsRepository(repo) then result == Err(InvalidName) && history == old(history)
              else if old(Hit(cache.Contents(), Key(r), t.look)) then
                && result.Ok? && history == old(history)
                && result.value.Reply() == old(Content(cache.entries[Key(r)].value))
              else if net.Failed? then result == Err(net.error) && history == old(history)
              else result.Ok? && LastAnswer(old(history), r, ListAnswer(net.doc), result.value.Reply(), t.store)
      ensures if !IsRepository(repo) then cache.Contents() == old(cache.Contents())
              else CacheMoves(old(cache.Contents()), TagsReq(repo, ClampPageSize(size), last), net.Answered?, kept, t)
      ensures result.Ok? ==> Keeps(kept, result.value.Reply())
    {
      hide Inv, Renders, Key, AfterSet, Holds, Justified, IsRepository, Displayed, NextCursor, Cleaned;
      if !IsRepository(repo) { return Err(InvalidName), None; }
      var n := ClampPageSize(size);
      ghost var r := TagsReq(repo, n, last);
      var key := Key(TagsReq(repo, n, last));
      var cached := Look(r, key, t.look);
      if cached.Some? {
        PagesAnswerListings(history, r, Content(cached.value), t.look, cacheTTL, digestOf);
        var p := cached.value.page.Clone();
        return Ok(p), cached;
      }
      if net.Failed? { return Err(net.error), None; }
      var items := Clean(net.doc.names);
      var page := SortedPage(repo, items, NextCursor(net.doc.linkCursor, net.doc.names, n));
      TagsRender(repo, n, last, net.doc, page.Reply(), digestOf);
      var p := Publish(r, key, repo, net.doc, page, t);
      return Ok(p), Some(CachedPage(page));
    }

    /** What asking for a manifest does to the cache: a look-up, and when the registry answered, a store
        under the reference and for a tag then one under the digest of the bytes. */
    ghost predicate ManifestMoves(before: State<Cached>, repo: string, reference: string, net: Net<ManifestDoc>,
                                  kept: Option<Cached>, between: State<Cached>, t: Times)
      reads this, cache
    {
      var r := ManifestReq(repo, reference);
      var looked := AfterGet(before, Key(r), t.look);
      if Hit(before, Key(r), t.look) || net.Failed? then cache.Contents() == looked
      else
        && Inv(between) && kept.Some?
        && AfterSet(looked, Key(r), repo, kept.value, Ttl(r, cacheTTL), t.store, t.trim, between)
        && if IsDigest(reference) then cache.Contents() == between
           else AfterSet(between, Key(ManifestReq(repo, digestOf(net.doc.raw))), repo, kept.value, IMMUTABLE_TTL,
                         t.aliasStore, t.aliasTrim, cache.Contents())
    }

    /** fetchManifest: a tag's answer is stored twice, under the tag and under the digest of its bytes. */
    method FetchManifest(repo: string, reference: string, net: Net<ManifestDoc>, t: Times)
      returns (result: Result<Cached>, ghost between: State<Cached>)
      requires Valid() && Ordered(t) && IsRepository(repo) && IsReference(reference)
      modifies this, cache
      ensures Valid() && fresh(repr - old(repr))
      ensures result.Ok? ==> result.value.CachedManifest? && result.value.raw in repr
                             && Justified(history, ManifestReq(repo, reference), Content(result.value), t.look, cacheTTL)
      ensures var r := ManifestReq(repo, reference);
              if old(Hit(cache.Contents(), Key(r), t.look)) then
                result.Ok? && history == old(history) && result.value == old(cache.entries[Key(r)].value)
              else if net.Failed? then result == Err(net.error) && history == old(history)
              else result.Ok? && LastAnswer(old(history), r, ManifestAnswer(net.doc), Content(result.value), t.store)
                   && history[|old(history)|].aliasAt == t.aliasStore
      ensures ManifestMoves(old(cache.Contents()), repo, reference, net, if result.Ok? then Some(result.value) else None,
                            between, t)
    {
      hide Inv, Renders, Key, AfterSet, Holds, IsRepository, IsDigest, IsTag, Justified, Sound, NormaliseMediaType;
      ghost var r := ManifestReq(repo, reference);
      var key := Key(ManifestReq(repo, reference));
      var cached := Look(r, key, t.look);
      if cached.Some? {
        ManifestsAnswerReferences(history, r, Content(cached.value), t.look, cacheTTL, digestOf);
        return Ok(cached.value), cache.Contents();
      }
      if net.Failed? { return Err(net.error), cache.Contents(); }
      var raw := Bytes(net.doc.raw);
      var digest := digestOf(net.doc.raw);
      var value := CachedManifest(raw, NormaliseMediaType(net.doc.contentType), digest);
      ghost var e := Fetched(r, ManifestAnswer(net.doc), Content(value), t.store, t.aliasStore);
      ManifestRenders(repo, reference, net.doc, Content(value), digestOf);
      ghost var before := history;
      Record(e, {raw});
      NewEventIsSound(before, r, e, repo, cacheTTL);
      if IsDigest(reference) {
        Store(Origin(r, |before|, t.store), key, repo, IMMUTABLE_TTL, value, t.store, t.trim);
        between := cache.Contents();
      } else {
        Store(Origin(r, |before|, t.store), key, repo, cacheTTL, value, t.store, t.trim);
        between := cache.Contents();
        NewAliasIsSound(before, e, repo, cacheTTL);
        Store(Origin(Alias(e), |before|, t.aliasStore), Key(ManifestReq(repo, digest)), repo, IMMUTABLE_TTL, value,
              t.aliasStore, t.aliasTrim);
      }
      return Ok(value), between;
    }

    /** The manifest bytes as an image carries them: a copy the caller may write to. */
    method RawManifest(repo: string, reference: string, net: Net<ManifestDoc>, t: Times)
      returns (result: Result<array<char>>, ghost reply: Reply, ghost kept: Option<Cached>, ghost between: State<Cached>)
      requires Valid() && Ordered(t)
      modifies this, cache
      ensures Valid() && fresh(repr - old(repr))
      ensures result.Ok? ==> fresh(result.value) && result.value !in repr && reply.ManifestReply? && reply.raw == result.value[..]
                             && Justified(history, ManifestReq(repo, reference), reply, t.look, cacheTTL)
      ensures var r := ManifestReq(repo, reference);
              if !IsRepository(repo) || !IsReference(reference) then
                result == Err(InvalidName) && history == old(history) && cache.Contents() == old(cache.Contents())
              else if old(Hit(cache.Contents(), Key(r), t.look)) then
                result.Ok? && history == old(history) && reply == old(Content(cache.entries[Key(r)].value))
              else if net.Failed? then result == Err(net.error) && history == old(history)
              else result.Ok? && LastAnswer(old(history), r, ManifestAnswer(net.doc), reply, t.store)
                   && history[|old(history)|].aliasAt == t.aliasStore
      ensures IsRepository(repo) && IsReference(reference) ==>
                ManifestMoves(old(cache.Contents()), repo, reference, net, kept, between, t)
      ensures result.Ok? ==> Keeps(kept, reply)
    {
      hide Inv, Renders, Key, AfterSet, Holds, IsRepository, IsDigest, IsTag, Justified, LastAnswer, ManifestMoves;
      reply, kept, between := BlobReply(""), None, cache.Contents();
      if !IsRepository(repo) || !IsReference(reference) { return Err(InvalidName), reply, kept, between; }
      var fetched;
      fetched, between := FetchManifest(repo, reference, net, t);
      if fetched.Err? { return Err(fetched.error), reply, kept, between; }
      reply, kept := Content(fetched.value), Some(fetched.value);
      var copy := Bytes(fetched.value.raw[..]);
      return Ok(copy), reply, kept, between;
    }

    method FetchBlobCached(repo: string, digest: string, net: Net<string>, t: Times) returns (result: Result<Cached>)
      requires Valid() && Ordered(t) && IsRepository(repo)
      modifies this, cache
      ensures Valid() && fresh(repr - old(repr))
      ensures result.Ok? ==> result.value.CachedBlob? && result.value.bytes in repr
                             && Justified(history, BlobReq(repo, digest), Content(result.value), t.look, cacheTTL)
      ensures var r := BlobReq(repo, digest);
              if old(Hit(cache.Contents(), Key(r), t.look)) then
                result.Ok? && history == old(history) && result.value == old(cache.entries[Key(r)].value)
              else if net.Failed? then result == Err(net.error) && history == old(history)
              else result.Ok? && LastAnswer(old(history), r, BlobAnswer(net.doc), Content(result.value), t.store)
      ensures CacheMoves(old(cache.Contents()), BlobReq(repo, digest), net.Answered?,
                         if result.Ok? then Some(result.value) else None, t)
    {
      hide Inv, Renders, Key, AfterSet, Holds, IsRepository, Justified, Sound;
      ghost var r := BlobReq(repo, digest);
      var key := Key(BlobReq(repo, digest));
      var cached := Look(r, key, t.look);
      if cached.Some? {
        BlobsAnswerDigests(history, r, Content(cached.value), t.look, cacheTTL, digestOf);
        return Ok(cached.value);
      }
      if net.Failed? { return Err(net.error); }
      var bytes := Bytes(net.doc);
      var value := CachedBlob(bytes);
      ghost var e := Fetched(r, BlobAnswer(net.doc), Content(value), t.store, t.store);
      BlobRenders(repo, digest, net.doc, Content(value), digestOf);
      ghost var before := history;
      Record(e, {bytes});
      NewEventIsSound(before, r, e, repo, cacheTTL);
      Store(Origin(r, |before|, t.store), key, repo, IMMUTABLE_TTL, value, t.store, t.trim);
      return Ok(value);
    }

    /** Success is any 2xx status, but only 200 and 202 drop the repository's cached replies. */
    method DeleteManifest(repo: string, digest: string, net: Net<int>) returns (result: Result<()>)
      requires Valid()
      modifies this`history, cache
      ensures Valid()
      ensures result == (if !deleteEnabled then Err(DeleteDenied)
                         else if !IsRepository(repo) || !IsDigest(digest) then Err(InvalidName)
                         else if net.Failed? then Err(net.error)
                         else if 200 <= net.doc <= 299 then Ok(())
                         else if net.doc == 405 then Err(DeleteDenied)
                         else Err(Upstream(net.doc)))
      ensures if deleteEnabled && IsRepository(repo) && IsDigest(digest) && (net == Answered(200) || net == Answered(202))
              then history == old(history) + [Deleted(repo)]
                   && cache.Contents() == AfterInvalidate(old(cache.Contents()), repo)
              else history == old(history) && cache.Contents() == old(cache.Contents())
    {
      hide Inv, Renders, IsRepository, IsDigest, Sound, Content, Parts;
      if !deleteEnabled { return Err(DeleteDenied); }
      if !IsRepository(repo) || !IsDigest(digest) { return Err(InvalidName); }
      if net.Failed? { return Err(net.error); }
      if net.doc == 202 || net.doc == 200 {
        ghost var before, entries := history, cache.entries;
        cache.InvalidateRepo(repo);
        history := history + [Deleted(repo)];
        forall k | k in cache.entries ensures k in origins && Holds(k) {
          assert k in entries && old(k in origins && Holds(k));
          var x := cache.entries[k];
          DeleteKeepsSound(before, repo, k, origins[k], Content(x.value), x.repo, x.expires, cacheTTL);
        }
        return Ok(());
      }
      if net.doc == 405 { return Err(DeleteDenied); }
      if 200 <= net.doc <= 299 { return Ok(()); }
      return Err(Upstream(net.doc));
    }
  }

  predicate Invalidates(status: int) { status == 200 || status == 202 }

  function DeleteOutcome(status: int): Result<()> {
    if status == 405 then Err(DeleteDenied) else if 200 <= status <= 299 then Ok(()) else Err(Upstream(status))
  }

  lemma {:induction false} NewEventIsSound(history: seq<Event>, r: Request, e: Event, scope: string, cacheTTL: int)
    requires e.Fetched? && e.req == r && WellFormed(r) && scope == Scope(r) && cacheTTL > 0
    ensures Sound(history + [e], Key(r), Origin(r, |history|, e.at), e.reply, scope, e.at + Ttl(r, cacheTTL), cacheTTL)
    ensures forall now :: now <= e.at ==> Justified(history + [e], r, e.reply, now, cacheTTL)
  {
    assert (history + [e])[|history|] == e;
    assert Answers(e, r, e.at);
  }

  lemma {:induction false} PagesAnswerListings(history: seq<Event>, r: Request, reply: Reply, now: int, cacheTTL: int,
                                               digestOf: string -> string)
    requires r.CatalogReq? || r.TagsReq?
    requires Justified(history, r, reply, now, cacheTTL)
    requires forall e :: e in history && e.Fetched? ==> Renders(e.req, e.doc, e.reply, digestOf)
    ensures reply.PageReply?
  {
    var i: nat, since: int :| i < |history| && Answers(history[i], r, since) && history[i].reply == reply
                              && now < since + Ttl(r, cacheTTL) && NotDeletedSince(history, i, r);
    assert history[i] in history;
  }

  lemma {:induction false} CatalogRenders(n: nat, last: string, doc: ListDoc, reply: Reply, digestOf: string -> string)
    requires reply == PageReply("", Cleaned(doc.names), NextCursor(doc.linkCursor, doc.names, n))
    ensures Renders(CatalogReq(n, last), ListAnswer(doc), reply, digestOf)
  {}

  lemma {:induction false} TagsRender(repo: string, n: nat, last: string, doc: ListDoc, reply: Reply, digestOf: string -> string)
    requires reply.PageReply? && reply.repo == repo && reply.next == NextCursor(doc.linkCursor, doc.names, n)
    requires Displayed(reply.items) && multiset(reply.items) == multiset(Cleaned(doc.names))
    ensures Renders(TagsReq(repo, n, last), ListAnswer(doc), reply, digestOf)
  {
    hide Displayed;
  }

  lemma {:induction false} ManifestRenders(repo: string, reference: string, doc: ManifestDoc, reply: Reply,
                                           digestOf: string -> string)
    requires reply == ManifestReply(doc.raw, NormaliseMediaType(doc.contentType), digestOf(doc.raw))
    ensures Renders(ManifestReq(repo, reference), ManifestAnswer(doc), reply, digestOf)
  {
    hide NormaliseMediaType;
  }

  lemma {:induction false} BlobRenders(repo: string, digest: string, bytes: string, reply: Reply, digestOf: string -> string)
    requires reply == BlobReply(bytes)
    ensures Renders(BlobReq(repo, digest), BlobAnswer(bytes), reply, digestOf)
  {}

  lemma {:induction false} NewAliasIsSound(history: seq<Event>, e: Event, scope: string, cacheTTL: int)
    requires HasAlias(e) && IsRepository(scope) && scope == e.req.repo && IsDigest(e.reply.digest)
    ensures Sound(history + [e], Key(Alias(e)), Origin(Alias(e), |history|, e.aliasAt), e.reply, scope,
                  e.aliasAt + IMMUTABLE_TTL, cacheTTL)
  {
    hide Key, IsRepository, IsDigest;
    assert (history + [e])[|history|] == e;
  }

  lemma {:induction false} ManifestsAnswerReferences(history: seq<Event>, r: Request, reply: Reply, now: int, cacheTTL: int,
                                                     digestOf: string -> string)
    requires r.ManifestReq? && Justified(history, r, reply, now, cacheTTL)
    requires forall e :: e in history && e.Fetched? ==> Renders(e.req, e.doc, e.reply, digestOf)
    ensures reply.ManifestReply?
  {
    var i: nat, since: int :| i < |history| && Answers(history[i], r, since) && history[i].reply == reply
                              && now < since + Ttl(r, cacheTTL) && NotDeletedSince(history, i, r);
    assert history[i] in history;
  }

  lemma {:induction false} BlobsAnswerDigests(history: seq<Event>, r: Request, reply: Reply, now: int, cacheTTL: int,
                                              digestOf: string -> string)
    requires r.BlobReq? && Justified(history, r, reply, now, cacheTTL)
    requires forall e :: e in history && e.Fetched? ==> Renders(e.req, e.doc, e.reply, digestOf)
    ensures reply.BlobReply?
  {
    var i: nat, since: int :| i < |history| && Answers(history[i], r, since) && history[i].reply == reply
                              && now < since + Ttl(r, cacheTTL) && NotDeletedSince(history, i, r);
    assert history[i] in history;
  }

  /** The registry was asked for the manifest by this digest. */
  predicate AskedByDigest(e: Event, repo: string, digest: string) { e.Fetched? && e.req == ManifestReq(repo, digest) }

  /** A reply to a digest was either asked for by that digest, or is a tag's bytes hashing to it. */
  lemma {:induction false} DigestReplyIsAskedForOrHashes(history: seq<Event>, repo: string, digest: string, reply: Reply,
                                                         now: int, cacheTTL: int, digestOf: string -> string)
    requires IsDigest(digest) && Justified(history, ManifestReq(repo, digest), reply, now, cacheTTL)
    requires forall e :: e in history && e.Fetched? ==> Renders(e.req, e.doc, e.reply, digestOf)
    ensures reply.ManifestReply? && reply.digest == digestOf(reply.raw)
    ensures || digestOf(reply.raw) == digest
            || exists i :: 0 <= i < |history| && AskedByDigest(history[i], repo, digest) && history[i].reply == reply
                           && NotDeletedSince(history, i, ManifestReq(repo, digest))
  {
    hide IsDigest, NormaliseMediaType;
    var r := ManifestReq(repo, digest);
    var i: nat, since: int :| i < |history| && Answers(history[i], r, since) && history[i].reply == reply
                              && now < since + Ttl(r, cacheTTL) && NotDeletedSince(history, i, r);
    assert history[i] in history;
    assert AskedByDigest(history[i], repo, digest) || digestOf(reply.raw) == digest;
  }

  /** Every answer to that digest which no delete has overtaken consists of bytes that hash to it. */
  ghost predicate AnsweredHonestly(history: seq<Event>, repo: string, digest: string, digestOf: string -> string) {
    forall i: nat :: i < |history| && AskedByDigest(history[i], repo, digest)
                     && NotDeletedSince(history, i, ManifestReq(repo, digest)) ==>
      history[i].doc.ManifestAnswer? && digestOf(history[i].doc.manifest.raw) == digest
  }

  /** Every reply the client may give to that digest carries it. */
  ghost predicate RepliesMatch(history: seq<Event>, repo: string, digest: string, cacheTTL: int) {
    forall reply: Reply, now: int :: Justified(history, ManifestReq(repo, digest), reply, now, cacheTTL) ==>
      reply.ManifestReply? && reply.digest == digest
  }

  /** Replies to a digest carry it if and only if the registry answered honestly each time it was asked by
      that digest: what came by way of a tag always does. */
  lemma {:induction false} DigestRepliesMatchIff(history: seq<Event>, repo: string, digest: string, cacheTTL: int,
                                                 digestOf: string -> string)
    requires IsDigest(digest)
    requires forall e :: e in history && e.Fetched? ==> Renders(e.req, e.doc, e.reply, digestOf)
    ensures RepliesMatch(history, repo, digest, cacheTTL) <==> AnsweredHonestly(history, repo, digest, digestOf)
  {
    hide IsDigest, NormaliseMediaType, NotDeletedSince;
    var r := ManifestReq(repo, digest);
    if AnsweredHonestly(history, repo, digest, digestOf) {
      forall reply: Reply, now: int | Justified(history, r, reply, now, cacheTTL)
        ensures reply.ManifestReply? && reply.digest == digest
      {
        DigestReplyIsAskedForOrHashes(history, repo, digest, reply, now, cacheTTL, digestOf);
        if i :| 0 <= i < |history| && AskedByDigest(history[i], repo, digest) && history[i].reply == reply
                && NotDeletedSince(history, i, r) {
          assert history[i] in history;
        }
      }
    }
    if RepliesMatch(history, repo, digest, cacheTTL) {
      forall i: nat | i < |history| && AskedByDigest(history[i], repo, digest) && NotDeletedSince(history, i, r)
        ensures history[i].doc.ManifestAnswer? && digestOf(history[i].doc.manifest.raw) == digest
      {
        assert history[i] in history;
        AskedIsJustified(history, i, r, cacheTTL);
      }
    }
  }

  /** An answer no delete has overtaken justifies its reply at the time it was stored. */
  lemma {:induction false} AskedIsJustified(history: seq<Event>, i: nat, r: Request, cacheTTL: int)
    requires i < |history| && history[i].Fetched? && history[i].req == r && NotDeletedSince(history, i, r)
    ensures Justified(history, r, history[i].reply, history[i].at + Ttl(r, cacheTTL) - 1, cacheTTL)
  {
    assert Answers(history[i], r, history[i].at);
  }

  lemma {:induction false} CachedIsOwned(c: RegistryClient, key: string)
    requires c.Valid() && key in c.cache.entries
    ensures var v := c.cache.entries[key].value; (v.CachedPage? ==> v.page in c.repr) && Parts(v) <= c.repr
  {
    assert c.Holds(key);
  }

  /** Both clock readings of a store come before what it stores expires. */
  predicate Prompt(store: int, trim: int, look: int, ttl: int) { trim < store + ttl && look < store + ttl }

  /** What was just fetched and cached is hit by a look-up within its ttl. */
  lemma {:induction false} AnsweredIsHit(c: RegistryClient, before: State<Cached>, r: Request, kept: Option<Cached>, t: Times,
                                         look: int)
    requires c.cacheTTL > 0 && c.CacheMoves(before, r, true, kept, t)
    requires Inv(before) && before.max >= 2 && !Hit(before, Key(r), t.look)
    requires Prompt(t.store, t.trim, look, Ttl(r, c.cacheTTL))
    ensures kept.Some? && Hit(c.cache.Contents(), Key(r), look) && c.cache.entries[Key(r)].value == kept.value
  {
    hide Inv, AfterSet, AfterGet, Key, IsDigest;
    GetKeepsInv(before, Key(r), t.look);
    assert AfterGet(before, Key(r), t.look).max == before.max by { GetKeepsMax(before, Key(r), t.look); }
    CacheRuns.JustSetIsHit(AfterGet(before, Key(r), t.look), Key(r), Scope(r), kept.value, Ttl(r, c.cacheTTL), t.store,
                           t.trim, c.cache.Contents(), look);
  }

  lemma {:induction false} GetKeepsMax<V>(s: State<V>, key: string, now: int)
    ensures AfterGet(s, key, now).max == s.max
  {}

  /** A caller overwrites every name of the page it got and asks again with the registry out of reach.
      While the reply is cached, the second answer is the first one, untouched; and a page fetched by the
      first call is still cached when the second comes within its ttl, so no further request is made. */
  method OverwrittenPageIsNotServed(c: RegistryClient, size: int, last: string, net: Net<ListDoc>, t: Times, later: Times)
    returns (first: Result<Page>, ghost shown: Reply, second: Result<Page>)
    requires c.Valid() && Ordered(t) && Ordered(later)
    modifies c, c.cache
    ensures c.Valid()
    ensures first.Ok? ==>
              && (if old(Hit(c.cache.Contents(), Key(CatalogReq(ClampPageSize(size), last)), t.look))
                  then shown == old(Content(c.cache.entries[Key(CatalogReq(ClampPageSize(size), last))].value))
                  else |c.history| > |old(c.history)| && c.history[|old(c.history)|].Fetched?
                       && net.Answered? && c.history[|old(c.history)|].doc == ListAnswer(net.doc) && c.history[|old(c.history)|].reply == shown)
              && Overwritten(first.value)
    ensures first.Ok? && second.Ok? ==> second.value.Reply() == shown
    ensures net.Answered? && !old(Hit(c.cache.Contents(), Key(CatalogReq(ClampPageSize(size), last)), t.look))
            && Prompt(t.store, t.trim, later.look, c.cacheTTL) ==>
              first.Ok? && second.Ok? && |c.history| == |old(c.history)| + 1
  {
    hide Inv, Renders, Key, Justified, Content, Parts, ClampPageSize, RegistryClient.Valid, RegistryClient.Keeps,
         RegistryClient.CacheMoves, Prompt;
    shown := BlobReply("");
    ghost var r, before := CatalogReq(ClampPageSize(size), last), c.cache.Contents();
    ValidCache(c);
    ghost var kept;
    first, kept := c.Catalog(size, last, net, t);
    second := Err(InvalidName);
    ghost var middle := c.history;
    if first.Ok? {
      if net.Answered? && !Hit(before, Key(r), t.look) && Prompt(t.store, t.trim, later.look, c.cacheTTL) {
        AnsweredIsHit(c, before, r, kept, t, later.look);
      }
      var page := first.value;
      shown := page.Reply();
      if Key(r) in c.cache.entries { CachedIsOwned(c, Key(r)); }
      Overwrite(c, page, r, shown);
      second, kept := c.Catalog(size, last, Failed(Upstream(503)), later);
      assert c.history == middle;
    }
  }

  lemma {:induction false} ValidCache(c: RegistryClient)
    requires c.Valid()
    ensures Inv(c.cache.Contents()) && c.cache.max >= 2 && c.cacheTTL > 0
  {}

  /** Nothing is left of what the page said. */
  ghost predicate Overwritten(page: Page)
    reads page, page.items
  {
    page.next == "overwritten" && forall i :: 0 <= i < page.items.Length ==> page.items[i] == "overwritten"
  }

  method Overwrite(c: RegistryClient, page: Page, ghost r: Request, ghost shown: Reply)
    requires c.Valid() && page !in c.repr && page.items !in c.repr
    requires Key(r) in c.cache.entries ==> Content(c.cache.entries[Key(r)].value) == shown
    modifies page, page.items
    ensures c.Valid() && c.cache.Contents() == old(c.cache.Contents()) && c.history == old(c.history)
    ensures Key(r) in c.cache.entries ==> Content(c.cache.entries[Key(r)].value) == shown
    ensures Overwritten(page) && page.items == old(page.items)
  {
    hide Inv, Renders, Key, Content, Parts, RegistryClient.Valid;
    if Key(r) in c.cache.entries { CachedIsOwned(c, Key(r)); }
    page.next := "overwritten";
    for i := 0 to page.items.Length
      modifies page.items
      invariant c.Valid()
      invariant Key(r) in c.cache.entries ==> Content(c.cache.entries[Key(r)].value) == shown
      invariant forall j :: 0 <= j < i ==> page.items[j] == "overwritten"
    {
      page.items[i] := "overwritten";
    }
  }

  /** A tag's manifest fetched, then the same bytes asked for by their digest with the registry out of
      reach, within the hour: they are served from what the tag's fetch stored. */
  method DigestIsServedFromTag(c: RegistryClient, repo: string, tag: string, doc: ManifestDoc, t: Times, later: Times)
    returns (first: Result<Cached>, second: Result<Cached>)
    requires c.Valid() && Ordered(t) && Ordered(later) && IsRepository(repo) && IsTag(tag)
    requires !Hit(c.cache.Contents(), Key(ManifestReq(repo, tag)), t.look)
    requires Prompt(t.aliasStore, t.aliasTrim, later.look, 3_600_000_000_000)
    modifies c, c.cache
    ensures c.Valid() && first.Ok? && second == first && |c.history| == |old(c.history)| + 1
    ensures second.value.CachedManifest? && second.value.raw[..] == doc.raw
  {
    hide Inv, Key, Justified, Parts, IsRepository, IsDigest, IsTag, RegistryClient.Valid, AfterGet, AfterSet, Hit,
         NormaliseMediaType;
    if IsDigest(tag) { DigestIsNoTag(tag); }
    ValidCache(c);
    var digest := c.digestOf(doc.raw);
    DigestsAreDigests(c, doc.raw);
    ghost var between;
    first, between := c.FetchManifest(repo, tag, Answered(doc), t);
    LastIsRendered(c);
    ValidCache(c);
    SetKeepsMax(between, Key(ManifestReq(repo, digest)), repo, first.value, IMMUTABLE_TTL, t.aliasStore, t.aliasTrim, c.cache.Contents());
    CacheRuns.JustSetIsHit(between, Key(ManifestReq(repo, digest)), repo, first.value, IMMUTABLE_TTL, t.aliasStore,
                           t.aliasTrim, c.cache.Contents(), later.look);
    ghost var after;
    second, after := c.FetchManifest(repo, digest, Failed(Upstream(503)), later);
  }

  lemma {:induction false} DigestsAreDigests(c: RegistryClient, b: string)
    requires c.Valid()
    ensures IsDigest(c.digestOf(b))
  {}

  lemma {:induction false} SetKeepsMax<V>(s: State<V>, key: string, repo: string, value: V, ttl: int, now: int, evictNow: int,
                                          s': State<V>)
    requires AfterSet(s, key, repo, value, ttl, now, evictNow, s')
    ensures s'.max == s.max
  {}

  /** A manifest asked for by digest is kept as it came: asked for again within the hour, with the
      registry out of reach, it is served, and carries that digest if and only if the bytes the registry
      sent hash to it. */
  method MismatchIsServed(c: RegistryClient, repo: string, digest: string, doc: ManifestDoc, t: Times, later: Times)
    returns (first: Result<Cached>, second: Result<Cached>)
    requires c.Valid() && Ordered(t) && Ordered(later) && IsRepository(repo) && IsDigest(digest)
    requires !Hit(c.cache.Contents(), Key(ManifestReq(repo, digest)), t.look)
    requires Prompt(t.store, t.trim, later.look, 3_600_000_000_000)
    modifies c, c.cache
    ensures c.Valid() && first.Ok? && second == first && |c.history| == |old(c.history)| + 1
    ensures second.value.CachedManifest? && (second.value.digest == digest <==> c.digestOf(doc.raw) == digest)
  {
    hide Inv, Key, Justified, Parts, IsRepository, IsDigest, IsTag, RegistryClient.Valid, AfterGet, AfterSet, Hit,
         NormaliseMediaType;
    ValidCache(c);
    var r := ManifestReq(repo, digest);
    ghost var before, between := c.cache.Contents(), c.cache.Contents();
    GetKeepsInv(before, Key(r), t.look);
    GetKeepsMax(before, Key(r), t.look);
    first, between := c.FetchManifest(repo, digest, Answered(doc), t);
    LastIsRendered(c);
    CacheRuns.JustSetIsHit(AfterGet(before, Key(r), t.look), Key(r), repo, first.value, IMMUTABLE_TTL, t.store, t.trim,
                           c.cache.Contents(), later.look);
    second, between := c.FetchManifest(repo, digest, Failed(Upstream(503)), later);
  }

  lemma {:induction false} LastIsRendered(c: RegistryClient)
    requires c.Valid() && c.history != []
    ensures var e := c.history[|c.history| - 1]; e.Fetched? ==> Renders(e.req, e.doc, e.reply, c.digestOf)
  {
    hide Renders;
    assert c.history[|c.history| - 1] in c.history;
  }

  lemma {:induction false} LastIsTags(c: RegistryClient, r: Request, doc: ListDoc, reply: Reply)
    requires c.Valid() && c.history != [] && r.TagsReq?
    requires var e := c.history[|c.history| - 1]; e.Fetched? && e.req == r && e.doc == ListAnswer(doc) && e.reply == reply
    ensures reply.PageReply? && Displayed(reply.items) && multiset(reply.items) == multiset(Cleaned(doc.names))
  {
    hide Displayed, LinkHeader.NextCursor, Cleaned, RegistryClient.Valid;
    LastIsRendered(c);
  }

  /** A blob fetched is served again for an hour without asking the registry. */
  method BlobIsServedForAnHour(c: RegistryClient, repo: string, digest: string, bytes: string, t: Times, later: Times)
    returns (first: Result<Cached>, second: Result<Cached>)
    requires c.Valid() && Ordered(t) && Ordered(later) && IsRepository(repo)
    requires !Hit(c.cache.Contents(), Key(BlobReq(repo, digest)), t.look)
    requires Prompt(t.store, t.trim, later.look, 3_600_000_000_000)
    modifies c, c.cache
    ensures c.Valid() && first.Ok? && second == first && |c.history| == |old(c.history)| + 1
    ensures second.value.CachedBlob? && second.value.bytes[..] == bytes
  {
    hide Inv, Key, Justified, Parts, IsRepository, RegistryClient.Valid, RegistryClient.CacheMoves, Hit, Prompt;
    ValidCache(c);
    ghost var before, r := c.cache.Contents(), BlobReq(repo, digest);
    first := c.FetchBlobCached(repo, digest, Answered(bytes), t);
    LastIsRendered(c);
    AnsweredIsHit(c, before, r, Some(first.value), t, later.look);
    second := c.FetchBlobCached(repo, digest, Failed(Upstream(503)), later);
  }

  /** Tags fetched are served again within the ttl, re-sorted the same, without asking the registry. */
  method TagsAreServedAgain(c: RegistryClient, repo: string, size: int, last: string, doc: ListDoc, t: Times, later: Times)
    returns (first: Result<Page>, ghost shown: Reply, second: Result<Page>)
    requires c.Valid() && Ordered(t) && Ordered(later) && IsRepository(repo)
    requires !Hit(c.cache.Contents(), Key(TagsReq(repo, ClampPageSize(size), last)), t.look)
    requires Prompt(t.store, t.trim, later.look, c.cacheTTL)
    modifies c, c.cache
    ensures c.Valid() && first.Ok? && shown == first.value.Reply()
    ensures Displayed(first.value.items[..]) && multiset(first.value.items[..]) == multiset(Cleaned(doc.names))
    ensures second.Ok? && second.value.Reply() == shown && |c.history| == |old(c.history)| + 1
  {
    hide Inv, Renders, Key, Justified, Content, Parts, ClampPageSize, IsRepository, RegistryClient.Valid,
         RegistryClient.CacheMoves, Hit, Prompt;
    ValidCache(c);
    ghost var before, r, kept := c.cache.Contents(), TagsReq(repo, ClampPageSize(size), last), None;
    first, kept := c.Tags(repo, size, last, Answered(doc), t);
    AnsweredIsHit(c, before, r, kept, t, later.look);
    LastIsTags(c, TagsReq(repo, ClampPageSize(size), last), doc, first.value.Reply());
    shown := first.value.Reply();
    second, kept := c.Tags(repo, size, last, Failed(Upstream(503)), later);
  }

  /** A cached reply is filed under the scope of its request. */
  lemma {:induction false} CachedScope(c: RegistryClient, r: Request)
    requires c.Valid() && WellFormed(r) && Key(r) in c.cache.entries
    ensures c.cache.entries[Key(r)].repo == Scope(r)
  {
    hide Key, WellFormed, Inv, Renders, Answers, NotDeletedSince, Content, Parts;
    assert c.Holds(Key(r));
    KeyIsInjective(c.origins[Key(r)].req, r);
  }

  /** A manifest live in the cache, then a delete in its repository, then the same request again with the
      registry out of reach: the old reply is served if and only if the delete was answered with a status
      other than 200 and 202, even where that status counts as a success. */
  method FetchAfterDelete(c: RegistryClient, repo: string, digest: string, reference: string, status: int, t: Times)
    returns (deleted: Result<()>, fetched: Result<Cached>)
    requires c.Valid() && Ordered(t) && c.deleteEnabled && IsRepository(repo) && IsDigest(digest) && IsReference(reference)
    requires Hit(c.cache.Contents(), Key(ManifestReq(repo, reference)), t.look)
    modifies c, c.cache
    ensures c.Valid() && deleted == DeleteOutcome(status)
    ensures fetched.Ok? <==> !Invalidates(status)
    ensures fetched.Ok? ==> fetched.value == old(c.cache.entries[Key(ManifestReq(repo, reference))].value)
  {
    hide Inv, Renders, Key, Justified, Content, Parts, IsRepository, IsDigest, IsTag, RegistryClient.Valid,
         RegistryClient.LastAnswer;
    CachedScope(c, ManifestReq(repo, reference));
    deleted := c.DeleteManifest(repo, digest, Answered(status));
    ghost var between;
    fetched, between := c.FetchManifest(repo, reference, Failed(Upstream(503)), t);
  }

  /** For instance, after a delete answered 204: it succeeds, and the old reply is still served. */
  method FetchAfterNoContent(c: RegistryClient, repo: string, digest: string, reference: string, t: Times)
    returns (deleted: Result<()>, fetched: Result<Cached>)
    requires c.Valid() && Ordered(t) && c.deleteEnabled && IsRepository(repo) && IsDigest(digest) && IsReference(reference)
    requires Hit(c.cache.Contents(), Key(ManifestReq(repo, reference)), t.look)
    modifies c, c.cache
    ensures c.Valid() && deleted == Ok(())
    ensures fetched == Ok(old(c.cache.entries[Key(ManifestReq(repo, reference))].value))
  {
    hide Inv, Key, IsRepository, IsDigest, IsTag, RegistryClient.Valid;
    deleted, fetched := FetchAfterDelete(c, repo, digest, reference, 204, t);
  }
}
