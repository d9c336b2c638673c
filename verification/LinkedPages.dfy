/** Pages of names as they come over the wire: where each goes on, told by its Link header and its names
    (client.go, Catalog, Tags, nextCursor). */
module LinkedPages {
  import opened Options
  import opened Names
  import TtlCache
  import LinkHeader
  import LinkRoundTrip
  import opened Client

  /** Where a page goes on: from the cursor linked; without one, from the last of exactly n names, unless
      that is blank; else nowhere. */
  predicate GoesOnAt(names: seq<string>, link: string, n: nat, next: string) {
    if link != "" then next == link
    else if |names| == n && n > 0 && names[n - 1] != "" then next == names[n - 1]
    else next == ""
  }

  lemma {:induction false} RenderedGoesOn(r: Request, doc: Doc, reply: Reply, digestOf: string -> string)
    requires (r.CatalogReq? || r.TagsReq?) && Renders(r, doc, reply, digestOf)
    ensures doc.ListAnswer? && reply.PageReply? && GoesOnAt(doc.list.names, doc.list.linkCursor, r.n, reply.next)
  {}

  /** Every page the client may show, cached or not, goes on where the registry's answer behind it says. */
  lemma {:induction false} JustifiedGoesOn(history: seq<Event>, r: Request, reply: Reply, now: int, cacheTTL: int,
                                           digestOf: string -> string)
    requires (r.CatalogReq? || r.TagsReq?) && Justified(history, r, reply, now, cacheTTL)
    requires forall e :: e in history && e.Fetched? ==> Renders(e.req, e.doc, e.reply, digestOf)
    ensures reply.PageReply?
    ensures exists i :: 0 <= i < |history| && history[i].Fetched? && history[i].req == r && history[i].reply == reply
                        && history[i].doc.ListAnswer?
                        && GoesOnAt(history[i].doc.list.names, history[i].doc.list.linkCursor, r.n, reply.next)
  {
    hide Renders, NotDeletedSince, GoesOnAt;
    var i: nat, since: int :| i < |history| && Answers(history[i], r, since) && history[i].reply == reply
                              && now < since + Ttl(r, cacheTTL) && NotDeletedSince(history, i, r);
    assert history[i] in history;
    RenderedGoesOn(r, history[i].doc, reply, digestOf);
  }

  /** The document of an answer, its Link header read. */
  method ReadList(names: seq<string>, header: string, lastParam: string -> string) returns (doc: ListDoc)
    ensures doc == ListDoc(names, LinkHeader.LinkCursor(LinkHeader.Split(header), lastParam))
  {
    var cursor := LinkHeader.ParseLinkNextLast(header, lastParam);
    doc := ListDoc(names, cursor);
  }

  /** A catalog page fetched with printed links in its Link header goes on from the first written with rel
      next that carries a cursor; with none such, from its last name if exactly n came. */
  method CatalogOverLinks(c: RegistryClient, size: int, last: string, names: seq<string>, ghost links: seq<LinkRoundTrip.Written>,
                          header: string, lastParam: string -> string, t: Times) returns (result: Result<Page>)
    requires c.Valid() && Ordered(t) && header == LinkRoundTrip.Print(links)
    requires forall i :: 0 <= i < |links| ==> LinkRoundTrip.IsLink(links[i])
    requires !TtlCache.Hit(c.cache.Contents(), Key(CatalogReq(ClampPageSize(size), last)), t.look)
    modifies c, c.cache
    ensures c.Valid() && result.Ok? && result.value.items[..] == Cleaned(names)
    ensures GoesOnAt(names, LinkRoundTrip.WrittenCursor(links, lastParam), ClampPageSize(size), result.value.next)
  {
    hide Key, Justified, TtlCache.Inv, RegistryClient.Valid, LinkRoundTrip.Print, LinkRoundTrip.IsLink,
         LinkRoundTrip.WrittenCursor, LinkHeader.LinkCursor, LinkHeader.Split, ClampPageSize, Cleaned, GoesOnAt,
         RegistryClient.CacheMoves, RegistryClient.Keeps, LinkHeader.NextCursor;
    var doc := ReadList(names, header, lastParam);
    LinkRoundTrip.FollowsWrittenCursor(links, lastParam);
    ghost var kept;
    result, kept := c.Catalog(size, last, Answered(doc), t);
    LastIsRendered(c);
    RenderedGoesOn(CatalogReq(ClampPageSize(size), last), ListAnswer(doc), result.value.Reply(), c.digestOf);
  }

  /** The same for the tags of a repository, although the page is re-sorted for display. */
  method TagsOverLinks(c: RegistryClient, repo: string, size: int, last: string, names: seq<string>,
                       ghost links: seq<LinkRoundTrip.Written>, header: string, lastParam: string -> string, t: Times)
    returns (result: Result<Page>)
    requires c.Valid() && Ordered(t) && IsRepository(repo) && header == LinkRoundTrip.Print(links)
    requires forall i :: 0 <= i < |links| ==> LinkRoundTrip.IsLink(links[i])
    requires !TtlCache.Hit(c.cache.Contents(), Key(TagsReq(repo, ClampPageSize(size), last)), t.look)
    modifies c, c.cache
    ensures c.Valid() && result.Ok? && multiset(result.value.items[..]) == multiset(Cleaned(names))
    ensures GoesOnAt(names, LinkRoundTrip.WrittenCursor(links, lastParam), ClampPageSize(size), result.value.next)
  {
    hide Key, Justified, TtlCache.Inv, RegistryClient.Valid, LinkRoundTrip.Print, LinkRoundTrip.IsLink,
         LinkRoundTrip.WrittenCursor, LinkHeader.LinkCursor, LinkHeader.Split, ClampPageSize, Cleaned, GoesOnAt, IsRepository,
         RegistryClient.CacheMoves, RegistryClient.Keeps, LinkHeader.NextCursor;
    var doc := ReadList(names, header, lastParam);
    LinkRoundTrip.FollowsWrittenCursor(links, lastParam);
    ghost var kept;
    result, kept := c.Tags(repo, size, last, Answered(doc), t);
    LastIsRendered(c);
    RenderedGoesOn(TagsReq(repo, ClampPageSize(size), last), ListAnswer(doc), result.value.Reply(), c.digestOf);
  }
}
