/** What a justified reply is worth to a caller, in plain terms: how old it may be, which deletes it has not
    survived, and how it renders what the registry sent. */
module ReplyLaws {
  import opened Text
  import opened Names
  import LinkHeader
  import opened Client

  /** Seconds and nanoseconds aside: an hour for blobs and manifests asked for by digest. */
  predicate IsImmutable(r: Request) { r.BlobReq? || (r.ManifestReq? && IsDigest(r.reference)) }

  /** The event gives the reply for r, `since` then: asked for as r, or a tag of r's repository whose bytes
      hash to the digest r asks for. */
  predicate Gives(e: Event, r: Request, reply: Reply, since: int) {
    && e.Fetched? && e.reply == reply
    && ((e.req == r && since == e.at)
        || (&& r.ManifestReq? && e.req.ManifestReq? && e.req.repo == r.repo && !IsDigest(e.req.reference)
            && reply.ManifestReply? && reply.digest == r.reference && since == e.aliasAt))
  }

  /** No delete after event i that invalidated what r asks for: any delete for the catalog, else one in the
      repository of r. */
  predicate Outlives(history: seq<Event>, i: nat, r: Request) {
    forall j :: i < j < |history| && history[j].Deleted? ==>
      match r
      case CatalogReq(_, _) => false
      case TagsReq(repo, _, _) => history[j].repo != repo
      case ManifestReq(repo, _) => history[j].repo != repo
      case BlobReq(repo, _) => history[j].repo != repo
  }

  /** A reply is justified if and only if the registry gave it, it was stored less than an hour ago if it is
      immutable and less than the configured time ago if not, and no delete since touches it. */
  lemma {:induction false} JustifiedIff(history: seq<Event>, r: Request, reply: Reply, now: int, cacheTTL: int)
    ensures Justified(history, r, reply, now, cacheTTL) <==>
            exists i: nat, since: int ::
              && i < |history| && Gives(history[i], r, reply, since) && Outlives(history, i, r)
              && now < since + if IsImmutable(r) then 3_600_000_000_000 else cacheTTL
  {
    if i: nat, since: int :| i < |history| && Answers(history[i], r, since) && history[i].reply == reply
                             && now < since + Ttl(r, cacheTTL) && NotDeletedSince(history, i, r) {
      assert Gives(history[i], r, reply, since) && Outlives(history, i, r);
    }
    if i: nat, since: int :| i < |history| && Gives(history[i], r, reply, since) && Outlives(history, i, r)
                             && now < since + if IsImmutable(r) then 3_600_000_000_000 else cacheTTL {
      assert Answers(history[i], r, since) && NotDeletedSince(history, i, r);
    }
  }

  // ---------- names as the client shows them ----------

  lemma {:induction false} CleanedJoin(a: seq<string>, b: seq<string>)
    ensures Cleaned(a + b) == Cleaned(a) + Cleaned(b)
    decreases |b|
  {
    if b == [] {
      assert a + b == a;
    } else {
      var n := |b| - 1;
      assert (a + b)[..|a + b| - 1] == a + b[..n];
      CleanedJoin(a, b[..n]);
    }
  }

  /** Each name is shown trimmed, in its place, and only the blank ones are not. */
  lemma {:induction false} CleanedName(a: seq<string>, name: string, b: seq<string>)
    ensures Cleaned(a + [name] + b) == Cleaned(a) + (if TrimSpace(name) == "" then [] else [TrimSpace(name)]) + Cleaned(b)
  {
    CleanedJoin(a + [name], b);
    assert (a + [name])[..|a|] == a;
  }
}
