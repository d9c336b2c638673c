# A verified model of the registry client and its catalog index

This project models the part of MazeRegistryUI that talks to a container registry and remembers what it
was told: the registry client (`internal/registry/client.go`, `auth.go`, `cache.go`) and the catalog index
above it (`internal/server/catalog.go`, with one page of `handlers.go` and the limiter of `server.go`).
`dafny verify dfyconfig.toml` checks all of it.

The form follows the source. What the source updates in place is a class or an array with loops
(`TtlCache.Cache`, `Client.RegistryClient` over heap pages, `CatalogIndex.Index`, `Tokens.TokenCache`,
`AuthHandshake.AuthClient`, `History.ApplyHistory`), each method proved against a specification function
or a relation on the state. Concurrency is modelled as state machines over the steps of threads
(`SingleFlight`, `Overlap`, `IndexBurst`, `FanOut`), and every law about them is over all interleavings. The
clock, the registry, the token service, the digest function and the `last` parameter of a URL are parameters,
universally quantified.

| modules | subject |
|---|---|
| `Options`, `Text`, `Words`, `Sorting`, `HeaderParams` | optional values, byte strings and their words, in-place sorting under a comparison, parameters in a map |
| `NaturalOrder`, `VersionOrder` | the order tags are displayed in, and what it means for a reader |
| `Challenges`, `ChallengeRoundTrip`, `BearerOffer` | the WWW-Authenticate scanner, printed and read back, and the Bearer challenge offered |
| `LinkHeader`, `LinkCommas`, `LinkRoundTrip` | the Link scanner, where it splits any header, printed and read back, and the pagination cursor |
| `TtlCache`, `CacheRuns`, `CacheUse` | the bounded TTL and LRU cache, one step and whole runs, and what use protects |
| `Names`, `NameGrammar`, `Client` | names and cache keys; the client over its cache, with a ghost history of the registry's answers |
| `ReplyLaws`, `LinkedPages`, `MediaTypes` | what a reply is worth, where a page goes on, what type a manifest has |
| `Overlap` | calls on one client that overlap with a delete |
| `CatalogWalk`, `Pagination` | following cursors to the end, against any registry and against a well-behaved one |
| `IndexSlot`, `CatalogIndex`, `ServedCatalog` | the catalog index, its staleness, and what it lists |
| `IndexBurst` | many callers of the index at once |
| `CatalogPages` | search and "load more" |
| `Tokens`, `SingleFlight`, `AuthHandshake` | token lifetimes, concurrent token requests, the bearer handshake |
| `FanOut`, `IndexSize`, `History` | resolving index children concurrently, sizes, build commands |

The composition runs from bottom to top. `TtlCache.Cache` is used by `Client.RegistryClient`, whose replies
are all `Justified` by its history; `CatalogIndex.WalkCatalog` calls that client, and
`CatalogIndex.Index.List` calls the walk; `ServedCatalog.ListServesCatalog` calls that over a registry that
serves one catalog, and every list that comes out, call after call, is that catalog;
`ServedCatalog.EveryTagIsShownOnce` says the like of tag pages. `IndexSize.TotalOfRun` puts the sizes over the
interleavings of `FanOut`. `AuthHandshake.AuthClient.Do` likewise runs over `Tokens.TokenCache`, which
`SingleFlight` puts under concurrent callers, and reads its challenges from header values with
`BearerOffer.BearerChallenge`.

## Where the code does not do what one may expect

Each of these is proved, with the exact condition under which the expected behaviour holds.

- A DELETE answered with a 2xx status other than 200 or 202 (204, say) is reported as a success but leaves
  the cache alone (`client.go:619-630`), so the old reply is still served. `Client.FetchAfterDelete` is the exact
  condition on the status, `Client.FetchAfterNoContent` the instance.
- A 401 to a remembered, unexpired token is retried with the same token when the registry repeats the
  challenge (`auth.go:221-223`), although the comment at `client.go:281-282` speaks of revoked tokens:
  `AuthHandshake.SameTokenIsRetried`; `AuthHandshake.RenegotiationAsksIff` says exactly when the service is asked.
- "A stale list beats an error" holds if and only if the list is not empty, since an empty catalog is a nil
  slice (`catalog.go:65`, `catalog.go:91`): `IndexSlot.StaleBeatsErrorIff`.
- A catalog walk never ends if and only if every page brings a new cursor and, from some page on, all are
  empty before 50000 names are seen: `CatalogWalk.NeverEndsIff`, with the instance `CatalogWalk.EmptyPagesNeverEnd`.
  So nothing is assumed of the registry: a walk is followed for any number of requests, and what it does by then is
  stated whether it is over or not.
- A list that has gone stale while the registry fails is served at once, but each caller of a burst walks the
  catalog again, since the failure is not remembered (`catalog.go:65-67`): `IndexBurst.StaleListIsWalkedAgain` is the
  instance, `IndexBurst.OneWalkPerBurst` the exact exceptions to one walk per burst.
- A fetch under way when a delete invalidates the cache can land after it, and its old reply is then served for
  up to its ttl: `Overlap.ServedAfterDelete` says that nothing else can be, `Overlap.UnderWayOutlivesDelete` that
  this can.
- After a delete and the invalidation of the index, a list that cannot be walked for is still the one of before
  (`catalog.go:65-67`): the last clause of `CatalogIndex.DeleteThenList`.
- With a bound of one entry the eviction target is zero and the entry just written can go
  (`cache.go:127`): `CacheRuns.NewestSurvives` is the exact condition.
- A manifest asked for by digest is cached without comparing its bytes with that digest (`client.go:700-701`);
  only the second entry of a tag fetch is sure to match (`client.go:706`). The replies to a digest match it if and
  only if the registry answered honestly each time it was asked by that digest: `Client.DigestRepliesMatchIff`.
  `Client.MismatchIsServed` is a run in which mismatching bytes are kept and served again.

## Model

| member | source | states |
|---|---|---|
| NaturalOrder.NaturalCompare | internal/registry/client.go:1107-1148 | the two-index loop equals lexicographic comparison of token sequences: digit runs by numeric value, other bytes by code, a prefix first |
| NaturalOrder.RunsCompareAsNumbers | internal/registry/client.go:1118-1127 | comparing stripped digit runs by length and then byte by byte is comparing the numbers they denote |
| NaturalOrder.NaturalIsTotalPreorder | internal/registry/client.go:1107-1148 | reflexive, antisymmetric in sign and transitive; zero exactly when the strings agree once leading zeros of digit runs are stripped |
| NaturalOrder.CompareTags | internal/registry/client.go:1088-1101 | the comparison given to the library sort is the order that `VersionOrder.NewestFirst` reads off |
| NaturalOrder.TagOrderIsTotal | internal/registry/client.go:1087-1102 | the display order is a strict total order on distinct tags |
| NaturalOrder.SortTags | internal/registry/client.go:1087-1102 | leaves a permutation of the tags in display order, which is newest first by `VersionOrder.NewestFirst` |
| NaturalOrder.DisplayIsDeterministic | internal/registry/client.go:1079-1102 | the same tags are displayed the same way whatever order they arrived in, "latest" first |
| VersionOrder.NewestFirst | internal/registry/client.go:1079-1101 | in a display "latest" comes first, and of two other tags the naturally larger, then the larger string |
| VersionOrder.HigherNumberIsShownFirst | internal/registry/client.go:1079-1100 | of two tags alike up to a number the one with the larger number is shown first, whatever follows and whatever zeros lead |
| VersionOrder.NumbersDecide | internal/registry/client.go:1104-1128 | after a common prefix the larger number decides |
| VersionOrder.BytesDecide | internal/registry/client.go:1131-1136 | after a common prefix the larger of two bytes decides, unless both are digits |
| VersionOrder.PrefixIsLess | internal/registry/client.go:1141-1147 | a string comes before what continues it |
| Challenges.ParseChallenges | internal/registry/auth.go:95-178 | the scanner ends on every byte string, advancing at each outer turn despite its resets, and yields what the position-based grammar reads |
| Challenges.ReadParam | internal/registry/auth.go:145-173 | one turn of the inner loop: a parameter read, or the position put back so that a bare token starts the next challenge |
| Challenges.TokenCharIff | internal/registry/auth.go:181-191 | a token character is a visible ASCII character that is no delimiter of RFC 7230 |
| ChallengeRoundTrip.RoundTrip | internal/registry/auth.go:95-178 | challenges printed with quoted or bare values, keys in any case, and joined by commas are read back: every scheme in order and exactly its parameters, whatever bytes the quoted values hold |
| BearerOffer.BearerChallenge | internal/registry/auth.go:75-84 | finds the first Bearer challenge of the first header value that has one, and none only if no value has one |
| BearerOffer.OffersWhatIsWritten | internal/registry/auth.go:35-84 | over header values of which the first is printed challenges, what is offered is the first Bearer one written, with its realm, service and scope; without one, the other values decide |
| LinkHeader.SplitLinkHeader | internal/registry/client.go:1002-1036 | the loop ends on every header and yields the links that `LinkCommas` tells by positions |
| LinkCommas.SplitsAtOuterCommas | internal/registry/client.go:1000-1036 | for every header the links are the non-blank pieces, trimmed, between the unescaped commas outside angle brackets and quotes, and all of those separate |
| LinkCommas.InQuotesIff | internal/registry/client.go:1012-1018 | a byte is inside quotes if and only if an odd number of unescaped quotation marks precede it |
| LinkCommas.InAngleIff | internal/registry/client.go:1019-1022 | a byte is inside angle brackets if and only if some unquoted '<' before it has had no unquoted '>' since |
| LinkHeader.ParseLink | internal/registry/client.go:1039-1064 | target and parameters of one link, the last occurrence of a key winning |
| LinkHeader.CheckRel | internal/registry/client.go:1068-1075 | true if and only if some blank-separated relation equals the wanted one without regard to case |
| LinkHeader.ParseLinkNextLast | internal/registry/client.go:978-998 | the cursor is that of the first link with rel next whose target carries one |
| LinkRoundTrip.RoundTrip | internal/registry/client.go:1002-1064 | printed links, values quoted or bare and keys in any case, joined by commas, are split and parsed back to every target and exactly its parameters, commas inside targets and quotes allowed |
| LinkRoundTrip.FollowsWrittenCursor | internal/registry/client.go:978-1064 | over printed links, the cursor extracted is the one of the first link written with rel next |
| LinkRoundTrip.SeveralRels | internal/registry/client.go:1066-1075 | a rel that lists several relations holds of each and of no other |
| LinkRoundTrip.OneRel | internal/registry/client.go:1066-1075 | a rel of one word holds of that relation only, without regard to case |
| LinkedPages.JustifiedGoesOn | internal/registry/client.go:479 | every page the client may show, cached or not, goes on from the cursor linked in the answer behind it; without one, from the last of exactly n names; else nowhere |
| LinkedPages.CatalogOverLinks | internal/registry/client.go:437-483 | a catalog page fetched with printed links goes on from the first written with rel next that carries a cursor |
| LinkedPages.TagsOverLinks | internal/registry/client.go:485-539 | the same for tags, although the page is re-sorted |
| HeaderParams.StoreHoldsExactly | internal/registry/client.go:1061 | parameters with distinct keys, stored one after another, are all in the map and nothing else is |
| TtlCache.Cache.Get | internal/registry/cache.go:62-77 | a live entry is returned and restamped, an expired one deleted, a missing one missed; `CacheUse` says what that keeps |
| TtlCache.Cache.Set | internal/registry/cache.go:82-97 | a non-positive ttl changes nothing; otherwise the entry is written with a new stamp and the cache evicted back under its bound, stamps staying distinct |
| TtlCache.Cache.Evict | internal/registry/cache.go:102-131 | nothing under the bound; else the expired go; else exactly the nine tenths most recently used live entries remain |
| TtlCache.Cache.InvalidateRepo | internal/registry/cache.go:135-144 | exactly the entries of the repository and the registry-wide ones go |
| TtlCache.Cache.Purge | internal/registry/cache.go:147-151 | every entry goes, the tick stays |
| TtlCache.Cache.constructor | internal/registry/cache.go:50-59 | an empty cache, bounded by 2048 entries when no positive bound is given |
| CacheRuns.RunRefines | internal/registry/cache.go:62-151 | over every run the cache stays within its bound, its stamps stay distinct and at most the tick, and each entry is the one an unbounded TTL map would hold |
| CacheRuns.HitsAreIdeal | internal/registry/cache.go:62-151 | from the empty cache, after any run, a hit is a hit of the unbounded map with the same value |
| CacheRuns.ExactWithoutOverflow | internal/registry/cache.go:62-151 | under a monotone clock and as long as no eviction sorts, the cache hits exactly when the unbounded map does |
| CacheRuns.EvictionIsDetermined | internal/registry/cache.go:107-130 | eviction keeps the same entries whatever order the map is iterated in |
| CacheRuns.NewestSurvives | internal/registry/cache.go:82-131 | the entry just set is still there if and only if nothing had to go, or it is not yet expired at eviction and either the live ones fit or the bound is at least two |
| CacheRuns.JustSetIsHit | internal/registry/cache.go:62-131 | a look-up that follows a set before the entry expires finds it, for every bound of at least two |
| CacheRuns.SortsAreAmortised | internal/registry/cache.go:99-131 | between two evictions that sort lie at least max - floor(9 max / 10) + 1 insertions of new keys |
| CacheUse.EvictsLeastRecentlyUsed | internal/registry/cache.go:99-131 | over every run, when a set takes the path that sorts, exactly floor(9 max / 10) entries remain, all live, each set or hit later than every live entry that went |
| CacheUse.HitOutlivesSet | internal/registry/cache.go:62-131 | an entry just hit is still hit after a set of another key while it is live, for every bound of at least three |
| CacheUse.LookUpLeaves | internal/registry/cache.go:62-77 | a look-up changes no value, scope or expiry and deletes only the entry asked for, if expired |
| Names.KeyIsInjective | internal/registry/client.go:439 | on validated names no two requests share a cache key, whatever the cursor holds |
| Names.DigestIsNoTag | internal/registry/client.go:214-216 | no digest is a tag, so the two kinds of manifest entries never meet |
| NameGrammar.RepositoryIff | internal/registry/client.go:213-232 | a repository name is 1 to 255 characters of components between slashes, each of lower-case runs joined by a dot, one or two underscores, or dashes |
| Client.RegistryClient.Catalog | internal/registry/client.go:437-483 | a live cached page is copied out; otherwise one answer is recorded, stored under its key for the ttl, and copied; every page shown is one the registry gave for this request, stored less than its ttl ago, with no invalidating delete since, and is no object the client keeps; where it goes on is `LinkedPages.JustifiedGoesOn` |
| Client.RegistryClient.Tags | internal/registry/client.go:485-539 | the same for tags, filed under their repository, in display order, with the cursor taken from the registry's own order |
| Client.RegistryClient.FetchManifest | internal/registry/client.go:659-709 | the same for manifests; a tag's answer is stored for the ttl under the tag and then for an hour under the digest of its bytes, an answer to a digest for an hour under that digest |
| Client.RegistryClient.RawManifest | internal/registry/client.go:711-728 | the bytes handed out are those of the cached reply on a hit and of the answer recorded otherwise, in an array the client does not keep; history and cache move as for the manifest |
| Client.RegistryClient.FetchBlobCached | internal/registry/client.go:899-912 | the same for small blobs, stored for an hour |
| Client.RegistryClient.DeleteManifest | internal/registry/client.go:601-631 | the result for every status, and that the repository's replies are dropped exactly on 200 and 202 |
| Client.RegistryClient.constructor | internal/registry/client.go:118-123 | a client whose replies will all be justified, with a minute's ttl when none is configured |
| ReplyLaws.JustifiedIff | internal/registry/client.go:437-709 | a reply is justified if and only if the registry gave it for the request, or for a tag whose bytes hash to the digest asked for; it was stored less than an hour ago for blobs and digests, less than the configured time ago for the rest; and no delete since touches the catalog or the repository asked of |
| ReplyLaws.CleanedName | internal/registry/client.go:474-478 | each name is shown trimmed and in its place, and only the blank ones are not |
| MediaTypes.MediaTypeIsRead | internal/registry/manifest.go:134-144 | the media type is read whatever blanks surround it and parameters follow, without regard to case; the generic ones count as none |
| MediaTypes.ManifestCarriesType | internal/registry/client.go:694-698 | a manifest reply carries the bytes as sent, their digest, and the type its header told |
| Client.ClampPageSize | internal/registry/client.go:940-949 | a size from 1 to 1000 is the one asked for; none gives 100, a larger one 1000 |
| Client.DigestReplyIsAskedForOrHashes | internal/registry/client.go:694-707 | a reply to a digest hashes to it, or was asked for by it in an answer no delete has overtaken |
| Client.DigestRepliesMatchIff | internal/registry/client.go:694-707 | every reply to a digest carries it if and only if every answer to that digest, not overtaken by a delete, hashes to it |
| Client.MismatchIsServed | internal/registry/client.go:659-701 | a manifest fetched by digest is served again within the hour without a request, and carries that digest if and only if the bytes sent hash to it |
| Client.DigestIsServedFromTag | internal/registry/client.go:702-707 | after a tag's fetch the digest of its bytes is answered within the hour with these bytes and without a request |
| Client.BlobIsServedForAnHour | internal/registry/client.go:896-912 | a blob fetched is served again within the hour with its bytes and without a request |
| Client.TagsAreServedAgain | internal/registry/client.go:485-539 | tags fetched, the ones the registry listed in display order, are served again within the ttl without a request |
| Client.OverwrittenPageIsNotServed | internal/registry/client.go:1197-1207 | after a caller has overwritten all of the page it got, the next call returns what the page said: the cached reply or the answer recorded; and within the ttl of a page just fetched it does so without a request |
| Client.FetchAfterDelete | internal/registry/client.go:617-630 | a manifest live in the cache is still served after a delete in its repository if and only if the status was neither 200 nor 202 |
| Client.FetchAfterNoContent | internal/registry/client.go:619-630 | after a delete answered 204, which succeeds, the old manifest is still served |
| Overlap.ServedAfterDelete | internal/registry/client.go:601-709 | over every interleaving, a reply served after a delete invalidated its scope was fetched after it, or by a fetch under way at that moment and then for less than its ttl; with none under way, only the former |
| Overlap.UnderWayOutlivesDelete | internal/registry/client.go:617-709 | whenever a fetch in its scope is under way, a delete can be followed by old replies, directly and from the cache |
| CatalogWalk.WalkIsBounded | internal/server/catalog.go:94-109 | a walk that ends does so within 50000 requests beside those answered with a cursor but no names, and returns at most 50000 names |
| CatalogWalk.UnfinishedIsBounded | internal/server/catalog.go:94-109 | the same bound while it goes on, so a walk ends against any registry that sends finitely many such pages |
| CatalogWalk.NeverEndsIff | internal/server/catalog.go:94-109 | over any stream of pages the walk never ends if and only if every page brings a new cursor and, from some page on, all are empty before 50000 names |
| CatalogWalk.EmptyPagesNeverEnd | internal/server/catalog.go:94-109 | empty pages under two alternating cursors are such a stream |
| CatalogIndex.WalkCatalog | internal/server/catalog.go:86-110 | over any registry and any number of requests: a finished walk returns the names of the pages it saw cut off at 50000, an unfinished one has seen only pages that bring it on, an error is the answer to the cursor it had reached; it makes one request a page and one that fails; each page is justified by the history with no delete since, and the history grows by nothing but the answers to this walk |
| CatalogIndex.AppendNames | internal/server/catalog.go:102-107 | names are taken until the bound is reached, which is reported exactly then |
| Pagination.ChainIsComplete | internal/registry/client.go:965-973 | against a registry serving a strictly sorted list after `last`, linking any place from which the names not yet sent go on, or none, following cursors to the end sees every name once, in at most size + 1 answers |
| Pagination.ServedWalkEnds | internal/server/catalog.go:94-109 | against such a registry no page with a cursor is empty and there are at most size + 1 requests to make |
| Pagination.WalkIsComplete | internal/server/catalog.go:86-110 | the walk against such a registry returns exactly its first min(size, 50000) names |
| Pagination.TagPagesShowAllOnce | internal/registry/client.go:532-535 | although each tag page is re-sorted, following the cursors shows every tag exactly once |
| ServedCatalog.WalkReturnsCatalog | internal/server/catalog.go:86-110 | a walk over a mixture of cached and fetched pages of such a registry returns its catalog, whatever was evicted, deleted or fetched in between |
| ServedCatalog.IndexListsCatalog | internal/server/catalog.go:72-74 | the sorted list kept by the index is the registry's catalog, name for name |
| ServedCatalog.ListServesCatalog | internal/server/catalog.go:52-75 | over a registry that serves one catalog but may fail at any request, List returns, and every list it returns, fresh, walked for or stale, is that catalog; it is a list rather than an error whenever the slot holds names, or the registry answers and no error is still remembered |
| ServedCatalog.ListedAgainAfterInvalidate | internal/server/catalog.go:52-83 | from a new client and index, a catalog listed, invalidated and listed again comes out the same, and the second time also from a registry out of reach |
| ServedCatalog.WalkOverInTime | internal/server/catalog.go:94-109 | a walk over such a registry is over after size + 1 requests, and before 50000 |
| ServedCatalog.EveryTagIsShownOnce | internal/registry/client.go:485-539 | a reader who follows the tag pages of such a registry to the end, cached and fetched ones alike, sees every tag exactly once |
| ServedCatalog.JustifiedIsShown | internal/registry/client.go:491-495 | a justified reply of Tags is a page of such a sequence |
| IndexSlot.SlotHoldsLastListed | internal/server/catalog.go:52-83 | after any run the slot holds the list of the last successful walk, and no error beside a non-empty list |
| IndexSlot.ListsNeverErrAfterSuccess | internal/server/catalog.go:52-83 | every list returned is that of the last successful walk; after a non-empty one no call errs until a walk succeeds empty |
| IndexSlot.StaleBeatsErrorIff | internal/server/catalog.go:62-70 | a failed refresh serves the old list if and only if that is not empty; otherwise the error is served for a whole ttl |
| CatalogIndex.Index.List | internal/server/catalog.go:52-75 | the slot moves as in the runs above, its time being the clock reading after the walk's last request; the list is a sorted permutation of the last walk, whose pages stay justified; outside the stale fallback every page behind it was stored less than 2 ttl plus the time from the walk's first request to its end ago; a refresh caused by age uses only pages stored after the walk before had ended, and if none was stored in between it fetches every page itself |
| CatalogIndex.Index.Refresh | internal/server/catalog.go:61-74 | a successful refresh is a finished walk whose pages are justified by the client's history with no delete since, those it fetched itself stored by its end; it begins and ends when the clock is read before the first request and after the last |
| CatalogIndex.Index.Invalidate | internal/server/catalog.go:78-83 | the list is kept but counts as stale |
| CatalogIndex.AgedPagesAreExpired | internal/server/catalog.go:57-61 | every page a walk fetched itself has expired by the time its list is refreshed for its age |
| CatalogIndex.AgedRefreshIsNew | internal/server/catalog.go:57-61 | no page of a refresh caused by age is one the walk before fetched; unless others fetched catalog pages in between, all are fetched anew |
| CatalogIndex.AgedListRefetches | internal/server/catalog.go:52-75 | two calls of List a ttl apart, with nothing else fetching catalog pages: every page behind the second list is an answer of the registry new since the first call |
| CatalogIndex.DeleteThenList | internal/server/handlers.go:558-562 | after a delete answered 200 or 202 and the invalidation of the index, every page behind a list walked for is an answer given since the delete; if that walk fails, the list of before is served, or its error when there is none |
| IndexBurst.WalksAreSpaced | internal/server/catalog.go:52-83 | over every interleaving of callers, walks of one slot never overlap, and after one that set the slot's time the next begins a ttl later or after an invalidation |
| IndexBurst.OneWalkPerBurst | internal/server/catalog.go:31-75 | a burst of callers shorter than a ttl causes one walk, unless the slot was invalidated or a walk failed with an older list to serve |
| IndexBurst.StaleListIsWalkedAgain | internal/server/catalog.go:61-68 | with a list to serve and the registry failing, the next caller finds the slot stale again at once |
| CatalogPages.FilterRepos | internal/server/catalog.go:115-135 | keeps, in order, the repositories containing every term without regard to case |
| CatalogPages.WordsNarrow | internal/server/catalog.go:112-135 | searching a search result is searching for both queries at once |
| CatalogPages.WordIsFound | internal/server/catalog.go:112-135 | a one-word search finds exactly the repositories in which the word stands, without regard to case on either side |
| CatalogPages.BuildCatalog | internal/server/handlers.go:94-134 | one page: the rows from the clamped offset, and whether and where there is more; on a listing error, the error alone |
| CatalogPages.PageShows | internal/server/handlers.go:106-132 | a page tells how many match and how many are shown up to its end, holds just those rows, and says if and where there is more; past the end it holds none |
| CatalogPages.LoadingMoreShowsAll | internal/server/handlers.go:106-132 | loading more from the start shows exactly the matches, in ceil(matches / limit) pages, or one when there is none |
| Tokens.CacheableLifetime | internal/registry/auth.go:345-360 | what is left at decoding of the lifetime counted from issue, less ten seconds, and never negative; in the fields of the document, `Tokens.LifetimeEndsBeforeExpiry` |
| Tokens.LifetimeEndsBeforeExpiry | internal/registry/auth.go:345-360 | a token is cached until ten seconds before its document has it expire, that is expires_in or 60 seconds after the earlier of its issue and its decoding, and not at all if those have begun |
| Tokens.RequestedIff | internal/registry/auth.go:266-343 | a token is had if and only if the realm is usable and the document has one, as token or failing that as access_token |
| Tokens.TokenCache.Token | internal/registry/auth.go:215-234 | an unexpired token is returned untouched without a request; otherwise at most one request, and the token stored only for a positive lifetime |
| Tokens.TokenCache.Prune | internal/registry/auth.go:239-252 | under the bound nothing; else the expired go; else everything goes |
| Tokens.StoredIsBounded | internal/registry/auth.go:229-232 | the token map never exceeds 256 entries |
| Tokens.TokenKeyIsInjective | internal/registry/auth.go:216 | a token is presented only for the realm, service and scope it was granted for |
| SingleFlight.AtMostOneRequest | internal/registry/auth.go:208-234 | over every interleaving of callers at most one token request is under way and the map holds at most 256 tokens |
| SingleFlight.NoRefetchWithinLifetime | internal/registry/auth.go:215-252 | no request for a key is sent while a token already fetched for it is to be cached by the times of its document, unless the map was reset in between |
| SingleFlight.StoredWhenTimeIsLeft | internal/registry/auth.go:229-232 | a token is cached, and until then, whenever its document leaves any time |
| SingleFlight.ResetOnlyWhenFull | internal/registry/auth.go:239-252 | the map is only reset when 256 tokens are unexpired; otherwise storing forgets none that is |
| SingleFlight.ServedBeforeExpiry | internal/registry/auth.go:221-233 | a token served from the cache is at least ten seconds, less the delay between decoding and storing, before the expiry its document tells |
| SingleFlight.SomeThreadCanMove | internal/registry/auth.go:218-219 | the mutex never wedges |
| AuthHandshake.AuthClient.Do | internal/registry/client.go:266-312 | sends, token requests, drained responses, result and both caches are those of the handshake, for every registry, its header values included, and every token service; the laws below say what those are |
| AuthHandshake.ResultIsAnswer | internal/registry/client.go:266-312 | whichever way a call went, the response returned is the answer to the last send, with its status; an error is that of the last send, which broke, or the refusal of a token for the challenge just drained |
| AuthHandshake.SendsCarryGranted | internal/registry/client.go:266-312 | a call first presents a token for the remembered challenge if one is to be had; every other token sent is one granted for the 401 drained just before; nothing but a 401 is drained |
| AuthHandshake.PutIsBounded | internal/registry/auth.go:387-396 | a challenge put is remembered, nothing else changes but by being forgotten, and no more than 512 are held |
| AuthHandshake.HandshakeKeepsBounds | internal/registry/auth.go:215-396 | whatever the registry and the token service answer, a call leaves at most 512 challenges and 256 tokens remembered, no token blank |
| AuthHandshake.HandshakeIsBounded | internal/registry/client.go:263-312 | at most 3 sends and 2 token requests, or 2 and 1 without a remembered challenge; every response opened is drained once, except the one returned |
| AuthHandshake.RefusalIsFinal | internal/registry/client.go:292-311 | a 401 is returned only as the answer to the one retry with the very token granted for the challenge just drained, or when it offers no Bearer challenge |
| AuthHandshake.SameTokenIsRetried | internal/registry/auth.go:221-223 | a 401 to a remembered unexpired token under an unchanged challenge leads to the same token again, without a token request |
| AuthHandshake.RenegotiationAsksIff | internal/registry/client.go:281-311 | after a 401 to a cached token the token service is asked again if and only if no unexpired token is cached for the new challenge and its realm is usable |
| AuthHandshake.AsksForWhatIsWritten | internal/registry/client.go:292-311 | a refusal whose headers are printed challenges leads to a token for the realm, service and scope of the first Bearer one written, asked for if and only if none is cached, and presented in the retry |
| FanOut.AtMostSixInFlight | internal/registry/client.go:780-807 | over every interleaving at most six children of an index are in flight |
| FanOut.SomeoneCanMove | internal/registry/client.go:784-806 | no reachable state deadlocks, cancelled or not |
| FanOut.RunsEnd | internal/registry/client.go:780-807 | every run is over within three steps a child and one cancellation |
| FanOut.ResultIsSequential | internal/registry/client.go:775-807 | a finished run that was not cancelled has filled the slots as a sequential loop would; a cancelled one has left gaps at most |
| FanOut.AtMostThirtySixFetches | internal/server/server.go:238-249 | with the per-registry limiter, at most 36 child fetches of row lookups are in flight on one registry |
| IndexSize.ManifestTotal | internal/registry/client.go:846-862 | the total of a manifest is the size of its config and of all its layers |
| IndexSize.DistinctSize | internal/registry/client.go:821-843 | adds the sizes of the digests not counted before, and counts exactly those |
| IndexSize.IndexTotal | internal/registry/client.go:762-772 | the total over the resolved children, each digest at its first sight |
| IndexSize.TotalIsDistinctSum | internal/registry/client.go:758-772 | with sizes fixed per digest the total is the sum over the set of distinct digests plus all descriptors without one, in whatever order the children come |
| IndexSize.DigestsOfChildren | internal/registry/client.go:821-843 | the digests counted are those of the configs and layers of the resolved children, and no others |
| IndexSize.BlanksOfChildren | internal/registry/client.go:823-827 | the sizes without a digest are all counted, configs included |
| IndexSize.IndexAtMostChildren | internal/registry/client.go:833-838 | the total is at most the sum of the children's own totals, with equality if and only if no digest of positive size repeats |
| IndexSize.GapsNeverAdd | internal/registry/client.go:762-772 | children that could not be resolved never make the total larger |
| IndexSize.TotalOfRun | internal/registry/client.go:756-807 | over every interleaving of the goroutines the total is that of a sequential resolution, and with a cancellation at any point no larger |
| History.ApplyHistory | internal/registry/manifest.go:297-315 | layer k gets the command of the k-th step that made a layer and is otherwise unchanged; when the counts disagree no layer is touched |
| History.EmptyStepsDoNotMatter | internal/registry/manifest.go:289-315 | steps that make no layer can be dropped anywhere in the history |
| History.ProducingKeeps | internal/registry/manifest.go:297-315 | a step that makes a layer is kept in its place, one that makes none is not |

## Left out

- HTTP, TLS, redirects, body limits, JSON, URL and query decoding: a request is answered by a decoded document or fails with an error.
- SHA-256: `digestOf` is any function from bytes to valid digests, so nothing rests on its being injective.
- The `last` query parameter of a link target, resolved against the base URL, is an uninterpreted function of the target; the cursor a page carries is the value so extracted.
- Unicode: blanks, lower case and case folding are those of ASCII, and a byte is the character with its code.
- Machine integers: ticks, sizes and durations are unbounded, so no overflow is modelled.
- Client.RegistryClient: its methods do not overlap; overlapping calls are `Overlap`, over a map that may drop entries at any time in place of the bounded cache.
- Client.RegistryClient.FetchManifest: the bytes of a manifest asked for by digest are not compared with it, because the code does not.
- CatalogIndex.WalkCatalog: the loop is followed for `limit` requests, for every limit, because it need not end; a `None` stands for a walk still going. Cancellation is one of its errors.
- CatalogIndex.Index.List: followed for `limit` requests as the walk is; the list is a value, so that callers share the slice with the index is not modelled; the lock of a slot is in `IndexBurst`.
- Nil and empty slices are told apart only where it matters: an empty list in a slot is the nil one.
- Library sorts are insertion sorts in place; stability is not used, since ties are between equal elements only.
- Tokens.TokenKeyIsInjective: requires realms and services without NUL bytes, which the separator relies on.
- SingleFlight.SomeThreadCanMove: fairness is not modelled, nor a token service that never answers; a request under way may fail at any time.
- FanOut.ResultIsSequential: what resolving a child yields is fixed for the run, so a registry changing its answers meanwhile is not modelled.
- FanOut.AtMostThirtySixFetches: a registry without a limiter, and the pages that resolve an index outside the limiter, are not bounded.
- `authScopeKey`: the challenge cache is keyed by a parameter. Which realms are usable URLs is a function given.
- `cleanCommand` is any function from commands to commands.
- `TagSummary`, `dedupePlatforms`, `buildImage` beyond its copy of the bytes, `parseManifest` and configuration blobs beyond their cached fetch: single-branch facts or library decoding.
- `layerViews`, `humanBytes`, time formatting, templates, middleware, compression, configuration and the health cache: display and plumbing.
