/** Searching the catalog list and paging through it (server/catalog.go filterRepos, server/handlers.go
    buildCatalog). */
module CatalogPages {
  import opened Text
  import opened Words
  import opened Options
  import Client

  // ---------- filterRepos ----------

  predicate Matches(repo: string, terms: seq<string>) {
    forall i :: 0 <= i < |terms| ==> Contains(ToLower(repo), terms[i])
  }

  function Filter(repos: seq<string>, terms: seq<string>): seq<string> {
    if repos == [] then []
    else
      var n := |repos| - 1;
      Filter(repos[..n], terms) + if Matches(repos[n], terms) then [repos[n]] else []
  }

  function Terms(query: string): seq<string> { Fields(ToLower(query)) }

  /** The search result: with no terms every repository matches. */
  function Found(repos: seq<string>, query: string): seq<string> { Filter(repos, Terms(query)) }

  method FilterRepos(repos: seq<string>, query: string) returns (out: seq<string>)
    ensures out == Found(repos, query)
  {
    var terms := Fields(ToLower(query));
    if |terms| == 0 {
      NoTermsKeepAll(repos);
      return repos;
    }
    out := [];
    for i := 0 to |repos|
      invariant out == Filter(repos[..i], terms)
    {
      assert repos[..i + 1][..i] == repos[..i];
      var lower := ToLower(repos[i]);
      var found := true;
      for j := 0 to |terms|
        invariant found <==> forall k :: 0 <= k < j ==> Contains(lower, terms[k])
      {
        if !Contains(lower, terms[j]) {
          found := false;
          break;
        }
      }
      if found { out := out + [repos[i]]; }
    }
    assert repos[..|repos|] == repos;
  }

  lemma {:induction false} NoTermsKeepAll(repos: seq<string>)
    ensures Filter(repos, []) == repos
  {
    if repos != [] { NoTermsKeepAll(repos[..|repos| - 1]); }
  }

  lemma {:induction false} FilterAppends(repos: seq<string>, more: seq<string>, terms: seq<string>)
    ensures Filter(repos + more, terms) == Filter(repos, terms) + Filter(more, terms)
    decreases |more|
  {
    hide Matches;
    if more == [] {
      assert repos + more == repos;
    } else {
      var n := |more| - 1;
      assert (repos + more)[..|repos + more| - 1] == repos + more[..n];
      FilterAppends(repos, more[..n], terms);
    }
  }

  /** Filtering in two rounds is filtering by the conjunction. */
  lemma {:induction false} FilterTwice(repos: seq<string>, s: seq<string>, t: seq<string>)
    ensures Filter(Filter(repos, s), t) == Filter(repos, s + t)
  {
    if repos != [] {
      var n := |repos| - 1;
      FilterTwice(repos[..n], s, t);
      MatchesBoth(repos[n], s, t);
      hide Matches;
      FilterAppends(Filter(repos[..n], s), if Matches(repos[n], s) then [repos[n]] else [], t);
      FilterOne(repos[n], t);
    }
  }

  lemma {:induction false} FilterOne(repo: string, terms: seq<string>)
    ensures Filter([repo], terms) == if Matches(repo, terms) then [repo] else []
    ensures Filter([], terms) == []
  {
    hide Matches;
    assert [repo][..0] == [];
  }

  lemma {:induction false} MatchesBoth(repo: string, s: seq<string>, t: seq<string>)
    ensures Matches(repo, s + t) <==> Matches(repo, s) && Matches(repo, t)
  {
    hide Contains, ToLower;
    if Matches(repo, s + t) {
      assert forall i :: 0 <= i < |s| ==> s[i] == (s + t)[i];
      assert forall i :: 0 <= i < |t| ==> t[i] == (s + t)[|s| + i];
    }
  }

  /** Adding words to the query narrows the result: several words behave as AND. */
  lemma {:induction false} WordsNarrow(repos: seq<string>, p: string, q: string)
    ensures Found(Found(repos, p), q) == Found(repos, p + " " + q)
  {
    hide Fields, Filter;
    ToLowerJoin(p, " " + q);
    ToLowerJoin(" ", q);
    assert p + " " + q == p + (" " + q);
    assert ToLower(" ") == " " by { BlankIsLower(); }
    assert ToLower(p) + (" " + ToLower(q)) == ToLower(p) + " " + ToLower(q);
    FieldsJoin(ToLower(p), ToLower(q));
    FilterTwice(repos, Terms(p), Terms(q));
  }

  lemma {:induction false} BlankIsLower()
    ensures ToLower(" ") == " "
  {
    assert " "[1..] == "";
  }

  // ---------- what is found ----------

  lemma {:induction false} FoundIff(repos: seq<string>, terms: seq<string>, repo: string)
    ensures repo in Filter(repos, terms) <==> repo in repos && Matches(repo, terms)
  {
    hide Matches;
    if repos != [] {
      var n := |repos| - 1;
      assert repo in repos <==> repo in repos[..n] || repo == repos[n];
      FoundIff(repos[..n], terms, repo);
    }
  }

  /** The word stands somewhere in the name, in whatever case. */
  predicate Mentions(repo: string, w: string) {
    exists i {:trigger repo[i..]} :: 0 <= i <= |repo| - |w| && EqualFold(repo[i..][..|w|], w)
  }

  lemma {:induction false} MatchesWord(repo: string, w: string)
    ensures Matches(repo, [ToLower(w)]) <==> Mentions(repo, w)
  {
    hide ToLower;
    var low := ToLower(repo);
    LowerLength(repo);
    LowerLength(w);
    forall i: nat | i <= |repo| - |w| ensures ToLower(repo[i..][..|w|]) == low[i..][..|w|] {
      LowerSlice(repo, i, i + |w|);
      assert repo[i..][..|w|] == repo[i..i + |w|] && low[i..][..|w|] == low[i..i + |w|];
    }
    if Mentions(repo, w) {
      var i: nat :| i <= |repo| - |w| && EqualFold(repo[i..][..|w|], w);
      assert low[i..][..|w|] == ToLower(w);
    }
    if Contains(low, ToLower(w)) {
      var i: nat :| i <= |low| - |w| && low[i..][..|w|] == ToLower(w);
      assert EqualFold(repo[i..][..|w|], w);
    }
    assert Matches(repo, [ToLower(w)]) <==> Contains(low, [ToLower(w)][0]);
  }

  /** Searching for one word finds exactly the repositories that mention it, without regard to case on either
      side; WordsNarrow tells what several words find. */
  lemma {:induction false} WordIsFound(repos: seq<string>, w: string, repo: string)
    requires IsWord(w)
    ensures repo in Found(repos, w) <==> repo in repos && Mentions(repo, w)
  {
    hide Filter, Matches, Mentions, Fields, ToLower, IsWord;
    LowerIsWord(w);
    WordIsTerm(ToLower(w));
    FoundIff(repos, [ToLower(w)], repo);
    MatchesWord(repo, w);
  }

  // ---------- buildCatalog: one page of the result ----------

  datatype View = View(err: Option<Client.Error>, total: nat, shown: nat, hasMore: bool, repos: seq<string>, nextOffset: nat)

  function Min(a: int, b: int): int { if a <= b then a else b }

  /** The rows from offset on, at most limit of them; the "load more" link carries the end. */
  method BuildCatalog(listed: Client.Result<seq<string>>, query: string, start: nat, limit: nat) returns (page: View)
    requires limit > 0
    ensures listed.Ok? ==> page == PageAt(Found(listed.value, query), start, limit)
    ensures listed.Err? ==> page == View(Some(listed.error), 0, 0, false, [], 0)
  {
    page := View(None, 0, 0, false, [], 0);
    if listed.Err? { return page.(err := Some(listed.error)); }
    var offset := start;
    var matched := FilterRepos(listed.value, query);
    if offset > |matched| { offset := |matched|; }
    var end := Min(offset + limit, |matched|);
    var rows: seq<string> := [];
    for i := offset to end
      invariant rows == matched[offset..i]
    {
      rows := rows + [matched[i]];
    }
    page := page.(total := |matched|, shown := end, hasMore := end < |matched|, repos := rows);
    if page.hasMore { page := page.(nextOffset := end); }
  }

  function PageAt(matched: seq<string>, start: nat, limit: nat): View
    requires limit > 0
  {
    var offset := Min(start, |matched|);
    var end := Min(offset + limit, |matched|);
    View(None, |matched|, end, end < |matched|, matched[offset..end], if end < |matched| then end else 0)
  }

  /** One page, whatever the start: how many match in all, how many are shown up to its end, which rows they
      are, and whether and where there is more. Past the end there is nothing to show. */
  lemma {:induction false} PageShows(matched: seq<string>, start: nat, limit: nat)
    requires limit > 0
    ensures var page := PageAt(matched, start, limit);
            && page.err.None? && page.total == |matched| && page.shown <= page.total
            && (start >= |matched| ==> page.repos == [] && page.shown == page.total && !page.hasMore)
            && (start < |matched| ==>
                  && page.shown == start + |page.repos| && 0 < |page.repos| <= limit
                  && (|page.repos| < limit ==> page.shown == page.total)
                  && forall k :: 0 <= k < |page.repos| ==> page.repos[k] == matched[start + k])
            && (page.hasMore <==> page.shown < page.total)
            && (page.hasMore ==> page.nextOffset == page.shown)
  {}

  /** The pages a reader sees by loading more until there is no more. */
  function LoadAll(matched: seq<string>, start: nat, limit: nat): seq<seq<string>>
    requires limit > 0
    decreases |matched| - start
  {
    var page := PageAt(matched, start, limit);
    [page.repos] + if page.hasMore then LoadAll(matched, page.nextOffset, limit) else []
  }

  function Join(pages: seq<seq<string>>): seq<string> {
    if pages == [] then [] else pages[0] + Join(pages[1..])
  }

  /** k is n / d, rounded up. */
  predicate IsCeilDiv(k: nat, n: nat, d: nat) { (k - 1) * d < n <= k * d }

  lemma {:induction false} CeilDivStep(k: nat, n: nat, d: nat)
    requires IsCeilDiv(k, n, d)
    ensures IsCeilDiv(k + 1, n + d, d)
  {
    assert (k + 1) * d == k * d + d && k * d == (k - 1) * d + d;
  }

  /** One page, and what is left after it. */
  lemma {:induction false} PageSplits(matched: seq<string>, start: nat, limit: nat)
    requires limit > 0 && start <= |matched|
    ensures var page := PageAt(matched, start, limit);
            if page.hasMore then
              && start < page.nextOffset == start + limit < |matched|
              && matched[start..] == page.repos + matched[page.nextOffset..]
              && LoadAll(matched, start, limit) == [page.repos] + LoadAll(matched, page.nextOffset, limit)
            else
              |matched| - start <= limit && matched[start..] == page.repos && LoadAll(matched, start, limit) == [page.repos]
  {}

  lemma {:induction false} JoinCons(x: seq<string>, rest: seq<seq<string>>)
    ensures Join([x] + rest) == x + Join(rest) && Join([x]) == x
  {
    assert ([x] + rest)[1..] == rest && [x][1..] == [];
  }

  lemma {:induction false} LoadAllFrom(matched: seq<string>, start: nat, limit: nat)
    requires limit > 0 && start <= |matched|
    ensures var pages := LoadAll(matched, start, limit);
            && Join(pages) == matched[start..]
            && (if start == |matched| then |pages| == 1 else IsCeilDiv(|pages|, |matched| - start, limit))
    decreases |matched| - start
  {
    hide IsCeilDiv, PageAt, LoadAll, Join;
    var page := PageAt(matched, start, limit);
    PageSplits(matched, start, limit);
    JoinCons(page.repos, LoadAll(matched, page.nextOffset, limit));
    if page.hasMore {
      LoadAllFrom(matched, page.nextOffset, limit);
      CeilDivStep(|LoadAll(matched, page.nextOffset, limit)|, |matched| - page.nextOffset, limit);
    } else {
      OnePage(|matched| - start, limit);
    }
  }

  lemma {:induction false} OnePage(n: nat, d: nat)
    requires n <= d
    ensures n > 0 ==> IsCeilDiv(1, n, d)
  {}

  /** Over a fixed list, loading more from the start shows exactly the matches, in order, in
      ceil(matches / limit) pages, or in a single empty one. */
  lemma {:induction false} LoadingMoreShowsAll(all: seq<string>, query: string, limit: nat)
    requires limit > 0
    ensures var pages, matched := LoadAll(Found(all, query), 0, limit), Found(all, query);
            && Join(pages) == matched
            && (if matched == [] then |pages| == 1 else IsCeilDiv(|pages|, |matched|, limit))
  {
    hide Found;
    LoadAllFrom(Found(all, query), 0, limit);
  }
}
