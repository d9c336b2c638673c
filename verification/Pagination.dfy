/** Walking a registry that serves a strictly sorted list in pages after `last`: every name once. */
module Pagination {
  import opened Text
  import opened Sorting
  import opened LinkHeader
  import opened Client
  import opened CatalogWalk

  /** Strictly increasing, with nothing the client would trim or drop. */
  predicate IsListing(names: seq<string>) {
    && (forall i, j :: 0 <= i < j < |names| ==> Compare(names[i], names[j]) < 0)
    && (forall i :: 0 <= i < |names| ==> names[i] != "" && Trimmed(names[i]))
  }

  /** The names after last, in the registry's order. */
  function After(names: seq<string>, last: string): seq<string> {
    if names == [] then [] else if Compare(names[0], last) > 0 then names else After(names[1..], last)
  }

  /** One answer of the registry: the next k names after last. It either sends no link, and honours n or
      sends all that remains; or it links some place from which just the names not yet sent go on, be it
      the last name sent or any string sorted between that and the next. */
  ghost predicate Serves(names: seq<string>, last: string, n: nat, doc: ListDoc) {
    var rest, k := After(names, last), |doc.names|;
    && k <= |rest| && doc.names == rest[..k]
    && if doc.linkCursor == "" then k == n || k == |rest| else 0 < k && After(names, doc.linkCursor) == rest[k..]
  }

  function Next(doc: ListDoc, n: nat): string { NextCursor(doc.linkCursor, doc.names, n) }

  function CursorAt(docs: seq<ListDoc>, n: nat, k: nat): string
    requires k <= |docs|
  {
    if k == 0 then "" else Next(docs[k - 1], n)
  }

  function Concat(docs: seq<ListDoc>): seq<string> {
    if docs == [] then [] else Concat(docs[..|docs| - 1]) + docs[|docs| - 1].names
  }

  /** Each answer is to the cursor of the one before, and only the last may have none. */
  ghost predicate Chain(names: seq<string>, n: nat, docs: seq<ListDoc>) {
    && (forall k :: 0 <= k < |docs| ==> Serves(names, CursorAt(docs, n, k), n, docs[k]))
    && (forall k :: 0 <= k < |docs| - 1 ==> Next(docs[k], n) != "")
  }

  lemma {:induction false} AfterBlank(names: seq<string>)
    requires IsListing(names)
    ensures After(names, "") == names
  {
    if names != [] { assert Compare(names[0], "") > 0; }
  }

  lemma {:induction false} AfterItem(names: seq<string>, i: nat)
    requires IsListing(names) && i < |names|
    ensures After(names, names[i]) == names[i + 1..]
    decreases |names|
  {
    CompareAntisymmetric(names[0], names[i]);
    if i == 0 {
      var rest := names[1..];
      if rest != [] { CompareAntisymmetric(rest[0], names[0]); }
    } else {
      assert names[1..][i - 1] == names[i] && names[1..][i..] == names[i + 1..];
      AfterItem(names[1..], i - 1);
    }
  }

  /** What one answer adds, and where the next one starts. */
  lemma {:induction false} AnswerAdvances(names: seq<string>, m: nat, last: string, n: nat, doc: ListDoc)
    requires IsListing(names) && m <= |names| && n > 0
    requires After(names, last) == names[m..] && Serves(names, last, n, doc)
    ensures m + |doc.names| <= |names| && doc.names == names[m..m + |doc.names|]
    ensures Next(doc, n) == "" ==> m + |doc.names| == |names|
    ensures Next(doc, n) != "" ==> doc.names != [] && After(names, Next(doc, n)) == names[m + |doc.names|..]
  {
    hide Compare, Trimmed, After;
    assert names[m..][..|doc.names|] == names[m..m + |doc.names|];
    assert names[m..][|doc.names|..] == names[m + |doc.names|..];
    if doc.names != [] {
      AfterItem(names, m + |doc.names| - 1);
      assert names[m..][|doc.names| - 1] == names[m + |doc.names| - 1] == LastOf(doc.names);
    }
  }

  lemma {:induction false} ConcatLast(docs: seq<ListDoc>, k: nat)
    requires 0 < k <= |docs|
    ensures Concat(docs[..k]) == Concat(docs[..k - 1]) + docs[k - 1].names
  {
    assert docs[..k][..k - 1] == docs[..k - 1];
  }

  lemma {:induction false} ChainServes(names: seq<string>, n: nat, docs: seq<ListDoc>, k: nat)
    requires Chain(names, n, docs) && k < |docs|
    ensures Serves(names, CursorAt(docs, n, k), n, docs[k])
    ensures 0 < k ==> CursorAt(docs, n, k) != ""
  {}

  /** After k answers the names seen are a prefix of the listing, and the cursor goes on right after them. */
  ghost predicate Covered(names: seq<string>, n: nat, docs: seq<ListDoc>, k: nat)
    requires k <= |docs|
  {
    var seen, cursor := Concat(docs[..k]), CursorAt(docs, n, k);
    && |seen| <= |names| && seen == names[..|seen|]
    && (k == 0 ==> seen == [])
    && (cursor != "" ==> |seen| >= k && k > 0)
    && (k == 0 || cursor != "" ==> After(names, cursor) == names[|seen|..])
    && (k > 0 && cursor == "" ==> |seen| == |names| && |seen| >= k - 1)
  }

  lemma {:induction false} CoverStep(names: seq<string>, n: nat, docs: seq<ListDoc>, k: nat)
    requires IsListing(names) && n > 0 && Chain(names, n, docs) && 0 < k <= |docs|
    requires Covered(names, n, docs, k - 1)
    ensures Covered(names, n, docs, k)
    ensures var m, m' := |Concat(docs[..k - 1])|, |Concat(docs[..k])|;
            m <= m' <= |names| && docs[k - 1].names == names[m..m'] && (CursorAt(docs, n, k) != "" ==> m < m')
  {
    hide IsListing, Serves, Next, Chain, Concat, After;
    var m, doc := |Concat(docs[..k - 1])|, docs[k - 1];
    ConcatLast(docs, k);
    ChainServes(names, n, docs, k - 1);
    AnswerAdvances(names, m, CursorAt(docs, n, k - 1), n, doc);
    assert names[..m] + names[m..m + |doc.names|] == names[..m + |doc.names|];
  }

  lemma {:induction false} ChainCovers(names: seq<string>, n: nat, docs: seq<ListDoc>, k: nat)
    requires IsListing(names) && n > 0 && Chain(names, n, docs) && k <= |docs|
    ensures Covered(names, n, docs, k)
  {
    hide IsListing, Chain, CursorAt;
    if k == 0 {
      CoverNothing(names, n, docs);
    } else {
      hide Covered;
      ChainCovers(names, n, docs, k - 1);
      CoverStep(names, n, docs, k);
    }
  }

  lemma {:induction false} CoverNothing(names: seq<string>, n: nat, docs: seq<ListDoc>)
    requires IsListing(names)
    ensures Covered(names, n, docs, 0)
  {
    AfterBlank(names);
    assert names[0..] == names;
  }

  /** Following cursors to the end visits every name exactly once, within |names| + 1 answers. */
  lemma {:induction false} ChainIsComplete(names: seq<string>, n: nat, docs: seq<ListDoc>)
    requires IsListing(names) && n > 0 && Chain(names, n, docs)
    requires docs != [] && CursorAt(docs, n, |docs|) == ""
    ensures Concat(docs) == names && |docs| <= |names| + 1
  {
    hide IsListing, Chain, Next;
    ChainCovers(names, n, docs, |docs|);
    assert docs[..|docs|] == docs;
    assert names[..|names|] == names;
  }

  // ---------- the catalog walk ----------

  function Rendered(docs: seq<ListDoc>, n: nat): seq<PageData> {
    seq(|docs|, k requires 0 <= k < |docs| => PageData(Cleaned(docs[k].names), Next(docs[k], n)))
  }

  lemma {:induction false} CleanedKeeps(names: seq<string>)
    requires forall i :: 0 <= i < |names| ==> names[i] != "" && Trimmed(names[i])
    ensures Cleaned(names) == names
  {
    if names != [] {
      CleanedKeeps(names[..|names| - 1]);
      TrimSpaceFixes(names[|names| - 1]);
    }
  }

  lemma {:induction false} SliceIsClean(names: seq<string>, a: nat, b: nat)
    requires IsListing(names) && a <= b <= |names|
    ensures Cleaned(names[a..b]) == names[a..b]
  {
    CleanedKeeps(names[a..b]);
  }

  /** Cleaning changes nothing in a page of such a listing. */
  lemma {:induction false} AnswerIsClean(names: seq<string>, n: nat, docs: seq<ListDoc>, k: nat)
    requires IsListing(names) && n > 0 && Chain(names, n, docs) && 0 < k <= |docs|
    ensures Cleaned(docs[k - 1].names) == docs[k - 1].names
  {
    hide IsListing, Chain, Covered, Cleaned, Next;
    ChainCovers(names, n, docs, k - 1);
    CoverStep(names, n, docs, k);
    SliceIsClean(names, |Concat(docs[..k - 1])|, |Concat(docs[..k])|);
  }

  lemma {:induction false} NamesAreConcat(names: seq<string>, n: nat, docs: seq<ListDoc>, k: nat)
    requires IsListing(names) && n > 0 && Chain(names, n, docs) && k <= |docs|
    ensures NamesSeen(Rendered(docs, n)[..k]) == Concat(docs[..k])
  {
    hide IsListing, Chain, Cleaned, Next;
    if k > 0 {
      NamesAreConcat(names, n, docs, k - 1);
      NamesOfPrefix(Rendered(docs, n), k - 1);
      ConcatLast(docs, k);
      AnswerIsClean(names, n, docs, k);
    }
  }

  /** The catalog walk against such a registry returns exactly the first min(size, 50000) names, in
      at most size + 1 requests. */
  lemma {:induction false} WalkIsComplete(names: seq<string>, n: nat, docs: seq<ListDoc>, all: seq<string>)
    requires IsListing(names) && n > 0 && Chain(names, n, docs) && Walked(Rendered(docs, n), all)
    ensures all == Truncated(names) == (if |names| > 50000 then names[..50000] else names) && |docs| <= |names| + 1
  {
    hide IsListing, Chain, Next, Truncated, NamesSeen, Concat, Cleaned;
    FirstNames(names);
    var pages, last := Rendered(docs, n), |docs| - 1;
    NamesAreConcat(names, n, docs, |docs|);
    ChainCovers(names, n, docs, |docs|);
    ChainCovers(names, n, docs, last);
    assert pages[..|docs|] == pages && docs[..|docs|] == docs;
    TruncatedPrefix(names, |Concat(docs)|);
    LastCursorIsNew(names, n, docs);
  }

  /** The walk against such a registry ends: however it goes, no page that carries a cursor is empty, and
      there are never more than size + 1 requests to make. */
  lemma {:induction false} ServedWalkEnds(names: seq<string>, n: nat, docs: seq<ListDoc>)
    requires IsListing(names) && n > 0 && Chain(names, n, docs)
    ensures |docs| <= |names| + 1
    ensures forall k :: 0 <= k < |docs| ==> Productive(Rendered(docs, n)[k])
  {
    hide IsListing, Chain, Next, Concat, Cleaned;
    if docs != [] { ChainCovers(names, n, docs, |docs| - 1); ChainCovers(names, n, docs, |docs|); }
    forall k | 0 <= k < |docs| ensures Productive(Rendered(docs, n)[k]) {
      ChainCovers(names, n, docs, k);
      CoverStep(names, n, docs, k + 1);
      AnswerIsClean(names, n, docs, k + 1);
    }
  }

  lemma {:induction false} FirstNames(names: seq<string>)
    ensures Truncated(names) == if |names| > 50000 then names[..50000] else names
  {}

  lemma {:induction false} TruncatedPrefix(names: seq<string>, m: nat)
    requires m <= |names|
    ensures m >= MAX_ENTRIES || m == |names| ==> Truncated(names[..m]) == Truncated(names)
  {
    assert names[..|names|] == names;
  }

  /** The registry never repeats a cursor. */
  lemma {:induction false} LastCursorIsNew(names: seq<string>, n: nat, docs: seq<ListDoc>)
    requires IsListing(names) && n > 0 && Chain(names, n, docs) && docs != []
    ensures CursorAt(docs, n, |docs|) != "" ==> CursorAt(docs, n, |docs|) != CursorAt(docs, n, |docs| - 1)
  {
    hide IsListing, Chain, Concat, Next;
    var k := |docs|;
    ChainCovers(names, n, docs, k - 1);
    CoverStep(names, n, docs, k);
    if CursorAt(docs, n, k) != "" {
      var m, m' := |Concat(docs[..k - 1])|, |Concat(docs[..k])|;
      assert |names[m..]| > |names[m'..]|;
    }
  }

  lemma {:induction false} ListingIsInjective(names: seq<string>, i: nat, j: nat)
    requires IsListing(names) && i < j < |names|
    ensures names[i] != names[j]
  {
    CompareAntisymmetric(names[i], names[j]);
  }

  // ---------- the tag pages, each re-sorted for display ----------

  /** The pages shown for a chain of tag answers: same contents, in display order. */
  ghost predicate ShownPages(docs: seq<ListDoc>, shown: seq<seq<string>>) {
    |shown| == |docs| && forall k :: 0 <= k < |docs| ==> multiset(shown[k]) == multiset(Cleaned(docs[k].names))
  }

  function Contents(shown: seq<seq<string>>): multiset<string> {
    if shown == [] then multiset{} else Contents(shown[..|shown| - 1]) + multiset(shown[|shown| - 1])
  }

  lemma {:induction false} ConcatNothing(docs: seq<ListDoc>)
    ensures Concat(docs[..0]) == []
  {}

  lemma {:induction false} ShownCover(names: seq<string>, n: nat, docs: seq<ListDoc>, shown: seq<seq<string>>, k: nat)
    requires IsListing(names) && n > 0 && Chain(names, n, docs) && ShownPages(docs, shown) && k <= |docs|
    ensures Contents(shown[..k]) == multiset(Concat(docs[..k]))
  {
    hide IsListing, Chain, Concat, Cleaned;
    if k == 0 {
      assert Concat(docs[..0]) == [] by { ConcatNothing(docs); }
    } else {
      ShownCover(names, n, docs, shown, k - 1);
      assert shown[..k][..k - 1] == shown[..k - 1];
      ConcatLast(docs, k);
      AnswerIsClean(names, n, docs, k);
    }
  }

  /** Although every page is re-sorted, the cursor comes from the registry's own order: following it
      shows every tag exactly once. */
  lemma {:induction false} TagPagesShowAllOnce(names: seq<string>, n: nat, docs: seq<ListDoc>, shown: seq<seq<string>>)
    requires IsListing(names) && n > 0 && Chain(names, n, docs) && ShownPages(docs, shown)
    requires docs != [] && CursorAt(docs, n, |docs|) == ""
    ensures Contents(shown) == multiset(names) && forall x :: x in names ==> Contents(shown)[x] == 1
  {
    hide Chain, Next, IsListing;
    ChainIsComplete(names, n, docs);
    ShownCover(names, n, docs, shown, |docs|);
    assert shown[..|docs|] == shown && docs[..|docs|] == docs;
    forall x | x in names ensures multiset(names)[x] == 1 {
      forall i, j | 0 <= i < j < |names| ensures names[i] != names[j] {
        ListingIsInjective(names, i, j);
      }
      AtMostOnce(names, x);
    }
  }
}
