/** Following the catalog cursor to its end (server/catalog.go, walkCatalog), page by page. */
module CatalogWalk {
  const MAX_ENTRIES := 50000

  datatype PageData = PageData(items: seq<string>, next: string)

  function NamesSeen(pages: seq<PageData>): seq<string> {
    if pages == [] then [] else NamesSeen(pages[..|pages| - 1]) + pages[|pages| - 1].items
  }

  /** The cursor the k-th page of a walk was asked for with. */
  function CursorOf(pages: seq<PageData>, k: nat): string
    requires k <= |pages|
  {
    if k == 0 then "" else pages[k - 1].next
  }

  /** After page k the walk goes on: there is a new cursor, and room. */
  ghost predicate GoesOn(pages: seq<PageData>, k: nat)
    requires k < |pages|
  {
    pages[k].next != "" && pages[k].next != CursorOf(pages, k) && |NamesSeen(pages[..k + 1])| < MAX_ENTRIES
  }

  ghost predicate Unfinished(pages: seq<PageData>) {
    forall k :: 0 <= k < |pages| ==> GoesOn(pages, k)
  }

  function Truncated(names: seq<string>): (r: seq<string>)
    ensures |r| <= MAX_ENTRIES && r <= names
  {
    if |names| > MAX_ENTRIES then names[..MAX_ENTRIES] else names
  }

  /** A finished walk: it went on after every page but the last, and returns the names seen, cut off. */
  ghost predicate Walked(pages: seq<PageData>, all: seq<string>) {
    && pages != [] && Unfinished(pages[..|pages| - 1]) && !GoesOn(pages, |pages| - 1)
    && all == Truncated(NamesSeen(pages))
  }

  /** No page that carries a further cursor is empty. */
  predicate Productive(p: PageData) { p.next != "" ==> p.items != [] }

  lemma {:induction false} NamesOfPrefix(pages: seq<PageData>, k: nat)
    requires k < |pages|
    ensures NamesSeen(pages[..k + 1]) == NamesSeen(pages[..k]) + pages[k].items
  {
    assert pages[..k + 1][..k] == pages[..k];
  }

  /** Pages that carry a further cursor but no names. */
  function Idle(pages: seq<PageData>): nat {
    if pages == [] then 0 else Idle(pages[..|pages| - 1]) + if Productive(pages[|pages| - 1]) then 0 else 1
  }

  lemma {:induction false} NamesAndIdle(pages: seq<PageData>)
    requires forall k :: 0 <= k < |pages| ==> pages[k].next != ""
    ensures |NamesSeen(pages)| + Idle(pages) >= |pages|
  {
    if pages != [] { NamesAndIdle(pages[..|pages| - 1]); }
  }

  /** A walk still going has seen fewer than 50000 pages beside the idle ones. */
  lemma {:induction false} UnfinishedIsBounded(pages: seq<PageData>)
    requires Unfinished(pages)
    ensures |pages| < 50000 + Idle(pages)
  {
    forall k | 0 <= k < |pages| ensures pages[k].next != "" { assert GoesOn(pages, k); }
    NamesAndIdle(pages);
    if pages != [] {
      assert GoesOn(pages, |pages| - 1);
      assert pages[..|pages|] == pages;
    }
  }

  /** A walk is over within 50000 requests beside those answered with an idle page, and never returns
      more than 50000 names. */
  lemma {:induction false} WalkIsBounded(pages: seq<PageData>, all: seq<string>)
    requires Walked(pages, all)
    ensures |pages| <= 50000 + Idle(pages[..|pages| - 1]) && |all| <= 50000
  {
    UnfinishedIsBounded(pages[..|pages| - 1]);
  }

  lemma {:induction false} ProductiveIsNeverIdle(pages: seq<PageData>)
    requires forall i :: 0 <= i < |pages| ==> Productive(pages[i])
    ensures Idle(pages) == 0
  {
    if pages != [] { ProductiveIsNeverIdle(pages[..|pages| - 1]); }
  }

  // ---------- exactly when a walk never ends ----------

  /** The first k of the pages a registry would go on sending. */
  function Prefix(pages: nat -> PageData, k: nat): (s: seq<PageData>)
    ensures |s| == k
  {
    seq(k, i requires 0 <= i < k => pages(i))
  }

  ghost predicate NeverEnds(pages: nat -> PageData) { forall k: nat :: Unfinished(Prefix(pages, k)) }

  predicate NewCursor(pages: nat -> PageData, k: nat) {
    pages(k).next != "" && (k > 0 ==> pages(k).next != pages(k - 1).next)
  }

  /** From page k on there are no more names, and those before do not fill the list. */
  ghost predicate SilentFrom(pages: nat -> PageData, k: nat) {
    (forall j: nat :: k <= j ==> pages(j).items == []) && |NamesSeen(Prefix(pages, k))| < MAX_ENTRIES
  }

  lemma {:induction false} PrefixStep(pages: nat -> PageData, k: nat)
    ensures Prefix(pages, k + 1) == Prefix(pages, k) + [pages(k)]
    ensures NamesSeen(Prefix(pages, k + 1)) == NamesSeen(Prefix(pages, k)) + pages(k).items
  {
    assert Prefix(pages, k + 1)[..k] == Prefix(pages, k);
  }

  lemma {:induction false} NamesGrow(pages: nat -> PageData, j: nat, k: nat)
    requires j <= k
    ensures |NamesSeen(Prefix(pages, j))| <= |NamesSeen(Prefix(pages, k))|
    ensures (forall i: nat :: j <= i < k ==> pages(i).items == []) ==>
              NamesSeen(Prefix(pages, k)) == NamesSeen(Prefix(pages, j))
    decreases k
  {
    if j < k {
      NamesGrow(pages, j, k - 1);
      PrefixStep(pages, k - 1);
    }
  }

  /** The walk goes on after page k of any longer prefix, if the cursor is new and there is room. */
  lemma {:induction false} GoesOnIff(pages: nat -> PageData, m: nat, k: nat)
    requires k < m
    ensures GoesOn(Prefix(pages, m), k) <==> NewCursor(pages, k) && |NamesSeen(Prefix(pages, k + 1))| < MAX_ENTRIES
  {
    assert Prefix(pages, m)[..k + 1] == Prefix(pages, k + 1);
  }

  /** Names come to an end, or fill the list. */
  lemma {:induction false} FindSilence(pages: nat -> PageData, start: nat) returns (k: nat)
    requires forall j: nat :: |NamesSeen(Prefix(pages, j))| < MAX_ENTRIES
    ensures SilentFrom(pages, k)
    decreases MAX_ENTRIES - |NamesSeen(Prefix(pages, start))|
  {
    if j: nat :| start <= j && pages(j).items != [] {
      NamesGrow(pages, start, j);
      PrefixStep(pages, j);
      assert |NamesSeen(Prefix(pages, j + 1))| < MAX_ENTRIES;
      k := FindSilence(pages, j + 1);
    } else {
      k := start;
    }
  }

  /** Against a registry that would send these pages one after another the walk never ends if and only if
      every page brings a new cursor, and from some page on all are empty before 50000 names are seen. */
  lemma {:induction false} NeverEndsIff(pages: nat -> PageData)
    ensures NeverEnds(pages) <==> (forall k: nat :: NewCursor(pages, k)) && exists k: nat :: SilentFrom(pages, k)
  {
    hide NamesSeen, Prefix, NewCursor;
    if NeverEnds(pages) {
      forall k: nat ensures NewCursor(pages, k) && |NamesSeen(Prefix(pages, k + 1))| < MAX_ENTRIES {
        assert Unfinished(Prefix(pages, k + 1)) && GoesOn(Prefix(pages, k + 1), k);
        GoesOnIff(pages, k + 1, k);
      }
      forall j: nat ensures |NamesSeen(Prefix(pages, j))| < MAX_ENTRIES {
        assert NewCursor(pages, j);
        NamesGrow(pages, j, j + 1);
      }
      var k := FindSilence(pages, 0);
    }
    if (forall k: nat :: NewCursor(pages, k)) && exists k: nat :: SilentFrom(pages, k) {
      var start: nat :| SilentFrom(pages, start);
      forall m: nat ensures Unfinished(Prefix(pages, m)) {
        forall k | 0 <= k < m ensures GoesOn(Prefix(pages, m), k) {
          if k + 1 <= start { NamesGrow(pages, k + 1, start); } else { NamesGrow(pages, start, k + 1); }
          GoesOnIff(pages, m, k);
        }
      }
    }
  }

  /** Empty pages under two alternating cursors. */
  function PingPong(i: nat): PageData { if i % 2 == 0 then PageData([], "a") else PageData([], "b") }

  /** For instance, a registry that answers with these keeps the walk going for any number of requests. */
  lemma {:induction false} EmptyPagesNeverEnd()
    ensures NeverEnds(PingPong)
  {
    forall k: nat ensures NewCursor(PingPong, k) {
      assert "a"[0] != "b"[0];
    }
    assert SilentFrom(PingPong, 0);
    NeverEndsIff(PingPong);
  }
}
