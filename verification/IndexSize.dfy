/** The size of an index: every distinct blob of its resolved children counted once (client.go,
    distinctSize, fillIndex, fillManifest). Sizes are unbounded integers. */
module IndexSize {
  import opened Options
  import FanOut

  /** A blob descriptor; digest "" is a descriptor without one. */
  datatype Ref = Ref(digest: string, size: int)

  /** A resolved child: its config descriptor, its layers, and the total fillManifest gave it. */
  datatype Image = Image(config: Ref, layers: seq<Ref>, total: int)

  function Refs(img: Image): seq<Ref> { [img.config] + img.layers }

  function Sum(refs: seq<Ref>): int {
    if refs == [] then 0 else refs[0].size + Sum(refs[1..])
  }

  /** fillManifest: the config and every layer, repeats included. */
  method ManifestTotal(config: Ref, layers: seq<Ref>) returns (total: int)
    ensures total == config.size + Sum(layers)
  {
    total := config.size;
    for i := 0 to |layers|
      invariant total + Sum(layers[i..]) == config.size + Sum(layers)
    {
      assert layers[i..][1..] == layers[i + 1..];
      total := total + layers[i].size;
    }
  }

  // ---------- distinctSize ----------

  /** The sizes of the descriptors not yet counted, each digest at its first sight. */
  function FirstSeen(refs: seq<Ref>, counted: set<string>): int
    decreases |refs|
  {
    if refs == [] then 0
    else if refs[0].digest == "" then refs[0].size + FirstSeen(refs[1..], counted)
    else if refs[0].digest in counted then FirstSeen(refs[1..], counted)
    else refs[0].size + FirstSeen(refs[1..], counted + {refs[0].digest})
  }

  function Digests(refs: seq<Ref>): set<string> {
    set r | r in refs && r.digest != "" :: r.digest
  }

  /** The closure `add`: the running total and the set of counted digests. */
  method Add(total: int, counted: set<string>, r: Ref) returns (total': int, counted': set<string>)
    ensures total' == total + FirstSeen([r], counted) && counted' == counted + Digests([r])
  {
    assert [r][1..] == [];
    if r.digest == "" { return total + r.size, counted; }
    assert Digests([r]) == {r.digest};
    if r.digest in counted { return total, counted; }
    return total + r.size, counted + {r.digest};
  }

  method DistinctSize(img: Image, before: set<string>) returns (total: int, counted: set<string>)
    ensures total == FirstSeen(Refs(img), before) && counted == before + Digests(Refs(img))
  {
    total, counted := Add(0, before, img.config);
    for i := 0 to |img.layers|
      invariant total == FirstSeen([img.config] + img.layers[..i], before)
      invariant counted == before + Digests([img.config] + img.layers[..i])
    {
      assert [img.config] + img.layers[..i + 1] == ([img.config] + img.layers[..i]) + [img.layers[i]];
      FirstSeenAppends([img.config] + img.layers[..i], [img.layers[i]], before);
      total, counted := Add(total, counted, img.layers[i]);
    }
    assert img.layers[..|img.layers|] == img.layers;
  }

  lemma {:induction false} DigestsAppend(a: seq<Ref>, b: seq<Ref>)
    ensures Digests(a + b) == Digests(a) + Digests(b)
  {}

  /** What is counted once the first descriptor has been. */
  function After(r: Ref, counted: set<string>): set<string> {
    if r.digest == "" || r.digest in counted then counted else counted + {r.digest}
  }

  lemma {:induction false} AfterHead(refs: seq<Ref>, counted: set<string>)
    requires refs != []
    ensures After(refs[0], counted) + Digests(refs[1..]) == counted + Digests(refs)
    ensures FirstSeen(refs, counted) == FirstSeen([refs[0]], counted) + FirstSeen(refs[1..], After(refs[0], counted))
  {
    assert refs == [refs[0]] + refs[1..] && [refs[0]][1..] == [];
    DigestsAppend([refs[0]], refs[1..]);
  }

  lemma {:induction false} FirstSeenAppends(a: seq<Ref>, b: seq<Ref>, counted: set<string>)
    ensures FirstSeen(a + b, counted) == FirstSeen(a, counted) + FirstSeen(b, counted + Digests(a))
    ensures Digests(a + b) == Digests(a) + Digests(b)
    decreases |a|
  {
    hide FirstSeen, Digests, After;
    DigestsAppend(a, b);
    if a == [] {
      NothingSeen(counted);
      assert a + b == b;
    } else {
      assert (a + b)[1..] == a[1..] + b && (a + b)[0] == a[0];
      AfterHead(a, counted);
      AfterHead(a + b, counted);
      FirstSeenAppends(a[1..], b, After(a[0], counted));
    }
  }

  lemma {:induction false} NothingSeen(counted: set<string>)
    ensures FirstSeen([], counted) == 0 && counted + Digests([]) == counted
  {}

  // ---------- fillIndex ----------

  /** All descriptors of the children that resolved, in order. */
  function AllRefs(children: seq<Option<Image>>): seq<Ref> {
    if children == [] then []
    else
      var n := |children| - 1;
      AllRefs(children[..n]) + if children[n].Some? then Refs(children[n].value) else []
  }

  lemma {:induction false} AllRefsStep(children: seq<Option<Image>>, i: nat)
    requires i < |children|
    ensures AllRefs(children[..i + 1]) ==
            AllRefs(children[..i]) + if children[i].Some? then Refs(children[i].value) else []
  {
    assert children[..i + 1][..i] == children[..i];
  }

  method IndexTotal(children: seq<Option<Image>>) returns (total: int)
    ensures total == FirstSeen(AllRefs(children), {})
  {
    hide FirstSeen, Digests, AllRefs, Refs;
    total := 0;
    var counted: set<string> := {};
    NothingResolved();
    for i := 0 to |children|
      invariant total == FirstSeen(AllRefs(children[..i]), {}) && counted == Digests(AllRefs(children[..i]))
    {
      AllRefsStep(children, i);
      if children[i].Some? {
        FirstSeenAppends(AllRefs(children[..i]), Refs(children[i].value), {});
        assert {} + counted == counted;
        var more;
        more, counted := DistinctSize(children[i].value, counted);
        total := total + more;
      } else {
        assert AllRefs(children[..i]) + [] == AllRefs(children[..i]);
      }
    }
    assert children[..|children|] == children;
  }

  lemma {:induction false} NothingResolved()
    ensures AllRefs([]) == [] && FirstSeen([], {}) == 0 && Digests([]) == {}
  {}

  // ---------- the total is a sum over distinct digests ----------

  ghost predicate Fixed(refs: seq<Ref>, sizeOf: string -> int) {
    forall i :: 0 <= i < |refs| && refs[i].digest != "" ==> refs[i].size == sizeOf(refs[i].digest)
  }

  ghost function SumOver(s: set<string>, sizeOf: string -> int): int {
    if s == {} then 0 else var d :| d in s; sizeOf(d) + SumOver(s - {d}, sizeOf)
  }

  lemma {:induction false} SumOverRemove(s: set<string>, d: string, sizeOf: string -> int)
    requires d in s
    ensures SumOver(s, sizeOf) == sizeOf(d) + SumOver(s - {d}, sizeOf)
    decreases s
  {
    var e :| e in s && SumOver(s, sizeOf) == sizeOf(e) + SumOver(s - {e}, sizeOf);
    if e != d {
      SumOverRemove(s - {e}, d, sizeOf);
      SumOverRemove(s - {d}, e, sizeOf);
      assert s - {e} - {d} == s - {d} - {e};
    }
  }

  function BlankSum(refs: seq<Ref>): int {
    if refs == [] then 0 else (if refs[0].digest == "" then refs[0].size else 0) + BlankSum(refs[1..])
  }

  lemma {:induction false} FirstSeenIsSum(refs: seq<Ref>, counted: set<string>, sizeOf: string -> int)
    requires Fixed(refs, sizeOf)
    ensures FirstSeen(refs, counted) == SumOver(Digests(refs) - counted, sizeOf) + BlankSum(refs)
    decreases |refs|
  {
    if refs != [] {
      var d := refs[0].digest;
      assert refs == [refs[0]] + refs[1..];
      DigestsAppend([refs[0]], refs[1..]);
      if d == "" {
        FirstSeenIsSum(refs[1..], counted, sizeOf);
        assert Digests(refs) == Digests(refs[1..]);
      } else {
        assert Digests([refs[0]]) == {d};
        var next := if d in counted then counted else counted + {d};
        FirstSeenIsSum(refs[1..], next, sizeOf);
        if d in counted {
          assert Digests(refs) - counted == Digests(refs[1..]) - counted;
        } else {
          SumOverRemove(Digests(refs) - counted, d, sizeOf);
          assert Digests(refs) - counted - {d} == Digests(refs[1..]) - next;
        }
      }
    }
  }

  // ---------- what counts: configs as well as layers ----------

  /** The digest is that of the config or of a layer of the image. */
  predicate Mentions(img: Image, digest: string) {
    img.config.digest == digest || exists i :: 0 <= i < |img.layers| && img.layers[i].digest == digest
  }

  lemma {:induction false} DigestsOfImage(img: Image, digest: string)
    ensures digest in Digests(Refs(img)) <==> digest != "" && Mentions(img, digest)
  {
    var refs := Refs(img);
    if i :| 0 <= i < |img.layers| && img.layers[i].digest == digest {
      assert refs[i + 1] == img.layers[i];
    }
    assert refs[0] == img.config;
    if r :| r in refs && r.digest == digest && r != img.config {
      assert r in img.layers;
    }
  }

  /** The digests counted are those of the configs and layers of the children that resolved, and no others. */
  lemma {:induction false} DigestsOfChildren(children: seq<Option<Image>>, digest: string)
    ensures digest in Digests(AllRefs(children)) <==>
              digest != "" && exists k :: 0 <= k < |children| && children[k].Some? && Mentions(children[k].value, digest)
  {
    hide Digests, Refs, Mentions;
    if children == [] {
      NothingResolved();
    } else {
      var n := |children| - 1;
      var last := if children[n].Some? then Refs(children[n].value) else [];
      DigestsOfChildren(children[..n], digest);
      assert AllRefs(children) == AllRefs(children[..n]) + last;
      DigestsAppend(AllRefs(children[..n]), last);
      if children[n].Some? { DigestsOfImage(children[n].value, digest); } else { NothingResolved(); }
      assert forall k :: 0 <= k < n ==> children[..n][k] == children[k];
    }
  }

  /** The sizes without a digest, configs included. */
  function Undigested(children: seq<Option<Image>>): int {
    if children == [] then 0
    else
      var n := |children| - 1;
      Undigested(children[..n]) + match children[n]
        case None => 0
        case Some(img) => (if img.config.digest == "" then img.config.size else 0) + BlankSum(img.layers)
  }

  lemma {:induction false} BlanksOfChildren(children: seq<Option<Image>>)
    ensures BlankSum(AllRefs(children)) == Undigested(children)
  {
    if children != [] {
      var n := |children| - 1;
      BlanksOfChildren(children[..n]);
      if children[n].Some? {
        var img := children[n].value;
        BlankSumAppend(AllRefs(children[..n]), Refs(img));
        assert Refs(img)[1..] == img.layers;
      } else {
        assert AllRefs(children) == AllRefs(children[..n]) + [];
        BlankSumAppend(AllRefs(children[..n]), []);
      }
    }
  }

  // ---------- the order of the children does not matter ----------

  lemma {:induction false} AllRefsAppend(a: seq<Option<Image>>, b: seq<Option<Image>>)
    ensures AllRefs(a + b) == AllRefs(a) + AllRefs(b)
    decreases |b|
  {
    if b == [] {
      assert a + b == a;
    } else {
      var n := |b| - 1;
      assert (a + b)[..|a + b| - 1] == a + b[..n];
      AllRefsAppend(a, b[..n]);
    }
  }

  lemma {:induction false} BlankSumAppend(a: seq<Ref>, b: seq<Ref>)
    ensures BlankSum(a + b) == BlankSum(a) + BlankSum(b)
    decreases |a|
  {
    if a == [] {
      assert a + b == b;
    } else {
      assert (a + b)[1..] == a[1..] + b;
      BlankSumAppend(a[1..], b);
    }
  }

  /** Moving one child to the front changes neither the digests nor the blank sizes. */
  lemma {:induction false} MoveToFront(p: seq<Option<Image>>, c: Option<Image>, q: seq<Option<Image>>)
    ensures Digests(AllRefs(p + [c] + q)) == Digests(AllRefs([c])) + Digests(AllRefs(p + q))
    ensures BlankSum(AllRefs(p + [c] + q)) == BlankSum(AllRefs([c])) + BlankSum(AllRefs(p + q))
  {
    hide AllRefs, Digests, BlankSum;
    AllRefsAppend(p + [c], q);
    AllRefsAppend(p, [c]);
    AllRefsAppend(p, q);
    var x, y, z := AllRefs(p), AllRefs([c]), AllRefs(q);
    DigestsAppend(x + y, z);
    DigestsAppend(x, y);
    DigestsAppend(x, z);
    BlankSumAppend(x + y, z);
    BlankSumAppend(x, y);
    BlankSumAppend(x, z);
  }

  /** A permutation starts with some element of the other sequence, and the rests are permutations. */
  lemma {:induction false} TakeOut<T>(a: seq<T>, b: seq<T>) returns (p: seq<T>, q: seq<T>)
    requires a != [] && multiset(a) == multiset(b)
    ensures b == p + [a[0]] + q && multiset(a[1..]) == multiset(p + q)
  {
    assert a[0] in multiset(b);
    var i :| 0 <= i < |b| && b[i] == a[0];
    p, q := b[..i], b[i + 1..];
    assert b == p + [a[0]] + q;
    assert multiset(b) == multiset(p) + multiset([a[0]]) + multiset(q);
    assert a == [a[0]] + a[1..];
    assert multiset(a) == multiset([a[0]]) + multiset(a[1..]);
    assert multiset(p + q) == multiset(p) + multiset(q);
    assert multiset(b) - multiset([a[0]]) == multiset(p + q);
    assert multiset(a) - multiset([a[0]]) == multiset(a[1..]);
  }

  lemma {:induction false} PermutedChildren(a: seq<Option<Image>>, b: seq<Option<Image>>)
    requires multiset(a) == multiset(b)
    ensures Digests(AllRefs(a)) == Digests(AllRefs(b)) && BlankSum(AllRefs(a)) == BlankSum(AllRefs(b))
    decreases |a|
  {
    hide AllRefs, Digests, BlankSum;
    assert |multiset(a)| == |multiset(b)|;
    if a != [] {
      var p, q := TakeOut(a, b);
      PermutedChildren(a[1..], p + q);
      SplitAtHead(a);
      MoveToFront([], a[0], a[1..]);
      MoveToFront(p, a[0], q);
    } else {
      assert b == [];
    }
  }

  lemma {:induction false} SplitAtHead<T>(a: seq<T>)
    requires a != []
    ensures [] + [a[0]] + a[1..] == a && [] + a[1..] == a[1..]
  {}

  /** With sizes fixed per digest, the index total is the sum over the set of distinct digests plus all
      descriptors without one, and so does not depend on the order of the children. */
  lemma {:induction false} TotalIsDistinctSum(children: seq<Option<Image>>, others: seq<Option<Image>>, sizeOf: string -> int)
    requires Fixed(AllRefs(children), sizeOf) && Fixed(AllRefs(others), sizeOf) && multiset(children) == multiset(others)
    ensures FirstSeen(AllRefs(children), {}) ==
            SumOver(Digests(AllRefs(children)), sizeOf) + BlankSum(AllRefs(children))
    ensures FirstSeen(AllRefs(children), {}) == FirstSeen(AllRefs(others), {})
  {
    hide AllRefs, Digests, BlankSum, Fixed, FirstSeen, SumOver;
    PermutedChildren(children, others);
    FirstSeenIsSum(AllRefs(children), {}, sizeOf);
    FirstSeenIsSum(AllRefs(others), {}, sizeOf);
    assert Digests(AllRefs(children)) - {} == Digests(AllRefs(children));
    assert Digests(AllRefs(others)) - {} == Digests(AllRefs(others));
  }

  // ---------- never more than the children together ----------

  ghost predicate NonNegative(refs: seq<Ref>) { forall i :: 0 <= i < |refs| ==> refs[i].size >= 0 }

  /** Every descriptor with a digest already counted, or met before, is of size zero. */
  ghost predicate RepeatsAreEmpty(refs: seq<Ref>, counted: set<string>) {
    && (forall i :: 0 <= i < |refs| && refs[i].digest in counted && refs[i].digest != "" ==> refs[i].size == 0)
    && (forall i, j :: 0 <= i < j < |refs| && refs[i].digest == refs[j].digest && refs[i].digest != "" ==> refs[j].size == 0)
  }

  lemma {:induction false} RepeatsFromHead(refs: seq<Ref>, counted: set<string>)
    requires refs != []
    ensures var d := refs[0].digest;
            var next := if d == "" || d in counted then counted else counted + {d};
            RepeatsAreEmpty(refs, counted) <==>
              (d != "" && d in counted ==> refs[0].size == 0) && RepeatsAreEmpty(refs[1..], next)
  {
    var d, tail := refs[0].digest, refs[1..];
    var next := if d == "" || d in counted then counted else counted + {d};
    assert refs == [refs[0]] + tail;
    if (d != "" && d in counted ==> refs[0].size == 0) && RepeatsAreEmpty(tail, next) {
      forall i | 0 <= i < |refs| && refs[i].digest in counted && refs[i].digest != "" ensures refs[i].size == 0 {
        if i > 0 { assert tail[i - 1] == refs[i]; }
      }
      forall i, j | 0 <= i < j < |refs| && refs[i].digest == refs[j].digest && refs[i].digest != ""
        ensures refs[j].size == 0
      {
        assert tail[j - 1] == refs[j];
        if i > 0 { assert tail[i - 1] == refs[i]; }
      }
    }
    if RepeatsAreEmpty(refs, counted) {
      forall i | 0 <= i < |tail| && tail[i].digest in next && tail[i].digest != "" ensures tail[i].size == 0 {
        assert refs[i + 1] == tail[i];
        if tail[i].digest !in counted { assert refs[0].digest == refs[i + 1].digest; }
      }
      forall i, j | 0 <= i < j < |tail| && tail[i].digest == tail[j].digest && tail[i].digest != ""
        ensures tail[j].size == 0
      {
        assert refs[i + 1] == tail[i] && refs[j + 1] == tail[j];
      }
    }
  }

  lemma {:induction false} FirstSeenAtMostSum(refs: seq<Ref>, counted: set<string>)
    requires NonNegative(refs)
    ensures FirstSeen(refs, counted) <= Sum(refs)
    ensures FirstSeen(refs, counted) == Sum(refs) <==> RepeatsAreEmpty(refs, counted)
    decreases |refs|
  {
    hide RepeatsAreEmpty;
    if refs == [] {
      NoRepeats(counted);
    } else {
      var d := refs[0].digest;
      var next := if d == "" || d in counted then counted else counted + {d};
      RepeatsFromHead(refs, counted);
      FirstSeenAtMostSum(refs[1..], next);
    }
  }

  lemma {:induction false} NoRepeats(counted: set<string>)
    ensures RepeatsAreEmpty([], counted)
  {}

  function ChildTotals(children: seq<Option<Image>>): int {
    if children == [] then 0
    else
      var n := |children| - 1;
      ChildTotals(children[..n]) + if children[n].Some? then children[n].value.total else 0
  }

  lemma {:induction false} SumAppend(a: seq<Ref>, b: seq<Ref>)
    ensures Sum(a + b) == Sum(a) + Sum(b)
    decreases |a|
  {
    if a == [] {
      assert a + b == b;
    } else {
      assert (a + b)[1..] == a[1..] + b;
      SumAppend(a[1..], b);
    }
  }

  /** The total that fillManifest gives: the config, and every layer. */
  predicate IsTotalled(img: Image) { img.total == img.config.size + Sum(img.layers) }

  lemma {:induction false} TotalledIsSum(img: Image)
    requires IsTotalled(img)
    ensures img.total == Sum(Refs(img))
  {
    assert Refs(img)[1..] == img.layers;
  }

  lemma {:induction false} ChildTotalsAreSum(children: seq<Option<Image>>)
    requires forall c :: c in children && c.Some? ==> IsTotalled(c.value)
    ensures ChildTotals(children) == Sum(AllRefs(children))
  {
    hide Refs;
    if children != [] {
      var n := |children| - 1;
      ChildTotalsAreSum(children[..n]);
      assert children[n] in children;
      if children[n].Some? { TotalledIsSum(children[n].value); }
      SumAppend(AllRefs(children[..n]), if children[n].Some? then Refs(children[n].value) else []);
    }
  }

  /** The index is never larger than its children together, and exactly as large iff no digest of
      positive size occurs twice. */
  lemma {:induction false} IndexAtMostChildren(children: seq<Option<Image>>)
    requires forall c :: c in children && c.Some? ==> IsTotalled(c.value)
    requires NonNegative(AllRefs(children))
    ensures FirstSeen(AllRefs(children), {}) <= ChildTotals(children)
    ensures FirstSeen(AllRefs(children), {}) == ChildTotals(children) <==> RepeatsAreEmpty(AllRefs(children), {})
  {
    hide AllRefs, Refs, RepeatsAreEmpty, FirstSeen, Sum, NonNegative, ChildTotals;
    ChildTotalsAreSum(children);
    FirstSeenAtMostSum(AllRefs(children), {});
  }

  // ---------- an index resolved by concurrent goroutines ----------

  /** Some of the children are missing. */
  predicate Gaps(some: seq<Option<Image>>, all: seq<Option<Image>>) {
    |some| == |all| && forall i :: 0 <= i < |all| ==> some[i] == all[i] || some[i] == None
  }

  lemma {:induction false} SumOverSubset(s: set<string>, t: set<string>, sizeOf: string -> int)
    requires s <= t && forall d :: d in t ==> sizeOf(d) >= 0
    ensures SumOver(s, sizeOf) <= SumOver(t, sizeOf)
    decreases t
  {
    if d :| d in t && d !in s {
      SumOverRemove(t, d, sizeOf);
      SumOverSubset(s, t - {d}, sizeOf);
    } else {
      assert s == t;
    }
  }

  /** What holds of a descriptor list once another is taken out of it. */
  ghost predicate Within(some: seq<Ref>, all: seq<Ref>) {
    Digests(some) <= Digests(all) && BlankSum(some) <= BlankSum(all) && forall r :: r in some ==> r in all
  }

  lemma {:induction false} BlankSumIsNat(refs: seq<Ref>)
    requires NonNegative(refs)
    ensures BlankSum(refs) >= 0
    decreases |refs|
  {
    if refs != [] { BlankSumIsNat(refs[1..]); }
  }

  lemma {:induction false} WithinAppends(some: seq<Ref>, all: seq<Ref>, more: seq<Ref>, rest: seq<Ref>)
    requires Within(some, all) && NonNegative(all + rest) && (more == rest || more == [])
    ensures Within(some + more, all + rest)
  {
    hide Digests, BlankSum;
    DigestsAppend(some, more);
    DigestsAppend(all, rest);
    BlankSumAppend(some, more);
    BlankSumAppend(all, rest);
    if more == [] {
      assert forall i :: 0 <= i < |rest| ==> rest[i] == (all + rest)[|all| + i];
      BlankSumIsNat(rest);
      NothingIn();
    }
  }

  lemma {:induction false} NothingIn()
    ensures Digests([]) == {} && BlankSum([]) == 0
  {}

  lemma {:induction false} GapsAreWithin(some: seq<Option<Image>>, all: seq<Option<Image>>)
    requires Gaps(some, all) && NonNegative(AllRefs(all))
    ensures Within(AllRefs(some), AllRefs(all))
    decreases |all|
  {
    hide Within, Refs, NonNegative;
    if all == [] {
      WithinNothing();
    } else {
      var n := |all| - 1;
      var rest := if all[n].Some? then Refs(all[n].value) else [];
      var more := if some[n].Some? then Refs(some[n].value) else [];
      assert AllRefs(all) == AllRefs(all[..n]) + rest;
      PrefixNonNegative(AllRefs(all[..n]), rest);
      GapsAreWithin(some[..n], all[..n]);
      WithinAppends(AllRefs(some[..n]), AllRefs(all[..n]), more, rest);
    }
  }

  lemma {:induction false} WithinNothing()
    ensures Within([], [])
  {}

  lemma {:induction false} PrefixNonNegative(a: seq<Ref>, b: seq<Ref>)
    requires NonNegative(a + b)
    ensures NonNegative(a)
  {
    assert forall i :: 0 <= i < |a| ==> a[i] == (a + b)[i];
  }

  /** A digest counted has the size of some descriptor, so it is not negative. */
  lemma {:induction false} DigestsAreSized(refs: seq<Ref>, sizeOf: string -> int, d: string)
    requires Fixed(refs, sizeOf) && NonNegative(refs) && d in Digests(refs)
    ensures sizeOf(d) >= 0
  {
    var i :| 0 <= i < |refs| && refs[i].digest == d && d != "";
    assert refs[i].size == sizeOf(d);
  }

  /** Children that are missing never make an index larger. */
  lemma {:induction false} GapsNeverAdd(some: seq<Option<Image>>, all: seq<Option<Image>>, sizeOf: string -> int)
    requires Gaps(some, all) && NonNegative(AllRefs(all)) && Fixed(AllRefs(all), sizeOf)
    ensures FirstSeen(AllRefs(some), {}) <= FirstSeen(AllRefs(all), {})
  {
    hide AllRefs, Digests, BlankSum, FirstSeen, SumOver, Gaps, NonNegative;
    var x, y := AllRefs(some), AllRefs(all);
    GapsAreWithin(some, all);
    assert forall i :: 0 <= i < |x| ==> x[i] in y;
    FirstSeenIsSum(x, {}, sizeOf);
    FirstSeenIsSum(y, {}, sizeOf);
    assert Digests(x) - {} == Digests(x) && Digests(y) - {} == Digests(y);
    forall d | d in Digests(y) ensures sizeOf(d) >= 0 { DigestsAreSized(y, sizeOf, d); }
    SumOverSubset(Digests(x), Digests(y), sizeOf);
  }

  /** However the goroutines that resolve an index are interleaved, the total is that of a sequential
      resolution; and if the context is cancelled at any point, the total is no larger. */
  lemma {:induction false} TotalOfRun(resolve: nat -> Option<Image>, states: seq<FanOut.Index<Image>>,
                                      steps: seq<FanOut.Step>, sizeOf: string -> int)
    requires FanOut.Run(resolve, states, steps) && FanOut.Finished(states[|steps|])
    requires var all := seq(|states[0].phases|, i requires 0 <= i < |states[0].phases| => resolve(i));
             NonNegative(AllRefs(all)) && Fixed(AllRefs(all), sizeOf)
    ensures var s, all := states[|steps|], seq(|states[0].phases|, i requires 0 <= i < |states[0].phases| => resolve(i));
            && (!s.cancelled ==> FirstSeen(AllRefs(s.slots), {}) == FirstSeen(AllRefs(all), {}))
            && FirstSeen(AllRefs(s.slots), {}) <= FirstSeen(AllRefs(all), {})
  {
    hide AllRefs, FirstSeen, NonNegative, Fixed, FanOut.Next, FanOut.Finished;
    FanOut.ResultIsSequential(resolve, states, steps);
    var s, all := states[|steps|], seq(|states[0].phases|, i requires 0 <= i < |states[0].phases| => resolve(i));
    assert Gaps(s.slots, all);
    GapsNeverAdd(s.slots, all, sizeOf);
  }
}
