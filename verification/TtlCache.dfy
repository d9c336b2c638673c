/** The bounded TTL and LRU cache of registry replies (cache.go), as a class whose methods are proved
    against one-step specifications on its state. Clock readings are parameters. */
module TtlCache {
  import opened Options
  import opened Sorting

  /** Entries with this scope belong to the registry as a whole. */
  const GLOBAL := ""

  datatype Entry<+V> = Entry(value: V, repo: string, expires: int, used: nat)

  datatype State<+V> = State(entries: map<string, Entry<V>>, tick: nat, max: nat)

  /** Bounded, and recency stamps are pairwise distinct and at most tick. */
  ghost predicate Inv<V>(s: State<V>) {
    1 <= s.max && |s.entries| <= s.max && Stamped(s.entries, s.tick)
  }

  ghost predicate Stamped<V>(m: map<string, Entry<V>>, tick: nat) {
    && (forall k :: k in m ==> m[k].used <= tick)
    && (forall k, l :: k in m && l in m && k != l ==> m[k].used != m[l].used)
  }

  // ---------- one-step specifications ----------

  predicate Hit<V>(s: State<V>, key: string, now: int) { key in s.entries && now < s.entries[key].expires }

  function AfterGet<V>(s: State<V>, key: string, now: int): State<V> {
    if key !in s.entries then s
    else if now < s.entries[key].expires then
      s.(tick := s.tick + 1, entries := s.entries[key := s.entries[key].(used := s.tick + 1)])
    else s.(entries := s.entries - {key})
  }

  function Live<V>(m: map<string, Entry<V>>, now: int): map<string, Entry<V>> {
    map k | k in m && now < m[k].expires :: m[k]
  }

  function Target(max: nat): nat { max * 9 / 10 }

  /** kept is the `count` most recently used entries of m. */
  ghost predicate MostRecent<V>(m: map<string, Entry<V>>, kept: map<string, Entry<V>>, count: nat) {
    && |kept| == count
    && (forall k :: k in kept ==> k in m && kept[k] == m[k])
    && (forall k, v :: k in kept && v in m && v !in kept ==> m[v].used < m[k].used)
  }

  /** Nothing under the bound; else the expired go; else only the most recently used remain. */
  ghost predicate Evicted<V>(m: map<string, Entry<V>>, max: nat, now: int, m': map<string, Entry<V>>) {
    if |m| <= max then m' == m
    else if |Live(m, now)| <= max then m' == Live(m, now)
    else MostRecent(Live(m, now), m', Target(max))
  }

  function Inserted<V>(s: State<V>, key: string, repo: string, value: V, expires: int): State<V> {
    s.(tick := s.tick + 1, entries := s.entries[key := Entry(value, repo, expires, s.tick + 1)])
  }

  ghost predicate AfterSet<V>(s: State<V>, key: string, repo: string, value: V, ttl: int, now: int, evictNow: int,
                              s': State<V>) {
    if ttl <= 0 then s' == s
    else
      var mid := Inserted(s, key, repo, value, now + ttl);
      && s'.tick == mid.tick && s'.max == mid.max
      && Evicted(mid.entries, s.max, evictNow, s'.entries)
  }

  function AfterInvalidate<V>(s: State<V>, repo: string): State<V> {
    s.(entries := map k | k in s.entries && s.entries[k].repo != repo && s.entries[k].repo != GLOBAL :: s.entries[k])
  }

  // ---------- the class ----------

  datatype Ref = Ref(key: string, used: nat)

  function ByUse(a: Ref, b: Ref): int { if a.used < b.used then -1 else if a.used > b.used then 1 else 0 }

  class Cache<V> {
    var entries: map<string, Entry<V>>
    var tick: nat
    const max: nat

    ghost function Contents(): State<V> reads this { State(entries, tick, max) }

    constructor (max: int)
      ensures this.max == if max <= 0 then 2048 else max
      ensures entries == map[] && tick == 0 && Inv(Contents())
    {
      entries, tick := map[], 0;
      this.max := if max <= 0 then 2048 else max;
    }

    method Get(key: string, now: int) returns (r: Option<V>)
      requires Inv(Contents())
      modifies this
      ensures Contents() == AfterGet(old(Contents()), key, now) && Inv(Contents())
      ensures r == if Hit(old(Contents()), key, now) then Some(old(entries)[key].value) else None
    {
      GetKeepsInv(Contents(), key, now);
      if key !in entries { return None; }
      var e := entries[key];
      if !(now < e.expires) {
        entries := entries - {key};
        return None;
      }
      tick := tick + 1;
      entries := entries[key := e.(used := tick)];
      return Some(e.value);
    }

    method Set(key: string, repo: string, value: V, ttl: int, now: int, evictNow: int)
      requires Inv(Contents())
      modifies this
      ensures AfterSet(old(Contents()), key, repo, value, ttl, now, evictNow, Contents()) && Inv(Contents())
    {
      hide Stamped, Evicted, Live;
      if ttl <= 0 { return; }
      InsertKeepsStamps(Contents(), key, repo, value, now + ttl);
      tick := tick + 1;
      entries := entries[key := Entry(value, repo, now + ttl, tick)];
      Evict(evictNow);
    }

    method Evict(now: int)
      requires 1 <= max && Stamped(entries, tick)
      modifies this`entries
      ensures Evicted(old(entries), max, now, entries) && Inv(Contents())
    {
      hide Stamped, Live, MostRecent;
      ghost var m := entries;
      if |entries| > max {
        DropExpired(now);
        LiveKeepsStamps(m, tick, now);
        if |entries| > max {
          KeepMostRecent(|entries| - Target(max));
          MostRecentKeepsStamps(Live(m, now), tick, entries, Target(max));
        }
      }
    }

    method DropExpired(now: int)
      modifies this`entries
      ensures entries == Live(old(entries), now)
    {
      var todo := entries.Keys;
      ghost var m := entries;
      while todo != {}
        invariant todo <= m.Keys
        invariant entries == map k | k in m && (k in todo || now < m[k].expires) :: m[k]
        decreases |todo|
      {
        var k :| k in todo;
        if !(now < entries[k].expires) { entries := entries - {k}; }
        todo := todo - {k};
      }
      assert entries == Live(m, now);
    }

    /** Sorts the keys by last use and deletes the first n. */
    method KeepMostRecent(n: nat)
      requires n <= |entries| && Stamped(entries, tick)
      modifies this`entries
      ensures MostRecent(old(entries), entries, |old(entries)| - n)
    {
      ghost var m := entries;
      var refs := CollectRefs();
      refs := SortRefs(refs, m);
      for i := 0 to n
        invariant |entries| == |m| - i && IsSubmap(entries, m)
        invariant KeptFrom(refs, entries, i)
      {
        RemoveRef(refs, entries, i);
        entries := entries - {refs[i].key};
      }
      KeptAreMostRecent(m, entries, refs, n);
    }

    method CollectRefs() returns (refs: seq<Ref>)
      ensures RefsOf(refs, entries)
    {
      refs := [];
      var todo := entries.Keys;
      while todo != {}
        invariant todo <= entries.Keys && |refs| + |todo| == |entries|
        invariant forall k :: k in entries && k !in todo ==> Ref(k, entries[k].used) in refs
        invariant forall j :: 0 <= j < |refs| ==>
                    refs[j].key in entries && refs[j].key !in todo && refs[j].used == entries[refs[j].key].used
        invariant forall i, j :: 0 <= i < j < |refs| ==> refs[i].key != refs[j].key
        decreases |todo|
      {
        var k :| k in todo;
        refs := refs + [Ref(k, entries[k].used)];
        todo := todo - {k};
      }
    }

    method InvalidateRepo(repo: string)
      requires Inv(Contents())
      modifies this
      ensures Contents() == AfterInvalidate(old(Contents()), repo) && Inv(Contents())
    {
      hide Inv;
      InvalidateKeepsInv(Contents(), repo);
      var todo := entries.Keys;
      ghost var m := entries;
      while todo != {}
        invariant todo <= m.Keys && tick == old(tick)
        invariant forall k :: k in entries ==> k in m && entries[k] == m[k]
        invariant forall k :: k in m ==> (k in entries <==> k in todo || (m[k].repo != repo && m[k].repo != GLOBAL))
        decreases |todo|
      {
        var k :| k in todo;
        if entries[k].repo == repo || entries[k].repo == GLOBAL { entries := entries - {k}; }
        todo := todo - {k};
      }
      assert entries == AfterInvalidate(old(Contents()), repo).entries;
    }

    method Purge()
      modifies this
      requires Inv(Contents())
      ensures Contents() == old(Contents()).(entries := map[]) && Inv(Contents())
    {
      entries := map[];
    }
  }

  lemma {:induction false} InsertKeepsStamps<V>(s: State<V>, key: string, repo: string, value: V, expires: int)
    requires Stamped(s.entries, s.tick)
    ensures var mid := Inserted(s, key, repo, value, expires); Stamped(mid.entries, mid.tick)
  {}

  lemma {:induction false} LiveKeepsStamps<V>(m: map<string, Entry<V>>, tick: nat, now: int)
    requires Stamped(m, tick)
    ensures Stamped(Live(m, now), tick)
  {}

  lemma {:induction false} MostRecentKeepsStamps<V>(m: map<string, Entry<V>>, tick: nat, kept: map<string, Entry<V>>, n: nat)
    requires Stamped(m, tick) && MostRecent(m, kept, n)
    ensures Stamped(kept, tick) && |kept| == n
  {}

  /** refs lists every entry of m once, with its stamp. */
  ghost predicate RefsOf<V>(refs: seq<Ref>, m: map<string, Entry<V>>) {
    && |refs| == |m|
    && (forall k :: k in m ==> Ref(k, m[k].used) in refs)
    && (forall j :: 0 <= j < |refs| ==> refs[j].key in m && refs[j].used == m[refs[j].key].used)
    && (forall i, j :: 0 <= i < j < |refs| ==> refs[i].key != refs[j].key)
  }

  ghost predicate IsSubmap<V>(m: map<string, V>, n: map<string, V>) {
    forall k :: k in m ==> k in n && m[k] == n[k]
  }

  /** Of the listed keys, exactly those from position i on are left. */
  ghost predicate KeptFrom<V>(refs: seq<Ref>, kept: map<string, Entry<V>>, i: nat) {
    forall j :: 0 <= j < |refs| ==> (refs[j].key in kept <==> i <= j)
  }

  lemma {:induction false} RemoveRef<V>(refs: seq<Ref>, kept: map<string, Entry<V>>, i: nat)
    requires KeptFrom(refs, kept, i) && i < |refs|
    requires forall i, j :: 0 <= i < j < |refs| ==> refs[i].key != refs[j].key
    ensures refs[i].key in kept && KeptFrom(refs, kept - {refs[i].key}, i + 1)
    ensures |kept - {refs[i].key}| == |kept| - 1
  {
    var k := refs[i].key;
    assert (kept - {k}).Keys == kept.Keys - {k};
  }

  /** slices.SortFunc by recency stamp. */
  method SortRefs<V>(refs: seq<Ref>, ghost m: map<string, Entry<V>>) returns (r: seq<Ref>)
    requires RefsOf(refs, m)
    ensures RefsOf(r, m) && Sorted(r, ByUse)
  {
    var a := new Ref[|refs|](i requires 0 <= i < |refs| => refs[i]);
    assert a[..] == refs;
    ByUseIsComparison();
    Sort(a, ByUse);
    r := a[..];
    PermutationKeepsRefs(refs, r, m);
  }

  lemma {:induction false} PermutationKeepsRefs<V>(p: seq<Ref>, r: seq<Ref>, m: map<string, Entry<V>>)
    requires RefsOf(p, m) && multiset(p) == multiset(r)
    ensures RefsOf(r, m)
  {
    assert |multiset(p)| == |multiset(r)|;
    forall k | k in m ensures Ref(k, m[k].used) in r {
      assert Ref(k, m[k].used) in multiset(p);
    }
    forall j | 0 <= j < |r| ensures r[j].key in m && r[j].used == m[r[j].key].used {
      assert r[j] in multiset(p);
    }
    forall i, j | 0 <= i < j < |r| ensures r[i].key != r[j].key {
      if r[i].key == r[j].key {
        assert r[i] in multiset(p) && r[j] in multiset(p);
        AtMostOnce(p, r[i]);
        AtLeastTwice(r, i, j);
      }
    }
  }

  /** Deleting the front of the refs, sorted by stamp, leaves the most recently used. */
  lemma {:induction false} KeptAreMostRecent<V>(m: map<string, Entry<V>>, kept: map<string, Entry<V>>, r: seq<Ref>, n: nat)
    requires RefsOf(r, m) && Sorted(r, ByUse) && n <= |m| && |kept| == |m| - n
    requires forall k, l :: k in m && l in m && k != l ==> m[k].used != m[l].used
    requires IsSubmap(kept, m) && KeptFrom(r, kept, n)
    ensures MostRecent(m, kept, |m| - n)
  {
    forall k, v | k in kept && v in m && v !in kept ensures m[v].used < m[k].used {
      var i :| 0 <= i < |r| && r[i] == Ref(k, m[k].used);
      var j :| 0 <= j < |r| && r[j] == Ref(v, m[v].used);
      assert j < i && ByUse(r[j], r[i]) <= 0;
    }
  }

  lemma {:induction false} ByUseIsComparison()
    ensures Comparison(ByUse)
  {
    var cmp := ByUse;
    forall x, y, z
      ensures cmp(x, y) == -cmp(y, x)
      ensures cmp(x, y) <= 0 && cmp(y, z) <= 0 ==> cmp(x, z) <= 0
    {}
  }

  /** After a set, every entry is the one just written or an old one, untouched. */
  lemma {:induction false} SetAddsOnlyKey<V>(s: State<V>, key: string, repo: string, value: V, ttl: int, now: int,
                                             evictNow: int, s': State<V>, k: string)
    requires AfterSet(s, key, repo, value, ttl, now, evictNow, s') && k in s'.entries
    ensures if k == key && ttl > 0
            then s'.entries[k].value == value && s'.entries[k].repo == repo && s'.entries[k].expires == now + ttl
            else k in s.entries && s'.entries[k] == s.entries[k]
  {}

  lemma {:induction false} SubmapSize<V>(m: map<string, V>, n: map<string, V>)
    requires m.Keys <= n.Keys
    ensures |m| <= |n|
  {
    if m.Keys != n.Keys { assert |n.Keys| == |n.Keys - m.Keys| + |m.Keys|; }
  }

  lemma {:induction false} GetKeepsInv<V>(s: State<V>, key: string, now: int)
    requires Inv(s)
    ensures Inv(AfterGet(s, key, now))
  {
    if key in s.entries {
      SubmapSize(s.entries - {key}, s.entries);
      assert Hit(s, key, now) ==> AfterGet(s, key, now).entries.Keys == s.entries.Keys;
    }
  }

  lemma {:induction false} InvalidateKeepsInv<V>(s: State<V>, repo: string)
    requires Inv(s)
    ensures Inv(AfterInvalidate(s, repo))
  {
    SubmapSize(AfterInvalidate(s, repo).entries, s.entries);
  }
}
