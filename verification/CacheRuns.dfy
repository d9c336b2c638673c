/** Whole runs of the cache: refinement of an unbounded TTL map, survival of the newest entry,
    and the cost of eviction spread over insertions. */
module CacheRuns {
  import opened Options
  import opened TtlCache

  datatype Op<+V> =
    | GetOp(key: string, now: int)
    | SetOp(key: string, repo: string, value: V, ttl: int, now: int, evictNow: int)
    | InvalidateOp(repo: string)
    | PurgeOp

  ghost predicate Step<V>(s: State<V>, op: Op<V>, s': State<V>) {
    match op
    case GetOp(key, now) => s' == AfterGet(s, key, now)
    case SetOp(key, repo, value, ttl, now, evictNow) => AfterSet(s, key, repo, value, ttl, now, evictNow, s')
    case InvalidateOp(repo) => s' == AfterInvalidate(s, repo)
    case PurgeOp => s' == s.(entries := map[])
  }

  ghost predicate Run<V>(states: seq<State<V>>, ops: seq<Op<V>>) {
    |states| == |ops| + 1 && forall i :: 0 <= i < |ops| ==> Step(states[i], ops[i], states[i + 1])
  }

  // ---------- the ideal: an unbounded map that forgets nothing but what it is told to ----------

  datatype Item<+V> = Item(value: V, repo: string, expires: int)

  type Ideal<V> = map<string, Item<V>>

  function IdealAfter<V>(m: Ideal<V>, op: Op<V>): Ideal<V> {
    match op
    case GetOp(_, _) => m
    case SetOp(key, repo, value, ttl, now, _) => if ttl <= 0 then m else m[key := Item(value, repo, now + ttl)]
    case InvalidateOp(repo) => map k | k in m && m[k].repo != repo && m[k].repo != GLOBAL :: m[k]
    case PurgeOp => map[]
  }

  function IdealRun<V>(m: Ideal<V>, ops: seq<Op<V>>): Ideal<V> {
    if ops == [] then m else IdealAfter(IdealRun(m, ops[..|ops| - 1]), ops[|ops| - 1])
  }

  predicate IdealHit<V>(m: Ideal<V>, key: string, now: int) { key in m && now < m[key].expires }

  /** Every entry held is the ideal's own. */
  ghost predicate Refines<V>(s: State<V>, m: Ideal<V>) {
    forall k :: k in s.entries ==> k in m && m[k] == Item(s.entries[k].value, s.entries[k].repo, s.entries[k].expires)
  }

  lemma {:induction false} LiveSize<V>(m: map<string, Entry<V>>, now: int)
    ensures |Live(m, now)| <= |m|
  {
    SubmapSize(Live(m, now), m);
  }

  lemma {:induction false} EvictKeepsBound<V>(m: map<string, Entry<V>>, max: nat, now: int, m': map<string, Entry<V>>)
    requires Evicted(m, max, now, m')
    ensures |m'| <= max && forall k :: k in m' ==> k in m && m'[k] == m[k]
  {
    assert Target(max) <= max;
  }

  lemma {:induction false} SubmapKeepsStamps<V>(m: map<string, Entry<V>>, tick: nat, m': map<string, Entry<V>>)
    requires Stamped(m, tick) && forall k :: k in m' ==> k in m && m'[k] == m[k]
    ensures Stamped(m', tick)
  {}

  lemma {:induction false} SetKeepsInv<V>(s: State<V>, op: Op<V>, s': State<V>)
    requires Inv(s) && op.SetOp? && Step(s, op, s')
    ensures Inv(s')
  {
    hide Evicted, Stamped;
    if op.ttl > 0 {
      var mid := Inserted(s, op.key, op.repo, op.value, op.now + op.ttl);
      InsertKeepsStamps(s, op.key, op.repo, op.value, op.now + op.ttl);
      EvictKeepsBound(mid.entries, s.max, op.evictNow, s'.entries);
      SubmapKeepsStamps(mid.entries, mid.tick, s'.entries);
    }
  }

  lemma {:induction false} StepKeepsInv<V>(s: State<V>, op: Op<V>, s': State<V>)
    requires Inv(s) && Step(s, op, s')
    ensures Inv(s') && s'.max == s.max
  {
    match op
    case GetOp(key, now) => GetKeepsInv(s, key, now);
    case SetOp(_, _, _, _, _, _) => SetKeepsInv(s, op, s');
    case InvalidateOp(repo) => InvalidateKeepsInv(s, repo);
    case PurgeOp =>
  }

  lemma {:induction false} StepRefines<V>(s: State<V>, op: Op<V>, s': State<V>, m: Ideal<V>)
    requires Refines(s, m) && Step(s, op, s')
    ensures Refines(s', IdealAfter(m, op))
  {
    hide Evicted, Live;
    if op.SetOp? && op.ttl > 0 {
      var mid := Inserted(s, op.key, op.repo, op.value, op.now + op.ttl);
      assert Refines(mid, IdealAfter(m, op));
      EvictKeepsBound(mid.entries, s.max, op.evictNow, s'.entries);
    }
  }

  /** Over every run the cache stays bounded and stamped, and holds only what the ideal holds. */
  lemma {:induction false} RunRefines<V>(states: seq<State<V>>, ops: seq<Op<V>>, m: Ideal<V>, i: nat)
    requires Run(states, ops) && i <= |ops| && Inv(states[0]) && Refines(states[0], m)
    ensures Inv(states[i]) && states[i].max == states[0].max && Refines(states[i], IdealRun(m, ops[..i]))
  {
    if i > 0 {
      RunRefines(states, ops, m, i - 1);
      assert ops[..i][..i - 1] == ops[..i - 1];
      StepKeepsInv(states[i - 1], ops[i - 1], states[i]);
      StepRefines(states[i - 1], ops[i - 1], states[i], IdealRun(m, ops[..i - 1]));
    }
  }

  /** A hit is a hit of the ideal map, with the ideal's value: from the empty cache, after any run. */
  lemma {:induction false} HitsAreIdeal<V>(states: seq<State<V>>, ops: seq<Op<V>>, i: nat, key: string, now: int)
    requires Run(states, ops) && i <= |ops|
    requires states[0].entries == map[] && 1 <= states[0].max
    requires Hit(states[i], key, now)
    ensures var m := IdealRun(map[], ops[..i]);
            IdealHit(m, key, now) && m[key].value == states[i].entries[key].value
  {
    RunRefines(states, ops, map[], i);
  }

  // ---------- when nothing is pushed out, the cache is the ideal map ----------

  /** The branch of Evict that sorts: even the live entries are too many. */
  ghost predicate SortPath<V>(s: State<V>, op: Op<V>) {
    && op.SetOp? && op.ttl > 0
    && var mid := Inserted(s, op.key, op.repo, op.value, op.now + op.ttl);
       |mid.entries| > s.max && |Live(mid.entries, op.evictNow)| > s.max
  }

  /** The latest clock reading after the operations, starting from t. */
  function LatestOf<V>(ops: seq<Op<V>>, t: int): int {
    if ops == [] then t else Latest(ops[|ops| - 1], LatestOf(ops[..|ops| - 1], t))
  }

  /** The clock readings of the operations never go back. */
  ghost predicate Clocked<V>(ops: seq<Op<V>>, t: int) {
    forall i :: 0 <= i < |ops| ==> Reads(ops[i], LatestOf(ops[..i], t))
  }

  ghost predicate Reads<V>(op: Op<V>, t: int) {
    match op
    case GetOp(_, now) => t <= now
    case SetOp(_, _, _, _, now, evictNow) => t <= now <= evictNow
    case _ => true
  }

  function Latest<V>(op: Op<V>, t: int): int {
    match op
    case GetOp(_, now) => now
    case SetOp(_, _, _, _, _, evictNow) => evictNow
    case _ => t
  }

  /** What the ideal still holds live at t is in the cache. */
  ghost predicate Complete<V>(s: State<V>, m: Ideal<V>, t: int) {
    forall k :: k in m && t < m[k].expires ==> k in s.entries
  }

  lemma {:induction false} EvictSparesLive<V>(m: map<string, Entry<V>>, max: nat, now: int, m': map<string, Entry<V>>)
    requires Evicted(m, max, now, m') && (|m| <= max || |Live(m, now)| <= max)
    ensures forall k :: k in m && now < m[k].expires ==> k in m'
  {}

  lemma {:induction false} StepCompletes<V>(s: State<V>, op: Op<V>, s': State<V>, m: Ideal<V>, t: int)
    requires Refines(s, m) && Complete(s, m, t)
    requires Step(s, op, s') && !SortPath(s, op) && Reads(op, t)
    ensures Complete(s', IdealAfter(m, op), Latest(op, t))
  {
    hide Evicted, Live;
    if op.SetOp? && op.ttl > 0 {
      var mid := Inserted(s, op.key, op.repo, op.value, op.now + op.ttl);
      EvictSparesLive(mid.entries, s.max, op.evictNow, s'.entries);
    }
  }

  lemma {:induction false} RunCompletes<V>(states: seq<State<V>>, ops: seq<Op<V>>, m: Ideal<V>, t: int, i: nat)
    requires Run(states, ops) && Clocked(ops, t) && i <= |ops|
    requires Inv(states[0]) && Refines(states[0], m) && Complete(states[0], m, t)
    requires forall j :: 0 <= j < i ==> !SortPath(states[j], ops[j])
    ensures Complete(states[i], IdealRun(m, ops[..i]), LatestOf(ops[..i], t))
  {
    if i > 0 {
      RunCompletes(states, ops, m, t, i - 1);
      RunRefines(states, ops, m, i - 1);
      assert ops[..i][..i - 1] == ops[..i - 1];
      StepCompletes(states[i - 1], ops[i - 1], states[i], IdealRun(m, ops[..i - 1]), LatestOf(ops[..i - 1], t));
    }
  }

  /** Under a monotone clock, while no eviction had to sort, the cache hits exactly when the
      ideal map does. */
  lemma {:induction false} ExactWithoutOverflow<V>(states: seq<State<V>>, ops: seq<Op<V>>, t: int, i: nat,
                                                   key: string, now: int)
    requires Run(states, ops) && Clocked(ops, t) && i <= |ops|
    requires states[0].entries == map[] && 1 <= states[0].max
    requires forall j :: 0 <= j < i ==> !SortPath(states[j], ops[j])
    requires LatestOf(ops[..i], t) <= now
    ensures Hit(states[i], key, now) <==> IdealHit(IdealRun(map[], ops[..i]), key, now)
  {
    RunRefines(states, ops, map[], i);
    RunCompletes(states, ops, map[], t, i);
  }

  // ---------- eviction ----------

  /** Whatever order the map is iterated in, eviction keeps the same entries. */
  lemma {:induction false} EvictionIsDetermined<V>(m: map<string, Entry<V>>, tick: nat, max: nat, now: int,
                                                   a: map<string, Entry<V>>, b: map<string, Entry<V>>)
    requires Stamped(m, tick) && Evicted(m, max, now, a) && Evicted(m, max, now, b)
    ensures a == b
  {
    if |m| > max && |Live(m, now)| > max {
      SameKeys(Live(m, now), a, b, Target(max));
      SameKeys(Live(m, now), b, a, Target(max));
    }
  }

  lemma {:induction false} SameKeys<V>(m: map<string, Entry<V>>, a: map<string, Entry<V>>, b: map<string, Entry<V>>, n: nat)
    requires MostRecent(m, a, n) && MostRecent(m, b, n)
    ensures a.Keys <= b.Keys
  {
    if b.Keys <= a.Keys {
      assert |a.Keys| == |b.Keys| + |a.Keys - b.Keys|;
    }
  }

  /** What eviction leaves of the entry stamped last: it stays unless it has to make room and either is
      expired, or the cache is bounded by one entry and every live one is dropped. */
  lemma {:induction false} EvictionSpares<V>(m: map<string, Entry<V>>, max: nat, now: int, m': map<string, Entry<V>>, key: string)
    requires Evicted(m, max, now, m') && max > 0 && key in m && IsNewest(m, key)
    ensures key in m' <==> |m| <= max || (now < m[key].expires && (|Live(m, now)| <= max || max >= 2))
    ensures key in m' ==> m'[key] == m[key]
  {
    hide MostRecent, Target;
    var live := Live(m, now);
    assert max >= 2 <==> Target(max) > 0 by { TargetPositive(max); }
    if |m| > max && |live| > max {
      KeptAreThere(live, m', Target(max));
      if key in live { NewestIsKept(live, m', key, Target(max)); }
    }
  }

  lemma {:induction false} TargetPositive(max: nat)
    requires max > 0
    ensures max >= 2 <==> Target(max) > 0
  {}

  lemma {:induction false} KeptAreThere<V>(m: map<string, Entry<V>>, kept: map<string, Entry<V>>, n: nat)
    requires MostRecent(m, kept, n)
    ensures forall k :: k in kept ==> k in m && kept[k] == m[k]
  {}

  ghost predicate IsNewest<V>(m: map<string, Entry<V>>, key: string)
    requires key in m
  {
    forall k :: k in m && k != key ==> m[k].used < m[key].used
  }

  lemma {:induction false} InsertedIsNewest<V>(s: State<V>, key: string, repo: string, value: V, expires: int)
    requires Stamped(s.entries, s.tick)
    ensures IsNewest(Inserted(s, key, repo, value, expires).entries, key)
  {}

  /** The entry just set is still there unless it had to make room and either had already expired,
      or the cache holds a single entry and every live one was dropped. */
  lemma {:induction false} NewestSurvives<V>(s: State<V>, op: Op<V>, s': State<V>)
    requires Inv(s) && op.SetOp? && op.ttl > 0 && Step(s, op, s')
    ensures var mid := Inserted(s, op.key, op.repo, op.value, op.now + op.ttl);
            op.key in s'.entries <==>
              || |mid.entries| <= s.max
              || (op.evictNow < op.now + op.ttl && (|Live(mid.entries, op.evictNow)| <= s.max || s.max >= 2))
    ensures op.key in s'.entries ==> s'.entries[op.key] == Entry(op.value, op.repo, op.now + op.ttl, s.tick + 1)
  {
    hide Evicted, Stamped, Live, IsNewest;
    var mid := Inserted(s, op.key, op.repo, op.value, op.now + op.ttl);
    InsertedIsNewest(s, op.key, op.repo, op.value, op.now + op.ttl);
    EvictionSpares(mid.entries, s.max, op.evictNow, s'.entries, op.key);
  }

  /** A look-up that follows a set, before the entry expires, finds it: no eviction in between can have
      dropped it unless the cache is bounded by a single entry. */
  lemma {:induction false} JustSetIsHit<V>(s: State<V>, key: string, repo: string, value: V, ttl: int, now: int,
                                           evictNow: int, s': State<V>, look: int)
    requires Inv(s) && s.max >= 2 && ttl > 0 && evictNow < now + ttl && look < now + ttl
    requires AfterSet(s, key, repo, value, ttl, now, evictNow, s')
    ensures Hit(s', key, look) && s'.entries[key].value == value
  {
    hide Inv, Evicted, Live;
    NewestSurvives(s, SetOp(key, repo, value, ttl, now, evictNow), s');
  }

  lemma {:induction false} NewestIsKept<V>(m: map<string, Entry<V>>, kept: map<string, Entry<V>>, key: string, n: nat)
    requires MostRecent(m, kept, n) && key in m && IsNewest(m, key)
    ensures key in kept <==> n > 0
  {
    if n > 0 {
      assert |kept.Keys| > 0;
      var k :| k in kept;
      assert k == key || m[k].used < m[key].used;
    }
  }

  function NewInsert<V>(s: State<V>, op: Op<V>): nat {
    if op.SetOp? && op.ttl > 0 && op.key !in s.entries then 1 else 0
  }

  /** Insertions of new keys among steps start .. stop - 1. */
  function NewInserts<V>(states: seq<State<V>>, ops: seq<Op<V>>, start: nat, stop: nat): nat
    requires start <= stop <= |ops| <= |states|
  {
    if start == stop then 0 else NewInserts(states, ops, start, stop - 1) + NewInsert(states[stop - 1], ops[stop - 1])
  }

  lemma {:induction false} InsertSize<V>(s: State<V>, key: string, repo: string, value: V, expires: int)
    ensures |Inserted(s, key, repo, value, expires).entries| == |s.entries| + if key in s.entries then 0 else 1
  {
    var m := Inserted(s, key, repo, value, expires).entries;
    assert m.Keys == s.entries.Keys + {key};
    assert key in s.entries ==> m.Keys == s.entries.Keys;
  }

  lemma {:induction false} EvictShrinks<V>(m: map<string, Entry<V>>, max: nat, now: int, m': map<string, Entry<V>>)
    requires Evicted(m, max, now, m')
    ensures |m'| <= |m|
    ensures |m| > max && |Live(m, now)| > max ==> |m'| == Target(max)
  {
    LiveSize(m, now);
  }

  lemma {:induction false} SetGrowth<V>(s: State<V>, op: Op<V>, s': State<V>)
    requires Inv(s) && op.SetOp? && op.ttl > 0 && Step(s, op, s')
    ensures |s'.entries| <= |s.entries| + NewInsert(s, op)
    ensures SortPath(s, op) ==> NewInsert(s, op) == 1 && |s.entries| == s.max && |s'.entries| == Target(s.max)
  {
    hide Evicted, Stamped, Live, Target;
    InsertSize(s, op.key, op.repo, op.value, op.now + op.ttl);
    EvictShrinks(Inserted(s, op.key, op.repo, op.value, op.now + op.ttl).entries, s.max, op.evictNow, s'.entries);
  }

  lemma {:induction false} StepGrowth<V>(s: State<V>, op: Op<V>, s': State<V>)
    requires Inv(s) && Step(s, op, s')
    ensures |s'.entries| <= |s.entries| + NewInsert(s, op)
    ensures SortPath(s, op) ==> NewInsert(s, op) == 1 && |s.entries| == s.max && |s'.entries| == Target(s.max)
  {
    if op.SetOp? {
      if op.ttl > 0 { SetGrowth(s, op, s'); }
    } else {
      assert s'.entries.Keys <= s.entries.Keys;
      SubmapSize(s'.entries, s.entries);
    }
  }

  lemma {:induction false} RunStep<V>(states: seq<State<V>>, ops: seq<Op<V>>, i: nat)
    requires Run(states, ops) && i < |ops|
    ensures |states| == |ops| + 1 && Step(states[i], ops[i], states[i + 1])
  {}

  lemma {:induction false} NewInsertsLast<V>(states: seq<State<V>>, ops: seq<Op<V>>, start: nat, stop: nat)
    requires start <= stop < |ops| <= |states|
    ensures NewInserts(states, ops, start, stop + 1) ==
            NewInserts(states, ops, start, stop) + NewInsert(states[stop], ops[stop])
  {}

  lemma {:induction false} RunGrowth<V>(states: seq<State<V>>, ops: seq<Op<V>>, start: nat, stop: nat)
    requires Run(states, ops) && start <= stop <= |ops| && Inv(states[start])
    ensures Inv(states[stop]) && states[stop].max == states[start].max
    ensures |states[stop].entries| <= |states[start].entries| + NewInserts(states, ops, start, stop)
    decreases stop
  {
    if start != stop {
      RunGrowth(states, ops, start, stop - 1);
      StepKeepsInv(states[stop - 1], ops[stop - 1], states[stop]);
      StepGrowth(states[stop - 1], ops[stop - 1], states[stop]);
    }
  }

  /** Between two evictions that sort lie at least max - floor(9 max / 10) + 1 insertions of new
      keys, the second eviction's own included. */
  lemma {:induction false} SortsAreAmortised<V>(states: seq<State<V>>, ops: seq<Op<V>>, i: nat, j: nat)
    requires Run(states, ops) && i < j < |ops| && Inv(states[i])
    requires SortPath(states[i], ops[i]) && SortPath(states[j], ops[j])
    ensures NewInserts(states, ops, i + 1, j + 1) >= states[i].max - states[i].max * 9 / 10 + 1
  {
    hide Step, SortPath, Inv, NewInsert, NewInserts, Run;
    RunStep(states, ops, i);
    RunStep(states, ops, j);
    NewInsertsLast(states, ops, i + 1, j);
    StepKeepsInv(states[i], ops[i], states[i + 1]);
    StepGrowth(states[i], ops[i], states[i + 1]);
    RunGrowth(states, ops, i + 1, j);
    StepGrowth(states[j], ops[j], states[j + 1]);
  }
}
