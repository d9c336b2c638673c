/** Least recently used, told by the operations and not by stamps: what an eviction that sorts keeps over any
    run of the cache (cache.go, get, set, evictLocked). */
module CacheUse {
  import opened TtlCache
  import opened CacheRuns

  /** The operation sets the key or, finding it live, reads it. */
  ghost predicate Uses<V>(s: State<V>, op: Op<V>, k: string) {
    match op
    case GetOp(key, now) => key == k && k in s.entries && now < s.entries[k].expires
    case SetOp(key, _, _, ttl, _, _) => key == k && ttl > 0
    case _ => false
  }

  /** The number of the last operation before i that used the key, -1 when none did. */
  ghost function LastUse<V>(states: seq<State<V>>, ops: seq<Op<V>>, i: nat, k: string): int
    requires i <= |ops| <= |states|
  {
    if i == 0 then -1 else if Uses(states[i - 1], ops[i - 1], k) then i - 1 else LastUse(states, ops, i - 1, k)
  }

  /** Stamps are in the order of last use. */
  ghost predicate InUseOrder<V>(m: map<string, Entry<V>>, use: string -> int) {
    forall k, l :: k in m && l in m && m[k].used < m[l].used ==> use(k) < use(l)
  }

  lemma {:induction false} StampedLast<V>(m: map<string, Entry<V>>, tick: nat, use: string -> int, key: string, e: Entry<V>,
                                          use': string -> int, i: int)
    requires Stamped(m, tick) && InUseOrder(m, use) && e.used == tick + 1
    requires use'(key) == i && forall k :: k != key ==> use'(k) == use(k) < i
    ensures InUseOrder(m[key := e], use')
  {}

  lemma {:induction false} FewerInOrder<V>(m: map<string, Entry<V>>, use: string -> int, m': map<string, Entry<V>>)
    requires InUseOrder(m, use) && forall k :: k in m' ==> k in m && m'[k] == m[k]
    ensures InUseOrder(m', use)
  {}

  lemma {:induction false} SameOrder<V>(m: map<string, Entry<V>>, use: string -> int, use': string -> int)
    requires InUseOrder(m, use) && forall k :: use(k) == use'(k)
    ensures InUseOrder(m, use')
  {}

  lemma {:induction false} StepKeepsOrder<V>(s: State<V>, op: Op<V>, s': State<V>, use: string -> int, use': string -> int, i: int)
    requires Inv(s) && Step(s, op, s') && InUseOrder(s.entries, use)
    requires forall k :: use(k) < i && use'(k) == if Uses(s, op, k) then i else use(k)
    ensures InUseOrder(s'.entries, use')
    ensures op.SetOp? && op.ttl > 0 ==>
              InUseOrder(Inserted(s, op.key, op.repo, op.value, op.now + op.ttl).entries, use')
  {
    hide Evicted, InUseOrder, Stamped, Live;
    if op.SetOp? && op.ttl > 0 {
      var mid := Inserted(s, op.key, op.repo, op.value, op.now + op.ttl);
      StampedLast(s.entries, s.tick, use, op.key, mid.entries[op.key], use', i);
      EvictKeepsBound(mid.entries, s.max, op.evictNow, s'.entries);
      FewerInOrder(mid.entries, use', s'.entries);
    } else if op.GetOp? && Hit(s, op.key, op.now) {
      StampedLast(s.entries, s.tick, use, op.key, s'.entries[op.key], use', i);
    } else {
      SameOrder(s.entries, use, use');
      FewerInOrder(s.entries, use', s'.entries);
    }
  }

  lemma {:induction false} LastUseIsPast<V>(states: seq<State<V>>, ops: seq<Op<V>>, i: nat, k: string)
    requires i <= |ops| <= |states|
    ensures LastUse(states, ops, i, k) < i
  {
    if i > 0 { LastUseIsPast(states, ops, i - 1, k); }
  }

  /** The last uses before i, as a function of the key. */
  ghost function UsesBefore<V>(states: seq<State<V>>, ops: seq<Op<V>>, i: nat): string -> int
    requires i <= |ops| <= |states|
  {
    (k: string) => LastUse(states, ops, i, k)
  }

  lemma {:induction false} UseStep<V>(states: seq<State<V>>, ops: seq<Op<V>>, i: nat)
    requires i < |ops| <= |states|
    ensures var use, use' := UsesBefore(states, ops, i), UsesBefore(states, ops, i + 1);
            forall k :: use(k) < i && use'(k) == if Uses(states[i], ops[i], k) then i else use(k)
  {
    forall k ensures LastUse(states, ops, i, k) < i { LastUseIsPast(states, ops, i, k); }
  }

  lemma {:induction false} RunKeepsOrder<V>(states: seq<State<V>>, ops: seq<Op<V>>, i: nat)
    requires Run(states, ops) && i <= |ops| && states[0].entries == map[] && 1 <= states[0].max
    ensures Inv(states[i]) && states[i].max == states[0].max && InUseOrder(states[i].entries, UsesBefore(states, ops, i))
  {
    hide Step, Inv, InUseOrder, UsesBefore;
    RunRefines(states, ops, map[], i) by { EmptyIsInv(states[0]); }
    if i == 0 {
      NothingInOrder<V>(UsesBefore(states, ops, 0));
    } else {
      RunKeepsOrder(states, ops, i - 1);
      UseStep(states, ops, i - 1);
      StepKeepsOrder(states[i - 1], ops[i - 1], states[i], UsesBefore(states, ops, i - 1), UsesBefore(states, ops, i), i - 1);
    }
  }

  lemma {:induction false} EmptyIsInv<V>(s: State<V>)
    requires s.entries == map[] && 1 <= s.max
    ensures Inv(s)
  {}

  lemma {:induction false} NothingInOrder<V>(use: string -> int)
    ensures InUseOrder<V>(map[], use)
  {}

  /** The entries a set has to choose from: those live when it evicts, its own among them. */
  ghost predicate Candidate<V>(s: State<V>, op: Op<V>, k: string)
    requires op.SetOp?
  {
    if k == op.key then op.evictNow < op.now + op.ttl else k in s.entries && op.evictNow < s.entries[k].expires
  }

  /** When a set takes the path that sorts, exactly nine tenths of the bound remain; they were live, and each
      was set or hit later than every live entry that went. */
  lemma {:induction false} EvictsLeastRecentlyUsed<V>(states: seq<State<V>>, ops: seq<Op<V>>, i: nat)
    requires Run(states, ops) && i < |ops| && states[0].entries == map[] && 1 <= states[0].max
    requires SortPath(states[i], ops[i])
    ensures var kept := states[i + 1].entries;
            && |kept| == states[0].max * 9 / 10
            && (forall k :: k in kept ==> Candidate(states[i], ops[i], k))
            && (forall k, v :: k in kept && Candidate(states[i], ops[i], v) && v !in kept ==>
                  LastUse(states, ops, i + 1, v) < LastUse(states, ops, i + 1, k))
  {
    hide Inv, Stamped, InUseOrder, LastUse, Uses, Evicted, Live, Run;
    RunStep(states, ops, i);
    var s, op, s' := states[i], ops[i], states[i + 1];
    RunKeepsOrder(states, ops, i);
    UseStep(states, ops, i);
    StepKeepsOrder(s, op, s', UsesBefore(states, ops, i), UsesBefore(states, ops, i + 1), i);
    var mid := Inserted(s, op.key, op.repo, op.value, op.now + op.ttl);
    SurvivorsUsedLater(mid.entries, s.max, op.evictNow, s'.entries, UsesBefore(states, ops, i + 1));
  }

  lemma {:induction false} SurvivorsUsedLater<V>(m: map<string, Entry<V>>, max: nat, now: int, m': map<string, Entry<V>>,
                                                 use: string -> int)
    requires Evicted(m, max, now, m') && |m| > max && |Live(m, now)| > max && InUseOrder(m, use)
    ensures |m'| == max * 9 / 10
    ensures forall k :: k in m' ==> k in m && now < m[k].expires
    ensures forall k, v :: k in m' && v in m && now < m[v].expires && v !in m' ==> use(v) < use(k)
  {
    var live := Live(m, now);
    forall k, v | k in m' && v in m && now < m[v].expires && v !in m' ensures use(v) < use(k) {
      assert v in live && k in live;
    }
  }

  // ---------- what a look-up leaves ----------

  /** A look-up changes no value, scope or expiry, deletes the entry asked for if it has expired, and no
      other. */
  lemma {:induction false} LookUpLeaves<V>(s: State<V>, key: string, now: int)
    ensures var s' := AfterGet(s, key, now);
            && (forall k :: k in s'.entries <==> k in s.entries && (k == key ==> now < s.entries[k].expires))
            && (forall k :: k in s'.entries ==>
                  s'.entries[k].(used := s.entries[k].used) == s.entries[k] && (k != key ==> s'.entries[k] == s.entries[k]))
            && s'.max == s.max && (!Hit(s, key, now) ==> s'.tick == s.tick)
  {}

  // ---------- reading an entry keeps it ----------

  /** An entry just hit is still there after a set of another key, with any bound of at least three: reading
      protects it. */
  lemma {:induction false} HitOutlivesSet<V>(s: State<V>, key: string, now: int, op: Op<V>, s': State<V>, look: int)
    requires Inv(s) && s.max >= 3 && Hit(s, key, now)
    requires op.SetOp? && op.ttl > 0 && op.key != key && Step(AfterGet(s, key, now), op, s')
    requires op.evictNow < s.entries[key].expires && look < s.entries[key].expires
    ensures Hit(s', key, look) && s'.entries[key].value == s.entries[key].value
  {
    hide Evicted, Live;
    var g := AfterGet(s, key, now);
    var mid := Inserted(g, op.key, op.repo, op.value, op.now + op.ttl);
    SecondNewestStays(mid.entries, s.max, op.evictNow, s'.entries, key, op.key);
  }

  lemma {:induction false} SecondNewestStays<V>(m: map<string, Entry<V>>, max: nat, now: int, m': map<string, Entry<V>>,
                                                key: string, newest: string)
    requires Evicted(m, max, now, m') && max >= 3 && key in m && now < m[key].expires
    requires forall k :: k in m && k != key && k != newest ==> m[k].used < m[key].used
    ensures key in m' && m'[key] == m[key]
  {
    if |m| > max && |Live(m, now)| > max && key !in m' {
      assert key in Live(m, now);
      assert m'.Keys <= {newest};
      AtMostOneKey(m'.Keys, newest);
    }
  }

  lemma {:induction false} AtMostOneKey(keys: set<string>, key: string)
    requires keys <= {key}
    ensures |keys| <= 1
  {
    if keys != {} { assert keys == {key}; }
  }
}
