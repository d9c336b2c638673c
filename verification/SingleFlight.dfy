/** The token cache under concurrent callers: threads take turns at the mutex, which is held across
    the network call (auth.go, tokenCache.token). Every interleaving, any token service. */
module SingleFlight {
  import opened Options
  import opened Tokens

  /** Where a caller stands: outside, at the lock, holding it, or holding it with a request under way. */
  datatype Thread = Idle | Waiting(key: string) | Holding(key: string) | Fetching(key: string, start: int)

  /** A token fetched, its document, and when it was decoded and stored. */
  datatype Fetched = Fetched(key: string, doc: TokenDoc, decoded: int, stored: int)

  /** A request sent, and how many tokens had been fetched before it. */
  datatype Sent = Sent(key: string, at: int, before: nat)

  /** A token answered from the cache, and the fetch it came from. */
  datatype Served = Served(key: string, value: string, at: int, origin: nat)

  datatype State = State(
    now: int,
    holder: Option<nat>,
    threads: seq<Thread>,
    tokens: map<string, CachedToken>,
    fetched: seq<Fetched>,
    sent: seq<Sent>,
    served: seq<Served>,
    resets: seq<int>)

  function LifetimeOf(f: Fetched): int { Lifetime(f.doc, f.decoded) }

  // ---------- steps ----------

  datatype Step =
    | Tick(d: nat)
    | Ask(i: nat, key: string)
    | Lock(i: nat)
    | Hit(i: nat, origin: nat)
    | Send(i: nat)
    | Fail(i: nat)
    | Store(i: nat, doc: TokenDoc, decoded: int, prune: int)

  ghost predicate Next(s: State, step: Step, s': State) {
    match step
    case Tick(d) => s' == s.(now := s.now + d)
    case Ask(i, key) =>
      i < |s.threads| && s.threads[i].Idle? && s' == s.(threads := s.threads[i := Waiting(key)])
    case Lock(i) =>
      && i < |s.threads| && s.threads[i].Waiting? && s.holder.None?
      && s' == s.(holder := Some(i), threads := s.threads[i := Holding(s.threads[i].key)])
    case Hit(i, origin) =>
      && i < |s.threads| && s.threads[i].Holding? && Usable(s.tokens, s.threads[i].key, s.now)
      && Origin(s, s.threads[i].key, origin)
      && s' == s.(holder := None, threads := s.threads[i := Idle],
                  served := s.served + [Served(s.threads[i].key, s.tokens[s.threads[i].key].value, s.now, origin)])
    case Send(i) =>
      && i < |s.threads| && s.threads[i].Holding? && !Usable(s.tokens, s.threads[i].key, s.now)
      && s' == s.(threads := s.threads[i := Fetching(s.threads[i].key, s.now)],
                  sent := s.sent + [Sent(s.threads[i].key, s.now, |s.fetched|)])
    case Fail(i) =>
      i < |s.threads| && s.threads[i].Fetching? && s' == s.(holder := None, threads := s.threads[i := Idle])
    case Store(i, doc, decoded, prune) =>
      && i < |s.threads| && s.threads[i].Fetching? && s.threads[i].start <= decoded <= prune <= s.now
      && TokenValue(doc) != ""
      && var key := s.threads[i].key;
         s' == s.(holder := None, threads := s.threads[i := Idle],
                  tokens := Stored(s.tokens, key, TokenValue(doc), Lifetime(doc, decoded), prune, s.now),
                  fetched := s.fetched + [Fetched(key, doc, decoded, s.now)],
                  resets := s.resets + if Lifetime(doc, decoded) > 0 && Resets(s.tokens, prune) then [prune] else [])
  }

  /** The cached token under key is the one fetch number `origin` stored. */
  ghost predicate Origin(s: State, key: string, origin: nat)
    requires key in s.tokens
  {
    && origin < |s.fetched|
    && var f := s.fetched[origin];
       f.key == key && LifetimeOf(f) > 0 && s.tokens[key] == CachedToken(TokenValue(f.doc), f.stored + LifetimeOf(f))
  }

  ghost predicate Initial(s: State) {
    && s.holder.None? && s.tokens == map[] && s.fetched == [] && s.sent == [] && s.served == [] && s.resets == []
    && forall i :: 0 <= i < |s.threads| ==> s.threads[i].Idle?
  }

  // ---------- the invariant ----------

  predicate Inside(t: Thread) { t.Holding? || t.Fetching? }

  /** The mutex: exactly its holder is inside. */
  ghost predicate Exclusive(s: State) {
    && (s.holder.Some? ==> s.holder.value < |s.threads|)
    && forall i :: 0 <= i < |s.threads| ==> (Inside(s.threads[i]) <==> s.holder == Some(i))
  }

  ghost predicate ResetBetween(resets: seq<int>, a: int, b: int) {
    exists r :: r in resets && a <= r <= b
  }

  /** By the time `at` the fetched token had lived out its lifetime, or the map had been reset since. */
  ghost predicate Spent(resets: seq<int>, f: Fetched, at: int) {
    LifetimeOf(f) <= 0 || at >= f.stored + LifetimeOf(f) || ResetBetween(resets, f.stored, at)
  }

  /** The token is still cached, for at least its own lifetime. */
  predicate Kept(tokens: map<string, CachedToken>, f: Fetched) {
    f.key in tokens && tokens[f.key].expires >= f.stored + LifetimeOf(f)
  }

  ghost predicate TokensKept(s: State) {
    forall i :: 0 <= i < |s.fetched| ==>
      s.fetched[i].stored <= s.now && (Spent(s.resets, s.fetched[i], s.now) || Kept(s.tokens, s.fetched[i]))
  }

  /** A request is only sent once every earlier token for its key is spent. */
  ghost predicate SendsSpent(s: State) {
    forall j :: 0 <= j < |s.sent| ==>
      && s.sent[j].before <= |s.fetched|
      && forall i :: 0 <= i < s.sent[j].before && s.fetched[i].key == s.sent[j].key ==>
           Spent(s.resets, s.fetched[i], s.sent[j].at)
  }

  /** While a thread fetches, nothing has been stored since it started, and its key's tokens are spent. */
  ghost predicate FetchesSpent(s: State) {
    forall t :: 0 <= t < |s.threads| && s.threads[t].Fetching? ==>
      && s.threads[t].start <= s.now
      && forall i :: 0 <= i < |s.fetched| ==>
           && s.fetched[i].stored <= s.threads[t].start
           && (s.fetched[i].key == s.threads[t].key ==> Spent(s.resets, s.fetched[i], s.threads[t].start))
  }

  ghost predicate TokensHaveOrigin(s: State) {
    forall k :: k in s.tokens ==> exists o: nat :: Origin(s, k, o)
  }

  /** A token served from the cache is one fetched, within its lifetime. */
  ghost predicate ServedInTime(s: State) {
    forall j :: 0 <= j < |s.served| ==> InTime(s.served[j], s.fetched)
  }

  ghost predicate InTime(v: Served, fetched: seq<Fetched>) {
    && v.origin < |fetched|
    && var f := fetched[v.origin];
       f.key == v.key && TokenValue(f.doc) == v.value && LifetimeOf(f) > 0 && v.at < f.stored + LifetimeOf(f)
  }

  ghost predicate Inv(s: State) {
    && Exclusive(s) && |s.tokens| <= MAX_TOKENS && TokensKept(s) && SendsSpent(s) && FetchesSpent(s)
    && TokensHaveOrigin(s) && ServedInTime(s)
  }

  // ---------- each step keeps it ----------

  lemma {:induction false} SpentLasts(resets: seq<int>, more: seq<int>, f: Fetched, at: int, later: int)
    requires Spent(resets, f, at) && at <= later
    ensures Spent(resets + more, f, later)
  {
    hide Lifetime;
    if ResetBetween(resets, f.stored, at) {
      var r :| r in resets && f.stored <= r <= at;
      assert r in resets + more;
    }
  }

  lemma {:induction false} MutexStep(s: State, step: Step, s': State)
    requires Exclusive(s) && Next(s, step, s')
    ensures Exclusive(s')
  {
    hide Lifetime, Stored, Usable, Origin, Resets;
  }

  lemma {:induction false} TickKeeps(s: State, d: nat)
    requires Inv(s)
    ensures Inv(s.(now := s.now + d))
  {
    hide Spent, Kept, InTime, Exclusive;
    var s' := s.(now := s.now + d);
    assert Exclusive(s') by { MutexStep(s, Tick(d), s'); }
    forall i | 0 <= i < |s.fetched| && Spent(s.resets, s.fetched[i], s.now) ensures Spent(s.resets, s.fetched[i], s'.now) {
      SpentLasts(s.resets, [], s.fetched[i], s.now, s'.now);
      assert s.resets + [] == s.resets;
    }
    forall k | k in s'.tokens ensures exists o: nat :: Origin(s', k, o) {
      var o: nat :| Origin(s, k, o);
      assert Origin(s', k, o);
    }
  }

  /** A step that leaves clock, tokens, fetches and resets alone keeps what is said of them. */
  lemma {:induction false} QuietKeepsTokens(s: State, s': State)
    requires s'.now == s.now && s'.tokens == s.tokens && s'.fetched == s.fetched && s'.resets == s.resets
    requires TokensKept(s) && TokensHaveOrigin(s)
    ensures TokensKept(s') && TokensHaveOrigin(s')
  {
    hide Spent, Kept, Lifetime;
    forall k | k in s'.tokens ensures exists o: nat :: Origin(s', k, o) {
      var o: nat :| Origin(s, k, o);
      assert Origin(s', k, o);
    }
  }

  /** At the moment of a miss, every token fetched for the key is spent. */
  lemma {:induction false} MissMeansSpent(s: State, key: string, i: nat)
    requires TokensKept(s) && !Usable(s.tokens, key, s.now) && i < |s.fetched| && s.fetched[i].key == key
    ensures Spent(s.resets, s.fetched[i], s.now)
  {
    hide Lifetime, ResetBetween;
  }

  lemma {:induction false} SendKeeps(s: State, i: nat, s': State)
    requires Inv(s) && Next(s, Send(i), s')
    ensures SendsSpent(s') && FetchesSpent(s')
  {
    hide Spent, Lifetime, Kept, Usable, TokensHaveOrigin, ServedInTime, Exclusive;
    var key := s.threads[i].key;
    forall k | 0 <= k < |s.fetched| && s.fetched[k].key == key ensures Spent(s.resets, s.fetched[k], s.now) {
      MissMeansSpent(s, key, k);
    }
  }

  lemma {:induction false} HitKeeps(s: State, i: nat, origin: nat, s': State)
    requires Inv(s) && Next(s, Hit(i, origin), s')
    ensures ServedInTime(s')
  {
    hide Lifetime, TokensKept, SendsSpent, FetchesSpent, Exclusive, TokensHaveOrigin;
    var j := |s.served|;
    assert InTime(s'.served[j], s.fetched);
  }

  lemma {:induction false} QuietStepKeeps(s: State, step: Step, s': State)
    requires Inv(s) && Next(s, step, s') && (step.Ask? || step.Lock? || step.Hit? || step.Send? || step.Fail?)
    ensures Inv(s')
  {
    hide Spent, Lifetime, Kept, Usable, InTime, Origin, TokensKept, TokensHaveOrigin, Exclusive;
    MutexStep(s, step, s');
    QuietKeepsTokens(s, s');
    if step.Send? { SendKeeps(s, step.i, s'); }
    if step.Hit? { HitKeeps(s, step.i, step.origin, s'); }
  }

  /** Storing one token: an earlier one is still kept, or spent, or was dropped by pruning when spent
      or by the reset just noted. */
  lemma {:induction false} StoreKeepsEarlier(tokens: map<string, CachedToken>, resets: seq<int>, f: Fetched, key: string,
                                             value: string, lifetime: int, start: int, prune: int, now: int)
    requires f.stored <= start <= prune <= now
    requires Spent(resets, f, now) || Kept(tokens, f)
    requires f.key == key ==> Spent(resets, f, start)
    ensures var resets' := resets + if lifetime > 0 && Resets(tokens, prune) then [prune] else [];
            Spent(resets', f, now) || Kept(Stored(tokens, key, value, lifetime, prune, now), f)
  {
    hide Lifetime;
    var more := if lifetime > 0 && Resets(tokens, prune) then [prune] else [];
    if Spent(resets, f, now) {
      SpentLasts(resets, more, f, now, now);
    } else if f.key == key {
      SpentLasts(resets, more, f, start, now);
    } else if more != [] {
      assert prune in resets + more;
      assert ResetBetween(resets + more, f.stored, now);
    }
  }

  lemma {:induction false} StoreKeepsTokens(s: State, step: Step, s': State)
    requires Inv(s) && step.Store? && Next(s, step, s')
    ensures TokensKept(s')
  {
    hide Spent, Lifetime, Kept, Resets, Stored, SendsSpent, TokensHaveOrigin, ServedInTime, Exclusive, TokenValue;
    var t := s.threads[step.i];
    forall k | 0 <= k < |s'.fetched|
      ensures s'.fetched[k].stored <= s'.now && (Spent(s'.resets, s'.fetched[k], s'.now) || Kept(s'.tokens, s'.fetched[k]))
    {
      if k < |s.fetched| {
        assert s'.fetched[k] == s.fetched[k];
        StoreKeepsEarlier(s.tokens, s.resets, s.fetched[k], t.key, TokenValue(step.doc), Lifetime(step.doc, step.decoded),
                          t.start, step.prune, s.now);
      } else {
        NewIsKept(s.tokens, s'.resets, s'.fetched[k], step.prune);
      }
    }
  }

  lemma {:induction false} NewIsKept(tokens: map<string, CachedToken>, resets: seq<int>, f: Fetched, prune: int)
    ensures Spent(resets, f, f.stored)
            || Kept(Stored(tokens, f.key, TokenValue(f.doc), LifetimeOf(f), prune, f.stored), f)
  {
    hide Lifetime, Pruned, ResetBetween;
  }

  lemma {:induction false} StoreKeepsOrigins(s: State, step: Step, s': State)
    requires Inv(s) && step.Store? && Next(s, step, s')
    ensures TokensHaveOrigin(s')
  {
    hide Lifetime, SendsSpent, TokensKept, FetchesSpent, ServedInTime, Exclusive, TokenValue;
    forall k | k in s'.tokens ensures exists o: nat :: Origin(s', k, o) {
      if Lifetime(step.doc, step.decoded) > 0 && k == s.threads[step.i].key {
        assert s'.fetched[|s.fetched|] == Fetched(k, step.doc, step.decoded, s.now);
        assert Origin(s', k, |s.fetched|);
      } else {
        assert k in s.tokens && s'.tokens[k] == s.tokens[k];
        var o: nat :| Origin(s, k, o);
        assert s'.fetched[o] == s.fetched[o];
        assert Origin(s', k, o);
      }
    }
  }

  lemma {:induction false} StoreKeepsSends(s: State, step: Step, s': State)
    requires Inv(s) && step.Store? && Next(s, step, s')
    ensures SendsSpent(s') && FetchesSpent(s') && ServedInTime(s')
  {
    hide Spent, Lifetime, Stored, TokensKept, TokensHaveOrigin, TokenValue, Resets;
    var more := if Lifetime(step.doc, step.decoded) > 0 && Resets(s.tokens, step.prune) then [step.prune] else [];
    forall j, k | 0 <= j < |s'.sent| && 0 <= k < s'.sent[j].before && s'.fetched[k].key == s'.sent[j].key
      ensures Spent(s'.resets, s'.fetched[k], s'.sent[j].at)
    {
      assert s'.fetched[k] == s.fetched[k];
      SpentLasts(s.resets, more, s.fetched[k], s.sent[j].at, s.sent[j].at);
    }
    forall j | 0 <= j < |s'.served| ensures InTime(s'.served[j], s'.fetched) {
      assert InTime(s.served[j], s.fetched);
    }
  }

  lemma {:induction false} StoreKeeps(s: State, step: Step, s': State)
    requires Inv(s) && step.Store? && Next(s, step, s')
    ensures Inv(s')
  {
    hide Exclusive, TokensKept, SendsSpent, FetchesSpent, TokensHaveOrigin, ServedInTime, Lifetime, Stored, Resets;
    MutexStep(s, step, s');
    StoreKeepsTokens(s, step, s');
    StoreKeepsOrigins(s, step, s');
    StoreKeepsSends(s, step, s');
    StoredIsBounded(s.tokens, s.threads[step.i].key, TokenValue(step.doc), Lifetime(step.doc, step.decoded), step.prune, s.now);
  }

  lemma {:induction false} StepKeepsInv(s: State, step: Step, s': State)
    requires Inv(s) && Next(s, step, s')
    ensures Inv(s') && s.now <= s'.now
  {
    hide Inv;
    match step
    case Tick(d) => TickKeeps(s, d);
    case Store(_, _, _, _) => StoreKeeps(s, step, s');
    case _ => QuietStepKeeps(s, step, s');
  }

  /** The mutex never wedges: while any caller is waiting or inside, some thread can take a step. */
  lemma {:induction false} SomeThreadCanMove(s: State, t: nat) returns (step: Step, s': State)
    requires Inv(s) && t < |s.threads| && !s.threads[t].Idle?
    ensures Next(s, step, s') && !step.Tick?
  {
    hide Spent, Kept, InTime, TokensKept, SendsSpent, FetchesSpent, ServedInTime, Lifetime, Stored, Resets;
    if s.holder.None? {
      assert !Inside(s.threads[t]);
      step, s' := Lock(t), s.(holder := Some(t), threads := s.threads[t := Holding(s.threads[t].key)]);
    } else {
      var i := s.holder.value;
      assert Inside(s.threads[i]);
      if s.threads[i].Fetching? {
        step, s' := Fail(i), s.(holder := None, threads := s.threads[i := Idle]);
      } else {
        var key := s.threads[i].key;
        if Usable(s.tokens, key, s.now) {
          var o: nat :| Origin(s, key, o);
          step := Hit(i, o);
          s' := s.(holder := None, threads := s.threads[i := Idle],
                   served := s.served + [Served(key, s.tokens[key].value, s.now, o)]);
        } else {
          step := Send(i);
          s' := s.(threads := s.threads[i := Fetching(key, s.now)], sent := s.sent + [Sent(key, s.now, |s.fetched|)]);
        }
      }
    }
  }

  // ---------- over every run ----------

  ghost predicate Run(states: seq<State>, steps: seq<Step>) {
    && |states| == |steps| + 1 && Initial(states[0])
    && forall i :: 0 <= i < |steps| ==> Next(states[i], steps[i], states[i + 1])
  }

  lemma {:induction false} InitialInv(s: State)
    requires Initial(s)
    ensures Inv(s)
  {
    hide Spent, Kept, InTime, Origin;
  }

  lemma {:induction false} RunKeepsInv(states: seq<State>, steps: seq<Step>, i: nat)
    requires Run(states, steps) && i <= |steps|
    ensures Inv(states[i])
  {
    hide Inv, Next, Initial;
    if i == 0 {
      InitialInv(states[0]);
    } else {
      RunKeepsInv(states, steps, i - 1);
      StepKeepsInv(states[i - 1], steps[i - 1], states[i]);
    }
  }

  /** At any time at most one token request is under way, and the map never exceeds 256 tokens. */
  lemma {:induction false} AtMostOneRequest(states: seq<State>, steps: seq<Step>, i: nat)
    requires Run(states, steps) && i <= |steps|
    ensures |states[i].tokens| <= 256
    ensures var threads := states[i].threads;
            forall t, u :: 0 <= t < u < |threads| ==> !threads[t].Fetching? || !threads[u].Fetching?
  {
    hide TokensKept, SendsSpent, FetchesSpent, TokensHaveOrigin, ServedInTime;
    RunKeepsInv(states, steps, i);
  }

  /** When a cached token goes: ten seconds before its document has it expire, and as much later as it took
      from decoding the document to storing the token. */
  function CachedUntil(f: Fetched): int { Expiry(f.doc, f.decoded) - 10_000_000_000 + (f.stored - f.decoded) }

  /** A token is cached, until then, whenever its document leaves any time at all. */
  lemma {:induction false} StoredWhenTimeIsLeft(s: State, step: Step, s': State)
    requires Next(s, step, s') && step.Store?
    ensures var f, key := s'.fetched[|s'.fetched| - 1], s.threads[step.i].key;
            && f.key == key && f.doc == step.doc && f.decoded == step.decoded && f.stored == s.now
            && (if f.stored < CachedUntil(f)
                then key in s'.tokens && s'.tokens[key].expires == CachedUntil(f)
                     && s'.tokens[key].value == if f.doc.token != "" then f.doc.token else f.doc.accessToken
                else s'.tokens == s.tokens)
  {
    hide Lifetime, Pruned, Expiry;
    LifetimeEndsBeforeExpiry(step.doc, step.decoded);
  }

  /** The map is only ever reset when 256 tokens or more are still unexpired; otherwise storing a token
      forgets none that is. */
  lemma {:induction false} ResetOnlyWhenFull(s: State, step: Step, s': State)
    requires Next(s, step, s') && step.Store?
    ensures s'.resets != s.resets ==> |Unexpired(s.tokens, step.prune)| >= 256
    ensures s'.resets == s.resets ==>
              forall k :: k in s.tokens && step.prune < s.tokens[k].expires ==> k in s'.tokens
  {
    hide Lifetime;
  }

  /** No request for a key is sent while a token already fetched for it is to be cached, unless the map was
      reset in between. */
  lemma {:induction false} NoRefetchWithinLifetime(states: seq<State>, steps: seq<Step>, i: nat, j: nat, k: nat)
    requires Run(states, steps) && i <= |steps| && j < |states[i].sent| && k < |states[i].fetched|
    requires var sent, f := states[i].sent[j], states[i].fetched[k];
             k < sent.before && f.key == sent.key && f.stored < CachedUntil(f) && sent.at < CachedUntil(f)
    ensures ResetBetween(states[i].resets, states[i].fetched[k].stored, states[i].sent[j].at)
  {
    hide Exclusive, TokensKept, FetchesSpent, TokensHaveOrigin, ServedInTime, Lifetime, Expiry;
    RunKeepsInv(states, steps, i);
    LifetimeEndsBeforeExpiry(states[i].fetched[k].doc, states[i].fetched[k].decoded);
  }

  /** A token served from the cache at time t is before its document's expiry less ten seconds, up to the
      delay between decoding and storing it; a delay within those never presents an expired token. */
  lemma {:induction false} ServedBeforeExpiry(states: seq<State>, steps: seq<Step>, i: nat, j: nat)
    requires Run(states, steps) && i <= |steps| && j < |states[i].served|
    ensures var v := states[i].served[j];
            v.origin < |states[i].fetched| &&
            var f := states[i].fetched[v.origin];
            && f.key == v.key && v.value == (if f.doc.token != "" then f.doc.token else f.doc.accessToken)
            && v.at < Expiry(f.doc, f.decoded) - 10_000_000_000 + (f.stored - f.decoded)
            && (f.stored - f.decoded <= 10_000_000_000 ==> v.at < Expiry(f.doc, f.decoded))
  {
    hide Exclusive, TokensKept, SendsSpent, FetchesSpent, TokensHaveOrigin, Lifetime, Expiry;
    RunKeepsInv(states, steps, i);
    var v := states[i].served[j];
    assert InTime(v, states[i].fetched);
    LifetimeEndsBeforeExpiry(states[i].fetched[v.origin].doc, states[i].fetched[v.origin].decoded);
  }
}
