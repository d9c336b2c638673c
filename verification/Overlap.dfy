/** Calls on one client that overlap: fetches under way while a delete invalidates the cache
    (client.go, fetchManifest and its likes, DeleteManifest). The cache is any TTL map that may drop
    entries at any time; CacheRuns shows the bounded cache to be one. */
module Overlap {
  import TtlCache

  /** A caller: at rest, or at a fetch filed under `repo` since step `begun`, until its reply is returned. */
  datatype Caller = Idle | Fetching(repo: string, begun: nat)

  /** A reply in the cache: the steps at which its fetch began and it was stored, and when it expires. */
  datatype Entry = Entry(repo: string, begun: nat, stored: nat, expires: int)

  /** A reply given to a caller at step `step`: from the cache, or straight from its own fetch. */
  datatype Served = Served(step: nat, now: int, from: Entry, cached: bool)

  /** A delete that succeeded and invalidated its repository at step `step`, and the fetches in its scope
      that were under way then, by the steps at which they began. */
  datatype Deleted = Deleted(repo: string, step: nat, underWay: set<nat>)

  datatype State = State(
    step: nat,
    now: int,
    callers: seq<Caller>,
    entries: map<string, Entry>,
    served: seq<Served>,
    deleted: seq<Deleted>)

  /** A delete in `repo` touches what is filed under that repository or the whole registry. */
  predicate Touches(repo: string, scope: string) { scope == repo || scope == TtlCache.GLOBAL }

  function UnderWay(callers: seq<Caller>, repo: string): set<nat> {
    set c | c in callers && c.Fetching? && Touches(repo, c.repo) :: c.begun
  }

  function Left(entries: map<string, Entry>, repo: string): map<string, Entry> {
    map k | k in entries && !Touches(repo, entries[k].repo) :: entries[k]
  }

  datatype Step =
    | Tick(d: nat)
    | Hit(i: nat, key: string)
    | Begin(i: nat, repo: string)
    | Store(i: nat, key: string, ttl: nat)
    | Return(i: nat)
    | Fail(i: nat)
    | Invalidate(repo: string)
    | Drop(key: string)

  /** One step. A fetch may store its reply under any keys, each for a time of its own, before it returns. */
  ghost predicate Next(s: State, step: Step, s': State) {
    match step
    case Tick(d) => s' == s.(step := s.step + 1, now := s.now + d)
    case Hit(i, key) =>
      && i < |s.callers| && s.callers[i].Idle? && key in s.entries && s.now < s.entries[key].expires
      && s' == s.(step := s.step + 1, served := s.served + [Served(s.step, s.now, s.entries[key], true)])
    case Begin(i, repo) =>
      && i < |s.callers| && s.callers[i].Idle?
      && s' == s.(step := s.step + 1, callers := s.callers[i := Fetching(repo, s.step)])
    case Store(i, key, ttl) =>
      && i < |s.callers| && s.callers[i].Fetching?
      && s' == s.(step := s.step + 1, entries := s.entries[key := Fetch(s, i, ttl)])
    case Return(i) =>
      && i < |s.callers| && s.callers[i].Fetching?
      && s' == s.(step := s.step + 1, callers := s.callers[i := Idle],
                  served := s.served + [Served(s.step, s.now, Fetch(s, i, 0), false)])
    case Fail(i) =>
      i < |s.callers| && s.callers[i].Fetching? && s' == s.(step := s.step + 1, callers := s.callers[i := Idle])
    case Invalidate(repo) =>
      s' == s.(step := s.step + 1, entries := Left(s.entries, repo),
               deleted := s.deleted + [Deleted(repo, s.step, UnderWay(s.callers, repo))])
    case Drop(key) => s' == s.(step := s.step + 1, entries := s.entries - {key})
  }

  /** The reply of a fetch as it would be stored now. */
  function Fetch(s: State, i: nat, ttl: nat): Entry
    requires i < |s.callers| && s.callers[i].Fetching?
  {
    Entry(s.callers[i].repo, s.callers[i].begun, s.step, s.now + ttl)
  }

  // ---------- the invariant ----------

  /** A fetch begun after the delete, or one that was under way when it invalidated. */
  predicate AfterOrAcross(d: Deleted, scope: string, begun: nat) {
    Touches(d.repo, scope) ==> d.step < begun || begun in d.underWay
  }

  ghost predicate CallersKnown(s: State) {
    forall i, j :: 0 <= i < |s.callers| && 0 <= j < |s.deleted| && s.callers[i].Fetching? ==>
      AfterOrAcross(s.deleted[j], s.callers[i].repo, s.callers[i].begun)
  }

  /** What the cache holds was stored after every delete that touches it. */
  predicate StoredAfter(d: Deleted, e: Entry) {
    AfterOrAcross(d, e.repo, e.begun) && (Touches(d.repo, e.repo) ==> d.step < e.stored)
  }

  ghost predicate EntriesKnown(s: State) {
    forall k, j :: k in s.entries && 0 <= j < |s.deleted| ==> StoredAfter(s.deleted[j], s.entries[k])
  }

  ghost predicate ServedKnown(s: State) {
    forall v, j :: 0 <= v < |s.served| && 0 <= j < |s.deleted| ==> ServedRight(s.served[v], s.deleted[j])
  }

  /** A reply served after a delete that touches it: its fetch began after the delete, or was under way
      when the delete invalidated, came in after that, and if cached has not expired. */
  predicate ServedRight(v: Served, d: Deleted) {
    Touches(d.repo, v.from.repo) && d.step < v.step ==>
      || d.step < v.from.begun
      || (v.from.begun in d.underWay && d.step < v.from.stored && (v.cached ==> v.now < v.from.expires))
  }

  ghost predicate InThePast(s: State) {
    && (forall v :: 0 <= v < |s.served| ==> s.served[v].step < s.step)
    && (forall j :: 0 <= j < |s.deleted| ==> s.deleted[j].step < s.step)
  }

  ghost predicate Inv(s: State) { CallersKnown(s) && EntriesKnown(s) && ServedKnown(s) && InThePast(s) }

  lemma {:induction false} HitKeeps(s: State, i: nat, key: string, s': State)
    requires Inv(s) && Next(s, Hit(i, key), s')
    ensures Inv(s')
  {
    forall j | 0 <= j < |s.deleted| ensures ServedRight(Served(s.step, s.now, s.entries[key], true), s.deleted[j]) {
      assert StoredAfter(s.deleted[j], s.entries[key]);
    }
  }

  /** Whatever is stored or returned from a fetch now comes after every delete so far. */
  lemma {:induction false} FetchIsAfter(s: State, i: nat, ttl: nat)
    requires Inv(s) && i < |s.callers| && s.callers[i].Fetching?
    ensures forall j :: 0 <= j < |s.deleted| ==> StoredAfter(s.deleted[j], Fetch(s, i, ttl))
  {
    forall j | 0 <= j < |s.deleted| ensures StoredAfter(s.deleted[j], Fetch(s, i, ttl)) {
      assert AfterOrAcross(s.deleted[j], s.callers[i].repo, s.callers[i].begun);
    }
  }

  lemma {:induction false} StoreKeeps(s: State, i: nat, key: string, ttl: nat, s': State)
    requires Inv(s) && Next(s, Store(i, key, ttl), s')
    ensures Inv(s')
  {
    hide StoredAfter, AfterOrAcross, ServedRight;
    FetchIsAfter(s, i, ttl);
  }

  lemma {:induction false} ReturnKeeps(s: State, i: nat, s': State)
    requires Inv(s) && Next(s, Return(i), s')
    ensures Inv(s')
  {
    hide AfterOrAcross;
    FetchIsAfter(s, i, 0);
    forall j | 0 <= j < |s.deleted| ensures ServedRight(Served(s.step, s.now, Fetch(s, i, 0), false), s.deleted[j]) {
      assert StoredAfter(s.deleted[j], Fetch(s, i, 0));
      FetchIsRight(s, i, s.deleted[j]);
    }
  }

  lemma {:induction false} FetchIsRight(s: State, i: nat, d: Deleted)
    requires i < |s.callers| && s.callers[i].Fetching? && StoredAfter(d, Fetch(s, i, 0))
    ensures ServedRight(Served(s.step, s.now, Fetch(s, i, 0), false), d)
  {}

  lemma {:induction false} InvalidateKeeps(s: State, repo: string, s': State)
    requires Inv(s) && Next(s, Invalidate(repo), s')
    ensures Inv(s')
  {
    var d := Deleted(repo, s.step, UnderWay(s.callers, repo));
    forall i | 0 <= i < |s.callers| && s.callers[i].Fetching?
      ensures AfterOrAcross(d, s.callers[i].repo, s.callers[i].begun)
    {
      assert s.callers[i] in s.callers;
    }
  }

  lemma {:induction false} BeginKeeps(s: State, i: nat, repo: string, s': State)
    requires Inv(s) && Next(s, Begin(i, repo), s')
    ensures Inv(s')
  {
    forall j | 0 <= j < |s.deleted| ensures AfterOrAcross(s.deleted[j], repo, s.step) {}
  }

  lemma {:induction false} StepKeepsInv(s: State, step: Step, s': State)
    requires Inv(s) && Next(s, step, s')
    ensures Inv(s')
  {
    hide AfterOrAcross, ServedRight, StoredAfter, UnderWay, Left;
    match step
    case Hit(i, key) => HitKeeps(s, i, key, s');
    case Begin(i, repo) => BeginKeeps(s, i, repo, s');
    case Store(i, key, ttl) => StoreKeeps(s, i, key, ttl, s');
    case Return(i) => ReturnKeeps(s, i, s');
    case Invalidate(repo) => InvalidateKeeps(s, repo, s');
    case _ =>
  }

  // ---------- over every run ----------

  ghost predicate Initial(s: State) {
    && s.entries == map[] && s.served == [] && s.deleted == []
    && forall i :: 0 <= i < |s.callers| ==> s.callers[i].Idle?
  }

  ghost predicate Run(states: seq<State>, steps: seq<Step>) {
    && |states| == |steps| + 1 && Initial(states[0])
    && forall i :: 0 <= i < |steps| ==> Next(states[i], steps[i], states[i + 1])
  }

  lemma {:induction false} RunKeepsInv(states: seq<State>, steps: seq<Step>, i: nat)
    requires Run(states, steps) && i <= |steps|
    ensures Inv(states[i])
  {
    hide Next;
    if i > 0 {
      hide Inv;
      RunKeepsInv(states, steps, i - 1);
      StepKeepsInv(states[i - 1], steps[i - 1], states[i]);
    }
  }

  /** However calls overlap: a reply served after a delete invalidated its scope was fetched after it,
      unless its fetch was under way at that moment; and from the cache such a reply is only served until
      it expires. So if none was under way, nothing from before the delete is ever served again. */
  lemma {:induction false} ServedAfterDelete(states: seq<State>, steps: seq<Step>, i: nat, v: nat, j: nat)
    requires Run(states, steps) && i <= |steps| && v < |states[i].served| && j < |states[i].deleted|
    requires var r, d := states[i].served[v], states[i].deleted[j]; Touches(d.repo, r.from.repo) && d.step < r.step
    ensures var r, d := states[i].served[v], states[i].deleted[j];
            && (|| d.step < r.from.begun
                || (r.from.begun in d.underWay && d.step < r.from.stored && (r.cached ==> r.now < r.from.expires)))
            && (d.underWay == {} ==> d.step < r.from.begun)
  {
    hide Next, Touches, CallersKnown, EntriesKnown, InThePast;
    RunKeepsInv(states, steps, i);
    assert ServedRight(states[i].served[v], states[i].deleted[j]);
  }

  /** The exception is real: whenever a fetch in its scope is under way, a delete can invalidate before the
      fetch stores its reply, after which the old reply is returned, and served again from the cache. */
  lemma {:induction false} UnderWayOutlivesDelete(s: State, i: nat, repo: string, key: string, ttl: nat)
    returns (a: State, b: State, c: State, d: State)
    requires i < |s.callers| && s.callers[i].Fetching? && Touches(repo, s.callers[i].repo)
    requires s.callers[i].begun < s.step && ttl > 0
    ensures Next(s, Invalidate(repo), a) && Next(a, Store(i, key, ttl), b) && Next(b, Return(i), c) && Next(c, Hit(i, key), d)
    ensures |d.deleted| > 0 && |d.served| > 1
    ensures var gone := d.deleted[|d.deleted| - 1];
            && gone.repo == repo
            && forall r :: r in d.served[|d.served| - 2..] ==>
                 gone.step < r.step && r.from.begun < gone.step && r.from.begun in gone.underWay
  {
    hide Left;
    var gone := Deleted(repo, s.step, UnderWay(s.callers, repo));
    a := s.(step := s.step + 1, entries := Left(s.entries, repo), deleted := s.deleted + [gone]);
    b := a.(step := a.step + 1, entries := a.entries[key := Fetch(a, i, ttl)]);
    var first := Served(b.step, b.now, Fetch(b, i, 0), false);
    c := b.(step := b.step + 1, callers := b.callers[i := Idle], served := b.served + [first]);
    var second := Served(c.step, c.now, c.entries[key], true);
    d := c.(step := c.step + 1, served := c.served + [second]);
    assert s.callers[i] in s.callers;
    assert d.served[|d.served| - 2..] == [first, second];
  }
}
