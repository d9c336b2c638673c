/** Many callers of the catalog index at once: they take turns at the lock of a registry's slot, which is
    held across the walk (server/catalog.go, List, Invalidate). Every interleaving, any registry. */
module IndexBurst {
  import opened Options

  /** A caller of List: elsewhere, at the lock, holding it, or holding it while it walks the catalog. */
  datatype Caller = Idle | Waiting | Holding | Walking

  /** What happened to the slot, in order. A walk that ends sets the slot's time unless it failed while
      there was a list to fall back on. */
  datatype Event = Began(at: int) | Ended(at: int, stamped: bool) | Invalidated

  /** The slot's time and whether it holds a list that is not nil, with the lock and the clock. */
  datatype State = State(
    now: int,
    holder: Option<nat>,
    callers: seq<Caller>,
    at: Option<int>,
    held: bool,
    log: seq<Event>)

  datatype Step =
    | Tick(d: nat)
    | Ask(i: nat)
    | Lock(i: nat)
    | Fresh(i: nat)
    | Begin(i: nat)
    | Listed(i: nat, nonEmpty: bool)
    | Failed(i: nat)
    | Invalidate

  predicate IsFresh(s: State, ttl: int) { s.at.Some? && s.now - s.at.value < ttl }

  ghost predicate Next(ttl: int, s: State, step: Step, s': State) {
    match step
    case Tick(d) => s' == s.(now := s.now + d)
    case Ask(i) => i < |s.callers| && s.callers[i].Idle? && s' == s.(callers := s.callers[i := Waiting])
    case Lock(i) =>
      && i < |s.callers| && s.callers[i].Waiting? && s.holder.None?
      && s' == s.(holder := Some(i), callers := s.callers[i := Holding])
    case Fresh(i) =>
      && i < |s.callers| && s.callers[i].Holding? && IsFresh(s, ttl)
      && s' == s.(holder := None, callers := s.callers[i := Idle])
    case Begin(i) =>
      && i < |s.callers| && s.callers[i].Holding? && !IsFresh(s, ttl)
      && s' == s.(callers := s.callers[i := Walking], log := s.log + [Began(s.now)])
    case Listed(i, nonEmpty) =>
      && i < |s.callers| && s.callers[i].Walking?
      && s' == s.(holder := None, callers := s.callers[i := Idle], at := Some(s.now), held := nonEmpty,
                  log := s.log + [Ended(s.now, true)])
    case Failed(i) =>
      && i < |s.callers| && s.callers[i].Walking?
      && s' == s.(holder := None, callers := s.callers[i := Idle], at := if s.held then s.at else Some(s.now),
                  log := s.log + [Ended(s.now, !s.held)])
    case Invalidate => s.holder.None? && s' == s.(at := None, log := s.log + [Invalidated])
  }

  // ---------- the invariant ----------

  predicate Inside(c: Caller) { c.Holding? || c.Walking? }

  /** The lock: exactly its holder is inside. */
  ghost predicate Exclusive(s: State) {
    && (s.holder.Some? ==> s.holder.value < |s.callers|)
    && forall i :: 0 <= i < |s.callers| ==> (Inside(s.callers[i]) <==> s.holder == Some(i))
  }

  ghost predicate InvalidatedIn(log: seq<Event>, i: int, j: int) { exists k :: i < k < j && 0 <= k < |log| && log[k].Invalidated? }

  ghost predicate EndedIn(log: seq<Event>, i: int, j: int) { exists k :: i < k < j && 0 <= k < |log| && log[k].Ended? }

  /** The slot remembers every walk that set its time, unless it was invalidated since. */
  ghost predicate TimeKept(s: State) {
    forall i :: 0 <= i < |s.log| && s.log[i].Ended? && s.log[i].stamped ==>
      InvalidatedIn(s.log, i, |s.log|) || (s.at.Some? && s.at.value >= s.log[i].at)
  }

  /** Every walk begun is over, or some caller is walking. */
  ghost predicate WalksEnd(s: State) {
    forall i :: 0 <= i < |s.log| && s.log[i].Began? ==>
      EndedIn(s.log, i, |s.log|) || exists c :: 0 <= c < |s.callers| && s.callers[c].Walking?
  }

  /** A walk begins a ttl after any earlier one that set the slot's time, or after an invalidation. */
  ghost predicate Spaced(ttl: int, s: State) {
    forall i, j :: 0 <= i < j < |s.log| && s.log[i].Ended? && s.log[i].stamped && s.log[j].Began? ==>
      InvalidatedIn(s.log, i, j) || s.log[j].at >= s.log[i].at + ttl
  }

  /** Walks do not overlap. */
  ghost predicate Alternate(s: State) {
    forall i, j :: 0 <= i < j < |s.log| && s.log[i].Began? && s.log[j].Began? ==> EndedIn(s.log, i, j)
  }

  /** The log is in the order of the clock. */
  ghost predicate InOrder(s: State) {
    && (forall i :: 0 <= i < |s.log| && !s.log[i].Invalidated? ==> s.log[i].at <= s.now)
    && forall i, j :: 0 <= i < j < |s.log| && !s.log[i].Invalidated? && !s.log[j].Invalidated? ==> s.log[i].at <= s.log[j].at
  }

  ghost predicate Inv(ttl: int, s: State) {
    Exclusive(s) && TimeKept(s) && WalksEnd(s) && Spaced(ttl, s) && Alternate(s) && InOrder(s)
  }

  // ---------- each step keeps it ----------

  lemma {:induction false} LockKept(ttl: int, s: State, step: Step, s': State)
    requires Exclusive(s) && Next(ttl, s, step, s')
    ensures Exclusive(s')
  {}

  /** What lay between two events still does when the log has grown. */
  lemma {:induction false} BetweenLasts(log: seq<Event>, e: Event)
    ensures var log' := log + [e];
            && (forall i, j :: j <= |log| ==> (InvalidatedIn(log', i, j) <==> InvalidatedIn(log, i, j)))
            && (forall i, j :: j <= |log| ==> (EndedIn(log', i, j) <==> EndedIn(log, i, j)))
            && (forall i :: InvalidatedIn(log, i, |log|) ==> InvalidatedIn(log', i, |log'|))
            && (forall i :: EndedIn(log, i, |log|) ==> EndedIn(log', i, |log'|))
            && (e.Invalidated? ==> forall i :: i < |log| ==> InvalidatedIn(log', i, |log'|))
            && (e.Ended? ==> forall i :: i < |log| ==> EndedIn(log', i, |log'|))
  {
    var log' := log + [e];
    forall i, j | j <= |log|
      ensures InvalidatedIn(log', i, j) <==> InvalidatedIn(log, i, j)
      ensures EndedIn(log', i, j) <==> EndedIn(log, i, j)
    {
      assert forall k :: 0 <= k < j ==> log'[k] == log[k];
    }
    forall i
      ensures InvalidatedIn(log, i, |log|) ==> InvalidatedIn(log', i, |log'|)
      ensures EndedIn(log, i, |log|) ==> EndedIn(log', i, |log'|)
    {
      assert forall k :: 0 <= k < |log| ==> log'[k] == log[k];
    }
    assert log'[|log|] == e;
  }

  lemma {:induction false} QuietKeeps(ttl: int, s: State, step: Step, s': State)
    requires Inv(ttl, s) && Next(ttl, s, step, s') && s'.log == s.log
    ensures Inv(ttl, s')
  {
    hide InvalidatedIn, EndedIn;
    LockKept(ttl, s, step, s');
    if w :| 0 <= w < |s.callers| && s.callers[w].Walking? {
      assert s'.callers[w].Walking?;
    }
  }

  lemma {:induction false} BeginKeeps(ttl: int, s: State, i: nat, s': State)
    requires Inv(ttl, s) && Next(ttl, s, Begin(i), s')
    ensures Inv(ttl, s')
  {
    hide InvalidatedIn, EndedIn;
    LockKept(ttl, s, Begin(i), s');
    BetweenLasts(s.log, Began(s.now));
    assert s'.callers[i].Walking?;
    NobodyWalks(s, i);
  }

  lemma {:induction false} NobodyWalks(s: State, i: nat)
    requires Exclusive(s) && i < |s.callers| && s.callers[i].Holding?
    ensures forall c :: 0 <= c < |s.callers| ==> !s.callers[c].Walking?
  {}

  lemma {:induction false} EndKeeps(ttl: int, s: State, step: Step, s': State)
    requires Inv(ttl, s) && Next(ttl, s, step, s') && (step.Listed? || step.Failed?)
    ensures Inv(ttl, s')
  {
    hide InvalidatedIn, EndedIn;
    LockKept(ttl, s, step, s');
    BetweenLasts(s.log, s'.log[|s.log|]);
  }

  lemma {:induction false} InvalidateKeeps(ttl: int, s: State, s': State)
    requires Inv(ttl, s) && Next(ttl, s, Invalidate, s')
    ensures Inv(ttl, s')
  {
    hide InvalidatedIn, EndedIn;
    LockKept(ttl, s, Invalidate, s');
    BetweenLasts(s.log, Invalidated);
  }

  lemma {:induction false} StepKeepsInv(ttl: int, s: State, step: Step, s': State)
    requires Inv(ttl, s) && Next(ttl, s, step, s')
    ensures Inv(ttl, s')
  {
    hide Inv;
    match step
    case Begin(i) => BeginKeeps(ttl, s, i, s');
    case Listed(_, _) => EndKeeps(ttl, s, step, s');
    case Failed(_) => EndKeeps(ttl, s, step, s');
    case Invalidate => InvalidateKeeps(ttl, s, s');
    case _ => QuietKeeps(ttl, s, step, s');
  }

  // ---------- over every run ----------

  ghost predicate Initial(s: State) {
    s.holder.None? && s.at.None? && !s.held && s.log == [] && forall i :: 0 <= i < |s.callers| ==> s.callers[i].Idle?
  }

  ghost predicate Run(ttl: int, states: seq<State>, steps: seq<Step>) {
    && |states| == |steps| + 1 && Initial(states[0])
    && forall i :: 0 <= i < |steps| ==> Next(ttl, states[i], steps[i], states[i + 1])
  }

  lemma {:induction false} RunKeepsInv(ttl: int, states: seq<State>, steps: seq<Step>, i: nat)
    requires Run(ttl, states, steps) && i <= |steps|
    ensures Inv(ttl, states[i])
  {
    hide Next;
    if i > 0 {
      hide Inv;
      RunKeepsInv(ttl, states, steps, i - 1);
      StepKeepsInv(ttl, states[i - 1], steps[i - 1], states[i]);
    }
  }

  /** Walks of one slot never overlap, and after a walk that set the slot's time the next begins no earlier
      than a ttl later, unless the slot was invalidated in between. */
  lemma {:induction false} WalksAreSpaced(ttl: int, states: seq<State>, steps: seq<Step>, n: nat, i: nat, j: nat)
    requires Run(ttl, states, steps) && n <= |steps| && i < j < |states[n].log| && states[n].log[j].Began?
    ensures var log := states[n].log;
            && (log[i].Began? ==> EndedIn(log, i, j))
            && (log[i].Ended? && log[i].stamped ==> InvalidatedIn(log, i, j) || log[j].at >= log[i].at + ttl)
  {
    hide Next, TimeKept, WalksEnd, InOrder, Exclusive, Initial;
    RunKeepsInv(ttl, states, steps, n);
  }

  /** A burst of callers causes one walk: two walks begin at least a ttl apart, unless between them the
      slot was invalidated, or a walk failed while an older list was there to serve. */
  lemma {:induction false} OneWalkPerBurst(ttl: int, states: seq<State>, steps: seq<Step>, n: nat, i: nat, j: nat)
    requires Run(ttl, states, steps) && n <= |steps| && i < j < |states[n].log|
    requires states[n].log[i].Began? && states[n].log[j].Began?
    ensures var log := states[n].log;
            || log[j].at >= log[i].at + ttl
            || InvalidatedIn(log, i, j)
            || exists k :: i < k < j && log[k].Ended? && !log[k].stamped
  {
    hide Next, TimeKept, WalksEnd, Exclusive, Initial;
    RunKeepsInv(ttl, states, steps, n);
    var log := states[n].log;
    var k :| i < k < j && 0 <= k < |log| && log[k].Ended?;
    if log[k].stamped && InvalidatedIn(log, k, j) {
      var m :| k < m < j && 0 <= m < |log| && log[m].Invalidated?;
    }
  }

  /** The last exception is real: with a list to serve and the registry failing, each caller in turn walks
      again, without any time passing. */
  lemma {:induction false} StaleListIsWalkedAgain(ttl: int, s: State, i: nat, j: nat) returns (a: State, b: State, c: State, d: State)
    requires i < |s.callers| && j < |s.callers| && i != j && s.callers[i].Waiting? && s.callers[j].Waiting?
    requires s.holder.None? && s.held && !IsFresh(s, ttl)
    ensures Next(ttl, s, Lock(i), a) && Next(ttl, a, Begin(i), b) && Next(ttl, b, Failed(i), c) && Next(ttl, c, Lock(j), d)
    ensures d.now == s.now && d.holder == Some(j) && !IsFresh(d, ttl)
  {
    a := s.(holder := Some(i), callers := s.callers[i := Holding]);
    b := a.(callers := a.callers[i := Walking], log := a.log + [Began(a.now)]);
    c := b.(holder := None, callers := b.callers[i := Idle], log := b.log + [Ended(b.now, false)]);
    d := c.(holder := Some(j), callers := c.callers[j := Holding]);
  }
}
