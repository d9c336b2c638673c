/** Index children resolved by one goroutine each behind a semaphore (client.go, resolveChildren), and
    the per-registry limiter around whole rows (server.go, acquire). Every interleaving. */
module FanOut {
  import opened Options

  const MAX_CHILD_CONCURRENCY := 6
  const PER_REGISTRY_CONCURRENCY := 6

  /** A goroutine: at the select, in possession of a slot, done with its work, or gone. */
  datatype Phase = Blocked | Resolving | Leaving | Gone

  /** The slots of one index, one goroutine each; `cancelled` is the context. */
  datatype Index<V> = Index(phases: seq<Phase>, slots: seq<Option<V>>, sem: nat, cancelled: bool)

  datatype Step = Acquire(i: nat) | GiveUp(i: nat) | Finish(i: nat) | Release(i: nat) | Cancel

  function Start<V>(n: nat): Index<V> {
    Index(seq(n, _ => Blocked), seq(n, _ => None), 0, false)
  }

  /** One step. Finishing writes only the goroutine's own slot: what resolveChild yields for its child,
      where a failure is None; under a cancelled context a child may also fail that otherwise would not. */
  ghost predicate Next<V>(resolve: nat -> Option<V>, s: Index<V>, step: Step, s': Index<V>) {
    match step
    case Acquire(i) =>
      && i < |s.phases| && s.phases[i].Blocked? && s.sem < MAX_CHILD_CONCURRENCY
      && s' == s.(phases := s.phases[i := Resolving], sem := s.sem + 1)
    case GiveUp(i) =>
      i < |s.phases| && s.phases[i].Blocked? && s.cancelled && s' == s.(phases := s.phases[i := Gone])
    case Finish(i) =>
      && i < |s.phases| && i < |s.slots| && s.phases[i].Resolving?
      && (|| s' == s.(phases := s.phases[i := Leaving], slots := s.slots[i := resolve(i)])
          || (s.cancelled && s' == s.(phases := s.phases[i := Leaving])))
    case Release(i) =>
      && i < |s.phases| && s.phases[i].Leaving? && s.sem > 0
      && s' == s.(phases := s.phases[i := Gone], sem := s.sem - 1)
    case Cancel => !s.cancelled && s' == s.(cancelled := true)
  }

  // ---------- the invariant ----------

  predicate InFlight(p: Phase) { p.Resolving? || p.Leaving? }

  function Flying(phases: seq<Phase>): nat {
    if phases == [] then 0 else Flying(phases[..|phases| - 1]) + if InFlight(phases[|phases| - 1]) then 1 else 0
  }

  /** What a slot may hold, given its goroutine's phase. */
  predicate SlotFits<V(==)>(p: Phase, slot: Option<V>, resolved: Option<V>, cancelled: bool) {
    match p
    case Blocked => slot == None
    case Resolving => slot == None
    case _ => slot == resolved || (cancelled && slot == None)
  }

  ghost predicate Inv<V>(resolve: nat -> Option<V>, s: Index<V>) {
    && |s.slots| == |s.phases|
    && s.sem == Flying(s.phases) && s.sem <= MAX_CHILD_CONCURRENCY
    && forall i :: 0 <= i < |s.phases| ==> SlotFits(s.phases[i], s.slots[i], resolve(i), s.cancelled)
  }

  lemma {:induction false} FlyingUpdate(phases: seq<Phase>, i: nat, p: Phase)
    requires i < |phases|
    ensures Flying(phases[i := p]) + (if InFlight(phases[i]) then 1 else 0) == Flying(phases) + (if InFlight(p) then 1 else 0)
    decreases |phases|
  {
    hide InFlight;
    var n := |phases| - 1;
    var phases' := phases[i := p];
    if i < n {
      assert phases'[..n] == phases[..n][i := p];
      FlyingUpdate(phases[..n], i, p);
    } else {
      assert phases'[..n] == phases[..n];
    }
  }

  lemma {:induction false} StartIsInv<V>(resolve: nat -> Option<V>, n: nat)
    ensures Inv(resolve, Start<V>(n))
  {
    NoneFlying(seq(n, _ => Blocked));
  }

  lemma {:induction false} NoneFlying(phases: seq<Phase>)
    requires forall i :: 0 <= i < |phases| ==> !InFlight(phases[i])
    ensures Flying(phases) == 0
    decreases |phases|
  {
    if phases != [] { NoneFlying(phases[..|phases| - 1]); }
  }

  lemma {:induction false} StepKeepsInv<V>(resolve: nat -> Option<V>, s: Index<V>, step: Step, s': Index<V>)
    requires Inv(resolve, s) && Next(resolve, s, step, s')
    ensures Inv(resolve, s')
  {
    hide Flying;
    if !step.Cancel? { FlyingUpdate(s.phases, step.i, s'.phases[step.i]); }
  }

  // ---------- progress ----------

  predicate Finished<V>(s: Index<V>) { forall i :: 0 <= i < |s.phases| ==> s.phases[i].Gone? }

  /** No deadlock: while any goroutine is left, one of them can move, cancelled or not. */
  lemma {:induction false} SomeoneCanMove<V>(resolve: nat -> Option<V>, s: Index<V>) returns (step: Step, s': Index<V>)
    requires Inv(resolve, s) && !Finished(s)
    ensures Next(resolve, s, step, s') && !step.Cancel?
  {
    hide SlotFits;
    var i: nat :| i < |s.phases| && !s.phases[i].Gone?;
    if s.phases[i].Blocked? {
      if s.sem < MAX_CHILD_CONCURRENCY {
        return Acquire(i), s.(phases := s.phases[i := Resolving], sem := s.sem + 1);
      }
      i := FindFlying(s.phases);
    }
    if s.phases[i].Resolving? {
      return Finish(i), s.(phases := s.phases[i := Leaving], slots := s.slots[i := resolve(i)]);
    }
    FlyingPositive(s.phases, i);
    return Release(i), s.(phases := s.phases[i := Gone], sem := s.sem - 1);
  }

  lemma {:induction false} FindFlying(phases: seq<Phase>) returns (i: nat)
    requires Flying(phases) > 0
    ensures i < |phases| && InFlight(phases[i])
    decreases |phases|
  {
    var n := |phases| - 1;
    if InFlight(phases[n]) { return n; }
    i := FindFlying(phases[..n]);
  }

  lemma {:induction false} FlyingPositive(phases: seq<Phase>, i: nat)
    requires i < |phases| && InFlight(phases[i])
    ensures Flying(phases) > 0
    decreases |phases|
  {
    if i < |phases| - 1 { FlyingPositive(phases[..|phases| - 1], i); }
  }

  function Work(p: Phase): nat {
    match p case Blocked => 3 case Resolving => 2 case Leaving => 1 case Gone => 0
  }

  function WorkLeft(phases: seq<Phase>): nat {
    if phases == [] then 0 else WorkLeft(phases[..|phases| - 1]) + Work(phases[|phases| - 1])
  }

  /** Steps still possible: every run is over within three steps a child, and one cancellation. */
  function Measure<V>(s: Index<V>): nat { WorkLeft(s.phases) + if s.cancelled then 0 else 1 }

  lemma {:induction false} WorkUpdate(phases: seq<Phase>, i: nat, p: Phase)
    requires i < |phases|
    ensures WorkLeft(phases[i := p]) + Work(phases[i]) == WorkLeft(phases) + Work(p)
    decreases |phases|
  {
    hide Work;
    var n := |phases| - 1;
    var phases' := phases[i := p];
    if i < n {
      assert phases'[..n] == phases[..n][i := p];
      WorkUpdate(phases[..n], i, p);
    } else {
      assert phases'[..n] == phases[..n];
    }
  }

  lemma {:induction false} StepDecreases<V>(resolve: nat -> Option<V>, s: Index<V>, step: Step, s': Index<V>)
    requires Next(resolve, s, step, s')
    ensures Measure(s') < Measure(s)
  {
    hide WorkLeft;
    if !step.Cancel? { WorkUpdate(s.phases, step.i, s'.phases[step.i]); }
  }

  // ---------- over every run ----------

  ghost predicate Run<V>(resolve: nat -> Option<V>, states: seq<Index<V>>, steps: seq<Step>) {
    && |states| == |steps| + 1 && states[0] == Start<V>(|states[0].phases|)
    && forall i :: 0 <= i < |steps| ==> Next(resolve, states[i], steps[i], states[i + 1])
  }

  lemma {:induction false} RunKeepsInv<V>(resolve: nat -> Option<V>, states: seq<Index<V>>, steps: seq<Step>, i: nat)
    requires Run(resolve, states, steps) && i <= |steps|
    ensures Inv(resolve, states[i]) && |states[i].phases| == |states[0].phases|
    ensures Measure(states[i]) + i <= Measure(states[0])
  {
    hide Inv, Measure;
    if i == 0 {
      StartIsInv(resolve, |states[0].phases|);
    } else {
      RunKeepsInv(resolve, states, steps, i - 1);
      StepKeepsInv(resolve, states[i - 1], steps[i - 1], states[i]);
      StepDecreases(resolve, states[i - 1], steps[i - 1], states[i]);
    }
  }

  lemma {:induction false} StartWork(n: nat)
    ensures WorkLeft(seq(n, _ => Blocked)) == 3 * n
  {
    if n > 0 {
      StartWork(n - 1);
      assert seq(n, _ => Blocked)[..n - 1] == seq(n - 1, _ => Blocked);
    }
  }

  /** Every run is finite: at most three steps for each child, and one for a cancellation. */
  lemma {:induction false} RunsEnd<V>(resolve: nat -> Option<V>, states: seq<Index<V>>, steps: seq<Step>)
    requires Run(resolve, states, steps)
    ensures |steps| <= 3 * |states[0].phases| + 1
  {
    RunKeepsInv(resolve, states, steps, |steps|);
    StartWork(|states[0].phases|);
  }

  /** At any moment at most six children are in flight. */
  lemma {:induction false} AtMostSixInFlight<V>(resolve: nat -> Option<V>, states: seq<Index<V>>, steps: seq<Step>, i: nat)
    requires Run(resolve, states, steps) && i <= |steps|
    ensures Flying(states[i].phases) <= 6
  {
    RunKeepsInv(resolve, states, steps, i);
  }

  /** However the goroutines were interleaved, a finished run that was never cancelled has resolved the
      children one for one, as a plain loop over them would; a cancelled one has left gaps at most. */
  lemma {:induction false} ResultIsSequential<V>(resolve: nat -> Option<V>, states: seq<Index<V>>, steps: seq<Step>)
    requires Run(resolve, states, steps) && Finished(states[|steps|])
    ensures var s := states[|steps|];
            && |s.slots| == |states[0].phases|
            && (!s.cancelled ==> s.slots == seq(|s.slots|, i requires 0 <= i < |s.slots| => resolve(i)))
            && (forall i :: 0 <= i < |s.slots| ==> s.slots[i] == resolve(i) || s.slots[i] == None)
  {
    RunKeepsInv(resolve, states, steps, |steps|);
    var s := states[|steps|];
    forall i | 0 <= i < |s.slots| ensures SlotFits(Gone, s.slots[i], resolve(i), s.cancelled) {
      assert s.phases[i] == Gone;
    }
  }

  // ---------- rows behind the per-registry limiter ----------

  /** A row lookup: at acquire, inside with its index of children, or over. */
  datatype Row<V> = Outside | Inside(index: Index<V>) | Over

  datatype Registry<V> = Registry(rows: seq<Row<V>>, held: nat)

  datatype RowStep = Enter(r: nat, n: nat) | Work(r: nat, step: Step) | Exit(r: nat) | Turn(r: nat)

  /** acquire, the work of one row on its children, release, or a row whose request went away first. */
  ghost predicate RowNext<V>(resolve: nat -> nat -> Option<V>, s: Registry<V>, step: RowStep, s': Registry<V>) {
    step.r < |s.rows| &&
    match step
    case Enter(r, n) =>
      && s.rows[r].Outside? && s.held < PER_REGISTRY_CONCURRENCY
      && s' == Registry(s.rows[r := Inside(Start(n))], s.held + 1)
    case Work(r, inner) =>
      && s.rows[r].Inside? && s'.held == s.held && |s'.rows| == |s.rows| && s'.rows[r].Inside?
      && Next(resolve(r), s.rows[r].index, inner, s'.rows[r].index) && s'.rows == s.rows[r := s'.rows[r]]
    case Exit(r) => s.rows[r].Inside? && Finished(s.rows[r].index) && s.held > 0
                    && s' == Registry(s.rows[r := Over], s.held - 1)
    case Turn(r) => s.rows[r].Outside? && s' == s.(rows := s.rows[r := Over])
  }

  function Holders<V>(rows: seq<Row<V>>): nat {
    if rows == [] then 0 else Holders(rows[..|rows| - 1]) + if rows[|rows| - 1].Inside? then 1 else 0
  }

  /** Child fetches in flight on the registry, over all its rows. */
  function AllFlying<V>(rows: seq<Row<V>>): nat {
    if rows == [] then 0
    else AllFlying(rows[..|rows| - 1]) + if rows[|rows| - 1].Inside? then Flying(rows[|rows| - 1].index.phases) else 0
  }

  ghost predicate RowsInv<V>(resolve: nat -> nat -> Option<V>, s: Registry<V>) {
    && s.held == Holders(s.rows) && s.held <= PER_REGISTRY_CONCURRENCY
    && forall r :: 0 <= r < |s.rows| && s.rows[r].Inside? ==> Inv(resolve(r), s.rows[r].index)
  }

  lemma {:induction false} HoldersUpdate<V>(rows: seq<Row<V>>, r: nat, row: Row<V>)
    requires r < |rows|
    ensures Holders(rows[r := row]) + (if rows[r].Inside? then 1 else 0) == Holders(rows) + (if row.Inside? then 1 else 0)
    decreases |rows|
  {
    var n := |rows| - 1;
    var rows' := rows[r := row];
    if r < n {
      assert rows'[..n] == rows[..n][r := row];
      HoldersUpdate(rows[..n], r, row);
    } else {
      assert rows'[..n] == rows[..n];
    }
  }

  lemma {:induction false} RowStepKeepsInv<V>(resolve: nat -> nat -> Option<V>, s: Registry<V>, step: RowStep, s': Registry<V>)
    requires RowsInv(resolve, s) && RowNext(resolve, s, step, s')
    ensures RowsInv(resolve, s')
  {
    hide Inv, Next, Holders, Finished;
    HoldersUpdate(s.rows, step.r, s'.rows[step.r]);
    match step
    case Enter(r, n) => StartIsInv(resolve(r), n);
    case Work(r, inner) => StepKeepsInv(resolve(r), s.rows[r].index, inner, s'.rows[r].index);
    case _ =>
  }

  lemma {:induction false} FlyingPerRow<V>(resolve: nat -> nat -> Option<V>, rows: seq<Row<V>>)
    requires forall r :: 0 <= r < |rows| && rows[r].Inside? ==> Inv(resolve(r), rows[r].index)
    ensures AllFlying(rows) <= MAX_CHILD_CONCURRENCY * Holders(rows)
    decreases |rows|
  {
    hide Flying, SlotFits;
    if rows != [] { FlyingPerRow(resolve, rows[..|rows| - 1]); }
  }

  ghost predicate RowRun<V>(resolve: nat -> nat -> Option<V>, states: seq<Registry<V>>, steps: seq<RowStep>) {
    && |states| == |steps| + 1 && states[0].held == 0
    && (forall r :: 0 <= r < |states[0].rows| ==> states[0].rows[r].Outside?)
    && forall i :: 0 <= i < |steps| ==> RowNext(resolve, states[i], steps[i], states[i + 1])
  }

  lemma {:induction false} NoHolders<V>(rows: seq<Row<V>>)
    requires forall r :: 0 <= r < |rows| ==> rows[r].Outside?
    ensures Holders(rows) == 0
    decreases |rows|
  {
    if rows != [] { NoHolders(rows[..|rows| - 1]); }
  }

  lemma {:induction false} RowRunKeepsInv<V>(resolve: nat -> nat -> Option<V>, states: seq<Registry<V>>, steps: seq<RowStep>, i: nat)
    requires RowRun(resolve, states, steps) && i <= |steps|
    ensures RowsInv(resolve, states[i])
  {
    hide Inv, RowNext, Holders;
    if i == 0 {
      NoHolders(states[0].rows);
    } else {
      RowRunKeepsInv(resolve, states, steps, i - 1);
      RowStepKeepsInv(resolve, states[i - 1], steps[i - 1], states[i]);
    }
  }

  /** Over every interleaving of rows and children, one registry never sees more than 36 child fetches. */
  lemma {:induction false} AtMostThirtySixFetches<V>(resolve: nat -> nat -> Option<V>, states: seq<Registry<V>>,
                                                     steps: seq<RowStep>, i: nat)
    requires RowRun(resolve, states, steps) && i <= |steps|
    ensures AllFlying(states[i].rows) <= 36
  {
    hide Inv, AllFlying, Holders, RowNext;
    RowRunKeepsInv(resolve, states, steps, i);
    FlyingPerRow(resolve, states[i].rows);
  }
}
