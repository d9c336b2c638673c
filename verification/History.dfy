/** Attaching build commands to layers (manifest.go, applyHistoryToLayers), all or nothing. */
module History {
  datatype Entry = Entry(createdBy: string, emptyLayer: bool)

  datatype Layer = Layer(digest: string, size: int, command: string)

  /** The steps that produced a layer, in order. */
  function Producing(history: seq<Entry>): seq<Entry> {
    if history == [] then []
    else
      var n := |history| - 1;
      Producing(history[..n]) + if history[n].emptyLayer then [] else [history[n]]
  }

  lemma {:induction false} ProducingPrefix(history: seq<Entry>, i: nat)
    requires i <= |history|
    ensures Producing(history[..i]) <= Producing(history)
    decreases |history| - i
  {
    if i < |history| {
      assert history[..i + 1][..i] == history[..i];
      ProducingPrefix(history, i + 1);
    } else {
      assert history[..i] == history;
    }
  }

  /** What one more step adds: nothing, or the next producing step of the whole history. */
  lemma {:induction false} ProducesNext(history: seq<Entry>, i: nat)
    requires i < |history|
    ensures var j, steps := |Producing(history[..i])|, Producing(history);
            if history[i].emptyLayer then |Producing(history[..i + 1])| == j
            else |Producing(history[..i + 1])| == j + 1 && j < |steps| && steps[j] == history[i]
  {
    assert history[..i + 1][..i] == history[..i];
    ProducingPrefix(history, i + 1);
  }

  lemma {:induction false} NoSteps()
    ensures Producing([]) == []
  {}

  /** Layer k carries the command of the k-th step that produced a layer and is otherwise as it was; when
      the counts disagree no layer is touched at all. */
  ghost predicate Labelled(was: seq<Layer>, now: seq<Layer>, history: seq<Entry>, clean: string -> string) {
    var steps := Producing(history);
    if |steps| != |was| then now == was
    else
      && |now| == |was|
      && forall k :: 0 <= k < |was| ==> now[k] == was[k].(command := clean(steps[k].createdBy))
  }

  method ApplyHistory(history: seq<Entry>, layers: array<Layer>, clean: string -> string)
    modifies layers
    ensures Labelled(old(layers[..]), layers[..], history, clean)
  {
    hide Producing;
    NoSteps();
    assert history[..0] == [] && history[..|history|] == history;
    var want := 0;
    for i := 0 to |history|
      invariant want == |Producing(history[..i])| && layers[..] == old(layers[..])
    {
      ProducesNext(history, i);
      if !history[i].emptyLayer { want := want + 1; }
    }
    assert history[..|history|] == history;
    if want != layers.Length { return; }
    var j := 0;
    for i := 0 to |history|
      invariant j == |Producing(history[..i])| && j <= layers.Length == |Producing(history)|
      invariant forall k :: 0 <= k < j ==>
        layers[k] == old(layers[k]).(command := clean(Producing(history)[k].createdBy))
      invariant forall k :: j <= k < layers.Length ==> layers[k] == old(layers[k])
    {
      ProducesNext(history, i);
      if history[i].emptyLayer { continue; }
      layers[j] := layers[j].(command := clean(history[i].createdBy));
      j := j + 1;
    }
  }

  /** Steps that leave no layer never matter: only the producing ones decide the labels. */
  lemma {:induction false} EmptyStepsDoNotMatter(a: seq<Entry>, empties: seq<Entry>, b: seq<Entry>)
    requires forall i :: 0 <= i < |empties| ==> empties[i].emptyLayer
    ensures Producing(a + empties + b) == Producing(a + b)
    decreases |b|, |empties|
  {
    if b != [] {
      var n := |b| - 1;
      assert (a + empties + b)[..|a + empties + b| - 1] == a + empties + b[..n];
      assert (a + b)[..|a + b| - 1] == a + b[..n];
      EmptyStepsDoNotMatter(a, empties, b[..n]);
    } else if empties != [] {
      var n := |empties| - 1;
      assert (a + empties + b)[..|a + empties + b| - 1] == a + empties[..n] + b;
      EmptyStepsDoNotMatter(a, empties[..n], b);
    } else {
      assert a + empties + b == a + b;
    }
  }

  /** A step that makes a layer is kept, in its place; one that makes none is not. */
  lemma {:induction false} ProducingKeeps(a: seq<Entry>, step: Entry, b: seq<Entry>)
    ensures Producing(a + [step] + b) == Producing(a) + (if step.emptyLayer then [] else [step]) + Producing(b)
    decreases |b|
  {
    if b == [] {
      assert a + [step] + b == a + [step] && (a + [step])[..|a|] == a;
    } else {
      var n := |b| - 1;
      assert (a + [step] + b)[..|a + [step] + b| - 1] == a + [step] + b[..n];
      ProducingKeeps(a, step, b[..n]);
    }
  }
}
