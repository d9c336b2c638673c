/** One registry's slot of the catalog index as a state, and its whole runs (server/catalog.go, List). */
module IndexSlot {
  import opened Options
  import opened Client

  /** A nil list is the empty one: the walk never yields an empty list that is not nil. */
  datatype Slot = Slot(repos: seq<string>, at: Option<int>, err: Option<Error>)

  const COLD := Slot([], None, None)

  /** What the walk would come to, if one is made: a sorted list, or an error. */
  datatype Outcome = Listed(repos: seq<string>) | Unlisted(error: Error)

  predicate IsFresh(e: Slot, now: int, ttl: int) { e.at.Some? && now - e.at.value < ttl }

  /** A walk failed, but an older list is there to serve. */
  predicate FallsBack(e: Slot, now: int, ttl: int, outcome: Outcome) {
    !IsFresh(e, now, ttl) && outcome.Unlisted? && e.repos != []
  }

  function ListReply(e: Slot, now: int, ttl: int, outcome: Outcome): Result<seq<string>> {
    if IsFresh(e, now, ttl) then (if e.err.Some? then Err(e.err.value) else Ok(e.repos))
    else if outcome.Listed? then Ok(outcome.repos)
    else if e.repos != [] then Ok(e.repos)
    else Err(outcome.error)
  }

  function AfterList(e: Slot, now: int, ttl: int, outcome: Outcome, done: int): Slot {
    if IsFresh(e, now, ttl) || FallsBack(e, now, ttl, outcome) then e
    else if outcome.Listed? then Slot(outcome.repos, Some(done), None)
    else Slot([], Some(done), Some(outcome.error))
  }

  function AfterInvalidate(e: Slot): Slot { e.(at := None) }

  // ---------- runs ----------

  datatype Op = ListOp(now: int, ttl: int, outcome: Outcome, done: int) | InvalidateOp

  function After(e: Slot, op: Op): Slot {
    match op
    case ListOp(now, ttl, outcome, done) => AfterList(e, now, ttl, outcome, done)
    case InvalidateOp => AfterInvalidate(e)
  }

  function AfterAll(e: Slot, ops: seq<Op>): Slot {
    if ops == [] then e else After(AfterAll(e, ops[..|ops| - 1]), ops[|ops| - 1])
  }

  /** The operation walks the catalog, and succeeds. */
  predicate Refreshes(e: Slot, op: Op) { op.ListOp? && !IsFresh(e, op.now, op.ttl) && op.outcome.Listed? }

  /** The list of the last walk that succeeded; none yet counts as empty. */
  function LastListed(e: Slot, ops: seq<Op>): seq<string> {
    if ops == [] then e.repos
    else
      var before, op := ops[..|ops| - 1], ops[|ops| - 1];
      if Refreshes(AfterAll(e, before), op) then op.outcome.repos else LastListed(e, before)
  }

  /** A list to serve excludes a remembered error. */
  predicate Consistent(e: Slot) { e.repos != [] ==> e.err.None? }

  /** After any run the slot holds exactly the last list walked, and no error beside a non-empty one. */
  lemma {:induction false} SlotHoldsLastListed(e: Slot, ops: seq<Op>)
    requires Consistent(e)
    ensures AfterAll(e, ops).repos == LastListed(e, ops) && Consistent(AfterAll(e, ops))
  {
    if ops != [] { SlotHoldsLastListed(e, ops[..|ops| - 1]); }
  }

  /** From a cold start, every list returned is the last one walked successfully (or, on a refresh, the
      one just walked); and once that list is not empty, no later call returns an error until a walk
      succeeds empty. */
  lemma {:induction false} ListsNeverErrAfterSuccess(ops: seq<Op>, op: Op)
    requires op.ListOp?
    ensures var e, last := AfterAll(COLD, ops), LastListed(COLD, ops + [op]);
            var reply := ListReply(e, op.now, op.ttl, op.outcome);
            && (reply.Ok? ==> reply.value == last)
            && (LastListed(COLD, ops) != [] ==> reply.Ok?)
  {
    SlotHoldsLastListed(COLD, ops);
    assert (ops + [op])[..|ops|] == ops;
  }

  /** "A stale list beats an error" holds exactly when there is a non-empty list: an empty catalog,
      once stale, gives way to the walk's error, which is then remembered for a whole ttl. */
  lemma {:induction false} StaleBeatsErrorIff(ops: seq<Op>, op: Op)
    requires op.ListOp? && op.outcome.Unlisted? && !IsFresh(AfterAll(COLD, ops), op.now, op.ttl)
    ensures var e := AfterAll(COLD, ops);
            && (ListReply(e, op.now, op.ttl, op.outcome).Ok? <==> LastListed(COLD, ops) != [])
            && (LastListed(COLD, ops) == [] ==>
                  forall later: int, o: Outcome :: later - op.done < op.ttl ==>
                    ListReply(AfterAll(COLD, ops + [op]), later, op.ttl, o) == Err(op.outcome.error))
  {
    SlotHoldsLastListed(COLD, ops);
    assert (ops + [op])[..|ops|] == ops;
  }
}
