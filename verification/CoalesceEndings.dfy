/**
 * Who ends a flight. `complete` and `cancel` (crates/rv-cache/src/coalesce.rs) take a digest,
 * not a flight, so the caller of one `check` may end the flight that another one opened.
 */
module CoalesceEndings {
  import opened Types
  import opened Coalesce

  predicate IsEnding(op: Op) {
    op.CompleteRemove? || op.Cancel?
  }

  /** The check was told to fetch `d`: it leads a flight of `d`, or fetches alone. */
  predicate FetchesFor(w: World, check: nat, d: Digest) {
    && check in w.calls
    && match w.calls[check]
       case Leads(tx) => tx < |w.flights| && w.flights[tx].digest == d
       case Alone(e) => e == d
       case _ => false
  }

  /** The checks whose callers have completed or cancelled. */
  ghost function Spent(ops: seq<Op>): set<nat> {
    if ops == [] then {}
    else
      var op := ops[|ops| - 1];
      Spent(ops[..|ops| - 1]) + if IsEnding(op) then {op.check} else {}
  }

  /** Only callers that were told to fetch complete or cancel, each at most once and for its own digest. */
  ghost predicate Disciplined(maxWaiters: nat, ops: seq<Op>) {
    ops == [] ||
    var before, op := ops[..|ops| - 1], ops[|ops| - 1];
    && Disciplined(maxWaiters, before)
    && (IsEnding(op) ==> FetchesFor(Run(maxWaiters, before), op.check, op.d) && op.check !in Spent(before))
  }

  // ---------------------------------------------------------------- what a step keeps

  lemma FetcherStays(w: World, maxWaiters: nat, op: Op, check: nat, d: Digest)
    requires Inv(w, maxWaiters) && FetchesFor(w, check, d)
    ensures var w' := Step(w, maxWaiters, op); FetchesFor(w', check, d) && w'.calls[check] == w.calls[check]
  {
    if w.calls[check].Leads? {
      StepHistory(w, maxWaiters, op, w.calls[check].tx);
    }
  }

  /** Of two flights of a digest the earlier one has ended. */
  ghost predicate Ordered(w: World) {
    forall t, tx | 0 <= t < tx < |w.flights| && w.flights[t].digest == w.flights[tx].digest ::
      w.flights[t].ending.Some?
  }

  lemma StepFlights(w: World, maxWaiters: nat, op: Op)
    requires Inv(w, maxWaiters)
    ensures var w' := Step(w, maxWaiters, op);
            && |w.flights| <= |w'.flights| <= |w.flights| + 1
            && (|w'.flights| > |w.flights| ==>
                  w'.flights[|w.flights|].ending.None? && w'.flights[|w.flights|].digest !in w.table.inflight)
  {
  }

  lemma StepOrdered(w: World, maxWaiters: nat, op: Op)
    requires Inv(w, maxWaiters) && Ordered(w)
    ensures Ordered(Step(w, maxWaiters, op))
  {
    var w' := Step(w, maxWaiters, op);
    StepFlights(w, maxWaiters, op);
    forall t, tx | 0 <= t < tx < |w'.flights| && w'.flights[t].digest == w'.flights[tx].digest
      ensures w'.flights[t].ending.Some?
    {
      StepHistory(w, maxWaiters, op, t);
      assert FlightOk(w, maxWaiters, t);
      if tx < |w.flights| {
        StepHistory(w, maxWaiters, op, tx);
      }
    }
  }

  /**
   * An ended flight was ended for its creator, for a check that fetched alone, or for the
   * creator of an earlier flight of the digest, which some other check had ended.
   */
  ghost predicate Explained(w: World, tx: nat)
    requires tx < |w.flights|
  {
    var f := w.flights[tx];
    f.ending.Some? ==>
      var check := f.ending.value.check;
      && FetchesFor(w, check, f.digest)
      && (check != f.creator && w.calls[check].Leads? ==>
            var t := w.calls[check].tx;
            t < tx && w.flights[t].creator == check && w.flights[t].ending.Some? &&
            w.flights[t].ending.value.check != check)
  }

  lemma ExplainedStays(w: World, maxWaiters: nat, op: Op, tx: nat)
    requires Inv(w, maxWaiters) && tx < |w.flights| && w.flights[tx].ending.Some? && Explained(w, tx)
    ensures var w' := Step(w, maxWaiters, op); tx < |w'.flights| && Explained(w', tx)
  {
    var check := w.flights[tx].ending.value.check;
    StepHistory(w, maxWaiters, op, tx);
    FetcherStays(w, maxWaiters, op, check, w.flights[tx].digest);
    if w.calls[check].Leads? {
      StepHistory(w, maxWaiters, op, w.calls[check].tx);
    }
  }

  /** The caller that leads flight `t` and has not completed yet ends flight `tx` of the same digest. */
  lemma LedEarlier(w: World, maxWaiters: nat, spent: set<nat>, check: nat, tx: nat)
    requires Inv(w, maxWaiters) && Ordered(w) && tx < |w.flights| && w.flights[tx].ending.None?
    requires FetchesFor(w, check, w.flights[tx].digest) && check != w.flights[tx].creator && w.calls[check].Leads?
    requires check !in spent &&
             forall t | 0 <= t < |w.flights| && w.flights[t].ending.Some? :: w.flights[t].ending.value.check in spent
    ensures var t := w.calls[check].tx;
            t < tx && w.flights[t].creator == check && w.flights[t].ending.Some? &&
            w.flights[t].ending.value.check != check
  {
    assert CallOk(w, check);
  }

  lemma ExplainedEnding(w: World, maxWaiters: nat, op: Op, spent: set<nat>, tx: nat)
    requires Inv(w, maxWaiters) && Ordered(w) && tx < |w.flights| && w.flights[tx].ending.None?
    requires tx < |Step(w, maxWaiters, op).flights| && Step(w, maxWaiters, op).flights[tx].ending.Some?
    requires IsEnding(op) ==> FetchesFor(w, op.check, op.d) && op.check !in spent
    requires forall t | 0 <= t < |w.flights| && w.flights[t].ending.Some? :: w.flights[t].ending.value.check in spent
    ensures IsEnding(op) && Step(w, maxWaiters, op).flights[tx].ending.value.check == op.check
    ensures Explained(Step(w, maxWaiters, op), tx)
  {
    StepHistory(w, maxWaiters, op, tx);
    FetcherStays(w, maxWaiters, op, op.check, op.d);
    if op.check != w.flights[tx].creator && w.calls[op.check].Leads? {
      LedEarlier(w, maxWaiters, spent, op.check, tx);
      StepHistory(w, maxWaiters, op, w.calls[op.check].tx);
    }
  }

  /** What holds of all flights after a disciplined run. */
  ghost predicate AllExplained(w: World, spent: set<nat>) {
    && Ordered(w)
    && forall tx | 0 <= tx < |w.flights| ::
         Explained(w, tx) && (w.flights[tx].ending.Some? ==> w.flights[tx].ending.value.check in spent)
  }

  lemma StepExplained(w: World, maxWaiters: nat, op: Op, spent: set<nat>)
    requires Inv(w, maxWaiters) && AllExplained(w, spent)
    requires IsEnding(op) ==> FetchesFor(w, op.check, op.d) && op.check !in spent
    ensures AllExplained(Step(w, maxWaiters, op), spent + if IsEnding(op) then {op.check} else {})
  {
    var w' := Step(w, maxWaiters, op);
    StepOrdered(w, maxWaiters, op);
    StepFlights(w, maxWaiters, op);
    forall tx | 0 <= tx < |w'.flights|
      ensures Explained(w', tx)
      ensures w'.flights[tx].ending.Some? ==>
                w'.flights[tx].ending.value.check in spent + if IsEnding(op) then {op.check} else {}
    {
      if tx < |w.flights| && w.flights[tx].ending.Some? {
        ExplainedStays(w, maxWaiters, op, tx);
        StepHistory(w, maxWaiters, op, tx);
      } else if tx < |w.flights| && w'.flights[tx].ending.Some? {
        ExplainedEnding(w, maxWaiters, op, spent, tx);
      }
    }
  }

  lemma {:induction false} RunExplained(maxWaiters: nat, ops: seq<Op>)
    requires Disciplined(maxWaiters, ops)
    ensures AllExplained(Run(maxWaiters, ops), Spent(ops))
  {
    if ops != [] {
      var before, op := ops[..|ops| - 1], ops[|ops| - 1];
      RunExplained(maxWaiters, before);
      RunKeeps(maxWaiters, before);
      StepExplained(Run(maxWaiters, before), maxWaiters, op, Spent(before));
    }
  }

  // ---------------------------------------------------------------- the creators' endings

  /** Flight `tx` is one of `d` and has ended. */
  ghost predicate EndedFlight(w: World, d: Digest, tx: nat) {
    tx < |w.flights| && w.flights[tx].digest == d && w.flights[tx].ending.Some?
  }

  ghost predicate ByCreator(w: World, tx: nat)
    requires tx < |w.flights| && w.flights[tx].ending.Some?
  {
    w.flights[tx].ending.value.check == w.flights[tx].creator
  }

  /** Ended for a check that was told to fetch because there were enough waiters. */
  ghost predicate ByLoner(w: World, tx: nat)
    requires tx < |w.flights| && w.flights[tx].ending.Some?
  {
    var check := w.flights[tx].ending.value.check; check in w.calls && w.calls[check].Alone?
  }

  lemma {:induction false} WithoutLoners(w: World, spent: set<nat>, d: Digest, tx: nat)
    requires AllExplained(w, spent) && EndedFlight(w, d, tx)
    requires forall t: nat | t <= tx && EndedFlight(w, d, t) :: !ByLoner(w, t)
    ensures ByCreator(w, tx)
    decreases tx
  {
    assert Explained(w, tx) && !ByLoner(w, tx);
    if !ByCreator(w, tx) {
      WithoutLoners(w, spent, d, w.calls[w.flights[tx].ending.value.check].tx);
    }
  }

  /**
   * In every disciplined run, and for any number of flights of a digest in the order they were
   * opened: all that ended were ended for their creators exactly when none was ended for a
   * check that fetched alone.
   */
  lemma EndedByCreators(maxWaiters: nat, ops: seq<Op>, d: Digest, n: nat)
    requires Disciplined(maxWaiters, ops)
    ensures var w := Run(maxWaiters, ops);
            (forall tx: nat | tx < n && EndedFlight(w, d, tx) :: ByCreator(w, tx)) <==>
            (forall tx: nat | tx < n && EndedFlight(w, d, tx) :: !ByLoner(w, tx))
  {
    var w := Run(maxWaiters, ops);
    RunExplained(maxWaiters, ops);
    RunKeeps(maxWaiters, ops);
    forall tx: nat | tx < n && EndedFlight(w, d, tx)
      ensures ByCreator(w, tx) ==> !ByLoner(w, tx)
      ensures (forall t: nat | t < n && EndedFlight(w, d, t) :: !ByLoner(w, t)) ==> ByCreator(w, tx)
    {
      assert FlightOk(w, maxWaiters, tx);
      if forall t: nat | t < n && EndedFlight(w, d, t) :: !ByLoner(w, t) {
        WithoutLoners(w, Spent(ops), d, tx);
      }
    }
  }

  // ---------------------------------------------------------------- a flight ended for another

  lemma OneMore(maxWaiters: nat, ops: seq<Op>, op: Op)
    ensures Run(maxWaiters, ops + [op]) == Step(Run(maxWaiters, ops), maxWaiters, op)
    ensures Spent(ops + [op]) == Spent(ops) + if IsEnding(op) then {op.check} else {}
    ensures Disciplined(maxWaiters, ops + [op]) <==>
              && Disciplined(maxWaiters, ops)
              && (IsEnding(op) ==> FetchesFor(Run(maxWaiters, ops), op.check, op.d) && op.check !in Spent(ops))
  {
    assert (ops + [op])[..|ops|] == ops;
  }

  /** Check 1 opens a flight; with no waiters allowed, check 2 fetches alone. */
  function Opened(d: Digest): seq<Op> {
    [] + [CheckFast(1, d)] + [CheckSlow(1)] + [CheckFast(2, d)]
  }

  /** Check 2 is completed first and ends the flight of check 1; check 3 opens another. */
  function Taken(d: Digest): seq<Op> {
    Opened(d) + [CompleteRemove(4, 2, d, Ready)] + [CheckFast(3, d)] + [CheckSlow(3)]
  }

  /** Completing check 1 now ends the flight of check 3. */
  function Crossed(d: Digest): seq<Op> {
    Taken(d) + [CompleteRemove(5, 1, d, Ready)]
  }

  lemma OpenedHolds(d: Digest)
    ensures Disciplined(0, Opened(d)) && Spent(Opened(d)) == {}
    ensures Run(0, Opened(d)) == World(Table(map[d := Entry(0, 0)], 0, 1), [Flight(d, 1, None, None, false)],
                                       map[1 := Leads(0), 2 := Alone(d)])
  {
    OneMore(0, [], CheckFast(1, d));
    OneMore(0, [] + [CheckFast(1, d)], CheckSlow(1));
    OneMore(0, [] + [CheckFast(1, d)] + [CheckSlow(1)], CheckFast(2, d));
  }

  lemma TakenHolds(d: Digest)
    ensures Disciplined(0, Taken(d)) && Spent(Taken(d)) == {2}
    ensures var w := Run(0, Taken(d));
            && w.table.inflight == map[d := Entry(1, 0)] && |w.flights| == 2
            && w.flights[0] == Flight(d, 1, Some(Completed(4, 2, Ready)), None, false)
            && w.flights[1] == Flight(d, 3, None, None, false)
            && w.calls == map[1 := Leads(0), 2 := Alone(d), 3 := Leads(1), 4 := Sends(0, Ready)]
  {
    var ops := Opened(d) + [CompleteRemove(4, 2, d, Ready)];
    OpenedHolds(d);
    OneMore(0, Opened(d), CompleteRemove(4, 2, d, Ready));
    assert Run(0, ops).table.inflight == map[];
    OneMore(0, ops, CheckFast(3, d));
    OneMore(0, ops + [CheckFast(3, d)], CheckSlow(3));
  }

  /** A disciplined run in which neither flight is ended for its creator, the second not for a lone fetch either. */
  lemma EndedForOthers(d: Digest)
    ensures Disciplined(0, Crossed(d))
    ensures var w := Run(0, Crossed(d));
            && EndedFlight(w, d, 0) && ByLoner(w, 0) && !ByCreator(w, 0)
            && EndedFlight(w, d, 1) && !ByLoner(w, 1) && !ByCreator(w, 1)
  {
    TakenHolds(d);
    OneMore(0, Taken(d), CompleteRemove(5, 1, d, Ready));
  }
}
