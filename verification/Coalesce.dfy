/**
 * Request coalescing (crates/rv-cache/src/coalesce.rs). The class is the manager itself; the
 * state machine below it interleaves any number of calls at the points where the source holds
 * no lock: between the fast and the slow path of `check`, and between removing an entry and
 * sending its result in `complete`.
 */
module Coalesce {
  import opened Types

  /** An in-flight entry: its broadcast channel and how many have subscribed. */
  datatype Entry = Entry(tx: nat, waiters: nat)

  datatype Decision = Fetch | Wait(tx: nat)

  /** The manager's state; channels are numbered in the order they are created. */
  datatype Table = Table(inflight: map<Digest, Entry>, coalesced: nat, channels: nat)

  const EMPTY: Table := Table(map[], 0, 0)

  /** Subscribe to the fetch in progress, unless it has enough waiters. */
  function Join(t: Table, maxWaiters: nat, d: Digest): (r: (Table, Decision))
    requires d in t.inflight
  {
    var e := t.inflight[d];
    if e.waiters >= maxWaiters then (t, Fetch)
    else (t.(inflight := t.inflight[d := e.(waiters := e.waiters + 1)], coalesced := t.coalesced + 1), Wait(e.tx))
  }

  /** Start a fetch with a new channel. */
  function Open(t: Table, d: Digest): Table {
    t.(inflight := t.inflight[d := Entry(t.channels, 0)], channels := t.channels + 1)
  }

  class CoalesceManager {
    const maxWaiters: nat
    var inflight: map<Digest, Entry>
    var coalescedCount: nat
    var channels: nat

    ghost function View(): Table
      reads this
    {
      Table(inflight, coalescedCount, channels)
    }

    constructor (maxWaiters: nat)
      ensures View() == EMPTY && this.maxWaiters == maxWaiters
    {
      this.maxWaiters := maxWaiters;
      inflight := map[];
      coalescedCount := 0;
      channels := 0;
    }

    /** With the entry locked. */
    method Subscribe(d: Digest) returns (r: Decision)
      requires d in inflight
      modifies this
      ensures (View(), r) == Join(old(View()), maxWaiters, d)
    {
      var entry := inflight[d];
      if entry.waiters >= maxWaiters {
        return Fetch;
      }
      inflight := inflight[d := entry.(waiters := entry.waiters + 1)];
      coalescedCount := coalescedCount + 1;
      return Wait(entry.tx);
    }

    /**
     * The whole of `check`, when nothing happens between its two paths: wait for the fetch in
     * progress unless it has enough waiters; without one, start it.
     */
    method Check(d: Digest) returns (r: Decision)
      modifies this
      ensures d in old(inflight) && old(inflight)[d].waiters < maxWaiters ==>
                && r == Wait(old(inflight)[d].tx)
                && inflight == old(inflight)[d := Entry(old(inflight)[d].tx, old(inflight)[d].waiters + 1)]
                && coalescedCount == old(coalescedCount) + 1 && channels == old(channels)
      ensures d in old(inflight) && old(inflight)[d].waiters >= maxWaiters ==>
                r == Fetch && View() == old(View())
      ensures d !in old(inflight) ==>
                && r == Fetch && inflight == old(inflight)[d := Entry(old(channels), 0)]
                && coalescedCount == old(coalescedCount) && channels == old(channels) + 1
    {
      if d in inflight {
        r := Subscribe(d);
        return;
      }
      inflight := inflight[d := Entry(channels, 0)];
      channels := channels + 1;
      return Fetch;
    }

    /** Take the entry out of the map; the result is then sent on its channel, if there was one. */
    method TakeEntry(d: Digest) returns (tx: Option<nat>)
      modifies this
      ensures View() == old(View()).(inflight := old(inflight) - {d})
      ensures tx == if d in old(inflight) then Some(old(inflight)[d].tx) else None
    {
      tx := None;
      if d in inflight {
        tx := Some(inflight[d].tx);
        inflight := inflight - {d};
      } else {
        assert inflight - {d} == inflight;
      }
    }
  }

  // ---------------------------------------------------------------- interleavings

  /** What a completing call broadcasts. */
  datatype Result = Ready | Failed(error: string)

  /** How a flight ended: the call that took its entry out of the map, the `check` it answers for, the result. */
  datatype Ending = Completed(call: nat, check: nat, result: Result) | Cancelled(call: nat, check: nat)

  /** A channel's whole life. Its one message is stored when it is sent. */
  datatype Flight = Flight(digest: Digest, creator: nat, ending: Option<Ending>, message: Option<Result>, closed: bool)

  datatype Outcome = Delivered(result: Result) | ChannelClosed

  /** Where a call is. */
  datatype Call =
    | Slow(d: Digest)                  // in `check`, between the two paths
    | Alone(d: Digest)                 // told to fetch because there are enough waiters
    | Leads(tx: nat)                   // told to fetch, having opened the flight
    | Waits(tx: nat)
    | Got(tx: nat, outcome: Outcome)   // a waiter that has heard
    | Sends(tx: nat, result: Result)   // in `complete`, between removing and sending
    | Finished                         // a `complete` or `cancel` that has returned

  datatype World = World(table: Table, flights: seq<Flight>, calls: map<nat, Call>)

  /** `check` is the call of `check` whose caller completes or cancels; nothing in the manager looks at it. */
  datatype Op =
    | CheckFast(k: nat, d: Digest)
    | CheckSlow(k: nat)
    | CompleteRemove(k: nat, check: nat, d: Digest, result: Result)
    | CompleteSend(k: nat)
    | Cancel(k: nat, check: nat, d: Digest)
    | Receive(k: nat)

  function Decide(w: World, maxWaiters: nat, k: nat, d: Digest): World
    requires d in w.table.inflight
  {
    var (t, r) := Join(w.table, maxWaiters, d);
    World(t, w.flights, w.calls[k := if r.Wait? then Waits(r.tx) else Alone(d)])
  }

  function Lead(w: World, k: nat, d: Digest): World {
    World(Open(w.table, d), w.flights + [Flight(d, k, None, None, false)], w.calls[k := Leads(w.table.channels)])
  }

  function Take(w: World, d: Digest): Table {
    w.table.(inflight := w.table.inflight - {d})
  }

  predicate InRange(w: World, d: Digest) {
    d in w.table.inflight && w.table.inflight[d].tx < |w.flights|
  }

  function EndFlight(w: World, k: nat, d: Digest, f: Flight, c: Call): World
    requires InRange(w, d)
  {
    World(Take(w, d), w.flights[w.table.inflight[d].tx := f], w.calls[k := c])
  }

  /** One step of one call; an operation that is not possible changes nothing. */
  function Step(w: World, maxWaiters: nat, op: Op): World {
    match op
    case CheckFast(k, d) =>
      if k in w.calls then w
      else if d in w.table.inflight then Decide(w, maxWaiters, k, d)
      else w.(calls := w.calls[k := Slow(d)])
    case CheckSlow(k) =>
      if k !in w.calls || !w.calls[k].Slow? then w
      else if w.calls[k].d in w.table.inflight then Decide(w, maxWaiters, k, w.calls[k].d)
      else Lead(w, k, w.calls[k].d)
    case CompleteRemove(k, check, d, result) =>
      if k in w.calls then w
      else if !InRange(w, d) then w.(calls := w.calls[k := Finished])
      else
        var tx := w.table.inflight[d].tx;
        EndFlight(w, k, d, w.flights[tx].(ending := Some(Completed(k, check, result))), Sends(tx, result))
    case CompleteSend(k) =>
      if k !in w.calls || !w.calls[k].Sends? || w.calls[k].tx >= |w.flights| then w
      else
        var tx := w.calls[k].tx;
        var f := w.flights[tx].(message := Some(w.calls[k].result), closed := true);
        w.(flights := w.flights[tx := f], calls := w.calls[k := Finished])
    case Cancel(k, check, d) =>
      if k in w.calls then w
      else if !InRange(w, d) then w.(calls := w.calls[k := Finished])
      else
        var tx := w.table.inflight[d].tx;
        EndFlight(w, k, d, w.flights[tx].(ending := Some(Cancelled(k, check)), closed := true), Finished)
    case Receive(k) =>
      if k !in w.calls || !w.calls[k].Waits? || w.calls[k].tx >= |w.flights| then w
      else
        var tx := w.calls[k].tx;
        var f := w.flights[tx];
        if f.message.Some? then w.(calls := w.calls[k := Got(tx, Delivered(f.message.value))])
        else if f.closed then w.(calls := w.calls[k := Got(tx, ChannelClosed)])
        else w
  }

  const START: World := World(EMPTY, [], map[])

  function Run(maxWaiters: nat, ops: seq<Op>): World {
    if ops == [] then START else Step(Run(maxWaiters, ops[..|ops| - 1]), maxWaiters, ops[|ops| - 1])
  }

  // ---------------------------------------------------------------- the invariant

  predicate WaitedOn(c: Call, tx: nat) {
    (c.Waits? || c.Got?) && c.tx == tx
  }

  /** The calls that were told to wait for a flight. */
  function WaitersOf(calls: map<nat, Call>, tx: nat): set<nat> {
    set k | k in calls && WaitedOn(calls[k], tx)
  }

  /** All calls that were told to wait. */
  function Waiters(calls: map<nat, Call>): set<nat> {
    set k | k in calls && (calls[k].Waits? || calls[k].Got?)
  }

  /** An entry leads to the open flight of its digest and counts that flight's waiters. */
  ghost predicate EntryOk(w: World, d: Digest)
    requires d in w.table.inflight
  {
    var e := w.table.inflight[d];
    && e.tx < |w.flights| && w.flights[e.tx].digest == d && w.flights[e.tx].ending.None?
    && e.waiters == |WaitersOf(w.calls, e.tx)|
  }

  /** An open flight is in the map; an ended one has its result sent or still to send. */
  ghost predicate FlightOk(w: World, maxWaiters: nat, tx: nat)
    requires tx < |w.flights|
  {
    var f := w.flights[tx];
    && |WaitersOf(w.calls, tx)| <= maxWaiters
    && f.creator in w.calls && w.calls[f.creator] == Leads(tx)
    && match f.ending
       case None => f.message.None? && !f.closed && f.digest in w.table.inflight && w.table.inflight[f.digest].tx == tx
       case Some(Cancelled(k, _)) => f.message.None? && f.closed && k in w.calls && w.calls[k] == Finished
       case Some(Completed(k, _, r)) =>
         && k in w.calls
         && (if f.closed then f.message == Some(r) && w.calls[k] == Finished
             else f.message.None? && w.calls[k] == Sends(tx, r))
  }

  /** A call's place agrees with its flight. */
  ghost predicate CallOk(w: World, k: nat)
    requires k in w.calls
  {
    match w.calls[k]
    case Leads(tx) => tx < |w.flights| && w.flights[tx].creator == k
    case Waits(tx) => tx < |w.flights|
    case Sends(tx, r) => tx < |w.flights| && Ends(w.flights[tx].ending, r) &&
        w.flights[tx].ending.value.call == k && !w.flights[tx].closed
    case Got(tx, Delivered(r)) => tx < |w.flights| && Ends(w.flights[tx].ending, r)
    case Got(tx, ChannelClosed) => tx < |w.flights| && w.flights[tx].ending.Some? &&
        w.flights[tx].ending.value.Cancelled?
    case _ => true
  }

  predicate Ends(e: Option<Ending>, r: Result) {
    e.Some? && e.value.Completed? && e.value.result == r
  }

  ghost predicate Inv(w: World, maxWaiters: nat) {
    && w.table.channels == |w.flights| && w.table.coalesced == |Waiters(w.calls)|
    && (forall d | d in w.table.inflight :: EntryOk(w, d))
    && (forall tx | 0 <= tx < |w.flights| :: FlightOk(w, maxWaiters, tx))
    && (forall k | k in w.calls :: CallOk(w, k))
  }

  // ---------------------------------------------------------------- counting waiters

  lemma WaitersUpdate(calls: map<nat, Call>, k: nat, c: Call)
    requires k in calls ==> !calls[k].Waits? && !calls[k].Got?
    ensures Waiters(calls[k := c]) == if c.Waits? || c.Got? then Waiters(calls) + {k} else Waiters(calls)
    ensures k !in Waiters(calls)
  {
  }

  lemma WaitersOfUpdate(calls: map<nat, Call>, k: nat, c: Call, tx: nat)
    requires k in calls ==> !calls[k].Waits? && !calls[k].Got?
    ensures WaitersOf(calls[k := c], tx) == if WaitedOn(c, tx) then WaitersOf(calls, tx) + {k} else WaitersOf(calls, tx)
    ensures k !in WaitersOf(calls, tx)
  {
  }

  /** Hearing the result keeps a waiter a waiter of its flight. */
  lemma WaitersHear(calls: map<nat, Call>, k: nat, o: Outcome)
    requires k in calls && calls[k].Waits?
    ensures Waiters(calls[k := Got(calls[k].tx, o)]) == Waiters(calls)
    ensures forall tx :: WaitersOf(calls[k := Got(calls[k].tx, o)], tx) == WaitersOf(calls, tx)
  {
  }

  // ---------------------------------------------------------------- every step keeps the invariant

  /** `k` is a call that has not begun, or is between the two paths of `check`. */
  ghost predicate Undecided(w: World, k: nat) {
    k in w.calls ==> w.calls[k].Slow?
  }

  lemma JoinKeeps(w: World, maxWaiters: nat, k: nat, d: Digest)
    requires Inv(w, maxWaiters) && Undecided(w, k) && d in w.table.inflight && w.table.inflight[d].waiters < maxWaiters
    ensures Inv(Decide(w, maxWaiters, k, d), maxWaiters)
  {
    var w', c := Decide(w, maxWaiters, k, d), Waits(w.table.inflight[d].tx);
    WaitersUpdate(w.calls, k, c);
    assert EntryOk(w, d);
    forall tx | 0 <= tx < |w'.flights|
      ensures FlightOk(w', maxWaiters, tx)
    {
      assert FlightOk(w, maxWaiters, tx);
      WaitersOfUpdate(w.calls, k, c, tx);
    }
    forall e | e in w'.table.inflight
      ensures EntryOk(w', e)
    {
      assert EntryOk(w, e);
      WaitersOfUpdate(w.calls, k, c, w.table.inflight[e].tx);
    }
    forall j | j in w'.calls
      ensures CallOk(w', j)
    {
      assert j != k ==> CallOk(w, j);
    }
  }

  lemma DecideKeeps(w: World, maxWaiters: nat, k: nat, d: Digest)
    requires Inv(w, maxWaiters) && Undecided(w, k) && d in w.table.inflight
    ensures Inv(Decide(w, maxWaiters, k, d), maxWaiters)
  {
    if w.table.inflight[d].waiters < maxWaiters {
      JoinKeeps(w, maxWaiters, k, d);
    } else {
      RecordKeeps(w, maxWaiters, k, Alone(d));
    }
  }

  lemma LeadKeeps(w: World, maxWaiters: nat, k: nat, d: Digest)
    requires Inv(w, maxWaiters) && Undecided(w, k) && d !in w.table.inflight
    ensures Inv(Lead(w, k, d), maxWaiters)
  {
    var w' := Lead(w, k, d);
    var c := w'.calls[k];
    WaitersUpdate(w.calls, k, c);
    forall tx | 0 <= tx < |w'.flights|
      ensures FlightOk(w', maxWaiters, tx)
    {
      WaitersOfUpdate(w.calls, k, c, tx);
      if tx < |w.flights| {
        assert FlightOk(w, maxWaiters, tx);
      } else {
        NoWaiters(w, maxWaiters);
      }
    }
    forall e | e in w'.table.inflight
      ensures EntryOk(w', e)
    {
      if e == d {
        WaitersOfUpdate(w.calls, k, c, |w.flights|);
        NoWaiters(w, maxWaiters);
      } else {
        assert EntryOk(w, e);
        WaitersOfUpdate(w.calls, k, c, w.table.inflight[e].tx);
      }
    }
    forall j | j in w'.calls
      ensures CallOk(w', j)
    {
      assert j != k ==> CallOk(w, j);
    }
  }

  lemma NoWaiters(w: World, maxWaiters: nat)
    requires Inv(w, maxWaiters)
    ensures WaitersOf(w.calls, |w.flights|) == {}
  {
    forall k | k in w.calls
      ensures !WaitedOn(w.calls[k], |w.flights|)
    {
      assert CallOk(w, k);
    }
  }

  /** A call that neither waits nor leads joins the record. */
  lemma RecordKeeps(w: World, maxWaiters: nat, k: nat, c: Call)
    requires Inv(w, maxWaiters) && Undecided(w, k) && (c.Finished? || c.Slow? || c.Alone?)
    ensures Inv(w.(calls := w.calls[k := c]), maxWaiters)
  {
    var w' := w.(calls := w.calls[k := c]);
    WaitersUpdate(w.calls, k, c);
    forall tx | 0 <= tx < |w'.flights|
      ensures FlightOk(w', maxWaiters, tx)
    {
      assert FlightOk(w, maxWaiters, tx);
      WaitersOfUpdate(w.calls, k, c, tx);
    }
    forall e | e in w'.table.inflight
      ensures EntryOk(w', e)
    {
      assert EntryOk(w, e);
      WaitersOfUpdate(w.calls, k, c, w.table.inflight[e].tx);
    }
    forall j | j in w'.calls
      ensures CallOk(w', j)
    {
      assert j != k ==> CallOk(w, j);
    }
  }

  /** Flight `f0` becomes `f` when call `k` ends it and goes on as `c`. */
  ghost predicate EndedBy(f0: Flight, f: Flight, tx: nat, k: nat, c: Call) {
    && f == f0.(ending := f.ending, closed := f.closed) && f.ending.Some? && f.ending.value.call == k
    && match f.ending.value
       case Completed(_, _, r) => f.closed == f0.closed && c == Sends(tx, r)
       case Cancelled(_, _) => f.closed && c == Finished
  }

  lemma EndKeepsFlight(w: World, maxWaiters: nat, k: nat, d: Digest, f: Flight, c: Call, tx: nat)
    requires Inv(w, maxWaiters) && k !in w.calls && InRange(w, d) && tx < |w.flights|
    requires EndedBy(w.flights[w.table.inflight[d].tx], f, w.table.inflight[d].tx, k, c)
    ensures FlightOk(EndFlight(w, k, d, f, c), maxWaiters, tx)
  {
    assert EntryOk(w, d) && FlightOk(w, maxWaiters, tx);
    WaitersOfUpdate(w.calls, k, c, tx);
  }

  /** A call that has not begun ends the flight of `d`. */
  lemma EndKeeps(w: World, maxWaiters: nat, k: nat, d: Digest, f: Flight, c: Call)
    requires Inv(w, maxWaiters) && k !in w.calls && InRange(w, d)
    requires EndedBy(w.flights[w.table.inflight[d].tx], f, w.table.inflight[d].tx, k, c)
    ensures Inv(EndFlight(w, k, d, f, c), maxWaiters)
  {
    var w', tx0 := EndFlight(w, k, d, f, c), w.table.inflight[d].tx;
    WaitersUpdate(w.calls, k, c);
    assert EntryOk(w, d) && FlightOk(w, maxWaiters, tx0);
    forall tx | 0 <= tx < |w'.flights|
      ensures FlightOk(w', maxWaiters, tx)
    {
      EndKeepsFlight(w, maxWaiters, k, d, f, c, tx);
    }
    forall e | e in w'.table.inflight
      ensures EntryOk(w', e)
    {
      assert EntryOk(w, e);
      WaitersOfUpdate(w.calls, k, c, w.table.inflight[e].tx);
    }
    forall j | j in w'.calls
      ensures CallOk(w', j)
    {
      assert j != k ==> CallOk(w, j);
    }
  }

  lemma SendKeeps(w: World, maxWaiters: nat, k: nat)
    requires Inv(w, maxWaiters) && k in w.calls && w.calls[k].Sends?
    ensures Inv(Step(w, maxWaiters, CompleteSend(k)), maxWaiters)
  {
    var w', tx0 := Step(w, maxWaiters, CompleteSend(k)), w.calls[k].tx;
    assert CallOk(w, k);
    WaitersUpdate(w.calls, k, Finished);
    forall tx | 0 <= tx < |w'.flights|
      ensures FlightOk(w', maxWaiters, tx)
    {
      assert FlightOk(w, maxWaiters, tx);
      WaitersOfUpdate(w.calls, k, Finished, tx);
    }
    forall e | e in w'.table.inflight
      ensures EntryOk(w', e)
    {
      assert EntryOk(w, e);
      WaitersOfUpdate(w.calls, k, Finished, w.table.inflight[e].tx);
    }
    forall j | j in w'.calls
      ensures CallOk(w', j)
    {
      assert j != k ==> CallOk(w, j);
    }
  }

  lemma ReceiveKeeps(w: World, maxWaiters: nat, k: nat)
    requires Inv(w, maxWaiters) && k in w.calls && w.calls[k].Waits?
    ensures Inv(Step(w, maxWaiters, Receive(k)), maxWaiters)
  {
    var w', tx0 := Step(w, maxWaiters, Receive(k)), w.calls[k].tx;
    assert CallOk(w, k) && FlightOk(w, maxWaiters, tx0);
    if w' != w {
      WaitersHear(w.calls, k, w'.calls[k].outcome);
      forall tx | 0 <= tx < |w'.flights|
        ensures FlightOk(w', maxWaiters, tx)
      {
        assert FlightOk(w, maxWaiters, tx);
      }
      forall e | e in w'.table.inflight
        ensures EntryOk(w', e)
      {
        assert EntryOk(w, e);
      }
      forall j | j in w'.calls
        ensures CallOk(w', j)
      {
        assert j != k ==> CallOk(w, j);
      }
    }
  }

  lemma StepKeeps(w: World, maxWaiters: nat, op: Op)
    requires Inv(w, maxWaiters)
    ensures Inv(Step(w, maxWaiters, op), maxWaiters)
  {
    match op
    case CheckFast(k, d) =>
      if k !in w.calls {
        if d in w.table.inflight {
          DecideKeeps(w, maxWaiters, k, d);
        } else {
          RecordKeeps(w, maxWaiters, k, Slow(d));
        }
      }
    case CheckSlow(k) =>
      if k in w.calls && w.calls[k].Slow? {
        if w.calls[k].d in w.table.inflight {
          DecideKeeps(w, maxWaiters, k, w.calls[k].d);
        } else {
          LeadKeeps(w, maxWaiters, k, w.calls[k].d);
        }
      }
    case CompleteRemove(k, check, d, r) =>
      if k !in w.calls {
        if InRange(w, d) {
          var tx := w.table.inflight[d].tx;
          EndKeeps(w, maxWaiters, k, d, w.flights[tx].(ending := Some(Completed(k, check, r))), Sends(tx, r));
        } else {
          RecordKeeps(w, maxWaiters, k, Finished);
        }
      }
    case CompleteSend(k) =>
      if k in w.calls && w.calls[k].Sends? {
        SendKeeps(w, maxWaiters, k);
      }
    case Cancel(k, check, d) =>
      if k !in w.calls {
        if InRange(w, d) {
          var tx := w.table.inflight[d].tx;
          EndKeeps(w, maxWaiters, k, d, w.flights[tx].(ending := Some(Cancelled(k, check)), closed := true), Finished);
        } else {
          RecordKeeps(w, maxWaiters, k, Finished);
        }
      }
    case Receive(k) =>
      if k in w.calls && w.calls[k].Waits? {
        ReceiveKeeps(w, maxWaiters, k);
      }
  }

  lemma {:induction false} RunKeeps(maxWaiters: nat, ops: seq<Op>)
    ensures Inv(Run(maxWaiters, ops), maxWaiters)
  {
    if ops != [] {
      RunKeeps(maxWaiters, ops[..|ops| - 1]);
      StepKeeps(Run(maxWaiters, ops[..|ops| - 1]), maxWaiters, ops[|ops| - 1]);
    }
  }

  // ---------------------------------------------------------------- what holds in every interleaving

  /** A flight has exactly one creator, at most `maxWaiters` waiters, and each digest at most one open flight. */
  lemma OneFlightPerDigest(maxWaiters: nat, ops: seq<Op>, tx: nat)
    requires tx < |Run(maxWaiters, ops).flights|
    ensures var w := Run(maxWaiters, ops);
            && (forall k | k in w.calls :: w.calls[k] == Leads(tx) <==> k == w.flights[tx].creator)
            && w.flights[tx].creator in w.calls
            && |WaitersOf(w.calls, tx)| <= maxWaiters
            && (w.flights[tx].ending.None? <==>
                  w.flights[tx].digest in w.table.inflight && w.table.inflight[w.flights[tx].digest].tx == tx)
  {
    RunKeeps(maxWaiters, ops);
    var w := Run(maxWaiters, ops);
    assert FlightOk(w, maxWaiters, tx);
    forall k | k in w.calls
      ensures w.calls[k] == Leads(tx) <==> k == w.flights[tx].creator
    {
      assert CallOk(w, k);
    }
    if w.flights[tx].digest in w.table.inflight {
      assert EntryOk(w, w.flights[tx].digest);
    }
  }

  /** The counter is the number of calls that were told to wait. */
  lemma CountsWaits(maxWaiters: nat, ops: seq<Op>)
    ensures Run(maxWaiters, ops).table.coalesced == |Waiters(Run(maxWaiters, ops).calls)|
  {
    RunKeeps(maxWaiters, ops);
  }

  /** Whatever a waiter hears is what ended the flight it was told to wait for. */
  lemma HearsOwnFlight(maxWaiters: nat, ops: seq<Op>, k: nat)
    requires k in Run(maxWaiters, ops).calls && Run(maxWaiters, ops).calls[k].Got?
    ensures var w := Run(maxWaiters, ops);
            var c := w.calls[k];
            && c.tx < |w.flights|
            && match w.flights[c.tx].ending
               case None => false
               case Some(Completed(_, _, r)) => c.outcome == Delivered(r)
               case Some(Cancelled(_, _)) => c.outcome == ChannelClosed
  {
    RunKeeps(maxWaiters, ops);
    assert CallOk(Run(maxWaiters, ops), k);
  }

  /** No result is lost: once the ending call has returned, every waiter of the flight can hear. */
  lemma WaiterCanHear(maxWaiters: nat, ops: seq<Op>, k: nat)
    requires var w := Run(maxWaiters, ops);
             && k in w.calls && w.calls[k].Waits? && w.calls[k].tx < |w.flights|
             && w.flights[w.calls[k].tx].ending.Some?
             && var ender := w.flights[w.calls[k].tx].ending.value.call; ender in w.calls && w.calls[ender] == Finished
    ensures Run(maxWaiters, ops + [Receive(k)]).calls[k].Got?
  {
    RunKeeps(maxWaiters, ops);
    var w := Run(maxWaiters, ops);
    assert FlightOk(w, maxWaiters, w.calls[k].tx);
    assert (ops + [Receive(k)])[..|ops|] == ops;
  }

  /**
   * A flight keeps its digest and creator, its ending is never overwritten, and it only ends
   * by a `complete` or `cancel` call for its digest. A call that waits for it, or has heard,
   * stays with it.
   */
  lemma StepHistory(w: World, maxWaiters: nat, op: Op, tx: nat)
    requires Inv(w, maxWaiters) && tx < |w.flights|
    ensures var w' := Step(w, maxWaiters, op);
            && tx < |w'.flights|
            && w'.flights[tx].digest == w.flights[tx].digest && w'.flights[tx].creator == w.flights[tx].creator
            && (w.flights[tx].ending.Some? ==> w'.flights[tx].ending == w.flights[tx].ending)
            && (w.flights[tx].ending.None? && w'.flights[tx].ending.Some? ==>
                  || (&& op.CompleteRemove? && op.d == w.flights[tx].digest
                      && w'.flights[tx].ending.value == Completed(op.k, op.check, op.result))
                  || (&& op.Cancel? && op.d == w.flights[tx].digest
                      && w'.flights[tx].ending.value == Cancelled(op.k, op.check)))
            && (forall k | k in WaitersOf(w.calls, tx) :: k in WaitersOf(w'.calls, tx))
  {
    if op.CompleteRemove? || op.Cancel? {
      if op.d in w.table.inflight {
        assert EntryOk(w, op.d);
      }
    }
  }

  lemma EndingStaysStep(maxWaiters: nat, ops: seq<Op>, op: Op, tx: nat)
    requires tx < |Run(maxWaiters, ops).flights| && Run(maxWaiters, ops).flights[tx].ending.Some?
    ensures tx < |Run(maxWaiters, ops + [op]).flights|
    ensures Run(maxWaiters, ops + [op]).flights[tx].ending == Run(maxWaiters, ops).flights[tx].ending
  {
    RunKeeps(maxWaiters, ops);
    assert (ops + [op])[..|ops|] == ops;
    StepHistory(Run(maxWaiters, ops), maxWaiters, op, tx);
  }

  /** Over any continuation of a run. */
  lemma {:induction false} EndingStays(maxWaiters: nat, ops: seq<Op>, more: seq<Op>, tx: nat)
    requires tx < |Run(maxWaiters, ops).flights| && Run(maxWaiters, ops).flights[tx].ending.Some?
    ensures tx < |Run(maxWaiters, ops + more).flights|
    ensures Run(maxWaiters, ops + more).flights[tx].ending == Run(maxWaiters, ops).flights[tx].ending
  {
    if more == [] {
      assert ops + more == ops;
    } else {
      var n := |more| - 1;
      EndingStays(maxWaiters, ops, more[..n], tx);
      EndingStaysStep(maxWaiters, ops + more[..n], more[n], tx);
      assert ops + more == (ops + more[..n]) + [more[n]];
    }
  }

  /** The decision a call of `check` was given. */
  function Told(c: Call): Decision {
    if c.Waits? || c.Got? then Wait(c.tx) else Fetch
  }

  /** A `check` with nothing between its two paths does what the manager's method does. */
  lemma CheckIsAtomic(maxWaiters: nat, w: World, k: nat, d: Digest)
    requires Inv(w, maxWaiters) && k !in w.calls
    ensures var w' := Step(Step(w, maxWaiters, CheckFast(k, d)), maxWaiters, CheckSlow(k));
            && k in w'.calls
            && if d !in w.table.inflight then
                 && Told(w'.calls[k]) == Fetch && w'.table.coalesced == w.table.coalesced
                 && w'.table.inflight == w.table.inflight[d := Entry(w.table.channels, 0)]
               else if w.table.inflight[d].waiters >= maxWaiters then Told(w'.calls[k]) == Fetch && w'.table == w.table
               else
                 var e := w.table.inflight[d];
                 && Told(w'.calls[k]) == Wait(e.tx) && w'.table.coalesced == w.table.coalesced + 1
                 && w'.table.inflight == w.table.inflight[d := Entry(e.tx, e.waiters + 1)]
  {
  }

  // ---------------------------------------------------------------- what each step does in a run

  lemma RunNext(maxWaiters: nat, ops: seq<Op>, op: Op)
    ensures Run(maxWaiters, ops + [op]) == Step(Run(maxWaiters, ops), maxWaiters, op)
  {
    assert (ops + [op])[..|ops|] == ops;
  }

  /** Flight `tx` of `d` has not ended. */
  predicate OpenFlight(w: World, d: Digest, tx: nat) {
    tx < |w.flights| && w.flights[tx].digest == d && w.flights[tx].ending.None?
  }

  /** A step of `check` for `d`, on either path. */
  predicate Asks(w: World, op: Op, k: nat, d: Digest) {
    || (op == CheckFast(k, d) && k !in w.calls)
    || (op == CheckSlow(k) && k in w.calls && w.calls[k] == Slow(d))
  }

  /**
   * In every interleaving, a check that finds an open flight waits for it exactly when it has
   * fewer than `maxWaiters` waiters, and else fetches alone.
   */
  lemma WaitsExactly(maxWaiters: nat, ops: seq<Op>, op: Op, k: nat, d: Digest, tx: nat)
    requires Asks(Run(maxWaiters, ops), op, k, d) && OpenFlight(Run(maxWaiters, ops), d, tx)
    ensures var w, w' := Run(maxWaiters, ops), Run(maxWaiters, ops + [op]);
            && k in w'.calls && w'.flights == w.flights
            && if |WaitersOf(w.calls, tx)| < maxWaiters then
                 && w'.calls == w.calls[k := Waits(tx)] && w'.table.coalesced == w.table.coalesced + 1
                 && WaitersOf(w'.calls, tx) == WaitersOf(w.calls, tx) + {k} && k !in WaitersOf(w.calls, tx)
               else w'.calls == w.calls[k := Alone(d)] && w'.table == w.table
  {
    var w := Run(maxWaiters, ops);
    RunKeeps(maxWaiters, ops);
    RunNext(maxWaiters, ops, op);
    assert FlightOk(w, maxWaiters, tx);
    assert EntryOk(w, d);
    WaitersOfUpdate(w.calls, k, Waits(tx), tx);
  }

  /** A check that finds none goes on to the second path, and there opens one. */
  lemma LeadsExactly(maxWaiters: nat, ops: seq<Op>, op: Op, k: nat, d: Digest)
    requires var w := Run(maxWaiters, ops); Asks(w, op, k, d) && forall tx: nat :: !OpenFlight(w, d, tx)
    ensures var w, w' := Run(maxWaiters, ops), Run(maxWaiters, ops + [op]);
            if op.CheckFast? then w' == w.(calls := w.calls[k := Slow(d)])
            else
              && w'.calls == w.calls[k := Leads(|w.flights|)] && OpenFlight(w', d, |w.flights|)
              && w'.flights == w.flights + [w'.flights[|w.flights|]] && w'.flights[|w.flights|].creator == k
              && w'.table.coalesced == w.table.coalesced
  {
    var w := Run(maxWaiters, ops);
    RunKeeps(maxWaiters, ops);
    RunNext(maxWaiters, ops, op);
    if d in w.table.inflight {
      assert EntryOk(w, d);
      assert OpenFlight(w, d, w.table.inflight[d].tx);
    }
  }

  lemma EndsOpen(maxWaiters: nat, ops: seq<Op>, op: Op, tx: nat)
    requires (op.CompleteRemove? || op.Cancel?) && op.k !in Run(maxWaiters, ops).calls
    requires OpenFlight(Run(maxWaiters, ops), op.d, tx)
    ensures var w, w' := Run(maxWaiters, ops), Run(maxWaiters, ops + [op]);
            && tx < |w'.flights| && op.k in w'.calls
            && (forall j | j in w.calls :: j in w'.calls && w'.calls[j] == w.calls[j])
            && if op.Cancel? then w'.flights[tx].closed && w'.flights[tx].message.None?
               else w'.calls[op.k] == Sends(tx, op.result)
  {
    RunKeeps(maxWaiters, ops);
    RunNext(maxWaiters, ops, op);
    assert FlightOk(Run(maxWaiters, ops), maxWaiters, tx);
  }

  /** Completing a digest, sending, and receiving: each waiter of its open flight hears the result. */
  lemma CompletionHeard(maxWaiters: nat, ops: seq<Op>, k: nat, check: nat, d: Digest, r: Result, tx: nat, j: nat)
    requires var w := Run(maxWaiters, ops);
             k !in w.calls && OpenFlight(w, d, tx) && j in w.calls && w.calls[j] == Waits(tx)
    ensures var w := Run(maxWaiters, ops + [CompleteRemove(k, check, d, r)] + [CompleteSend(k)] + [Receive(j)]);
            j in w.calls && w.calls[j] == Got(tx, Delivered(r))
  {
    EndsOpen(maxWaiters, ops, CompleteRemove(k, check, d, r), tx);
    RunNext(maxWaiters, ops + [CompleteRemove(k, check, d, r)], CompleteSend(k));
    RunNext(maxWaiters, ops + [CompleteRemove(k, check, d, r)] + [CompleteSend(k)], Receive(j));
  }

  /** Cancelling it instead: each hears that the channel is closed. */
  lemma CancellationHeard(maxWaiters: nat, ops: seq<Op>, k: nat, check: nat, d: Digest, tx: nat, j: nat)
    requires var w := Run(maxWaiters, ops);
             k !in w.calls && OpenFlight(w, d, tx) && j in w.calls && w.calls[j] == Waits(tx)
    ensures var w := Run(maxWaiters, ops + [Cancel(k, check, d)] + [Receive(j)]);
            j in w.calls && w.calls[j] == Got(tx, ChannelClosed)
  {
    EndsOpen(maxWaiters, ops, Cancel(k, check, d), tx);
    RunNext(maxWaiters, ops + [Cancel(k, check, d)], Receive(j));
  }
}
