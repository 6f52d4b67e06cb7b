/**
 * The overwriting log ring and its readers (crates/rv-log/src/ringbuf.rs and reader.rs). The
 * ring refines an unbounded log of which only the last `capacity` records are kept.
 */
module LogRing {
  import opened Types
  import opened Quotients

  /** Where the kept records begin. */
  function Oldest(total: nat, capacity: nat): nat {
    if total <= capacity then 0 else total - capacity
  }

  /** What is left of the log from position `p` on. */
  function Available<T>(log: seq<T>, capacity: nat, p: nat): seq<T> {
    if p >= |log| then []
    else if p < Oldest(|log|, capacity) then log[Oldest(|log|, capacity)..]
    else log[p..]
  }

  /** Two positions less than a capacity apart fall into different slots. */
  lemma SlotsDiffer(p: nat, q: nat, capacity: nat)
    requires p < q < p + capacity
    ensures p % capacity != q % capacity
  {
    var a, b := p / capacity, q / capacity;
    assert p == a * capacity + p % capacity;
    assert q == b * capacity + q % capacity;
    MulOrder(a, b, capacity);
  }

  lemma NextSlot(p: nat, capacity: nat)
    requires capacity > 0
    ensures (p % capacity + 1) % capacity == (p + 1) % capacity
  {
    var a, b := p / capacity, p % capacity;
    assert p == a * capacity + b;
    if b + 1 < capacity {
      DivModUnique(b + 1, capacity, 0, b + 1);
      DivModUnique(p + 1, capacity, a, b + 1);
    } else {
      DivModUnique(b + 1, capacity, 1, 0);
      assert (a + 1) * capacity == a * capacity + capacity;
      DivModUnique(p + 1, capacity, a + 1, 0);
    }
  }

  class RingBuffer<T> {
    const capacity: nat
    const slots: array<Option<T>>
    var writePos: nat
    var totalWritten: nat
    ghost var log: seq<T>

    ghost predicate Valid()
      reads this, slots
    {
      && capacity > 0 && slots.Length == capacity && totalWritten == |log|
      && writePos == totalWritten % capacity
      && forall p | Oldest(|log|, capacity) <= p < |log| :: slots[p % capacity] == Some(log[p])
    }

    /** The source panics on a capacity of zero. */
    constructor (capacity: nat)
      requires capacity > 0
      ensures Valid() && fresh(slots) && log == [] && this.capacity == capacity
    {
      this.capacity := capacity;
      slots := new Option<T>[capacity](_ => None);
      writePos := 0;
      totalWritten := 0;
      log := [];
    }

    method Write(record: T)
      requires Valid()
      modifies this, slots
      ensures Valid() && log == old(log) + [record]
    {
      NextSlot(totalWritten, capacity);
      forall p | Oldest(|log| + 1, capacity) <= p < |log|
        ensures p % capacity != totalWritten % capacity
      {
        SlotsDiffer(p, totalWritten, capacity);
      }
      var pos := writePos;
      slots[pos] := Some(record);
      writePos := (pos + 1) % capacity;
      totalWritten := totalWritten + 1;
      log := log + [record];
    }

    method ReadFrom(position: nat) returns (records: seq<T>, next: nat)
      requires Valid()
      ensures records == Available(log, capacity, position) && next == |log|
    {
      var total := totalWritten;
      if position >= total {
        return [], total;
      }
      var stored := if total < capacity then total else capacity;
      var oldestAvailable := total - stored;
      var effectiveStart := if position > oldestAvailable then position else oldestAvailable;
      records := [];
      for i := 0 to total - effectiveStart
        invariant records == log[effectiveStart..effectiveStart + i]
      {
        var slot := slots[(effectiveStart + i) % capacity];
        if slot.Some? {
          records := records + [slot.value];
        }
      }
      return records, total;
    }

    method Len() returns (n: nat)
      requires Valid()
      ensures n == |Available(log, capacity, 0)|
    {
      n := if totalWritten < capacity then totalWritten else capacity;
    }
  }

  class LogReader<T> {
    const buffer: RingBuffer<T>
    var position: nat

    /** A reader of what is written from now on. */
    constructor (buffer: RingBuffer<T>)
      requires buffer.Valid()
      ensures this.buffer == buffer && position == |buffer.log|
    {
      this.buffer := buffer;
      position := buffer.totalWritten;
    }

    constructor FromStart(buffer: RingBuffer<T>)
      ensures this.buffer == buffer && position == 0
    {
      this.buffer := buffer;
      position := 0;
    }

    method ReadNew() returns (records: seq<T>)
      requires buffer.Valid()
      modifies this
      ensures records == Available(buffer.log, buffer.capacity, old(position)) && position == |buffer.log|
    {
      var next;
      records, next := buffer.ReadFrom(position);
      position := next;
    }

    method ReadAll() returns (records: seq<T>)
      requires buffer.Valid()
      ensures records == buffer.log[Oldest(|buffer.log|, buffer.capacity)..]
    {
      var next;
      records, next := buffer.ReadFrom(0);
    }

    /** The last `count` records, or all that are stored when there are fewer. */
    method Tail(count: nat) returns (records: seq<T>)
      requires buffer.Valid()
      ensures var stored := |buffer.log| - Oldest(|buffer.log|, buffer.capacity);
              var n := if count < stored then count else stored;
              records == buffer.log[|buffer.log| - n..]
    {
      var skip := TailStart(buffer.totalWritten, buffer.capacity, count);
      var next;
      records, next := buffer.ReadFrom(skip);
    }
  }

  /** Where `tail` starts reading, from the total it saw. */
  function TailStart(total: nat, capacity: nat, count: nat): (skip: nat) {
    var stored := if total < capacity then total else capacity;
    if stored > count then total - count else total - stored
  }

  /**
   * `tail` takes the lock twice. With `w` records written in between it returns those as well,
   * up to what the ring can hold.
   */
  lemma TailBetweenWrites<T>(before: seq<T>, after: seq<T>, capacity: nat, count: nat)
    requires before <= after && capacity > 0
    ensures var stored := |before| - Oldest(|before|, capacity);
            var n := (if count < stored then count else stored) + |after| - |before|;
            var m := if n < capacity then n else capacity;
            Available(after, capacity, TailStart(|before|, capacity, count)) == after[|after| - m..]
  {
  }

  /** Asked for one record, with one written in between, `tail` returns two. */
  lemma TailReturnsMore()
    ensures Available([7, 8], 10, TailStart(1, 10, 1)) == [7, 8]
  {
  }

  // ---------------------------------------------------------------- a reader over a whole run

  datatype Op<T> = Append(record: T) | ReadOnce

  /** The log, and one reader's position and everything it has been given. */
  datatype Session<T> = Session(log: seq<T>, position: nat, received: seq<T>)

  function StepOp<T>(s: Session<T>, capacity: nat, op: Op<T>): Session<T> {
    match op
    case Append(x) => s.(log := s.log + [x])
    case ReadOnce => Session(s.log, |s.log|, s.received + Available(s.log, capacity, s.position))
  }

  /** A run from a log of which the reader has position `start`. */
  function RunOps<T>(log: seq<T>, start: nat, capacity: nat, ops: seq<Op<T>>): Session<T> {
    if ops == [] then Session(log, start, [])
    else StepOp(RunOps(log, start, capacity, ops[..|ops| - 1]), capacity, ops[|ops| - 1])
  }

  /** At each of its reads, the reader is at most `capacity` records behind. */
  ghost predicate KeepsUp<T>(log: seq<T>, start: nat, capacity: nat, ops: seq<Op<T>>) {
    if ops == [] then true
    else
      var s := RunOps(log, start, capacity, ops[..|ops| - 1]);
      KeepsUp(log, start, capacity, ops[..|ops| - 1]) && (ops[|ops| - 1].ReadOnce? ==> |s.log| - s.position <= capacity)
  }

  /**
   * A reader receives the log from its start to its position, every record once and in order,
   * exactly when it always keeps up; otherwise it has received strictly fewer records.
   */
  lemma {:induction false} ReceivesAllIff<T>(log: seq<T>, start: nat, capacity: nat, ops: seq<Op<T>>)
    requires start <= |log|
    ensures var s := RunOps(log, start, capacity, ops);
            && start <= s.position <= |s.log|
            && (KeepsUp(log, start, capacity, ops) ==> s.received == s.log[start..s.position])
            && (!KeepsUp(log, start, capacity, ops) ==> |s.received| < s.position - start)
  {
    if ops != [] {
      ReceivesAllIff(log, start, capacity, ops[..|ops| - 1]);
      var s := RunOps(log, start, capacity, ops[..|ops| - 1]);
      if ops[|ops| - 1].ReadOnce? {
        if s.position < |s.log| {
          assert s.log[start..s.position] + s.log[s.position..] == s.log[start..];
        }
        assert s.log[start..|s.log|] == s.log[start..];
      } else {
        assert (s.log + [ops[|ops| - 1].record])[start..s.position] == s.log[start..s.position];
      }
    }
  }

  /** A reader and its ring, driven through any run, end where the run does. */
  method RunReader<T>(reader: LogReader<T>, ops: seq<Op<T>>) returns (received: seq<T>)
    requires reader.buffer.Valid() && reader.position <= |reader.buffer.log|
    modifies reader, reader.buffer, reader.buffer.slots
    ensures reader.buffer.Valid()
    ensures Session(reader.buffer.log, reader.position, received) ==
            RunOps(old(reader.buffer.log), old(reader.position), reader.buffer.capacity, ops)
    ensures var log, start := old(reader.buffer.log), old(reader.position);
            && start <= reader.position <= |reader.buffer.log|
            && (received == reader.buffer.log[start..reader.position] <==>
                KeepsUp(log, start, reader.buffer.capacity, ops))
  {
    var ring := reader.buffer;
    received := [];
    for i := 0 to |ops|
      invariant ring.Valid()
      invariant Session(ring.log, reader.position, received) ==
                RunOps(old(ring.log), old(reader.position), ring.capacity, ops[..i])
    {
      assert ops[..i + 1][..i] == ops[..i];
      match ops[i]
      case Append(record) => ring.Write(record);
      case ReadOnce =>
        var records := reader.ReadNew();
        received := received + records;
    }
    assert ops[..|ops|] == ops;
    ReceivesAllIff(old(ring.log), old(reader.position), ring.capacity, ops);
  }
}
