/**
 * The streaming body (crates/rv-cache/src/streaming.rs): chunks appended under a lock, a
 * completion flag and a byte counter that are updated outside it. The class is the buffer
 * itself; the state machine interleaves one producer with any number of readers at every
 * point where the source's steps can be separated.
 */
module Streaming {
  import opened Types

  /** All bytes of the chunks, in order. */
  function Flat(chunks: seq<seq<byte>>): (s: seq<byte>) {
    if chunks == [] then [] else Flat(chunks[..|chunks| - 1]) + chunks[|chunks| - 1]
  }

  /** The bytes from `offset` on; none when the offset is past the end. */
  function From(s: seq<byte>, offset: nat): seq<byte> {
    if offset <= |s| then s[offset..] else []
  }

  lemma FlatPush(chunks: seq<seq<byte>>, c: seq<byte>)
    ensures Flat(chunks + [c]) == Flat(chunks) + c
  {
    assert (chunks + [c])[..|chunks|] == chunks;
  }

  /** Fewer chunks, a prefix of the bytes. */
  lemma {:induction false} FlatPrefix(chunks: seq<seq<byte>>, n: nat)
    requires n <= |chunks|
    ensures Flat(chunks[..n]) <= Flat(chunks)
    decreases |chunks|
  {
    if n == |chunks| {
      assert chunks[..n] == chunks;
    } else {
      FlatPrefix(chunks[..|chunks| - 1], n);
      assert chunks[..|chunks| - 1][..n] == chunks[..n];
    }
  }

  /** What one more chunk adds to the bytes from `offset` on. */
  lemma FromPush(s: seq<byte>, c: seq<byte>, offset: nat)
    ensures From(s + c, offset) ==
              if |s| + |c| <= offset then From(s, offset)
              else From(s, offset) + c[if offset > |s| then offset - |s| else 0..]
  {
  }

  class StreamingBody {
    var chunks: seq<seq<byte>>
    var complete: bool
    var totalSize: nat

    ghost predicate Valid()
      reads this
    {
      totalSize == |Flat(chunks)|
    }

    constructor ()
      ensures Valid() && chunks == [] && !complete
    {
      chunks := [];
      complete := false;
      totalSize := 0;
    }

    method Append(data: seq<byte>)
      requires Valid()
      modifies this`chunks, this`totalSize
      ensures Valid() && Flat(chunks) == old(Flat(chunks)) + data
    {
      FlatPush(chunks, data);
      chunks := chunks + [data];
      totalSize := totalSize + |data|;
    }

    method MarkComplete()
      modifies this`complete
      ensures complete
    {
      complete := true;
    }

    method ReadFrom(offset: nat) returns (result: seq<byte>, done: bool)
      ensures result == From(Flat(chunks), offset) && done == complete
    {
      done := complete;
      result := [];
      var currentOffset: nat := 0;
      for i := 0 to |chunks|
        invariant CopiedTo(chunks, i, offset, currentOffset, result)
      {
        CopyStep(chunks, i, offset, currentOffset, result);
        var chunkEnd := currentOffset + |chunks[i]|;
        if chunkEnd <= offset {
          currentOffset := chunkEnd;
          continue;
        }
        var startInChunk := if offset > currentOffset then offset - currentOffset else 0;
        result := result + chunks[i][startInChunk..];
        currentOffset := chunkEnd;
      }
      assert chunks[..|chunks|] == chunks;
    }
  }

  /** The first `i` chunks have been passed and their bytes from `offset` on copied. */
  ghost predicate CopiedTo(chunks: seq<seq<byte>>, i: nat, offset: nat, current: nat, result: seq<byte>) {
    i <= |chunks| && current == |Flat(chunks[..i])| && result == From(Flat(chunks[..i]), offset)
  }

  lemma CopyStep(chunks: seq<seq<byte>>, i: nat, offset: nat, current: nat, result: seq<byte>)
    requires i < |chunks| && CopiedTo(chunks, i, offset, current, result)
    ensures CopiedTo(chunks, i + 1, offset, current + |chunks[i]|,
                     if current + |chunks[i]| <= offset then result
                     else result + chunks[i][if offset > current then offset - current else 0..])
  {
    FlatPush(chunks[..i], chunks[i]);
    FromPush(Flat(chunks[..i]), chunks[i], offset);
    assert chunks[..i + 1] == chunks[..i] + [chunks[i]];
  }

  // ---------------------------------------------------------------- interleavings

  /** Where a reader is inside `read_from`. */
  datatype Place = Outside | Locked | Flagged(flag: bool)

  /** A reader that always asks from the end of what it has. */
  datatype Reader = Reader(received: seq<byte>, sawComplete: bool, place: Place)

  /** The producer appends each chunk of its input, then marks completion. */
  datatype Producer = Ready | Counting(len: nat) | Stopped

  datatype World = World(
    chunks: seq<seq<byte>>, complete: bool, totalSize: nat, producer: Producer,
    lock: Option<nat>, readers: map<nat, Reader>)

  datatype Step =
    | Push                 // append, under the lock
    | Count                // the counter is updated after the lock is released
    | Mark                 // mark_complete takes no lock
    | Join(r: nat)         // a new reader
    | Lock(r: nat)
    | ReadFlag(r: nat)     // under the lock
    | Copy(r: nat)         // under the lock, then released

  const START: World := World([], false, 0, Ready, None, map[])

  /** A reader copies what is there beyond what it has and leaves. */
  function Copied(w: World, x: Reader): Reader
    requires x.place.Flagged?
  {
    Reader(x.received + From(Flat(w.chunks), |x.received|), x.place.flag, Outside)
  }

  /** One step with the producer's whole input given; a step that is not possible changes nothing. */
  function Next(w: World, input: seq<seq<byte>>, s: Step): World {
    match s
    case Push =>
      if w.lock.None? && w.producer.Ready? && |w.chunks| < |input| then
        w.(chunks := w.chunks + [input[|w.chunks|]], producer := Counting(|input[|w.chunks|]|))
      else w
    case Count =>
      if w.producer.Counting? then w.(totalSize := w.totalSize + w.producer.len, producer := Ready) else w
    case Mark =>
      if w.producer.Ready? && |w.chunks| == |input| then w.(complete := true, producer := Stopped) else w
    case Join(r) =>
      if r !in w.readers then w.(readers := w.readers[r := Reader([], false, Outside)]) else w
    case Lock(r) =>
      if w.lock.None? && r in w.readers && w.readers[r].place.Outside? then
        w.(lock := Some(r), readers := w.readers[r := w.readers[r].(place := Locked)])
      else w
    case ReadFlag(r) =>
      if r in w.readers && w.readers[r].place.Locked? then
        w.(readers := w.readers[r := w.readers[r].(place := Flagged(w.complete))])
      else w
    case Copy(r) =>
      if r in w.readers && w.readers[r].place.Flagged? then
        w.(lock := None, readers := w.readers[r := Copied(w, w.readers[r])])
      else w
  }

  function Run(input: seq<seq<byte>>, steps: seq<Step>): World {
    if steps == [] then START else Next(Run(input, steps[..|steps| - 1]), input, steps[|steps| - 1])
  }

  // ---------------------------------------------------------------- the invariant

  /** What a reader has is a prefix; a flag it read or returned as set means everything was there. */
  ghost predicate ReaderOk(w: World, input: seq<seq<byte>>, r: nat)
    requires r in w.readers
  {
    var x := w.readers[r];
    && x.received <= Flat(w.chunks)
    && (!x.place.Outside? <==> w.lock == Some(r))
    && (x.place.Flagged? && x.place.flag ==> w.complete)
    && (x.sawComplete ==> w.complete && x.received == Flat(w.chunks))
  }

  ghost predicate Inv(w: World, input: seq<seq<byte>>) {
    && w.chunks <= input
    && (w.complete ==> w.chunks == input)
    && (w.complete <==> w.producer.Stopped?)
    && w.totalSize + (if w.producer.Counting? then w.producer.len else 0) == |Flat(w.chunks)|
    && (w.lock.Some? ==> w.lock.value in w.readers)
    && (forall r | r in w.readers :: ReaderOk(w, input, r))
  }

  lemma PushKeeps(w: World, input: seq<seq<byte>>)
    requires Inv(w, input)
    ensures Inv(Next(w, input, Push), input)
  {
    var w' := Next(w, input, Push);
    if w' != w {
      FlatPush(w.chunks, input[|w.chunks|]);
      forall r | r in w'.readers
        ensures ReaderOk(w', input, r)
      {
        assert ReaderOk(w, input, r);
      }
    }
  }

  lemma ProducerKeeps(w: World, input: seq<seq<byte>>, s: Step)
    requires Inv(w, input) && (s.Count? || s.Mark?)
    ensures Inv(Next(w, input, s), input)
  {
    var w' := Next(w, input, s);
    forall r | r in w'.readers
      ensures ReaderOk(w', input, r)
    {
      assert ReaderOk(w, input, r);
    }
  }

  lemma ReaderKeeps(w: World, input: seq<seq<byte>>, s: Step)
    requires Inv(w, input) && (s.Join? || s.Lock? || s.ReadFlag? || s.Copy?)
    ensures Inv(Next(w, input, s), input)
  {
    var w' := Next(w, input, s);
    forall r | r in w'.readers
      ensures ReaderOk(w', input, r)
    {
      assert r in w.readers ==> ReaderOk(w, input, r);
      assert s.r in w.readers ==> ReaderOk(w, input, s.r);
    }
  }

  lemma {:induction false} RunKeeps(input: seq<seq<byte>>, steps: seq<Step>)
    ensures Inv(Run(input, steps), input)
  {
    if steps != [] {
      var w, s := Run(input, steps[..|steps| - 1]), steps[|steps| - 1];
      RunKeeps(input, steps[..|steps| - 1]);
      match s
      case Push => PushKeeps(w, input);
      case Count => ProducerKeeps(w, input, s);
      case Mark => ProducerKeeps(w, input, s);
      case _ => ReaderKeeps(w, input, s);
    }
  }

  // ---------------------------------------------------------------- what holds in every interleaving

  /** A reader's data is always a prefix of the appended bytes; one that saw completion has all of the input. */
  lemma ReadersSafe(input: seq<seq<byte>>, steps: seq<Step>, r: nat)
    requires r in Run(input, steps).readers
    ensures var w := Run(input, steps);
            var x := w.readers[r];
            && x.received <= Flat(w.chunks) <= Flat(input)
            && (x.sawComplete ==> x.received == Flat(input))
  {
    RunKeeps(input, steps);
    var w := Run(input, steps);
    assert ReaderOk(w, input, r);
    FlatPrefix(input, |w.chunks|);
    assert input[..|w.chunks|] == w.chunks;
  }

  /** The counter never exceeds the bytes there are, and lags only while an append is under way. */
  lemma CounterLags(input: seq<seq<byte>>, steps: seq<Step>)
    ensures var w := Run(input, steps);
            w.totalSize <= |Flat(w.chunks)| && (!w.producer.Counting? ==> w.totalSize == |Flat(w.chunks)|)
  {
    RunKeeps(input, steps);
  }

  /** The producer's steps for the first `n` chunks. */
  function Produce(n: nat): seq<Step> {
    if n == 0 then [] else Produce(n - 1) + [Push] + [Count]
  }

  lemma RunNext(input: seq<seq<byte>>, steps: seq<Step>, s: Step)
    ensures Run(input, steps + [s]) == Next(Run(input, steps), input, s)
  {
    assert (steps + [s])[..|steps|] == steps;
  }

  lemma {:induction false} Produced(input: seq<seq<byte>>, n: nat)
    requires n <= |input|
    ensures Run(input, Produce(n)) == World(input[..n], false, |Flat(input[..n])|, Ready, None, map[])
  {
    if n > 0 {
      Produced(input, n - 1);
      RunNext(input, Produce(n - 1), Push);
      RunNext(input, Produce(n - 1) + [Push], Count);
      ProducesOne(input, n);
    }
  }

  lemma ProducesOne(input: seq<seq<byte>>, n: nat)
    requires 0 < n <= |input|
    ensures var w := World(input[..n - 1], false, |Flat(input[..n - 1])|, Ready, None, map[]);
            Next(Next(w, input, Push), input, Count) == World(input[..n], false, |Flat(input[..n])|, Ready, None, map[])
  {
    assert input[..n] == input[..n - 1] + [input[n - 1]];
    FlatPush(input[..n - 1], input[n - 1]);
  }

  /** Undisturbed, the producer puts its whole input there, counts it and marks completion. */
  lemma ProducerFinishes(input: seq<seq<byte>>)
    ensures Run(input, Produce(|input|) + [Mark]) == World(input, true, |Flat(input)|, Stopped, None, map[])
  {
    Produced(input, |input|);
    assert input[..|input|] == input;
    RunNext(input, Produce(|input|), Mark);
  }

  /** A read that starts after completion returns everything that is left, and says so. */
  lemma ReadAfterComplete(input: seq<seq<byte>>, steps: seq<Step>, r: nat)
    requires var w := Run(input, steps); w.complete && w.lock.None? && r in w.readers
    ensures var x := Run(input, steps + [Lock(r), ReadFlag(r), Copy(r)]);
            r in x.readers && x.readers[r].sawComplete && x.readers[r].received == Flat(input)
  {
    RunKeeps(input, steps);
    var w := Run(input, steps);
    assert ReaderOk(w, input, r);
    RunNext(input, steps, Lock(r));
    RunNext(input, steps + [Lock(r)], ReadFlag(r));
    RunNext(input, steps + [Lock(r)] + [ReadFlag(r)], Copy(r));
    assert steps + [Lock(r), ReadFlag(r), Copy(r)] == steps + [Lock(r)] + [ReadFlag(r)] + [Copy(r)];
  }
}
