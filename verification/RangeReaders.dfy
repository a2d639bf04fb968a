/** The chunked range reader of internal/reader/tg_reader.go, and what holds of all its runs. */
module RangeReaders {
  import opened ChunkLayout
  import opened Numbers
  import opened RangeFetching
  import opened Sequences
  import opened Streams

  /** The constants are the ones `newTGMultiReader` computes for this range of this source. */
  ghost predicate Shaped(c: Config, l: Layout) {
    && l.Valid() && l.end < |c.source| && c.concurrency >= 1
    && c.chunkSize == l.chunkSize && c.leftCut == l.LeftCut() && c.rightCut == l.RightCut()
    && c.totalParts == l.TotalParts()
  }

  function Target(c: Config, l: Layout): seq<Byte>
    requires l.start <= l.end < |c.source|
  {
    c.source[l.start..l.end + 1]
  }

  /** The state of a reader for the range, before anything has run. */
  function Init(l: Layout): State
    requires l.Valid()
  {
    ChunksCover(l);
    State(0, l.Offset(), Idle, false, [], false, l.end - l.start + 1, [], 0, [])
  }

  ghost predicate Sound(c: Config, l: Layout, s: State)
    requires Shaped(c, l)
  {
    Inv(c, Pieces(l, c.source), s) && s.offset == l.At(s.currentPart)
  }

  lemma PiecesFit(c: Config, l: Layout)
    requires Shaped(c, l)
    ensures Fits(c, Pieces(l, c.source)) && Flatten(Pieces(l, c.source)) == Target(c, l)
  {
    ChunksCover(l);
    PiecesAreRange(l, c.source);
  }

  lemma InitIsSound(c: Config, l: Layout)
    requires Shaped(c, l)
    ensures Sound(c, l, Init(l)) && Left(c, l, Init(l)) == Stream(Target(c, l), EOF, !c.reliable, true)
  {
    PiecesFit(c, l);
    assert Pieces(l, c.source)[..0] == [];
  }

  /** The chunk a fetch brings, with `fillBatch`'s cuts, is the piece of the range it stands for. */
  lemma FetchedIsPiece(c: Config, l: Layout, s: State, i: nat)
    requires Shaped(c, l) && s.offset == l.At(s.currentPart) && s.currentPart + i < c.totalParts
    ensures Fetched(c, s, i) == Piece(l, c.source, s.currentPart + i)
  {
    hide Cut, Chunk, Piece, Layout.At, Layout.Offset, Layout.TotalParts, Layout.LeftCut, Layout.RightCut;
    FurtherOn(l, s.currentPart, i);
    CutIsPiece(c, l, s.currentPart + i, s.offset + i * c.chunkSize);
  }

  lemma FurtherOn(l: Layout, part: nat, i: nat)
    requires l.Valid()
    ensures l.At(part) + i * l.chunkSize == l.At(part + i)
  {
    MulBy(part, i, l.chunkSize);
  }

  lemma CutIsPiece(c: Config, l: Layout, part: nat, at: nat)
    requires Shaped(c, l) && part < c.totalParts && at == l.At(part)
    ensures Cut(c, part, Chunk(c.source, at, c.chunkSize)) == Piece(l, c.source, part)
  {
    CutFits(l, c.source, part);
    assert |Chunk(c.source, at, c.chunkSize)| == Min(at + c.chunkSize, |c.source|) - at;
  }

  lemma StepIsSound(c: Config, l: Layout, s: State, step: Label)
    requires Shaped(c, l) && Sound(c, l, s) && Enabled(c, s, step)
    ensures Sound(c, l, Next(c, s, step))
  {
    PiecesFit(c, l);
    var pieces := Pieces(l, c.source);
    if step.Arrive? {
      FetchedIsPiece(c, l, s, step.i);
    }
    StepKeepsInv(c, pieces, s, step);
    StepKeepsPlace(c, l, s, step);
  }

  lemma StepKeepsPlace(c: Config, l: Layout, s: State, step: Label)
    requires l.Valid() && c.chunkSize == l.chunkSize && s.offset == l.At(s.currentPart) && Enabled(c, s, step)
    ensures var s' := Next(c, s, step); s'.offset == l.At(s'.currentPart)
  {
    if step.EndBatch? {
      MulBy(s.currentPart, c.concurrency, l.chunkSize);
    }
  }

  // Whole runs.

  /** The steps can be taken one after the other from `s`, ending in `last`. */
  ghost predicate StepsTo(c: Config, s: State, labels: seq<Label>, last: State)
    decreases |labels|
  {
    if labels == [] then s == last
    else Enabled(c, s, labels[0]) && StepsTo(c, Next(c, s, labels[0]), labels[1..], last)
  }

  lemma {:induction false} RunIsSound(c: Config, l: Layout, s: State, labels: seq<Label>, last: State)
    requires Shaped(c, l) && Sound(c, l, s) && StepsTo(c, s, labels, last)
    ensures Sound(c, l, last)
    decreases |labels|
  {
    if labels != [] {
      StepIsSound(c, l, s, labels[0]);
      RunIsSound(c, l, Next(c, s, labels[0]), labels[1..], last);
    }
  }

  /**
   Safety over every run and interleaving: what has been delivered is always a prefix of the requested
   range, and an end of file is reported only when it is the whole of it.
   */
  lemma EveryRunIsSafe(c: Config, l: Layout, labels: seq<Label>, last: State, step: Label)
    requires Shaped(c, l) && StepsTo(c, Init(l), labels, last)
    ensures last.delivered <= Target(c, l)
    ensures Enabled(c, last, step) && ReportsEnd(c, last, step) ==>
              Next(c, last, step).delivered == Target(c, l)
  {
    InitIsSound(c, l);
    PiecesFit(c, l);
    RunIsSound(c, l, Init(l), labels, last);
    InvIsSafe(c, Pieces(l, c.source), last);
    if Enabled(c, last, step) {
      StepIsSound(c, l, last, step);
      InvIsSafe(c, Pieces(l, c.source), Next(c, last, step));
    }
  }

  /** In a run without failures the consumer never finds the channel closed early, nor the stream cancelled. */
  lemma ReliableRunNeverErrs(c: Config, l: Layout, labels: seq<Label>, last: State)
    requires Shaped(c, l) && c.reliable && StepsTo(c, Init(l), labels, last)
    ensures !Enabled(c, last, SeeClosed) && !Enabled(c, last, SeeCancelled)
  {
    InitIsSound(c, l);
    RunIsSound(c, l, Init(l), labels, last);
    if Enabled(c, last, SeeClosed) {
      ReliableNeverErrs(c, Pieces(l, c.source), last, SeeClosed);
    }
    if Enabled(c, last, SeeCancelled) {
      ReliableNeverErrs(c, Pieces(l, c.source), last, SeeCancelled);
    }
  }

  lemma {:induction false} RunUsesWork(c: Config, l: Layout, s: State, labels: seq<Label>, last: State)
    requires Shaped(c, l) && c.reliable && Sound(c, l, s) && StepsTo(c, s, labels, last)
    requires forall i :: 0 <= i < |labels| ==> Progress(labels[i])
    ensures Sound(c, l, last) && |labels| + Work(c, last) <= Work(c, s)
    decreases |labels|
  {
    if labels != [] {
      PiecesFit(c, l);
      StepIsSound(c, l, s, labels[0]);
      ProgressReducesWork(c, Pieces(l, c.source), s, labels[0]);
      RunUsesWork(c, l, Next(c, s, labels[0]), labels[1..], last);
    }
  }

  /**
   Termination without deadlock: however the goroutines and the consumer are scheduled, a run without
   failures takes a bounded number of steps, and while the producer is alive or something is undelivered
   there is a step to take. So it ends with the producer gone and the whole range delivered.
   */
  lemma ReliableRunCompletes(c: Config, l: Layout, labels: seq<Label>, last: State)
    requires Shaped(c, l) && c.reliable && StepsTo(c, Init(l), labels, last)
    requires forall i :: 0 <= i < |labels| ==> Progress(labels[i])
    ensures |labels| <= Work(c, Init(l))
    ensures (forall step :: Progress(step) ==> !Enabled(c, last, step)) ==>
              last.phase.Stopped? && last.closed && last.delivered == Target(c, l)
  {
    InitIsSound(c, l);
    PiecesFit(c, l);
    RunUsesWork(c, l, Init(l), labels, last);
    WorkIsNat(c, Pieces(l, c.source), last);
    if !Finished(Pieces(l, c.source), last) {
      var step := NoDeadlock(c, Pieces(l, c.source), last);
    }
  }

  /** In no run are there more chunks on the channel than it has room for, nor more fetches under way than allowed. */
  lemma {:induction false} Bounded(c: Config, s: State, labels: seq<Label>, last: State)
    requires StepsTo(c, s, labels, last) && |s.channel| <= c.buffers
    requires s.phase.Fetching? ==> |s.phase.slots| <= c.concurrency
    ensures |last.channel| <= c.buffers && (last.phase.Fetching? ==> |last.phase.slots| <= c.concurrency)
    decreases |labels|
  {
    if labels != [] {
      Bounded(c, Next(c, s, labels[0]), labels[1..], last);
    }
  }

  /** All the fetches of the batch that are still under way fail, one after the other. */
  lemma {:induction false} FetchesFail(c: Config, s: State, k: nat) returns (labels: seq<Label>, last: State)
    requires !c.reliable && s.phase.Fetching? && k <= |s.phase.slots|
    requires forall i :: 0 <= i < |s.phase.slots| ==> s.phase.slots[i] == if i < k then Lost else Waiting
    ensures StepsTo(c, s, labels, last)
    ensures last.phase.Fetching? && |last.phase.slots| == |s.phase.slots| && last == s.(phase := last.phase)
    ensures forall i :: 0 <= i < |last.phase.slots| ==> last.phase.slots[i] == Lost
    decreases |s.phase.slots| - k
  {
    if k == |s.phase.slots| {
      labels, last := [], s;
    } else {
      var next := Next(c, s, Fail(k));
      var rest;
      rest, last := FetchesFail(c, next, k + 1);
      labels := [Fail(k)] + rest;
    }
  }

  lemma {:induction false} StepsToMore(c: Config, s: State, a: seq<Label>, m: State, b: seq<Label>, last: State)
    requires StepsTo(c, s, a, m) && StepsTo(c, m, b, last)
    ensures StepsTo(c, s, a + b, last)
    decreases |a|
  {
    if a == [] {
      assert a + b == b;
    } else {
      StepsToMore(c, Next(c, s, a[0]), a[1..], m, b, last);
      assert (a + b)[1..] == a[1..] + b;
    }
  }

  /** Fetches do fail: where they may, there is a run in which nothing is delivered, and the consumer is told so. */
  lemma NothingDelivered(c: Config, l: Layout) returns (labels: seq<Label>, last: State)
    requires Shaped(c, l) && !c.reliable
    ensures StepsTo(c, Init(l), labels, last) && last.delivered == []
    ensures Enabled(c, last, SeeClosed) && Enabled(c, last, SeeCancelled)
  {
    ChunksCover(l);
    var begun := Next(c, Init(l), Begin);
    var fails, failed := FetchesFail(c, begun, 0);
    var joined := Next(c, failed, Join);
    assert failed.phase.slots[0] == Lost;
    last := Next(c, joined, Close);
    assert StepsTo(c, joined, [Close], last) && StepsTo(c, failed, [Join], joined) by {
      assert [Close][1..] == [] && [Join][1..] == [];
    }
    StepsToMore(c, failed, [Join], joined, [Close], last);
    StepsToMore(c, begun, fails, failed, [Join] + [Close], last);
    labels := [Begin] + (fails + ([Join] + [Close]));
    assert labels[1..] == fails + ([Join] + [Close]);
  }

  /** How many of the steps are the producer's. */
  function ProducerSteps(labels: seq<Label>): nat {
    if labels == [] then 0 else (if OfProducer(labels[0]) then 1 else 0) + ProducerSteps(labels[1..])
  }

  lemma {:induction false} RunUsesProducerWork(c: Config, l: Layout, s: State, labels: seq<Label>, last: State)
    requires Shaped(c, l) && Sound(c, l, s) && StepsTo(c, s, labels, last)
    ensures ProducerSteps(labels) + ProducerWork(c, last) <= ProducerWork(c, s)
    ensures s.cancelled ==> last.cancelled
    decreases |labels|
  {
    if labels != [] {
      hide Sound, Shaped, Inv;
      PiecesOf(c, l, s);
      StepIsSound(c, l, s, labels[0]);
      if OfProducer(labels[0]) {
        ProducerReducesWork(c, Pieces(l, c.source), s, labels[0]);
      } else {
        OthersKeepProducerWork(c, Pieces(l, c.source), s, labels[0]);
      }
      RunUsesProducerWork(c, l, Next(c, s, labels[0]), labels[1..], last);
    }
  }

  lemma PiecesOf(c: Config, l: Layout, s: State)
    requires Shaped(c, l) && Sound(c, l, s)
    ensures l.Valid() && l.end < |c.source| && Fits(c, Pieces(l, c.source)) && Inv(c, Pieces(l, c.source), s)
    ensures s.phase.Sending? ==> s.phase.next <= |s.phase.batch|
    ensures ProducerWork(c, s) >= 0
  {
    PiecesFit(c, l);
    if s.phase.Fetching? {
      SettledBound(s.phase.slots);
    }
  }

  /**
   The producer never leaks: in every run, failing or not, it takes a bounded number of steps, and after a failed fetch
   or a cancellation there is always one it can take, whatever the consumer does, until it is gone and the channel
   closed.
   */
  lemma ProducerEnds(c: Config, l: Layout, labels: seq<Label>, last: State)
    requires Shaped(c, l) && StepsTo(c, Init(l), labels, last)
    ensures ProducerSteps(labels) <= ProducerWork(c, Init(l))
    ensures last.cancelled && (forall step :: OfProducer(step) ==> !Enabled(c, last, step)) ==>
              last.phase.Stopped? && last.closed
    ensures last.phase.Fetching? && Lost in last.phase.slots && Enabled(c, last, Join) ==> Next(c, last, Join).cancelled
  {
    InitIsSound(c, l);
    RunUsesProducerWork(c, l, Init(l), labels, last);
    RunIsSound(c, l, Init(l), labels, last);
    PiecesOf(c, l, last);
    if last.cancelled && !last.phase.Stopped? {
      var step := CancelledGoesOn(c, last);
    }
  }

  // The reader object.

  /** What is left of the range; if fetches may fail or the stream be cancelled, it may break off. */
  function Left(c: Config, l: Layout, s: State): Stream
    requires l.start <= l.end < |c.source|
  {
    var target := Target(c, l);
    Stream(if |s.delivered| <= |target| then target[|s.delivered|..] else [], EOF, !c.reliable, true)
  }

  /** Copying out of the current chunk is a read of the stream. */
  lemma CopyReads(c: Config, l: Layout, s: State, cap: nat)
    requires Shaped(c, l) && Sound(c, l, s) && Enabled(c, s, Copy(cap))
    ensures var s' := Next(c, s, Copy(cap));
            var err := if s'.limit <= 0 then EOF else Nil;
            StreamRead(Left(c, l, s), cap, s.cur[..Min(cap, |s.cur|)], err, Left(c, l, s'))
  {
    var s' := Next(c, s, Copy(cap));
    PiecesFit(c, l);
    StepIsSound(c, l, s, Copy(cap));
    InvIsSafe(c, Pieces(l, c.source), s);
    InvIsSafe(c, Pieces(l, c.source), s');
    RestOfPrefix(Target(c, l), s.delivered, s.cur[..Min(cap, |s.cur|)]);
  }

  lemma RestOfPrefix(target: seq<Byte>, front: seq<Byte>, more: seq<Byte>)
    requires front + more <= target
    ensures front <= target && target[|front|..] == more + target[|front + more|..]
  {
    assert target == front + more + target[|front + more|..];
  }

  const ABANDONED := 1
  const CANCELLED := 2

  /** The reader. Its fields that change are the components of `st`, shared with the producer goroutine. */
  class TgMultiReader {
    const config: Config
    ghost const layout: Layout
    var st: State

    ghost predicate Valid()
      reads this
    {
      Shaped(config, layout) && Sound(config, layout, st)
    }

    ghost function Pending(): Stream
      requires Shaped(config, layout)
      reads this
    {
      Left(config, layout, st)
    }

    constructor (source: seq<Byte>, start: nat, end: nat, concurrency: nat, buffers: nat, reliable: bool)
      requires start <= end < |source| && concurrency >= 1
      ensures Valid() && config.reliable == reliable && config.source == source
      ensures Pending() == Stream(source[start..end + 1], EOF, !reliable, true)
    {
      hide Sound, Left;
      var chunkSize := CalculateChunkSize(start, end);
      var offset := start - start % chunkSize;
      var l := Layout(start, end, chunkSize);
      ChunksCover(l);
      layout := l;
      config := Config(source, chunkSize, start - offset, end % chunkSize + 1,
                       (end - offset + chunkSize) / chunkSize, concurrency, buffers, reliable);
      st := Init(l);
      new;
      InitIsSound(config, layout);
    }

    /** One step, by whoever takes it. */
    method Step(step: Label)
      requires Valid() && Enabled(config, st, step)
      modifies this
      ensures Valid() && st == Next(config, old(st), step)
    {
      StepIsSound(config, layout, st, step);
      st := Next(config, st, step);
    }

    /** The other goroutines run for a while: any steps, in any order, but the consumer's. */
    method Others()
      requires Valid()
      modifies this
      ensures Valid() && st.delivered == old(st.delivered) && st.limit == old(st.limit) && st.cur == old(st.cur)
    {
      var steps: nat := *;
      while steps > 0
        invariant Valid() && st.delivered == old(st.delivered) && st.limit == old(st.limit) && st.cur == old(st.cur)
      {
        var step: Label := *;
        if Enabled(config, st, step) && !OfConsumer(step) {
          Step(step);
        }
        steps := steps - 1;
      }
    }

    /** Blocks until the select can go ahead. It always comes to that, whatever the producer does. */
    method Await()
      requires Valid()
      modifies this
      ensures Valid() && Ready(st)
      ensures st.delivered == old(st.delivered) && st.limit == old(st.limit) && st.cur == old(st.cur)
    {
      ghost var pieces := Pieces(layout, config.source);
      PiecesFit(config, layout);
      while !Ready(st)
        invariant Valid() && st.delivered == old(st.delivered) && st.limit == old(st.limit) && st.cur == old(st.cur)
        decreases ProducerWork(config, st)
      {
        ghost var w := SomebodyRuns(config, pieces, st);
        var step :| Enabled(config, st, step) && !OfConsumer(step) && !step.Cancel?;
        ProducerReducesWork(config, pieces, st, step);
        Step(step);
      }
    }

    /** Takes the next chunk, or reports why there is none. */
    method Take() returns (err: Error)
      requires Valid() && st.limit > 0 && st.cur == []
      modifies this
      ensures Valid() && st.delivered == old(st.delivered) && st.limit == old(st.limit)
      ensures if err == Nil then st.cur != [] else err.Fault? && !config.reliable
    {
      Await();
      var data := st.channel != [] || (st.phase.Sending? && st.phase.next < |st.phase.batch|);
      var chosen := *;
      if data && (!st.cancelled || chosen) {
        PiecesFit(config, layout);
        if st.channel == [] {
          SentOneMore(config, Pieces(layout, config.source), st);
        }
        Step(if st.channel != [] then Receive else HandOver);
        return Nil;
      }
      var step := if st.cancelled then SeeCancelled else SeeClosed;
      if config.reliable {
        ReliableNeverErrs(config, Pieces(layout, config.source), st, step);
      }
      err := Fault(if st.cancelled then CANCELLED else ABANDONED);
    }

    method Read(p: array<Byte>) returns (n: nat, err: Error)
      requires Valid()
      modifies this, p
      ensures Valid() && n <= p.Length && (GaveUp(err) ==> n == 0)
      ensures StreamRead(old(Pending()), p.Length, p[..n], err, Pending())
      ensures old(Pending()).data == [] ==> n == 0 && err == EOF
    {
      n := 0;
      InvIsSafe(config, Pieces(layout, config.source), st);
      PiecesFit(config, layout);
      Others();
      if st.limit <= 0 {
        return 0, EOF;
      }
      err := Nil;
      if st.cur == [] {
        err := Take();
      }
      if err == Nil {
        n, err := CopyOut(p);
      }
    }

    method CopyOut(p: array<Byte>) returns (n: nat, err: Error)
      requires Valid() && st.limit > 0 && st.cur != []
      modifies this, p
      ensures Valid() && n <= p.Length && !GaveUp(err)
      ensures StreamRead(old(Pending()), p.Length, p[..n], err, Pending())
    {
      var bytes := st.cur;
      n := Min(p.Length, |bytes|);
      forall i | 0 <= i < n {
        p[i] := bytes[i];
      }
      assert p[..n] == bytes[..n];
      CopyReads(config, layout, st, p.Length);
      Step(Copy(p.Length));
      err := if st.limit <= 0 then EOF else Nil;
    }

    /** Cancels the stream. In a run without failures nobody does so before the end. */
    method Close()
      requires Valid() && (config.reliable ==> Pending().data == [])
      modifies this
      ensures Valid() && st == old(st).(cancelled := true)
    {
      InvIsSafe(config, Pieces(layout, config.source), st);
      PiecesFit(config, layout);
      Step(Cancel);
    }
  }
}
