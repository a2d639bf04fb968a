/**
 The protocol of internal/reader/tg_reader.go as a state machine: a producer that fetches chunks in
 concurrent batches and sends them over a bounded channel, a consumer that reads them, fetches that fail
 and a context that may be cancelled at any moment. One label is one step that other steps can come between.
 */
module RangeFetching {
  import opened ChunkLayout
  import opened Numbers
  import opened Sequences
  import opened Streams

  /**
   The fields of the reader that never change, and the stored bytes. `reliable` runs are those in which no fetch
   fails and nobody cancels while there is something left to read.
   */
  datatype Config = Config(
    source: seq<Byte>, chunkSize: nat, leftCut: int, rightCut: int, totalParts: int,
    concurrency: nat, buffers: nat, reliable: bool)

  datatype Slot = Waiting | Got(chunk: seq<Byte>) | Lost

  /** Where the producer is: between batches, waiting for a batch, sending one, giving up, or gone. */
  datatype Phase =
    | Idle
    | Fetching(slots: seq<Slot>)
    | Sending(batch: seq<seq<Byte>>, next: nat)
    | Stopping
    | Stopped

  /** `sent` and `delivered` are history: how many chunks have left the producer, and what the caller has got. */
  datatype State = State(
    currentPart: nat, offset: nat, phase: Phase, cancelled: bool,
    channel: seq<seq<Byte>>, closed: bool,
    limit: int, cur: seq<Byte>,
    sent: nat, delivered: seq<Byte>)

  datatype Label =
    | Begin                // start the fetches of a batch
    | Arrive(i: nat)       // fetch i of the batch returns its chunk
    | Fail(i: nat)         // fetch i of the batch fails
    | Join                 // all fetches of the batch have returned
    | Send                 // put the next chunk on the channel
    | GiveUp               // notice the cancellation instead of sending
    | EndBatch             // the whole batch is sent
    | Close                // close the channel
    | Cancel               // somebody cancels the context
    | Receive              // the consumer takes a chunk off the channel
    | HandOver             // the consumer takes a chunk straight from the waiting producer
    | SeeClosed            // the consumer finds the channel closed and empty: an error
    | SeeCancelled         // the consumer notices the cancellation: an error
    | Copy(cap: nat)       // the consumer copies out up to cap bytes
    | SeeEnd               // the consumer has nothing left to ask for: end of file

  /** `fillBatch`'s cuts on the chunk of part `part`. */
  function Cut(c: Config, part: nat, chunk: seq<Byte>): seq<Byte> {
    if c.totalParts == 1 then Sub(chunk, c.leftCut, c.rightCut)
    else if part == 0 then Sub(chunk, c.leftCut, |chunk|)
    else if part + 1 == c.totalParts then Sub(chunk, 0, c.rightCut)
    else chunk
  }

  /** What fetch `i` of the batch brings, cut. */
  function Fetched(c: Config, s: State, i: nat): seq<Byte> {
    Cut(c, s.currentPart + i, Chunk(c.source, s.offset + i * c.chunkSize, c.chunkSize))
  }

  function Sub(s: seq<Byte>, from: int, to: int): seq<Byte> {
    if 0 <= from <= to <= |s| then s[from..to] else []
  }

  predicate ConsumerAsks(s: State) {
    s.limit > 0 && s.cur == []
  }

  predicate Enabled(c: Config, s: State, l: Label) {
    match l
    case Begin => s.phase.Idle? && s.currentPart < c.totalParts
    case Arrive(i) => s.phase.Fetching? && i < |s.phase.slots| && s.phase.slots[i].Waiting?
    case Fail(i) => s.phase.Fetching? && i < |s.phase.slots| && s.phase.slots[i].Waiting? && !c.reliable
    case Join => s.phase.Fetching? && Waiting !in s.phase.slots
    case Send => s.phase.Sending? && s.phase.next < |s.phase.batch| && |s.channel| < c.buffers
    case GiveUp => s.phase.Sending? && s.phase.next < |s.phase.batch| && s.cancelled
    case EndBatch => s.phase.Sending? && s.phase.next == |s.phase.batch|
    case Close => s.phase.Stopping? || (s.phase.Idle? && s.currentPart >= c.totalParts)
    case Cancel => !c.reliable || s.limit <= 0
    case Receive => ConsumerAsks(s) && s.channel != []
    case HandOver => ConsumerAsks(s) && s.channel == [] && s.phase.Sending? && s.phase.next < |s.phase.batch|
    case SeeClosed => ConsumerAsks(s) && s.channel == [] && s.closed
    case SeeCancelled => ConsumerAsks(s) && s.cancelled
    case Copy(_) => s.limit > 0 && s.cur != []
    case SeeEnd => s.limit <= 0
  }

  function Next(c: Config, s: State, l: Label): State
    requires Enabled(c, s, l)
  {
    match l
    case Begin => s.(phase := Fetching(seq(Min(c.concurrency, c.totalParts - s.currentPart), _ => Waiting)))
    case Arrive(i) => s.(phase := Fetching(s.phase.slots[i := Got(Fetched(c, s, i))]))
    case Fail(i) => s.(phase := Fetching(s.phase.slots[i := Lost]))
    case Join =>
      if Lost in s.phase.slots then s.(phase := Stopping, cancelled := true)
      else s.(phase := Sending(Chunks(s.phase.slots), 0))
    case Send =>
      s.(channel := s.channel + [s.phase.batch[s.phase.next]],
         phase := s.phase.(next := s.phase.next + 1), sent := s.sent + 1)
    case GiveUp => s.(phase := Stopping)
    case EndBatch =>
      s.(phase := Idle, currentPart := s.currentPart + c.concurrency,
         offset := s.offset + c.chunkSize * c.concurrency)
    case Close => s.(phase := Stopped, closed := true)
    case Cancel => s.(cancelled := true)
    case Receive => s.(cur := s.channel[0], channel := s.channel[1..])
    case HandOver =>
      s.(cur := s.phase.batch[s.phase.next], phase := s.phase.(next := s.phase.next + 1), sent := s.sent + 1)
    case SeeClosed => s
    case SeeCancelled => s
    case Copy(cap) =>
      var n := Min(cap, |s.cur|);
      s.(cur := s.cur[n..], limit := s.limit - n, delivered := s.delivered + s.cur[..n])
    case SeeEnd => s
  }

  /** The chunks of a batch that has arrived in full. */
  function Chunks(slots: seq<Slot>): seq<seq<Byte>> {
    seq(|slots|, i requires 0 <= i < |slots| => if slots[i].Got? then slots[i].chunk else [])
  }

  /** The step tells the caller that the stream has ended. */
  predicate ReportsEnd(c: Config, s: State, l: Label)
    requires Enabled(c, s, l)
  {
    l.SeeEnd? || (l.Copy? && Next(c, s, l).limit <= 0)
  }

  // The invariant, for any sequence of nonempty pieces that the fetches bring.

  /** The reader is set up for these pieces. */
  ghost predicate Fits(c: Config, pieces: seq<seq<Byte>>) {
    c.concurrency >= 1 && c.totalParts == |pieces| && forall i :: 0 <= i < |pieces| ==> pieces[i] != []
  }

  function BatchEnd(c: Config, s: State): nat {
    Min(s.currentPart + c.concurrency, if c.totalParts < 0 then 0 else c.totalParts)
  }

  ghost predicate PhaseInv(c: Config, pieces: seq<seq<Byte>>, s: State) {
    match s.phase
    case Idle => s.sent == Min(s.currentPart, |pieces|)
    case Fetching(slots) =>
      && s.sent == s.currentPart < |pieces| && s.currentPart + |slots| == BatchEnd(c, s) <= |pieces|
      && (forall i :: 0 <= i < |slots| && slots[i].Got? ==> slots[i].chunk == pieces[s.currentPart + i])
      && (c.reliable ==> forall i :: 0 <= i < |slots| ==> !slots[i].Lost?)
    case Sending(batch, next) =>
      && s.currentPart < |pieces| && s.currentPart <= BatchEnd(c, s) <= |pieces|
      && batch == pieces[s.currentPart..BatchEnd(c, s)]
      && next <= |batch| && s.sent == s.currentPart + next
    case Stopping => s.cancelled
    case Stopped => s.cancelled || s.sent == |pieces|
  }

  ghost predicate Inv(c: Config, pieces: seq<seq<Byte>>, s: State) {
    && PhaseInv(c, pieces, s)
    && (s.closed <==> s.phase.Stopped?)
    && (c.reliable && s.limit > 0 ==> !s.cancelled)
    && s.sent <= |pieces|
    && s.delivered + s.cur + Flatten(s.channel) == Flatten(pieces[..s.sent])
    && s.limit == |Flatten(pieces)| - |s.delivered|
    && (forall i :: 0 <= i < |s.channel| ==> s.channel[i] != [])
  }

  lemma SentOneMore(c: Config, pieces: seq<seq<Byte>>, s: State)
    requires Fits(c, pieces) && PhaseInv(c, pieces, s) && s.phase.Sending? && s.phase.next < |s.phase.batch|
    ensures var piece := s.phase.batch[s.phase.next];
            && s.sent < |pieces| && piece != []
            && Flatten(pieces[..s.sent + 1]) == Flatten(pieces[..s.sent]) + piece
  {
    var piece := s.phase.batch[s.phase.next];
    assert piece == pieces[s.sent];
    assert pieces[..s.sent + 1] == pieces[..s.sent] + [piece];
    FlattenSnoc(pieces[..s.sent], piece);
  }

  lemma JoinKeepsInv(c: Config, pieces: seq<seq<Byte>>, s: State)
    requires Fits(c, pieces) && Inv(c, pieces, s) && Enabled(c, s, Join)
    ensures Inv(c, pieces, Next(c, s, Join))
  {
    if Lost !in s.phase.slots {
      assert Chunks(s.phase.slots) == pieces[s.currentPart..BatchEnd(c, s)];
    }
  }

  lemma ProducerKeepsInv(c: Config, pieces: seq<seq<Byte>>, s: State, l: Label)
    requires Fits(c, pieces) && Inv(c, pieces, s) && Enabled(c, s, l)
    requires l.Begin? || l.Arrive? || l.Fail? || l.Join? || l.GiveUp? || l.EndBatch? || l.Close? || l.Cancel?
    requires l.Arrive? ==> Fetched(c, s, l.i) == pieces[s.currentPart + l.i]
    ensures Inv(c, pieces, Next(c, s, l))
  {
    if l.Join? {
      JoinKeepsInv(c, pieces, s);
    }
  }

  lemma SendKeepsInv(c: Config, pieces: seq<seq<Byte>>, s: State)
    requires Fits(c, pieces) && Inv(c, pieces, s) && Enabled(c, s, Send)
    ensures Inv(c, pieces, Next(c, s, Send))
  {
    hide Flatten;
    SentOneMore(c, pieces, s);
    var piece := s.phase.batch[s.phase.next];
    FlattenSnoc(s.channel, piece);
    ConcatAssociates(s.delivered + s.cur, Flatten(s.channel), piece);
  }

  lemma HandOverKeepsInv(c: Config, pieces: seq<seq<Byte>>, s: State)
    requires Fits(c, pieces) && Inv(c, pieces, s) && Enabled(c, s, HandOver)
    ensures Inv(c, pieces, Next(c, s, HandOver))
  {
    SentOneMore(c, pieces, s);
  }

  lemma ReceiveKeepsInv(c: Config, pieces: seq<seq<Byte>>, s: State)
    requires Inv(c, pieces, s) && Enabled(c, s, Receive)
    ensures Inv(c, pieces, Next(c, s, Receive))
  {
    ConcatAssociates(s.delivered, s.channel[0], Flatten(s.channel[1..]));
  }

  lemma ConsumerKeepsInv(c: Config, pieces: seq<seq<Byte>>, s: State, l: Label)
    requires Inv(c, pieces, s) && Enabled(c, s, l)
    requires l.SeeClosed? || l.SeeCancelled? || l.Copy? || l.SeeEnd?
    ensures Inv(c, pieces, Next(c, s, l))
  {
    if l.Copy? {
      var n := Min(l.cap, |s.cur|);
      assert s.cur == s.cur[..n] + s.cur[n..];
      ConcatAssociates(s.delivered, s.cur[..n], s.cur[n..]);
    }
  }

  lemma StepKeepsInv(c: Config, pieces: seq<seq<Byte>>, s: State, l: Label)
    requires Fits(c, pieces) && Inv(c, pieces, s) && Enabled(c, s, l)
    requires l.Arrive? ==> Fetched(c, s, l.i) == pieces[s.currentPart + l.i]
    ensures Inv(c, pieces, Next(c, s, l))
  {
    if l.Send? {
      SendKeepsInv(c, pieces, s);
    } else if l.HandOver? {
      HandOverKeepsInv(c, pieces, s);
    } else if l.Receive? {
      ReceiveKeepsInv(c, pieces, s);
    } else if l.SeeClosed? || l.SeeCancelled? || l.Copy? || l.SeeEnd? {
      ConsumerKeepsInv(c, pieces, s, l);
    } else {
      ProducerKeepsInv(c, pieces, s, l);
    }
  }

  /** What has been delivered is a prefix of the range, and it is all of it exactly when the limit is used up. */
  lemma InvIsSafe(c: Config, pieces: seq<seq<Byte>>, s: State)
    requires Inv(c, pieces, s)
    ensures s.delivered <= Flatten(pieces) && (s.limit <= 0 <==> s.delivered == Flatten(pieces))
    ensures |Flatten(pieces)| == |s.delivered| + |s.cur| + |Flatten(s.channel)| + |Flatten(pieces[s.sent..])|
  {
    FlattenSplit(pieces, s.sent);
    var rest := s.cur + Flatten(s.channel);
    assert Flatten(pieces[..s.sent]) == s.delivered + rest;
    assert Flatten(pieces) == s.delivered + (rest + Flatten(pieces[s.sent..]));
  }

  // Reliable runs.

  lemma DrainedMeansDelivered(c: Config, pieces: seq<seq<Byte>>, s: State)
    requires Inv(c, pieces, s) && c.reliable
    ensures s.closed && s.channel == [] && s.cur == [] ==> s.limit == 0
  {
    InvIsSafe(c, pieces, s);
    if s.closed && s.limit > 0 {
      assert pieces[s.sent..] == [];
    }
  }

  /** In a reliable run the consumer is never told that the stream was abandoned or cancelled. */
  lemma ReliableNeverErrs(c: Config, pieces: seq<seq<Byte>>, s: State, l: Label)
    requires c.reliable && Inv(c, pieces, s) && Enabled(c, s, l)
    ensures !l.SeeClosed? && !l.SeeCancelled?
  {
    DrainedMeansDelivered(c, pieces, s);
  }

  lemma UnsentMeansUnread(c: Config, pieces: seq<seq<Byte>>, s: State)
    requires Fits(c, pieces) && Inv(c, pieces, s) && s.sent < |pieces|
    ensures s.limit > 0
  {
    InvIsSafe(c, pieces, s);
    assert Flatten(pieces[s.sent..]) == pieces[s.sent] + Flatten(pieces[s.sent..][1..]);
  }

  /** A step that gets something done: all but copying into an empty buffer, seeing the end again and cancelling. */
  predicate Progress(l: Label) {
    match l
    case Copy(cap) => cap > 0
    case SeeEnd => false
    case Cancel => false
    case _ => true
  }

  function Settled(slots: seq<Slot>): nat {
    if slots == [] then 0 else (if slots[0].Waiting? then 0 else 1) + Settled(slots[1..])
  }

  lemma {:induction false} SettledBound(slots: seq<Slot>)
    ensures Settled(slots) <= |slots|
    ensures (forall i :: 0 <= i < |slots| ==> slots[i].Waiting?) ==> Settled(slots) == 0
  {
    if slots != [] {
      SettledBound(slots[1..]);
    }
  }

  lemma {:induction false} SettledOneMore(slots: seq<Slot>, i: nat, slot: Slot)
    requires i < |slots| && slots[i].Waiting? && !slot.Waiting?
    ensures Settled(slots[i := slot]) == Settled(slots) + 1
  {
    if i == 0 {
      assert slots[i := slot][1..] == slots[1..];
    } else {
      SettledOneMore(slots[1..], i - 1, slot);
      assert slots[i := slot][1..] == slots[1..][i - 1 := slot];
    }
  }

  /** How much the producer has left to do. */
  function ProducerWork(c: Config, s: State): int {
    var left := if s.currentPart < c.totalParts then c.totalParts - s.currentPart else 0;
    match s.phase
    case Idle => 6 * left + 2
    case Fetching(slots) => 6 * left + 1 - Settled(slots)
    case Sending(batch, next) => 6 * left - |batch| - next
    case Stopping => 1
    case Stopped => 0
  }

  /** How many steps of progress a reliable run can still take, at most. */
  function Work(c: Config, s: State): int {
    2 * ProducerWork(c, s) + |s.channel| + s.limit
  }

  /** The consumer's steps. */
  predicate OfConsumer(l: Label) {
    l.Receive? || l.HandOver? || l.SeeClosed? || l.SeeCancelled? || l.Copy? || l.SeeEnd?
  }

  lemma ProducerReducesWork(c: Config, pieces: seq<seq<Byte>>, s: State, l: Label)
    requires Fits(c, pieces) && Inv(c, pieces, s) && Enabled(c, s, l) && !OfConsumer(l) && !l.Cancel?
    ensures 0 <= ProducerWork(c, Next(c, s, l)) < ProducerWork(c, s)
  {
    match l
    case Begin => SettledBound(Next(c, s, l).phase.slots);
    case Arrive(i) =>
      SettledOneMore(s.phase.slots, i, Next(c, s, l).phase.slots[i]);
      SettledBound(Next(c, s, l).phase.slots);
    case Fail(i) =>
      SettledOneMore(s.phase.slots, i, Lost);
      SettledBound(Next(c, s, l).phase.slots);
    case Join => SettledBound(s.phase.slots);
    case _ =>
  }

  /** The steps of the producer goroutine and its fetches. */
  predicate OfProducer(l: Label) {
    !OfConsumer(l) && !l.Cancel?
  }

  lemma OthersKeepProducerWork(c: Config, pieces: seq<seq<Byte>>, s: State, l: Label)
    requires Fits(c, pieces) && Inv(c, pieces, s) && Enabled(c, s, l) && !OfProducer(l)
    ensures ProducerWork(c, Next(c, s, l)) <= ProducerWork(c, s)
  {
  }

  /** Once the stream is cancelled the producer does not depend on the consumer: until it is gone it can go on. */
  lemma CancelledGoesOn(c: Config, s: State) returns (l: Label)
    requires s.cancelled && !s.phase.Stopped?
    requires s.phase.Sending? ==> s.phase.next <= |s.phase.batch|
    ensures Enabled(c, s, l) && OfProducer(l)
  {
    match s.phase
    case Idle =>
      l := if s.currentPart < c.totalParts then Begin else Close;
    case Fetching(slots) =>
      if i :| 0 <= i < |slots| && slots[i].Waiting? {
        l := Arrive(i);
      } else {
        l := Join;
      }
    case Sending(batch, next) =>
      l := if next < |batch| then GiveUp else EndBatch;
    case Stopping =>
      l := Close;
  }

  /** A blocked consumer can go on: there is a chunk to take, or the channel is closed, or the stream cancelled. */
  predicate Ready(s: State) {
    s.channel != [] || s.closed || s.cancelled || (s.phase.Sending? && s.phase.next < |s.phase.batch|)
  }

  /** While the consumer is blocked the producer can run. */
  lemma SomebodyRuns(c: Config, pieces: seq<seq<Byte>>, s: State) returns (l: Label)
    requires Fits(c, pieces) && Inv(c, pieces, s) && !Ready(s)
    ensures Enabled(c, s, l) && !OfConsumer(l) && !l.Cancel?
  {
    l := Close;
    match s.phase
    case Idle =>
      l := if s.currentPart < c.totalParts then Begin else Close;
    case Fetching(slots) =>
      if i :| 0 <= i < |slots| && slots[i].Waiting? {
        l := Arrive(i);
      } else {
        l := Join;
      }
    case Sending(_, _) =>
      l := EndBatch;
    case _ =>
  }

  lemma ProgressReducesWork(c: Config, pieces: seq<seq<Byte>>, s: State, l: Label)
    requires Fits(c, pieces) && c.reliable && Inv(c, pieces, s) && Enabled(c, s, l) && Progress(l)
    ensures Work(c, Next(c, s, l)) < Work(c, s)
  {
    if !OfConsumer(l) {
      ProducerReducesWork(c, pieces, s, l);
    } else {
      ReliableNeverErrs(c, pieces, s, l);
    }
  }

  lemma WorkIsNat(c: Config, pieces: seq<seq<Byte>>, s: State)
    requires Fits(c, pieces) && Inv(c, pieces, s)
    ensures Work(c, s) >= 0
  {
    InvIsSafe(c, pieces, s);
    if s.phase.Fetching? {
      SettledBound(s.phase.slots);
    }
  }

  ghost predicate Finished(pieces: seq<seq<Byte>>, s: State) {
    s.phase.Stopped? && s.closed && s.delivered == Flatten(pieces)
  }

  /** Until the producer is gone and everything is delivered, somebody can make progress: there is no deadlock. */
  lemma NoDeadlock(c: Config, pieces: seq<seq<Byte>>, s: State) returns (l: Label)
    requires Fits(c, pieces) && c.reliable && Inv(c, pieces, s) && !Finished(pieces, s)
    ensures Enabled(c, s, l) && Progress(l)
  {
    InvIsSafe(c, pieces, s);
    match s.phase
    case Idle =>
      l := if s.currentPart < c.totalParts then Begin else Close;
    case Fetching(slots) =>
      if i :| 0 <= i < |slots| && slots[i].Waiting? {
        l := Arrive(i);
      } else {
        l := Join;
      }
    case Sending(batch, next) =>
      if next == |batch| {
        l := EndBatch;
      } else if |s.channel| < c.buffers {
        l := Send;
      } else {
        SentOneMore(c, pieces, s);
        UnsentMeansUnread(c, pieces, s);
        l := if s.cur != [] then Copy(1) else if s.channel != [] then Receive else HandOver;
      }
    case Stopping =>
      l := Close;
    case Stopped =>
      DrainedMeansDelivered(c, pieces, s);
      l := if s.cur != [] then Copy(1) else Receive;
  }
}
