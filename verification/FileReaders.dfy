/** The reader of a byte range of a file, part after part: internal/reader/reader.go. */
module FileReaders {
  import opened PartRanges
  import opened Sequences
  import opened StoredFiles
  import opened Streams

  /**
   How a range of a file is put together: `plain` is what the parts hold, `content` what the file holds, and
   range `i` stands for the content from `cuts[i]` up to `cuts[i + 1]`.
   */
  datatype Plan = Plan(plain: seq<seq<Byte>>, content: seq<Byte>, ranges: seq<Range>, cuts: seq<int>) {

    ghost predicate PartIs(file: StoredFile, i: nat) {
      && i < |plain| && i < |file.parts| && i < |file.stored|
      && file.PartValid(i) && plain[i] == file.PlainPart(i)
    }

    ghost predicate RangeIs(i: nat) {
      && i < |ranges| && |cuts| == |ranges| + 1
      && var r, from, to := ranges[i], cuts[i], cuts[i + 1];
         && r.partNo < |plain| && 0 <= r.start <= r.end < |plain[r.partNo]|
         && 0 <= from < to <= |content|
         && plain[r.partNo][r.start..r.end + 1] == content[from..to]
    }

    /** The ranges deliver, one after the other and without a gap, the file's bytes from `start` to `end`. */
    ghost predicate Serves(file: StoredFile, start: int, end: int) {
      match this
      case Plan(plain, content, ranges, cuts) =>
        && |plain| == |file.parts| && |plain| == |file.stored|
        && (forall i {:trigger PartIs(file, i)} :: 0 <= i < |plain| ==> PartIs(file, i))
        && ranges != [] && |cuts| == |ranges| + 1
        && 0 <= cuts[0] == start <= end && cuts[|ranges|] == end + 1 <= |content|
        && (forall i {:trigger RangeIs(i)} :: 0 <= i < |ranges| ==> RangeIs(i) && cuts[i + 1] <= end + 1)
    }
  }

  /** `calculatePartByteRanges` makes such a plan, for every range inside the file. */
  lemma RangesServe(file: StoredFile, start: nat, end: nat, ranges: seq<Range>) returns (plan: Plan)
    requires file.Valid() && start <= end < |file.Content()| && Ranged(start, end, file.PartSize(), ranges)
    ensures plan.content == file.Content() && plan.ranges == ranges && plan.Serves(file, start, end)
  {
    var plain, cuts := file.PlainParts(), CutsAt(start, end, file.PartSize(), ranges);
    plan := Plan(plain, Flatten(plain), ranges, cuts);
    RangesMatch(plan, start, end, file.PartSize());
    forall i | 0 <= i < |plain| ensures plan.PartIs(file, i) {
      assert file.PartValid(i);
    }
  }

  lemma RangesMatch(plan: Plan, start: nat, end: nat, partSize: nat)
    requires EvenParts(plan.plain, partSize) && plan.content == Flatten(plan.plain)
    requires start <= end < |plan.content| && Ranged(start, end, partSize, plan.ranges)
    requires plan.cuts == CutsAt(start, end, partSize, plan.ranges)
    ensures forall i :: 0 <= i < |plan.ranges| ==> plan.RangeIs(i) && plan.cuts[i + 1] <= end + 1
    ensures plan.cuts[|plan.ranges|] == end + 1
  {
    var last := |plan.ranges| - 1;
    RangeDelivers(plan.plain, start, end, partSize, plan.ranges, last);
    assert plan.cuts[last + 1] == end + 1;
    forall i | 0 <= i < |plan.ranges| ensures plan.RangeIs(i) && plan.cuts[i + 1] <= end + 1 {
      RangeMatches(plan, start, end, partSize, i);
    }
  }

  lemma RangeMatches(plan: Plan, start: nat, end: nat, partSize: nat, i: nat)
    requires EvenParts(plan.plain, partSize) && plan.content == Flatten(plan.plain)
    requires start <= end < |plan.content| && Ranged(start, end, partSize, plan.ranges)
    requires plan.cuts == CutsAt(start, end, partSize, plan.ranges) && i < |plan.ranges|
    ensures plan.RangeIs(i) && plan.cuts[i + 1] <= end + 1
  {
    RangeDelivers(plan.plain, start, end, partSize, plan.ranges, i);
  }

  function CutsAt(start: nat, end: nat, partSize: nat, ranges: seq<Range>): (cuts: seq<int>)
    ensures |cuts| == |ranges| + 1 && cuts[0] == start
    ensures forall i :: 0 <= i < |ranges| ==> cuts[i + 1] == To(end, partSize, ranges[i].partNo)
  {
    [start] + seq(|ranges|, i requires 0 <= i < |ranges| => To(end, partSize, ranges[i].partNo))
  }

  class Reader {
    const file: StoredFile
    const start: nat
    const end: nat
    const concurrency: nat
    const buffers: nat
    const reliable: bool
    const ranges: seq<Range>
    var pos: nat
    var reader: PartReader
    var remaining: int
    ghost const plan: Plan
    /** What the caller can still get. */
    ghost var pending: Stream
    ghost var Repr: set<object?>

    ghost predicate Planned() {
      && plan.Serves(file, start, end) && plan.ranges == ranges
      && start <= end < |plan.content| && concurrency >= 1 && (reliable || file.RejectsCuts())
    }

    /** Where in the file the caller is. */
    ghost function Position(): int
      reads this
    {
      end + 1 - remaining
    }

    ghost predicate Fitted()
      reads this, reader, reader.Repr
    {
      reader.Valid() && reader.Repr <= Repr && this !in reader.Repr && reader.reader.Decrypting? == file.encrypted
    }

    /** The current part reader holds the rest of its range, which begins `ahead` bytes after where the caller is. */
    ghost predicate Holding(ahead: nat)
      reads this, reader, reader.Repr
    {
      match reader.pending
      case Stream(data, ending, faults, eager) =>
        && Fitted() && pos < |ranges| && pos + 1 < |plan.cuts|
        && 0 <= Position() <= Position() + ahead <= plan.cuts[pos + 1] <= end + 1 && end < |plan.content|
        && data == plan.content[Position() + ahead..plan.cuts[pos + 1]] && faults == !reliable && eager
    }

    /** Everything the current range stands for has been delivered. */
    ghost predicate RangeDone()
      reads this
    {
      pos < |ranges| && pos + 1 < |plan.cuts| && Position() == plan.cuts[pos + 1]
    }

    /** What is pending is the rest of the range. */
    ghost predicate Counted()
      reads this
    {
      match pending
      case Stream(data, ending, faults, eager) =>
        && {this, reader} <= Repr && Planned() && 0 <= remaining <= end + 1 - start
        && data == plan.content[Position()..end + 1] && ending == EOF && faults == !reliable && eager
    }

    ghost predicate Valid()
      reads this, Repr
      ensures Valid() ==> this in Repr
    {
      Counted() && reader.Repr <= Repr && (remaining > 0 ==> Holding(0) && !RangeDone())
    }

    constructor (file: StoredFile, start: nat, end: nat, concurrency: nat, buffers: nat, reliable: bool,
                 ranges: seq<Range>, first: PartReader, ghost plan: Plan)
      requires plan.Serves(file, start, end) && plan.ranges == ranges
      requires concurrency >= 1 && (reliable || file.RejectsCuts())
      requires first.Valid() && first.reader.Decrypting? == file.encrypted && plan.RangeIs(0)
      requires first.pending == Stream(plan.content[plan.cuts[0]..plan.cuts[1]], EOF, !reliable, true)
      ensures Valid() && Repr == {this} + first.Repr
      ensures this.file == file && this.plan == plan && this.reliable == reliable
      ensures pending == Stream(plan.content[start..end + 1], EOF, !reliable, true)
    {
      hide PartReader.Valid;
      this.file, this.start, this.end := file, start, end;
      this.concurrency, this.buffers, this.reliable := concurrency, buffers, reliable;
      this.ranges, this.plan := ranges, plan;
      pos, remaining, reader := 0, end - start + 1, first;
      pending := Stream(plan.content[start..end + 1], EOF, !reliable, true);
      Repr := {this} + first.Repr;
      new;
      assert Holding(0);
    }

    method Read(p: array<Byte>) returns (n: nat, err: Error)
      requires Valid() && p !in Repr
      modifies Repr, p
      ensures Valid() && fresh(Repr - old(Repr))
      ensures n <= p.Length && StreamRead(old(pending), p.Length, p[..n], err, pending)
    {
      hide PartReader.Valid, Plan.Serves;
      if remaining <= 0 {
        return 0, EOF;
      }
      n, err := ReadPart(p);
      ghost var out := p[..n];
      if err == EOF && remaining > 0 {
        err := MoveToNextPart();
      }
      assert p[..n] == out;
    }

    /** Reads from the current part. */
    method ReadPart(p: array<Byte>) returns (n: nat, err: Error)
      requires Valid() && remaining > 0 && p !in Repr
      modifies Repr, p
      ensures Counted() && Fitted() && reader == old(reader) && Repr == old(Repr)
      ensures n <= p.Length && old(pending).data == p[..n] + pending.data
      ensures err == EOF || (err == Nil && p.Length > 0) ==> n > 0
      ensures err == EOF ==> reader.pending.data == []
      ensures if err == EOF then RangeDone() else remaining > 0 && Holding(0) && !RangeDone()
      ensures err != Nil && err != EOF ==> !reliable && GaveUp(err)
    {
      hide PartReader.Valid, Plan.Serves;
      ghost var at, to, was := Position(), plan.cuts[pos + 1], reader.pending;
      n, err := reader.Read(p);
      ReadOn(plan.content, at, to, end + 1, was, p.Length, p[..n], err, reader.pending);
      Advance(n);
    }

    /** Counts `n` delivered bytes. */
    method Advance(n: nat)
      requires Counted() && remaining > 0 && Holding(n)
      modifies this`remaining, this`pending
      ensures Counted() && Holding(0) && remaining == old(remaining) - n
      ensures pending.data == plan.content[Position()..end + 1]
    {
      hide PartReader.Valid, Plan.Serves;
      remaining := remaining - n;
      pending := pending.(data := plan.content[Position()..end + 1]);
    }

    /** Opens the part after the one that was read to its end; if that fails the old reader stays, closed. */
    method MoveToNextPart() returns (err: Error)
      requires Counted() && remaining > 0 && RangeDone() && Fitted() && reader.pending.data == []
      modifies this`pos, this`reader, this`Repr, reader.Repr
      ensures Valid() && fresh(Repr - old(Repr)) && pending == old(pending)
      ensures err != Nil ==> err.Fault? && !reliable
    {
      hide PartReader.Valid, PartReader.Shut;
      reader.Close();
      pos := pos + 1;
      var next;
      next, err := InitializeReader(file, start, end, ranges, pos, concurrency, buffers, reliable, plan);
      if err == Nil {
        reader := next;
        Repr := Repr + next.Repr;
      } else {
        reader.Await(Stream(plan.content[plan.cuts[pos]..plan.cuts[pos + 1]], EOF, true, true));
      }
      assert Holding(0);
    }
  }

  /**
   A read of the bytes from `at` to `to` is a read of those from `at` to `end`; the end of file says that `to` is
   reached.
   */
  lemma ReadOn(content: seq<Byte>, at: nat, to: nat, end: nat, before: Stream, cap: nat, out: seq<Byte>, err: Error,
               after: Stream)
    requires at < to <= end <= |content|
    requires before.data == content[at..to] && before.end == EOF && before.eager
    requires StreamRead(before, cap, out, err, after) && (GaveUp(err) ==> out == [])
    ensures at + |out| <= to && after.data == content[at + |out|..to]
    ensures content[at..end] == out + content[at + |out|..end]
    ensures err == EOF <==> at + |out| == to
    ensures err == EOF || (err == Nil && cap > 0) ==> out != []
    ensures err == Nil || err == EOF || (before.faults && GaveUp(err))
  {
    assert content[at..end] == content[at..to] + content[to..end];
    assert after.data == content[at..to][|out|..];
    assert out + content[at + |out|..end] == out + (after.data + content[to..end]);
  }

  /** Opens the part reader of range `i`. */
  method InitializeReader(file: StoredFile, ghost start: int, ghost end: int, ranges: seq<Range>, i: nat,
                          concurrency: nat, buffers: nat, reliable: bool, ghost plan: Plan)
    returns (reader: PartReader?, err: Error)
    requires plan.Serves(file, start, end) && plan.ranges == ranges && i < |ranges|
    requires concurrency >= 1 && (reliable || file.RejectsCuts())
    ensures reader == null <==> err != Nil
    ensures err != Nil ==> err.Fault? && !reliable && file.encrypted
    ensures plan.RangeIs(i) && plan.cuts[i + 1] <= end + 1
    ensures reader != null ==>
      && reader.Valid() && fresh(reader.Repr) && reader.reader.Decrypting? == file.encrypted
      && reader.pending == Stream(plan.content[plan.cuts[i]..plan.cuts[i + 1]], EOF, !reliable, true)
  {
    assert plan.RangeIs(i) && plan.PartIs(file, ranges[i].partNo);
    reader, err := GetPartReader(file, ranges[i].partNo, ranges[i], concurrency, buffers, reliable);
  }

  /** Opens bytes `start` to `end` of the file. */
  method NewReader(file: StoredFile, start: nat, end: nat, concurrency: nat, buffers: nat, reliable: bool)
    returns (r: Reader?, err: Error)
    requires file.Valid() && start <= end < |file.Content()| && concurrency >= 1 && (reliable || file.RejectsCuts())
    ensures if r == null then err.Fault? && !reliable else err == Nil
    ensures r != null ==>
      && r.Valid() && fresh(r.Repr) && r.file == file && r.reliable == reliable
      && r.pending == Stream(file.Content()[start..end + 1], EOF, !reliable, true)
  {
    hide PartReader.Valid, StoredFile.RejectsCuts, Ranged;
    var ranges := CalculatePartByteRanges(start, end, file.PartSize());
    RangesSpan(start, end, file.PartSize(), ranges);
    ghost var plan := RangesServe(file, start, end, ranges);
    var first;
    first, err := InitializeReader(file, start, end, ranges, 0, concurrency, buffers, reliable, plan);
    if err != Nil {
      return null, err;
    }
    r := new Reader(file, start, end, concurrency, buffers, reliable, ranges, first, plan);
  }

  /** One read into a buffer whose size is left open. */
  method ReadSome(r: Reader) returns (out: seq<Byte>, err: Error)
    requires r.Valid()
    modifies r.Repr
    ensures r.Valid() && fresh(r.Repr - old(r.Repr))
    ensures exists size :: size > 0 && StreamRead(old(r.pending), size, out, err, r.pending)
  {
    var size: nat :| size > 0;
    var p := new Byte[size](_ => 0);
    var n;
    n, err := r.Read(p);
    out := p[..n];
  }

  /**
   End to end: reading a range through buffers of any sizes delivers exactly those bytes of the file and then the
   end of file; if fetches may fail, a prefix of them, and never the end of file short of the whole.
   */
  method ReadRange(file: StoredFile, start: nat, end: nat, concurrency: nat, buffers: nat, reliable: bool)
    returns (out: seq<Byte>, err: Error)
    requires file.Valid() && start <= end < |file.Content()| && concurrency >= 1 && (reliable || file.RejectsCuts())
    ensures err == EOF ==> out == file.Content()[start..end + 1]
    ensures if reliable then err == EOF else out <= file.Content()[start..end + 1]
  {
    hide Reader.Valid;
    ghost var range := file.Content()[start..end + 1];
    var r, openErr := NewReader(file, start, end, concurrency, buffers, reliable);
    if openErr != Nil {
      return [], openErr;
    }
    ghost var first := r.pending;
    out, err := [], Nil;
    while err == Nil
      invariant r.Valid() && fresh(r.Repr)
      invariant out + r.pending.data == range && r.pending == first.(data := r.pending.data)
      invariant err == EOF ==> r.pending.data == []
      invariant err == Nil || err == EOF || !reliable
      decreases |r.pending.data|, err == Nil
    {
      var some;
      some, err := ReadSome(r);
      ConcatAssociates(out, some, r.pending.data);
      out := out + some;
    }
  }
}
