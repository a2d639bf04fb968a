/**
 Which bytes of which parts make up a byte range of a file: `calculatePartByteRanges` of internal/reader/reader.go.
 */
module PartRanges {
  import opened ChunkLayout
  import opened Numbers
  import opened Sequences
  import opened Streams

  /** Bytes `start` to `end` inclusive of part `partNo`. */
  datatype Range = Range(start: int, end: int, partNo: nat)

  /** Where in the file part `k` begins. */
  function Boundary(partSize: nat, k: int): nat {
    if k <= 0 then 0 else Boundary(partSize, k - 1) + partSize
  }

  lemma {:induction false} BoundaryIs(partSize: nat, k: nat)
    ensures Boundary(partSize, k) == k * partSize
  {
    if k > 0 {
      BoundaryIs(partSize, k - 1);
    }
  }

  function PartRange(start: nat, end: nat, partSize: nat, part: nat): Range {
    var at := Boundary(partSize, part);
    Range(Max(start - at, 0), Min(partSize - 1, end - at), part)
  }

  /** What `calculatePartByteRanges` computes for a part. */
  lemma PartRangeIs(start: nat, end: nat, partSize: nat, part: nat)
    ensures PartRange(start, end, partSize, part)
            == Range(Max(start - part * partSize, 0), Min(partSize - 1, end - part * partSize), part)
  {
    BoundaryIs(partSize, part);
  }

  method CalculatePartByteRanges(start: nat, end: nat, partSize: nat) returns (ranges: seq<Range>)
    requires partSize > 0
    ensures |ranges| == Max(0, end / partSize - start / partSize + 1)
    ensures forall i :: 0 <= i < |ranges| ==> ranges[i] == PartRange(start, end, partSize, start / partSize + i)
  {
    ranges := [];
    var startPart: nat := start / partSize;
    var endPart: nat := end / partSize;
    var part := startPart;
    while part <= endPart
      invariant startPart <= part <= Max(startPart, endPart + 1) && |ranges| == part - startPart
      invariant forall i :: 0 <= i < |ranges| ==> ranges[i] == PartRange(start, end, partSize, startPart + i)
    {
      PartRangeIs(start, end, partSize, part);
      var partStart := Max(start - part * partSize, 0);
      var partEnd := Min(partSize - 1, end - part * partSize);
      ranges := ranges + [Range(partStart, partEnd, part)];
      part := part + 1;
    }
  }

  /** Every part has `partSize` bytes, but the last one may have fewer. */
  ghost predicate EvenParts(parts: seq<seq<Byte>>, partSize: nat) {
    && partSize > 0 && parts != []
    && (forall i :: 0 <= i < |parts| - 1 ==> |parts[i]| == partSize)
    && |parts[|parts| - 1]| <= partSize
  }

  lemma {:induction false} EvenLength(parts: seq<seq<Byte>>, partSize: nat, k: nat)
    requires EvenParts(parts, partSize) && k < |parts|
    ensures |Flatten(parts[..k])| == k * partSize
  {
    if k > 0 {
      EvenLength(parts, partSize, k - 1);
      assert parts[..k] == parts[..k - 1] + [parts[k - 1]];
      FlattenSnoc(parts[..k - 1], parts[k - 1]);
      MulBy(k - 1, 1, partSize);
    }
  }

  /** Part `k` is the slice of the content that begins at `k * partSize`. */
  lemma PartIsSlice(parts: seq<seq<Byte>>, partSize: nat, k: nat)
    requires EvenParts(parts, partSize) && k < |parts|
    ensures var at := k * partSize;
            at + |parts[k]| <= |Flatten(parts)| && Flatten(parts)[at..at + |parts[k]|] == parts[k]
    ensures k == |parts| - 1 ==> k * partSize + |parts[k]| == |Flatten(parts)|
  {
    EvenLength(parts, partSize, k);
    FlattenSplit(parts, k);
    var tail := parts[k..];
    assert Flatten(tail) == parts[k] + Flatten(tail[1..]);
    ConcatAssociates(Flatten(parts[..k]), parts[k], Flatten(tail[1..]));
    if k == |parts| - 1 {
      assert tail[1..] == [];
    }
  }

  // Which stretch of the file each range delivers.

  lemma {:induction false} BoundariesGrow(partSize: nat, a: nat, b: nat)
    requires a <= b
    ensures Boundary(partSize, a) <= Boundary(partSize, b)
  {
    if a < b {
      BoundariesGrow(partSize, a, b - 1);
    }
  }

  /** The range begins in part `first` and ends in part `last`. */
  ghost predicate Spans(start: nat, end: nat, partSize: nat, first: nat, last: nat) {
    && Boundary(partSize, first) <= start < Boundary(partSize, first + 1)
    && Boundary(partSize, last) <= end < Boundary(partSize, last + 1)
  }

  lemma QuotientsSpan(start: nat, end: nat, partSize: nat)
    requires partSize > 0 && start <= end
    ensures Spans(start, end, partSize, start / partSize, end / partSize)
    ensures start / partSize <= end / partSize
  {
    InPart(start, partSize);
    InPart(end, partSize);
    if end / partSize < start / partSize {
      BoundariesGrow(partSize, end / partSize + 1, start / partSize);
    }
  }

  lemma InPart(x: nat, partSize: nat)
    requires partSize > 0
    ensures Boundary(partSize, x / partSize) <= x < Boundary(partSize, x / partSize + 1)
  {
    var q, r := Divide(x, partSize);
    BoundaryIs(partSize, q);
    assert Boundary(partSize, q + 1) == Boundary(partSize, q) + partSize;
  }

  /** Where, in the file, the bytes that the range of part `part` asks for begin and end. */
  function From(start: nat, partSize: nat, part: nat): nat {
    Max(start, Boundary(partSize, part))
  }

  function To(end: nat, partSize: nat, part: nat): nat {
    Min(end + 1, Boundary(partSize, part + 1))
  }

  /** The range asks, of one part, for the content from `from` up to `to`, and for something. */
  ghost predicate Stretch(parts: seq<seq<Byte>>, r: Range, from: int, to: int) {
    && r.partNo < |parts| && 0 <= r.start <= r.end < |parts[r.partNo]|
    && 0 <= from < to <= |Flatten(parts)|
    && Flatten(parts)[from..to] == parts[r.partNo][r.start..r.end + 1]
  }

  lemma SliceOfPart(content: seq<Byte>, bytes: seq<Byte>, start: nat, end: nat, partSize: nat, at: nat)
    returns (first: nat, last: nat)
    requires 0 < partSize && at <= end && start <= end < |content| && start < at + partSize && |bytes| <= partSize
    requires |bytes| == partSize || at + |bytes| == |content|
    requires at + |bytes| <= |content| && content[at..at + |bytes|] == bytes
    ensures first == Max(start - at, 0) && last == Min(partSize - 1, end - at) && first <= last < |bytes|
    ensures Max(start, at) < Min(end + 1, at + partSize) <= |content|
    ensures content[Max(start, at)..Min(end + 1, at + partSize)] == bytes[first..last + 1]
  {
    first, last := Max(start - at, 0), Min(partSize - 1, end - at);
    SliceOfSlice(content, at, at + |bytes|, first, last + 1);
  }

  lemma PartExists(parts: seq<seq<Byte>>, partSize: nat, end: nat, part: nat)
    requires EvenParts(parts, partSize) && end < |Flatten(parts)| && Boundary(partSize, part) <= end
    ensures part < |parts|
  {
    var last := |parts| - 1;
    PartIsSlice(parts, partSize, last);
    BoundaryIs(partSize, last);
    if part > last {
      BoundariesGrow(partSize, last + 1, part);
    }
  }

  /**
   Each range lies inside its part, is not empty, and asks for the stretch of the file between two part boundaries.
   */
  lemma RangeInPart(parts: seq<seq<Byte>>, partSize: nat, start: nat, end: nat, part: nat)
    requires EvenParts(parts, partSize) && start <= end < |Flatten(parts)|
    requires Boundary(partSize, part) <= end && start < Boundary(partSize, part + 1)
    ensures Stretch(parts, PartRange(start, end, partSize, part), From(start, partSize, part), To(end, partSize, part))
  {
    PartExists(parts, partSize, end, part);
    PartIsSlice(parts, partSize, part);
    BoundaryIs(partSize, part);
    var first, last := SliceOfPart(Flatten(parts), parts[part], start, end, partSize, Boundary(partSize, part));
  }

  /** The stretches follow one another without a gap: the first begins at `start`, the last ends at `end`. */
  lemma RangesMeet(start: nat, end: nat, partSize: nat, first: nat, last: nat, part: nat)
    requires start <= end && Spans(start, end, partSize, first, last) && first <= part <= last
    ensures Boundary(partSize, part) <= end && start < Boundary(partSize, part + 1)
    ensures From(start, partSize, part) == if part == first then start else To(end, partSize, part - 1)
    ensures part == last ==> To(end, partSize, part) == end + 1
  {
    BoundariesGrow(partSize, part, last);
    BoundariesGrow(partSize, first + 1, part + 1);
    if part > first {
      BoundariesGrow(partSize, first + 1, part);
    }
  }

  /** The ranges are those of the parts from the one that holds `start` to the one that holds `end`. */
  ghost predicate Ranged(start: nat, end: nat, partSize: nat, ranges: seq<Range>) {
    && ranges != []
    && Spans(start, end, partSize, ranges[0].partNo, ranges[0].partNo + |ranges| - 1)
    && forall i :: 0 <= i < |ranges| ==> ranges[i] == PartRange(start, end, partSize, ranges[0].partNo + i)
  }

  lemma RangesSpan(start: nat, end: nat, partSize: nat, ranges: seq<Range>)
    requires partSize > 0 && start <= end
    requires |ranges| == Max(0, end / partSize - start / partSize + 1)
    requires forall i :: 0 <= i < |ranges| ==> ranges[i] == PartRange(start, end, partSize, start / partSize + i)
    ensures Ranged(start, end, partSize, ranges)
  {
    QuotientsSpan(start, end, partSize);
    assert ranges[0].partNo == start / partSize;
  }

  /**
   The ranges deliver the requested bytes, stretch after stretch: the first stretch begins at `start`, each
   other one where the one before it ended, and the last one ends with `end`.
   */
  lemma RangeDelivers(parts: seq<seq<Byte>>, start: nat, end: nat, partSize: nat, ranges: seq<Range>, i: nat)
    requires EvenParts(parts, partSize) && start <= end < |Flatten(parts)|
    requires Ranged(start, end, partSize, ranges) && i < |ranges|
    ensures Stretch(parts, ranges[i], if i == 0 then start else To(end, partSize, ranges[i - 1].partNo),
                    To(end, partSize, ranges[i].partNo))
    ensures To(end, partSize, ranges[i].partNo) <= end + 1
    ensures i == |ranges| - 1 ==> To(end, partSize, ranges[i].partNo) == end + 1
  {
    hide Stretch, EvenParts, Spans, Boundary, Flatten, From;
    var first, last := ranges[0].partNo, ranges[0].partNo + |ranges| - 1;
    RangesMeet(start, end, partSize, first, last, first + i);
    RangeInPart(parts, partSize, start, end, first + i);
  }
}
