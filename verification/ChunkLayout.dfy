/**
 How a byte range is cut into aligned chunk requests: `CalculateChunkSize` of internal/tgc/helpers.go and
 the arithmetic of `newTGMultiReader` and `fillBatch` in internal/reader/tg_reader.go.
 */
module ChunkLayout {
  import opened Numbers
  import opened Sequences
  import opened Streams

  const MAX_CHUNK := 1024 * 1024
  const MIN_CHUNK := 1024

  /** The powers of two from 1 KiB to 1 MiB. */
  predicate IsChunkSize(size: int) {
    size in {1024, 2048, 4096, 8192, 16384, 32768, 65536, 131072, 262144, 524288, 1048576}
  }

  /** The largest chunk size that does not exceed the span, or the smallest one there is. */
  method CalculateChunkSize(start: int, end: int) returns (chunkSize: nat)
    ensures IsChunkSize(chunkSize)
    ensures chunkSize == MIN_CHUNK || chunkSize <= end - start
    ensures forall size :: IsChunkSize(size) && size <= end - start ==> size <= chunkSize
  {
    chunkSize := MAX_CHUNK;
    while chunkSize > MIN_CHUNK && chunkSize > end - start
      invariant IsChunkSize(chunkSize)
      invariant forall size :: IsChunkSize(size) && size <= end - start ==> size <= chunkSize
    {
      chunkSize := chunkSize / 2;
    }
  }

  /** The range from `start` to `end` inclusive, fetched in chunks of `chunkSize`. */
  datatype Layout = Layout(start: nat, end: nat, chunkSize: nat) {
    ghost predicate Valid() {
      start <= end && IsChunkSize(chunkSize)
    }

    function Offset(): int
      requires chunkSize > 0
    {
      start - start % chunkSize
    }

    function LeftCut(): int
      requires chunkSize > 0
    {
      start - Offset()
    }

    function RightCut(): int
      requires chunkSize > 0
    {
      end % chunkSize + 1
    }

    function TotalParts(): int
      requires chunkSize > 0
    {
      (end - Offset() + chunkSize) / chunkSize
    }

    /** Where chunk `i` begins. */
    function At(i: int): int
      requires chunkSize > 0
    {
      Offset() + i * chunkSize
    }
  }

  lemma MulBy(a: int, b: int, c: nat)
    ensures (a + b) * c == a * c + b * c
    ensures a >= 1 ==> a * c >= c
  {
  }

  lemma QuotientIs(q: int, r: int, c: nat)
    requires 0 <= r < c
    ensures (q * c + r) / c == q
  {
    var x := q * c + r;
    var d := x / c;
    assert x == d * c + x % c;
    MulBy(q - d, d, c);
    MulBy(d - q, q, c);
    assert q - d < 1;
    assert d - q < 1;
  }

  lemma Divide(x: nat, c: nat) returns (q: nat, r: nat)
    requires c > 0
    ensures q == x / c && r == x % c && x == q * c + r && r < c
  {
    q, r := x / c, x % c;
  }

  lemma OrderQuotients(q: nat, r0: nat, e: nat, r: nat, c: nat)
    requires r0 < c && r < c && q * c + r0 <= e * c + r
    ensures q <= e && (e - q) * c == e * c - q * c && (e - q + 1) * c == e * c - q * c + c
  {
    MulBy(q - e, e, c);
    MulBy(e - q, q, c);
    MulBy(e - q, 1, c);
  }

  /** The chunks cover the range, and the first and the last one each hold a byte of it. */
  lemma ChunksCover(l: Layout)
    requires l.Valid()
    ensures 0 <= l.At(0) <= l.start < l.At(1) && l.TotalParts() >= 1
    ensures l.At(l.TotalParts() - 1) == l.end - l.end % l.chunkSize
    ensures l.At(l.TotalParts() - 1) <= l.end < l.At(l.TotalParts())
  {
    var c := l.chunkSize;
    var q, r0 := Divide(l.start, c);
    var e, r := Divide(l.end, c);
    OrderQuotients(q, r0, e, r, c);
    QuotientIs(e - q + 1, r, c);
    assert l.end - l.Offset() + c == (e - q + 1) * c + r;
    assert l.TotalParts() == e - q + 1;
  }

  /** The requests fetch at most 2 * chunkSize - 2 bytes that nobody asked for. */
  lemma OverFetch(l: Layout)
    requires l.Valid()
    ensures 0 <= l.TotalParts() * l.chunkSize - (l.end - l.start + 1) <= 2 * l.chunkSize - 2
  {
    ChunksCover(l);
    MulBy(l.TotalParts() - 1, 1, l.chunkSize);
  }

  /** A request is aligned to its own size, so it never straddles a 1 MiB boundary. */
  lemma ChunkAligned(l: Layout, i: nat)
    requires l.Valid()
    ensures l.At(i) >= 0 && l.At(i) % l.chunkSize == 0
    ensures l.At(i) / MAX_CHUNK == (l.At(i) + l.chunkSize - 1) / MAX_CHUNK
  {
    var k := l.start / l.chunkSize + i;
    assert l.start == l.start / l.chunkSize * l.chunkSize + l.start % l.chunkSize;
    MulBy(l.start / l.chunkSize, i, l.chunkSize);
    assert l.At(i) == k * l.chunkSize && k >= 0;
    AlignedFits(k, l.chunkSize);
  }

  lemma AlignedFits(k: nat, size: nat)
    requires IsChunkSize(size)
    ensures k * size >= 0 && (k * size) % size == 0
    ensures (k * size) / MAX_CHUNK == (k * size + size - 1) / MAX_CHUNK
  {
    var perMax := ChunksPerMax(size);
    var a, b := Divide(k, perMax);
    Regroup(a, perMax, size);
    MulBy(a * perMax, b, size);
    AlignedWithin(k * size, a, b * size, b, perMax, size);
    ResidueZero(k, size);
  }

  lemma ChunksPerMax(size: nat) returns (perMax: nat)
    requires IsChunkSize(size)
    ensures perMax > 0 && perMax * size == MAX_CHUNK
  {
    perMax := 1;
    var s := MAX_CHUNK;
    while s != size
      invariant s >= size && IsChunkSize(s) && perMax > 0 && perMax * s == MAX_CHUNK
    {
      perMax, s := 2 * perMax, s / 2;
    }
  }

  lemma AlignedWithin(x: nat, a: nat, y: nat, b: nat, perMax: nat, size: nat)
    requires perMax * size == MAX_CHUNK && b < perMax && y == b * size && x == a * MAX_CHUNK + y && size > 0
    ensures x / MAX_CHUNK == (x + size - 1) / MAX_CHUNK
  {
    MulBy(perMax - b, b, size);
    assert y + size <= MAX_CHUNK;
  }

  lemma ResidueZero(k: nat, c: nat)
    requires c > 0
    ensures (k * c) % c == 0
  {
    var q, r := Divide(k * c, c);
    QuotientIs(k, 0, c);
  }

  lemma Regroup(a: nat, b: nat, c: nat)
    ensures (a * b) * c == a * (b * c)
  {
  }

  // The bytes of each chunk.

  /** What the chunk source returns: fewer bytes than asked at the end of the stored object. */
  function Chunk(source: seq<Byte>, offset: nat, size: nat): seq<Byte> {
    source[Min(offset, |source|)..Min(offset + size, |source|)]
  }

  /** Chunk `i` after `fillBatch` has cut off what lies outside the range. */
  function Piece(l: Layout, source: seq<Byte>, i: nat): seq<Byte>
    requires l.Valid() && l.end < |source| && i < l.TotalParts()
  {
    CutFits(l, source, i);
    var chunk := Chunk(source, l.At(i), l.chunkSize);
    if l.TotalParts() == 1 then chunk[l.LeftCut()..l.RightCut()]
    else if i == 0 then chunk[l.LeftCut()..]
    else if i + 1 == l.TotalParts() then chunk[..l.RightCut()]
    else chunk
  }

  /** The cuts stay inside the chunks they are made in. */
  lemma CutFits(l: Layout, source: seq<Byte>, i: nat)
    requires l.Valid() && l.end < |source| && i < l.TotalParts()
    ensures 0 <= l.At(i) <= l.end && l.At(i + 1) == l.At(i) + l.chunkSize
    ensures i > 0 ==> l.At(i) > l.start
    ensures i + 1 < l.TotalParts() ==> l.At(i + 1) <= l.end
    ensures i + 1 == l.TotalParts() ==> l.At(i) + l.RightCut() == l.end + 1
    ensures 0 <= l.LeftCut() == l.start - l.At(0)
    ensures i == 0 ==> l.LeftCut() < Min(l.At(i) + l.chunkSize, |source|) - l.At(i)
    ensures i + 1 == l.TotalParts() ==> 0 < l.RightCut() <= Min(l.At(i) + l.chunkSize, |source|) - l.At(i)
  {
    ChunksCover(l);
    MulBy(i, 1, l.chunkSize);
    MulBy(i, -1, l.chunkSize);
    MulBy(l.TotalParts() - 1 - i, i, l.chunkSize);
    MulBy(l.TotalParts() - 1 - (i + 1), i + 1, l.chunkSize);
    if l.TotalParts() - 1 - i > 0 {
      assert (l.TotalParts() - 1) * l.chunkSize >= i * l.chunkSize + l.chunkSize;
    }
    if i > 0 {
      MulBy(i - 1, 1, l.chunkSize);
    }
  }

  /** Chunk `i`, cut, is the part of the range between two chunk boundaries. */
  lemma PieceIs(l: Layout, source: seq<Byte>, i: nat)
    requires l.Valid() && l.end < |source| && i < l.TotalParts()
    ensures var from, to := Max(l.start, l.At(i)), Min(l.end + 1, l.At(i + 1));
            0 <= from < to <= |source| && Piece(l, source, i) == source[from..to]
  {
    CutFits(l, source, i);
    ChunksCover(l);
    var at, to := l.At(i), Min(l.At(i + 1), |source|);
    var left := if i == 0 then l.LeftCut() else 0;
    var right := if i + 1 == l.TotalParts() then l.RightCut() else to - at;
    assert Chunk(source, at, l.chunkSize) == source[at..to];
    assert 0 <= left < right <= to - at;
    assert at + left == Max(l.start, at) && at + right == Min(l.end + 1, l.At(i + 1));
    SliceOfSlice(source, at, to, left, right);
    var chunk := Chunk(source, at, l.chunkSize);
    assert Piece(l, source, i) ==
           if l.TotalParts() == 1 then chunk[left..right]
           else if i == 0 then chunk[left..]
           else if i + 1 == l.TotalParts() then chunk[..right]
           else chunk;
  }

  lemma SliceOfSlice(s: seq<Byte>, at: nat, to: nat, left: nat, right: nat)
    requires at <= to <= |s| && left <= right <= to - at
    ensures s[at..to][left..right] == s[at + left..at + right]
    ensures left == 0 && right == to - at ==> s[at..to] == s[at + left..at + right]
    ensures left == 0 ==> s[at..to][..right] == s[at + left..at + right]
    ensures right == to - at ==> s[at..to][left..] == s[at + left..at + right]
  {
    var inner, outer := s[at..to][left..right], s[at + left..at + right];
    assert forall i :: 0 <= i < right - left ==> inner[i] == outer[i];
  }

  /** All the cut chunks, in order. */
  function Pieces(l: Layout, source: seq<Byte>): seq<seq<Byte>>
    requires l.Valid() && l.end < |source|
  {
    seq(Max(l.TotalParts(), 0), i requires 0 <= i < l.TotalParts() => Piece(l, source, i))
  }

  lemma {:induction false} PiecesUpTo(l: Layout, source: seq<Byte>, k: nat)
    requires l.Valid() && l.end < |source| && 1 <= k <= l.TotalParts()
    ensures l.start < Min(l.end + 1, l.At(k)) && |Pieces(l, source)| == l.TotalParts()
    ensures Flatten(Pieces(l, source)[..k]) == source[l.start..Min(l.end + 1, l.At(k))]
  {
    var pieces := Pieces(l, source);
    assert pieces[..k] == pieces[..k - 1] + [pieces[k - 1]];
    FlattenSnoc(pieces[..k - 1], pieces[k - 1]);
    PieceIs(l, source, k - 1);
    CutFits(l, source, k - 1);
    if k == 1 {
      ChunksCover(l);
    } else {
      PiecesUpTo(l, source, k - 1);
      SlicesMeet(source, l.start, l.At(k - 1), Min(l.end + 1, l.At(k)));
    }
  }

  lemma SlicesMeet(s: seq<Byte>, i: nat, j: nat, k: nat)
    requires i <= j <= k <= |s|
    ensures s[i..j] + s[j..k] == s[i..k]
  {
  }

  /** The cut chunks, one after the other, are exactly the requested range, and none of them is empty. */
  lemma PiecesAreRange(l: Layout, source: seq<Byte>)
    requires l.Valid() && l.end < |source|
    ensures Flatten(Pieces(l, source)) == source[l.start..l.end + 1]
    ensures forall i :: 0 <= i < |Pieces(l, source)| ==> Pieces(l, source)[i] != []
  {
    ChunksCover(l);
    var pieces := Pieces(l, source);
    PiecesUpTo(l, source, l.TotalParts());
    assert pieces[..l.TotalParts()] == pieces;
    forall i | 0 <= i < |pieces| ensures pieces[i] != [] {
      PieceIs(l, source, i);
    }
  }
}
