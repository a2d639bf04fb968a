/**
 The encrypted format as a pure function: what a ciphertext decrypts to, block by block, and what a
 plaintext encrypts to. The streaming readers are proved against these.
 */
module SealedBlocks {
  import opened BlockSizes
  import opened Nonces
  import opened Numbers
  import opened Sequences
  import opened Streams

  datatype Opened = Opened(message: seq<Byte>) | Rejected

  /** NaCl secretbox under one data key. Nothing is known about it but `Lawful`. */
  datatype AnyBox = AnyBox(seal: (seq<Byte>, Nonce) -> seq<Byte>, open: (seq<Byte>, Nonce) -> Opened)

  ghost predicate Lawful(box: AnyBox) {
    && (forall m, n {:trigger box.seal(m, n)} ::
          |box.seal(m, n)| == |m| + OVERHEAD && box.open(box.seal(m, n), n) == Opened(m))
    && (forall c, n {:trigger box.open(c, n)} ::
          box.open(c, n).Opened? ==> |c| == |box.open(c, n).message| + OVERHEAD)
  }

  function Zeros(k: nat): seq<Byte> {
    seq(k, _ => 0)
  }

  /** A lawful box exists: one that prepends zeros. */
  const PADDING_BOX := AnyBox(
    (m: seq<Byte>, n: Nonce) => Zeros(OVERHEAD) + m,
    (c: seq<Byte>, n: Nonce) =>
      if |c| >= OVERHEAD && c[..OVERHEAD] == Zeros(OVERHEAD) then Opened(c[OVERHEAD..]) else Rejected)

  type Box = b: AnyBox | Lawful(b) ghost witness PADDING_BOX

  const MAGIC: seq<Byte> := [0x54, 0x45, 0x4c, 0x44, 0x52, 0x49, 0x56, 0x45, 0, 0]

  // Decryption.

  /** A block that does not authenticate reads as zeros of the same length. */
  function OpenBlock(box: Box, n: Nonce, c: seq<Byte>): (m: seq<Byte>)
    requires |c| > OVERHEAD
    ensures |m| == |c| - OVERHEAD
  {
    match box.open(c, n)
    case Opened(message) => message
    case Rejected => Zeros(|c| - OVERHEAD)
  }

  /** The plaintext of a run of blocks whose first nonce is `n`. */
  function PlainData(box: Box, n: Nonce, c: seq<Byte>): seq<Byte>
    decreases |c|
  {
    if |c| <= OVERHEAD then []
    else
      var k := Min(|c|, BLOCK_SIZE);
      OpenBlock(box, n, c[..k]) + PlainData(box, Advance(n, 1), c[k..])
  }

  /** What follows the plaintext when `end` follows the ciphertext. */
  function PlainEnd(c: seq<Byte>, end: Error): Error
    decreases |c|
  {
    if |c| > OVERHEAD then PlainEnd(c[Min(|c|, BLOCK_SIZE)..], end)
    else if c != [] && end == EOF then BadHeader
    else end
  }

  /**
   The plaintext that comes out when the ciphertext breaks off after `c`. What is left of a block that was cut short
   is not delivered, unless it authenticates.
   */
  function KnownData(box: Box, n: Nonce, c: seq<Byte>): seq<Byte>
    decreases |c|
  {
    if |c| <= OVERHEAD || CutBlock(box, n, c) then []
    else
      var k := Min(|c|, BLOCK_SIZE);
      OpenBlock(box, n, c[..k]) + KnownData(box, Advance(n, 1), c[k..])
  }

  predicate CutBlock(box: Box, n: Nonce, c: seq<Byte>) {
    |c| < BLOCK_SIZE && box.open(c, n).Rejected?
  }

  /** No block of the ciphertext authenticates if it is cut short. */
  ghost predicate CutsRejected(box: Box, n: Nonce, c: seq<Byte>)
    decreases |c|
  {
    |c| > OVERHEAD ==>
      var k := Min(|c|, BLOCK_SIZE);
      && (forall j {:trigger c[..j]} :: 0 <= j < k ==> box.open(c[..j], n).Rejected?)
      && CutsRejected(box, Advance(n, 1), c[k..])
  }

  /** Sixteen bytes that tell a length below 2^24. */
  function Tag(k: nat): seq<Byte> {
    [k % 256, k / 256 % 256, k / 65536 % 256] + Zeros(13)
  }

  /** A box whose sealed messages begin with their length. */
  const TAGGED_BOX := AnyBox(
    (m: seq<Byte>, n: Nonce) => Tag(|m|) + m,
    (c: seq<Byte>, n: Nonce) =>
      if |c| >= OVERHEAD && c[..OVERHEAD] == Tag(|c| - OVERHEAD) then Opened(c[OVERHEAD..]) else Rejected)

  lemma TaggedIsLawful()
    ensures Lawful(TAGGED_BOX)
  {
    forall m: seq<Byte>, n: Nonce
      ensures |TAGGED_BOX.seal(m, n)| == |m| + OVERHEAD && TAGGED_BOX.open(TAGGED_BOX.seal(m, n), n) == Opened(m)
    {
      var c := Tag(|m|) + m;
      assert c[..OVERHEAD] == Tag(|m|) && c[OVERHEAD..] == m;
    }
  }

  lemma TagTells(a: nat, b: nat)
    requires a < 0x100_0000 && b < 0x100_0000 && Tag(a) == Tag(b)
    ensures a == b
  {
    var s, t := Tag(a), Tag(b);
    assert s[0] == t[0] && s[1] == t[1] && s[2] == t[2];
    hide Tag;
    FromDigits(a);
    FromDigits(b);
  }

  lemma FromDigits(a: nat)
    requires a < 0x100_0000
    ensures a == a % 256 + 256 * (a / 256 % 256) + 65536 * (a / 65536 % 256)
  {
    var q := a / 256;
    assert a == 256 * q + a % 256 && q == 256 * (q / 256) + q % 256 && q / 256 == a / 65536;
  }

  /** There are such ciphertexts: with a box like that, all that is sealed. */
  lemma {:induction false} TaggedRejectsCuts(box: Box, n: Nonce, p: seq<Byte>)
    requires box == TAGGED_BOX
    ensures CutsRejected(box, n, SealBlocks(box, n, p))
    decreases |p|
  {
    if p != [] {
      var k := Min(|p|, BLOCK_DATA_SIZE);
      var first, rest := Tag(k) + p[..k], SealBlocks(box, Advance(n, 1), p[k..]);
      TaggedRejectsCuts(box, Advance(n, 1), p[k..]);
      var c := SealBlocks(box, n, p);
      assert c == first + rest && |first| == k + OVERHEAD;
      assert k < BLOCK_DATA_SIZE ==> p[k..] == [] && rest == [];
      assert Min(|c|, BLOCK_SIZE) == |first| && c[|first|..] == rest;
      forall j | 0 <= j < |first| ensures box.open(c[..j], n).Rejected? {
        if j >= OVERHEAD && c[..j][..OVERHEAD] == Tag(j - OVERHEAD) {
          assert c[..j][..OVERHEAD] == Tag(k);
          TagTells(j - OVERHEAD, k);
        }
      }
    }
  }

  /** A ciphertext that breaks off gives a prefix of its plaintext: a block that was cut never reads as zeros. */
  lemma {:induction false} BrokenOff(box: Box, n: Nonce, c: seq<Byte>, whole: seq<Byte>)
    requires c <= whole && CutsRejected(box, n, whole)
    ensures KnownData(box, n, c) <= PlainData(box, n, whole)
    ensures KnownData(box, n, c) != [] ==> |c| >= Min(|whole|, BLOCK_SIZE)
    decreases |c|
  {
    assert c == whole[..|c|];
    if |c| > OVERHEAD && !CutBlock(box, n, c) {
      var k := Min(|c|, BLOCK_SIZE);
      assert whole[..k] == c[..k] && c[k..] <= whole[k..];
      BrokenOff(box, Advance(n, 1), c[k..], whole[k..]);
    }
  }

  lemma {:induction false} CutsRejectedAfter(box: Box, n: Nonce, c: seq<Byte>, k: nat)
    requires k * BLOCK_SIZE <= |c| && CutsRejected(box, n, c)
    ensures CutsRejected(box, Advance(n, k), c[k * BLOCK_SIZE..])
    decreases k
  {
    if k > 0 {
      CutsRejectedAfter(box, Advance(n, 1), c[BLOCK_SIZE..], k - 1);
      AdvanceTwice(n, 1, k - 1);
      DropTwice(c, BLOCK_SIZE, (k - 1) * BLOCK_SIZE, k * BLOCK_SIZE);
    }
  }

  /** Reading one block off the front. */
  lemma FirstBlock(box: Box, n: Nonce, c: seq<Byte>)
    requires |c| > OVERHEAD
    ensures var k := Min(|c|, BLOCK_SIZE);
            PlainData(box, n, c) == OpenBlock(box, n, c[..k]) + PlainData(box, Advance(n, 1), c[k..])
  {
  }

  // Encryption.

  function SealBlocks(box: Box, n: Nonce, p: seq<Byte>): seq<Byte>
    decreases |p|
  {
    if p == [] then []
    else
      var k := Min(|p|, BLOCK_DATA_SIZE);
      box.seal(p[..k], n) + SealBlocks(box, Advance(n, 1), p[k..])
  }

  function Encrypted(box: Box, n: Nonce, p: seq<Byte>): seq<Byte> {
    MAGIC + n + SealBlocks(box, n, p)
  }

  /** A stored object: its header names the first nonce and its body is well sized. */
  ghost predicate WellFormed(c: seq<Byte>) {
    |c| >= HEADER_SIZE && c[..MAGIC_SIZE] == MAGIC && DecryptedSize(|c|).Size?
  }

  function HeaderNonce(c: seq<Byte>): Nonce
    requires |c| >= HEADER_SIZE
  {
    c[MAGIC_SIZE..HEADER_SIZE]
  }

  /** The plaintext of a whole stored object. */
  function Decrypted(box: Box, c: seq<Byte>): seq<Byte>
    requires |c| >= HEADER_SIZE
  {
    PlainData(box, HeaderNonce(c), c[HEADER_SIZE..])
  }

  // Lengths.

  function PlainSize(size: nat): nat {
    size / BLOCK_SIZE * BLOCK_DATA_SIZE + (if size % BLOCK_SIZE > OVERHEAD then size % BLOCK_SIZE - OVERHEAD else 0)
  }

  lemma PlainSizeStep(size: nat)
    ensures size <= OVERHEAD ==> PlainSize(size) == 0
    ensures OVERHEAD < size < BLOCK_SIZE ==> PlainSize(size) == size - OVERHEAD
    ensures size >= BLOCK_SIZE ==> PlainSize(size) == BLOCK_DATA_SIZE + PlainSize(size - BLOCK_SIZE)
  {
    if size >= BLOCK_SIZE {
      DivideOut(size / BLOCK_SIZE - 1, size % BLOCK_SIZE);
    }
  }

  lemma {:induction false} PlainLength(box: Box, n: Nonce, c: seq<Byte>)
    ensures |PlainData(box, n, c)| == PlainSize(|c|)
    decreases |c|
  {
    PlainSizeStep(|c|);
    if |c| > OVERHEAD {
      var k := Min(|c|, BLOCK_SIZE);
      PlainLength(box, Advance(n, 1), c[k..]);
      PlainSizeStep(0);
    }
  }

  lemma {:induction false} PlainEndResidue(c: seq<Byte>, end: Error)
    ensures PlainEnd(c, end) == if 0 < |c| % BLOCK_SIZE <= OVERHEAD && end == EOF then BadHeader else end
    decreases |c|
  {
    if |c| >= BLOCK_SIZE {
      PlainEndResidue(c[BLOCK_SIZE..], end);
      ResidueStep(|c|);
    } else if |c| > OVERHEAD {
      assert c[|c|..] == [];
    }
  }

  lemma ResidueStep(size: nat)
    requires size >= BLOCK_SIZE
    ensures (size - BLOCK_SIZE) % BLOCK_SIZE == size % BLOCK_SIZE
  {
    DivideOut(size / BLOCK_SIZE - 1, size % BLOCK_SIZE);
  }

  lemma DecryptedLength(box: Box, c: seq<Byte>)
    requires |c| >= HEADER_SIZE
    ensures DecryptedSize(|c|).Size? ==> |Decrypted(box, c)| == DecryptedSize(|c|).value
    ensures DecryptedSize(|c|).Size? <==> PlainEnd(c[HEADER_SIZE..], EOF) == EOF
  {
    PlainLength(box, HeaderNonce(c), c[HEADER_SIZE..]);
    PlainEndResidue(c[HEADER_SIZE..], EOF);
  }

  /** The encrypted form of n bytes is exactly `EncryptedSize(n)` bytes long. */
  lemma {:induction false} SealLength(box: Box, n: Nonce, p: seq<Byte>)
    ensures HEADER_SIZE + |SealBlocks(box, n, p)| == EncryptedSize(|p|)
    decreases |p|
  {
    hide Advance;
    if |p| >= BLOCK_DATA_SIZE {
      SealLength(box, Advance(n, 1), p[BLOCK_DATA_SIZE..]);
    } else if p != [] {
      assert p[|p|..] == [];
    }
  }

  // Cutting at block boundaries.

  /** `k` whole blocks `a` and what follows them decrypt separately, the latter with the nonce advanced by `k`. */
  lemma {:induction false} PlainConcat(box: Box, n: Nonce, a: seq<Byte>, b: seq<Byte>, k: nat)
    requires |a| == k * BLOCK_SIZE
    ensures |PlainData(box, n, a)| == k * BLOCK_DATA_SIZE
    ensures PlainData(box, n, a + b) == PlainData(box, n, a) + PlainData(box, Advance(n, k), b)
    decreases k
  {
    if k == 0 {
      assert a + b == b;
    } else {
      var rest := a[BLOCK_SIZE..];
      PlainConcat(box, Advance(n, 1), rest, b, k - 1);
      AdvanceTwice(n, 1, k - 1);
      PlainConcatStep(box, n, a, b, PlainData(box, Advance(n, k), b));
    }
  }

  lemma PlainConcatStep(box: Box, n: Nonce, a: seq<Byte>, b: seq<Byte>, plainB: seq<Byte>)
    requires |a| >= BLOCK_SIZE
    requires PlainData(box, Advance(n, 1), a[BLOCK_SIZE..] + b)
             == PlainData(box, Advance(n, 1), a[BLOCK_SIZE..]) + plainB
    ensures |PlainData(box, n, a)| == BLOCK_DATA_SIZE + |PlainData(box, Advance(n, 1), a[BLOCK_SIZE..])|
    ensures PlainData(box, n, a + b) == PlainData(box, n, a) + plainB
  {
    FirstBlock(box, n, a + b);
    FirstBlock(box, n, a);
    DropConcatFront(a, b, BLOCK_SIZE);
    ConcatAssociates(OpenBlock(box, n, a[..BLOCK_SIZE]), PlainData(box, Advance(n, 1), a[BLOCK_SIZE..]), plainB);
  }

  lemma SplitBlocks(box: Box, n: Nonce, c: seq<Byte>, k: nat)
    requires k * BLOCK_SIZE <= |c|
    ensures var head, tail := c[..k * BLOCK_SIZE], c[k * BLOCK_SIZE..];
            && |PlainData(box, n, head)| == k * BLOCK_DATA_SIZE
            && PlainData(box, n, c) == PlainData(box, n, head) + PlainData(box, Advance(n, k), tail)
  {
    assert c == c[..k * BLOCK_SIZE] + c[k * BLOCK_SIZE..];
    PlainConcat(box, n, c[..k * BLOCK_SIZE], c[k * BLOCK_SIZE..], k);
  }

  /** Skipping `k` whole blocks of ciphertext skips `k` whole blocks of plaintext, with the nonce advanced by `k`. */
  lemma SkipBlocks(box: Box, n: Nonce, c: seq<Byte>, k: nat)
    requires k * BLOCK_SIZE <= |c|
    ensures k * BLOCK_DATA_SIZE <= |PlainData(box, n, c)|
    ensures PlainData(box, n, c)[k * BLOCK_DATA_SIZE..] == PlainData(box, Advance(n, k), c[k * BLOCK_SIZE..])
  {
    SplitBlocks(box, n, c, k);
  }

  /** The first `k` whole blocks of ciphertext give the first `k` blocks of plaintext. */
  lemma TakeBlocks(box: Box, n: Nonce, c: seq<Byte>, k: nat)
    requires k * BLOCK_SIZE <= |c|
    ensures k * BLOCK_DATA_SIZE <= |PlainData(box, n, c)|
    ensures PlainData(box, n, c[..k * BLOCK_SIZE]) == PlainData(box, n, c)[..k * BLOCK_DATA_SIZE]
  {
    SplitBlocks(box, n, c, k);
  }

  /** The ciphertext of block `i`; the last one may be short. */
  function BlockAt(c: seq<Byte>, i: nat): seq<Byte>
    requires i * BLOCK_SIZE <= |c|
  {
    c[i * BLOCK_SIZE..Min(|c|, (i + 1) * BLOCK_SIZE)]
  }

  /** Output block `i` depends on ciphertext block `i` and its nonce, and on nothing else. */
  lemma BlockwisePlain(box: Box, n: Nonce, c: seq<Byte>, i: nat)
    requires i * BLOCK_SIZE + OVERHEAD < |c|
    ensures var at := i * BLOCK_DATA_SIZE;
            var block := OpenBlock(box, Advance(n, i), BlockAt(c, i));
            && at + |block| <= |PlainData(box, n, c)|
            && PlainData(box, n, c)[at..at + |block|] == block
  {
    var from, to := i * BLOCK_SIZE, Min(|c|, (i + 1) * BLOCK_SIZE);
    var tail := c[from..];
    TakeOfDrop(c, from, to);
    assert tail[..Min(|tail|, BLOCK_SIZE)] == BlockAt(c, i);
    SkipBlocks(box, n, c, i);
    FirstBlock(box, Advance(n, i), tail);
    Front(PlainData(box, n, c), i * BLOCK_DATA_SIZE, OpenBlock(box, Advance(n, i), BlockAt(c, i)));
  }

  /**
   What that is: the message of a block that authenticates under its nonce, and as many zeros in place of one that does
   not.
   */
  lemma BlockOrZeros(box: Box, n: Nonce, c: seq<Byte>, i: nat)
    requires i * BLOCK_SIZE + OVERHEAD < |c|
    ensures var at, to := i * BLOCK_DATA_SIZE, Min(|c|, (i + 1) * BLOCK_SIZE);
            var block := c[i * BLOCK_SIZE..to];
            && at + |block| - OVERHEAD <= |PlainData(box, n, c)|
            && PlainData(box, n, c)[at..at + |block| - OVERHEAD]
               == match box.open(block, Advance(n, i))
                  case Opened(message) => message
                  case Rejected => seq(|block| - OVERHEAD, _ => 0)
  {
    hide PlainData;
    BlockwisePlain(box, n, c, i);
  }

  /** Block `i` of the encryption is the `i`-th stretch of the plaintext, sealed under the nonce advanced by `i`. */
  lemma {:induction false} BlockwiseSealed(box: Box, n: Nonce, p: seq<Byte>, i: nat)
    requires i * BLOCK_DATA_SIZE < |p|
    ensures var from, to := i * BLOCK_SIZE, Min(|p|, (i + 1) * BLOCK_DATA_SIZE);
            var sealed := box.seal(p[i * BLOCK_DATA_SIZE..to], Advance(n, i));
            && from + |sealed| <= |SealBlocks(box, n, p)|
            && SealBlocks(box, n, p)[from..from + |sealed|] == sealed
    decreases i
  {
    hide SealBlocks, Advance;
    FirstSealed(box, n, p);
    if i > 0 {
      var first, rest := box.seal(p[..BLOCK_DATA_SIZE], n), SealBlocks(box, Advance(n, 1), p[BLOCK_DATA_SIZE..]);
      BlockwiseSealed(box, Advance(n, 1), p[BLOCK_DATA_SIZE..], i - 1);
      AdvanceTwice(n, 1, i - 1);
      var at, to, from := i * BLOCK_DATA_SIZE, Min(|p|, (i + 1) * BLOCK_DATA_SIZE), (i - 1) * BLOCK_SIZE;
      SliceOfRest(p, BLOCK_DATA_SIZE, at, to);
      var sealed := box.seal(p[at..to], Advance(n, i));
      assert to - BLOCK_DATA_SIZE == Min(|p| - BLOCK_DATA_SIZE, i * BLOCK_DATA_SIZE);
      assert rest[from..from + |sealed|] == sealed;
      SliceAfter(first, rest, from, from + |sealed|);
    }
  }

  lemma FirstSealed(box: Box, n: Nonce, p: seq<Byte>)
    requires p != []
    ensures var k := Min(|p|, BLOCK_DATA_SIZE);
            var first, rest := box.seal(p[0..k], n), SealBlocks(box, Advance(n, 1), p[k..]);
            SealBlocks(box, n, p) == first + rest && |first| == k + OVERHEAD && (first + rest)[0..|first|] == first
    ensures p[0..Min(|p|, BLOCK_DATA_SIZE)] == p[..Min(|p|, BLOCK_DATA_SIZE)] && Advance(n, 0) == n
  {
    assert p[0..Min(|p|, BLOCK_DATA_SIZE)] == p[..Min(|p|, BLOCK_DATA_SIZE)];
  }

  lemma SliceOfRest(s: seq<Byte>, k: nat, at: nat, to: nat)
    requires k <= at <= to <= |s|
    ensures s[k..][at - k..to - k] == s[at..to]
  {
  }

  lemma SliceAfter(a: seq<Byte>, b: seq<Byte>, from: nat, to: nat)
    requires from <= to <= |b|
    ensures (a + b)[|a| + from..|a| + to] == b[from..to]
  {
  }

  lemma Front(s: seq<Byte>, at: nat, block: seq<Byte>)
    requires at <= |s| && block <= s[at..]
    ensures at + |block| <= |s| && s[at..at + |block|] == block
  {
    assert s[at..][..|block|] == s[at..at + |block|];
  }

  lemma BlockOfByte(size: nat, at: nat)
    requires at < PlainSize(size)
    ensures var i := at / BLOCK_DATA_SIZE;
            && i * BLOCK_SIZE + OVERHEAD < size
            && i * BLOCK_DATA_SIZE <= at
            && at < i * BLOCK_DATA_SIZE + Min(size, (i + 1) * BLOCK_SIZE) - i * BLOCK_SIZE - OVERHEAD
  {
  }

  /** Plaintext byte `at` is byte `at - i * 65536` of output block `i = at / 65536`. */
  lemma PlainByte(box: Box, n: Nonce, c: seq<Byte>, at: nat, i: nat)
    requires at < |PlainData(box, n, c)| && at / BLOCK_DATA_SIZE == i
    ensures i * BLOCK_SIZE + OVERHEAD < |c|
    ensures var k := at - i * BLOCK_DATA_SIZE;
            var block := OpenBlock(box, Advance(n, i), BlockAt(c, i));
            0 <= k < |block| && PlainData(box, n, c)[at] == block[k]
  {
    hide PlainData, PlainSize, OpenBlock, Advance;
    PlainLength(box, n, c);
    BlockOfByte(|c|, at);
    BlockwisePlain(box, n, c, i);
    ByteOfSlice(PlainData(box, n, c), i * BLOCK_DATA_SIZE, OpenBlock(box, Advance(n, i), BlockAt(c, i)), at);
  }

  lemma ByteOfSlice(s: seq<Byte>, start: nat, slice: seq<Byte>, at: nat)
    requires start <= at < start + |slice| <= |s| && s[start..start + |slice|] == slice
    ensures s[at] == slice[at - start]
  {
    assert s[start..start + |slice|][at - start] == s[at];
  }

  /** Altering one block of a ciphertext leaves the plaintext of every other block where and as it was. */
  lemma TamperingStaysInBlock(box: Box, n: Nonce, c: seq<Byte>, d: seq<Byte>, at: nat)
    requires |c| == |d| && at < |PlainData(box, n, c)|
    requires var i := at / BLOCK_DATA_SIZE;
             i * BLOCK_SIZE <= |c| ==> BlockAt(c, i) == BlockAt(d, i)
    ensures |PlainData(box, n, c)| == |PlainData(box, n, d)|
    ensures PlainData(box, n, c)[at] == PlainData(box, n, d)[at]
  {
    hide PlainData, PlainSize, OpenBlock, BlockAt, Advance;
    PlainLength(box, n, c);
    PlainLength(box, n, d);
    PlainByte(box, n, c, at, at / BLOCK_DATA_SIZE);
    PlainByte(box, n, d, at, at / BLOCK_DATA_SIZE);
  }

  // The round trip.

  lemma {:induction false} OpenSealed(box: Box, n: Nonce, p: seq<Byte>)
    ensures PlainData(box, n, SealBlocks(box, n, p)) == p
    decreases |p|
  {
    if p != [] {
      var k := Min(|p|, BLOCK_DATA_SIZE);
      var first, rest := box.seal(p[..k], n), SealBlocks(box, Advance(n, 1), p[k..]);
      var c := SealBlocks(box, n, p);
      assert c == first + rest && |first| == k + OVERHEAD;
      assert k < BLOCK_DATA_SIZE ==> p[k..] == [];
      assert Min(|c|, BLOCK_SIZE) == |first|;
      assert c[..|first|] == first && c[|first|..] == rest;
      OpenSealed(box, Advance(n, 1), p[k..]);
      assert p == p[..k] + p[k..];
    }
  }

  /** What the encrypter writes is a well-formed object of the predicted size, and it decrypts to the plaintext. */
  lemma DecryptEncrypted(box: Box, n: Nonce, p: seq<Byte>)
    ensures var c := Encrypted(box, n, p);
            && |c| == EncryptedSize(|p|) && WellFormed(c) && HeaderNonce(c) == n
            && c[..10] == [0x54, 0x45, 0x4c, 0x44, 0x52, 0x49, 0x56, 0x45, 0, 0] && c[10..34] == n
            && Decrypted(box, c) == p
  {
    var c := Encrypted(box, n, p);
    SealLength(box, n, p);
    SizeBijection(|p|, 0);
    assert c[..MAGIC_SIZE] == MAGIC && c[MAGIC_SIZE..HEADER_SIZE] == n;
    assert c[HEADER_SIZE..] == SealBlocks(box, n, p);
    OpenSealed(box, n, p);
  }
}
