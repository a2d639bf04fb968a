/** Streams of decrypted blocks, their limits, and what opening a slice of the ciphertext does to them. */
module SeekWindows {
  import opened BlockSizes
  import opened Nonces
  import opened Numbers
  import opened RangeOpeners
  import opened SealedBlocks
  import opened Sequences
  import opened Streams

  /** The stream under a byte limit (negative for none): a limit that is reached ends it at once. */
  function Limited(s: Stream, limit: int): Stream {
    var reached := 0 <= limit <= |s.data|;
    Stream(if reached then s.data[..limit] else s.data,
           if reached && s.data != [] then EOF else s.end,
           s.faults,
           reached && s.data != [])
  }

  function Dropped(s: Stream, k: nat): Stream
    requires k <= |s.data|
  {
    s.(data := s.data[k..])
  }

  function WithFront(front: seq<Byte>, s: Stream): Stream {
    s.(data := front + s.data)
  }

  /** Delivering `k` bytes leaves the limited stream on what follows them; a limit used up has delivered everything. */
  lemma LimitedStep(s: Stream, limit: int, k: nat)
    requires k <= |s.data| && (limit < 0 || k <= limit)
    ensures var w, left := Limited(s, limit), if limit < 0 then limit else limit - k;
            && k <= |w.data| && w.data[..k] == s.data[..k]
            && (left != 0 ==> Limited(Dropped(s, k), left) == Dropped(w, k))
            && (left == 0 && s.data != [] ==> w.data[k..] == [] && w.end == EOF)
  {
    if 0 <= limit <= |s.data| && limit > k {
      assert s.data[k..][..limit - k] == s.data[..limit][k..];
    }
  }

  lemma FrontDropped(out: seq<Byte>, front: seq<Byte>, s: Stream)
    ensures Dropped(WithFront(out + front, s), |out|) == WithFront(front, s)
    ensures WithFront(out + front, s).data[..|out|] == out
  {
    assert out + front + s.data == out + (front + s.data);
  }

  /** The blocks `c`, first nonce `n`, as a stream; a ciphertext that breaks off may do so inside a block. */
  function Blocks(box: Box, n: Nonce, c: seq<Byte>, end: Error): Stream {
    Stream(if end.Fault? then KnownData(box, n, c) else PlainData(box, n, c), PlainEnd(c, end), end.Fault?, false)
  }

  lemma NextBlock(box: Box, n: Nonce, c: seq<Byte>, end: Error)
    requires |c| > OVERHEAD && (end.Fault? ==> !CutBlock(box, n, c))
    ensures var k := Min(|c|, BLOCK_SIZE);
            Blocks(box, n, c, end) == WithFront(OpenBlock(box, n, c[..k]), Blocks(box, Advance(n, 1), c[k..], end))
  {
    FirstBlock(box, n, c);
  }

  lemma NoBlock(box: Box, n: Nonce, c: seq<Byte>, end: Error)
    requires |c| <= OVERHEAD
    ensures Blocks(box, n, c, end) == Stream([], if c != [] && end == EOF then BadHeader else end, end.Fault?, false)
  {
  }

  lemma {:induction false} BrokenEnd(c: seq<Byte>, end: Error)
    requires end.Fault?
    ensures PlainEnd(c, end) == end
    decreases |c|
  {
    if |c| > OVERHEAD {
      BrokenEnd(c[Min(|c|, BLOCK_SIZE)..], end);
    }
  }

  /** The plaintext from byte `offset` on, under a limit. */
  function PlainFrom(box: Box, n: Nonce, c: seq<Byte>, offset: nat, limit: int): Stream
    requires offset <= |PlainData(box, n, c)|
  {
    Limited(Dropped(Blocks(box, n, c, EOF), offset), limit)
  }

  /** The slice of ciphertext body that a seek opens. */
  function SeekSlice(body: seq<Byte>, offset: nat, limit: int): seq<Byte>
    requires offset / BLOCK_DATA_SIZE * BLOCK_SIZE <= |body|
  {
    var u := CalculateUnderlying(offset, limit);
    var tail := body[u.blocks * BLOCK_SIZE..];
    if limit < 0 then tail else tail[..Min(|tail|, u.limit)]
  }

  /** Opening just that slice and discarding its first bytes is the same as slicing the whole plaintext. */
  lemma SeekServes(box: Box, n: Nonce, body: seq<Byte>, offset: nat, limit: int)
    requires offset < |PlainData(box, n, body)|
    ensures var u := CalculateUnderlying(offset, limit);
            && u.blocks * BLOCK_SIZE <= |body|
            && var slice := SeekSlice(body, offset, limit);
            && u.discard + OVERHEAD < Min(|slice|, BLOCK_SIZE)
            && u.discard < |PlainData(box, Advance(n, u.blocks), slice)|
            && PlainFrom(box, Advance(n, u.blocks), slice, u.discard, limit) == PlainFrom(box, n, body, offset, limit)
  {
    hide PlainData, PlainEnd, Blocks, Limited, Dropped;
    SeekSkips(box, n, body, offset);
    var u := CalculateUnderlying(offset, limit);
    UnderlyingIsTight(offset, limit);
    var tail := body[u.blocks * BLOCK_SIZE..];
    if 0 <= u.limit < |tail| {
      SeekCuts(box, Advance(n, u.blocks), tail, u.discard, limit, BlocksAsked(u));
    } else {
      assert SeekSlice(body, offset, limit) == tail;
    }
  }

  /** The blocks from the one that holds byte `offset` on, less `discard` bytes, are the plaintext from there. */
  lemma SeekSkips(box: Box, n: Nonce, body: seq<Byte>, offset: nat)
    requires offset < |PlainData(box, n, body)|
    ensures var b, discard := offset / BLOCK_DATA_SIZE, offset % BLOCK_DATA_SIZE;
            && b * BLOCK_SIZE <= |body|
            && var tail := body[b * BLOCK_SIZE..];
            && discard + OVERHEAD < Min(|tail|, BLOCK_SIZE)
            && discard < |PlainData(box, Advance(n, b), tail)|
            && Dropped(Blocks(box, Advance(n, b), tail, EOF), discard) == Dropped(Blocks(box, n, body, EOF), offset)
  {
    SeekInside(box, n, body, offset);
    var b, discard := offset / BLOCK_DATA_SIZE, offset % BLOCK_DATA_SIZE;
    SkipBlocks(box, n, body, b);
    SeekEnd(body, b);
    DropTwice(PlainData(box, n, body), b * BLOCK_DATA_SIZE, discard, offset);
  }

  /** A plaintext position lies inside its block. */
  lemma SeekInside(box: Box, n: Nonce, body: seq<Byte>, offset: nat)
    requires offset < |PlainData(box, n, body)|
    ensures var b, discard := offset / BLOCK_DATA_SIZE, offset % BLOCK_DATA_SIZE;
            && b * BLOCK_SIZE <= |body| && discard + OVERHEAD < Min(|body| - b * BLOCK_SIZE, BLOCK_SIZE)
            && offset == b * BLOCK_DATA_SIZE + discard
  {
    PlainLength(box, n, body);
    BlockOfByte(|body|, offset);
  }

  lemma {:induction false} SeekEnd(body: seq<Byte>, b: nat)
    requires b * BLOCK_SIZE <= |body|
    ensures PlainEnd(body[b * BLOCK_SIZE..], EOF) == PlainEnd(body, EOF)
    decreases b
  {
    if b > 0 {
      SeekEnd(body[BLOCK_SIZE..], b - 1);
      DropTwice(body, BLOCK_SIZE, (b - 1) * BLOCK_SIZE, b * BLOCK_SIZE);
    }
  }

  /** Cutting the ciphertext after `k` blocks does not show within a limit that these cover. */
  lemma SeekCuts(box: Box, n: Nonce, tail: seq<Byte>, discard: nat, limit: nat, k: nat)
    requires 1 <= k && k * BLOCK_SIZE < |tail| && discard < BLOCK_DATA_SIZE
    requires discard + limit <= k * BLOCK_DATA_SIZE
    ensures var head := tail[..k * BLOCK_SIZE];
            && discard < |PlainData(box, n, head)| && discard < |PlainData(box, n, tail)|
            && PlainFrom(box, n, head, discard, limit) == PlainFrom(box, n, tail, discard, limit)
  {
    TakeBlocks(box, n, tail, k);
    var whole := PlainData(box, n, tail);
    var cut := k * BLOCK_DATA_SIZE;
    TakeOfDrop(whole, discard, cut);
    assert whole[discard..][..cut - discard][..limit] == whole[discard..][..limit];
  }

  /** The result of a seek to `offset` in a plaintext of `size` bytes. */
  function SeekResult(offset: nat, size: nat): Error {
    if offset / BLOCK_DATA_SIZE * BLOCK_DATA_SIZE >= size then EOF
    else if offset > size then BadSeek
    else Nil
  }

  /**
   At or past the end a seek opens nothing, or the last block, and that holds less than is to be discarded or as much.
   */
  lemma SeekBeyond(box: Box, n: Nonce, opener: RangeOpener, offset: nat, limit: int)
    requires WellFormed(opener.stored) && (limit >= 0 || opener.toEnd)
    requires offset >= |PlainData(box, n, opener.stored[HEADER_SIZE..])|
    ensures var u := CalculateUnderlying(offset, limit);
            var c, size := opener.Served(u.offset, u.limit), |PlainData(box, n, opener.stored[HEADER_SIZE..])|;
            && (SeekResult(offset, size) == EOF <==> c == [])
            && (c != [] ==> OVERHEAD < |c| < BLOCK_SIZE)
            && (c != [] ==> u.blocks * BLOCK_SIZE <= |opener.stored| - HEADER_SIZE
                            && c == opener.stored[HEADER_SIZE..][u.blocks * BLOCK_SIZE..])
            && (c != [] ==> u.blocks * BLOCK_DATA_SIZE + |c| - OVERHEAD == size)
            && u.blocks * BLOCK_DATA_SIZE + u.discard == offset
  {
    hide PlainData, PlainSize;
    var body := |opener.stored| - HEADER_SIZE;
    PlainLength(box, n, opener.stored[HEADER_SIZE..]);
    UnderlyingIsTight(offset, limit);
    LastBlock(body, offset);
    var u := CalculateUnderlying(offset, limit);
    var c := opener.Served(u.offset, u.limit);
    assert c == if u.blocks * BLOCK_SIZE >= body then [] else opener.stored[u.offset..];
  }

  /** A lone short block that is discarded in full leaves nothing. */
  lemma ShortBlock(box: Box, n: Nonce, c: seq<Byte>, limit: int)
    requires c == [] || OVERHEAD < |c| < BLOCK_SIZE
    ensures var s := Blocks(box, n, c, EOF);
            && s.end == EOF && (c == [] ==> s.data == [])
            && (c != [] ==> |s.data| == |c| - OVERHEAD
                            && Limited(Dropped(s, |c| - OVERHEAD), limit) == Stream([], EOF, false, false))
  {
    if c != [] {
      FirstBlock(box, n, c);
      assert c[Min(|c|, BLOCK_SIZE)..] == [];
      assert PlainEnd([], EOF) == EOF;
    }
  }

  /** If it breaks off, something of it is delivered only if all of it arrived. */
  lemma ShortBroken(box: Box, n: Nonce, whole: seq<Byte>, c: seq<Byte>, end: Error, limit: int)
    requires OVERHEAD < |whole| < BLOCK_SIZE && c <= whole && CutsRejected(box, n, whole) && end.Fault?
    ensures var s := Blocks(box, n, c, end);
            s.data != [] ==>
              && c == whole && |s.data| == |c| - OVERHEAD
              && Limited(Dropped(s, |c| - OVERHEAD), limit) == Stream([], end, true, false)
  {
    BrokenOff(box, n, c, whole);
    BrokenEnd(c, end);
    if KnownData(box, n, c) != [] {
      assert c[Min(|c|, BLOCK_SIZE)..] == [];
      assert KnownData(box, Advance(n, 1), []) == [];
    }
  }

  /** The opener serves a well-formed object, and `offset` is its end or lies past it. */
  ghost predicate PastEnd(box: Box, n: Nonce, opener: RangeOpener, offset: nat, limit: int) {
    && WellFormed(opener.stored) && (limit >= 0 || opener.toEnd)
    && (!opener.reliable ==> CutsRejected(box, n, opener.stored[HEADER_SIZE..]))
    && offset >= |PlainData(box, n, opener.stored[HEADER_SIZE..])|
  }

  /** What loading the first block of what arrives then comes to. */
  lemma BeyondLoads(box: Box, n: Nonce, opener: RangeOpener, offset: nat, limit: int, c: seq<Byte>, end: Error)
    requires PastEnd(box, n, opener, offset, limit)
    requires var u := CalculateUnderlying(offset, limit); opener.Delivers(u.offset, u.limit, c, end)
    ensures var u := CalculateUnderlying(offset, limit);
            var s := Blocks(box, Advance(n, u.blocks), c, end);
            var result := SeekResult(offset, |PlainData(box, n, opener.stored[HEADER_SIZE..])|);
            && (end == EOF && |c| <= OVERHEAD ==> result == s.end == EOF)
            && ((if end == EOF then |c| > OVERHEAD else s.data != []) ==>
                  && result == (if u.discard + OVERHEAD > Min(|c|, BLOCK_SIZE) then BadSeek else Nil)
                  && (result == Nil ==>
                        && u.discard <= |s.data|
                        && Serves(Limited(Dropped(s, u.discard), limit), Stream([], EOF, !opener.reliable, false))))
  {
    SeekBeyond(box, n, opener, offset, limit);
    var u, body := CalculateUnderlying(offset, limit), opener.stored[HEADER_SIZE..];
    var served := opener.Served(u.offset, u.limit);
    hide PlainData, PlainEnd, Blocks, Limited, Dropped, CutsRejected, CalculateUnderlying, SeekResult;
    if end == EOF {
      ShortBlock(box, Advance(n, u.blocks), c, limit);
    } else if served != [] {
      CutsRejectedAfter(box, n, body, u.blocks);
      ShortBroken(box, Advance(n, u.blocks), served, c, end, limit);
    } else {
      NothingBroken(box, Advance(n, u.blocks), end);
    }
  }

  lemma NothingBroken(box: Box, n: Nonce, end: Error)
    requires end.Fault?
    ensures Blocks(box, n, [], end) == Stream([], end, true, false)
  {
  }

  /** Where the block that an offset at or past the end falls into begins, and how much there is of it. */
  lemma LastBlock(body: nat, offset: nat)
    requires (body % BLOCK_SIZE == 0 || body % BLOCK_SIZE > OVERHEAD) && offset >= PlainSize(body)
    ensures var b := offset / BLOCK_DATA_SIZE;
            if b * BLOCK_SIZE >= body then b * BLOCK_DATA_SIZE >= PlainSize(body)
            else
              && OVERHEAD < body - b * BLOCK_SIZE < BLOCK_SIZE
              && b * BLOCK_DATA_SIZE + (body - b * BLOCK_SIZE) - OVERHEAD == PlainSize(body)
  {
    var b, q, r := offset / BLOCK_DATA_SIZE, body / BLOCK_SIZE, body % BLOCK_SIZE;
    assert body == q * BLOCK_SIZE + r && b >= q;
  }

  /** What the opener serves for a seek is that slice of the body. */
  lemma ServedIsSlice(opener: RangeOpener, offset: nat, limit: int)
    requires |opener.stored| >= HEADER_SIZE && (limit >= 0 || opener.toEnd)
    requires offset / BLOCK_DATA_SIZE * BLOCK_SIZE <= |opener.stored| - HEADER_SIZE
    ensures var u := CalculateUnderlying(offset, limit);
            opener.Served(u.offset, u.limit) == SeekSlice(opener.stored[HEADER_SIZE..], offset, limit)
  {
    UnderlyingIsTight(offset, limit);
  }

  /**
   What a seek opens of an object, whether it is read to its end or breaks off, serves the plaintext from the offset.
   */
  lemma OpenedServes(box: Box, n: Nonce, opener: RangeOpener, offset: nat, limit: int, c: seq<Byte>, end: Error)
    requires |opener.stored| >= HEADER_SIZE && (limit >= 0 || opener.toEnd)
    requires offset < |PlainData(box, n, opener.stored[HEADER_SIZE..])|
    requires !opener.reliable ==> limit != 0 && CutsRejected(box, n, opener.stored[HEADER_SIZE..])
    requires var u := CalculateUnderlying(offset, limit); opener.Delivers(u.offset, u.limit, c, end)
    ensures var u := CalculateUnderlying(offset, limit);
            var s := Blocks(box, Advance(n, u.blocks), c, end);
            && (s.data != [] || end == EOF ==> u.discard + OVERHEAD < Min(|c|, BLOCK_SIZE))
            && (u.discard <= |s.data| ==>
                  Serves(Limited(Dropped(s, u.discard), limit),
                         PlainFrom(box, n, opener.stored[HEADER_SIZE..], offset, limit).(faults := !opener.reliable)))
  {
    SeekOpens(box, n, opener, offset, limit);
    if end != EOF {
      SeekInside(box, n, opener.stored[HEADER_SIZE..], offset);
      ServedIsSlice(opener, offset, limit);
      SeekBroken(box, n, opener.stored[HEADER_SIZE..], offset, limit, c, end);
    }
  }

  /** Reading on from what the opener serves for a seek is reading the object's plaintext from the offset. */
  lemma SeekOpens(box: Box, n: Nonce, opener: RangeOpener, offset: nat, limit: int)
    requires |opener.stored| >= HEADER_SIZE && (limit >= 0 || opener.toEnd)
    requires offset < |PlainData(box, n, opener.stored[HEADER_SIZE..])|
    ensures var u := CalculateUnderlying(offset, limit);
            var c := opener.Served(u.offset, u.limit);
            && u.discard + OVERHEAD < Min(|c|, BLOCK_SIZE)
            && u.discard <= |PlainData(box, Advance(n, u.blocks), c)|
            && PlainFrom(box, Advance(n, u.blocks), c, u.discard, limit)
               == PlainFrom(box, n, opener.stored[HEADER_SIZE..], offset, limit)
  {
    SeekServes(box, n, opener.stored[HEADER_SIZE..], offset, limit);
    ServedIsSlice(opener, offset, limit);
  }

  /** Under a limit, a reader that breaks off on the way serves whoever is due the whole. */
  lemma LimitedServes(known: seq<Byte>, fault: Error, s: Stream, limit: int)
    requires fault.Fault? && known <= s.data && s.data != [] && limit != 0
    ensures Serves(Limited(Stream(known, fault, true, false), limit), Limited(s, limit).(faults := true))
  {
    if 0 <= limit <= |known| {
      assert known[..limit] == s.data[..limit];
    } else if 0 <= limit <= |s.data| {
      assert known == s.data[..limit][..|known|];
    }
  }

  /** A ciphertext that breaks off serves what the whole would, if no block authenticates when it is cut short. */
  lemma BrokenServes(box: Box, n: Nonce, tail: seq<Byte>, discard: nat, limit: int, c: seq<Byte>, end: Error)
    requires discard < |PlainData(box, n, tail)| && CutsRejected(box, n, tail) && end.Fault? && limit != 0
    requires c <= tail
    ensures var s := Blocks(box, n, c, end);
            && (s.data != [] ==> |c| >= Min(|tail|, BLOCK_SIZE))
            && (discard <= |s.data| ==>
                  Serves(Limited(Dropped(s, discard), limit), PlainFrom(box, n, tail, discard, limit).(faults := true)))
  {
    BrokenOff(box, n, c, tail);
    BrokenEnd(c, end);
    var known := KnownData(box, n, c);
    if discard <= |known| {
      assert known[discard..] <= PlainData(box, n, tail)[discard..];
      LimitedServes(known[discard..], end, Dropped(Blocks(box, n, tail, EOF), discard), limit);
    }
  }

  /** The same for a slice that a seek opens. */
  lemma SeekBroken(box: Box, n: Nonce, body: seq<Byte>, offset: nat, limit: int, c: seq<Byte>, end: Error)
    requires offset < |PlainData(box, n, body)| && CutsRejected(box, n, body) && end.Fault? && limit != 0
    requires offset / BLOCK_DATA_SIZE * BLOCK_SIZE <= |body| && c <= SeekSlice(body, offset, limit)
    ensures var u := CalculateUnderlying(offset, limit);
            var s := Blocks(box, Advance(n, u.blocks), c, end);
            && (s.data != [] ==> u.discard + OVERHEAD < Min(|c|, BLOCK_SIZE))
            && (u.discard <= |s.data| ==>
                  Serves(Limited(Dropped(s, u.discard), limit),
                         PlainFrom(box, n, body, offset, limit).(faults := true)))
  {
    hide Blocks, Limited, Dropped, Serves, CalculateUnderlying, SeekSlice, PlainData, CutsRejected;
    var u := CalculateUnderlying(offset, limit);
    SliceOfTail(body, offset, limit, c);
    SeekSkips(box, n, body, offset);
    CutsRejectedAfter(box, n, body, u.blocks);
    BrokenServes(box, Advance(n, u.blocks), body[u.blocks * BLOCK_SIZE..], u.discard, limit, c, end);
  }

  lemma SliceOfTail(body: seq<Byte>, offset: nat, limit: int, c: seq<Byte>)
    requires offset / BLOCK_DATA_SIZE * BLOCK_SIZE <= |body| && c <= SeekSlice(body, offset, limit)
    ensures var u := CalculateUnderlying(offset, limit);
            && u.blocks == offset / BLOCK_DATA_SIZE && u.discard == offset % BLOCK_DATA_SIZE
            && c <= body[u.blocks * BLOCK_SIZE..]
  {
  }

  /** The error of opening a stored object whose front is `c`, if any. */
  function HeaderError(c: seq<Byte>): Error {
    if |c| < HEADER_SIZE then TooShort
    else if c[..MAGIC_SIZE] != MAGIC then BadMagic
    else Nil
  }

  lemma HeaderOfFront(stored: seq<Byte>, c: seq<Byte>)
    requires c <= stored && |c| >= HEADER_SIZE
    ensures HeaderError(c) == HeaderError(stored) && HeaderNonce(c) == HeaderNonce(stored)
  {
    assert c[..MAGIC_SIZE] == stored[..MAGIC_SIZE];
  }

  /** What the opener serves when the offset is zero. */
  lemma FrontServed(opener: RangeOpener, limit: int)
    requires |opener.stored| >= HEADER_SIZE && (limit >= 0 || opener.toEnd)
    ensures var c := opener.Served(0, FrontAsked(limit));
            && c <= opener.stored && |c| >= HEADER_SIZE
            && c[HEADER_SIZE..] == SeekSlice(opener.stored[HEADER_SIZE..], 0, limit)
  {
    UnderlyingIsTight(0, limit);
  }

  lemma HeaderServed(opener: RangeOpener)
    requires |opener.stored| >= HEADER_SIZE
    ensures opener.Served(0, HEADER_SIZE) == opener.stored[..HEADER_SIZE]
  {
  }

  /** How much of an object to open for the first `limit` bytes of its plaintext: the header and whole blocks. */
  function FrontAsked(limit: int): int {
    if limit < 0 then -1 else HEADER_SIZE + CalculateUnderlying(0, limit).limit
  }

  /** Opening the front of an object under a limit is reading its plaintext from the start. */
  lemma FrontReads(box: Box, opener: RangeOpener, limit: int)
    requires HeaderError(opener.stored) == Nil && (limit >= 0 || opener.toEnd)
    requires 0 < |Decrypted(box, opener.stored)|
    ensures var c, n := opener.Served(0, FrontAsked(limit)), HeaderNonce(opener.stored);
            && |c| >= HEADER_SIZE
            && Limited(Blocks(box, n, c[HEADER_SIZE..], EOF), limit)
               == PlainFrom(box, n, opener.stored[HEADER_SIZE..], 0, limit)
  {
    FrontServed(opener, limit);
    var c, n := opener.Served(0, FrontAsked(limit)), HeaderNonce(opener.stored);
    SeekServes(box, n, opener.stored[HEADER_SIZE..], 0, limit);
    assert Advance(n, 0) == n;
    var blocks := Blocks(box, n, c[HEADER_SIZE..], EOF);
    assert Dropped(blocks, 0) == blocks;
  }

  /** An object without plaintext is its header, and what arrives of it delivers nothing. */
  lemma FrontOfEmpty(box: Box, opener: RangeOpener, limit: int, c: seq<Byte>, end: Error)
    requires WellFormed(opener.stored) && (limit >= 0 || opener.toEnd) && |Decrypted(box, opener.stored)| == 0
    requires opener.Delivers(0, FrontAsked(limit), c, end)
    ensures |opener.stored| == HEADER_SIZE && HeaderError(opener.stored) == Nil
    ensures end == EOF ==> c == opener.stored
    ensures |c| >= HEADER_SIZE ==>
      && c == opener.stored
      && Serves(Limited(Blocks(box, HeaderNonce(c), c[HEADER_SIZE..], end), limit),
                Stream([], EOF, !opener.reliable, false))
  {
    hide PlainData, FrontAsked, WellFormed, Decrypted, RangeOpener.Served, Blocks, Limited, Serves;
    EmptyIsHeader(box, opener.stored);
    FrontIsAll(opener, limit);
    if |c| >= HEADER_SIZE {
      assert c[HEADER_SIZE..] == [];
      NothingServes(box, HeaderNonce(c), end, limit, !opener.reliable);
    }
  }

  lemma FrontIsAll(opener: RangeOpener, limit: int)
    requires |opener.stored| == HEADER_SIZE && (limit >= 0 || opener.toEnd)
    ensures opener.Served(0, FrontAsked(limit)) == opener.stored
  {
    hide FrontAsked, SeekSlice, RangeOpener.Served;
    FrontServed(opener, limit);
  }

  lemma EmptyIsHeader(box: Box, stored: seq<Byte>)
    requires WellFormed(stored) && |Decrypted(box, stored)| == 0
    ensures |stored| == HEADER_SIZE && HeaderError(stored) == Nil
  {
    DecryptedLength(box, stored);
    SizeBijection(0, |stored|);
  }

  lemma NothingServes(box: Box, n: Nonce, end: Error, limit: int, faults: bool)
    requires end == EOF || (end.Fault? && faults)
    ensures Serves(Limited(Blocks(box, n, [], end), limit), Stream([], EOF, faults, false))
  {
  }

  lemma FrontBroken(box: Box, n: Nonce, body: seq<Byte>, limit: int, c: seq<Byte>, end: Error)
    requires 0 < |PlainData(box, n, body)| && CutsRejected(box, n, body) && end.Fault? && limit != 0
    requires c <= SeekSlice(body, 0, limit)
    ensures Serves(Limited(Blocks(box, n, c, end), limit), PlainFrom(box, n, body, 0, limit).(faults := true))
  {
    SeekBroken(box, n, body, 0, limit, c, end);
    assert Advance(n, 0) == n;
    var blocks := Blocks(box, n, c, end);
    assert Dropped(blocks, 0) == blocks;
  }

  /** What opens of the front of an object, whether it is read to its end or breaks off, serves its plaintext. */
  lemma FrontServes(box: Box, opener: RangeOpener, limit: int, c: seq<Byte>, end: Error)
    requires HeaderError(opener.stored) == Nil && (limit >= 0 || opener.toEnd)
    requires 0 < |Decrypted(box, opener.stored)|
    requires !opener.reliable ==>
               limit != 0 && CutsRejected(box, HeaderNonce(opener.stored), opener.stored[HEADER_SIZE..])
    requires opener.Delivers(0, FrontAsked(limit), c, end)
    ensures end == EOF ==> |c| >= HEADER_SIZE
    ensures |c| >= HEADER_SIZE ==>
      var n := HeaderNonce(opener.stored);
      && HeaderError(c) == Nil && HeaderNonce(c) == n
      && Serves(Limited(Blocks(box, n, c[HEADER_SIZE..], end), limit),
                PlainFrom(box, n, opener.stored[HEADER_SIZE..], 0, limit).(faults := !opener.reliable))
  {
    hide SeekSlice, CutsRejected, PlainData, PlainEnd;
    FrontReads(box, opener, limit);
    FrontServed(opener, limit);
    if |c| >= HEADER_SIZE {
      HeaderOfFront(opener.stored, c);
      if end != EOF {
        FrontBroken(box, HeaderNonce(opener.stored), opener.stored[HEADER_SIZE..], limit, c[HEADER_SIZE..], end);
      }
    }
  }
}
