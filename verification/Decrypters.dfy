/** The decrypting, seekable reader of internal/crypt/cipher.go. */
module Decrypters {
  import opened BlockSizes
  import opened ByteSources
  import opened Ciphers
  import opened Nonces
  import opened Numbers
  import opened RangeOpeners
  import opened SealedBlocks
  import opened SeekWindows
  import opened Streams

  class Decrypter {
    var rc: ByteStream
    const cipher: Cipher
    var nonce: Nonce
    var initialNonce: Nonce
    var buf: array?<Byte>
    var readBuf: array?<Byte>
    var bufIndex: nat
    var bufSize: nat
    var err: Error
    var limit: int
    var open: RangeOpener?
    /** What the blocks still in the source decrypt to, and what the caller can still get. */
    ghost var ahead: Stream
    ghost var pending: Stream

    ghost function Footprint(): set<object?>
      reads this, cipher
    {
      {this, rc, cipher, open, buf, readBuf} - {null} + cipher.all
    }

    ghost predicate HoldsBuffers()
      reads this, cipher
    {
      && buf != null && readBuf != null && buf != readBuf
      && buf.Length == readBuf.Length == BLOCK_SIZE
      && buf in cipher.all - cipher.free && readBuf in cipher.all - cipher.free
    }

    ghost predicate Sourced()
      reads this, rc
    {
      && rc.Valid() && (rc.rest.end == EOF || rc.rest.end.Fault?)
      && ahead == Blocks(cipher.box, nonce, rc.rest.data, rc.rest.end)
    }

    /** The error is the one that was to come, or a fault of the source. */
    ghost predicate Ends(e: Error)
      reads this
    {
      e != Nil && ((pending.data == [] && e == pending.end) || (pending.faults && e.Fault?))
    }

    /**
     The life cycle: the two buffers are held exactly while no error is set, the indices stay inside a
     block, and what is pending is what is held, under the limit.
     */
    ghost predicate Buffered()
      reads this, cipher, buf
    {
      && (err == Nil ==>
            && HoldsBuffers()
            && bufIndex <= bufSize <= BLOCK_DATA_SIZE
            && pending == Limited(WithFront(buf[bufIndex..bufSize], ahead), limit))
      && (err != Nil ==> buf == null && readBuf == null && Ends(err))
    }

    ghost predicate Valid()
      reads this, cipher, rc, buf
    {
      cipher.Valid() && Sourced() && Buffered()
    }

    /** A decrypter that has its buffers but has not read the header. */
    constructor (rc: ByteStream, cipher: Cipher)
      requires cipher.Valid() && rc.Valid() && (rc.rest.end == EOF || rc.rest.end.Fault?)
      modifies cipher
      ensures Valid() && err == Nil && this.rc == rc && this.cipher == cipher && open == null
      ensures limit == -1 && bufIndex == bufSize == 0
      ensures old(cipher.all) <= cipher.all && fresh(cipher.all - old(cipher.all))
    {
      this.rc, this.cipher := rc, cipher;
      var zeros: Nonce := seq(NONCE_SIZE, _ => 0);
      nonce, initialNonce := zeros, zeros;
      buf, readBuf, bufIndex, bufSize, err, limit, open := null, null, 0, 0, Nil, -1, null;
      ahead := Blocks(cipher.box, zeros, rc.rest.data, rc.rest.end);
      pending := ahead;
      new;
      var b := cipher.GetBlock();
      var rb := cipher.GetBlock();
      buf, readBuf := b, rb;
      assert WithFront(buf[bufIndex..bufSize], ahead) == ahead;
    }

    /** Reads and opens the next block. */
    method FillBuffer() returns (e: Error)
      requires Sourced() && HoldsBuffers()
      modifies this`nonce, this`bufIndex, this`bufSize, this`ahead, rc, buf, readBuf
      ensures Sourced()
      ensures e == Nil ==>
        && bufIndex == 0 < bufSize == Min(|old(rc.rest.data)|, BLOCK_SIZE) - OVERHEAD
        && old(ahead) == WithFront(buf[bufIndex..bufSize], ahead)
      ensures e != Nil ==>
        (old(ahead).data == [] && e == old(ahead).end) || (old(ahead).faults && e.Fault?)
      ensures e != Nil ==>
        if old(rc.rest.end).Fault? then e.Fault? else |old(rc.rest.data)| <= OVERHEAD && e == old(ahead).end
    {
      ghost var c, end := rc.rest.data, rc.rest.end;
      var n, readErr := ReadFill(rc, readBuf, BLOCK_SIZE);
      if n <= OVERHEAD {
        NoBlock(cipher.box, nonce, c, end);
        e := if n == 0 || readErr != EOF then readErr else BadHeader;
      } else {
        assert c[..n] == readBuf[..n] && n == Min(|c|, BLOCK_SIZE);
        ghost var first := nonce;
        e := OpenInto(n, readErr);
        if e == Nil {
          assert n < BLOCK_SIZE ==> c[..n] == c;
          NextBlock(cipher.box, first, c, end);
        }
      }
      ahead := Blocks(cipher.box, nonce, rc.rest.data, rc.rest.end);
    }

    /** Opens the block in `readBuf[..n]`; one that does not authenticate becomes zeros, unless the read broke off. */
    method OpenInto(n: nat, readErr: Error) returns (e: Error)
      requires HoldsBuffers() && OVERHEAD < n <= BLOCK_SIZE
      modifies this`nonce, this`bufIndex, this`bufSize, buf
      ensures e == Nil ==>
        && bufIndex == 0 && bufSize == n - OVERHEAD && nonce == Advance(old(nonce), 1)
        && buf[bufIndex..bufSize] == OpenBlock(cipher.box, old(nonce), readBuf[..n])
        && buf[bufIndex..bufSize] == match cipher.box.open(readBuf[..n], old(nonce))
                                     case Opened(message) => message
                                     case Rejected => seq(n - OVERHEAD, _ => 0)
      ensures e == if cipher.box.open(old(readBuf[..n]), old(nonce)).Opened? || readErr == EOF then Nil else readErr
    {
      hide Value, Pow256;
      match cipher.box.open(readBuf[..n], nonce) {
        case Opened(message) =>
          Fill(buf, message);
        case Rejected =>
          if readErr != Nil && readErr != EOF {
            return readErr;
          }
          Fill(buf, Zeros(n));
          assert buf[..n - OVERHEAD] == Zeros(n)[..n - OVERHEAD] == Zeros(n - OVERHEAD);
      }
      bufIndex, bufSize := 0, n - OVERHEAD;
      nonce := Increment(nonce);
      e := Nil;
    }

    /** Records the error, unless there is one already, and gives both buffers back. */
    method Finish(e: Error) returns (r: Error)
      requires cipher.Valid() && (if err == Nil then HoldsBuffers() && Ends(e) else Buffered())
      modifies this`err, this`buf, this`readBuf, cipher`free
      ensures cipher.Valid() && Buffered() && r == err == if old(err) != Nil then old(err) else e
      ensures cipher.free == if old(err) != Nil then old(cipher.free) else old(cipher.free) + {old(buf), old(readBuf)}
    {
      if err != Nil {
        return err;
      }
      err := e;
      cipher.PutBlock(buf);
      buf := null;
      cipher.PutBlock(readBuf);
      readBuf := null;
      r := e;
    }

    /** Ends the reader with `e`, unless it has ended already. */
    method Fail(e: Error) returns (r: Error)
      requires cipher.Valid() && e != Nil && (if err == Nil then HoldsBuffers() else Buffered())
      modifies this`err, this`buf, this`readBuf, this`pending, cipher`free
      ensures cipher.Valid() && Buffered() && r == err == if old(err) != Nil then old(err) else e
      ensures old(err) == Nil ==> pending == Stream([], e, false, false)
      ensures cipher.free == if old(err) != Nil then old(cipher.free) else old(cipher.free) + {old(buf), old(readBuf)}
    {
      if err == Nil {
        pending := Stream([], e, false, false);
      }
      r := Finish(e);
    }

    method Read(p: array<Byte>) returns (n: nat, e: Error)
      requires Valid() && p !in Footprint()
      modifies this`nonce, this`bufIndex, this`bufSize, this`limit, this`err, this`buf, this`readBuf
      modifies this`ahead, this`pending, rc, cipher`free, buf, readBuf, p
      ensures Valid() && e == err && (old(err) != Nil ==> err == old(err))
      ensures n <= p.Length && StreamRead(old(pending), p.Length, p[..n], e, pending)
      ensures e != Nil && e != EOF ==> n == 0
      ensures cipher.free
              == if old(err) == Nil && err != Nil then old(cipher.free + {buf, readBuf}) else old(cipher.free)
    {
      hide Limited, Blocks, WithFront;
      if err == Nil && bufIndex >= bufSize {
        NextBuffer();
      }
      if err != Nil {
        n, e := 0, err;
      } else {
        n, e := Deliver(p);
      }
    }

    /** Fills the empty buffer, or finishes with the error that prevents it. */
    method NextBuffer()
      requires Valid() && err == Nil && bufIndex >= bufSize
      modifies this`nonce, this`bufIndex, this`bufSize, this`ahead, this`err, this`buf, this`readBuf
      modifies rc, cipher`free, buf, readBuf
      ensures Valid() && (err == Nil ==> bufIndex < bufSize && buf == old(buf) && readBuf == old(readBuf))
      ensures cipher.free
              == if old(err) == Nil && err != Nil then old(cipher.free + {buf, readBuf}) else old(cipher.free)
    {
      assert WithFront(buf[bufIndex..bufSize], ahead) == ahead;
      var e := FillBuffer();
      if e != Nil {
        var _ := Finish(e);
      }
    }

    /** Copies what fits, and no more than the limit, out of the buffer. */
    method Deliver(p: array<Byte>) returns (n: nat, e: Error)
      requires cipher.Valid() && Buffered() && err == Nil && bufIndex < bufSize && p != buf
      modifies this`bufIndex, this`limit, this`err, this`pending, this`buf, this`readBuf, cipher`free, p
      ensures cipher.Valid() && Buffered() && err == e
      ensures n <= p.Length && StreamRead(old(pending), p.Length, p[..n], e, pending)
      ensures e == Nil || e == EOF
      ensures cipher.free
              == if old(err) == Nil && err != Nil then old(cipher.free + {buf, readBuf}) else old(cipher.free)
    {
      hide Limited, Blocks;
      var toCopy := bufSize - bufIndex;
      if 0 <= limit < toCopy {
        toCopy := limit;
      }
      ghost var held := WithFront(buf[bufIndex..bufSize], ahead);
      n := CopyOut(p, toCopy);
      ghost var out := p[..n];
      FrontDropped(out, buf[bufIndex..bufSize], ahead);
      e := Spend(n, held);
      assert p[..n] == out;
    }

    method CopyOut(p: array<Byte>, toCopy: nat) returns (n: nat)
      requires buf != null && p != buf && bufIndex + toCopy <= bufSize <= buf.Length
      modifies this`bufIndex, p
      ensures n == Min(p.Length, toCopy) && bufIndex == old(bufIndex) + n
      ensures old(buf[bufIndex..bufSize]) == p[..n] + buf[bufIndex..bufSize]
    {
      n := Copy(p, buf, bufIndex, bufIndex + toCopy);
      bufIndex := bufIndex + n;
    }

    /** Takes `n` bytes of what was `held` off the limit, and finishes when it is used up. */
    method Spend(n: nat, ghost held: Stream) returns (e: Error)
      requires cipher.Valid() && err == Nil && HoldsBuffers() && bufIndex <= bufSize <= BLOCK_DATA_SIZE
      requires n <= |held.data| && held.data != [] && (limit < 0 || n <= limit)
      requires Dropped(held, n) == WithFront(buf[bufIndex..bufSize], ahead) && pending == Limited(held, limit)
      modifies this`limit, this`err, this`pending, this`buf, this`readBuf, cipher`free
      ensures cipher.Valid() && Buffered() && err == e
      ensures n <= |old(pending).data| && pending == Dropped(old(pending), n)
      ensures old(pending).data[..n] == held.data[..n]
      ensures e == if old(limit) >= 0 && old(limit) == n then EOF else Nil
      ensures e == Nil && old(pending).eager && old(pending).data != [] ==> pending.data != []
      ensures cipher.free
              == if old(err) == Nil && err != Nil then old(cipher.free + {buf, readBuf}) else old(cipher.free)
    {
      LimitedStep(held, limit, n);
      e := Nil;
      pending := Dropped(pending, n);
      if limit >= 0 {
        limit := limit - n;
        if limit == 0 {
          e := Finish(EOF);
        }
      }
    }

    /**
     The opener serves an object of which `offset` is a plaintext position, under the limit `lim`. If it may break off,
     no block of the object authenticates when it is cut short.
     */
    ghost predicate CanSeek(offset: nat, lim: int)
      reads this
    {
      && open != null && (lim >= 0 || open.toEnd) && |open.stored| >= HEADER_SIZE
      && (!open.reliable ==> lim != 0 && CutsRejected(cipher.box, initialNonce, open.stored[HEADER_SIZE..]))
      && offset < |PlainData(cipher.box, initialNonce, open.stored[HEADER_SIZE..])|
    }

    /** What is pending is the object's plaintext from `offset` on, up to `lim` bytes of it, if no fetch failed. */
    ghost predicate AtOffset(offset: nat, lim: int)
      requires CanSeek(offset, lim)
      reads this
    {
      if err == Nil then
        var plain := PlainFrom(cipher.box, initialNonce, open.stored[HEADER_SIZE..], offset, lim);
        Serves(pending, plain.(faults := !open.reliable))
      else
        err.Fault? && !open.reliable
    }

    ghost predicate BeyondEnd(offset: nat, lim: int)
      reads this
    {
      open != null && PastEnd(cipher.box, initialNonce, open, offset, lim)
    }

    /** Nothing is pending, and the seek says what it makes of the offset, if no fetch failed. */
    ghost predicate AtEnd(offset: nat)
      requires open != null && |open.stored| >= HEADER_SIZE
      reads this
    {
      || (err == SeekResult(offset, |PlainData(cipher.box, initialNonce, open.stored[HEADER_SIZE..])|)
          && Serves(pending, Stream([], if err == Nil then EOF else err, !open.reliable, false)))
      || (err.Fault? && !open.reliable)
    }

    /** Repositions the reader at plaintext byte `offset`, with a new limit. Reading to the end may have come before. */
    method RangeSeek(offset: nat, fromStart: bool, lim: int) returns (e: Error)
      requires Valid() && offset < 0x8000_0000_0000_0000
      modifies Footprint()
      ensures Valid() && (rc == old(rc) || fresh(rc))
      ensures old(cipher.all) <= cipher.all && fresh(cipher.all - old(cipher.all))
      ensures open == old(open) && initialNonce == old(initialNonce) && e == err
      ensures old(err) != Nil && old(err) != EOF ==> e == old(err)
      ensures open == null || !fromStart ==>
                e == if old(err) != Nil then old(err) else if open == null then NoSeeker else BadWhence
      ensures fromStart && (old(err) == Nil || old(err) == EOF) && CanSeek(offset, lim) ==> AtOffset(offset, lim)
      ensures fromStart && (old(err) == Nil || old(err) == EOF) && BeyondEnd(offset, lim) ==> AtEnd(offset)
      ensures open != null && lim >= 0 ==> open.negative == old(open.negative)
    {
      hide Limited, Blocks, Serves, CutsRejected, PlainData, PlainFrom, PastEnd;
      if open == null {
        e := Fail(NoSeeker);
      } else if !fromStart {
        e := Fail(BadWhence);
      } else if err != Nil && err != EOF {
        e := err;
      } else {
        UnFinish();
        e := Reopen(offset, lim);
      }
    }

    /** Takes new buffers if the end was reached. */
    method UnFinish()
      requires cipher.Valid() && Buffered() && (err == Nil || err == EOF)
      modifies this`err, this`buf, this`readBuf, this`bufIndex, this`bufSize, cipher
      ensures cipher.Valid() && err == Nil && HoldsBuffers()
      ensures old(cipher.all) <= cipher.all && fresh(cipher.all - old(cipher.all))
    {
      if err == Nil {
        return;
      }
      err := Nil;
      var b := cipher.GetBlock();
      var rb := cipher.GetBlock();
      buf, readBuf := b, rb;
      bufIndex, bufSize := 0, 0;
    }

    /** The part of `RangeSeek` that follows its checks. */
    method Reopen(offset: nat, lim: int) returns (e: Error)
      requires cipher.Valid() && Sourced() && err == Nil && HoldsBuffers() && open != null
      requires offset < 0x8000_0000_0000_0000
      modifies this`rc, this`nonce, this`bufIndex, this`bufSize, this`limit, this`err, this`buf, this`readBuf
      modifies this`ahead, this`pending, open, cipher`free, buf, readBuf
      ensures Valid() && (rc == old(rc) || fresh(rc)) && e == err
      ensures CanSeek(offset, lim) ==> AtOffset(offset, lim)
      ensures BeyondEnd(offset, lim) ==> AtEnd(offset)
      ensures lim >= 0 ==> open.negative == old(open.negative)
    {
      hide Limited, Blocks, Serves, CutsRejected, PlainData, PlainFrom, SeekResult, WellFormed, PastEnd, Dropped;
      var u := CalculateUnderlying(offset, lim);
      UnderlyingIsTight(offset, lim);
      e := OpenAt(u);
      if e != Nil {
        e := Fail(e);
      } else {
        e := LoadAt(offset, lim);
      }
    }

    /** Loads the block of plaintext byte `offset` from what was opened for it. */
    method LoadAt(offset: nat, lim: int) returns (e: Error)
      requires cipher.Valid() && Sourced() && err == Nil && HoldsBuffers() && open != null
      requires var u := CalculateUnderlying(offset, lim);
               nonce == Advance(initialNonce, u.blocks) && open.Delivers(u.offset, u.limit, rc.rest.data, rc.rest.end)
      modifies this`nonce, this`bufIndex, this`bufSize, this`ahead, this`limit, this`pending, this`err
      modifies this`buf, this`readBuf
      modifies rc, cipher`free, buf, readBuf
      ensures Valid() && e == err
      ensures CanSeek(offset, lim) ==> AtOffset(offset, lim)
      ensures BeyondEnd(offset, lim) ==> AtEnd(offset)
    {
      hide Limited, Blocks, Serves, CutsRejected, PlainData, PlainFrom, SeekResult, WellFormed, PastEnd, Dropped;
      if CanSeek(offset, lim) {
        OpenedServes(cipher.box, initialNonce, open, offset, lim, rc.rest.data, rc.rest.end);
      }
      if BeyondEnd(offset, lim) {
        BeyondLoads(cipher.box, initialNonce, open, offset, lim, rc.rest.data, rc.rest.end);
      }
      e := LoadBlock(CalculateUnderlying(offset, lim).discard, lim);
      ServesEnd(e, !open.reliable);
    }

    /** Opens the ciphertext at a block boundary and sets the nonce of that block. */
    method OpenAt(u: Underlying) returns (e: Error)
      requires Sourced() && open != null && u.blocks < 0x1_0000_0000_0000_0000
      modifies this`rc, this`nonce, this`ahead, open
      ensures Sourced() && nonce == Advance(initialNonce, u.blocks)
      ensures if e == Nil then fresh(rc) else rc == old(rc)
      ensures e == Nil ==> open.Delivers(u.offset, u.limit, rc.rest.data, rc.rest.end)
      ensures e != Nil ==> e.Fault? && !open.reliable
      ensures u.limit >= 0 ==> open.negative == old(open.negative)
    {
      hide Value, Pow256;
      nonce := Add(initialNonce, u.blocks);
      var newRc;
      newRc, e := open.Open(u.offset, u.limit);
      if e == Nil {
        rc := newRc;
      }
      ahead := Blocks(cipher.box, nonce, rc.rest.data, rc.rest.end);
    }

    /** The part of `RangeSeek` that loads the first block and discards the bytes before the position. */
    method LoadBlock(discard: nat, lim: int) returns (e: Error)
      requires cipher.Valid() && Sourced() && err == Nil && HoldsBuffers()
      modifies this`nonce, this`bufIndex, this`bufSize, this`ahead, this`limit, this`pending, this`err
      modifies this`buf, this`readBuf
      modifies rc, cipher`free, buf, readBuf
      ensures Valid() && e == err
      ensures e == Nil ==> discard <= |old(ahead).data| && pending == Limited(Dropped(old(ahead), discard), lim)
      ensures (old(rc.rest.end) == EOF || old(ahead).data != [] ==>
                 discard + OVERHEAD < Min(|old(rc.rest.data)|, BLOCK_SIZE))
              ==> e == Nil || (e.Fault? && old(rc.rest.end).Fault?)
      ensures old(rc.rest.end) == EOF ==>
        e == if |old(rc.rest.data)| <= OVERHEAD then old(ahead).end
             else if discard + OVERHEAD > Min(|old(rc.rest.data)|, BLOCK_SIZE) then BadSeek
             else Nil
      ensures old(rc.rest.end).Fault? ==>
        || e.Fault?
        || (old(ahead).data != []
            && e == if discard + OVERHEAD > Min(|old(rc.rest.data)|, BLOCK_SIZE) then BadSeek else Nil)
      ensures e != Nil ==> pending == Stream([], e, false, false)
    {
      hide Limited, Blocks;
      ghost var was := ahead;
      e := FillBuffer();
      if e != Nil {
        e := Fail(e);
      } else if discard > bufSize {
        e := Fail(BadSeek);
      } else {
        bufIndex := discard;
        limit := lim;
        assert Dropped(was, discard) == WithFront(buf[bufIndex..bufSize], ahead);
        pending := Limited(WithFront(buf[bufIndex..bufSize], ahead), limit);
      }
    }

    method Seek(offset: nat, fromStart: bool) returns (e: Error)
      requires Valid() && offset < 0x8000_0000_0000_0000
      modifies Footprint()
      ensures Valid() && (rc == old(rc) || fresh(rc))
      ensures old(cipher.all) <= cipher.all && fresh(cipher.all - old(cipher.all))
      ensures open == old(open) && initialNonce == old(initialNonce) && e == err
      ensures old(err) != Nil && old(err) != EOF ==> e == old(err)
      ensures fromStart && (old(err) == Nil || old(err) == EOF) && CanSeek(offset, -1) ==> AtOffset(offset, -1)
      ensures fromStart && (old(err) == Nil || old(err) == EOF) && BeyondEnd(offset, -1) ==> AtEnd(offset)
    {
      e := RangeSeek(offset, fromStart, -1);
    }

    method Close() returns (e: Error)
      requires cipher.Valid() && Buffered()
      modifies this`err, this`buf, this`readBuf, this`pending, cipher`free
      ensures cipher.Valid() && Buffered() && err == FileClosed && pending == Stream([], FileClosed, false, false)
      ensures cipher.free == if old(err) != Nil then old(cipher.free) else old(cipher.free) + {old(buf), old(readBuf)}
      ensures e == if old(err) == FileClosed then FileClosed else Nil
    {
      if err == FileClosed {
        pending := Stream([], FileClosed, false, false);
        return err;
      }
      if err == Nil {
        var _ := Fail(EOF);
      }
      err := FileClosed;
      pending := Stream([], FileClosed, false, false);
      e := Nil;
    }
  }
}
