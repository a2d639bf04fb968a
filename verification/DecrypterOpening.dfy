/** Making a decrypter: `newDecrypter` and `newDecrypterSeek` of internal/crypt/cipher.go. */
module DecrypterOpening {
  import opened BlockSizes
  import opened ByteSources
  import opened Ciphers
  import opened Decrypters
  import opened Nonces
  import opened RangeOpeners
  import opened SealedBlocks
  import opened SeekWindows
  import opened Streams

  /** The decrypter is new, ready to read, and uses this cipher. */
  ghost predicate Ready(fh: Decrypter, cipher: Cipher)
    reads fh, fh.cipher, fh.rc, fh.buf
  {
    fh.Valid() && fh.err == Nil && fh.cipher == cipher
  }

  /** Reads the header and makes a decrypter for the blocks that follow it. */
  method NewDecrypter(cipher: Cipher, rc: ByteStream) returns (fh: Decrypter?, e: Error)
    requires cipher.Valid() && rc.Valid() && (rc.rest.end == EOF || rc.rest.end.Fault?)
    modifies cipher, cipher.all, rc
    ensures cipher.Valid() && old(cipher.all) <= cipher.all && fresh(cipher.all - old(cipher.all))
    ensures fh == null <==> e != Nil
    ensures (e == HeaderError(old(rc.rest.data)) && (e == TooShort ==> old(rc.rest.end) == EOF))
            || (old(rc.rest.end).Fault? && e.Fault?)
    ensures old(rc.rest.end) == EOF ==>
      e == if |old(rc.rest.data)| < HEADER_SIZE then TooShort
           else if old(rc.rest.data)[..MAGIC_SIZE] != MAGIC then BadMagic
           else Nil
    ensures fh != null ==>
      && fresh(fh) && Ready(fh, cipher) && fh.rc == rc && fh.open == null
      && fh.bufIndex == fh.bufSize && fh.limit == -1
      && HeaderError(old(rc.rest.data)) == Nil && fh.initialNonce == HeaderNonce(old(rc.rest.data))
      && fh.ahead == fh.pending
         == Blocks(cipher.box, fh.initialNonce, old(rc.rest.data)[HEADER_SIZE..], old(rc.rest.end))
  {
    hide Limited, Blocks, PlainData;
    fh := new Decrypter(rc, cipher);
    e := ReadHeader(fh);
    fh := if e == Nil then fh else null;
  }

  method ReadHeader(fh: Decrypter) returns (e: Error)
    requires fh.Valid() && fh.err == Nil && fh.bufIndex == fh.bufSize == 0 && fh.limit == -1
    modifies fh`nonce, fh`initialNonce, fh`ahead, fh`pending, fh`err, fh`buf, fh`readBuf
    modifies fh.rc, fh.readBuf, fh.cipher`free
    ensures fh.cipher.Valid()
    ensures (e == HeaderError(old(fh.rc.rest.data)) && (e == TooShort ==> old(fh.rc.rest.end) == EOF))
            || (old(fh.rc.rest.end).Fault? && e.Fault?)
    ensures e == Nil ==>
      && fh.Valid() && fh.err == Nil
      && HeaderError(old(fh.rc.rest.data)) == Nil && fh.initialNonce == HeaderNonce(old(fh.rc.rest.data))
      && fh.ahead == fh.pending
         == Blocks(fh.cipher.box, fh.initialNonce, old(fh.rc.rest.data)[HEADER_SIZE..], old(fh.rc.rest.end))
  {
    ghost var c := fh.rc.rest.data;
    var n, readErr := ReadFill(fh.rc, fh.readBuf, HEADER_SIZE);
    var header := fh.readBuf[..n];
    e := if n < HEADER_SIZE && readErr == EOF then TooShort
         else if readErr != EOF && readErr != Nil then readErr
         else if header[..MAGIC_SIZE] != MAGIC then BadMagic
         else Nil;
    if e != Nil {
      var _ := FinishAndClose(fh, e);
    } else {
      assert header == c[..HEADER_SIZE] && header[..MAGIC_SIZE] == c[..MAGIC_SIZE];
      SetNonce(fh, header[MAGIC_SIZE..]);
    }
  }

  method SetNonce(fh: Decrypter, n: Nonce)
    requires fh.cipher.Valid() && fh.rc.Valid() && (fh.rc.rest.end == EOF || fh.rc.rest.end.Fault?)
    requires fh.err == Nil && fh.HoldsBuffers() && fh.bufIndex == fh.bufSize == 0 && fh.limit == -1
    modifies fh`nonce, fh`initialNonce, fh`ahead, fh`pending
    ensures fh.Valid() && fh.initialNonce == n
    ensures fh.ahead == fh.pending == Blocks(fh.cipher.box, n, fh.rc.rest.data, fh.rc.rest.end)
  {
    fh.nonce, fh.initialNonce := n, n;
    fh.ahead := Blocks(fh.cipher.box, n, fh.rc.rest.data, fh.rc.rest.end);
    fh.pending := fh.ahead;
    assert WithFront(fh.buf[fh.bufIndex..fh.bufSize], fh.ahead) == fh.ahead;
  }

  method FinishAndClose(fh: Decrypter, e: Error) returns (r: Error)
    requires fh.cipher.Valid() && fh.rc.Valid() && fh.err == Nil && fh.HoldsBuffers() && e != Nil
    modifies fh`err, fh`buf, fh`readBuf, fh`pending, fh.cipher`free
    ensures fh.cipher.Valid() && fh.Buffered() && fh.err == FileClosed && r == e
    ensures fh.cipher.free == old(fh.cipher.free) + {old(fh.buf), old(fh.readBuf)}
  {
    var _ := fh.Fail(e);
    var _ := fh.Close();
    r := e;
  }

  /**
   The opener serves a stored object, and `offset` is a position of its plaintext. If it may break off, no block of
   the object authenticates when it is cut short.
   */
  ghost predicate Reachable(box: Box, open: RangeOpener, offset: nat, limit: int) {
    && (limit >= 0 || open.toEnd) && HeaderError(open.stored) == Nil
    && (!open.reliable ==> limit != 0 && CutsRejected(box, HeaderNonce(open.stored), open.stored[HEADER_SIZE..]))
    && offset < |Decrypted(box, open.stored)|
  }

  /** The object's plaintext from `offset` on, at most `limit` bytes of it; it may break off if fetches may fail. */
  ghost function Due(box: Box, open: RangeOpener, offset: nat, limit: int): Stream
    requires Reachable(box, open, offset, limit)
  {
    PlainFrom(box, HeaderNonce(open.stored), open.stored[HEADER_SIZE..], offset, limit).(faults := !open.reliable)
  }

  /** The opener serves a well-formed object, and `offset` is its end or lies past it. */
  ghost predicate Beyond(box: Box, open: RangeOpener, offset: nat, limit: int) {
    WellFormed(open.stored) && PastEnd(box, HeaderNonce(open.stored), open, offset, limit)
  }

  /** Makes a decrypter positioned at plaintext byte `offset` that delivers at most `limit` bytes (negative: all). */
  method NewDecrypterSeek(cipher: Cipher, open: RangeOpener, offset: nat, limit: int) returns (fh: Decrypter?, e: Error)
    requires cipher.Valid() && offset < 0x8000_0000_0000_0000
    modifies cipher, cipher.all, open
    ensures cipher.Valid() && old(cipher.all) <= cipher.all && fresh(cipher.all - old(cipher.all))
    ensures fh == null <==> e != Nil
    ensures fh != null ==> fresh(fh) && Ready(fh, cipher) && fresh(fh.rc) && fh.open == open
    ensures Reachable(cipher.box, open, offset, limit) ==>
      if fh != null then
        fh.initialNonce == HeaderNonce(open.stored) && Serves(fh.pending, Due(cipher.box, open, offset, limit))
      else
        e.Fault? && !open.reliable
    ensures Beyond(cipher.box, open, offset, limit) ==>
      var result := if offset == 0 then Nil else SeekResult(offset, |Decrypted(cipher.box, open.stored)|);
      && (e == result || (e.Fault? && !open.reliable))
      && (fh != null ==> fh.initialNonce == HeaderNonce(open.stored)
                         && Serves(fh.pending, Stream([], EOF, !open.reliable, false)))
    ensures limit >= 0 ==> open.negative == old(open.negative)
  {
    hide Limited, Serves, Blocks, CutsRejected, PlainFrom, PlainData;
    if offset == 0 {
      fh, e := OpenFront(cipher, open, limit);
    } else {
      fh, e := OpenHeader(cipher, open);
      if e == Nil {
        e := fh.RangeSeek(offset, true, limit);
        if e != Nil {
          var _ := fh.Close();
          fh := null;
        }
      }
    }
  }

  /** The case of a zero offset: the header and the blocks the limit needs are opened at once. */
  method OpenFront(cipher: Cipher, open: RangeOpener, limit: int) returns (fh: Decrypter?, e: Error)
    requires cipher.Valid()
    modifies cipher, cipher.all, open
    ensures cipher.Valid() && old(cipher.all) <= cipher.all && fresh(cipher.all - old(cipher.all))
    ensures fh == null <==> e != Nil
    ensures fh != null ==> fresh(fh) && Ready(fh, cipher) && fresh(fh.rc) && fh.open == open
    ensures Reachable(cipher.box, open, 0, limit) ==>
      if fh != null then
        fh.initialNonce == HeaderNonce(open.stored) && Serves(fh.pending, Due(cipher.box, open, 0, limit))
      else
        e.Fault? && !open.reliable
    ensures Beyond(cipher.box, open, 0, limit) ==>
      if fh != null then
        fh.initialNonce == HeaderNonce(open.stored) && Serves(fh.pending, Stream([], EOF, !open.reliable, false))
      else
        e.Fault? && !open.reliable
    ensures limit >= 0 ==> open.negative == old(open.negative)
  {
    UnderlyingIsTight(0, limit);
    ghost var c, end;
    fh, e, c, end := OpenPrefix(cipher, open, FrontAsked(limit), limit);
    if Reachable(cipher.box, open, 0, limit) && open.Delivers(0, FrontAsked(limit), c, end) {
      FrontServes(cipher.box, open, limit, c, end);
    }
    if Beyond(cipher.box, open, 0, limit) && open.Delivers(0, FrontAsked(limit), c, end) {
      FrontOfEmpty(cipher.box, open, limit, c, end);
    }
  }

  /** The case of a positive offset: only the header is opened at first. */
  method OpenHeader(cipher: Cipher, open: RangeOpener) returns (fh: Decrypter?, e: Error)
    requires cipher.Valid()
    modifies cipher, cipher.all, open
    ensures cipher.Valid() && old(cipher.all) <= cipher.all && fresh(cipher.all - old(cipher.all))
    ensures fh == null <==> e != Nil
    ensures fh != null ==> fresh(fh) && Ready(fh, cipher) && fresh(fh.rc) && fh.open == open
    ensures HeaderError(open.stored) == Nil ==>
      if fh != null then fh.initialNonce == HeaderNonce(open.stored) else e.Fault? && !open.reliable
    ensures open.negative == old(open.negative)
  {
    ghost var c, end;
    fh, e, c, end := OpenPrefix(cipher, open, HEADER_SIZE, -1);
    if HeaderError(open.stored) == Nil && open.Delivers(0, HEADER_SIZE, c, end) {
      HeaderServed(open);
      if |c| >= HEADER_SIZE {
        HeaderOfFront(open.stored, c);
      }
    }
  }

  /**
   Opens the first `asked` bytes of the object, of which `c` arrive, and makes a decrypter with that limit on them.
   */
  method OpenPrefix(cipher: Cipher, open: RangeOpener, asked: int, limit: int)
    returns (fh: Decrypter?, e: Error, ghost c: seq<Byte>, ghost end: Error)
    requires cipher.Valid()
    modifies cipher, cipher.all, open
    ensures cipher.Valid() && old(cipher.all) <= cipher.all && fresh(cipher.all - old(cipher.all))
    ensures fh == null <==> e != Nil
    ensures if open.Delivers(0, asked, c, end) then
              (e == HeaderError(c) && (e == TooShort ==> end == EOF)) || (end.Fault? && e.Fault?)
            else
              e.Fault? && !open.reliable
    ensures fh != null ==>
      && fresh(fh) && Ready(fh, cipher) && fresh(fh.rc) && fh.open == open
      && open.Delivers(0, asked, c, end) && HeaderError(c) == Nil && fh.initialNonce == HeaderNonce(c)
      && fh.pending == Limited(Blocks(cipher.box, HeaderNonce(c), c[HEADER_SIZE..], end), limit)
    ensures asked >= 0 ==> open.negative == old(open.negative)
  {
    var rc;
    rc, e := open.Open(0, asked);
    if e != Nil {
      fh, c, end := null, [], Nil;
    } else {
      c, end := rc.rest.data, rc.rest.end;
      fh, e := NewDecrypter(cipher, rc);
      if e == Nil {
        Attach(fh, open, limit);
      }
    }
  }

  method Attach(fh: Decrypter, open: RangeOpener, limit: int)
    requires Ready(fh, fh.cipher) && fh.bufIndex == fh.bufSize && fh.limit == -1 && fh.pending == fh.ahead
    modifies fh`open, fh`limit, fh`pending
    ensures Ready(fh, fh.cipher) && fh.open == open && fh.pending == Limited(old(fh.pending), limit)
  {
    fh.open := open;
    if limit >= 0 {
      fh.limit := limit;
      fh.pending := Limited(fh.ahead, limit);
    }
    assert WithFront(fh.buf[fh.bufIndex..fh.bufSize], fh.ahead) == fh.ahead;
  }
}
