/** Encrypting a stream and decrypting the result, through buffers of any sizes. */
module RoundTrip {
  import opened BlockSizes
  import opened ByteSources
  import opened Ciphers
  import opened DecrypterOpening
  import opened Decrypters
  import opened Encrypters
  import opened Nonces
  import opened RangeOpeners
  import opened SealedBlocks
  import opened Sequences
  import opened SeekWindows
  import opened Streams

  /** Drains an encrypter; the size of every buffer is left open. */
  method DrainEncrypter(fh: Encrypter) returns (out: seq<Byte>, e: Error)
    requires fh.Valid()
    modifies fh, fh.source, fh.cipher`free, fh.cipher.all
    ensures fh.Valid() && fh.cipher.all == old(fh.cipher.all)
    ensures out == old(fh.pending.data) && e == old(fh.pending.end)
  {
    out, e := [], Nil;
    while e == Nil
      invariant fh.Valid() && fh.cipher.all == old(fh.cipher.all)
      invariant out + fh.pending.data == old(fh.pending.data) && fh.pending.end == old(fh.pending.end)
      invariant !fh.pending.faults && (e != Nil ==> fh.pending.data == [] && e == fh.pending.end)
      decreases |fh.pending.data|, e == Nil
    {
      var size :| size > 0;
      var p := new Byte[size](_ => 0);
      var n;
      n, e := fh.Read(p);
      ConcatAssociates(out, p[..n], fh.pending.data);
      out := out + p[..n];
    }
  }

  /** One read into a buffer whose size is left open. */
  method ReadSome(fh: Decrypter) returns (out: seq<Byte>, e: Error)
    requires fh.Valid()
    modifies fh`nonce, fh`bufIndex, fh`bufSize, fh`limit, fh`err, fh`buf, fh`readBuf, fh`ahead, fh`pending
    modifies fh.rc, fh.cipher`free, fh.cipher.all
    ensures e == fh.err && (old(fh.err) != Nil ==> fh.err == old(fh.err))
    ensures fh.Valid() && exists size :: size > 0 && StreamRead(old(fh.pending), size, out, e, fh.pending)
  {
    var size: nat :| size > 0;
    var p := new Byte[size](_ => 0);
    var n;
    n, e := fh.Read(p);
    out := p[..n];
  }

  /** Drains a decrypter through buffers of any sizes. */
  method DrainDecrypter(fh: Decrypter) returns (out: seq<Byte>, e: Error)
    requires fh.Valid()
    modifies fh`nonce, fh`bufIndex, fh`bufSize, fh`limit, fh`err, fh`buf, fh`readBuf, fh`ahead, fh`pending
    modifies fh.rc, fh.cipher`free, fh.cipher.all
    ensures fh.Valid() && e == fh.err && out <= old(fh.pending.data)
    ensures fh.rc == old(fh.rc) && fh.cipher.all == old(fh.cipher.all)
    ensures e != Nil && (e == EOF ==> out == old(fh.pending.data) && old(fh.pending.end) == EOF)
    ensures !old(fh.pending.faults) ==> out == old(fh.pending.data) && e == old(fh.pending.end)
  {
    out, e := [], Nil;
    while e == Nil
      invariant fh.Valid() && (e != Nil ==> e == fh.err) && out + fh.pending.data == old(fh.pending.data)
      invariant fh.pending == old(fh.pending).(data := fh.pending.data)
      invariant e != Nil ==> (fh.pending.data == [] && e == fh.pending.end) || (fh.pending.faults && GaveUp(e))
      decreases |fh.pending.data|, e == Nil
    {
      var some;
      some, e := ReadSome(fh);
      ConcatAssociates(out, some, fh.pending.data);
      out := out + some;
    }
  }

  /**
   Whatever the plaintext, however short the reads of the source and of the stored stream, and whatever
   the buffer sizes on both sides, what comes out is what went in.
   */
  method EncryptThenDecrypt(source: ByteStream, cipher: Cipher, n: Nonce) returns (out: seq<Byte>, e: Error)
    requires source.Valid() && cipher.Valid()
    modifies source, cipher, cipher.all
    ensures old(source.rest.end) == EOF ==> out == old(source.rest.data) && e == EOF
  {
    ghost var plain := source.rest.data;
    var encrypter := new Encrypter(source, cipher, n);
    var stored, storeErr := DrainEncrypter(encrypter);
    if storeErr != EOF {
      return [], storeErr;
    }
    var eager := *;
    var rc := new ByteStream(stored, EOF, eager);
    DecryptEncrypted(cipher.box, n, plain);
    DecryptedLength(cipher.box, stored);
    var fh, openErr := NewDecrypter(cipher, rc);
    if openErr != Nil {
      return [], openErr;
    }
    out, e := DrainDecrypter(fh);
  }

  lemma DueIsSlice(box: Box, open: RangeOpener, offset: nat, limit: int)
    requires WellFormed(open.stored) && Reachable(box, open, offset, limit)
    ensures var plain := Decrypted(box, open.stored);
            Due(box, open, offset, limit).data
            == plain[offset..if 0 <= limit < |plain| - offset then offset + limit else |plain|]
    ensures Due(box, open, offset, limit).end == EOF && Due(box, open, offset, limit).faults == !open.reliable
  {
    DecryptedLength(box, open.stored);
  }

  /** Reading to the end what serves a slice gives the slice or, after a failure, a prefix of it. */
  method DrainDue(fh: Decrypter, ghost due: Stream) returns (out: seq<Byte>, e: Error)
    requires fh.Valid() && Serves(fh.pending, due) && due.end == EOF
    modifies fh`nonce, fh`bufIndex, fh`bufSize, fh`limit, fh`err, fh`buf, fh`readBuf, fh`ahead, fh`pending
    modifies fh.rc, fh.cipher`free, fh.cipher.all
    ensures fh.Valid() && e == fh.err && fh.rc == old(fh.rc) && fh.cipher.all == old(fh.cipher.all)
    ensures out <= due.data && (e == EOF ==> out == due.data) && (!due.faults ==> e == EOF)
  {
    hide Decrypter.Valid;
    out, e := DrainDecrypter(fh);
  }

  /** What is due to a seek: the object's plaintext from the offset on or, at or past its end, nothing. */
  ghost predicate Expected(box: Box, open: RangeOpener, offset: nat, limit: int, due: Stream) {
    && offset < 0x8000_0000_0000_0000 && WellFormed(open.stored) && due.end == EOF && due.faults == !open.reliable
    && if Reachable(box, open, offset, limit) then due == Due(box, open, offset, limit)
       else Beyond(box, open, offset, limit) && due == Stream([], EOF, !open.reliable, false)
  }

  /** How reading from there ends if no fetch fails. */
  function Ending(offset: nat, size: nat): Error {
    if offset < size || SeekResult(offset, size) == Nil then EOF else SeekResult(offset, size)
  }

  /** Opens a decrypter at one range, reads it to its end, moves it to another range and reads that. */
  method SeekTwice(cipher: Cipher, open: RangeOpener, offset: nat, limit: int, offset2: nat, limit2: int,
                   ghost due: Stream, ghost due2: Stream)
    returns (first: seq<Byte>, e: Error, second: seq<Byte>, e2: Error)
    requires cipher.Valid()
    requires Expected(cipher.box, open, offset, limit, due) && Expected(cipher.box, open, offset2, limit2, due2)
    modifies cipher, cipher.all, open
    ensures first <= due.data && (e == EOF ==> first == due.data)
    ensures second <= due2.data
    ensures offset < |Decrypted(cipher.box, open.stored)| && e2 == EOF ==> second == due2.data
    ensures open.reliable ==> e == if offset == 0 then EOF else Ending(offset, |Decrypted(cipher.box, open.stored)|)
    ensures open.reliable && offset < |Decrypted(cipher.box, open.stored)| ==>
      e2 == Ending(offset2, |Decrypted(cipher.box, open.stored)|)
  {
    hide Decrypter.Sourced, Decrypter.Ends, PlainFrom, Limited, Serves;
    var fh;
    fh, e := NewDecrypterSeek(cipher, open, offset, limit);
    if e != Nil {
      return [], e, [], e;
    }
    first, e := DrainDue(fh, due);
    e2 := fh.RangeSeek(offset2, true, limit2);
    if e2 != Nil {
      return first, e, [], e2;
    }
    second, e2 := DrainDue(fh, due2);
  }

  /**
   Random access is slicing: a decrypter opened at an offset with a limit and read to its end delivers that slice of
   the whole plaintext, and so it does when, at its end, it is moved to another offset. Where fetches may fail it
   delivers a prefix, and never reports the end short of it.
   */
  method ReadTwice(cipher: Cipher, open: RangeOpener, offset: nat, limit: int, offset2: nat, limit2: int)
    returns (first: seq<Byte>, e: Error, second: seq<Byte>, e2: Error)
    requires cipher.Valid() && WellFormed(open.stored)
    requires Reachable(cipher.box, open, offset, limit) && Reachable(cipher.box, open, offset2, limit2)
    requires offset < 0x8000_0000_0000_0000 && offset2 < 0x8000_0000_0000_0000
    modifies cipher, cipher.all, open
    ensures var plain := Decrypted(cipher.box, open.stored);
            var slice := plain[offset..if 0 <= limit < |plain| - offset then offset + limit else |plain|];
            first <= slice && (e == EOF ==> first == slice)
    ensures var plain := Decrypted(cipher.box, open.stored);
            var slice := plain[offset2..if 0 <= limit2 < |plain| - offset2 then offset2 + limit2 else |plain|];
            second <= slice && (e2 == EOF ==> second == slice)
    ensures open.reliable ==> e == EOF && e2 == EOF
  {
    DueIsSlice(cipher.box, open, offset, limit);
    DueIsSlice(cipher.box, open, offset2, limit2);
    hide Due, Decrypted, WellFormed;
    first, e, second, e2 := SeekTwice(cipher, open, offset, limit, offset2, limit2,
                                      Due(cipher.box, open, offset, limit), Due(cipher.box, open, offset2, limit2));
  }

  /**
   Seeking in what was encrypted: any range of it, and after its end any other one, reads as that slice of the
   plaintext. A range that begins at or past the end reads as nothing; past the end but in the last block it is a bad
   seek.
   */
  method SealedSlices(box: Box, n: Nonce, p: seq<Byte>, offset: nat, limit: int, offset2: nat, limit2: int)
    returns (first: seq<Byte>, e: Error, second: seq<Byte>, e2: Error)
    requires offset < 0x8000_0000_0000_0000 && offset2 < 0x8000_0000_0000_0000
    ensures first == if offset >= |p| then []
                     else p[offset..if 0 <= limit < |p| - offset then offset + limit else |p|]
    ensures e == if offset > |p| && offset / 65536 * 65536 < |p| then BadSeek else EOF
    ensures offset < |p| ==>
      && second == (if offset2 >= |p| then []
                    else p[offset2..if 0 <= limit2 < |p| - offset2 then offset2 + limit2 else |p|])
      && e2 == if offset2 > |p| && offset2 / 65536 * 65536 < |p| then BadSeek else EOF
  {
    var open := new RangeOpener(Encrypted(box, n, p), true, true);
    var cipher := new Cipher(box);
    ghost var due := SealedDue(box, n, p, open, offset, limit);
    ghost var due2 := SealedDue(box, n, p, open, offset2, limit2);
    hide Expected;
    first, e, second, e2 := SeekTwice(cipher, open, offset, limit, offset2, limit2, due, due2);
  }

  lemma SealedDue(box: Box, n: Nonce, p: seq<Byte>, open: RangeOpener, offset: nat, limit: int) returns (due: Stream)
    requires open.stored == Encrypted(box, n, p) && open.toEnd && open.reliable && offset < 0x8000_0000_0000_0000
    ensures Expected(box, open, offset, limit, due) && Decrypted(box, open.stored) == p
    ensures due.data == if offset >= |p| then []
                        else p[offset..if 0 <= limit < |p| - offset then offset + limit else |p|]
  {
    DecryptEncrypted(box, n, p);
    if offset < |p| {
      DueIsSlice(box, open, offset, limit);
      due := Due(box, open, offset, limit);
    } else {
      due := Stream([], EOF, false, false);
    }
  }

  /**
   Any calls at all, in any order: the life cycle holds throughout (buffers are held exactly while no error is set,
   the indices stay inside a block, and no buffer is given back twice), and a closed decrypter stays closed.
   */
  method AnyCalls(fh: Decrypter)
    requires fh.Valid()
    modifies fh.Footprint()
    ensures fh.Valid() && (old(fh.err) == FileClosed ==> fh.err == FileClosed)
    ensures fh.err != Nil ==> fh.buf == null && fh.readBuf == null
    ensures fh.err == Nil ==> fh.HoldsBuffers() && fh.bufIndex <= fh.bufSize <= BLOCK_DATA_SIZE
  {
    var calls: nat := *;
    while calls > 0
      invariant fh.Valid() && (old(fh.err) == FileClosed ==> fh.err == FileClosed)
      invariant Grown(fh, old(fh.cipher.all), old(fh.rc))
    {
      hide Decrypter.Sourced, Decrypter.Ends, Limited;
      AnyCall(fh);
      calls := calls - 1;
    }
  }

  /** What the decrypter may write is what it could at first and what is new. */
  twostate predicate Grown(fh: Decrypter, all: set<array<Byte>>, rc: ByteStream)
    reads fh, fh.cipher
  {
    fresh(fh.cipher.all - all) && (fh.rc == rc || fresh(fh.rc)) && fh.open == old(fh.open)
  }

  method AnyCall(fh: Decrypter)
    requires fh.Valid()
    modifies fh.Footprint()
    ensures fh.Valid() && (old(fh.err) == FileClosed ==> fh.err == FileClosed)
    ensures Grown(fh, old(fh.cipher.all), old(fh.rc))
  {
    hide Decrypter.Ends, Limited, Blocks;
    var offset: nat, limit: int, fromStart: bool := *, *, *;
    if {
      case true =>
        var _, _ := ReadSome(fh);
      case offset < 0x8000_0000_0000_0000 =>
        var _ := fh.RangeSeek(offset, fromStart, limit);
      case offset < 0x8000_0000_0000_0000 =>
        var _ := fh.Seek(offset, fromStart);
      case true =>
        var _ := fh.Close();
    }
  }
}
