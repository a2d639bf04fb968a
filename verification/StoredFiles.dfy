/** Files as they are stored: parts, each one message, possibly encrypted; and the reader of a range of one part. */
module StoredFiles {
  import opened BlockSizes
  import opened ChunkLayout
  import opened Ciphers
  import opened DecrypterOpening
  import opened Decrypters
  import opened Nonces
  import opened PartRanges
  import opened RangeOpeners
  import opened RangeReaders
  import opened SealedBlocks
  import opened SeekWindows
  import opened Sequences
  import opened Streams

  /** A part as `getParts` describes it: its size in storage and, if it is encrypted, that of its plaintext. */
  datatype Part = Part(id: int, size: nat, decryptedSize: nat, salt: string)

  /**
   `stored[i]` are the bytes of the message of part `i`; `boxes` is the key derivation, from a salt to a secretbox.
   */
  datatype StoredFile = StoredFile(encrypted: bool, parts: seq<Part>, stored: seq<seq<Byte>>, boxes: string -> Box) {

    ghost predicate PartValid(i: nat)
      requires i < |parts| && i < |stored|
    {
      && parts[i].size == |stored[i]| < 0x8000_0000_0000_0000
      && (encrypted ==> WellFormed(stored[i]) && DecryptedSize(parts[i].size) == Size(parts[i].decryptedSize))
    }

    ghost predicate Valid() {
      && parts != [] && |stored| == |parts|
      && (forall i :: 0 <= i < |parts| ==> PartValid(i))
      && EvenParts(PlainParts(), PartSize())
    }

    /** No block of an encrypted part authenticates when it is cut short. */
    ghost predicate PartCutsRejected(i: nat)
      requires i < |parts| && i < |stored|
    {
      encrypted && |stored[i]| >= HEADER_SIZE ==>
        CutsRejected(boxes(parts[i].salt), HeaderNonce(stored[i]), stored[i][HEADER_SIZE..])
    }

    ghost predicate RejectsCuts() {
      forall i :: 0 <= i < |parts| && i < |stored| ==> PartCutsRejected(i)
    }

    function PlainPart(i: nat): seq<Byte>
      requires i < |parts| && i < |stored|
    {
      if !encrypted then stored[i]
      else if |stored[i]| >= HEADER_SIZE then Decrypted(boxes(parts[i].salt), stored[i])
      else []
    }

    function PlainParts(): seq<seq<Byte>> {
      seq(|parts|, i requires 0 <= i < |parts| => if i < |stored| then PlainPart(i) else [])
    }

    /** What the file holds. */
    function Content(): seq<Byte> {
      Flatten(PlainParts())
    }

    function PartSize(): nat
      requires parts != []
    {
      if encrypted then parts[0].decryptedSize else parts[0].size
    }
  }

  datatype AnyReader = Chunked(chunked: TgMultiReader) | Decrypting(decrypter: Decrypter)

  /**
   The reader of a range of one part: the chunked reader or, if the file is encrypted, a decrypter. `pending` is what
   its user is due; the reader may give up before that if fetches may fail.
   */
  class PartReader {
    const reader: AnyReader
    ghost var pending: Stream
    ghost var Repr: set<object?>

    ghost predicate Valid()
      reads this, Repr
      ensures Valid() ==> this in Repr && pending.end == EOF
    {
      match reader
      case Chunked(r) =>
        this in Repr && r in Repr && r.Valid() && pending == r.Pending()
      case Decrypting(d) =>
        Unsealed(d) && pending.end == EOF && Serves(d.pending, pending)
    }

    ghost predicate Unsealed(d: Decrypter)
      reads this, Repr
    {
      && {this, d, d.cipher} <= Repr && d.Footprint() <= Repr && this !in d.Footprint()
      && d.Valid() && d.open != null && !d.open.negative
    }

    /** A chunked reader that was closed is cancelled, and all a closed decrypter says is that it is closed. */
    ghost predicate Shut()
      reads this, Repr
    {
      match reader
      case Chunked(r) => this in Repr && r in Repr && r.Valid() && r.st.cancelled
      case Decrypting(d) => Unsealed(d) && d.pending == Stream([], FileClosed, false, false)
    }

    constructor Plain(r: TgMultiReader)
      requires r.Valid()
      ensures Valid() && Repr == {this, r} && pending == r.Pending() && reader.Chunked?
    {
      reader, pending, Repr := Chunked(r), r.Pending(), {this, r};
    }

    constructor Sealed(d: Decrypter, ghost due: Stream)
      requires d.Valid() && d.open != null && !d.open.negative && Serves(d.pending, due) && due.end == EOF
      ensures Valid() && Repr == {this} + d.Footprint() && pending == due && reader.Decrypting?
    {
      reader, pending, Repr := Decrypting(d), due, {this} + d.Footprint();
    }

    method Read(p: array<Byte>) returns (n: nat, err: Error)
      requires Valid() && p !in Repr
      modifies Repr, p
      ensures Valid() && Repr == old(Repr) && n <= p.Length && (GaveUp(err) ==> n == 0)
      ensures StreamRead(old(pending), p.Length, p[..n], err, pending)
    {
      hide TgMultiReader.Valid, Serves, StreamRead;
      match reader
      case Chunked(r) =>
        n, err := r.Read(p);
        pending := r.Pending();
      case Decrypting(d) =>
        n, err := ReadSealed(d, p);
    }

    method ReadSealed(d: Decrypter, p: array<Byte>) returns (n: nat, err: Error)
      requires reader == Decrypting(d) && Unsealed(d) && pending.end == EOF && Serves(d.pending, pending) && p !in Repr
      modifies Repr, p
      ensures Unsealed(d) && pending.end == EOF && Serves(d.pending, pending)
      ensures Repr == old(Repr) && n <= p.Length && (GaveUp(err) ==> n == 0)
      ensures StreamRead(old(pending), p.Length, p[..n], err, pending)
    {
      hide Decrypter.Sourced, Decrypter.Ends, Limited, Serves, StreamRead, Blocks;
      ghost var before := d.pending;
      n, err := d.Read(p);
      ServesRead(before, pending, p.Length, p[..n], err, d.pending);
      pending := pending.(data := pending.data[n..]);
    }

    /** Closes a reader whose part was read, or one that may break off anyway. */
    method Close()
      requires Valid() && (!pending.faults ==> pending.data == [])
      modifies Repr
      ensures Shut() && Repr == old(Repr)
    {
      hide Decrypter.Ends, Limited, Blocks;
      match reader
      case Chunked(r) =>
        r.Close();
      case Decrypting(d) =>
        var _ := d.Close();
    }

    /** A closed decrypter never delivers, whatever its user is due. */
    ghost method Await(due: Stream)
      requires Shut() && reader.Decrypting? && due.faults && due.end == EOF && due.data != []
      modifies this`pending
      ensures Valid() && pending == due
    {
      pending := due;
    }
  }

  /** The content of a file of which every part was encrypted under the key of its own salt: what was encrypted. */
  lemma ContentOfSealed(file: StoredFile, nonces: seq<Nonce>, plain: seq<seq<Byte>>)
    requires file.encrypted && |nonces| == |plain| == |file.parts| == |file.stored|
    requires forall i :: 0 <= i < |plain| ==>
               file.stored[i] == Encrypted(file.boxes(file.parts[i].salt), nonces[i], plain[i])
    ensures file.PlainParts() == plain && file.Content() == Flatten(plain)
  {
    hide Encrypted, Decrypted, Flatten;
    forall i | 0 <= i < |plain| ensures file.PlainPart(i) == plain[i] {
      PartOfSealed(file, i, nonces[i], plain[i]);
    }
    hide StoredFile.PlainPart;
    assert file.PlainParts() == plain;
  }

  lemma PartOfSealed(file: StoredFile, i: nat, n: Nonce, plain: seq<Byte>)
    requires file.encrypted && i < |file.parts| && i < |file.stored|
    requires file.stored[i] == Encrypted(file.boxes(file.parts[i].salt), n, plain)
    ensures file.PlainPart(i) == plain
  {
    hide WellFormed, Decrypted, Encrypted, HeaderNonce;
    DecryptEncrypted(file.boxes(file.parts[i].salt), n, plain);
    EncryptedLength(file.boxes(file.parts[i].salt), n, plain);
  }

  lemma EncryptedLength(box: Box, n: Nonce, p: seq<Byte>)
    ensures |Encrypted(box, n, p)| >= HEADER_SIZE
  {
  }

  /** A file rejects cuts if it is not encrypted, or if each of its parts does under the key of its salt. */
  lemma RejectsCutsIs(file: StoredFile)
    requires |file.parts| == |file.stored| && forall i :: 0 <= i < |file.stored| ==> |file.stored[i]| >= HEADER_SIZE
    ensures file.RejectsCuts() <==>
              !file.encrypted
              || forall i :: 0 <= i < |file.stored| ==>
                   CutsRejected(file.boxes(file.parts[i].salt), file.stored[i][10..34], file.stored[i][34..])
  {
    if file.RejectsCuts() {
      forall i | 0 <= i < |file.stored| && file.encrypted
        ensures CutsRejected(file.boxes(file.parts[i].salt), file.stored[i][10..34], file.stored[i][34..])
      {
        assert file.PartCutsRejected(i);
      }
    }
  }

  /** The content of a file that is not encrypted: its messages put together. */
  lemma ContentOfPlain(file: StoredFile)
    requires !file.encrypted && |file.parts| == |file.stored|
    ensures file.PlainParts() == file.stored && file.Content() == Flatten(file.stored)
  {
    assert file.PlainParts() == file.stored;
  }

  /** Part `i` decrypted has as many bytes as its description says. */
  lemma PlainPartSize(file: StoredFile, i: nat)
    requires i < |file.parts| && i < |file.stored| && file.PartValid(i)
    ensures |file.PlainPart(i)| == if file.encrypted then file.parts[i].decryptedSize else file.parts[i].size
    ensures file.encrypted ==>
      PlainEnd(file.stored[i][HEADER_SIZE..], EOF) == EOF && |file.PlainPart(i)| < |file.stored[i]|
  {
    if file.encrypted {
      DecryptedLength(file.boxes(file.parts[i].salt), file.stored[i]);
      StoredIsLarger(file.parts[i].size);
    }
  }

  lemma StoredIsLarger(size: int)
    requires DecryptedSize(size).Size?
    ensures DecryptedSize(size).value < size
  {
  }

  /**
   Opens a reader of bytes `range.start` to `range.end` of part `i`. For an encrypted part the range is one of
   plaintext, and the ciphertext is opened through a callback that is never asked for a negative number of bytes.
   */
  method GetPartReader(file: StoredFile, i: nat, range: Range, concurrency: nat, buffers: nat, reliable: bool)
    returns (reader: PartReader?, err: Error)
    requires i < |file.parts| == |file.stored| && file.PartValid(i) && concurrency >= 1
    requires 0 <= range.start <= range.end < |file.PlainPart(i)|
    requires reliable || file.PartCutsRejected(i)
    ensures reader == null <==> err != Nil
    ensures err != Nil ==> err.Fault? && !reliable && file.encrypted
    ensures reader != null ==>
      && reader.Valid() && fresh(reader.Repr) && reader.reader.Decrypting? == file.encrypted
      && reader.pending == Stream(file.PlainPart(i)[range.start..range.end + 1], EOF, !reliable, true)
  {
    hide PartReader.Valid, Decrypted, CutsRejected, PlainEnd, TgMultiReader.Valid;
    PlainPartSize(file, i);
    var plain := new TgMultiReader(file.stored[i], range.start, range.end, concurrency, buffers, reliable);
    err := Nil;
    if file.encrypted {
      var box := file.boxes(file.parts[i].salt);
      reader, err := DecryptPart(box, file.stored[i], range.start, range.end - range.start + 1, reliable);
    } else {
      reader := new PartReader.Plain(plain);
    }
  }

  /**
   What the callback does: it opens a chunked reader of the stored bytes, and that delivers what `RangeOpener` says
   is served.
   */
  method OpenStored(open: RangeOpener, offset: nat, limit: int, concurrency: nat, buffers: nat)
    returns (r: TgMultiReader)
    requires open.Served(offset, limit) != [] && concurrency >= 1
    ensures r.Valid() && fresh(r)
    ensures r.Pending() == Stream(open.Served(offset, limit), EOF, !open.reliable, true)
  {
    r := new TgMultiReader(open.stored, offset, open.LastByte(offset, limit), concurrency, buffers, open.reliable);
  }

  /**
   Up to its first fault, what a user of that reader sees is what one sees of a stream the opener may deliver: all that
   is served and then the end of file, as often as it is asked for, or, if the reader gives up, a part of it and then
   the fault.
   */
  lemma ChunkedIsDelivered(open: RangeOpener, offset: nat, limit: int, calls: seq<Call>, last: Stream)
    returns (c: seq<Byte>, end: Error, last': Stream)
    requires Run(Stream(open.Served(offset, limit), EOF, !open.reliable, true), calls, last)
    requires UpToFault(calls) && forall i :: 0 <= i < |calls| ==> calls[i].err != FileClosed
    ensures open.Delivers(offset, limit, c, end)
    ensures Run(Stream(c, end, false, end == EOF), calls, last')
  {
    var first := Stream(open.Served(offset, limit), EOF, !open.reliable, true);
    RunDelivers(first, calls, last);
    if calls != [] && GaveUp(calls[|calls| - 1].err) {
      BrokenRun(first, calls, last);
      FaultsAllowed(first, calls, last);
      c, end := Delivered(calls), calls[|calls| - 1].err;
      last' := Stream([], end, false, false);
    } else {
      UnbrokenRun(first, calls, last);
      c, end, last' := first.data, EOF, last.(faults := false);
    }
  }

  ghost predicate InRange(box: Box, stored: seq<Byte>, start: nat, limit: nat, reliable: bool) {
    && WellFormed(stored) && limit > 0 && start + limit <= |Decrypted(box, stored)| && start < 0x8000_0000_0000_0000
    && (reliable || CutsRejected(box, HeaderNonce(stored), stored[HEADER_SIZE..]))
  }

  /** A reader of plaintext bytes `start` up to `start + limit` of a stored object. */
  method DecryptPart(box: Box, stored: seq<Byte>, start: nat, limit: nat, reliable: bool)
    returns (reader: PartReader?, err: Error)
    requires InRange(box, stored, start, limit, reliable)
    ensures if reader == null then err.Fault? && !reliable else err == Nil
    ensures reader != null ==>
      && reader.Valid() && fresh(reader.Repr) && reader.reader.Decrypting?
      && reader.pending == Stream(Decrypted(box, stored)[start..start + limit], EOF, !reliable, true)
  {
    hide Decrypter.Valid, PartReader.Valid, Decrypted, Serves;
    var fh;
    fh, err := DecryptRange(box, stored, start, limit, reliable);
    reader := null;
    if fh != null {
      reader := new PartReader.Sealed(fh, Stream(Decrypted(box, stored)[start..start + limit], EOF, !reliable, true));
    }
  }

  method DecryptRange(box: Box, stored: seq<Byte>, start: nat, limit: nat, reliable: bool)
    returns (fh: Decrypter?, err: Error)
    requires InRange(box, stored, start, limit, reliable)
    ensures if fh == null then err.Fault? && !reliable else err == Nil
    ensures fh != null ==>
      && fh.Valid() && fresh(fh.Footprint()) && fh.open != null && !fh.open.negative
      && Serves(fh.pending, Stream(Decrypted(box, stored)[start..start + limit], EOF, !reliable, true))
  {
    hide Decrypter.Sourced, Decrypter.Ends, Limited, Decrypted, Due, Serves, CutsRejected, WellFormed, Blocks;
    var open := new RangeOpener(stored, false, reliable);
    var cipher := new Cipher(box);
    RangeReachable(box, open, start, limit);
    fh, err := NewDecrypterSeek(cipher, open, start, limit);
    assert fresh(cipher.all);
  }

  /** The opener of a well-formed object reaches every range of its plaintext, and that range is what a seek is due. */
  lemma RangeReachable(box: Box, open: RangeOpener, start: nat, limit: nat)
    requires InRange(box, open.stored, start, limit, open.reliable)
    ensures Reachable(box, open, start, limit)
    ensures Due(box, open, start, limit)
            == Stream(Decrypted(box, open.stored)[start..start + limit], EOF, !open.reliable, true)
  {
    DecryptedLength(box, open.stored);
    var plain := Decrypted(box, open.stored);
    assert plain[start..][..limit] == plain[start..start + limit];
  }
}
