/** The size arithmetic of the encrypted format: a 34-byte header, then 64 KiB blocks with 16 bytes added to each. */
module BlockSizes {
  import opened Streams

  const MAGIC_SIZE := 10
  const HEADER_SIZE := 34
  const OVERHEAD := 16
  const BLOCK_DATA_SIZE := 65536
  const BLOCK_SIZE := OVERHEAD + BLOCK_DATA_SIZE

  datatype SizeResult = Size(value: nat) | SizeError(error: Error)

  function EncryptedSize(size: nat): nat {
    var blocks, residue := size / BLOCK_DATA_SIZE, size % BLOCK_DATA_SIZE;
    HEADER_SIZE + blocks * BLOCK_SIZE + (if residue != 0 then OVERHEAD + residue else 0)
  }

  function DecryptedSize(size: int): SizeResult {
    var body := size - HEADER_SIZE;
    if body < 0 then SizeError(TooShort)
    else
      var blocks, residue := body / BLOCK_SIZE, body % BLOCK_SIZE;
      if residue == 0 then Size(blocks * BLOCK_DATA_SIZE)
      else if residue <= OVERHEAD then SizeError(BadHeader)
      else Size(blocks * BLOCK_DATA_SIZE + residue - OVERHEAD)
  }

  /**
   The two are inverse: every plaintext size comes back, and every size that decrypts came from its plaintext size.
   */
  lemma SizeBijection(plain: nat, stored: int)
    ensures DecryptedSize(EncryptedSize(plain)) == Size(plain)
    ensures DecryptedSize(stored).Size? ==> EncryptedSize(DecryptedSize(stored).value) == stored
  {
    var blocks, residue := plain / BLOCK_DATA_SIZE, plain % BLOCK_DATA_SIZE;
    if residue != 0 {
      DivideOut(blocks, OVERHEAD + residue);
    } else {
      DivideOut(blocks, 0);
    }
  }

  /** The sizes in numbers, and which error a size that is no encrypted one gives. */
  lemma SizesAre(blocks: nat, residue: nat, stored: int)
    requires residue < 65536
    ensures EncryptedSize(blocks * 65536 + residue) == 34 + blocks * 65552 + (if residue == 0 then 0 else 16 + residue)
    ensures DecryptedSize(stored) == SizeError(TooShort) <==> stored < 34
    ensures DecryptedSize(stored) == SizeError(BadHeader) <==> stored >= 34 && 1 <= (stored - 34) % 65552 <= 16
    ensures DecryptedSize(stored).SizeError? ==> DecryptedSize(stored).error in {TooShort, BadHeader}
  {
    assert (blocks * 65536 + residue) / 65536 == blocks && (blocks * 65536 + residue) % 65536 == residue;
  }

  lemma DivideOut(q: nat, r: nat)
    requires r < BLOCK_SIZE
    ensures (q * BLOCK_SIZE + r) / BLOCK_SIZE == q && (q * BLOCK_SIZE + r) % BLOCK_SIZE == r
  {
  }

  /** What must be fetched for a plaintext range: where, how much, and how far into the first block it starts. */
  datatype Underlying = Underlying(offset: nat, limit: int, discard: nat, blocks: nat)

  function CalculateUnderlying(offset: nat, limit: int): Underlying {
    var blocks, discard := offset / BLOCK_DATA_SIZE, offset % BLOCK_DATA_SIZE;
    var underlyingOffset := HEADER_SIZE + blocks * BLOCK_SIZE;
    if limit < 0 then Underlying(underlyingOffset, -1, discard, blocks)
    else
      var bytesToRead := limit - (BLOCK_DATA_SIZE - discard);
      var extra :=
        if bytesToRead <= 0 then 0
        else bytesToRead / BLOCK_DATA_SIZE + (if bytesToRead % BLOCK_DATA_SIZE != 0 then 1 else 0);
      Underlying(underlyingOffset, (1 + extra) * BLOCK_SIZE, discard, blocks)
  }

  /** The number of whole blocks the limit asks for. */
  function BlocksAsked(u: Underlying): int {
    u.limit / BLOCK_SIZE
  }

  /** The offset is split exactly, and the limit asks for whole blocks that cover the range, no more than needed. */
  lemma UnderlyingIsTight(offset: nat, limit: int)
    ensures var u := CalculateUnderlying(offset, limit);
            && u.blocks * BLOCK_DATA_SIZE + u.discard == offset && u.discard < BLOCK_DATA_SIZE
            && u.offset == HEADER_SIZE + u.blocks * BLOCK_SIZE
            && (limit < 0 <==> u.limit < 0)
            && (limit >= 0 ==> u.limit == BlocksAsked(u) * BLOCK_SIZE && BlocksAsked(u) >= 1)
            && (limit >= 0 ==> u.discard + limit <= BlocksAsked(u) * BLOCK_DATA_SIZE)
            && (limit >= 1 ==> (BlocksAsked(u) - 1) * BLOCK_DATA_SIZE < u.discard + limit)
  {
    if limit >= 0 {
      var u := CalculateUnderlying(offset, limit);
      var bytesToRead := limit - (BLOCK_DATA_SIZE - u.discard);
      var extra := if bytesToRead <= 0 then 0
                   else bytesToRead / BLOCK_DATA_SIZE + (if bytesToRead % BLOCK_DATA_SIZE != 0 then 1 else 0);
      DivideOut(1 + extra, 0);
    }
  }

  /** For ranges that end before 2^62 nothing overflows a 64-bit integer. */
  lemma UnderlyingFits(offset: nat, limit: int)
    requires offset + limit <= 0x4000_0000_0000_0000 && offset <= 0x4000_0000_0000_0000
    ensures var u := CalculateUnderlying(offset, limit);
            && u.offset < 0x8000_0000_0000_0000
            && HEADER_SIZE + u.limit < 0x8000_0000_0000_0000
            && u.offset + u.limit < 0x8000_0000_0000_0000
  {
    UnderlyingIsTight(offset, limit);
  }
}
