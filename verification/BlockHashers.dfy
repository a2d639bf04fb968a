/** The block hasher of internal/hash/hash.go: a stream is hashed in blocks of 16 MiB, each on its own. */
module BlockHashers {
  import opened Sequences
  import opened Streams

  const BLOCK_BYTES := 16 * 1024 * 1024

  /** BLAKE3. Nothing is known about it but that a digest has 32 bytes. */
  datatype AnyHash = AnyHash(digest: seq<Byte> -> seq<Byte>)

  ghost predicate Lawful(h: AnyHash) {
    forall m {:trigger h.digest(m)} :: |h.digest(m)| == 32
  }

  type Blake3 = h: AnyHash | Lawful(h) ghost witness AnyHash((m: seq<Byte>) => seq(32, _ => 0))

  /** A hash computation under way: what it has been fed so far. */
  class Hasher {
    const hash: Blake3
    var absorbed: seq<Byte>

    constructor (hash: Blake3)
      ensures this.hash == hash && absorbed == []
    {
      this.hash := hash;
      absorbed := [];
    }

    method Write(p: seq<Byte>)
      modifies this
      ensures absorbed == old(absorbed) + p
    {
      absorbed := absorbed + p;
    }

    method Sum() returns (digest: seq<Byte>)
      ensures digest == hash.digest(absorbed)
    {
      digest := hash.digest(absorbed);
    }
  }

  // The blocks of a stream.

  /** The whole blocks of the data, and what is left after them. */
  function FullBlocks(data: seq<Byte>, size: nat): seq<seq<Byte>>
    requires size > 0
    decreases |data|
  {
    if |data| < size then [] else [data[..size]] + FullBlocks(data[size..], size)
  }

  function Tail(data: seq<Byte>, size: nat): (tail: seq<Byte>)
    requires size > 0
    ensures |tail| < size
    decreases |data|
  {
    if |data| < size then data else Tail(data[size..], size)
  }

  /** All the blocks of the data; the last one may be short. */
  function Blocks(data: seq<Byte>, size: nat): seq<seq<Byte>>
    requires size > 0
  {
    FullBlocks(data, size) + if Tail(data, size) == [] then [] else [Tail(data, size)]
  }

  /** The blocks put together are the data; every block but the last has exactly `size` bytes, and none is empty. */
  lemma {:induction false} BlocksCut(data: seq<Byte>, size: nat)
    requires size > 0
    ensures var blocks := Blocks(data, size);
            && Flatten(blocks) == data
            && (forall i :: 0 <= i < |blocks| - 1 ==> |blocks[i]| == size)
            && (blocks != [] ==> 0 < |blocks[|blocks| - 1]| <= size)
    decreases |data|
  {
    var blocks := Blocks(data, size);
    if |data| >= size {
      BlocksCut(data[size..], size);
      var rest := Blocks(data[size..], size);
      assert blocks == [data[..size]] + rest;
      assert blocks[1..] == rest;
    } else if data != [] {
      assert blocks == [data] && Flatten([data]) == data + Flatten([data][1..]);
    }
  }

  /** Bytes that fit into the unfinished block extend it, and finish it if they fill it. */
  lemma {:induction false} ExtendTail(data: seq<Byte>, more: seq<Byte>, size: nat)
    requires size > 0 && |Tail(data, size)| + |more| <= size
    ensures var block := Tail(data, size) + more;
            if |block| == size then
              FullBlocks(data + more, size) == FullBlocks(data, size) + [block] && Tail(data + more, size) == []
            else
              FullBlocks(data + more, size) == FullBlocks(data, size) && Tail(data + more, size) == block
    decreases |data|
  {
    if |data| >= size {
      DropConcatFront(data, more, size);
      ExtendTail(data[size..], more, size);
    } else if |data + more| == size {
      assert (data + more)[..size] == data + more && (data + more)[size..] == [];
    }
  }

  function Digests(h: Blake3, blocks: seq<seq<Byte>>): seq<seq<Byte>> {
    seq(|blocks|, i requires 0 <= i < |blocks| => h.digest(blocks[i]))
  }

  lemma DigestsConcat(h: Blake3, a: seq<seq<Byte>>, b: seq<seq<Byte>>)
    ensures Digests(h, a + b) == Digests(h, a) + Digests(h, b)
  {
  }

  /** What `Sum` returns for the data: the digests of its blocks, one after the other. */
  function BlockSums(h: Blake3, data: seq<Byte>, size: nat): seq<Byte>
    requires size > 0
  {
    Flatten(Digests(h, Blocks(data, size)))
  }

  /** The sum is made of 32 bytes for each block, its digest. */
  lemma {:induction false} SumIsDigests(h: Blake3, blocks: seq<seq<Byte>>, i: nat)
    requires i < |blocks|
    ensures |Flatten(Digests(h, blocks))| == 32 * |blocks|
    ensures Flatten(Digests(h, blocks))[32 * i..32 * i + 32] == h.digest(blocks[i])
    decreases |blocks|
  {
    var rest := blocks[1..];
    assert Digests(h, blocks) == [h.digest(blocks[0])] + Digests(h, rest);
    var tail := Flatten(Digests(h, rest));
    assert Flatten(Digests(h, blocks)) == h.digest(blocks[0]) + tail;
    if rest != [] {
      SumIsDigests(h, rest, if i == 0 then 0 else i - 1);
    }
    if i > 0 {
      assert (h.digest(blocks[0]) + tail)[32 * i..32 * i + 32] == tail[32 * (i - 1)..32 * (i - 1) + 32];
    }
  }

  method Concatenated(digests: seq<seq<Byte>>) returns (result: seq<Byte>)
    ensures result == Flatten(digests)
  {
    result := [];
    for i := 0 to |digests|
      invariant result == Flatten(digests[..i])
    {
      assert digests[..i + 1] == digests[..i] + [digests[i]];
      FlattenSnoc(digests[..i], digests[i]);
      result := result + digests[i];
    }
    assert digests[..|digests|] == digests;
  }

  class BlockHasher {
    const hash: Blake3
    const blockSize: nat
    var currentHash: Hasher?
    var blockHashes: seq<seq<Byte>>
    var bytesInBlock: nat
    /** The blocks that earlier calls of `Sum` closed, and the data written since. */
    ghost var closed: seq<seq<Byte>>
    ghost var data: seq<Byte>

    ghost predicate Valid()
      reads this, currentHash
    {
      && blockSize > 0
      && blockHashes == Digests(hash, closed + FullBlocks(data, blockSize))
      && bytesInBlock == |Tail(data, blockSize)|
      && (bytesInBlock > 0 ==>
            currentHash != null && currentHash.hash == hash && currentHash.absorbed == Tail(data, blockSize))
    }

    constructor (hash: Blake3)
      ensures Valid() && closed == [] && data == [] && blockSize == BLOCK_BYTES && this.hash == hash
      ensures currentHash == null
    {
      this.hash, blockSize := hash, BLOCK_BYTES;
      currentHash, blockHashes, bytesInBlock := null, [], 0;
      closed, data := [], [];
    }

    /** Writes `p`; how a stream is cut into writes does not show in the blocks. */
    method Write(p: seq<Byte>) returns (n: nat)
      requires Valid()
      modifies this, currentHash
      ensures Valid() && n == |p| && data == old(data) + p && closed == old(closed)
      ensures currentHash == old(currentHash) || fresh(currentHash)
    {
      n := |p|;
      var rest := p;
      while |rest| > 0
        invariant Valid() && data + rest == old(data) + p && closed == old(closed)
        invariant currentHash == old(currentHash) || fresh(currentHash)
        decreases |rest|
      {
        var remaining := blockSize - bytesInBlock;
        var toWrite := if |rest| < remaining then |rest| else remaining;
        ConcatAssociates(data, rest[..toWrite], rest[toWrite..]);
        assert rest == rest[..toWrite] + rest[toWrite..];
        Absorb(rest[..toWrite]);
        rest := rest[toWrite..];
      }
      assert rest == [];
    }

    /** One turn of the loop: bytes that fit into the current block. */
    method Absorb(bytes: seq<Byte>)
      requires Valid() && 0 < |bytes| <= blockSize - bytesInBlock
      modifies this, currentHash
      ensures Valid() && data == old(data) + bytes && closed == old(closed)
      ensures currentHash == old(currentHash) || fresh(currentHash)
    {
      if bytesInBlock == 0 {
        currentHash := new Hasher(hash);
      }
      currentHash.Write(bytes);
      bytesInBlock := bytesInBlock + |bytes|;
      ExtendTail(data, bytes, blockSize);
      ghost var block := Tail(data, blockSize) + bytes;
      if bytesInBlock >= blockSize {
        var digest := currentHash.Sum();
        blockHashes := blockHashes + [digest];
        bytesInBlock := 0;
        DigestsConcat(hash, closed + FullBlocks(data, blockSize), [block]);
        ConcatAssociates(closed, FullBlocks(data, blockSize), [block]);
      }
      data := data + bytes;
    }

    /**
     The digests of all the blocks so far. It closes the block under way, so a write that follows starts another
     one; called again without a write it returns the same.
     */
    method Sum() returns (result: seq<Byte>)
      requires Valid()
      modifies this
      ensures Valid() && result == Flatten(Digests(hash, old(closed) + Blocks(old(data), blockSize)))
      ensures closed == old(closed) + Blocks(old(data), blockSize) && data == []
      ensures currentHash == old(currentHash)
    {
      ghost var full, tail := FullBlocks(data, blockSize), Tail(data, blockSize);
      ConcatAssociates(closed, full, [tail]);
      if bytesInBlock > 0 {
        var digest := currentHash.Sum();
        blockHashes := blockHashes + [digest];
        bytesInBlock := 0;
        DigestsConcat(hash, closed + full, [tail]);
      }
      closed, data := closed + Blocks(data, blockSize), [];
      assert closed + FullBlocks(data, blockSize) == closed;
      result := Concatenated(blockHashes);
    }

    method Reset()
      requires blockSize > 0
      modifies this`blockHashes, this`bytesInBlock, this`closed, this`data
      ensures Valid() && closed == [] && data == []
    {
      blockHashes, bytesInBlock := [], 0;
      closed, data := [], [];
    }
  }

  /** The sum of a stream does not depend on how it is cut into writes. */
  method HashWrites(hash: Blake3, writes: seq<seq<Byte>>) returns (sum: seq<Byte>)
    ensures sum == BlockSums(hash, Flatten(writes), BLOCK_BYTES) && BLOCK_BYTES == 16777216
  {
    var h := new BlockHasher(hash);
    for i := 0 to |writes|
      invariant h.Valid() && fresh(h) && (h.currentHash == null || fresh(h.currentHash))
      invariant h.hash == hash && h.blockSize == BLOCK_BYTES && h.closed == [] && h.data == Flatten(writes[..i])
    {
      var _ := h.Write(writes[i]);
      assert writes[..i + 1] == writes[..i] + [writes[i]];
      FlattenSnoc(writes[..i], writes[i]);
    }
    assert writes[..|writes|] == writes;
    assert h.closed + Blocks(h.data, BLOCK_BYTES) == Blocks(h.data, BLOCK_BYTES);
    sum := h.Sum();
  }

  /** `Sum` is idempotent. */
  method SumTwice(h: BlockHasher) returns (first: seq<Byte>, second: seq<Byte>)
    requires h.Valid()
    modifies h
    ensures first == second
  {
    first := h.Sum();
    assert h.closed + Blocks(h.data, h.blockSize) == h.closed;
    second := h.Sum();
  }
}
