/** The shared part of a cipher: its data key, seen as a secretbox, and its pool of block buffers. */
module Ciphers {
  import opened BlockSizes
  import opened Numbers
  import opened SealedBlocks
  import opened Streams

  class Cipher {
    const box: Box
    /** The buffers nobody holds, and every buffer the pool has made. */
    var free: set<array<Byte>>
    ghost var all: set<array<Byte>>

    ghost predicate Valid()
      reads this
    {
      free <= all && forall b <- all :: b.Length == BLOCK_SIZE
    }

    constructor (box: Box)
      ensures Valid() && this.box == box && all == {}
    {
      this.box := box;
      free, all := {}, {};
    }

    /** Hands out a buffer nobody else holds. */
    method GetBlock() returns (b: array<Byte>)
      requires Valid()
      modifies this
      ensures Valid() && b in all && b !in free && free == old(free) - {b}
      ensures b in old(free) || fresh(b)
      ensures old(all) <= all && fresh(all - old(all))
    {
      if free != {} {
        b :| b in free;
        free := free - {b};
      } else {
        b := new Byte[BLOCK_SIZE](_ => 0);
        all := all + {b};
      }
    }

    /** Takes a buffer back. Returning one that is already in the pool is not allowed. */
    method PutBlock(b: array<Byte>)
      requires Valid() && b in all && b !in free
      modifies this`free
      ensures Valid() && free == old(free) + {b}
    {
      free := free + {b};
    }
  }

  /** Go's `copy(dst, src[from:to])`. */
  method Copy(dst: array<Byte>, src: array<Byte>, from: nat, to: nat) returns (n: nat)
    requires from <= to <= src.Length && dst != src
    modifies dst
    ensures n == Min(dst.Length, to - from)
    ensures dst[..n] == src[from..from + n]
  {
    n := Min(dst.Length, to - from);
    forall i | 0 <= i < n {
      dst[i] := src[from + i];
    }
  }

  /** Writes `bytes` to the front of `dst`. */
  method Fill(dst: array<Byte>, bytes: seq<Byte>)
    requires |bytes| <= dst.Length
    modifies dst
    ensures dst[..|bytes|] == bytes
  {
    forall i | 0 <= i < |bytes| {
      dst[i] := bytes[i];
    }
  }
}
