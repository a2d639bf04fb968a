/**
 The content hash of a file, computed in two ways: from the block hashes that each uploaded part left behind
 (`FilesCreate` in pkg/services/file.go) and by reading the whole file back (pkg/services/dedup_backfill.go).
 */
module TreeHashes {
  import opened BlockHashers
  import ChunkLayout
  import opened FileReaders
  import opened Sequences
  import opened StoredFiles
  import opened Streams

  // When the blocks of the parts are the blocks of the whole.

  function PartBlocks(parts: seq<seq<Byte>>, size: nat): seq<seq<Byte>>
    requires size > 0
  {
    if parts == [] then [] else Blocks(parts[0], size) + PartBlocks(parts[1..], size)
  }

  /** A part that does not end at a block boundary is followed by nothing. */
  ghost predicate Aligned(parts: seq<seq<Byte>>, size: nat)
    requires size > 0
  {
    forall i :: 0 <= i < |parts| ==> |parts[i]| % size == 0 || NothingAfter(parts, i)
  }

  ghost predicate NothingAfter(parts: seq<seq<Byte>>, i: nat)
    requires i < |parts|
  {
    Flatten(parts[i + 1..]) == []
  }

  lemma {:induction false} TailLength(data: seq<Byte>, size: nat)
    requires size > 0
    ensures |Tail(data, size)| == |data| % size
    decreases |data|
  {
    if |data| >= size {
      TailLength(data[size..], size);
      ModStep(|data|, size);
    }
  }

  lemma ModStep(n: nat, size: nat)
    requires 0 < size <= n
    ensures (n - size) % size == n % size
  {
    var q, r := ChunkLayout.Divide(n - size, size);
    ChunkLayout.QuotientIs(q + 1, r, size);
    assert n == (q + 1) * size + r;
  }

  /**
   The blocks of a concatenation: the whole blocks of the front, then the blocks of what is left of it and the rest.
   */
  lemma {:induction false} BlocksOfConcat(a: seq<Byte>, b: seq<Byte>, size: nat)
    requires size > 0
    ensures Blocks(a + b, size) == FullBlocks(a, size) + Blocks(Tail(a, size) + b, size)
    decreases |a|
  {
    if |a| >= size {
      DropConcatFront(a, b, size);
      BlocksOfConcat(a[size..], b, size);
      var first := [a[..size]];
      assert Blocks(a + b, size) == first + Blocks(a[size..] + b, size);
    }
  }

  /** The first block is as long as the data allows. */
  lemma FirstBlockLength(data: seq<Byte>, size: nat)
    requires size > 0 && data != []
    ensures Blocks(data, size) != []
    ensures |Blocks(data, size)[0]| == if |data| < size then |data| else size
  {
  }

  lemma JoinAgrees(a: seq<Byte>, b: seq<Byte>, rest: seq<seq<Byte>>, size: nat)
    requires size > 0
    ensures Tail(a, size) == [] || b == [] ==> Blocks(a + b, size) == Blocks(a, size) + Blocks(b, size)
    ensures Blocks(a, size) + rest == Blocks(a + b, size) ==> Tail(a, size) == [] || b == []
  {
    hide FullBlocks, Tail, Blocks;
    BlocksOfConcat(a, b, size);
    BlocksEnd(a, size);
    if Tail(a, size) == [] {
      assert Tail(a, size) + b == b;
    } else if b == [] {
      assert a + b == a;
      NoBlocks(size);
    } else {
      JoinDiffers(a, b, rest, size);
    }
  }

  lemma BlocksEnd(a: seq<Byte>, size: nat)
    requires size > 0
    ensures Blocks(a, size) == FullBlocks(a, size) + (if Tail(a, size) == [] then [] else [Tail(a, size)])
  {
  }

  lemma NoBlocks(size: nat)
    requires size > 0
    ensures Blocks([], size) == []
  {
  }

  /** A block that was cut short is followed by other blocks than it would be if it went on. */
  lemma JoinDiffers(a: seq<Byte>, b: seq<Byte>, rest: seq<seq<Byte>>, size: nat)
    requires size > 0 && Tail(a, size) != [] && b != []
    requires Blocks(a, size) == FullBlocks(a, size) + [Tail(a, size)]
    requires Blocks(a + b, size) == FullBlocks(a, size) + Blocks(Tail(a, size) + b, size)
    ensures Blocks(a, size) + rest != Blocks(a + b, size)
  {
    hide FullBlocks, Tail, Blocks;
    var full, tail := FullBlocks(a, size), Tail(a, size);
    FirstBlockLength(tail + b, size);
    assert (full + Blocks(tail + b, size))[|full|] == Blocks(tail + b, size)[0];
    assert (full + [tail] + rest)[|full|] == tail;
  }

  /**
   Hashing part by part cuts the file into the same blocks as hashing it whole, if and only if the parts are aligned.
   */
  lemma {:induction false} PartsAgree(parts: seq<seq<Byte>>, size: nat)
    requires size > 0
    ensures PartBlocks(parts, size) == Blocks(Flatten(parts), size) <==> Aligned(parts, size)
  {
    if parts != [] {
      var first, rest := parts[0], parts[1..];
      PartsAgree(rest, size);
      JoinAgrees(first, Flatten(rest), PartBlocks(rest, size), size);
      TailLength(first, size);
      AlignedStep(parts, size);
      var left, right := Blocks(first, size), Blocks(Flatten(rest), size);
      if Tail(first, size) == [] || Flatten(rest) == [] {
        assert Blocks(Flatten(parts), size) == left + right;
        SameAfter(left, PartBlocks(rest, size), right);
      }
    }
  }

  lemma AlignedStep(parts: seq<seq<Byte>>, size: nat)
    requires size > 0 && parts != []
    ensures Aligned(parts, size) <==>
              (|parts[0]| % size == 0 || Flatten(parts[1..]) == []) && Aligned(parts[1..], size)
  {
    var rest := parts[1..];
    forall i | 0 <= i < |rest| ensures NothingAfter(rest, i) <==> NothingAfter(parts, i + 1) {
      assert rest[i + 1..] == parts[i + 1 + 1..];
    }
    assert NothingAfter(parts, 0) <==> Flatten(rest) == [];
    if Aligned(parts, size) {
      forall i | 0 <= i < |rest| ensures |rest[i]| % size == 0 || NothingAfter(rest, i) {
        assert |parts[i + 1]| % size == 0 || NothingAfter(parts, i + 1);
      }
    }
    if (|parts[0]| % size == 0 || Flatten(rest) == []) && Aligned(rest, size) {
      forall i | 0 <= i < |parts| ensures |parts[i]| % size == 0 || NothingAfter(parts, i) {
        if i > 0 {
          assert |rest[i - 1]| % size == 0 || NothingAfter(rest, i - 1);
        }
      }
    }
  }

  lemma SameAfter<T>(left: seq<T>, a: seq<T>, b: seq<T>)
    ensures left + a == left + b <==> a == b
  {
    if left + a == left + b {
      assert a == (left + a)[|left|..] == (left + b)[|left|..] == b;
    }
  }

  /** For parts that hold something, alignment is that every part but the last is a whole number of blocks. */
  lemma AlignedMeansWholeBlocks(parts: seq<seq<Byte>>, size: nat)
    requires size > 0 && forall i :: 0 <= i < |parts| ==> parts[i] != []
    ensures Aligned(parts, size) <==> forall i :: 0 <= i < |parts| - 1 ==> |parts[i]| % size == 0
  {
    forall i | 0 <= i < |parts| ensures NothingAfter(parts, i) <==> i == |parts| - 1 {
      var rest := parts[i + 1..];
      if rest != [] {
        assert Flatten(rest) == rest[0] + Flatten(rest[1..]);
      }
    }
  }

  // The two computations.

  /** A row of the uploads table. */
  datatype Upload = Upload(partId: int, blockHashes: seq<Byte>)

  /** There is one row for each part, and each has block hashes. */
  ghost predicate Covers(uploads: seq<Upload>, partCount: nat) {
    |uploads| == partCount && uploads != [] && forall i :: 0 <= i < |uploads| ==> uploads[i].blockHashes != []
  }

  method BlockHashesCover(uploads: seq<Upload>, partCount: nat) returns (cover: bool)
    ensures cover <==> Covers(uploads, partCount)
    ensures cover <==>
              0 < |uploads| == partCount && forall i :: 0 <= i < |uploads| ==> uploads[i].blockHashes != []
  {
    if |uploads| == 0 || |uploads| != partCount {
      return false;
    }
    for i := 0 to |uploads|
      invariant forall j :: 0 <= j < i ==> uploads[j].blockHashes != []
    {
      if |uploads[i].blockHashes| == 0 {
        return false;
      }
    }
    cover := true;
  }

  /** The hash itself, a try at `ComputeFileContentHash`, or none. */
  datatype CommitHash = Hashed(treeHash: seq<Byte>) | ReadBack | Unhashed

  function Recorded(uploads: seq<Upload>): seq<seq<Byte>> {
    seq(|uploads|, i requires 0 <= i < |uploads| => uploads[i].blockHashes)
  }

  /** The hash a file gets when it is committed. It is read back only if the client named its parts and no upload. */
  method HashAtCommit(h: Blake3, uploads: seq<Upload>, partCount: nat, size: nat, uploadId: string, encrypted: bool)
    returns (r: CommitHash)
    ensures r.Hashed? <==> size == 0 || Covers(uploads, partCount)
    ensures r.ReadBack? <==> !r.Hashed? && uploadId == "" && partCount > 0 && !encrypted
    ensures r.Hashed? ==>
      r.treeHash == h.digest(if Covers(uploads, partCount) then Flatten(Recorded(uploads)) else [])
    ensures |Recorded(uploads)| == |uploads|
            && forall i :: 0 <= i < |uploads| ==> Recorded(uploads)[i] == uploads[i].blockHashes
  {
    var cover := BlockHashesCover(uploads, partCount);
    if cover {
      var all := [];
      var rows := Recorded(uploads);
      for i := 0 to |uploads|
        invariant all == Flatten(rows[..i])
      {
        assert rows[..i + 1] == rows[..i] + [rows[i]];
        FlattenSnoc(rows[..i], rows[i]);
        all := all + uploads[i].blockHashes;
      }
      assert rows[..|uploads|] == rows;
      r := Hashed(h.digest(all));
    } else if size == 0 {
      r := Hashed(h.digest([]));
    } else if uploadId == "" && partCount > 0 && !encrypted {
      r := ReadBack;
    } else {
      r := Unhashed;
    }
  }

  /** Reads the file back and hashes what it reads, in pieces of any size. */
  method ComputeFileContentHash(h: Blake3, file: StoredFile, size: nat, concurrency: nat, buffers: nat, reliable: bool)
    returns (treeHash: seq<Byte>, err: Error)
    requires size > 0 ==>
      file.Valid() && size == |file.Content()| && concurrency >= 1 && (reliable || file.RejectsCuts())
    ensures err == Nil && size == 0 ==> treeHash == h.digest([])
    ensures err == Nil && size > 0 ==> treeHash == h.digest(BlockSums(h, file.Content(), BLOCK_BYTES))
    ensures reliable || size == 0 ==> err == Nil
  {
    if size == 0 {
      return h.digest([]), Nil;
    }
    hide StoredFile.Valid, StoredFile.Content, StoredFile.RejectsCuts, Reader.Valid, BlockSums;
    ghost var content := file.Content();
    var lr, openErr := NewReader(file, 0, size - 1, concurrency, buffers, reliable);
    if openErr != Nil {
      return [], openErr;
    }
    assert content[0..size - 1 + 1] == content;
    treeHash, err := HashAll(h, lr);
  }

  /** Hashes all that the reader delivers. */
  method HashAll(h: Blake3, lr: Reader) returns (treeHash: seq<Byte>, err: Error)
    requires lr.Valid() && lr.pending.end == EOF && null !in lr.Repr
    modifies lr.Repr
    ensures err == Nil ==> treeHash == h.digest(BlockSums(h, old(lr.pending.data), BLOCK_BYTES))
    ensures !old(lr.pending.faults) ==> err == Nil
  {
    hide Reader.Valid, BlockHasher.Valid, FullBlocks, Tail, Blocks, Flatten, Digests;
    ghost var content := lr.pending.data;
    var hasher := new BlockHasher(h);
    assert hasher.data + content == content;
    err := CopyInto(hasher, lr);
    if err != Nil {
      return [], err;
    }
    ghost var blocks := Blocks(content, BLOCK_BYTES);
    assert hasher.closed + blocks == blocks;
    var sum := hasher.Sum();
    treeHash := h.digest(sum);
  }

  /** `io.Copy` from the reader into the hasher. */
  method CopyInto(hasher: BlockHasher, lr: Reader) returns (err: Error)
    requires hasher.Valid() && lr.Valid() && lr.pending.end == EOF
    requires hasher !in lr.Repr && hasher.currentHash !in lr.Repr
    modifies hasher, hasher.currentHash, lr.Repr
    ensures hasher.Valid() && hasher.closed == old(hasher.closed)
    ensures err == Nil ==> hasher.data == old(hasher.data + lr.pending.data)
    ensures !old(lr.pending.faults) ==> err == Nil
  {
    hide Reader.Valid, BlockHasher.Valid;
    var readErr := Nil;
    ghost var all, first := hasher.data + lr.pending.data, lr.pending;
    while readErr == Nil
      invariant hasher.Valid() && lr.Valid() && hasher.closed == old(hasher.closed)
      invariant hasher !in lr.Repr && hasher.currentHash !in lr.Repr
      invariant fresh(lr.Repr - old(lr.Repr))
      invariant hasher.currentHash == old(hasher.currentHash) || fresh(hasher.currentHash)
      invariant hasher.data + lr.pending.data == all && lr.pending == first.(data := lr.pending.data)
      invariant readErr == EOF ==> lr.pending.data == []
      invariant readErr == Nil || readErr == EOF || first.faults
      decreases |lr.pending.data|, readErr == Nil
    {
      var some;
      some, readErr := ReadSome(lr);
      ConcatAssociates(hasher.data, some, lr.pending.data);
      var _ := hasher.Write(some);
    }
    err := if readErr == EOF then Nil else readErr;
  }

  // They agree.

  lemma {:induction false} RecordedIsDigests(h: Blake3, uploads: seq<Upload>, parts: seq<seq<Byte>>, size: nat)
    requires size > 0 && |uploads| == |parts|
    requires forall i :: 0 <= i < |uploads| ==> uploads[i].blockHashes == BlockSums(h, parts[i], size)
    ensures Flatten(Recorded(uploads)) == Flatten(Digests(h, PartBlocks(parts, size)))
  {
    if uploads != [] {
      RecordedIsDigests(h, uploads[1..], parts[1..], size);
      assert Recorded(uploads) == [uploads[0].blockHashes] + Recorded(uploads[1..]);
      var a, b := Blocks(parts[0], size), PartBlocks(parts[1..], size);
      DigestsConcat(h, a, b);
      FlattenAppend(Digests(h, a), Digests(h, b));
    }
  }

  /**
   If every part was hashed as it was uploaded and the parts are aligned, the hash of the commit is the one that
   reading the whole file back gives.
   */
  lemma CommitAgreesWithBackfill(h: Blake3, uploads: seq<Upload>, parts: seq<seq<Byte>>, size: nat)
    requires size > 0 && |uploads| == |parts| && Aligned(parts, size)
    requires forall i :: 0 <= i < |uploads| ==> uploads[i].blockHashes == BlockSums(h, parts[i], size)
    ensures h.digest(Flatten(Recorded(uploads))) == h.digest(BlockSums(h, Flatten(parts), size))
  {
    RecordedIsDigests(h, uploads, parts, size);
    PartsAgree(parts, size);
  }

  /** And only then: if they agree on parts that are not aligned, here are two messages with the same digest. */
  lemma MisalignedNeedsCollision(h: Blake3, uploads: seq<Upload>, parts: seq<seq<Byte>>, size: nat)
    returns (x: seq<Byte>, y: seq<Byte>)
    requires size > 0 && |uploads| == |parts| && !Aligned(parts, size)
    requires forall i :: 0 <= i < |uploads| ==> uploads[i].blockHashes == BlockSums(h, parts[i], size)
    requires h.digest(Flatten(Recorded(uploads))) == h.digest(BlockSums(h, Flatten(parts), size))
    ensures x != y && h.digest(x) == h.digest(y)
    ensures (x in PartBlocks(parts, size) && y in Blocks(Flatten(parts), size))
            || (x == Flatten(Recorded(uploads)) && y == BlockSums(h, Flatten(parts), size))
  {
    RecordedIsDigests(h, uploads, parts, size);
    PartsAgree(parts, size);
    var a, b := PartBlocks(parts, size), Blocks(Flatten(parts), size);
    x, y := Flatten(Digests(h, a)), Flatten(Digests(h, b));
    if x == y {
      DigestsParse(Digests(h, a), Digests(h, b));
      var i :| 0 <= i < |a| && a[i] != b[i];
      assert Digests(h, a)[i] == h.digest(a[i]) && Digests(h, b)[i] == h.digest(b[i]);
      x, y := a[i], b[i];
    }
  }

  /** Concatenated digests can be told apart again. */
  lemma {:induction false} DigestsParse(a: seq<seq<Byte>>, b: seq<seq<Byte>>)
    requires forall i :: 0 <= i < |a| ==> |a[i]| == 32
    requires forall i :: 0 <= i < |b| ==> |b[i]| == 32
    requires Flatten(a) == Flatten(b)
    ensures a == b
  {
    DigestsLength(a);
    DigestsLength(b);
    if a != [] {
      assert a[0] == Flatten(a)[..32] == Flatten(b)[..32] == b[0];
      assert Flatten(a[1..]) == Flatten(a)[32..] == Flatten(b)[32..] == Flatten(b[1..]);
      DigestsParse(a[1..], b[1..]);
      assert a == [a[0]] + a[1..] && b == [b[0]] + b[1..];
    }
  }

  lemma {:induction false} DigestsLength(a: seq<seq<Byte>>)
    requires forall i :: 0 <= i < |a| ==> |a[i]| == 32
    ensures |Flatten(a)| == 32 * |a|
  {
    if a != [] {
      DigestsLength(a[1..]);
    }
  }
}
