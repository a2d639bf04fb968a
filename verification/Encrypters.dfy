/** The encrypting reader of internal/crypt/cipher.go. */
module Encrypters {
  import opened BlockSizes
  import opened ByteSources
  import opened Ciphers
  import opened Nonces
  import opened Numbers
  import opened SealedBlocks
  import opened Streams

  class Encrypter {
    const source: ByteStream
    const cipher: Cipher
    var nonce: Nonce
    var buf: array?<Byte>
    var readBuf: array?<Byte>
    var bufIndex: nat
    var bufSize: nat
    var err: Error
    ghost var pending: Stream

    /** The buffers are held exactly while no error is set, and what is left is the rest of the encryption. */
    ghost predicate Valid()
      reads this, source, cipher, buf, readBuf
    {
      && cipher.Valid() && source.Valid()
      && pending == Stream(pending.data, source.rest.end, false, false)
      && (err == Nil ==>
            && buf != null && readBuf != null && buf != readBuf
            && buf in cipher.all - cipher.free && readBuf in cipher.all - cipher.free
            && bufIndex <= bufSize <= BLOCK_SIZE
            && pending.data == buf[bufIndex..bufSize] + SealBlocks(cipher.box, nonce, source.rest.data))
      && (err != Nil ==> buf == null && readBuf == null && pending.data == [] && err == pending.end)
    }

    constructor (source: ByteStream, cipher: Cipher, nonce: Nonce)
      requires source.Valid() && cipher.Valid()
      modifies cipher, cipher.all
      ensures Valid() && this.source == source && this.cipher == cipher && err == Nil
      ensures pending == Stream(Encrypted(cipher.box, nonce, source.rest.data), source.rest.end, false, false)
      ensures old(cipher.all) <= cipher.all && fresh(cipher.all - old(cipher.all))
    {
      this.source, this.cipher, this.nonce := source, cipher, nonce;
      buf, readBuf, bufIndex, bufSize, err := null, null, 0, HEADER_SIZE, Nil;
      pending := Stream(Encrypted(cipher.box, nonce, source.rest.data), source.rest.end, false, false);
      new;
      var b := cipher.GetBlock();
      var rb := cipher.GetBlock();
      buf, readBuf := b, rb;
      Fill(b, MAGIC + nonce);
    }

    /** Reads the next bytes of the encrypted stream. */
    method Read(p: array<Byte>) returns (n: nat, e: Error)
      requires Valid() && p !in cipher.all
      modifies this, source, cipher`free, cipher.all, p
      ensures Valid() && n <= p.Length
      ensures StreamRead(old(pending), p.Length, p[..n], e, pending)
      ensures e == err && (old(err) != Nil ==> err == old(err))
      ensures cipher.free
              == if old(err) == Nil && err != Nil then old(cipher.free + {buf, readBuf}) else old(cipher.free)
    {
      if err == Nil && bufIndex >= bufSize {
        SealNext();
      }
      if err != Nil {
        n, e := 0, err;
      } else {
        n := Deliver(p);
        e := Nil;
      }
    }

    /** Copies what fits out of the nonempty buffer. */
    method Deliver(p: array<Byte>) returns (n: nat)
      requires Valid() && err == Nil && bufIndex < bufSize && p !in cipher.all
      modifies this`bufIndex, this`pending, p
      ensures Valid() && err == Nil
      ensures n <= p.Length && StreamRead(old(pending), p.Length, p[..n], Nil, pending)
    {
      n := Copy(p, buf, bufIndex, bufSize);
      assert buf[bufIndex..bufSize] == p[..n] + buf[bufIndex + n..bufSize];
      bufIndex := bufIndex + n;
      pending := pending.(data := pending.data[n..]);
    }

    /** Seals the next block of plaintext into the empty buffer, or finishes when there is none. */
    method SealNext()
      requires Valid() && err == Nil && bufIndex == bufSize
      modifies this, source, cipher`free, cipher.all
      ensures Valid() && pending == old(pending)
      ensures err == Nil ==> bufIndex < bufSize && buf == old(buf) && readBuf == old(readBuf)
      ensures cipher.free
              == if old(err) == Nil && err != Nil then old(cipher.free + {buf, readBuf}) else old(cipher.free)
    {
      hide Value, Pow256;
      ghost var data := source.rest.data;
      assert buf[bufIndex..bufSize] == [];
      var m, readErr := ReadFill(source, readBuf, BLOCK_DATA_SIZE);
      if m == 0 {
        Finish(readErr);
      } else {
        assert data[..m] == readBuf[..m] && data[m..] == source.rest.data;
        assert Min(|data|, BLOCK_DATA_SIZE) == m;
        var sealed := cipher.box.seal(readBuf[..m], nonce);
        Fill(buf, sealed);
        bufIndex, bufSize := 0, OVERHEAD + m;
        nonce := Increment(nonce);
        assert buf[bufIndex..bufSize] == sealed;
      }
    }

    /** Records the error and gives both buffers back. */
    method Finish(e: Error)
      requires cipher.Valid() && err == Nil && e != Nil && e == pending.end
      requires pending == Stream([], source.rest.end, false, false) && source.Valid()
      requires buf != null && readBuf != null && buf != readBuf
      requires buf in cipher.all - cipher.free && readBuf in cipher.all - cipher.free
      modifies this, cipher`free
      ensures Valid() && err == e && pending == old(pending)
      ensures cipher.free == old(cipher.free) + {old(buf), old(readBuf)}
    {
      err := e;
      cipher.PutBlock(buf);
      buf := null;
      cipher.PutBlock(readBuf);
      readBuf := null;
    }
  }
}
