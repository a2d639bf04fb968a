/** The readers this project is handed from outside, and the fill loop that is built on them. */
module ByteSources {
  import opened Streams

  /**
   An open `io.ReadCloser` about which nothing is known but the contract of `Read`. `rest.data` is
   what it is going to deliver and `rest.end` the error it then repeats, so an `end` that is a `Fault`
   stands for a source that breaks off there. How many bytes each call hands out is left open.
   */
  class ByteStream {
    ghost var rest: Stream
    var bytes: seq<Byte>
    var end: Error
    const eager: bool

    ghost predicate Valid()
      reads this
    {
      rest == Stream(bytes, end, false, eager) && end != Nil
    }

    constructor (bytes: seq<Byte>, end: Error, eager: bool)
      requires end != Nil
      ensures Valid() && rest == Stream(bytes, end, false, eager)
    {
      this.bytes, this.end, this.eager := bytes, end, eager;
      rest := Stream(bytes, end, false, eager);
    }

    /** Reads into `p[from..to]`. */
    method Read(p: array<Byte>, from: nat, to: nat) returns (n: nat, err: Error)
      requires Valid() && from <= to <= p.Length
      modifies this, p
      ensures Valid() && n <= to - from
      ensures StreamRead(old(rest), to - from, p[from..from + n], err, rest)
      ensures p[..from] == old(p[..from])
    {
      var least := if to == from || bytes == [] then 0 else 1;
      n :| least <= n <= to - from && n <= |bytes|;
      forall i | 0 <= i < n {
        p[from + i] := bytes[i];
      }
      assert p[from..from + n] == bytes[..n] && bytes == bytes[..n] + bytes[n..];
      bytes := bytes[n..];
      rest := rest.(data := bytes);
      err := Nil;
      if bytes == [] {
        var late := *;
        if (n == 0 && to > from) || eager || late {
          err := end;
        }
      }
    }
  }

  /** Reads until `buf[..len]` is full or the source reports an error. */
  method ReadFill(r: ByteStream, buf: array<Byte>, len: nat) returns (n: nat, err: Error)
    requires r.Valid() && len <= buf.Length
    modifies r, buf
    ensures r.Valid() && n <= len
    ensures n <= |old(r.rest).data| && buf[..n] == old(r.rest).data[..n]
    ensures r.rest == old(r.rest).(data := old(r.rest).data[n..])
    ensures n < len ==> err != Nil
    ensures err != Nil ==> err == r.rest.end && r.rest.data == []
  {
    n, err := 0, Nil;
    ghost var first := r.rest;
    assert first == first.(data := first.data[0..]);
    while n < len && err == Nil
      invariant r.Valid() && n <= len && n <= |first.data|
      invariant buf[..n] == first.data[..n] && r.rest == first.(data := first.data[n..])
      invariant err != Nil ==> err == r.rest.end && r.rest.data == []
      decreases len - n, err == Nil
    {
      n, err := ReadMore(r, buf, n, len, first);
    }
  }

  /** One turn of the loop. */
  method ReadMore(r: ByteStream, buf: array<Byte>, n: nat, len: nat, ghost first: Stream) returns (m: nat, err: Error)
    requires r.Valid() && n < len <= buf.Length && n <= |first.data|
    requires buf[..n] == first.data[..n] && r.rest == first.(data := first.data[n..])
    modifies r, buf
    ensures r.Valid() && n <= m <= len && m <= |first.data|
    ensures buf[..m] == first.data[..m] && r.rest == first.(data := first.data[m..])
    ensures if err == Nil then n < m else err == r.rest.end && r.rest.data == []
  {
    var nn;
    nn, err := r.Read(buf, n, len);
    m := n + nn;
    assert buf[..m][..n] == buf[..n] && buf[..m][n..] == buf[n..m];
    NextPrefix(first.data, n, buf[..m], nn);
  }

  lemma NextPrefix(data: seq<Byte>, n: nat, filled: seq<Byte>, nn: nat)
    requires n + nn <= |data| && |filled| == n + nn
    requires filled[..n] == data[..n] && filled[n..] == data[n..][..nn]
    ensures filled == data[..n + nn] && data[n..][nn..] == data[n + nn..]
  {
    assert filled == filled[..n] + filled[n..];
    assert data[..n + nn] == data[..n] + data[n..][..nn];
  }
}
