/** Opening a byte range of a stored object. */
module RangeOpeners {
  import opened ByteSources
  import opened Streams

  /** The stored bytes from `start` to `end` inclusive; nothing when the range is empty or leaves the object. */
  function Between(stored: seq<Byte>, start: nat, end: int): seq<Byte> {
    if start <= end < |stored| then stored[start..end + 1] else []
  }

  /**
   The callback a seeking decrypter opens its ciphertext with. `toEnd` openers read a negative limit as
   "to the end"; the one of internal/reader/reader.go leaves `end` at zero then. A `reliable` opener
   never fails and serves streams that never fail.
   */
  class RangeOpener {
    const stored: seq<Byte>
    const toEnd: bool
    const reliable: bool
    /** Whether a negative limit has ever been asked for. */
    ghost var negative: bool

    constructor (stored: seq<Byte>, toEnd: bool, reliable: bool)
      ensures this.stored == stored && this.toEnd == toEnd && this.reliable == reliable && !negative
    {
      this.stored, this.toEnd, this.reliable := stored, toEnd, reliable;
      negative := false;
    }

    function LastByte(offset: nat, limit: int): int {
      if limit >= 0 then
        (if |stored| - 1 < offset + limit - 1 then |stored| - 1 else offset + limit - 1)
      else if toEnd then |stored| - 1
      else 0
    }

    function Served(offset: nat, limit: int): seq<Byte> {
      Between(stored, offset, LastByte(offset, limit))
    }

    /** A stream of `c`, then `end`, is one that may be opened for the range: all of it or, after a failure, a part. */
    ghost predicate Delivers(offset: nat, limit: int, c: seq<Byte>, end: Error) {
      if end == EOF then c == Served(offset, limit) else !reliable && end.Fault? && c <= Served(offset, limit)
    }

    method Open(offset: nat, limit: int) returns (rc: ByteStream?, err: Error)
      modifies this
      ensures negative == (old(negative) || limit < 0)
      ensures rc == null <==> err != Nil
      ensures err != Nil ==> err.Fault? && !reliable
      ensures rc != null ==>
        && fresh(rc) && rc.Valid() && Delivers(offset, limit, rc.rest.data, rc.rest.end)
    {
      negative := negative || limit < 0;
      var fails, breaks, code := *, *, *;
      var bytes := Served(offset, limit);
      if !reliable && fails {
        return null, Fault(code);
      }
      err := Nil;
      if !reliable && breaks {
        var k :| 0 <= k <= |bytes|;
        // The fault may come with the last byte or in a call of its own.
        var eager := *;
        rc := new ByteStream(bytes[..k], Fault(code), eager);
      } else {
        rc := new ByteStream(bytes, EOF, true);
      }
    }
  }
}
