/**
 What an `io.Reader` owes its caller, written once and met by every reader of this project: the
 encrypter, the decrypter, the chunked range reader and the file reader.
 */
module Streams {

  type Byte = x: int | 0 <= x < 256

  /** An error result; `Nil` is "no error". `Fault` is any failure of the network below. */
  datatype Error =
    | Nil
    | EOF
    | TooShort
    | BadHeader
    | BadMagic
    | FileClosed
    | BadSeek
    | NoSeeker
    | BadWhence
    | Fault(code: int)

  /**
   What a reader still holds.
   `data` is what is left to deliver and `end` the error that follows it. When `faults` is set the
   reader may give up before that. An `eager` reader reports `end` together with the
   last byte, never in a call of its own.
   */
  datatype Stream = Stream(data: seq<Byte>, end: Error, faults: bool, eager: bool)

  /** A failure of the network, or what a reader says that was closed after one. */
  predicate GaveUp(err: Error) {
    err.Fault? || err == FileClosed
  }

  /**
   One `Read` into a buffer of `cap` bytes. The reader may return fewer bytes than asked, but it
   delivers them in order, it does not stall, and it reports an error only at the end or on a fault.
   */
  ghost predicate StreamRead(before: Stream, cap: nat, out: seq<Byte>, err: Error, after: Stream) {
    && |out| <= cap
    && before.data == out + after.data
    && after == before.(data := after.data)
    && (err == Nil && cap > 0 ==> out != [])
    && (err == Nil && before.eager && before.data != [] ==> after.data != [])
    && (err != Nil ==>
          || (after.data == [] && err == before.end)
          || (before.faults && GaveUp(err)))
  }

  /**
   Whoever is due `due` is served by a reader of `s`: it is the same, or it gives up somewhere on the way, which
   must be allowed.
   */
  ghost predicate Serves(s: Stream, due: Stream) {
    || (s == due.(faults := s.faults) && (s.faults ==> due.faults))
    || (due.faults && GaveUp(s.end) && s.data <= due.data && (due.eager ==> |s.data| < |due.data|))
  }

  /** An end serves whoever is due it, where a fault is allowed or not. */
  lemma ServesEnd(end: Error, faults: bool)
    ensures Serves(Stream([], end, false, false), Stream([], end, faults, false))
  {
  }

  lemma ServesRead(s: Stream, due: Stream, cap: nat, out: seq<Byte>, err: Error, after: Stream)
    requires Serves(s, due) && StreamRead(s, cap, out, err, after)
    ensures |out| <= |due.data|
    ensures var rest := due.(data := due.data[|out|..]);
            StreamRead(due, cap, out, err, rest) && Serves(after, rest)
  {
    FrontOff(s.data, due.data, out, after.data);
  }

  lemma FrontOff(s: seq<Byte>, due: seq<Byte>, out: seq<Byte>, after: seq<Byte>)
    requires s <= due && s == out + after
    ensures |out| <= |due| && due == out + due[|out|..] && after <= due[|out|..]
    ensures s == due ==> after == due[|out|..]
  {
    assert due == out + (after + due[|s|..]);
  }

  /** One call as the caller saw it. */
  datatype Call = Call(cap: nat, out: seq<Byte>, err: Error)

  /** `calls` is a sequence of reads that takes the stream from `first` to `last`. */
  ghost predicate Run(first: Stream, calls: seq<Call>, last: Stream)
    decreases |calls|
  {
    if calls == [] then first == last
    else
      exists middle :: StreamRead(first, calls[0].cap, calls[0].out, calls[0].err, middle)
                       && Run(middle, calls[1..], last)
  }

  function Delivered(calls: seq<Call>): seq<Byte> {
    if calls == [] then [] else calls[0].out + Delivered(calls[1..])
  }

  /** Whatever the buffer sizes and however short the reads, the bytes come in order and without gaps. */
  lemma {:induction false} RunDelivers(first: Stream, calls: seq<Call>, last: Stream)
    requires Run(first, calls, last)
    ensures first.data == Delivered(calls) + last.data
    ensures last == first.(data := last.data)
    decreases |calls|
  {
    if calls != [] {
      var middle :| StreamRead(first, calls[0].cap, calls[0].out, calls[0].err, middle)
                    && Run(middle, calls[1..], last);
      RunDelivers(middle, calls[1..], last);
    }
  }

  /** The end of the stream is reported only once everything has been delivered. */
  lemma {:induction false} EndMeansAll(first: Stream, calls: seq<Call>, last: Stream)
    requires Run(first, calls, last)
    requires calls != [] && calls[|calls| - 1].err == EOF
    ensures first.end == EOF && Delivered(calls) == first.data
    decreases |calls|
  {
    var middle :| StreamRead(first, calls[0].cap, calls[0].out, calls[0].err, middle)
                  && Run(middle, calls[1..], last);
    RunDelivers(middle, calls[1..], last);
    if |calls| > 1 {
      EndMeansAll(middle, calls[1..], last);
    }
  }

  /** Reading with nonempty buffers reaches an error: a stream of n bytes gives at most n clean reads. */
  lemma {:induction false} RunEnds(first: Stream, calls: seq<Call>, last: Stream)
    requires Run(first, calls, last)
    requires forall i :: 0 <= i < |calls| ==> calls[i].cap > 0 && calls[i].err == Nil
    ensures |calls| + |last.data| <= |first.data|
    decreases |calls|
  {
    if calls != [] {
      var middle :| StreamRead(first, calls[0].cap, calls[0].out, calls[0].err, middle)
                    && Run(middle, calls[1..], last);
      RunEnds(middle, calls[1..], last);
    }
  }

  /** No call but the last reports an error. */
  ghost predicate FirstError(calls: seq<Call>) {
    forall i :: 0 <= i < |calls| - 1 ==> calls[i].err == Nil
  }

  /** An end of file is told again and again, and nothing is asked of the reader after a fault. */
  ghost predicate UpToFault(calls: seq<Call>) {
    && (forall i :: 0 <= i < |calls| - 1 ==> calls[i].err == Nil || calls[i].err == EOF)
    && (forall i, j :: 0 <= i < j < |calls| && calls[i].err == EOF ==> calls[j].err == EOF)
  }

  /** A run that ends when the reader gives up is one of a reader that was going to break off just there. */
  lemma {:induction false} BrokenRun(first: Stream, calls: seq<Call>, last: Stream)
    requires Run(first, calls, last) && FirstError(calls) && calls != [] && GaveUp(calls[|calls| - 1].err)
    ensures var end := calls[|calls| - 1].err;
            Run(Stream(Delivered(calls), end, false, false), calls, Stream([], end, false, false))
    decreases |calls|
  {
    var middle :| StreamRead(first, calls[0].cap, calls[0].out, calls[0].err, middle)
                  && Run(middle, calls[1..], last);
    var end, rest := calls[|calls| - 1].err, calls[1..];
    var before, after := Stream(Delivered(calls), end, false, false), Stream(Delivered(rest), end, false, false);
    if rest != [] {
      forall i | 0 <= i < |rest| - 1 ensures rest[i].err == Nil {
        assert rest[i] == calls[i + 1];
      }
      BrokenRun(middle, rest, last);
    }
    assert StreamRead(before, calls[0].cap, calls[0].out, calls[0].err, after);
  }

  /** A run in which the reader does not give up is one of a reader that never would. */
  lemma {:induction false} UnbrokenRun(first: Stream, calls: seq<Call>, last: Stream)
    requires Run(first, calls, last) && forall i :: 0 <= i < |calls| ==> !GaveUp(calls[i].err)
    ensures Run(first.(faults := false), calls, last.(faults := false))
    decreases |calls|
  {
    if calls != [] {
      var middle :| StreamRead(first, calls[0].cap, calls[0].out, calls[0].err, middle)
                    && Run(middle, calls[1..], last);
      UnbrokenRun(middle, calls[1..], last);
      assert StreamRead(first.(faults := false), calls[0].cap, calls[0].out, calls[0].err, middle.(faults := false));
    }
  }

  /** A reader gives up only if it may. */
  lemma {:induction false} FaultsAllowed(first: Stream, calls: seq<Call>, last: Stream)
    requires Run(first, calls, last) && !GaveUp(first.end) && exists i :: 0 <= i < |calls| && GaveUp(calls[i].err)
    ensures first.faults
    decreases |calls|
  {
    var middle :| StreamRead(first, calls[0].cap, calls[0].out, calls[0].err, middle)
                  && Run(middle, calls[1..], last);
    if !GaveUp(calls[0].err) {
      var i :| 0 <= i < |calls| && GaveUp(calls[i].err);
      assert calls[1..][i - 1] == calls[i];
      FaultsAllowed(middle, calls[1..], last);
    }
  }
}
