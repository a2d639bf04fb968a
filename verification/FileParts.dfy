/**
 From the part list of a file to what is stored: `GetMessages` of internal/tgc/helpers.go, which asks for messages
 in concurrent batches, and `getParts` of pkg/services/common.go.
 */
module FileParts {
  import opened BlockSizes
  import opened FileReaders
  import opened Nonces
  import opened PartRanges
  import opened SealedBlocks
  import opened Sequences
  import opened StoredFiles
  import opened Streams

  const BATCH_SIZE := 100

  /** A message carries a document of some size, or it is of no use here. */
  datatype Message = Document(size: nat) | NoDocument

  datatype Reply = Messages(messages: seq<Message>) | Refused

  /** Telegram: what it replies to a batch of ids. */
  type Channel = seq<int> -> Reply

  /** The `i`-th batch. */
  function Batch(ids: seq<int>, i: nat): seq<int>
    requires i * BATCH_SIZE <= |ids|
  {
    ids[i * BATCH_SIZE..if (i + 1) * BATCH_SIZE < |ids| then (i + 1) * BATCH_SIZE else |ids|]
  }

  function BatchCount(ids: seq<int>): nat {
    (|ids| + BATCH_SIZE - 1) / BATCH_SIZE
  }

  /** Batches of one hundred ids, the last one maybe smaller, that together are all of them. */
  lemma BatchesAre(ids: seq<int>, i: nat)
    ensures (BatchCount(ids) - 1) * 100 < |ids| <= BatchCount(ids) * 100 || ids == []
    ensures i < BatchCount(ids) ==>
      i * 100 <= |ids| && Batch(ids, i) == ids[i * 100..if (i + 1) * 100 < |ids| then (i + 1) * 100 else |ids|]
  {
  }

  predicate IsBatch(ids: seq<int>, i: int) {
    0 <= i < BatchCount(ids)
  }

  /** The replies to the first `k` batches, in order. */
  function InOrder(ids: seq<int>, channel: Channel, k: nat): seq<Message>
    requires k <= BatchCount(ids)
  {
    if k == 0 then []
    else
      var reply := channel(Batch(ids, k - 1));
      InOrder(ids, channel, k - 1) + (if reply.Messages? then reply.messages else [])
  }

  /**
   The batches are fetched concurrently and finish in any order; the messages come out in the order of the ids. If
   any batch is refused there is no result.
   */
  method GetMessages(ids: seq<int>, channel: Channel) returns (ok: bool, all: seq<Message>)
    ensures ok <==> forall i :: IsBatch(ids, i) ==> channel(Batch(ids, i)).Messages?
    ensures ok ==> all == InOrder(ids, channel, BatchCount(ids))
  {
    var batchCount := BatchCount(ids);
    var messageMap: map<int, seq<Message>> := map[];
    var running := set i | 0 <= i < batchCount && IsBatch(ids, i);
    while running != {}
      invariant forall i :: i in running ==> IsBatch(ids, i)
      invariant forall i :: IsBatch(ids, i) && i !in running ==>
        i in messageMap && channel(Batch(ids, i)) == Messages(messageMap[i])
      decreases running
    {
      var i :| i in running;
      match channel(Batch(ids, i)) {
        case Refused => return false, [];
        case Messages(messages) => messageMap := messageMap[i := messages];
      }
      running := running - {i};
    }
    all := [];
    for i := 0 to batchCount
      invariant all == InOrder(ids, channel, i)
    {
      assert IsBatch(ids, i);
      all := all + messageMap[i];
    }
    ok := true;
  }

  /** A channel that replies with one message for each id, the same one in every batch. */
  ghost predicate Answers(channel: Channel, message: int -> Message) {
    forall batch {:trigger channel(batch)} :: channel(batch) == Messages(Each(batch, message))
  }

  function Each(ids: seq<int>, message: int -> Message): seq<Message> {
    seq(|ids|, i requires 0 <= i < |ids| => message(ids[i]))
  }

  lemma {:induction false} InOrderIsEach(ids: seq<int>, channel: Channel, message: int -> Message, k: nat)
    requires Answers(channel, message) && k <= BatchCount(ids)
    ensures InOrder(ids, channel, k) == Each(ids[..if k * BATCH_SIZE < |ids| then k * BATCH_SIZE else |ids|], message)
  {
    if k > 0 {
      InOrderIsEach(ids, channel, message, k - 1);
      var batch := Batch(ids, k - 1);
      assert channel(batch) == Messages(Each(batch, message));
    }
  }

  /** With such a channel, the result is the message of each id, in the order of the ids. */
  lemma MessagesInOrder(ids: seq<int>, channel: Channel, message: int -> Message)
    requires Answers(channel, message)
    ensures InOrder(ids, channel, BatchCount(ids)) == Each(ids, message)
  {
    InOrderIsEach(ids, channel, message, BatchCount(ids));
    assert ids[..|ids|] == ids;
  }

  /** An entry of the part list. */
  datatype FilePart = FilePart(id: int, salt: string)

  function PartOf(p: FilePart, size: nat, encrypted: bool): Part {
    var plain := DecryptedSize(size);
    Part(p.id, size, if encrypted && plain.Size? then plain.value else 0, p.salt)
  }

  /** No message past the end of the list has a document; one that has is an index out of range. */
  predicate InRange(listed: seq<FilePart>, messages: seq<Message>, k: nat)
    requires k <= |messages|
  {
    forall i :: |listed| <= i < k ==> messages[i].NoDocument?
  }

  lemma PartsAre(listed: seq<FilePart>, messages: seq<Message>, encrypted: bool)
    ensures forall i :: 0 <= i < |listed| && i < |messages| && messages[i].Document? ==>
              var size, part := messages[i].size, PartOf(listed[i], messages[i].size, encrypted);
              && part.id == listed[i].id && part.salt == listed[i].salt && part.size == size
              && (encrypted && DecryptedSize(size).Size? ==> DecryptedSize(size) == Size(part.decryptedSize))
  {
  }

  /** The descriptions that the first `k` messages give, message by message, for the parts of the same position. */
  function Described(listed: seq<FilePart>, messages: seq<Message>, encrypted: bool, k: nat): seq<Part>
    requires k <= |messages| && InRange(listed, messages, k)
  {
    if k == 0 then []
    else
      Described(listed, messages, encrypted, k - 1)
      + (if messages[k - 1].Document? then [PartOf(listed[k - 1], messages[k - 1].size, encrypted)] else [])
  }

  lemma {:induction false} DescribedAll(listed: seq<FilePart>, messages: seq<Message>, encrypted: bool, k: nat)
    requires k <= |listed| && k <= |messages|
    ensures var parts := Described(listed, messages, encrypted, k);
            && |parts| <= k && (|parts| == k <==> forall i :: 0 <= i < k ==> messages[i].Document?)
            && (|parts| == k ==>
                  forall i :: 0 <= i < k ==> parts[i] == PartOf(listed[i], messages[i].size, encrypted))
  {
    hide PartOf;
    if k > 0 {
      DescribedAll(listed, messages, encrypted, k - 1);
    }
  }

  lemma {:induction false} NothingPastList(listed: seq<FilePart>, messages: seq<Message>, encrypted: bool, k: nat)
    requires |listed| <= k <= |messages| && InRange(listed, messages, k)
    ensures Described(listed, messages, encrypted, k) == Described(listed, messages, encrypted, |listed|)
  {
    if k > |listed| {
      NothingPastList(listed, messages, encrypted, k - 1);
    }
  }

  /** As many descriptions as parts come of it only if exactly the messages of the parts have documents. */
  lemma CountTells(listed: seq<FilePart>, messages: seq<Message>, encrypted: bool)
    requires InRange(listed, messages, |messages|)
    ensures var parts := Described(listed, messages, encrypted, |messages|);
            && (|parts| == |listed| <==>
                  |messages| >= |listed| && forall i :: 0 <= i < |listed| ==> messages[i].Document?)
            && (|parts| == |listed| ==>
                  forall i :: 0 <= i < |listed| ==> parts[i] == PartOf(listed[i], messages[i].size, encrypted))
  {
    hide PartOf;
    if |messages| >= |listed| {
      NothingPastList(listed, messages, encrypted, |messages|);
      DescribedAll(listed, messages, encrypted, |listed|);
    } else {
      DescribedAll(listed, messages, encrypted, |messages|);
    }
  }

  /** `OutOfRange` is an index out of range: the call panics. */
  datatype PartsResult = Parts(parts: seq<Part>) | Mismatch | FetchFailed | OutOfRange

  function IdsOf(listed: seq<FilePart>): seq<int> {
    seq(|listed|, i requires 0 <= i < |listed| => listed[i].id)
  }

  /** All that the channel replies, batch after batch. */
  function Replies(listed: seq<FilePart>, channel: Channel): seq<Message> {
    InOrder(IdsOf(listed), channel, BatchCount(IdsOf(listed)))
  }

  /**
   Describes every part by the message of its position. There is a result if and only if no batch is refused and exactly
   the messages of the parts have documents.
   */
  method GetParts(listed: seq<FilePart>, encrypted: bool, channel: Channel) returns (r: PartsResult)
    ensures r.FetchFailed? <==> exists i :: IsBatch(IdsOf(listed), i) && channel(Batch(IdsOf(listed), i)).Refused?
    ensures var messages := Replies(listed, channel);
            && (!r.FetchFailed? ==> (r.OutOfRange? <==> !InRange(listed, messages, |messages|)))
            && (!r.FetchFailed? ==>
                  (r.Parts? <==>
                     && |messages| >= |listed|
                     && forall i :: 0 <= i < |messages| ==> (messages[i].Document? <==> i < |listed|)))
            && (r.Parts? ==>
                  && |r.parts| == |listed|
                  && forall i :: 0 <= i < |listed| ==>
                       && r.parts[i].id == listed[i].id && r.parts[i].salt == listed[i].salt
                       && r.parts[i].size == messages[i].size
                       && (encrypted && DecryptedSize(messages[i].size).Size? ==>
                             DecryptedSize(messages[i].size) == Size(r.parts[i].decryptedSize)))
  {
    hide PartOf, InOrder, Described;
    var fetched, messages := GetMessages(IdsOf(listed), channel);
    if !fetched {
      return FetchFailed;
    }
    var panics, parts := Collect(listed, messages, encrypted);
    if panics {
      return OutOfRange;
    }
    CountTells(listed, messages, encrypted);
    PartsAre(listed, messages, encrypted);
    r := if |parts| == |listed| then Parts(parts) else Mismatch;
  }

  /** The loop of `getParts`. */
  method Collect(listed: seq<FilePart>, messages: seq<Message>, encrypted: bool)
    returns (panics: bool, parts: seq<Part>)
    ensures panics <==> !InRange(listed, messages, |messages|)
    ensures !panics ==> parts == Described(listed, messages, encrypted, |messages|)
  {
    hide PartOf;
    panics, parts := false, [];
    for i := 0 to |messages|
      invariant InRange(listed, messages, i) && parts == Described(listed, messages, encrypted, i)
    {
      match messages[i]
      case NoDocument =>
      case Document(size) =>
        if i >= |listed| {
          return true, [];
        }
        parts := parts + [PartOf(listed[i], size, encrypted)];
    }
  }

  /** If every batch is answered with one message for each id, each part is described by its own message. */
  lemma EachByItsOwn(listed: seq<FilePart>, channel: Channel, message: int -> Message)
    requires Answers(channel, message)
    ensures var messages := Replies(listed, channel);
            |messages| == |listed| && forall i :: 0 <= i < |listed| ==> messages[i] == message(listed[i].id)
  {
    MessagesInOrder(IdsOf(listed), channel, message);
  }

  /**
   Descriptions made from the sizes of what is stored have the plaintext sizes right, so that the file they make up is
   one a reader can be made for if and only if its decrypted parts are even.
   */
  lemma DescribedIsValid(listed: seq<FilePart>, encrypted: bool, stored: seq<seq<Byte>>, boxes: string -> Box)
    requires |stored| == |listed| && forall i :: 0 <= i < |stored| ==> |stored[i]| < 0x8000_0000_0000_0000
    requires encrypted ==> forall i :: 0 <= i < |stored| ==> WellFormed(stored[i])
    ensures var parts := seq(|listed|, i requires 0 <= i < |listed| => PartOf(listed[i], |stored[i]|, encrypted));
            var file := StoredFile(encrypted, parts, stored, boxes);
            && |file.PlainParts()| == |listed| && (forall i :: 0 <= i < |parts| ==> file.PartValid(i))
            && (file.Valid() <==>
                  && listed != [] && file.PlainPart(0) != []
                  && (forall i :: 0 <= i < |parts| - 1 ==> |file.PlainPart(i)| == |file.PlainPart(0)|)
                  && |file.PlainPart(|parts| - 1)| <= |file.PlainPart(0)|)
  {
    var parts := seq(|listed|, i requires 0 <= i < |listed| => PartOf(listed[i], |stored[i]|, encrypted));
    var file := StoredFile(encrypted, parts, stored, boxes);
    forall i | 0 <= i < |parts| ensures file.PartValid(i) {
    }
    if listed != [] {
      PlainPartSize(file, 0);
      assert forall i :: 0 <= i < |parts| ==> file.PlainParts()[i] == file.PlainPart(i);
    }
  }

  /**
   From upload to download: parts of one size, the last one maybe shorter, each as it is or encrypted under the key of
   its own salt. Whatever range is read of the file they make up, it comes out as it went in.
   */
  method ReadUploaded(boxes: string -> Box, listed: seq<FilePart>, nonces: seq<Nonce>, plain: seq<seq<Byte>>,
                      encrypted: bool, start: nat, end: nat, concurrency: nat, buffers: nat)
    returns (out: seq<Byte>, err: Error)
    requires |listed| == |nonces| == |plain| > 0 && concurrency >= 1 && start <= end < |Flatten(plain)|
    requires forall i :: 0 <= i < |plain| - 1 ==> |plain[i]| == |plain[0]|
    requires 0 < |plain[0]| < 0x4000_0000_0000_0000 && |plain[|plain| - 1]| <= |plain[0]|
    ensures err == EOF && out == Flatten(plain)[start..end + 1]
  {
    var stored := Stored(boxes, listed, nonces, plain, encrypted);
    var parts := seq(|listed|, i requires 0 <= i < |listed| => PartOf(listed[i], |stored[i]|, encrypted));
    var file := StoredFile(encrypted, parts, stored, boxes);
    UploadedIsValid(boxes, listed, nonces, plain, encrypted);
    hide StoredFile.Valid, StoredFile.Content;
    out, err := ReadRange(file, start, end, concurrency, buffers, true);
  }

  function Stored(boxes: string -> Box, listed: seq<FilePart>, nonces: seq<Nonce>, plain: seq<seq<Byte>>,
                  encrypted: bool): seq<seq<Byte>>
    requires |listed| == |nonces| == |plain|
  {
    seq(|plain|, i requires 0 <= i < |plain| =>
          if encrypted then Encrypted(boxes(listed[i].salt), nonces[i], plain[i]) else plain[i])
  }

  lemma UploadedIsValid(boxes: string -> Box, listed: seq<FilePart>, nonces: seq<Nonce>, plain: seq<seq<Byte>>,
                        encrypted: bool)
    requires |listed| == |nonces| == |plain| > 0
    requires forall i :: 0 <= i < |plain| - 1 ==> |plain[i]| == |plain[0]|
    requires 0 < |plain[0]| < 0x4000_0000_0000_0000 && |plain[|plain| - 1]| <= |plain[0]|
    ensures var stored := Stored(boxes, listed, nonces, plain, encrypted);
            var parts := seq(|listed|, i requires 0 <= i < |listed| => PartOf(listed[i], |stored[i]|, encrypted));
            var file := StoredFile(encrypted, parts, stored, boxes);
            file.Valid() && file.Content() == Flatten(plain)
  {
    var stored := Stored(boxes, listed, nonces, plain, encrypted);
    var parts := seq(|listed|, i requires 0 <= i < |listed| => PartOf(listed[i], |stored[i]|, encrypted));
    var file := StoredFile(encrypted, parts, stored, boxes);
    forall i | 0 <= i < |plain|
      ensures |stored[i]| < 0x8000_0000_0000_0000 && (encrypted ==> WellFormed(stored[i]))
    {
      StoredFits(boxes(listed[i].salt), nonces[i], plain[i]);
    }
    UploadedContent(boxes, listed, nonces, plain, encrypted);
    hide StoredFile.PlainPart, StoredFile.PlainParts, StoredFile.Valid, WellFormed, PartOf, Encrypted, Stored;
    DescribedIsValid(listed, encrypted, stored, boxes);
  }

  lemma UploadedContent(boxes: string -> Box, listed: seq<FilePart>, nonces: seq<Nonce>, plain: seq<seq<Byte>>,
                        encrypted: bool)
    requires |listed| == |nonces| == |plain|
    ensures var stored := Stored(boxes, listed, nonces, plain, encrypted);
            var parts := seq(|listed|, i requires 0 <= i < |listed| => PartOf(listed[i], |stored[i]|, encrypted));
            var file := StoredFile(encrypted, parts, stored, boxes);
            && file.Content() == Flatten(plain)
            && forall i :: 0 <= i < |plain| ==> file.PlainPart(i) == plain[i]
  {
    var stored := Stored(boxes, listed, nonces, plain, encrypted);
    var parts := seq(|listed|, i requires 0 <= i < |listed| => PartOf(listed[i], |stored[i]|, encrypted));
    var file := StoredFile(encrypted, parts, stored, boxes);
    hide Encrypted, Flatten, StoredFile.PlainPart, StoredFile.Content;
    if encrypted {
      ContentOfSealed(file, nonces, plain);
    } else {
      assert stored == plain;
      ContentOfPlain(file);
    }
    forall i | 0 <= i < |plain| ensures file.PlainPart(i) == plain[i] {
      assert file.PlainParts()[i] == file.PlainPart(i);
    }
  }

  lemma StoredFits(box: Box, n: Nonce, p: seq<Byte>)
    requires |p| < 0x4000_0000_0000_0000
    ensures |Encrypted(box, n, p)| < 0x8000_0000_0000_0000 && WellFormed(Encrypted(box, n, p))
  {
    DecryptEncrypted(box, n, p);
  }
}
