# Teldrive: the streaming read path, block hashing and the drive tree

Teldrive stores files as Telegram messages. This project models the parts of it that have to be exactly right and
proves them against what they are for. `dafny verify dfyconfig.toml` checks the whole project.

**The read path.** A stored file is a list of parts, each one message, possibly encrypted in 64 KiB secretbox blocks
behind a 34-byte header. A ranged read goes through a file reader (`FileReaders`), which maps the range to ranges of
parts (`PartRanges`), a decrypter (`Decrypters`, `DecrypterOpening`), which maps a plaintext range to ciphertext
blocks by nonce and offset arithmetic (`BlockSizes`, `Nonces`, `SeekWindows`), and a chunked reader (`RangeReaders`),
whose producer fetches aligned chunks in concurrent batches and hands them over a bounded channel (`ChunkLayout`,
`RangeFetching`). Each reader is a class that updates its fields as the original does. What an `io.Reader` owes its
caller is written once, in `Streams`: a ghost stream says what is still to come, and every `Read` keeps `StreamRead`.
The classes are proved against pure functions of the stored bytes (`SealedBlocks`), and these against each other:
random access is slicing, encrypting and decrypting is the identity, a damaged block stays one block, a ciphertext
that breaks off gives a prefix. `FileReaders.ReadRange` is the end-to-end result, `FileParts.ReadUploaded` the same
from upload to download, `RangeReaders.EveryRunIsSafe` and `ReliableRunCompletes` are the ones about all
interleavings. `HttpRanges` says which ranges a client can ask for, `FileParts` how the part list is read.

**Block hashing.** `BlockHashers` is the 16 MiB block hasher, `TreeHashes` the two ways a file gets its content hash.
They agree on parts that end at block boundaries, and only on those.

**The drive tree.** The files table is a map from id to row and each SQL statement is its effect on that map
(`DriveTables`, `DriveDeletes`, `DriveMoves`, `DriveCollect`, `DrivePaths`, `Paths`).

**Dedup and pages.** `Dedup` is the linking of duplicates to one copy, `Pagination` the keyset query and what a page
by number is.

What is not known is a parameter: secretbox is any pair of functions that open what they sealed and add 16 bytes,
BLAKE3 any function with 32-byte digests, key derivation any function from salts, Telegram any channel of messages.
Short reads, goroutine scheduling, failing fetches, lock errors and row order are nondeterministic.

## Where the code does less than one might expect

- Moving an active item onto its own place under its own name deletes it (`DriveMoves.MoveOntoItselfDeletes`), and a
  source inside what it displaces is deleted with it unless it goes over with its children (`SourceSurvives`).
- Moves have no cycle check: `RenameMoveKeepsTree` and `MoveManyKeepsTree` say exactly when a move keeps the tree, and
  `DriveDeletes.QueryEnds` that a delete above a cycle does not end.
- A bulk delete does not ask whose the files are that it is given, nor whose the rows are below its folders, and a
  move does not ask whose the destination is. `DriveDeletes.DeletionIsIsolated` says, for every table, exactly when
  the rows of other users stay as they were; `DriveMoves.MovedBelowAnother` is a folder of one user that another one
  deletes.
- A top folder whose name begins with "root" cannot be resolved by its own path (`DrivePaths.PathRoundTrip`), only by
  that path without its first slash (`WithoutSlash`).
- Rows with equal or null sort values are lost at page boundaries (`Pagination.TieLosesRow`, `PageIsWindow`).
- Commit and backfill cut a file into different blocks if a part that is followed by data ends inside a block
  (`TreeHashes.PartsAgree`); their hashes then agree only by a collision (`MisalignedNeedsCollision`).
- `Parse` finds no range for a suffix longer than the file, where section 14.1.2 of RFC 9110 selects the whole file
  (`HttpRanges.LongSuffixIsDropped`), reads a range whose first byte takes more than 64 bits as a suffix
  (`HugeFirstIsSuffix`), and panics on a piece without a dash (`HttpRanges.Parse`). `MeaningIsSelection` is about a
  range-spec by itself, written without leading zeros, and says that there are no other cases. Blanks between
  range-specs, which the list syntax of the RFC allows, have the effect of `BlankInFront`.


## Model

| member | source | states |
|---|---|---|
| Streams.RunDelivers | internal/crypt/cipher.go:358-384 | any run of `Read` calls, whatever the buffer sizes and however short the reads, hands out the pending bytes in order and without a gap |
| Streams.EndMeansAll | internal/reader/tg_reader.go:123-149 | an end of file in a run means that everything pending was delivered |
| Streams.RunEnds | internal/reader/reader.go:88-104 | a reader of n bytes gives at most n clean reads into nonempty buffers |
| Streams.ServesRead | internal/reader/reader.go:88-104 | a reader that may break off on the way serves its user as the full stream would, read by read |
| Streams.BrokenRun | internal/reader/tg_reader.go:123-149 | a run that ends when the reader gives up is a run of a reader that was going to break off just there, the error in a call of its own or not |
| Streams.UnbrokenRun | internal/reader/tg_reader.go:123-149 | a run in which the reader does not give up is a run of one that never would |
| ByteSources.ReadFill | internal/crypt/cipher.go:49-56 | fills the buffer from any reader, however short its reads, unless the source ends; what was read and what is left make up what there was |
| Nonces.Carry | internal/crypt/cipher.go:128-138 | turns the odometer of the bytes from `i` on and leaves the others |
| Nonces.Increment | internal/crypt/cipher.go:140-142 | adds one to the little-endian number, modulo 2^192; without a carry only the first byte changes |
| Nonces.Add | internal/crypt/cipher.go:144-157 | adds any 64-bit number to the little-endian number, modulo 2^192, carries past the eighth byte included, as so many increments would |
| Nonces.AdvanceAdds | internal/crypt/cipher.go:128-157 | the nonce of a block that is k blocks further on is the number plus k, modulo 2^192 |
| Nonces.TurnsAdd | internal/crypt/cipher.go:128-157 | k increments add k to the little-endian number modulo 2^192 |
| Nonces.AdvanceTwice | internal/crypt/cipher.go:144-157 | advancing by j and then by k is advancing by j + k |
| BlockSizes.SizeBijection | internal/crypt/cipher.go:530-554 | `DecryptedSize` undoes `EncryptedSize`, and every stored size it accepts is the encrypted size of its answer |
| BlockSizes.SizesAre | internal/crypt/cipher.go:530-554 | the encrypted size in numbers: 34, 65552 for each whole block and 16 more than the rest; which sizes are too short and which have a bad header |
| BlockSizes.UnderlyingIsTight | internal/crypt/cipher.go:386-412 | the offset is split exactly into blocks and discard; the limit asks for the least number of whole blocks that cover discard + limit |
| BlockSizes.UnderlyingFits | internal/crypt/cipher.go:386-412 | for ranges that end before 2^62 none of it overflows 64 bits |
| SealedBlocks.DecryptEncrypted | internal/crypt/cipher.go:171-218 | the encrypter's output is well formed, as long as `EncryptedSize` says, and decrypts to the plaintext |
| SealedBlocks.SealLength | internal/crypt/cipher.go:195-218 | the encrypted form of n bytes has exactly `EncryptedSize(n)` bytes |
| SealedBlocks.OpenSealed | internal/crypt/cipher.go:327-356 | opening the sealed blocks of any plaintext gives it back |
| SealedBlocks.DecryptedLength | internal/crypt/cipher.go:539-554 | a body is accepted by `DecryptedSize` if and only if reading it ends with a clean end of file, and then has that many bytes of plaintext |
| SealedBlocks.PlainLength | internal/crypt/cipher.go:327-356 | the plaintext length depends only on the ciphertext length, tampered or not |
| SealedBlocks.BlockwisePlain | internal/crypt/cipher.go:327-356 | output block i is block i opened under nonce + i, or zeros of the same length if it does not authenticate, and nothing else enters it |
| SealedBlocks.BlockOrZeros | internal/crypt/cipher.go:343-351 | output block i is the message of ciphertext block i under nonce + i, or zeros, as many as it had bytes of plaintext, if it does not authenticate |
| SealedBlocks.BlockwiseSealed | internal/crypt/cipher.go:200-213 | block i of an encryption is bytes i * 65536 and on of the plaintext sealed under nonce + i |
| SealedBlocks.PlainByte | internal/crypt/cipher.go:327-356 | every plaintext byte comes from the block it lies in |
| SealedBlocks.TamperingStaysInBlock | internal/crypt/cipher.go:343-351 | altering one block leaves every byte of the other output blocks where and as it was |
| SealedBlocks.SkipBlocks | internal/crypt/cipher.go:414-456 | skipping k ciphertext blocks and advancing the nonce by k skips k plaintext blocks |
| SealedBlocks.TakeBlocks | internal/crypt/cipher.go:386-412 | the first k ciphertext blocks give the first k plaintext blocks |
| SealedBlocks.BrokenOff | internal/crypt/cipher.go:343-351 | a ciphertext that breaks off anywhere yields a prefix of its plaintext, never zeros for a block that was cut, if no cut block authenticates |
| SealedBlocks.TaggedRejectsCuts | internal/crypt/cipher.go:343-351 | there are boxes for which everything that is sealed rejects cuts |
| SeekWindows.SeekServes | internal/crypt/cipher.go:414-456 | opening only the slice that `calculateUnderlying` names and discarding its first bytes is slicing the whole plaintext, limit included |
| SeekWindows.SeekOpens | internal/crypt/cipher.go:430-453 | reading on from what the range opener serves is reading the object's plaintext from the offset |
| SeekWindows.OpenedServes | internal/crypt/cipher.go:430-453 | the same for an opener that may break off: what comes is a prefix, and the discard never leaves the first block |
| SeekWindows.SeekSkips | internal/crypt/cipher.go:386-412 | the blocks from the one that holds the offset on, less the discard, are the plaintext from the offset |
| SeekWindows.SeekCuts | internal/crypt/cipher.go:386-412 | cutting the ciphertext after the blocks that were asked for does not show within the limit |
| SeekWindows.BeyondLoads | internal/crypt/cipher.go:430-453 | at or past the end a seek finds nothing to load (end of file), too little in the last block (bad seek), or just its end, also where the opener may break off |
| SeekWindows.FrontOfEmpty | internal/crypt/cipher.go:286-325 | an object without plaintext is its header, and opening it delivers nothing |
| SeekWindows.BrokenServes | internal/crypt/cipher.go:327-356 | a broken-off ciphertext serves what the whole one would, up to where it breaks off |
| SeekWindows.FrontReads | internal/crypt/cipher.go:286-325 | for offset 0 the header and the blocks the limit needs suffice |
| SeekWindows.FrontServes | internal/crypt/cipher.go:286-325 | the same for an opener that may break off |
| Ciphers.Cipher.GetBlock | internal/crypt/cipher.go:97-99 | hands out a block buffer that nobody else holds |
| Ciphers.Cipher.PutBlock | internal/crypt/cipher.go:101-103 | takes back a buffer that is not in the pool already |
| Encrypters.Encrypter.constructor | internal/crypt/cipher.go:171-193 | what is pending is the whole encryption of the source: magic, nonce, sealed blocks |
| Encrypters.Encrypter.Read | internal/crypt/cipher.go:195-218 | delivers the next bytes of that encryption into a buffer of any size and fails only with the source's own error, after everything, returning both buffers then |
| Encrypters.Encrypter.SealNext | internal/crypt/cipher.go:200-213 | seals the next block of plaintext under the next nonce; what is pending stays the same |
| Encrypters.Encrypter.Finish | internal/crypt/cipher.go:220-230 | records the error once and gives both buffers back |
| Decrypters.Decrypter.FillBuffer | internal/crypt/cipher.go:327-356 | one block goes from the source into the buffer; the end, a short block and a failed fetch are told apart |
| Decrypters.Decrypter.OpenInto | internal/crypt/cipher.go:343-355 | the buffer holds the message or, for a block that does not authenticate, zeros, unless the read that brought it broke off: then that error is returned |
| Decrypters.Decrypter.Read | internal/crypt/cipher.go:358-384 | delivers the next pending bytes under the limit, keeps the life-cycle invariant, and returns both buffers exactly when it ends |
| Decrypters.Decrypter.Deliver | internal/crypt/cipher.go:371-383 | copies no more than the buffer, the caller's buffer and the limit allow; the limit used up is the end of file |
| Decrypters.Decrypter.Finish | internal/crypt/cipher.go:466-476 | the first error stays, and the buffers are returned once |
| Decrypters.Decrypter.UnFinish | internal/crypt/cipher.go:478-487 | after the end of file the reader has buffers of its own again |
| Decrypters.Decrypter.RangeSeek | internal/crypt/cipher.go:414-456 | afterwards what is pending is the object's plaintext from the offset under the limit, also after an end of file; at or past the end it is nothing, and the result is end of file, bad seek or none exactly as `SeekResult` says; either way a failed fetch may break it off; other errors stay, bad calls end the reader with their error |
| Decrypters.Decrypter.LoadBlock | internal/crypt/cipher.go:442-453 | loads the block that holds the position and discards what lies before it; nothing to load, or less than is to be discarded, is the error it should be |
| Decrypters.Decrypter.Seek | internal/crypt/cipher.go:458-464 | the same without a limit |
| Decrypters.Decrypter.Close | internal/crypt/cipher.go:489-506 | afterwards the reader is closed, its buffers are returned once, and only a second call says so |
| DecrypterOpening.NewDecrypter | internal/crypt/cipher.go:256-284 | too short, bad magic, failed read, or a reader whose pending bytes are the blocks after the header under the header's nonce |
| DecrypterOpening.NewDecrypterSeek | internal/crypt/cipher.go:286-325 | pending is P[offset..min(offset + limit, size)], or a prefix of it if fetches may fail, and for offsets at or past the end nothing or the error of the seek; a limit of 0 or more never asks the opener for a negative one |
| DecrypterOpening.OpenFront | internal/crypt/cipher.go:290-301 | the case of a zero offset |
| DecrypterOpening.OpenHeader | internal/crypt/cipher.go:302-306 | the case of a positive offset: the header alone is opened and its nonce kept |
| DecrypterOpening.FinishAndClose | internal/crypt/cipher.go:508-512 | the reader ends closed, with its buffers returned |
| RangeOpeners.RangeOpener.Open | internal/reader/reader.go:155-168 | serves the stored bytes from the offset, as many as the limit, or after a failure a part of them with the fault in a call of its own or not; remembers whether it was asked for a negative limit |
| RoundTrip.EncryptThenDecrypt | internal/crypt/cipher.go:195-218 | encrypting and decrypting is the identity, for every plaintext, all buffer sizes on both sides and all short reads below |
| RoundTrip.ReadTwice | internal/crypt/cipher.go:286-456 | opened at one range, read to the end and moved to another: each time exactly that slice of the plaintext, or after a failure a prefix that is never followed by an end of file |
| RoundTrip.SealedSlices | internal/crypt/cipher.go:286-456 | seeking in what was encrypted reads p[offset..offset + limit], and again at another offset; at or past the end nothing, with end of file or a bad seek |
| RoundTrip.AnyCalls | internal/crypt/cipher.go:358-506 | over any sequence of Read, RangeSeek, Seek and Close: buffers held exactly while no error is set, bufIndex <= bufSize <= 64 KiB, closed stays closed |
| ChunkLayout.CalculateChunkSize | internal/tgc/helpers.go:246-253 | the largest power of two from 1 KiB to 1 MiB that does not exceed the span, or 1 KiB |
| ChunkLayout.ChunksCover | internal/reader/tg_reader.go:91-107 | the chunks cover the range, and the first and last one each hold a byte of it |
| ChunkLayout.OverFetch | internal/reader/tg_reader.go:91-107 | at most 2 * chunkSize - 2 bytes are fetched that nobody asked for |
| ChunkLayout.ChunkAligned | internal/reader/tg_reader.go:162-175 | every request is aligned to its own size and so never straddles a 1 MiB boundary |
| ChunkLayout.CutFits | internal/reader/tg_reader.go:183-189 | the cuts of the first and last chunk stay inside the chunks, the short one at the end of the object included |
| ChunkLayout.PieceIs | internal/reader/tg_reader.go:183-189 | each chunk, cut, is the stretch of the range between two chunk boundaries |
| ChunkLayout.PiecesAreRange | internal/reader/tg_reader.go:162-217 | the cut chunks in order are exactly source[start..end], none of them empty |
| RangeFetching.StepKeepsInv | internal/reader/tg_reader.go:84-217 | every step of producer, fetches, channel, consumer and cancellation keeps the protocol's invariant |
| RangeFetching.InvIsSafe | internal/reader/tg_reader.go:123-149 | under the invariant what was delivered is a prefix of the range, and all of it exactly when the limit is used up |
| RangeFetching.ReliableNeverErrs | internal/reader/tg_reader.go:128-138 | without failures the consumer never meets a closed channel or a cancellation |
| RangeFetching.ProgressReducesWork | internal/reader/tg_reader.go:151-217 | without failures every step of progress uses up some of a bounded amount of work |
| RangeFetching.NoDeadlock | internal/reader/tg_reader.go:123-217 | without failures, until the producer is gone and all is delivered, some step is possible, with an unbuffered channel as well |
| RangeReaders.FetchedIsPiece | internal/reader/tg_reader.go:166-193 | the chunk that fetch i of a batch brings, cut by its own part number, is the piece of the range it stands for |
| RangeReaders.EveryRunIsSafe | internal/reader/tg_reader.go:84-217 | in every interleaving of completions, sends, reads, failures and cancellations: delivered is a prefix of source[start..end], end of file only on all of it |
| RangeReaders.ReliableRunNeverErrs | internal/reader/tg_reader.go:84-217 | no run without failures ever lets the consumer see a channel closed early |
| RangeReaders.ReliableRunCompletes | internal/reader/tg_reader.go:84-217 | a run without failures is bounded and can only stop with the producer gone, the channel closed and the whole range delivered |
| RangeReaders.ProducerEnds | internal/reader/tg_reader.go:151-217 | in every run, failing or not, the producer takes a bounded number of steps, and after a failed fetch or a cancellation it can always go on, whatever the consumer does, until it is gone and the channel closed |
| RangeReaders.Bounded | internal/reader/tg_reader.go:151-211 | in no run are there more chunks on the channel than it has room for, nor more fetches under way than the concurrency |
| RangeReaders.NothingDelivered | internal/reader/tg_reader.go:151-217 | where fetches may fail there is a run in which all of the first batch do, nothing is delivered, and the consumer is told so |
| RangeReaders.TgMultiReader.constructor | internal/reader/tg_reader.go:84-114 | a new reader has exactly source[start..end] pending |
| RangeReaders.TgMultiReader.Read | internal/reader/tg_reader.go:123-149 | delivers the next bytes of the range, whatever the other goroutines did meanwhile, and says end of file with the last byte and ever after |
| RangeReaders.TgMultiReader.Await | internal/reader/tg_reader.go:128-138 | the blocked select always becomes ready |
| RangeReaders.TgMultiReader.Take | internal/reader/tg_reader.go:128-138 | takes the next nonempty chunk or fails, which it cannot in a run without failures |
| RangeReaders.TgMultiReader.Close | internal/reader/tg_reader.go:116-121 | cancels the stream and changes nothing else |
| PartRanges.CalculatePartByteRanges | internal/reader/reader.go:38-53 | one range for each part from the one that holds `start` to the one that holds `end` |
| PartRanges.RangeInPart | internal/reader/reader.go:38-53 | each range lies inside its part, is not empty, and the part index exists |
| PartRanges.RangesMeet | internal/reader/reader.go:38-53 | the stretches of the file follow one another from `start` to `end` without a gap |
| PartRanges.RangeDelivers | internal/reader/reader.go:38-53 | range i of the result asks for the stretch that begins where the one before it ended |
| StoredFiles.GetPartReader | internal/reader/reader.go:134-172 | a reader of exactly those plaintext bytes of the part, under the key of its own salt if it is encrypted; its opener is never asked for a negative limit; it fails only if a fetch does |
| StoredFiles.ContentOfSealed | internal/reader/reader.go:154-168 | the content of a file whose parts were each encrypted under the key of their own salt is what was encrypted |
| StoredFiles.ContentOfPlain | internal/reader/reader.go:134-152 | the content of any other file is its messages put together |
| StoredFiles.RejectsCutsIs | internal/crypt/cipher.go:343-351 | the hypothesis on cut blocks, part by part under the key of its salt |
| StoredFiles.DecryptRange | internal/reader/reader.go:148-168 | for an encrypted part the decrypter owes plaintext[start..start + limit] |
| StoredFiles.OpenStored | internal/reader/reader.go:155-168 | the callback's chunked reader owes what the range opener says is served |
| StoredFiles.ChunkedIsDelivered | internal/reader/reader.go:155-168 | up to its first fault every run of that chunked reader, failing or not, reads after the end included, is a run of a stream the opener may deliver |
| StoredFiles.RangeReachable | internal/reader/reader.go:148-168 | every nonempty range of a well-formed part's plaintext can be reached by a seek, and is what the seek is due to deliver |
| StoredFiles.PartReader.Read | internal/reader/reader.go:88-104 | a read of what the part reader owes; an error that is no end of file brings no bytes |
| StoredFiles.PartReader.Close | internal/reader/reader.go:125-126 | the chunked reader is cancelled, and a closed decrypter says that it is closed and nothing else |
| FileReaders.RangesServe | internal/reader/reader.go:38-53 | for every range inside a file of even parts the computed ranges put together are that range of the file |
| FileReaders.Reader.constructor | internal/reader/reader.go:68-85 | a new reader has exactly content[start..end] pending |
| FileReaders.Reader.Read | internal/reader/reader.go:88-104 | delivers the next bytes of the file across part boundaries, for any buffer size; end of file only after the last byte of the range |
| FileReaders.Reader.ReadPart | internal/reader/reader.go:93-96 | a read from the current part counts against what remains; its end of file is where the part's range ends |
| FileReaders.Reader.MoveToNextPart | internal/reader/reader.go:125-132 | the next part's reader continues where the last one ended, no part index out of bounds; if it cannot be opened the reader keeps failing and skips nothing |
| FileReaders.InitializeReader | internal/reader/reader.go:116-123 | the reader of range i delivers the stretch of the file that range stands for |
| FileReaders.NewReader | internal/reader/reader.go:55-86 | opens content[start..end], encrypted or not, or fails with a failed fetch |
| FileReaders.ReadRange | internal/reader/reader.go:55-104 | end to end: reading to the end through buffers of any sizes gives exactly content[start..end], if fetches fail a prefix, and never an end of file short of the whole |
| Strings.Split | internal/http_range/range.go:29-32 | there is a second piece if and only if the separator occurs: what follows the dash can be indexed exactly then |
| HttpRanges.ParsePiece | internal/http_range/range.go:28-58 | one piece of the header gives the range it means, or none |
| HttpRanges.Parse | internal/http_range/range.go:20-66 | invalid exactly without an equals sign, an index out of range exactly if some piece has no dash, else the meanings of the pieces in order, all with 0 <= start <= end < size; no overlap when there are none |
| HttpRanges.MeaningIsSelection | internal/http_range/range.go:31-58 | a lone range-spec of section 14.1.2 of RFC 9110, whatever its numbers, gets the bytes it selects if and only if it is no suffix longer than the file and no range from a byte past 64 bits on up to one that is the length of a suffix of the file; the one gets none, the other that suffix |
| HttpRanges.SelectedIs | internal/http_range/range.go:31-58 | what a range-spec selects, in numbers, case by case |
| HttpRanges.SignedDecimal | internal/http_range/range.go:31-33 | numbers may have a sign, and go from -2^63 to 2^63 - 1 |
| HttpRanges.MeaningsInOrder | internal/http_range/range.go:28-64 | several pieces give the ranges of each, in the order of the pieces |
| HttpRanges.ParseSpecs | internal/http_range/range.go:20-66 | the header of a list of range-specs, none of which is misread by itself, gives the ranges they select in their order, or no overlap |
| HttpRanges.BlankInFront | internal/http_range/range.go:29-45 | a range-spec with a blank before it, as the list syntax allows after a comma, is read as the suffix that its last byte names |
| HttpRanges.HugeFirstIsSuffix | internal/http_range/range.go:31-45 | 9223372036854775808-5 on a file of 10 bytes: the last five are found where there is no range |
| HttpRanges.LongSuffixIsDropped | internal/http_range/range.go:39-54 | the header bytes=-10 on a file of 5 bytes: no range is found where there is one |
| HttpRanges.MeaningsInBounds | internal/http_range/range.go:52-58 | every range that a header can mean lies inside the file |
| HttpRanges.Serve | pkg/services/file.go:1804-1945 | for every header and method the status and the bytes of the file that are sent: all of it, the one range, none for HEAD or a refusal, no reply where Parse panics; if fetches fail a prefix |
| FileParts.GetMessages | internal/tgc/helpers.go:100-150 | whatever order the concurrent batches finish in, the messages come in the order of the batches; one refusal fails the call |
| FileParts.BatchesAre | internal/tgc/helpers.go:108-118 | batches of one hundred ids that together are all of them |
| FileParts.MessagesInOrder | internal/tgc/helpers.go:117-147 | they are the messages of the ids, one by one in the order of the ids |
| FileParts.GetParts | pkg/services/common.go:23-66 | for any channel: each part with its own id and salt and the sizes of the message of its position if and only if no batch is refused and exactly the parts' messages have documents; a document past the end of the list is an index out of range |
| FileParts.EachByItsOwn | pkg/services/common.go:23-66 | if every batch is answered with one message for each id, that message is the part's own |
| FileParts.DescribedIsValid | pkg/services/common.go:48-53 | the descriptions have the plaintext sizes right, so the file is one to be read if and only if its decrypted parts are even |
| FileParts.ReadUploaded | internal/reader/reader.go:55-172 | from upload to download: parts of one size but the last, as they are or each encrypted under its own salt and nonce; any range of the file reads as that slice of what was uploaded, then end of file |
| BlockHashers.BlocksCut | internal/hash/hash.go:36-60 | the blocks put together are the data; all but the last have the block size, and none is empty |
| BlockHashers.SumIsDigests | internal/hash/hash.go:63-76 | the sum has 32 bytes for each block, its digest |
| BlockHashers.ExtendTail | internal/hash/hash.go:36-60 | bytes that fit into the block under way extend it, and complete it when they fill it |
| BlockHashers.BlockHasher.Write | internal/hash/hash.go:36-60 | takes all of any write and the blocks stay those of the concatenation |
| BlockHashers.BlockHasher.Absorb | internal/hash/hash.go:39-57 | one turn of its loop |
| BlockHashers.BlockHasher.Sum | internal/hash/hash.go:63-76 | the digests of all blocks so far, the one under way closed |
| BlockHashers.BlockHasher.Reset | internal/hash/hash.go:84-87 | afterwards the hasher has seen nothing, though its hash object is still there |
| BlockHashers.HashWrites | internal/hash/hash.go:36-76 | the sum of any sequence of writes is that of the blocks of their concatenation |
| BlockHashers.SumTwice | internal/hash/hash.go:63-76 | `Sum` is idempotent |
| TreeHashes.PartsAgree | pkg/services/file.go:455-463 | hashing part by part cuts the file into the same blocks as hashing it whole if and only if no part that is followed by data ends inside a block |
| TreeHashes.AlignedMeansWholeBlocks | pkg/services/file.go:455-463 | for nonempty parts that is: every part but the last is a whole number of blocks |
| TreeHashes.BlockHashesCover | pkg/services/file.go:104-114 | true exactly when there are as many uploads as parts, at least one, and each has block hashes |
| TreeHashes.HashAtCommit | pkg/services/file.go:454-499 | the tree hash of the concatenated block hashes, that of nothing for an empty file, a read-back exactly for an unencrypted file whose parts the client named itself, or none |
| TreeHashes.ComputeFileContentHash | pkg/services/dedup_backfill.go:25-57 | the tree hash of the blocks of the whole content as the reader delivers it; a read that fails gives no hash |
| TreeHashes.HashAll | pkg/services/dedup_backfill.go:44-56 | the tree hash of exactly what a reader delivers, or its error |
| TreeHashes.CopyInto | pkg/services/dedup_backfill.go:51-54 | copying to the end leaves exactly the reader's bytes in the hasher |
| TreeHashes.CommitAgreesWithBackfill | pkg/services/file.go:455-463 | with aligned parts hashed as they were uploaded, commit and backfill give the same tree hash |
| TreeHashes.MisalignedNeedsCollision | pkg/services/file.go:455-463 | where they agree on misaligned parts, two different messages with one digest are exhibited |
| DriveTables.ReparentedIsAcyclic | pkg/services/file.go:1486-1496 | moving rows under a row that is in none of their subtrees makes no cycle |
| DriveTables.ReparentedIsCyclic | pkg/services/file.go:1486-1496 | moving rows under a row inside one of their subtrees makes one |
| DriveDeletes.Closure | pkg/services/file.go:648-653 | the recursive query, if it ends, yields exactly the roots' subtrees |
| DriveDeletes.QueryEnds | pkg/services/file.go:648-653 | the UNION ALL query ends if and only if there is no cycle below its roots, and then within as many generations as there are rows |
| DriveDeletes.AcyclicEnds | pkg/services/file.go:648-653 | so on an acyclic table it always ends |
| DriveDeletes.DeletedKeepsTree | pkg/services/file.go:647-664 | a bulk delete keeps unique names, present parents and acyclicity |
| DriveDeletes.DeletedIs | pkg/services/file.go:647-664 | row by row: folders among the user's rows of the ids or below one are gone, files in them or named by the ids are marked, all else is as it was |
| DriveDeletes.AcyclicMeansNoCycle | pkg/services/file.go:648-653 | acyclic means that no row is above itself |
| DriveDeletes.TreeIs | internal/database/migrations/20250125123315_index.sql:4-5 | a tree: unique names among active siblings of a user, the parents of active rows there, no row above itself |
| DriveDeletes.DeletionIsIsolated | pkg/services/file.go:647-664 | for every table: other users' rows stay as they were if and only if none of them lies below the rows it starts from, and the ids name none of their files, but for files that are to be deleted already |
| DriveDeletes.OwnBranchesAreIsolated | pkg/services/file.go:647-664 | where users keep to their own branches, which the code does not see to, only the ids matter |
| DriveMoves.MergeFacts | pkg/services/file.go:1455-1470 | the merge keeps the tree and touches nothing outside the displaced folder's subtree |
| DriveMoves.BelowAfterMerge | pkg/services/file.go:1455-1470 | after the merge exactly what did not go over is still below the displaced folder |
| DriveMoves.RenameMoveKeepsTree | pkg/services/file.go:1441-1483 | a rename-move keeps unique active names, present parents and acyclicity if and only if the destination is there and not inside the source |
| DriveMoves.SourceSurvives | pkg/services/file.go:1441-1483 | the source stays an active row if and only if it is not inside what it displaces, or goes over with its children |
| DriveMoves.RenameMoveEffect | pkg/services/file.go:1441-1483 | what becomes of each single row: the source, the displaced folder's active children that have no namesake in the source, what lies below them, what else was below the displaced row, and all other rows |
| DriveMoves.StatementsAre | pkg/services/file.go:1455-1483 | on any table: which rows the merge gives to the source, and what the update of the source does |
| DriveMoves.RenameMoveChildren | pkg/services/file.go:1455-1470 | a row is an active child of the source afterwards if and only if it was, or both are folders and it was an active child of the displaced one whose name no active child of the source has |
| DriveMoves.RenameMoveNeverConflicts | pkg/services/file.go:1441-1483 | under the unique index no step of a rename-move breaks it |
| DriveMoves.ClearingEnds | pkg/services/file.go:1471-1473 | on a tree the delete in its middle ends, even where the merge before it made a cycle |
| DriveMoves.RenameMoveGoesThrough | pkg/services/file.go:1441-1483 | so on a tree a rename-move always goes through |
| DriveMoves.MoveOntoItselfDeletes | pkg/services/file.go:1441-1483 | moving an item to where it is under its own name deletes it |
| DriveMoves.MoveManyKeepsAcyclic | pkg/services/file.go:1485-1496 | a move of several rows keeps the table acyclic if and only if the destination is inside none of them |
| DriveMoves.MoveManyKeepsNames | pkg/services/file.go:1485-1496 | it keeps active names unique if and only if no two of the rows are namesakes and none has one at the destination |
| DriveMoves.MoveManyKeepsTree | pkg/services/file.go:1485-1496 | it keeps the tree if and only if both hold and the destination is there, unless no active row is moved |
| DriveMoves.MovedBelowAnother | pkg/services/file.go:1439-1496 | a move may put a user's folder below another user's, whose delete then removes it: a table, a move and a delete |
| DriveMoves.Drive.DeleteFilesBulk | pkg/services/file.go:647-664 | leaves exactly the rows that the statement leaves, folders of the targets gone and their files marked; it does not end exactly if there is a cycle below them |
| DriveMoves.Drive.FindInSlot | pkg/services/file.go:1442-1453 | finds an active row of that name, parent and user if there is one, and otherwise there is none |
| DriveMoves.Drive.FilesMove | pkg/services/file.go:1439-1521 | not found, a conflict or no answer with nothing changed, or the rename-move or plain move in full, each exactly when it should be |
| DriveMoves.Drive.RenameMove | pkg/services/file.go:1441-1483 | the three statements as one transaction |
| DriveMoves.Drive.Update | internal/database/migrations/20250125123315_index.sql:4-5 | an update that breaks the unique index fails and changes nothing |
| DriveCollect.CollectFilesRecursive | pkg/services/file.go:917-950 | ends on every parent graph, cyclic ones included, with exactly the caller's active files reachable through active folders, each once |
| DriveCollect.WayTo | pkg/services/file.go:917-950 | to each of them leads a way from a selected row, through active rows of the user, each in the folder before it |
| DriveCollect.WayFrom | pkg/services/file.go:917-950 | and whatever such a way leads to is reached |
| DriveCollect.ClosedHolds | pkg/services/file.go:917-950 | once the work list is empty everything reachable has been processed |
| Paths.PrefixTest | pkg/services/file.go:977-983 | on paths of proper names the string test is the prefix order on the lists of names |
| Paths.WithinShareIsPrefix | pkg/services/file.go:977-983 | so is `pathWithinShare`, the root's empty path included |
| Paths.SplitJoin | pkg/services/common.go:77-80 | splitting a joined path gives the names back |
| Paths.TrimJoin | pkg/services/common.go:69-80 | trimming slashes off a path leaves the joined names |
| DrivePaths.GetFullPath | pkg/services/file.go:666-682 | the names from the top, joined, without a leading /root |
| DrivePaths.PathIsNames | pkg/services/file.go:666-682 | in a tree under a row called root the path is the names below it, each after a slash |
| DrivePaths.TwoRowsAreTree | pkg/services/file.go:666-682 | the smallest such tree, and the path /name of the file in it |
| DrivePaths.NamesIdentify | pkg/services/file.go:666-682 | different rows of the tree have different names on their way |
| DrivePaths.ShareTestIsAncestry | pkg/services/file.go:977-983 | `pathWithinShare` of two full paths holds if and only if the one row is the other or a descendant of it |
| DrivePaths.AssertIdsWithinShare | pkg/services/file.go:1020-1053 | accepts exactly if every id passes: the shared file itself, or the owner's row with a path inside the share |
| DrivePaths.SharedSubtreeOnly | pkg/services/file.go:1030-1053 | for a shared folder exactly the owner's rows of its subtree are let through |
| DrivePaths.ResolvePathID | pkg/services/common.go:68-103 | some row at the last level of the path, none if there is none |
| DrivePaths.LevelIsNames | pkg/services/common.go:74-95 | the rows at level k are those whose names on the way are the first k parts, and which are active all the way up |
| DrivePaths.WithoutSlash | pkg/services/common.go:69-76 | a path without its first slash is looked for below the root, whatever its first name begins with |
| DrivePaths.PathRoundTrip | pkg/services/common.go:68-103 | resolving a row's own path gives that row, the root included, if and only if it and every row above it are active and the name of its top folder does not begin with "root" |
| DrivePaths.ResolveFullPath | pkg/services/common.go:68-103 | the same for the two calls one after the other |
| Dedup.GroupByHash | pkg/services/dedup_core.go:123-130 | every file with a hash is in the group of that hash, in list order, and in no other |
| Dedup.LinksWithout | pkg/services/dedup_core.go:132-138 | the number of links does not depend on the order in which groups are counted |
| Dedup.LinkingKeepsContent | pkg/services/dedup_core.go:142-187 | if equal hashes mean equal content, linking changes no file's content and makes no file its own reference |
| Dedup.ReferencesLeadToCanonical | pkg/services/dedup_core.go:142-187 | every new reference leads to an untouched row of the same hash that takes part |
| Dedup.RunKeepsContent | pkg/services/dedup_core.go:105-190 | the same for backfill and linking together |
| Dedup.HashesTellIs | pkg/services/dedup_core.go:105-190 | the hypothesis in terms of the rows: files of the user that take part and go by one hash have one content |
| Dedup.RunInRows | pkg/services/dedup_core.go:105-190 | only active unencrypted files of the user are written; a linked file has the parts and channel of another such file that is not linked; all other rows have at most got their hash |
| Dedup.CompletedInRows | pkg/services/dedup_core.go:109-110 | of any two files of the user with the same nonempty hash one is a duplicate in its group |
| Dedup.Deduplicator.Load | pkg/services/dedup_core.go:108-114 | exactly the active unencrypted files of that user with, or without, a hash, each once |
| Dedup.Deduplicator.BackfillUserHashes | pkg/services/dedup_core.go:196-283 | exactly the rows of the returned files gain the hash they go by; hashed plus skipped is the number of files without one; a dry run writes nothing |
| Dedup.Deduplicator.CountLinks | pkg/services/dedup_core.go:132-138 | the total is the sum of group size - 1 |
| Dedup.DealtNext | pkg/services/dedup_core.go:153-156 | the next member of a group has been neither linked nor given up before, in this group or another |
| Dedup.Deduplicator.LinkGroup | pkg/services/dedup_core.go:142-187 | exactly the rows of the linked set are written, each linked to the first file of its group; the counters are the sizes of the linked and the given-up set; completed, these are all the duplicates of the group |
| Dedup.Deduplicator.LinkAll | pkg/services/dedup_core.go:142-187 | the same over all groups in any order, also when broken off |
| Dedup.Deduplicator.RunDedupForUser | pkg/services/dedup_core.go:105-190 | a run writes only active unencrypted files of its user, exactly the links and hashes its counters count, even when broken off; when it completes it leaves no two files with one hash as they were but those it gave up, with linked plus given up the sum of group size - 1; what every file's channel and parts hold stays the same |
| Pagination.PageIsWindow | pkg/services/file_query_builder.go:222-234 | the keyset query returns ranks (p - 1) * limit + 1 to p * limit if and only if that page is empty, or its rows and anchor have values and the anchor's value does not go on into it |
| Pagination.TieLosesRow | pkg/services/file_query_builder.go:289-303 | two rows with equal sort values on two pages: the second is lost |
| Pagination.DistinctPage | pkg/services/file_query_builder.go:222-234 | with distinct values that are not null every page is the one of its number, in both directions |
| Pagination.PageOfOrder | pkg/services/file_query_builder.go:251-303 | with values that rise in ascending order and fall in any other, page p is rows (p - 1) * limit up to p * limit |
| Pagination.SortedIs | pkg/services/file_query_builder.go:251-260 | the order of the rows: ascending with nulls last, or descending with nulls first |
| Pagination.TotalPagesIs | pkg/services/file_query_builder.go:66-68 | TotalPages is the least number of pages that holds all rows |
| Pagination.PagesAreList | pkg/services/file_query_builder.go:52-69 | pages 1 to TotalPages put together are the sorted list without loss or repeat, and later pages are empty |

## Left out

- The internals of secretbox, scrypt and BLAKE3, hex encoding of hashes, and the choice of random nonces and salts.
- Telegram, SQL, Redis and HTTP plumbing, authentication, events, logging, configuration, uploads, share passwords,
  scheduled clean-up, zip entry names and the other handlers: I/O or wrappers.
- Timeouts, back-off and retries: a fetch or a write just may fail.
- Closing the ciphertext stream below a decrypter, and the plain chunked reader that the original also starts for an
  encrypted part.
- RangeFetching.StepKeepsInv: the reader's fields, the channel and the goroutines' local state are one state value;
  mutexes and `closeOnce` do not appear in it.
- Decrypters.Decrypter.RangeSeek: numbers are unbounded, so the overflow of 64 bits is not modelled; ranges that end
  before 2^62 are free of it (`BlockSizes.UnderlyingFits`).
- Decrypters.Decrypter.FillBuffer: the ciphertext is any stream the opener may deliver, rather than the chunked reader
  itself; `StoredFiles.ChunkedIsDelivered` proves that what is seen of the chunked reader, up to its first fault, is
  seen of such a stream.
- StoredFiles.GetPartReader: as for the file readers built on it, where fetches may fail on an encrypted part, no block
  may authenticate when it is cut short (`RejectsCuts`); for secretbox this holds but for forgeries.
- HttpRanges.MeaningIsSelection: a range-spec by itself; tabs and blanks elsewhere in the header are not looked into.
- HttpRanges.Serve: the PSD conversion, the headers of the reply, and the text that goes with a refusal or an error.
- TreeHashes.HashAtCommit: a read-back that fails leaves the file without a hash; the read-back itself is
  `ComputeFileContentHash`.
- DriveMoves.RenameMoveEffect: where the displaced row is not the source and does not hold it; the other case is covered
  by `SourceSurvives` and `RenameMoveKeepsTree`.
- DriveMoves.Drive.FilesMove: the destination is already an id, or none for the top level.
- DrivePaths.ShareTestIsAncestry: one tree for each user, and proper names that are unique among all siblings.
- Dedup.Deduplicator.RunDedupForUser: no other writer between the queries of a run; nothing is claimed about chains of
  references over several runs, and the in-transaction check of `FilesCreate` is not modelled.
- Pagination.PageIsWindow: rows with equal sort values come in one fixed order in every query; filters are the given
  list of rows, and the floating-point ceiling of `TotalPages` is the integer one. A page past the last one reports a
  count of 0 in the original.
- Historical migrations but the unique index on active names.
