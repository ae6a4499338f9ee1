# Mountpoint for Amazon S3: a verified model of its data path

Mountpoint serves file reads out of S3 objects. This project models the code between the network and the
reader, and proves that what the reader gets is what the object holds.

- **Checksummed buffers** (`Crc32c`, `ShiftRegister`, `ChecksummedBytes`, `Integrity`, `IntegrityRefinement`).
  CRC32C is defined bit by bit. Joining two checksums is proved exact, and cutting, shrinking and joining buffers
  is proved to keep data and checksum together. `Integrity` is a state machine of buffers that share memory, in
  which memory may be corrupted between any two internal steps of an operation; bytes that validate are proved to
  be the bytes that would be there had nothing been corrupted, that is, what the same operations make of plain
  byte strings.
- **The prefetcher** (`Parts`, `Pieces`, `SeekWindows`, `Backpressure`, `RequestTasks`, `SeekAccounts`,
  `Prefetcher`). Part queue, backward seek window, flow-control window and request task are separate
  classes. Every read of every session returns the bytes asked for, however the stream cuts its parts and wherever it
  fails. If a stream delivers one corrupt buffer, every result that validates is still right, however that buffer is
  cut, pushed back and joined. All memory reserved along the way is accounted for, to the byte.
- **The memory limiter** (`MemLimiter`). One atomic counter and a compare-and-swap loop, interleaved with any
  number of threads: the counter counts, the limit holds, and the calls are linearizable.
- **Listing** (`KeyOrder`, `Listing`, `OrderedListing`, `UnorderedListing`). ListObjectsV2 with prefix,
  delimiter, page size and continuation tokens. The pages, put together, are the one-shot listing.
- **The manifest, the request target, Content-Range, and the mock client's streams, ramps and objects**
  (`Manifest`, `RequestTarget`, `ContentRange`, `GetStream`, `Ramp`, `ObjectStore`).

`Wrappers`, `ByteStrings`, `Sequences` and `Arithmetic` hold a few general definitions and lemmas.

## How to read it

Code that changes objects in place is a class, a loop is a method with a loop, and pure code is a function.
Each method is proved against a function of its inputs or of the state before, and the lemmas beside it prove
what that function means. The environment is a parameter: what a stream delivers and how far it has come, what
the memory pool holds, whether a conditional reservation is granted, when memory is corrupted.

Four properties that one might expect do not hold of the code. For each there is a concrete failing case, and
the exact condition under which the property does hold:

- Joining two buffers is not always sound: two wrong checksums can cancel (`TwoBadOperandsCanCancel`). Exactly
  when is `ExtendSoundIff`; a single wrong operand is always noticed, among any number of pieces
  (`ValidJoinIsSound`). So a stream may deliver one corrupt buffer (`HonorsOneCorrupt`, `Session`), and two can make
  any data pass (`TwoCorruptSourcesCanPass`).
- The limiter loses count if its limit is the largest 64-bit number (`LargestLimitLosesCount`). A swap keeps the
  count exactly when the new value fits (`SwapCountsIff`), and below that limit it always does.
- Closing a handle does not always release all its memory: bytes pushed back by a zero-length read that seeks
  backward can stay reserved (`EmptyReadLeaks`). They do if and only if the handle is closed, or its request
  abandoned for a new one, before any more data is taken off that request: reads past the end of the object and
  further zero-length reads at or before that place do not help (`AccountIff`, `Session`).
- The range read from a Content-Range header does not end after the last position if that is the largest 64-bit
  number: adding one wraps around (`LargestLastPositionWraps`), or panics in a build with overflow checks. For every
  other last position it does (`ExtractIff`, `ExtractPrinted`).

Where code and comment disagree, the model follows the code. The comment at
`mountpoint-s3-client/src/mock_client.rs` lines 341-342 asks for text before the delimiter for a key to be
rolled up; the code rolls up a key whose first character after the prefix is the delimiter too.

## Model

| member | source | states |
|---|---|---|
| `Crc32c.CombineExact` | mountpoint-s3-fs/src/checksums.rs:268-277 | for all `a`, `b`: combining the checksums of `a` and `b` with `len(b)` gives the CRC32C of `a + b`, computed bit by bit |
| `Crc32c.CombineInjective` | mountpoint-s3-fs/src/checksums.rs:268-277 | with the suffix length fixed, a wrong checksum on exactly one side always changes the combined checksum |
| `Crc32c.CombineUndo` | mountpoint-s3-fs/src/checksums.rs:268-277 | combining with the same prefix a second time gives back the suffix checksum |
| `Crc32c.ChecksumEmpty` | mountpoint-s3-fs/src/checksums.rs:244-252 | the zero that the default buffer carries is the checksum of no bytes |
| `Crc32c.SingleByteErrorDetected` | mountpoint-s3-crt/src/checksums/crc32c.rs:22-26 | changing any one byte anywhere in any data changes its checksum |
| `Crc32c.CheckValue` | mountpoint-s3-crt/src/checksums/crc32c.rs:77-82 | the digits 1 to 9 have the check value 0xe3069283, so the register is CRC32C |
| `ChecksummedBytes.ShrinkKeepsMeaning` | mountpoint-s3-fs/src/checksums.rs:143-161 | shrinking keeps the bytes in view and whether the buffer validates; it succeeds exactly when the view is the whole buffer or the buffer validates |
| `ChecksummedBytes.ExtendJoins` | mountpoint-s3-fs/src/checksums.rs:167-209 | extending one sound slice by another, whatever larger buffers they were cut from, always succeeds with a sound slice of the concatenation |
| `ChecksummedBytes.ExtendSoundIff` | mountpoint-s3-fs/src/checksums.rs:167-209 | extending gives a slice that validates if and only if both operands validate or both fit their buffers and their checksum errors cancel |
| `ChecksummedBytes.ExtendFailsIff` | mountpoint-s3-fs/src/checksums.rs:167-209 | exactly when extending reports corruption; it then leaves the receiver's bytes and reports the mismatch of an operand that fails validation |
| `ChecksummedBytes.OneBadOperandIsNeverLaundered` | mountpoint-s3-fs/src/checksums.rs:167-209 | if exactly one operand is corrupt, the call fails and leaves the receiver's bytes, or the result still fails validation |
| `ChecksummedBytes.TwoBadOperandsCanCancel` | mountpoint-s3-fs/src/checksums.rs:167-209 | for any data and any wrong checksum on the left there is a wrong checksum on the right with which the joined slice validates |
| `ChecksummedBytes.SoundPiecesJoin` | mountpoint-s3-fs/src/prefetch.rs:403-431 | any number of sound pieces join, one after another, into a sound slice of them all |
| `ChecksummedBytes.ValidJoinIsSound` | mountpoint-s3-fs/src/prefetch.rs:403-431 | a slice joined from any number of pieces, if it validates, is made of sound pieces only and reads their concatenation, unless two corrupt pieces are each their whole buffer |
| `Pieces.AnswerLength` | mountpoint-s3-fs/src/prefetch.rs:403-431 | pieces laid over a range join into an answer of its length, whatever they hold |
| `Pieces.SoundAnswer` | mountpoint-s3-fs/src/prefetch.rs:403-431 | an answer from sound pieces validates and is the object's bytes in the range |
| `Pieces.ValidAnswer` | mountpoint-s3-fs/src/prefetch.rs:403-431 | an answer that validates is the object's bytes in the range, unless two corrupt pieces were each joined as a whole buffer |
| `Pieces.FailureShowsCorruption` | mountpoint-s3-fs/src/prefetch.rs:426-427 | joining fails only if some piece is corrupt |
| `Pieces.OneCorruptSource` | mountpoint-s3-fs/src/prefetch.rs:403-431 | of pieces laid end to end and cut from sources of which at most one is corrupt, no two are joined unseen |
| `Pieces.HonorsUncorrupted` | mountpoint-s3-fs/src/prefetch.rs:403-431 | what is joined from pieces of uncorrupted sources laid over a range validates and is the range |
| `Pieces.HonorsOneCorrupt` | mountpoint-s3-fs/src/prefetch.rs:403-431 | what is joined from pieces of sources of which at most one is corrupt is the range if it validates |
| `Pieces.TwoCorruptSourcesCanPass` | mountpoint-s3-fs/src/prefetch.rs:403-431 | over any range of two bytes or more, two corrupt sources can make any data pass validation |
| `ChecksummedBytes.ChecksummedBytes.FromInnerData` | mountpoint-s3-fs/src/checksums.rs:41-48 | a buffer in full view with the checksum it was given |
| `ChecksummedBytes.ChecksummedBytes.New` | mountpoint-s3-fs/src/checksums.rs:51-58 | a buffer in full view that validates |
| `ChecksummedBytes.ChecksummedBytes.Default` | mountpoint-s3-fs/src/checksums.rs:244-252 | the empty buffer validates |
| `ChecksummedBytes.ChecksummedBytes.Validate` | mountpoint-s3-fs/src/checksums.rs:214-224 | reports a mismatch, with both checksums, exactly when the checksum is not that of the whole buffer |
| `ChecksummedBytes.ChecksummedBytes.IntoBytes` | mountpoint-s3-fs/src/checksums.rs:63-66 | hands out the view if and only if the whole buffer validates |
| `ChecksummedBytes.ChecksummedBytes.SplitOff` | mountpoint-s3-fs/src/checksums.rs:84-97 | the two halves share buffer and checksum, and their views put together are the old view |
| `ChecksummedBytes.ChecksummedBytes.Slice` | mountpoint-s3-fs/src/checksums.rs:103-137 | the slice views the asked-for sub-range of the view, over the same buffer and checksum |
| `ChecksummedBytes.ChecksummedBytes.ShrinkToFit` | mountpoint-s3-fs/src/checksums.rs:143-161 | the in-place update, in the source's order of summing and validating, is the function of ShrinkKeepsMeaning |
| `ChecksummedBytes.ChecksummedBytes.Extend` | mountpoint-s3-fs/src/checksums.rs:167-209 | the in-place update of receiver and argument is the function of ExtendJoins and ExtendSoundIff, on every path |
| `ChecksummedBytes.ChecksummedBytes.IntoInner` | mountpoint-s3-fs/src/checksums.rs:231-234 | gives the view with a checksum that is right exactly when the buffer validated |
| `Integrity.FinishShrinkKeeps` | mountpoint-s3-fs/src/checksums.rs:143-161 | corruption between summing the slice and validating the buffer cannot give corrupted bytes a matching checksum, if it is detectable in the buffer validated |
| `Integrity.CopySecondKeeps` | mountpoint-s3-fs/src/checksums.rs:167-209 | the combined checksum is that of the bytes the joined buffer was meant to hold, even if either buffer was corrupted before or between the two copies |
| `Integrity.NewKeeps` | mountpoint-s3-fs/src/checksums.rs:51-58 | making a value keeps every checksum that of the original bytes |
| `Integrity.SliceKeeps` | mountpoint-s3-fs/src/checksums.rs:103-137 | so does slicing, whose two values share a buffer |
| `Integrity.SplitOffKeeps` | mountpoint-s3-fs/src/checksums.rs:84-97 | so does splitting |
| `Integrity.SumSliceKeeps` | mountpoint-s3-fs/src/checksums.rs:149-150 | the slice checksum taken first is right if the buffer turns out clean later |
| `Integrity.OtherKeeps` | mountpoint-s3-fs/src/checksums.rs:167-173 | so do extending by nothing, starting to copy, dropping, and corruption itself |
| `Integrity.ReplaceEmptyKeeps` | mountpoint-s3-fs/src/checksums.rs:174-179 | so does replacing an empty value by the one it is extended with |
| `Integrity.ChecksumTracksOriginal` | mountpoint-s3-fs/src/checksums.rs:143-209 | in every state of every run, over all interleavings and corruptions, each value's checksum is that of the bytes its buffer was meant to hold, even where the errors of two joined buffers cancel; detectability is asked only of a buffer at the moment shrinking validates it |
| `Integrity.ValidatedBytesAreOriginal` | mountpoint-s3-fs/src/checksums.rs:63-66 | in every state of every run a clean value validates, and bytes that validate are exactly those the value would hold had no memory ever been corrupted, if corruption of that one buffer is detectable |
| `Integrity.SingleByteCorruptionIsDetectable` | mountpoint-s3-fs/src/checksums.rs:214-224 | corruption of any one byte is detectable in every window that contains it, so it meets the assumption of the results above |
| `Integrity.JoinStaysDetectable` | mountpoint-s3-fs/src/checksums.rs:167-209 | joining two buffers of which at most one is corrupt leaves the corruption detectable |
| `Integrity.SummingAfterValidationIsUnsound` | mountpoint-s3-fs/src/checksums.rs:149-153 | in every run, for every clean value and every byte in its view: were the slice summed only after the buffer validates, corrupting the byte in between would leave corrupted bytes that validate; validating last finds the corruption |
| `Integrity.EveryViewIsReachable` | mountpoint-s3-fs/src/checksums.rs:103-137 | every view of every buffer is reached by some run, so the row above speaks of them all |
| `IntegrityRefinement.NewRefines` | mountpoint-s3-fs/src/checksums.rs:51-58 | in the run model a new value is the checked slice of a new buffer |
| `IntegrityRefinement.SliceRefines` | mountpoint-s3-fs/src/checksums.rs:103-137 | slicing gives the checked slice of the sub-range and leaves the one sliced |
| `IntegrityRefinement.SplitOffRefines` | mountpoint-s3-fs/src/checksums.rs:84-97 | splitting gives the two checked slices whose views put together are the old view |
| `IntegrityRefinement.ShrinkRefines` | mountpoint-s3-fs/src/checksums.rs:143-161 | the two steps of shrinking, undisturbed, are shrinking of the checked slice |
| `IntegrityRefinement.ExtendByEmptyRefines` | mountpoint-s3-fs/src/checksums.rs:168-172 | extending by an empty value is extending the checked slice |
| `IntegrityRefinement.ReplaceEmptyRefines` | mountpoint-s3-fs/src/checksums.rs:174-179 | extending an empty value is extending the checked slice |
| `IntegrityRefinement.CopyRefines` | mountpoint-s3-fs/src/checksums.rs:181-208 | the two copying steps, undisturbed, are extending the checked slice |
| `IntegrityRefinement.ExtendProceeds` | mountpoint-s3-fs/src/checksums.rs:167-209 | on any two idle values the step that the source would take next is possible |
| `IntegrityRefinement.OthersAreUntouched` | mountpoint-s3-fs/src/checksums.rs:84-209 | a step leaves every other value the checked slice it was |
| `IntegrityRefinement.ReplayAgrees` | mountpoint-s3-fs/src/checksums.rs:41-234 | what the run model says values should hold is what the operations make of plain byte strings |
| `IntegrityRefinement.ValidatedBytesArePlain` | mountpoint-s3-fs/src/checksums.rs:63-66 | in every state of every run, bytes that validate are what the operations make of the byte strings put in, if corruption of that one buffer is detectable |
| `IntegrityRefinement.UncorruptedRunIsPlain` | mountpoint-s3-fs/src/checksums.rs:41-234 | in every state of every run without corruption, every value validates and reads what the operations make of the byte strings put in |
| `Parts.SplitOff` | mountpoint-s3-fs/src/prefetch/part.rs:49-57 | the two parts hold the bytes of the one, in order, each labelled with object, offset and the delivered buffer it was cut from |
| `SeekWindows.SeekWindow.Clear` | mountpoint-s3-fs/src/prefetch/seek_window.rs:74-77 | nothing is left in the window |
| `SeekWindows.SeekWindow.Push` | mountpoint-s3-fs/src/prefetch/seek_window.rs:27-43 | the window is the new part after the last parts of what was there, of which no more were dropped than it took to make room; nothing is left if the part alone is too large |
| `SeekWindows.SeekWindow.ReadBack` | mountpoint-s3-fs/src/prefetch/seek_window.rs:47-71 | takes exactly the last `length` bytes, in order, if and only if there are that many |
| `Backpressure.NextMultipleOf` | mountpoint-s3-fs/src/prefetch.rs:564-566 | the least multiple not below the number |
| `Backpressure.Align` | mountpoint-s3-fs/src/prefetch/backpressure_controller.rs:37-48 | moves an end up by less than a part, onto a part boundary unless it lies before the first; with alignment off it stays |
| `Backpressure.BackpressureController.constructor` | mountpoint-s3-fs/src/prefetch/backpressure_controller.rs:119-153 | the first window is reserved in full |
| `Backpressure.BackpressureController.DataRead` | mountpoint-s3-fs/src/prefetch/backpressure_controller.rs:162-216 | releases what was read, reserves exactly what the window grows by, and leaves half a preferred window ahead of the reader or the window at the end of the request; it does not grow while half is left, nor by a part or more past the preferred size, and its ends are aligned, if that is asked, or final |
| `Backpressure.BackpressureController.ScaleDown` | mountpoint-s3-fs/src/prefetch/backpressure_controller.rs:264-280 | above the minimum the preferred size is divided by the multiplier, within minimum and maximum, and strictly shrinks, so the loop around it ends |
| `Backpressure.BackpressureController.PartQueueStall` | mountpoint-s3-fs/src/prefetch/backpressure_controller.rs:239-261 | the preferred size is multiplied by the multiplier, within minimum and maximum, exactly if it is below the maximum and as much memory is available |
| `Backpressure.BackpressureController.Drop` | mountpoint-s3-fs/src/prefetch/backpressure_controller.rs:283-293 | what is reserved for the unread part of the window is released |
| `RequestTasks.PartQueue.Read` | mountpoint-s3-fs/src/prefetch/part_queue.rs:64-99 | the piece followed by what is still ahead is what was ahead; it is shorter than asked only where a part ends, and the call fails if and only if nothing was ahead |
| `RequestTasks.PartQueue.PushFront` | mountpoint-s3-fs/src/prefetch/part_queue.rs:102-111 | the part is next to be read, and memory is reserved for it |
| `RequestTasks.RequestTask.constructor` | mountpoint-s3-fs/src/prefetch/task.rs:24-37 | a request has its whole range remaining and its first window reserved |
| `RequestTasks.RequestTask.Read` | mountpoint-s3-fs/src/prefetch/task.rs:49-71 | the piece read, the bytes ahead, the bytes remaining and the memory held change together; the preferred window grows when the reader has caught up and memory allows, and not otherwise; a failure changes none of them |
| `RequestTasks.RequestTask.PushFront` | mountpoint-s3-fs/src/prefetch/task.rs:40-47 | several parts pushed back come out again in their order |
| `RequestTasks.DeliveredIff` | mountpoint-s3-fs/src/prefetch/part_queue.rs:64-99 | the buffers a stream delivers are exactly those of the parts received before any failure |
| `RequestTasks.ArrivalsAreDelivered` | mountpoint-s3-fs/src/prefetch/part_queue.rs:64-99 | every byte that arrives was cut from a buffer that the stream delivered before it failed or stopped |
| `Prefetcher.SeekWindowReservation` | mountpoint-s3-fs/src/prefetch.rs:564-566 | the least whole number of parts that holds the window |
| `Prefetcher.CheckedPartIsRight` | mountpoint-s3-fs/src/prefetch/part.rs:41-43 | a part that passes the check on object and offset was cut from a delivered buffer, and carries the object's bytes at that offset if it validates |
| `Prefetcher.OrderedPartPasses` | mountpoint-s3-fs/src/prefetch/part.rs:75-89 | a part of a stream in order passes that check |
| `Prefetcher.PrefetchGetObject.constructor` | mountpoint-s3-fs/src/prefetch.rs:288-318 | a new handle holds exactly its seek window's reservation |
| `Prefetcher.PrefetchGetObject.Reset` | mountpoint-s3-fs/src/prefetch.rs:470-476 | starts over at the offset with nothing in flight and the abandoned request's window released |
| `Prefetcher.PrefetchGetObject.SeekForward` | mountpoint-s3-fs/src/prefetch.rs:491-527 | declines, changing nothing, if and only if no request is in flight or the offset is past the window or too far ahead of what was received; otherwise reaches the offset by consuming the stream, or fails because the stream did |
| `Prefetcher.PrefetchGetObject.SeekBackward` | mountpoint-s3-fs/src/prefetch.rs:529-551 | succeeds if and only if a request is in flight and the seek window reaches back far enough; the bytes pushed back are ahead again, in order |
| `Prefetcher.PrefetchGetObject.ReachesBack` | mountpoint-s3-fs/src/prefetch.rs:529-551 | as long as no more was read than the seek window can hold, every byte read since the last reset can be sought back |
| `Prefetcher.PrefetchGetObject.Spawn` | mountpoint-s3-fs/src/prefetch.rs:436-467 | fails if and only if the client has no flow control or an empty first window; otherwise a request to the end of the object is in flight, with the configured first window |
| `Prefetcher.PrefetchGetObject.NewTask` | mountpoint-s3-fs/src/prefetch/part_stream.rs:232-251 | a new request has the rest of the object remaining, the initial request or else one part as its first window, reserved, the configured bounds and alignment, and nothing read |
| `Prefetcher.PrefetchGetObject.Adopt` | mountpoint-s3-fs/src/prefetch.rs:400-402 | taking up a new request leaves the account in balance, with the buffers of its stream as the sources of later results |
| `Prefetcher.PrefetchGetObject.Position` | mountpoint-s3-fs/src/prefetch.rs:377-398 | the next offset is the wanted one, by a seek that keeps the request in flight exactly when it can serve the offset, and else by starting over; what is lost from the account is exactly what an abandoned request still owed |
| `Prefetcher.PrefetchGetObject.SlackIsUntold` | mountpoint-s3-fs/src/prefetch/backpressure_controller.rs:283-293 | what dropping the request would leave reserved is what was pushed back and not read again |
| `Prefetcher.PrefetchGetObject.ReadChecked` | mountpoint-s3-fs/src/prefetch.rs:404-418 | one piece, checked, lies at the next offset, was cut from a buffer the stream delivered, and is the object's bytes there if it validates |
| `Prefetcher.PrefetchGetObject.Serve` | mountpoint-s3-fs/src/prefetch.rs:400-431 | the result is joined from pieces of the buffers the stream delivered, laid end to end over exactly the range asked for; it fails only if the stream is incomplete or delivered a corrupt buffer |
| `Prefetcher.PrefetchGetObject.TryRead` | mountpoint-s3-fs/src/prefetch.rs:358-432 | a result is joined from pieces of what the stream in flight delivered, over the range asked for, clipped to the object; past the end it is empty and nothing changes; what is lost and what is still owed is stated for every case |
| `Prefetcher.PrefetchGetObject.Read` | mountpoint-s3-fs/src/prefetch.rs:323-356 | every result is joined from pieces of what the stream in flight delivered, over exactly the range asked for; it is the object's bytes if that stream is uncorrupted, and if it validates and the stream delivered at most one corrupt buffer; a faithful stream always gives a result; the request in flight is kept exactly when it can serve the offset; after an error the handle has started over there; from every state, the reservations lost and the bytes still owed are given exactly |
| `Prefetcher.PrefetchGetObject.Visit` | mountpoint-s3-fs/src/prefetch.rs:323-356 | one read changes the handle as the account of its visits says, keeps the request in flight exactly when that can serve the offset, and is answered from the stream kept or newly started |
| `Prefetcher.PrefetchGetObject.Drop` | mountpoint-s3-fs/src/prefetch.rs:572-580 | everything reserved is released but what was lost before and what was pushed back and never read again; the length of the last contiguous run does not underflow |
| `Prefetcher.Session` | mountpoint-s3-fs/src/prefetch.rs:323-356 | over every session of reads: every result has its length and is joined from what one of the session's streams delivered; it is the right bytes if no stream delivers a corrupt buffer, and if it validates and no stream delivers more than one; one for each read if streams are faithful; if streams are in order, what stays reserved at the end is what the account of the visits says, nothing if and only if no bytes pushed back were abandoned, and nothing if all reads ask for something |
| `Prefetcher.ServesIsRight` | mountpoint-s3-fs/src/prefetch.rs:403-431 | a result joined from given sources has the length asked for, is right if they are uncorrupted, and is right if at most one is corrupt and it validates |
| `Prefetcher.CorruptionShows` | mountpoint-s3-fs/src/prefetch.rs:323-356 | the same for all results of a session, by what its streams deliver |
| `Prefetcher.PositiveLengthsLoseNothing` | mountpoint-s3-fs/src/prefetch.rs:323-356 | a session of reads that all ask for something leaves nothing reserved |
| `Prefetcher.EmptyReadLeaks` | mountpoint-s3-fs/src/prefetch.rs:373-398 | after reading `n` bytes, a zero-length read at `back`, one more read and closing the handle, `n - back` bytes stay reserved if that read was past the end or of nothing, and none if it read at `back` |
| `SeekAccounts.PendingIff` | mountpoint-s3-fs/src/prefetch.rs:529-551 | bytes are owed if and only if some visit pushed them back and every visit since was past the end or of nothing, no further ahead |
| `SeekAccounts.LostIff` | mountpoint-s3-fs/src/prefetch.rs:470-476 | reservations were lost if and only if some visit abandoned a request while bytes were owed |
| `SeekAccounts.AccountIff` | mountpoint-s3-fs/src/prefetch.rs:572-580 | nothing stays reserved if and only if no bytes pushed back were abandoned, by a later visit or by closing |
| `SeekAccounts.NonEmptyReadsLoseNothing` | mountpoint-s3-fs/src/prefetch.rs:323-356 | reads that all ask for something lose nothing |
| `MemLimiter.StepCounts` | mountpoint-s3-fs/src/mem_limiter.rs:92-135 | every step of every thread keeps the counter equal to the outstanding reservations, modulo its width; a release may draw on several reservations |
| `MemLimiter.StepSafe` | mountpoint-s3-fs/src/mem_limiter.rs:98-129 | every step keeps the counter exact and the conditional reservations within the limit less the additional reserve |
| `MemLimiter.WhoExceedsTheLimit` | mountpoint-s3-fs/src/mem_limiter.rs:90-129 | only an unconditional reservation, a growing pool, or a swap after the pool outgrew the figure sampled, takes the total over the limit |
| `MemLimiter.SafeRun` | mountpoint-s3-fs/src/mem_limiter.rs:72-145 | both invariants over every run and every interleaving |
| `MemLimiter.SafeFromNew` | mountpoint-s3-fs/src/mem_limiter.rs:73-88 | every run from a new limiter sets the larger of 128 MiB and an eighth of the limit aside, counts, and keeps conditional reservations within the limit less that, as long as `reserve` does not overflow the counter |
| `MemLimiter.SwapCountsIff` | mountpoint-s3-fs/src/mem_limiter.rs:102-120 | a successful swap keeps the count if and only if the sum fits 64 bits |
| `MemLimiter.LargestLimitLosesCount` | mountpoint-s3-fs/src/mem_limiter.rs:102-120 | with the largest possible limit there is a run that loses count |
| `MemLimiter.AdmitsExact` | mountpoint-s3-fs/src/mem_limiter.rs:102-107 | below the largest limit, the saturating comparison is the true one |
| `MemLimiter.AvailableIffAdmitted` | mountpoint-s3-fs/src/mem_limiter.rs:138-145 | a request of positive size is admitted at an instant if and only if it is at most the available figure |
| `MemLimiter.ObserveLinearized` | mountpoint-s3-fs/src/mem_limiter.rs:100-111 | a call takes effect as a failure at the moment it reads a counter that rules it out |
| `MemLimiter.SwapLinearized` | mountpoint-s3-fs/src/mem_limiter.rs:113-125 | a call takes effect as a success at its swap |
| `MemLimiter.StepLinearized` | mountpoint-s3-fs/src/mem_limiter.rs:92-135 | every step keeps a sequential history that explains the counter and every settled call |
| `MemLimiter.LinearizableRun` | mountpoint-s3-fs/src/mem_limiter.rs:98-129 | the same over every run with a steady pool figure; the history only grows |
| `MemLimiter.ReturnIsLinearized` | mountpoint-s3-fs/src/mem_limiter.rs:98-129 | a call returns what a sequential limiter would answer at exactly one point between its invocation and its return |
| `MemLimiter.EventsAreLogged` | mountpoint-s3-fs/src/mem_limiter.rs:92-135 | each atomic step enters exactly its operation in the sequential history |
| `MemLimiter.UndisturbedCall` | mountpoint-s3-fs/src/mem_limiter.rs:98-129 | for every limit but the largest 64-bit number, a call that no other disturbs succeeds exactly if the total would stay within the limit, and then adds its size |
| `KeyOrder.LessIff` | mountpoint-s3-client/src/mock_client.rs:295-297 | a key is less than another exactly if it is a proper prefix or has the smaller character where they first differ |
| `KeyOrder.PrefixConvex` | mountpoint-s3-client/src/mock_client.rs:293-297 | keys that share a prefix stand together in key order |
| `KeyOrder.TruncatedMonotone` | mountpoint-s3-client/src/mock_client.rs:299-311 | cutting keys to a common length keeps their order |
| `KeyOrder.PrefixesOrdered` | mountpoint-s3-client/src/mock_client.rs:318-332 | prefixes neither of which extends the other are ordered as the keys they come from |
| `Listing.FirstMatch` | mountpoint-s3-client/src/mock_client.rs:343 | the first occurrence of the delimiter, or that there is none |
| `Listing.RollUpClosed` | mountpoint-s3-client/src/mock_client.rs:334-347 | every key that starts with a common prefix is rolled up into that same common prefix |
| `Listing.EntriesStandTogether` | mountpoint-s3-client/src/mock_client.rs:318-332 | in key order, the keys of one entry are consecutive |
| `Listing.CommonPrefixesOrdered` | mountpoint-s3-client/src/mock_client.rs:334-347 | distinct common prefixes are ordered as their keys |
| `Listing.EntriesExact` | mountpoint-s3-client/src/mock_client.rs:334-358 | the one-shot listing holds exactly the entries that keys under the prefix contribute, each once; what a key contributes is said by EntryIff |
| `Listing.EntryIff` | mountpoint-s3-client/src/mock_client.rs:334-358 | a key is an object exactly if no delimiter occurs after the prefix, and is rolled up exactly into its text up to the end of the first one |
| `Listing.ObjectsIff` | mountpoint-s3-client/src/mock_client.rs:334-358 | the objects listed are exactly the keys under the prefix with no delimiter after it |
| `Listing.PrefixesIff` | mountpoint-s3-client/src/mock_client.rs:334-347 | the common prefixes listed are exactly the texts of keys under the prefix up to the end of the first delimiter after it |
| `Listing.EntriesAreListing` | mountpoint-s3-client/src/mock_client.rs:334-361 | both, for the one-shot listing |
| `Listing.EntriesAscend` | mountpoint-s3-client/src/mock_client.rs:334-361 | objects and common prefixes both come out strictly ascending |
| `Listing.NewEntrySeparates` | mountpoint-s3-client/src/mock_client.rs:318-332 | no key after one that starts a new entry goes back to an earlier entry |
| `Listing.NothingAfter` | mountpoint-s3-client/src/mock_client.rs:299-311 | stopping at a key above the prefix misses nothing |
| `OrderedListing.NotYetListed` | mountpoint-s3-client/src/mock_client.rs:323-332 | comparing with the last common prefix alone tells whether a key is already covered by any |
| `OrderedListing.TokenSplits` | mountpoint-s3-client/src/mock_client.rs:323-332 | the listing splits at the token into what is on the page and what resuming there lists, which is not empty |
| `OrderedListing.TokenAdvances` | mountpoint-s3-client/src/mock_client.rs:323-332 | a key beyond the first one iterated is above the token |
| `OrderedListing.StartIff` | mountpoint-s3-client/src/mock_client.rs:293-297 | resuming takes exactly the keys not below the token |
| `OrderedListing.ListObjects` | mountpoint-s3-client/src/mock_client.rs:274-368 | a page is the first `max_keys` entries of what remains; there is a token if and only if entries are left over; resuming there leaves exactly those; tokens strictly increase |
| `OrderedListing.ListAll` | mountpoint-s3-client/src/mock_client.rs:274-368 | following the tokens ends, and the pages put together are the one-shot listing of the bucket, ascending and without duplicates: exactly the keys and common prefixes that their text calls for; all pages but the last are full |
| `UnorderedListing.ListObjects` | mountpoint-s3-client/src/mock_client.rs:370-432 | a page lists the next `max_keys` keys of the order, no common prefix twice; there is a token if and only if the page was full |
| `UnorderedListing.ListInLots` | mountpoint-s3-client/src/mock_client.rs:395-431 | keys listed in two lots have the objects of the lots in turn and the common prefixes of either |
| `UnorderedListing.SameKeysSameListing` | mountpoint-s3-client/src/mock_client.rs:385-390 | the order of the keys does not matter to what is listed |
| `UnorderedListing.ListAll` | mountpoint-s3-client/src/mock_client.rs:370-432 | in any fixed order the pages list the same objects as the ordered listing, each once, and the same common prefixes, each at most once per page: exactly those that the text of the keys calls for |
| `RequestTarget.WriteEncodedFragment` | mountpoint-s3-client/src/s3_crt_client.rs:948-951 | appends the encoding of the piece, which is the piece itself if its bytes are all plain |
| `RequestTarget.WriteQuery` | mountpoint-s3-client/src/s3_crt_client.rs:977-996 | appends the query, separators only between pairs and nothing for no pairs |
| `RequestTarget.SetRequestPathAndQuery` | mountpoint-s3-client/src/s3_crt_client.rs:1011-1026 | the target written is the one of which ParseUndoesPrint speaks; a path of plain bytes and slashes is written as it is |
| `RequestTarget.EncodedByte` | mountpoint-s3-client/src/s3_crt_client.rs:944-951 | letters, digits, `-._~` and in paths the slash stand for themselves; every other byte becomes a percent sign and two upper-case hexadecimal digits |
| `RequestTarget.EncodedForm` | mountpoint-s3-client/src/s3_crt_client.rs:944-951 | encoded text is longer by two for each byte escaped and has nothing but plain bytes and percent signs; a query has no slash |
| `RequestTarget.EncodedAsItIs` | mountpoint-s3-client/src/s3_crt_client.rs:944-951 | text is left as it is exactly if all its bytes are plain |
| `RequestTarget.QueryForm` | mountpoint-s3-client/src/s3_crt_client.rs:977-996 | the question mark, equals sign and ampersands stand where they should |
| `RequestTarget.DecodeUndoesEncode` | mountpoint-s3-client/src/s3_crt_client.rs:944-951 | percent-decoding gives back any bytes, in either character set |
| `RequestTarget.EncodedHasNoSeparators` | mountpoint-s3-client/src/s3_crt_client.rs:944-946 | encoded text contains no `?`, `&` or `=` |
| `RequestTarget.ParsePrintedPair` | mountpoint-s3-client/src/s3_crt_client.rs:981-988 | a printed pair splits at `=` into what went in, and has no `&` |
| `RequestTarget.ParsePrintedPairs` | mountpoint-s3-client/src/s3_crt_client.rs:979-989 | a printed query splits at `&` into the same list of pairs |
| `RequestTarget.ParseUndoesPrint` | mountpoint-s3-client/src/s3_crt_client.rs:1011-1026 | split and decoded, a target gives back path and pairs, whatever bytes they contain |
| `RequestTarget.PrintInjective` | mountpoint-s3-client/src/s3_crt_client.rs:1011-1026 | requests with different paths or pairs have different targets |
| `ContentRange.ExtractIff` | mountpoint-s3-client/src/s3_crt_client.rs:1302-1319 | a range is extracted if and only if the header is `bytes `, two 64-bit numbers with a dash between, and a slash; it starts at the first number, and ends after the last if and only if that is not the largest |
| `ContentRange.ParseIff` | mountpoint-s3-client/src/s3_crt_client.rs:1314-1315 | a number is parsed exactly from digits, perhaps after a plus sign, that spell at most 2^64 - 1 |
| `ContentRange.LeadingZero` | mountpoint-s3-client/src/s3_crt_client.rs:1314-1315 | leading zeros do not change the number |
| `ContentRange.ParseDecimal` | mountpoint-s3-client/src/s3_crt_client.rs:1314-1315 | a 64-bit number printed in decimal is parsed back |
| `ContentRange.ExtractPrinted` | mountpoint-s3-client/src/s3_crt_client.rs:1302-1319 | what a server prints for a range is what is extracted if and only if the last position is not the largest number |
| `ContentRange.LargestLastPositionWraps` | mountpoint-s3-client/src/s3_crt_client.rs:1317-1318 | with the largest last position the range ends at 0 |
| `Manifest.SpelledBigEndian` | mountpoint-s3-fs/examples/create_manifest.rs:59-60 | the eight bytes of a size determine it |
| `Manifest.BigEndianFirstByteFirst` | mountpoint-s3-fs/examples/create_manifest.rs:59-60 | the most significant byte of a size comes first |
| `Manifest.UnquotedJoins` | mountpoint-s3-fs/examples/create_manifest.rs:75 | an etag loses exactly its quotation marks |
| `Manifest.UpdateContinues` | mountpoint-s3-crt/src/checksums/crc32c.rs:41-43 | feeding the hasher piece by piece gives the checksum of the whole |
| `Manifest.ComputeChecksum` | mountpoint-s3-fs/examples/create_manifest.rs:55-62 | an entry's checksum is that of key, etag and size laid end to end |
| `Manifest.RunningIsChecksum` | mountpoint-s3-fs/src/manifest/csv_reader.rs:42-45 | the running checksum of sound entries is the CRC32C of all their bytes laid end to end |
| `Manifest.OneWrongRowIsDetected` | mountpoint-s3-fs/src/manifest/csv_reader.rs:42-71 | a wrong checksum in any single row changes the running checksum, however many rows follow |
| `Manifest.WriteToManifest` | mountpoint-s3-fs/examples/create_manifest.rs:64-86 | a page adds its objects' entries in order and keeps the running checksum that of everything written |
| `Manifest.CreateManifest` | mountpoint-s3-fs/examples/create_manifest.rs:88-110 | each entry has the object's key after the prefix, its etag without quotation marks, its size and the checksum of the three; entries and final checksum do not depend on how the listing was divided into pages; the checksum is the CRC32C of all entries' bytes |
| `Manifest.CsvReader.Next` | mountpoint-s3-fs/src/manifest/csv_reader.rs:51-71 | rows are handed out in order, good or bad, and at the end, once, the news that the running checksum is not the expected one |
| `Manifest.Ingest` | mountpoint-s3-fs/src/manifest/builder.rs:292-327 | a manifest is taken in if and only if every row parses and is valid or a directory marker and the running checksum of all rows is the expected one; what is inserted is the files, in order |
| `Manifest.FilesExact` | mountpoint-s3-fs/src/manifest/builder.rs:292-327 | exactly the rows that are files are inserted, as often as they occur |
| `Manifest.RoundTrip` | mountpoint-s3-fs/src/manifest/builder.rs:185-205 | a manifest written page by page is taken in whole if its fields are valid, and never with a wrong checksum in any one row |
| `Ramp.MakeRampBytes` | mountpoint-s3-client/src/mock_client.rs:51-57 | the table is the ramp from the seed on, modulo 251 |
| `Ramp.RampByteCounts` | mountpoint-s3-client/src/mock_client.rs:44-57 | the ramp starts at 0, counts up by one, and starts over at every multiple of 251 |
| `Ramp.TablePiece` | mountpoint-s3-client/src/mock_client.rs:589-601 | a table piece read at the right phase is the ramp after any whole number of chunks, and lies inside the table |
| `Ramp.Generate` | mountpoint-s3-client/src/mock_client.rs:589-601 | copying chunks of the table yields exactly the simple ramp from any offset, of any size: each byte one more than the one before, or 0 at a multiple of 251 |
| `GetStream.BackpressureHandle.IncrementReadWindow` | mountpoint-s3-client/src/mock_client.rs:743-759 | the window moves by the increment; the failure flag goes up exactly if alignment is insisted on and the window ends inside the range off a part boundary |
| `GetStream.BackpressureHandle.EnsureReadWindow` | mountpoint-s3-client/src/mock_client.rs:761-764 | the window ends up at the desired offset or beyond whatever other clones add meanwhile, and exactly there if they add nothing |
| `GetStream.GetObject` | mountpoint-s3-client/src/mock_client.rs:936-997 | each refusal (bucket, key, etag, range) under its exact condition; otherwise a response for the range with the configured part size, window and alignment check |
| `GetStream.GetObjectResponse.PollNext` | mountpoint-s3-client/src/mock_client.rs:816-849 | a part is the next part-size bytes of the range, or what is left of it; the end comes exactly when the range is done, and each error exactly when an increment has failed or the window is used up |
| `GetStream.GetObjectResponse.Collect` | mountpoint-s3-client/src/mock_client.rs:783-792 | collects exactly the rest of the range, or stops at the first error |
| `GetStream.Interleave` | mountpoint-s3-client/src/mock_client.rs:742-849 | over any interleaving of polls, increments and the two steps of ensure calls by any clones: parts are contiguous and a prefix of the range, the window never shrinks, an ensure call leaves it where it was asked to be or beyond, and delivery never gets a whole part past it |
| `ObjectStore.MockClient.PutObject` | mountpoint-s3-client/src/mock_client.rs:240-265 | a refused request changes nothing; an accepted one changes its own key only |
| `ObjectStore.MockClient.AppendObject` | mountpoint-s3-client/src/mock_client.rs:435-501 | each refusal in the source's order of precedence, of which AnswerIsDue says when it is due; otherwise the object becomes the old bytes and the new |
| `ObjectStore.AcceptedIff` | mountpoint-s3-client/src/mock_client.rs:435-501 | a request is accepted if and only if its checksum is right and, for an append, it starts where the bytes accumulated so far end, names their etag if any, and goes on with the last checksum algorithm without appending nothing to something |
| `ObjectStore.AnswerIsDue` | mountpoint-s3-client/src/mock_client.rs:435-501 | every request gets the answer that the history before it calls for: stored with its etag, or the one refusal whose condition holds |
| `ObjectStore.DueIsUnique` | mountpoint-s3-client/src/mock_client.rs:435-501 | no other answer is called for |
| `ObjectStore.ResultIsObject` | mountpoint-s3-client/src/mock_client.rs:622-637 | what an accepted request stores is the accumulated bytes with their etag and checksum |
| `ObjectStore.StepExplained` | mountpoint-s3-client/src/mock_client.rs:240-265 | one request keeps the explanation of every key by its history |
| `ObjectStore.History` | mountpoint-s3-client/src/mock_client.rs:240-501 | over any history: each request got the answer that the history before it calls for; every object is its last whole put followed by the appends accepted since, with the etag and the checksum of exactly those bytes; a key no request was accepted on does not exist |

## Left out

- Integrity validation switched off: the mode, chosen by an environment variable, in which shrinking and extending skip their checks.
- The 2 GiB bound on one call of the checksum routine, and the C implementation of combining, of which the model gives the meaning.
- Normalising range bounds in `slice`; the model takes the two offsets.
- In `Integrity` the steps of shrinking and extending may come in more orders than the program has, so its results cover more runs; reading a buffer to checksum it is one step.
- Integrity.ChecksumTracksOriginal: assumes that corruption is never undone and that it changes the checksum of a buffer that shrinking validates; CRC32C cannot promise that for arbitrary corruption.
- Integrity.ValidatedBytesAreOriginal: assumes the same of the buffer validated.
- IntegrityRefinement.ValidatedBytesArePlain: assumes the same of the buffer validated.
- Prefetcher.Session: a corrupt part is one whose buffer fails validation; a part with wrong bytes that validate is assumed not to be delivered, which CRC32C cannot promise for arbitrary corruption. The account of reserved memory is proved for part sizes and largest windows of at least 2 and initial request sizes other than 1, and for streams that deliver in order.
- In the prefetcher parts are corrupted before they are queued, not while they wait there; corruption at any moment is the subject of `Integrity`.
- The producer side of a request (splitting it in two, the caching stream, the channel of window increments), cancellation of a read, metrics, the cache flag of a part and the preferred part size.
- Wrap-around of byte offsets at 64 bits in the prefetcher and the streams, where offsets are unbounded.
- Releasing more than was reserved: in `MemLimiter` a release takes back parts of outstanding reservations.
- MemLimiter.LinearizableRun: needs the pool figure to be steady, since the limiter samples it apart from its counter.
- MemLimiter.ReturnIsLinearized: the same.
- Memory orderings: all atomic operations are taken in one order, as the source asks for.
- Metadata of listed objects (size, time, etag, storage class).
- OrderedListing.ListAll: a page size of 0 is covered for single pages only, as following its tokens never ends.
- UnorderedListing.ListAll: the same; the shuffle is any fixed order, and tokens are numbers rather than their decimal text.
- RequestTarget.ParseUndoesPrint: says nothing of an action, which is written as it is given.
- The CSV syntax of a manifest, the rules by which a row's fields are valid (any function here), and the database its entries go into.
- GetStream.GetObject: takes ranges that do not end before they start, as the source's subtraction does.
- Everything else in the repository: the FUSE layer, superblock and inodes, uploads, the data caches, the endpoint and authentication code, command line and logging.
