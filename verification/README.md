# Verified models of ReductStore's core

ReductStore keeps time-stamped records and moves them between clients, extensions and other
instances. This project models the parts of it in which a mistake loses or mixes up data, and
proves what those parts are for:

* **Batched records** (`EntryNames`, `LabelDelta`, `RecordHeaders`, `Batch`, `BatchUpdates`,
  `BatchV1`, `LabelText`, `BatchMeaning`; `Text` and `Sorting` below them). Version 2 of the protocol packs the records of
  several entries into HTTP headers and sends labels as differences from the previous record of
  the entry. A whole batch, encoded record by record and decoded in any header order with the
  final label table, gives back every record; the decoder for label updates is compared with the
  decoder for records, and the version 1 decoder with the version 2 decoder. The label texts that
  both parsers accept are characterised by a grammar, with the labels they are read as.
* **Replication** (`Replication`, `ReplicationPass`, `ReplicationSender`, `ReplicationDelivery`,
  `TransactionLog`, `ReplicationOverflow`). A pass prepares the batch of one entry while the previous one is being
  sent. The pipeline refines the pass that does one after the other, a log that has room only ever
  loses an acknowledged front, and the results account for every transaction taken. What a pass
  sends, removes and reports is known exactly, and passes over readable logs empty them.
* **Extensions** (`ExtPipeline`, `ExtStages`). Records go through a pipeline of stateful steps one at a time and
  the steps are flushed at the end; this is the composition of the steps on the whole stream, and
  each step is its processor, its filter and its committer one after the other.
* **Rate limits** (`RateLimits`). Fixed windows with pruned counters: pruning is invisible, clients
  do not affect each other, and any span of one window length admits at most twice the limit.
* **Files** (`Cache`, `BackendFile`, `FileSync`, `FileFairness`, `FileInsert`). The expiring cache is
  a list by recency; a file marked as synced is mirrored in the remote storage; a round of the
  synchronisation worker selects a file exactly when fewer than a batch are ahead of it, so that it
  does not starve a file while uploads succeed; which files an insert loses is known exactly.
* **Lock file** (`LockFile`). Two instances share a file; when both can hold the lock in some
  interleaving is known exactly, however far apart the primary's refreshes are.
* **Diagnostics** (`Diagnostics`) and **log levels** (`Logger`).

`Common` holds the option type and other shared definitions. Where the code changes state, the model is a class or a loop proved
against a specification function, and the laws are lemmas about these functions. Hash-map iteration
orders, clocks, what storage and network answer, and lock contention are parameters over which the
statements quantify.

`dafny verify dfyconfig.toml` checks everything.

## What does not hold

Some expectations are false of the code. For each, a lemma gives the exact condition under which it
holds.

* A name with a percent sign does not survive its encoding, because `%` itself is not encoded
  (`EntryNames.NameRoundTripIff`).
* A label value survives being sent only if it is printable ASCII and meets a condition on its
  quotes, commas and outer white space (`LabelDelta.ValueRoundTripIff`); likewise a content type
  (`RecordHeaders.ContentTypeRoundTripIff`).
* The decoder goes on reporting a computed label that later records of the entry lack
  (`Batch.ComputedExactIff`).
* The decoder for label updates loses a label that one delta first removes and then sets
  (`BatchUpdates.UpdatesAgreeIff`, `BatchUpdates.SetAfterRemoveDisagrees`).
* An answer of the remote bucket with more errors than records wraps the count of sent records
  around (`Replication.AccountingIff`).
* Of several records with the same time in one batch only the last one counts for the replicated bytes
  (`Replication.SumIsCounted`).
* A log that overflows while its front is being sent loses transactions that were never sent
  (`ReplicationOverflow.PopAfterPushesIff`).
* A smaller capacity can leave an empty log standing behind its end (`TransactionLog.OpenedSoundIff`).
  Such a log overwrites transactions without returning them once more are pushed than it has slots
  (`TransactionLog.MisplacedDeliversIff`), and its length is wrong or wraps around
  (`TransactionLog.MisplacedLen`).
* A query whose channel closes loses what its steps hold back (`ExtPipeline.ClosedQueryIff`).
* A limit of 2^64 - 1 does not limit (`RateLimits.SpanBoundIff`). A clock that first runs past the end
  of a window and then returns into it makes pruning visible (`RateLimits.PruningUnseenIff`). A client
  that waits as long as it is told is refused again if the clock was behind the window
  (`RateLimits.RetryIff`).
* A file is never synced if and only if every round that finds it overdue has sixteen files ahead of
  it (`FileFairness.StarvesIff`), as it happens when the uploads of sixteen older files keep failing
  (`FileFairness.FailuresStarve`).
* Putting discarded files that are in use back into the cache loses other files, without an upload,
  when there is no room for all of them or one has become too old (`FileInsert.LostIff`,
  `FileInsert.FullCacheLosesIff`). A lost file that is opened again counts as synced although its
  copies may differ (`FileInsert.ReopenLost`).
* Two callers that open the same file at once replace each other's handle; the bytes of the replaced
  one are in the remote storage only if they were before (`FileInsert.ReplacedIff`).
* A file opened over a differing local copy is marked as synced (`BackendFile.OpenMirroredIff`).
* Both instances can hold the lock if three polling intervals fit between two refreshes of the
  primary and the secondary is about to remove a file it had found stale, or can still find the
  primary's file stale (`LockFile.SharedIff`). Dropping a secondary, even one that never locked,
  removes the primary's file (`LockFile.TakenIff`). An instance that could not write the file takes
  itself to hold the lock (`LockFile.WriteFails`).

## Model

| member | source | states |
|---|---|---|
| EntryNames.EncodeEntryName | reduct_base/src/batch/v2.rs:65-97 | the loop over the bytes of a name computes the percent-encoding |
| EntryNames.DecodeEntryName | reduct_base/src/batch/v2.rs:100-133 | the loop over the encoded bytes computes the decoding, with its errors, on every text |
| EntryNames.TcharIff | reduct_base/src/batch/v2.rs:65-84 | the characters that are not encoded, by their codes |
| EntryNames.DecodesIff | reduct_base/src/batch/v2.rs:100-133 | a text is decoded to a name if and only if it spells it: each byte as itself, or as a percent sign and two hexadecimal digits of either case |
| EntryNames.PartsIff | reduct_base/src/batch/v2.rs:136-218 | a list of names is read from exactly those parts that spell them, with any white space around each |
| EntryNames.PercentSwallows | reduct_base/src/batch/v2.rs:65-133 | an unencoded `%` that decodes at all swallows the two bytes after it |
| EntryNames.DecodeEncodeShrinks | reduct_base/src/batch/v2.rs:87-133 | decoding what was encoded never lengthens a name, and a `%` always costs bytes |
| EntryNames.NameRoundTripIff | reduct_base/src/batch/v2.rs:65-133 | a name comes back from its encoding if and only if it has no `%` |
| EntryNames.EntriesHeaderRoundTripIff | reduct_base/src/batch/v2.rs:136-157 | the entries header gives the list of names back if and only if there are names, none is empty and none has a `%` |
| EntryNames.LabelsHeaderRoundTripIff | reduct_base/src/batch/v2.rs:171-218 | the label table comes back from its header if and only if it is not empty, not a single empty name, and no name has a `%` |
| LabelDelta.LabelIndex.Ensure | reduct_base/src/batch/v2.rs:186-204 | a label name gets the next index if it is new, keeps its index otherwise, and names never move |
| LabelDelta.BuildLabelDelta | reduct_base/src/batch/v2.rs:228-288 | the loops over changed, removed and computed labels produce the delta text and the grown table, for every iteration order |
| BatchMeaning.SentIff | reduct_base/src/batch/v2.rs:228-288 | a label is sent if and only if it is new or has changed, and removed if and only if it is gone |
| BatchMeaning.RepeatsIff | reduct_base/src/batch/v2.rs:290-317 | the value of a record is its length alone if and only if it says nothing that its predecessor does not |
| LabelDelta.ParseLabelDeltaOps | reduct_base/src/batch/v2.rs:451-493 | the parsing loop ends on every text and computes the operations or the first error |
| LabelText.OpsOfWritten | reduct_base/src/batch/v2.rs:451-493 | any list of keys and values, quoted or not, with any white space around keys and values and any commas behind a quoted value, is read as its operations with their names, or refused for the first key that is refused |
| LabelText.AcceptedIff | reduct_base/src/batch/v2.rs:451-493 | the texts that the parser accepts are exactly these lists with keys that are not refused |
| LabelText.ResolvesIff | reduct_base/src/batch/v2.rs:411-429 | with a table, a decimal number stands for the name at its index and is refused out of range; any other key stands for itself unless it starts with `@` |
| LabelText.HeaderV2 | reduct_base/src/batch/v2.rs:516-573 | a whole header with white space anywhere is read as its length, its content type, or that of the previous record if it is blank, and the previous labels with its operations applied |
| Text.ParseU64Iff | reduct_base/src/batch/v2.rs:411-429 | the texts that are read as a number are exactly its decimal digits with any leading zeros and an optional plus sign, up to 2^64 - 1 |
| Text.SpaceIff | reduct_base/src/batch/v2.rs:451-493 | the characters that are trimmed, by their codes |
| Text.HeaderValueIff | reduct_base/src/batch/v2.rs:290-317 | the texts that can be made a header value and those that can be read from one, by the codes of their characters |
| LabelDelta.ParseRendered | reduct_base/src/batch/v2.rs:228-288 | any rendered list of changes, with values that survive, parses back to the operations with their names |
| LabelDelta.ChangeIsTextIff | reduct_base/src/batch/v2.rs:228-288 | a rendered change is text for a header if and only if its value is |
| LabelDelta.ValueRoundTripIff | reduct_base/src/batch/v2.rs:451-493 | a formatted label value can be put into a header, read from it as text and parsed back if and only if it is printable ASCII or tabs, non-empty, trimmed, and has no quote when it has a comma, or else does not start with one |
| RecordHeaders.MakeRecordHeaderValue | reduct_base/src/batch/v2.rs:290-317 | the header value of a record, with the parts left out that the previous record of the entry provides, and the label table it leaves behind; no value where the text is none for a header and the code panics |
| RecordHeaders.RecordValueIsText | reduct_base/src/batch/v2.rs:290-317 | for every record that survives, making the value does not panic and the decoder can read it as text |
| RecordHeaders.ApplyDistinct | reduct_base/src/batch/v2.rs:431-449 | when keys are distinct each label ends as its own operation says, whatever the order, and other labels stay |
| RecordHeaders.OpsReach | reduct_base/src/batch/v2.rs:228-288 | applying the operations of a record, in any order, to the labels of the previous one gives exactly the labels of the record |
| RecordHeaders.OpsMark | reduct_base/src/batch/v2.rs:228-288 | the operations of a record set its computed labels and leave all other marked labels as they were |
| RecordHeaders.SortedChangesNamed | reduct_base/src/batch/v2.rs:228-288 | sorting the changes by table index and reading them with any later table gives the same operations |
| RecordHeaders.DeltaDecodes | reduct_base/src/batch/v2.rs:411-493 | the delta of a record, parsed with any later label table and applied to the decoded labels of its predecessor, gives the labels of the record |
| RecordHeaders.RecordRoundTrip | reduct_base/src/batch/v2.rs:290-573 | a made header value, parsed with the decoded predecessor and any later label table, gives back length, content type and labels, and the predecessor's computed labels overlaid with those of the record |
| RecordHeaders.ContentTypeRoundTripIff | reduct_base/src/batch/v2.rs:516-573 | the content type of a first record comes back from a header if and only if it is printable ASCII or tabs, non-empty, trimmed and without a comma |
| RecordHeaders.NeedsPrevious | reduct_base/src/batch/v2.rs:516-573 | the value of a record that repeats its predecessor is refused by a decoder that has not seen the predecessor |
| Batch.HeaderNameRoundTrip | reduct_base/src/batch/v2.rs:320-348 | entry index and time offset come back from the name of a record header |
| BatchMeaning.HeaderNameIff | reduct_base/src/batch/v2.rs:325-347 | the header names that are read are exactly the prefix, an index, a dash and an offset, both numbers written in any way |
| BatchMeaning.IsBatchedIff | reduct_base/src/batch/v2.rs:579-598 | the headers of a batch are those with the prefix that have nothing but digits behind their last dash |
| BatchMeaning.ListIs | reduct_base/src/batch/v2.rs:579-605 | the headers of a batch are accepted if and only if each of their names can be read; they are listed in order of entry and time, none lost and none added |
| Batch.NamesCollideIff | reductstore/src/api/http/io/read.rs:161-287 | two records of a response share a header name if and only if they have the same entry and the same time |
| Batch.EncodeValues | reductstore/src/api/http/io/read.rs:161-287 | the loop over the records of a response makes every value against the previous record of its entry and the label table so far, and ends without values exactly when one of them is no text for a header |
| Batch.ParseBatchedHeaders | reduct_base/src/batch/v2.rs:579-646 | the decoder loop computes the records in order of entry and time, or the first error, which includes a value that cannot be read as text |
| BatchMeaning.BatchIff | reduct_base/src/batch/v2.rs:579-646 | a batch is decoded to a list of records if and only if its fixed headers can be read and each record has the entry, the time and the header that its value gives after the last record of its entry |
| BatchMeaning.ShortHeaders | reduct_base/src/batch/v2.rs:516-573 | a header of a length alone repeats the previous record and is refused without one; a header without labels keeps the previous labels |
| Batch.PreviousListed | reduct_base/src/batch/v2.rs:579-646 | in the sorted list the nearest earlier header of an entry is the record that its encoder took for the previous one |
| Batch.DecodeLists | reduct_base/src/batch/v2.rs:608-646 | decoding a sorted list of encoded records recovers each of them |
| Batch.FixedParse | reduct_base/src/batch/v2.rs:380-409 | entries, start time and label table come back from the fixed headers of a response |
| Batch.BatchRoundTrip | reduct_base/src/batch/v2.rs:608-646 | a batch of any number of entries with interleaved records, encoded with a growing label table, decodes in any header order to exactly its records, ordered by entry and time, each with the computed labels of its entry so far |
| Batch.ComputedExactIff | reduct_base/src/batch/v2.rs:228-288 | the decoder reports exactly the computed labels of a record if and only if it has every computed label that an earlier record of its entry had |
| Batch.TableNames | reductstore/src/api/http/io/read.rs:161-287 | the label table holds only names of labels and computed labels of the records so far |
| Batch.CleanBatchSurvives | reduct_base/src/batch/v2.rs:608-646 | a condition on the records, on their names, values, types and times, and on the size of their label table, that is enough for the round trip of their batch |
| Batch.UnlabelledSurvives | reduct_base/src/batch/v2.rs:608-646 | every unlabelled record with a clean entry name and content type meets it |
| BatchUpdates.ParseLabelDelta | reduct_base/src/batch/v2.rs:495-514 | the delta split into the labels it sets and the labels it removes |
| BatchUpdates.DeltaMeans | reduct_base/src/batch/v2.rs:495-514 | a delta removes the keys that some operation removes and sets each key to the last value that some operation gives it |
| BatchUpdates.ParseBatchedUpdateHeaders | reduct_base/src/batch/v2.rs:652-717 | the loop computes the label updates of a batch, or the first error, which includes a value that cannot be read as text |
| BatchUpdates.MergeIsReplayIff | reduct_base/src/batch/v2.rs:680-710 | merging a delta in bulk equals replaying its operations one by one if and only if it sets no label after removing it |
| BatchUpdates.LostLabel | reduct_base/src/batch/v2.rs:680-710 | whenever a delta sets a label after removing it, the update that is sent on differs from the replayed one |
| BatchUpdates.StepAgreesIff | reduct_base/src/batch/v2.rs:652-717 | for one record, the merged update equals the labels the record decoder reads if and only if the delta has no set after a remove |
| BatchUpdates.UpdatesAgreeIff | reduct_base/src/batch/v2.rs:608-717 | both decoders accept the same header maps and list the same records, and their labels agree if and only if no delta sets a label after removing it |
| BatchUpdates.OverlayReplay | reduct_base/src/batch/v2.rs:431-449 | replaying operations on pending updates and then applying them equals applying the operations to the labels |
| BatchUpdates.UpdatesReplayDeltas | reduct_base/src/batch/v2.rs:652-717 | with clean deltas, what an update sets and removes is disjoint, and applying it to any labels equals replaying all deltas of the entry so far |
| BatchUpdates.SetAfterRemoveDisagrees | reduct_base/src/batch/v2.rs:608-717 | for every entry, label and value: the headers of a batch whose delta removes the label and then sets it, for which one decoder reports the label and the other removes it |
| BatchV1.ParseLabels | reduct_base/src/batch/v1.rs:26-73 | the label loop of version 1 ends on every text and computes the labels or the first error |
| BatchV1.ParseBatchedHeader | reduct_base/src/batch/v1.rs:26-73 | the version 1 header parser |
| BatchMeaning.ShortHeadersV1 | reduct_base/src/batch/v1.rs:26-73 | version 1 refuses a length alone and reads no labels from a header without them |
| LabelText.LabelsOfWritten | reduct_base/src/batch/v1.rs:46-66 | any such list, and whatever text without an equals sign stands behind it, is read as its labels by version 1 |
| LabelText.ReadIff | reduct_base/src/batch/v1.rs:46-66 | the texts that version 1 accepts are exactly these |
| LabelText.LastDecides | reduct_base/src/batch/v1.rs:46-66 | of several values for a key the last one is kept |
| LabelText.HeaderV1 | reduct_base/src/batch/v1.rs:26-73 | a whole version 1 header with white space anywhere is read as its length, its content type and the labels of its list |
| BatchV1.LoopsAgree | reduct_base/src/batch/v1.rs:26-73 | whatever label text the version 2 loop accepts, the version 1 loop accepts with the same keys and values |
| BatchV1.V1KeepsRemoved | reduct_base/src/batch/v2.rs:431-449 | the labels of version 2 are those of version 1 without the empty ones |
| BatchV1.V1AcceptsV2 | reduct_base/src/batch/v1.rs:26-73 | every stand-alone header that version 2 accepts is accepted by version 1 with the same length, version 2's labels are version 1's non-empty ones, and the types agree if and only if the type is not white space |
| BatchV1.V1EqualsV2Iff | reduct_base/src/batch/v1.rs:26-73 | the two parsers return equal headers if and only if the content type is not white space and no label is removed in the end |
| BatchV1.PlainHeaderAccepted | reduct_base/src/batch/v2.rs:516-573 | version 2 accepts every header of a length and a content type that survives |
| Replication.FillBatch | reductstore/src/replication/replication_sender.rs:202-282 | the loop that reads records into a batch until it is full |
| Replication.FillKeeps | reductstore/src/replication/replication_sender.rs:202-282 | a non-empty prefix of the transactions is taken, split into a batch and failed reads, and the batch exceeds the size limit by no more than its last record |
| Replication.FillTakes | reductstore/src/replication/replication_sender.rs:235-282 | a batch takes all transactions it is given, or stops right behind the first with which it reaches the size limit; it holds exactly the records read, and the counter exactly the failed reads |
| Replication.TakenIsSentOrFailed | reductstore/src/replication/replication_sender.rs:202-282 | each transaction taken is in the batch or failed its local read |
| Replication.AnswerAccounts | reductstore/src/replication/replication_sender.rs:314-341 | for every answer with no more errors than records, the counted results add up to the transactions taken and the counted bytes were read |
| Replication.UnfairAnswerMiscounts | reductstore/src/replication/replication_sender.rs:314-341 | every answer with more errors than records makes the count wrap and exceed what was taken |
| Replication.AccountingIff | reductstore/src/replication/replication_sender.rs:314-341 | the counted records equal the transactions taken if and only if the answer reports no more errors than records |
| Replication.AnswerCounts | reductstore/src/replication/replication_sender.rs:314-341 | the counter after an answer, entry by entry: the failed reads, one success with the records and bytes not reported as failed, one failure for each reported record, or one failure for the whole batch |
| Replication.SumIsCounted | reductstore/src/replication/replication_sender.rs:316-323 | the replicated bytes are the sizes of the records not reported as failed, and of several records with the same time only the last one counts |
| ReplicationPass.RunInv | reductstore/src/replication/replication_sender.rs:108-197 | what every interleaving of passes, sends, answers and appends keeps |
| ReplicationPass.AcknowledgedJustified | reductstore/src/replication/replication_sender.rs:288-363 | every acknowledged transaction was in a batch answered while the bucket was active, or failed its local read there |
| ReplicationPass.AcknowledgedFront | reductstore/src/replication/replication_sender.rs:108-363 | in every interleaving each log is what was ever appended to it minus a front, and each transaction of that front is justified |
| ReplicationPass.OnlyPopRemoves | reductstore/src/replication/replication_sender.rs:288-363 | a log gets shorter only when its batch was answered and the bucket was still active |
| ReplicationPass.PipelineRefinesSequential | reductstore/src/replication/replication_sender.rs:108-197 | however the send task is scheduled, a finished pass made the same calls, left the same logs and returned the same state as the sequential pass, with no send in flight |
| ReplicationPass.PassProgresses | reductstore/src/replication/replication_sender.rs:108-197 | until a pass returns some step is possible, and every step leaves less to do |
| ReplicationPass.PassAccounting | reductstore/src/replication/replication_sender.rs:108-363 | the results that a pass returns add up to the transactions it took into batches, and their bytes to no more than it read |
| ReplicationDelivery.PreparesIff | reductstore/src/replication/replication_sender.rs:202-282 | preparing an entry gives a batch if and only if it has a readable log that is not empty and the record limit is not zero, and otherwise exactly the trouble there is |
| ReplicationDelivery.BatchTakes | reductstore/src/replication/replication_sender.rs:202-282 | the batch takes the front of the log up to the record limit, or up to the record with which it reaches the size limit, and at least one transaction |
| ReplicationDelivery.SentOff | reductstore/src/replication/replication_sender.rs:284-365 | after an answer of an active bucket the log loses as much of what was sent as popping removes, and nothing otherwise |
| ReplicationDelivery.PassDelivers | reductstore/src/replication/replication_sender.rs:108-197 | a pass over readable logs makes one call per entry with something to send, in order, until the bucket is no longer active; the accepted entries lose exactly what was sent, the other logs stay, and the returned state says which of this happened |
| ReplicationDelivery.PassTrouble | reductstore/src/replication/replication_sender.rs:108-197 | a pass sends what it has for the entries before the first whose log cannot be read, and returns with that trouble |
| ReplicationDelivery.SendTrouble | reductstore/src/replication/replication_sender.rs:284-365 | a send that panics has made its call and leaves the log; one that cannot lock the bucket makes no call |
| ReplicationDelivery.PassesDrain | reductstore/src/replication/replication_sender.rs:108-197 | with a bucket that accepts, every pass shortens each log, so that after as many passes as it has transactions a log is empty |
| ReplicationSender.Account | reductstore/src/replication/replication_sender.rs:314-341 | the counters pushed for one answer |
| ReplicationSender.Sender.PrepareBatch | reductstore/src/replication/replication_sender.rs:202-286 | preparing a batch gives what `PreparesIff` and `BatchTakes` say, and changes nothing |
| ReplicationSender.Sender.SendBatch | reductstore/src/replication/replication_sender.rs:288-363 | a send appends one call, and pops the batch from its log only if the bucket is active afterwards |
| ReplicationSender.Sender.Run | reductstore/src/replication/replication_sender.rs:108-167 | the pipelined loop, with the send task running at any point, ends as the sequential pass does, of which `PassDelivers` says what it sends |
| TransactionLog.RingPushFull | reductstore/src/replication/transaction_log.rs:166-197 | writing the last free slot drops exactly the oldest transaction |
| TransactionLog.OpenedSoundIff | reductstore/src/replication/transaction_log.rs:48-157 | a file is accepted if and only if its size and positions fit, and the opened log is then sound if and only if it is not empty or its position is within its new capacity |
| TransactionLog.ShrinkMisplaces | reductstore/src/replication/transaction_log.rs:86-105 | for every size, an empty log at its last slot is accepted and misplaced when opened with one slot fewer |
| TransactionLog.FirstPush | reductstore/src/replication/transaction_log.rs:166-197 | the first push into a misplaced log is written behind its end, returns nothing and wraps the write position |
| TransactionLog.MisplacedPushes | reductstore/src/replication/transaction_log.rs:166-197 | for any number of pushes into a misplaced log: none returns a transaction, the first stays behind the end, and the slots hold exactly the newest of the others |
| TransactionLog.MisplacedDeliversIff | reductstore/src/replication/transaction_log.rs:166-285 | read after that first one, a misplaced log gives all others back if and only if no more were pushed than it has slots |
| TransactionLog.MisplacedLen | reductstore/src/replication/transaction_log.rs:203-213 | while its read position is behind its end, the length of a log is never the number of transactions that can be popped, and it exceeds the slots if and only if the subtraction wraps around |
| TransactionLog.TransactionLog.Len | reductstore/src/replication/transaction_log.rs:203-213 | the length of a sound log is the number of its transactions, also in 64-bit arithmetic that wraps around |
| TransactionLog.TransactionLog.Load | reductstore/src/replication/transaction_log.rs:48-117 | opening the file of a saved log with any capacity is sound exactly under that condition and then gives the transactions it held; an empty one is cut or filled to its new size with its positions unchanged |
| TransactionLog.TransactionLog.PushBack | reductstore/src/replication/transaction_log.rs:166-197 | a push appends, and a push into a full ring drops and returns the oldest transaction; it is the push on raw positions of the rows above |
| TransactionLog.TransactionLog.Front | reductstore/src/replication/transaction_log.rs:215-267 | the first transactions in order, across the end of the ring |
| TransactionLog.TransactionLog.PopFront | reductstore/src/replication/transaction_log.rs:223-285 | removes that many transactions from the front, or all when there are fewer |
| TransactionLog.KeepsNewest | reductstore/src/replication/transaction_log.rs:166-197 | whatever is pushed, the log holds the newest transactions, one fewer than its slots |
| TransactionLog.NothingDropped | reductstore/src/replication/transaction_log.rs:166-197 | what pushes return, in order, and what the log keeps together are all transactions there were |
| TransactionLog.AtSlotIff | reductstore/src/replication/transaction_log.rs:119-157 | the positions that are accepted are exactly those of the slots behind the header |
| TransactionLog.WholeSlotsIff | reductstore/src/replication/transaction_log.rs:119-157 | the file sizes that are accepted are exactly those of a header and whole slots |
| ReplicationOverflow.PushesKeepNewest | reductstore/src/replication/transaction_log.rs:166-197 | pushes onto any log keep the newest of what it held and what is pushed |
| ReplicationOverflow.PopAfterPushesIff | reductstore/src/replication/replication_sender.rs:288-363 | when transactions are pushed between preparing a batch and popping it, the log is all that was appended without the sent front if and only if it did not overflow, and otherwise as many unsent transactions are gone |
| ReplicationOverflow.PushIsAppendIff | reductstore/src/replication/transaction_log.rs:166-197 | a push is the append of the pass model if and only if there is room for it |
| ExtPipeline.StepAllAppend | reductstore/src/ext/ext_repository.rs:402-468 | a step gives the same outputs and state however its inputs are cut into pieces |
| ExtStages.StepIsStages | reductstore/src/ext/ext_repository.rs:402-468 | although it works item by item, a step succeeds if and only if its processor, its filter and its committer each succeed on all they get, and its outputs and states are then those of the three in turn |
| ExtStages.HandedAt | reductstore/src/ext/ext_repository.rs:438-463 | there is one output for each committed record with an entry name, in order, with the committer's entry and content; its computed labels are the committer's where it sets them and the input's elsewhere, and there are no others |
| ExtStages.StepFails | reductstore/src/ext/ext_repository.rs:402-468 | of several inputs the first that fails is the answer of a step |
| ExtStages.ItemsFail | reductstore/src/ext/ext_repository.rs:413-466 | of a stream the first error of an item, of the filter or of the committer is the answer |
| ExtStages.InputFails | reductstore/src/ext/ext_repository.rs:413-424 | one input fails with the error of its processor or with that of its stream |
| ExtStages.CommitFails | reductstore/src/ext/ext_repository.rs:438-466 | the first error of a committer is the answer |
| ExtStages.WholeStepEnds | reductstore/src/ext/ext_repository.rs:491-532 | on a whole stream a step adds the record that its committer still holds |
| ExtStages.FlushLast | reductstore/src/ext/ext_repository.rs:491-532 | flushing the last step gives its record alone, or its error |
| ExtStages.EmittedIs | reductstore/src/ext/ext_repository.rs:470-489 | nothing is answered for a record that gives nothing, and nothing but the error for one that fails |
| ExtPipeline.FeedIsPipe | reductstore/src/ext/ext_repository.rs:470-489 | without errors, feeding records one at a time equals passing all of them through each step in turn |
| ExtPipeline.PipeThenFlush | reductstore/src/ext/ext_repository.rs:491-532 | flushing the steps in turn, each into those after it, completes the composition |
| ExtPipeline.PipelineIsComposition | reductstore/src/ext/ext_repository.rs:402-532 | for any number of steps of any behaviour, feeding record by record and flushing gives the stream of the composed steps |
| ExtPipeline.QueryAnswersComposition | reductstore/src/ext/ext_repository.rs:298-322 | the answers of an error-free query that is told the end of its content are the composed stream followed by the end of content |
| ExtPipeline.ClosedQueryIff | reductstore/src/ext/ext_repository.rs:298-303 | when the channel closes instead, the leftovers of the steps are lost, and the answers are the composed stream if and only if each step in turn flushes nothing or the steps behind it put out nothing for what it flushes |
| ExtPipeline.FlushesNothingIff | reductstore/src/ext/ext_repository.rs:491-532 | a flush that succeeds gives nothing if and only if that condition on the steps holds |
| ExtPipeline.SpentHoldsNothing | reductstore/src/ext/ext_repository.rs:491-532 | steps whose committers all have nothing left meet it |
| ExtPipeline.QueryContext.ProcessPipelineStep | reductstore/src/ext/ext_repository.rs:402-468 | the loop over the inputs of a step: processed, filtered and committed records and the error that stops it |
| ExtPipeline.QueryContext.RunFrom | reductstore/src/ext/ext_repository.rs:470-489 | the loop over the steps from a given one on |
| ExtPipeline.QueryContext.FlushPipeline | reductstore/src/ext/ext_repository.rs:491-532 | the loop that flushes each step through the later ones |
| ExtPipeline.QueryContext.FetchAndProcess | reductstore/src/ext/ext_repository.rs:298-322 | the answer to one fetched record or error, to the end of the query and to a closed channel |
| RateLimits.RateLimiter.ConsumeScoped | reductstore/src/api/limits.rs:234-248 | each kind is counted in its own counters against its own limit, and the other kinds are untouched |
| RateLimits.ConsumeIff | reductstore/src/api/limits.rs:301-343 | a request is accepted if and only if it fits with what its window already used, which is nothing once the window is over; a refusal uses nothing |
| RateLimits.RetryIff | reductstore/src/api/limits.rs:301-343 | a client that waits for the time it is told is accepted if and only if the clock was not behind the beginning of the window, and one that asks sooner is refused again |
| RateLimits.PruningInvisible | reductstore/src/api/limits.rs:250-283 | under a clock that does not go back, dropping expired counters changes no decision |
| RateLimits.ReturnIsSeen | reductstore/src/api/limits.rs:250-283 | for all clock readings that pass the end of a window and return into it, requests at these times of which one is accepted with pruning and refused without |
| RateLimits.PruningUnseenIff | reductstore/src/api/limits.rs:250-345 | for every list of clock readings, pruning changes no acceptance, whatever is asked for at these times, if and only if the limit is 0 or 2^64 - 1 or no window that has expired at one reading is met again at a later one; then no decision changes at all |
| RateLimits.ScopesIndependent | reductstore/src/api/limits.rs:250-283 | the decisions for a client are those it would get alone |
| RateLimits.WindowAdmits | reductstore/src/api/limits.rs:301-345 | what was admitted in the open window is what its counter says, and within the limit |
| RateLimits.SpanBound | reductstore/src/api/limits.rs:301-345 | any span of one window length admits at most twice the limit |
| RateLimits.SpanBoundIff | reductstore/src/api/limits.rs:301-345 | that bound holds for all requests if and only if the limit is below 2^64 - 1, where the count saturates |
| RateLimits.LimiterSpanBound | reductstore/src/api/limits.rs:201-345 | with any mix of clients, no client gets more than twice the limit in any span of one window length |
| Cache.TouchOrders | reductstore/src/core/cache.rs:95-100 | an access stamp that is not earlier moves a key to the front of the recency list |
| Cache.FreshFront | reductstore/src/core/cache.rs:186-203 | dropping the keys that are too old leaves exactly the front of the recency list |
| Cache.LeastRecent | reductstore/src/core/cache.rs:205-227 | without equal stamps the entry with the smallest stamp is the last of the recency list |
| Cache.SinkOldest | reductstore/src/core/cache.rs:205-227 | with equal stamps any entry with the smallest one can be listed last |
| Cache.SurvivorsAreNewer | reductstore/src/core/cache.rs:186-227 | no entry an insert keeps was used earlier than one it drops |
| Cache.KeptIff | reductstore/src/core/cache.rs:186-220 | a key stays at an insert if and only if it is among the most recent ones that fit and was used within the time to live |
| Cache.Cache.Get | reductstore/src/core/cache.rs:95-100 | a hit returns the value and moves the key to the front, a miss changes nothing |
| Cache.Cache.Remove | reductstore/src/core/cache.rs:131-133 | removes one key and keeps the order of the others |
| Cache.Cache.Insert | reductstore/src/core/cache.rs:78-82 | the cache is a list by recency, the move-to-front list if no two accesses were at the same time, cut where entries are too old and to its size, and what is returned is exactly what was cut off |
| Cache.Cache.RemoveExpired | reductstore/src/core/cache.rs:186-203 | removes and returns exactly the entries that are too old |
| Cache.Cache.Oldest | reductstore/src/core/cache.rs:205-227 | finds an entry with the smallest stamp |
| BackendFile.MirroredKept | reductstore/src/backend/file.rs:127-216 | over all sequences of writes, truncations, flushes and uploads, whatever fails, a file marked as synced has its bytes in the remote storage |
| BackendFile.IgnoredWrites | reductstore/src/backend/file.rs:127-216 | in ignore-write mode neither copy of a file changes |
| BackendFile.OpenMirroredIff | reductstore/src/backend/file.rs:75-114 | a freshly opened file is mirrored if and only if there was no local copy or it equals the remote one |
| BackendFile.OpenedStaysMirrored | reductstore/src/backend/file.rs:75-216 | from a clean opening on, every use of a file keeps it mirrored |
| BackendFile.OpenGives | reductstore/src/backend/file.rs:75-114 | when opening finds nothing, and otherwise which bytes, which mode and which marks the file has |
| BackendFile.Overwritten | reductstore/src/backend/file.rs:201-208 | position by position: the written bytes, zeros in a gap, every other byte as before, and the length |
| BackendFile.WritesJoin | reductstore/src/backend/file.rs:201-208 | writing one buffer behind another is writing both at once |
| BackendFile.AppendsInPieces | reductstore/src/backend/file.rs:127-208 | what is written in pieces at the end of a file is appended to it, and the next upload that works has all of it |
| BackendFile.FileObject.Truncate | reductstore/src/backend/file.rs:162-169 | the bytes are cut, or filled up with zeros, and the file is dirty |
| BackendFile.FileObject.WriteBytes | reductstore/src/backend/file.rs:200-208 | a write marks the file dirty even if it fails; one that works puts the bytes at the position, leaves all others as they were, fills a gap with zeros and moves the position |
| BackendFile.FileObject.Sync | reductstore/src/backend/file.rs:127-143 | only a complete upload marks the file as synced |
| FileSync.FileCache.SyncFiles | reductstore/src/core/file_cache.rs:123-207 | the removal of invalidated files, each after an attempt to upload it, and the collect, sort, truncate and sync loops of a round; nothing in read-only mode |
| FileSync.InvalidatedKept | reductstore/src/core/file_cache.rs:140-152 | an invalidated file that was synced or is uploaded is in the remote storage, and if the upload does not begin the remote copy is as before although the local one goes |
| FileSync.SelectedFacts | reductstore/src/core/file_cache.rs:154-186 | a round syncs no file twice and only writable, dirty, unlocked and overdue ones |
| FileSync.Takes | reductstore/src/core/file_cache.rs:154-180 | a scheduled round takes a file if and only if it is writable, dirty, unlocked and was last synced at least an interval before the round's clock reading; a forced one takes every writable dirty file |
| FileSync.RoundChanges | reductstore/src/core/file_cache.rs:123-207 | for every file, whether it leaves the cache, is attempted or stays as it was |
| FileSync.PassedOver | reductstore/src/core/file_cache.rs:154-186 | an overdue file is passed over only for sixteen others that are at least as overdue |
| FileSync.SelectedIff | reductstore/src/core/file_cache.rs:154-186 | a round selects a file if and only if it takes it and fewer than sixteen taken files are more overdue, or as overdue and earlier in the iteration |
| FileSync.NotSelected | reductstore/src/core/file_cache.rs:154-186 | a file with sixteen more overdue ones ahead of it is not selected |
| FileSync.RoundKeepsContent | reductstore/src/core/file_cache.rs:188-204 | no round changes local bytes or breaks a mirror |
| FileSync.ForcedSync | reductstore/src/core/file_cache.rs:534-536 | after a forced round a writable file is synced if and only if it was before or its upload succeeded |
| FileSync.ForcedRoundDurable | reductstore/src/core/file_cache.rs:534-536 | when no upload fails, a forced round leaves the local bytes of every writable file in the remote storage |
| FileFairness.ChosenIff | reductstore/src/core/file_cache.rs:154-186 | in any step of any run, the worker syncs a file if and only if the step is a round that finds it overdue and fewer than sixteen files are ahead of it |
| FileFairness.StarvesIff | reductstore/src/core/file_cache.rs:154-204 | over any run of rounds mixed with opening, using, removing, discarding and putting back files, a file is never selected if and only if every round that finds it overdue has sixteen files ahead of it |
| FileFairness.FailuresStarve | reductstore/src/core/file_cache.rs:154-204 | so sixteen older files whose uploads keep failing starve a file for as long as they do |
| FileFairness.StarvationBound | reductstore/src/core/file_cache.rs:154-204 | however rounds mix with other activity, sixteen times the rounds that pass over an overdue file is at most the files as overdue as it plus the failed uploads |
| FileFairness.SyncedWithin | reductstore/src/core/file_cache.rs:154-204 | while uploads succeed a file with k rivals is synced within k/16 + 1 rounds whose clock reading is at least an interval after its last sync |
| FileFairness.StepEffects | reductstore/src/core/file_cache.rs:123-273 | what each step of a run does to each file, cached or set aside |
| FileInsert.DescriptorCache.Acquire | reductstore/src/core/file_cache.rs:336-374 | a cached handle that can write is used, otherwise the file is opened and its handle inserted; one caller at a time never replaces a dirty handle |
| FileInsert.DescriptorCache.InsertFile | reductstore/src/core/file_cache.rs:243-273 | what the cache and the remote storage hold after the insert and the put-backs at any rising times, which files are closed after which upload, and the counts; a full cache in which nothing is too old loses a file if and only if the one that makes room is in use |
| FileInsert.UnusedDiscards | reductstore/src/core/file_cache.rs:243-273 | while no discarded file is in use, every file stays in the cache as it was or is closed after an attempt to upload it |
| FileInsert.PutBackOrder | reductstore/src/core/file_cache.rs:265-269 | the put-backs together leave what the last of them alone would leave of all files that are kept or put back |
| FileInsert.LostIff | reductstore/src/core/file_cache.rs:243-273 | exactly those of the kept files and the discarded ones in use are lost that the last put-back cuts off; so some are if and only if a discarded file is in use and they are more than the cache holds or one of them is too old by then; the other files are accounted for |
| FileInsert.NothingLost | reductstore/src/core/file_cache.rs:243-273 | when uploads succeed, no byte of a file that is not lost is only in a file that left the cache |
| FileInsert.InsertStores | reductstore/src/core/file_cache.rs:256-270 | the remote copy of a closed file is the one its handle ends with, every other remote copy, of a lost file too, is what it was, and the cached handles still know theirs |
| FileInsert.DirtyCountIs | reductstore/src/core/file_cache.rs:256-264 | the files counted as synced are the writable discarded ones that were not synced and not in use |
| FileInsert.ReopenLost | reductstore/src/core/file_cache.rs:223-273 | a lost file that is opened again counts as synced, neither closing it nor a synchronisation round uploads it, and it is mirrored if and only if the lost handle's two copies were the same |
| FileInsert.ReplacedIff | reductstore/src/core/file_cache.rs:243-273 | a handle replaced by one just opened is neither cached nor closed, and its bytes are in the remote copy if and only if they were before |
| FileInsert.FullCacheLosesIff | reductstore/src/core/file_cache.rs:243-273 | a full cache in which nothing is too old loses a file if and only if the one that makes room is in use: the next least recently used one, or in a cache of one the file just opened, is in neither the cache nor the closed files, and its remote copy is unchanged |
| LockFile.NeverTaken | reductstore/src/lock_file.rs:113-197 | in every interleaving, once the primary has written the file and while it refreshes it within the time to live, a secondary with no removal pending never removes it and never locks, under either failure action |
| LockFile.NeverShared | reductstore/src/lock_file.rs:113-197 | in every interleaving with refreshes less than three polling intervals apart the secondary never locks, whatever it removes |
| LockFile.SharedIff | reductstore/src/lock_file.rs:113-197 | from the primary's first write on, for refreshes any distance apart: the secondary can lock in some interleaving if and only if three polling intervals fit between two refreshes and either it is about to remove a file it had found stale, or it is not finished and the file can become stale between two refreshes |
| LockFile.TakenIff | reductstore/src/lock_file.rs:113-310 | of all steps of either instance after the primary's write, exactly two take the file away: the removal by a secondary that had found the old file stale, and dropping either instance in whatever state it is |
| LockFile.DroppedSecondary | reductstore/src/lock_file.rs:294-310 | a dropped secondary never locks, and with its next write the primary has its file back |
| LockFile.RaceArises | reductstore/src/lock_file.rs:113-197 | that situation arises when both find the same old file stale |
| LockFile.GivesUpIff | reductstore/src/lock_file.rs:142-164 | a waiting instance goes on if and only if no timeout of a second or more has passed since it began to wait; otherwise it fails or proceeds, as configured |
| LockFile.FailsLate | reductstore/src/lock_file.rs:113-197 | in every interleaving no instance fails before that time |
| LockFile.PrimaryAcquires | reductstore/src/lock_file.rs:113-197 | without a file a primary has the lock after its next three steps |
| LockFile.SecondarySettles | reductstore/src/lock_file.rs:113-180 | without a file a secondary first sleeps for three polling intervals |
| LockFile.SecondaryAcquiresIff | reductstore/src/lock_file.rs:167-180 | after its sleep of three polling intervals a secondary gets the lock if and only if there is no file |
| LockFile.PrimaryRefreshes | reductstore/src/lock_file.rs:182-197 | whatever has become of the file, the primary writes it again after its rest |
| LockFile.WriteFails | reductstore/src/lock_file.rs:182-193 | an instance takes itself to hold the lock even if it could not write the file |
| LockFile.SecondaryYieldsIff | reductstore/src/lock_file.rs:182-266 | a secondary that holds the lock stops if and only if it finds the primary's identifier in the file |
| LockFile.DroppedStays | reductstore/src/lock_file.rs:294-310 | a dropped instance never acts again |
| Diagnostics.MergeIsSummary | reductstore/src/replication/diagnostics.rs:72-95 | merging frames equals counting all their results in order |
| Diagnostics.SummaryMeaning | reductstore/src/replication/diagnostics.rs:40-65 | exactly the error codes that occurred are listed, each with its total and its newest message |
| Diagnostics.CodesAddUp | reductstore/src/replication/diagnostics.rs:40-65 | the counts per code add up to the number of errors |
| Diagnostics.SuccessesAddUp | reductstore/src/replication/diagnostics.rs:36-66 | the successes counted are the sum of those reported |
| Diagnostics.DiagnosticsCounter.Ticks | reductstore/src/replication/diagnostics.rs:103-112 | the number of whole frames that have passed since the last one was created |
| Diagnostics.HistoryIsComplete | reductstore/src/replication/diagnostics.rs:40-113 | the unbounded history has one frame more than frames passed and holds every result in order |
| Diagnostics.DiagnosticsCounter.CountResult | reductstore/src/replication/diagnostics.rs:40-65 | the frames are the last sixty of the unbounded history, to which the result was added |
| Diagnostics.DiagnosticsCounter.CheckAndCreateNewFrame | reductstore/src/replication/diagnostics.rs:104-113 | one empty frame for each interval that passed, and none older than sixty |
| Diagnostics.DiagnosticsCounter.Report | reductstore/src/replication/diagnostics.rs:72-95 | the report before scaling is the summary of the results in the last sixty frames |
| Logger.ShorterFirst | reduct_base/src/logger.rs:80-92 | of two prefixes of a target the shorter one comes first in the ordered map |
| Logger.LastIsLongest | reduct_base/src/logger.rs:80-92 | the first match of the reverse scan is the longest configured prefix |
| Logger.SlashedPath | reduct_base/src/logger.rs:80-92 | of a module path the double colons between its parts become slashes, and nothing else changes |
| Logger.RankOrders | reduct_base/src/logger.rs:80-92 | a level lets through itself and the more severe ones |
| Logger.LevelOfIff | reduct_base/src/logger.rs:180-190 | a level is recognised in any mix of upper and lower case, and anything else stands for INFO |
| Logger.ParsedDirective | reduct_base/src/logger.rs:171-180 | a directive with white space anywhere around its path and level, and a level alone for the root |
| Logger.LevelFilter.Enabled | reduct_base/src/logger.rs:80-92 | the level of the longest configured prefix of the target decides, and without a prefix nothing is logged |
| Logger.LevelFilter.Setup | reduct_base/src/logger.rs:164-201 | the ordered map holds the last level given for each path, and at least one for the root; the global maximum is always TRACE |
| Logger.AlwaysMatched | reduct_base/src/logger.rs:164-201 | after setup every target has a longest configured prefix with its effective level |

## Left out

- Batch.BatchRoundTrip: stated for batches whose times rise within each entry, as a query delivers them (`NeedsPrevious` and `NamesCollideIff` show why the order and the times matter), and whose names, values and content types survive by the conditions above; the entries are any duplicate-free list with all entries of the batch.
- FileInsert.DescriptorCache.InsertFile: stated for a clock that advances from one operation to the next.
- FileInsert.DescriptorCache.Acquire: reading only differs in that it inserts only what is not cached; the position a caller seeks to is left out.
- ReplicationDelivery.PassDelivers: stated for calls that are answered; `SendTrouble` says what a panic and a failed lock change, and `PassTrouble` what a log that cannot be read does.
- ReplicationPass.PassAccounting: stated for passes without a panicked send task or a failed lock, and with answers that report no more errors than records.
- RateLimits.SpanBound: windows are whole seconds, as the code divides them.
- Texts are byte strings: the validation of UTF-8 in decoded names and the upper case of non-ASCII log levels are not modelled.
- Counters of bytes and records are unbounded except where the code saturates or wraps around.
- HTTP routing, configuration, authentication, TLS, storage engine and query language: only add members of a simpler kind.
- The size and time limits that end a response, and the error headers of a batch.
- ReplicationPass.AcknowledgedFront: stated for logs that have room; `ReplicationOverflow` says what an overflow during a send changes.
- Replication: retries of a local read, the destination entry name, and probing of the remote bucket.
- The transaction log: bytes on disk and a corrupt type byte.
- Extension pipeline: the state of a step's processor after an error in the middle of a record's stream, and the answers of a query that met an error.
- The cache: iteration over all values, which touches them.
- Files: failures while opening, renaming and removing, what other tasks do between the two passes of one synchronisation round, and lock timeouts.
- The lock file: the steps of the task are a state machine and not a loop, because the other instance acts between any two of them; the replica and standalone roles, the pause of a drop before it removes the file, unreadable owner identifiers and failed existence checks are not modelled.
- The diagnostics report's scaling in floating point.
- The log output and its capture hook.
