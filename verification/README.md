# Verified model of the Coriolis data path

Coriolis moves the disks of virtual machines from one cloud to another. This project models the
logic that has to be right for a disk to arrive intact, and some of the self-contained algorithms
around it, and proves what they promise.

## The data path

`replicate_disks` asks a replicator service for changed chunks of each source disk, clips them to the
target's size, and copies them through a backup writer (`Chunks`, `Replicate`). A backup writer accepts
seek and write calls and pushes each write through two bounded queues: encoder threads compress and
frame it, one sender thread delivers it, and `close()` waits for both stages (`Pipeline`). For the SSH
writer a message is a frame of bytes (`Framing`) that a small C program parses and applies to the device
(`Receiver`). The plain file writer, which does the calls one after another, is the specification
(`Disk`).

The pipeline is a state machine. Every thread is a program counter, a step is one access to shared state,
and a run is any interleaving: any number of encoders, lost acknowledgements with resends, failures of any
stage at any moment. The wait loop's three reads (encoder counter, sender counter, exception) are three
separate steps, and so are a worker's test of `_stopped` and the wait in `get` that follows it. The main
results are:

* close is safe (`Safety.CloseIsSafe`, `NothingAfterEnd`, `ChecksumSeesEveryWrite`) and, while nothing fails,
  the bounded queues cannot lock up (`Progress.StuckMeansDone`, `WaitLoopIsLeft`);
* a writer that has closed cleanly has told the target so, after all its data and nothing else: the HTTP
  writer by its release, the SSH writer by its end-of-data (`Wire.HttpCloseReleases`, `SshCloseSendsEod`), and
  resending brings each message, and that mark, at most five times (`Wire.AtMostFiveCopies`);
* the concurrent writers refine the plain file writer (`EndToEnd.CloseRefinesFileWriter`), for the SSH
  writer down to the bytes on the wire and the receiver's parser, whatever its host refuses
  (`EndToEnd.SshEndToEnd`);
* for every sequence of calls, that refinement holds in every interleaving exactly when there is at most
  one encoder or overlapping writes agree (`Witness.RefinesIffOrderSafe`, with
  `Order.OneEncoderKeepsOrder` and `Witness.OvertakenByAll` for the two halves);
* whatever bytes it is given and whatever is refused, the receiver goes on exactly when they begin with a
  message in range that names an existing file and a write inside it, and then that write is in the file
  (`AnyInput.StoredIff`); each way to fail has its own code (`Stream.RefusalCodes`, `AnyInput.HeaderCodes`);
* whatever the operating system refuses the receiver, an echoed message is in the file, and ERR_DONE means
  that all of them are (`Stream.ReceiveUnderFaults`);
* a call of `replicate_disks` brings every disk up to and including the first one without chunks in sync,
  and all disks exactly when no stale disk is listed after that one; a run of any number of calls keeps
  every disk in sync as long as none is left out; and a call that fails anywhere leaves every byte as it
  was or as it is in the source (`Sync`, `Transfer`).

Seven things the code does not do are shown by lemmas, and for each of them another lemma says for all inputs
exactly when the promise does hold:

* a disk listed after one without changes stays stale (`Sync.SkippedDiskStaysStale`; exactly when:
  `Sync.CallSynchronisesAllIff`);
* a first sync that failed and is repeated can leave old bytes where the source has become zero
  (`Sync.RetriedFirstSyncStaysStale`; `Sync.FirstSyncIffZeroElsewhere`);
* a `write()` can stay blocked for ever after a failure (`Failures.WriteCanHang`;
  `Failures.WriteReturnsIffNotStuck`);
* the HTTP writer's release after an error can come before a data message
  (`Failures.DataAfterErrorRelease`; `Failures.MoreDataIff`);
* parsing and printing some GRUB lines twice does not give what doing so once gives
  (`GrubProofs.UnstableFile`; `GrubProofs.NormalFormIff`);
* some edits of a GRUB option, with a key or with a single value, are made again each time the printed file
  is edited (`GrubEdits.WholeValueGrows`, `UnreadableGrows`; `GrubEdits.EditSurvivesIff`);
* an interface configuration is lost when a kept name meets a generated one (`Netplan.InterfaceLost`;
  `Netplan.NothingLostIff` within a file, `Netplan.InjectiveIff` across files).

The smaller algorithms are tied to definitions that do not mention their code: splitting into lines and words
to the only way a text is made up of them (`Text.LinesAreUnique`, `WordsAreUnique`), progress reports to the
record percentages among the updates (`Events.ReportsAreRecords`), the decoder to the bits of its alphabet
characters (`Base64Decoding.DecodeExact`), an accepted token to its three parts (`Token.AcceptedIff`), and what
`replicate_disks` copies to the fields of the volume (`Sync.ChunksBySize`).

Libraries and remote services are contracts: a compressor whose output the receiver can undo, JSON and
HMAC as functions, a replicator service that reports every differing (or, on a zeroed target, every
non-zero) byte, a block-status call that answers with uniform runs.

Verify everything with `dafny verify dfyconfig.toml`.

## Model

| member | source | states |
|---|---|---|
| `Bytes.UnpackPack` | coriolis/data_transfer.py:102-122 | little-endian fields of any width are read back as packed |
| `Bytes.PackUnpack` | coriolis/resources/write_data.c:68-90 | every byte string is the packed form of the number it is read as, which fits the field |
| `Bytes.PackIsLittleEndian` | coriolis/data_transfer.py:102-122 | byte i of a packed field is the number divided by 256 to the i, modulo 256 |
| `Framing.ShorterFormIsSent` | coriolis/data_transfer.py:92-122 | a message holds its number, the length of its body, and the shorter of the plain and the compressed form, the plain one on a tie; the third field is zero for the plain form and otherwise its length |
| `Framing.EncodesIff` | coriolis/data_transfer.py:101-126 | a message can be packed if and only if its number fits 32 bits, its offset 64 and its plain length 32 |
| `Disk.FileBackupWriter.SeekTo` | coriolis/providers/backup_writers.py:257-258 | seek sets the position and leaves the content |
| `Disk.FileBackupWriter.WriteData` | coriolis/providers/backup_writers.py:263-264 | write replaces the bytes at the position, growing the file past its end, and advances |
| `Disk.FileWriteBytes` | coriolis/providers/backup_writers.py:263-264 | byte by byte: a write that is not empty makes the file long enough, fills a gap with zeros and changes nothing else |
| `Disk.RunOnFile` | coriolis/providers/backup_writers.py:252-264 | running any calls on the plain file leaves at every position the byte of the last write that covers it, the old byte or a zero in a gap, and the length that the writes need; in-bounds calls apply exactly the positioned writes they ask for, in order |
| `Disk.DisjointAgree` | coriolis/providers/backup_writers.py:359-423 | pairwise disjoint writes agree, so all results about agreeing writes cover them |
| `Disk.OrderAndRepeatsIrrelevant` | coriolis/providers/backup_writers.py:384-423 | sequences made of the same agreeing writes leave the same disk, whatever the order and the resends |
| `Disk.OrderIndependentIffAgree` | coriolis/providers/backup_writers.py:384-423 | all reorderings of the writes leave the same disk if and only if overlapping writes agree |
| `Receiver.WriteDataProcess.Read` | coriolis/resources/write_data.c:68-76 | reading gives the requested bytes, or nothing after moving to the end of a stream that is too short |
| `Receiver.WriteDataProcess.HandleMessage` | coriolis/resources/write_data.c:66-165 | one message is handled as the step function of the receiver says, under any refusal of the system; AnyInput.StoredIff, HeaderCodes, LengthCodes, BodyCodes and Stream.RefusalCodes say what that step does, code by code |
| `Receiver.WriteDataProcess.ReceiveSize` | coriolis/resources/write_data.c:73-85 | a zero size ends the stream and echoes the id, or reports the failed echo; sizes out of range are refused |
| `Receiver.WriteDataProcess.ReceiveInflatedSize` | coriolis/resources/write_data.c:87-93 | the inflated size is zero or in range |
| `Receiver.WriteDataProcess.ReceiveBody` | coriolis/resources/write_data.c:95-164 | the body is read, stored and its id echoed if everything succeeded, otherwise the matching code and no echo, as AnyInput.StoredIff and LengthCodes have it |
| `Receiver.WriteDataProcess.StoreBody` | coriolis/resources/write_data.c:103-155 | inflating, opening, seeking, the bounds check, the write, the close and the echo, each with its code, as AnyInput.BodyCodes and Stream.RefusalCodes have it |
| `Receiver.NulIndexIsFirst` | coriolis/resources/write_data.c:121-126 | the path ends at the first NUL of the body |
| `Receiver.WriteDataProcess.Run` | coriolis/resources/write_data.c:167-188 | the main loop handles messages until one does not ask for more |
| `Stream.FrameOutcome` | coriolis/resources/write_data.c:84-164 | the verdict on what the encoder framed is a literal code for each case of size, memory, file, offset, bounds and refusal; the files are as that code says, and an id is echoed only with ERR_MORE_MSG |
| `Stream.GoesOnIff` | coriolis/resources/write_data.c:84-164 | the receiver of a framed message goes on if and only if it fits, the file exists, the write ends within the file and nothing it needs is refused; then exactly that write is in the file and its id echoed, otherwise nothing is echoed |
| `Stream.RefusalCodes` | coriolis/resources/write_data.c:95-164 | for a message that fits: memory 9, zlib 13, missing file 3, seek 6, out of bounds 15, write 7, close 8, echo 14, in that order of checks, and the exact files in each case |
| `AnyInput.StoredIff` | coriolis/resources/write_data.c:66-165 | on any bytes and any refusal, ERR_MORE_MSG if and only if they begin with a message in range whose body names an existing file and a write inside it; then exactly that write, that echo and those bytes consumed |
| `AnyInput.HeaderCodes` | coriolis/resources/write_data.c:68-85 | the codes of a stream that breaks off or has a bad size: 11, 1, 2, and 0 or 14 for end-of-data |
| `AnyInput.LengthCodes` | coriolis/resources/write_data.c:87-101 | the codes of a bad inflated size, of missing memory and of a short body: 12, 9, 5 |
| `AnyInput.BodyCodes` | coriolis/resources/write_data.c:103-126 | the codes of a body that cannot be inflated to its announced length or has no NUL: 9, 13, 4 |
| `Stream.VerdictOfStorable` | coriolis/resources/write_data.c:95-164 | a fault stops a storable message exactly when it refuses something the message needs |
| `Stream.EodOutcome` | coriolis/resources/write_data.c:77-83 | the end-of-data message is echoed and ends the receiver with ERR_DONE, or with ERR_WRITE_MSG_ID if the echo fails |
| `Stream.StreamRoundTrip` | coriolis/data_transfer.py:101-126 | any list of framed writes and end-of-data that is refused nothing is consumed exactly, applied in order, every id echoed, ending with ERR_DONE |
| `Stream.ReceiveUnderFaults` | coriolis/resources/write_data.c:66-188 | under any faults the messages are stored and echoed in order up to the first that is refused something it needs, which leaves at most a first part; ERR_DONE if and only if there is none and the end-of-data is echoed |
| `Stream.DataIsNotEod` | coriolis/resources/write_data.c:77-83 | no data message can be taken for end-of-data |
| `Stages.ReplaceEncoder` | coriolis/providers/backup_writers.py:384-403 | moving one encoder thread changes the stage's holdings and count by that thread's own |
| `Safety.ConservedStep` | coriolis/providers/backup_writers.py:365-423 | every step keeps every accepted payload in exactly one place, lost only with the exception recorded, and keeps both counters exact |
| `Safety.CallerKnowsStep` | coriolis/providers/backup_writers.py:425-448 | every step keeps what the wait loop's separate reads have established |
| `Safety.RecordedStep` | coriolis/providers/backup_writers.py:406-423 | accepted payloads are the writes the calls asked for, numbered from zero |
| `Safety.GenuineStep` | coriolis/providers/backup_writers.py:384-403 | whatever is on its way or on the wire encodes an accepted payload |
| `Safety.JobsStep` | coriolis/providers/backup_writers.py:846-866 | every step keeps that each checksum job saw exactly the writes made before it |
| `Safety.ReachableInv` | coriolis/providers/backup_writers.py:281-463 | the invariant holds in every state of every interleaving |
| `Safety.CloseIsSafe` | coriolis/providers/backup_writers.py:439-454 | past the exception check of close, every accepted payload has been sent and acknowledged, nothing is lost, both queues are empty, and the wire holds those payloads and no others |
| `Safety.NothingAfterEnd` | coriolis/providers/backup_writers.py:439-454 | no data message follows end-of-data or the release of a clean close; that one of the two is there is Wire.HttpCloseReleases and Wire.SshCloseSendsEod |
| `Safety.ChecksumSeesEveryWrite` | coriolis/providers/backup_writers.py:846-866 | a checksum job is created only when exactly the earlier writes have been sent |
| `Progress.AliveStep` | coriolis/providers/backup_writers.py:290-301 | both queues stay within five entries, and threads stop only after a failure or once nothing is left |
| `Progress.WorkerCanStep` | coriolis/providers/backup_writers.py:365-403 | without a failure, unfinished work always enables an encoder or sender step |
| `Progress.StepWork` | coriolis/providers/backup_writers.py:365-403 | every productive worker step lowers the work left; looping, polling and the caller's reads do not add to it |
| `Progress.ProductiveStepsAreFinite` | coriolis/providers/backup_writers.py:365-437 | however workers, idle polling and the caller's reads are mixed, a failure-free run holds no more productive steps than there was work |
| `Progress.StuckMeansDone` | coriolis/providers/backup_writers.py:425-437 | such a run, once nothing but polling and looking is left, has met the wait loop's condition |
| `Progress.WaitLoopIsLeft` | coriolis/providers/backup_writers.py:425-437 | the workers alone can empty both stages; then a blocked write goes on and the wait loop is left from each of its three reads |
| `Order.OrderedStep` | coriolis/providers/backup_writers.py:365-423 | with at most one encoder every step, failures and resends included, keeps everything under way in the order of the calls |
| `Order.OneEncoderKeepsOrder` | coriolis/providers/backup_writers.py:384-423 | with at most one encoder messages arrive in the order in which write() accepted them, up to any event of any interleaving |
| `Order.SortedArrival` | coriolis/providers/backup_writers.py:384-423 | all writes in ascending order, with any repetitions, leave what the writes in order leave |
| `EndToEnd.CloseRefinesFileWriter` | coriolis/providers/backup_writers.py:359-454 | after a clean close, with one encoder or with overlaps that agree, the messages in order of arrival leave the disk of the plain file writer |
| `EndToEnd.ChecksumRefinesFileWriter` | coriolis/providers/backup_writers.py:846-866 | under the same condition a checksum job sees the disk the plain file writer has at that point |
| `EndToEnd.SshEndToEnd` | coriolis/providers/backup_writers.py:318-454 | on any host, the receiver of the bytes a closed SSH writer sent has stored and echoed the messages up to the first that was refused something; if it exits with ERR_DONE, as it does when nothing is refused, it has echoed every message and, under the same condition on order, left the plain file writer's disk and all other files alone |
| `Wire.HttpCloseReleases` | coriolis/providers/backup_writers.py:896-910 | in every interleaving of the HTTP writer, one that has closed has released the device after all accepted payloads and only those had arrived, with no data after; it is released as clean only past the exception check and without an error, as after an error only with one, and no end-of-data is ever sent |
| `Wire.SshCloseSendsEod` | coriolis/providers/backup_writers.py:439-454 | the same for the SSH writer and its end-of-data, numbered with the count of accepted payloads, unless the connection was given up |
| `Wire.RaisingBodySendsNoEod` | coriolis/providers/backup_writers.py:465-477 | once the body of the `with` statement has raised, no continuation of the SSH writer sends end-of-data |
| `Wire.GivenUpCanClose` | coriolis/providers/backup_writers.py:439-454 | a close after that can still return |
| `Wire.ClosingIsFinal` | coriolis/providers/backup_writers.py:406-409 | once close() has begun no continuation accepts a write or a seek |
| `Wire.NothingNewAfterFailure` | coriolis/providers/backup_writers.py:411-414 | after a failure a continuation accepts at most the payload of a write() that had already passed its checks |
| `Wire.AtMostFiveCopies` | coriolis/providers/backup_writers.py:365-454 | in every interleaving a message, and the mark of a clean close, arrives at most five times |
| `Wire.FiveCopiesArePossible` | coriolis/providers/backup_writers.py:365-382 | a message can arrive five times in a run without a failure |
| `Wire.FiveEndsArePossible` | coriolis/providers/backup_writers.py:439-454 | so can the mark of a clean close, whether close() then returns or raises |
| `Wire.LostMayHaveArrived` | coriolis/providers/backup_writers.py:365-382 | a payload counted as lost may have arrived |
| `Wire.WaitCanTimeOut` | coriolis/providers/backup_writers.py:425-437 | close() and the checksum call can time out although nothing has failed, with an accepted payload still on its way |
| `Wire.CallerCanGoOn` | coriolis/providers/backup_writers.py:425-454 | outside its put the calling thread is never blocked: in every reachable state it has a step other than a time-out or a failure to finish |
| `Witness.CleanCloseExists` | coriolis/providers/backup_writers.py:406-463 | every encodable sequence of calls has an interleaving that ends in a clean close |
| `Witness.OvertakenByAll` | coriolis/providers/backup_writers.py:384-423 | with two or more encoders, any one write of any calls can arrive after all the others in a run that closes cleanly |
| `Witness.RefinesIffOrderSafe` | coriolis/providers/backup_writers.py:384-454 | for any calls and any number of encoders, every clean close leaves the plain file writer's disk if and only if there is at most one encoder or overlapping writes agree |
| `Failures.StuckIsForever` | coriolis/providers/backup_writers.py:365-423 | with the queue full and the encoders dead, or the sender dead and its queue full, no continuation lets a blocked write return |
| `Failures.WriteReturnsIffNotStuck` | coriolis/providers/backup_writers.py:365-423 | in every reachable state a blocked write can still return if and only if the writer is not stuck in that sense, and a writer with encoders gets stuck only after a failure |
| `Failures.WriteCanHang` | coriolis/providers/backup_writers.py:365-423 | a stuck state is reachable for any positive number of encoders |
| `Failures.SpentIsForever` | coriolis/providers/backup_writers.py:685-740 | once stopped with nothing in front of a waiting sender, no continuation delivers data |
| `Failures.MoreDataIff` | coriolis/providers/backup_writers.py:896-908 | from the moment close has set `_stopped`, data can still follow if and only if the sender is sending, or waits in get with something in front of it; that takes an error |
| `Failures.DataAfterErrorRelease` | coriolis/providers/backup_writers.py:896-908 | the HTTP release after an error can be followed by data |
| `Chunks.ClipChunks` | coriolis/providers/replicator.py:895-905 | the clipping loop computes the clipped list |
| `Chunks.ClipCoverage` | coriolis/providers/replicator.py:895-905 | clipping keeps exactly the coverage below the size |
| `Chunks.ClipKeepsShape` | coriolis/providers/replicator.py:895-905 | clipped chunks end within the size, are never emptied, and stay apart and in order |
| `Chunks.DownloadIsExact` | coriolis/providers/replicator.py:247-252 | the inclusive range of a non-empty chunk fetches exactly that chunk |
| `Chunks.EmptyChunkFetchesAll` | coriolis/providers/replicator.py:247-252 | an empty chunk asks for an invalid range, which fetches the whole disk |
| `Chunks.CopyResult` | coriolis/providers/replicator.py:924-929 | on any non-empty chunks the copy loop comes to its end if and only if each starts inside the source and, cut to it, ends inside the target; then exactly the covered bytes are those of the source |
| `Chunks.CopySucceeds` | coriolis/providers/replicator.py:924-929 | on chunks inside both disks the copy loop succeeds and writes exactly the source pieces |
| `Chunks.CopyingSynchronises` | coriolis/providers/replicator.py:924-929 | copying chunks that cover every differing byte makes the disks equal |
| `Chunks.CopyingSynchronisesIff` | coriolis/providers/replicator.py:924-929 | copying makes the disks equal if and only if the bytes outside the chunks were |
| `Chunks.CopyIsHarmless` | coriolis/providers/replicator.py:924-929 | wherever the copy loop stops, every byte is the old one or the one of the source |
| `Replicate.Replicator.FindIndex` | coriolis/providers/replicator.py:868-872 | the first volume with the disk id, or none |
| `Replicate.FindState` | coriolis/providers/replicator.py:801-805 | the first recorded state with the device name, or none if there is none |
| `Replicate.DevNameIsTail` | coriolis/providers/replicator.py:881-883 | a path under /dev loses that prefix and the character after it, any other path is the name |
| `Replicate.Replicator.Copy` | coriolis/providers/replicator.py:923-932 | the copy loop, writing chunk by chunk and stopping at a failed download or a refused write with the earlier chunks in place |
| `Replicate.Replicator.SyncOne` | coriolis/providers/replicator.py:867-937 | one volume: error with whatever was copied before it, no chunks, or copied with its replica state set; Sync.ChunksBySize says which chunks, by the fields of the volume |
| `Replicate.Replicator.Run` | coriolis/providers/replicator.py:861-940 | the volumes in turn, ending at the first without chunks, as the specification function has it |
| `Sync.ChunksAreEnough` | coriolis/providers/replicator.py:886-905 | with the extent defined by the fields `size` and `size_bytes`, the chunks to copy lie inside both disks, so the receiver's bounds check cannot fire, and cover every byte not yet right |
| `Sync.ChunksBySize` | coriolis/providers/replicator.py:886-905 | the chunks copied are those offered, cut to a positive `size`, else to a positive `size_bytes`, else not at all: each ends within that size and together they cover exactly the offered bytes below it |
| `Sync.DoneIff` | coriolis/providers/replicator.py:861-940 | for any service and any list, a call does not fail if and only if, up to the first volume with nothing to copy or the end, every name resolves and every copy comes to its end |
| `Sync.OneDisk` | coriolis/providers/replicator.py:914-937 | copying brings the disk in sync, records its state, and touches no other target |
| `Sync.CallSynchronisesPrefix` | coriolis/providers/replicator.py:861-940 | after a call all listed disks up to and including the first without chunks are in sync, zero-skipping or incremental, and no other target has changed |
| `Sync.CallSynchronisesAllIff` | coriolis/providers/replicator.py:907-912 | all listed disks are in sync after the call if and only if none listed after the first without chunks was stale before |
| `Sync.EveryRoundSynchronises` | coriolis/providers/replicator.py:861-940 | after every round of a run of any length every disk equals its source, as long as no round leaves a disk out |
| `Sync.SkippedDiskStaysStale` | coriolis/providers/replicator.py:907-912 | a disk listed after one without changes stays stale, also in the next round |
| `Sync.CallIsHarmless` | coriolis/providers/replicator.py:861-940 | however a call ends, every byte of a listed target is the old one or the one of its source, other targets are untouched, and the recorded state changes only when it does not fail |
| `Sync.RetryIsEnough` | coriolis/providers/replicator.py:861-940 | after a failed call on an unchanged source the same chunks still cover every byte that is not right |
| `Sync.FirstSyncIffZeroElsewhere` | coriolis/providers/replicator.py:886-893 | a first sync that skips zeros brings the disk in sync if and only if the target is zero outside the reported blocks |
| `Sync.RetriedFirstSyncStaysStale` | coriolis/providers/replicator.py:861-893 | a first sync that failed and is repeated after a byte became zero leaves the old byte and records the state |
| `Transfer.CopyCallsWrites` | coriolis/providers/replicator.py:925-929 | the copy loop's seek and write calls ask for exactly the source pieces |
| `Transfer.WriterSynchronisesDisk` | coriolis/providers/replicator.py:924-937 | through any writer and any interleaving, what has arrived at a clean close brings the target in sync |
| `Transfer.SshSynchronisesDisk` | coriolis/providers/replicator.py:924-937 | through the SSH writer down to bytes and on any host, every byte of the device file is the old one or the one of the source and no other file changes; with ERR_DONE, as when nothing is refused, the file is in sync |
| `Transfer.ArrivedIsHarmless` | coriolis/providers/replicator.py:924-929 | in every state of every interleaving, failed or not, what has arrived leaves every byte as it was or as it is in the source |
| `ClassWalk.Walker.Walk` | coriolis/utils.py:507-517 | the recursion over a shared list yields below a class all that was not yielded, children before parents, no class twice |
| `ClassWalk.Walker.Visit` | coriolis/utils.py:512-517 | a subclass not yet encountered is yielded after everything below it |
| `ClassWalk.WalkClassHierarchy` | coriolis/utils.py:507-517 | on an acyclic hierarchy every strict descendant is yielded exactly once and nothing else, and never before one of its own descendants |
| `ClassWalk.BuildFaultMap` | coriolis/api/middleware/fault.py:38-40 | for each status code the map holds a class none of whose walked ancestors has that code |
| `ClassWalk.FaultWrapper.StatusToType` | coriolis/api/middleware/fault.py:36-42 | the answer comes from such a map, built once, or is the internal server error |
| `Base64Url.EncodeIsClean` | coriolis/auth/token.py:11-15 | the encoding has neither padding nor a dot, and completing it gives the padded form |
| `Base64Url.RoundTrip` | coriolis/auth/token.py:11-22 | decoding undoes encoding on every byte string |
| `Base64Url.CharIsInAlphabet` | coriolis/auth/token.py:14 | the characters are letters, digits, minus and underscore in the order of section 5 of RFC 4648 |
| `Base64Url.QuadIsBigEndian` | coriolis/auth/token.py:14 | three bytes and their four characters stand for the same 24-bit number |
| `Base64Url.DecoderAlphabet` | coriolis/auth/token.py:22 | the decoder takes each character of the alphabet for its place in it, and plus and slash for the last two |
| `Base64Decoding.DecodeExact` | coriolis/auth/token.py:18-22 | on every text: refused if and only if it is not ASCII or breaks off inside a group of four; otherwise the whole bytes among the bits of its alphabet characters up to the padding that ends it |
| `Token.VerifyOfCreate` | coriolis/auth/token.py:25-101 | a created token verified with any key at any time: signature mismatch, expiry, or the issued claims, exactly as key and clock say |
| `Token.TokenLifetime` | coriolis/auth/token.py:38-42 | with the signing key and any claims, also with an end of the caller's own: accepted always without an end, until it if it is a number, never otherwise; the claims come back unchanged with the missing times added, with their values |
| `Token.TruncateIsTowardsZero` | coriolis/auth/token.py:42 | the lifetime in seconds is rounded towards zero |
| `Token.VerifyOfParts` | coriolis/auth/token.py:74-101 | every outcome of a token of three parts, in the order of the checks |
| `Token.AcceptedIff` | coriolis/auth/token.py:59-101 | any text is accepted with given claims if and only if it is three parts without dots, the third decoding to the code of the first two and the second to those claims, which have not expired; it is refused for its part count if and only if it has not two dots |
| `Text.SplitJoin` | coriolis/utils.py:946 | splitting printed lines gives the lines |
| `Text.TextIsLined` | coriolis/utils.py:946 | every text is its lines and their boundaries alternating: each boundary one break character or CR LF, only the last one empty and then after a line that is not, and no CR before a line feed |
| `Text.LinesAreUnique` | coriolis/utils.py:946 | the lines given are the only ones a text is made up of in this way |
| `Text.WordsJoin` | coriolis/utils.py:987 | splitting words joined by blanks gives the words |
| `Text.TextIsWorded` | coriolis/utils.py:987 | every text is its words with white space around them |
| `Text.WordsAreUnique` | coriolis/utils.py:987 | the words given are the only ones a text is made up of in this way |
| `Text.OnlyQuotesAreStripped` | coriolis/utils.py:967-970 | only quotes are stripped, and none is left at either end |
| `Text.CharacterClasses` | coriolis/utils.py:946-987 | the punctuation, line break and white space characters, one by one |
| `Grub.Grub2ConfigEditor.ParseCfg` | coriolis/utils.py:944-1015 | the parsing loop gives one entry for each line of the text, in order, each parsed by itself; which lines a text has is Text.LinesAreUnique |
| `Grub.Grub2ConfigEditor.ReadSetting` | coriolis/utils.py:965-1014 | a setting is unquoted, kept whole or split into words |
| `Grub.Grub2ConfigEditor.ReadValues` | coriolis/utils.py:988-1005 | each word becomes a single value or a key with its value |
| `Grub.Grub2ConfigEditor.AppendToOption` | coriolis/utils.py:1055-1089 | the edit of the first line with that option, or a new quoted line |
| `Grub.Grub2ConfigEditor.MergeInto` | coriolis/utils.py:1067-1079 | matching values are replaced in place, otherwise the value is appended |
| `Grub.Grub2ConfigEditor.DumpText` | coriolis/utils.py:1091-1120 | the printed file is the printed lines |
| `GrubProofs.ValueStableIff` | coriolis/utils.py:965-1015 | a value survives a second parse and print unchanged if and only if its words do not put quotes where the printer's quotes go |
| `GrubProofs.LinesSurvive` | coriolis/utils.py:1091-1120 | however a file is made up of lines and boundaries, the printed file is made up of one line for each of them, in order, with a line feed after each; comments, blank and non-option lines verbatim |
| `GrubProofs.NormalFormIff` | coriolis/utils.py:944-1015 | parsing and printing twice equals once if and only if no line is ragged in that sense |
| `GrubProofs.PlainConfigIsStable` | coriolis/utils.py:944-1015 | it does for values without quotes besides one enclosing pair |
| `GrubProofs.UnstableFile` | coriolis/utils.py:1110-1117 | it does not for an unquoted list of two words ending in a quote |
| `GrubProofs.AppendKey` | coriolis/utils.py:1055-1089 | after the edit the option's first line holds the key only with the new value, all else is untouched, a line is added only if the option was absent, and repeating it changes nothing |
| `GrubProofs.AppendSingle` | coriolis/utils.py:1074-1079 | a single value is present afterwards, added only if it was not there, all else untouched |
| `GrubEdits.RereadAgainIff` | coriolis/utils.py:965-1015 | for any text and any value, the edited text, printed and read back, is left alone by the same edit if and only if the value survives: alone with its quotes kept and read as what it is, or among words the reader splits, itself one of them and the only setting of its key |
| `GrubEdits.EditSurvivesIff` | coriolis/utils.py:1055-1120 | for every file, option and value, editing, printing, reading back and making the same edit again changes nothing if and only if name and value fit on one line and the value survives in the option's first line |
| `GrubEdits.PlainEditSurvivesIff` | coriolis/utils.py:1055-1120 | for values without quotes that is so if and only if the value is taken whole and alone, or is a word read as itself, the text does not start with punctuation once leading quotes are off, and no word hidden behind those sets the key to something else |
| `GrubEdits.WholeValueGrows` | coriolis/utils.py:971-986 | a file that sets the option to a quoted text starting with punctuation gets another copy of every value but that text |
| `GrubEdits.UnreadableGrows` | coriolis/utils.py:989-1005 | in every file a value that is read back as something else, such as a single value with an equals sign, gets another copy |
| `Events.EventManager.AddPercentageStep` | coriolis/events.py:35-61 | a new step with its initial percentage, refused when the initial value exceeds the total |
| `Events.EventManager.SetPercentageStep` | coriolis/events.py:63-90 | an update acts as the step function of the manager says; which updates are reported is Events.ReportsAreRecords |
| `Events.PercentIsFloor` | coriolis/events.py:74-76 | the percentage is the exact quotient rounded down, and zero without a positive total and step |
| `Events.ReportsAreRecords` | coriolis/events.py:63-90 | for any updates whatever, an update is reported if and only if its percentage exceeds the initial one and those of all earlier updates, and the percentage kept is the largest of them |
| `Events.BelowInitialIsIgnored` | coriolis/events.py:69-72 | an update below the initial value changes nothing, whenever it comes |
| `Events.ManagerSendsRecords` | coriolis/events.py:35-90 | a manager used for any steps, and for this one before, sends after the step is added exactly the records among its updates |
| `Events.ReportsRise` | coriolis/events.py:74-90 | percentages of the reports rise strictly and number at most the points passed |
| `Events.StepsRise` | coriolis/events.py:69-90 | reported steps rise strictly |
| `Events.FirstAboveInitial` | coriolis/events.py:55-59 | every reported step is above the initial one |
| `Events.AtMostHundredReports` | coriolis/events.py:74-84 | updates that never exceed the total make at most 100 reports |
| `Events.OneFinalSync` | coriolis/events.py:78-84 | a run that starts below a positive total and reaches it makes exactly one synchronous report, the last |
| `Events.StepsDoNotInterfere` | coriolis/events.py:64-90 | position and reports of a step are as if only that step had been used |
| `Events.SoloRun` | coriolis/events.py:63-90 | a manager used for one step adds exactly that step's reports to what it has sent |
| `Events.ProgressRow.UpdateProgress` | coriolis/db/api.py:1025-1045 | an update behind the stored step is ignored as a whole, others are stored with truncated messages |
| `Events.StoredIsMaximum` | coriolis/db/api.py:1025-1033 | the stored step ends as the maximum of the initial and all delivered ones |
| `Events.StoredTotal` | coriolis/db/api.py:1025-1035 | the stored total is that of the last update taken that carries one, where an update is taken if none before it and no stored step is ahead of it |
| `Events.StoredMessage` | coriolis/db/api.py:1025-1045 | the same for the stored message, cut to its limit |
| `Events.DeliveryOrderIrrelevant` | coriolis/db/api.py:1018-1033 | in any order of delivery the stored step ends as the last one reported |
| `Qemu.GetBlockStatus` | coriolis/qemu_reader.py:59-85 | a non-empty, sector-aligned, maximal run of equal flags inside the request, with sectors of 512 bytes and the flags the answers carry in their bits, or an error when there is no sector or the call fails |
| `Qemu.MaximalRunUnique` | coriolis/qemu_reader.py:64-85 | the answer does not depend on how the foreign call cuts its runs |
| `Qemu.ScanImage` | coriolis/qemu_reader.py:59-85 | calls repeated from where the last extent ended tile the whole image |
| `Qemu.EverySectorInOneTile` | coriolis/qemu_reader.py:84-85 | in such a tiling every sector lies in exactly one extent, with its own flags |
| `Netplan.SetEthernetConfigs` | coriolis/osmorphing/ubuntu.py:45-124 | it ends without raising if and only if every file is skipped or has an ethernets section whose interfaces all have settings if dhcp is to be set; every file up to the first that raises is written as the one renaming says that all names together determine |
| `Netplan.Kind` | coriolis/osmorphing/ubuntu.py:48-85 | a file is skipped if and only if it has another extension, no network section, or a version that is missing or not 2; it has interfaces if and only if its version is 2 and an ethernets section is there |
| `Netplan.AdjustedSettings` | coriolis/osmorphing/ubuntu.py:105-109 | with dhcp both of its settings are on and all others as they were; without it nothing changes |
| `Netplan.RewriteFile` | coriolis/osmorphing/ubuntu.py:86-118 | one file's section is rewritten and the shared index and mapping advance with its names |
| `Netplan.RenameOne` | coriolis/osmorphing/ubuntu.py:89-118 | a name keeps its prefix, its earlier new name, or gets the next number |
| `Netplan.DecimalIsCanonical` | coriolis/osmorphing/ubuntu.py:99-100 | the number in a new name is printed in digits without a leading zero |
| `Netplan.NewNameStable` | coriolis/osmorphing/ubuntu.py:92-101 | a name keeps its new name whatever is met later |
| `Netplan.RenamedNamesDiffer` | coriolis/osmorphing/ubuntu.py:98-101 | different renamed interfaces get different names |
| `Netplan.InjectiveIff` | coriolis/osmorphing/ubuntu.py:88-118 | across all files no two interfaces end up with one name if and only if none that keeps its name has one of the numbers handed out |
| `Netplan.NothingLostIff` | coriolis/osmorphing/ubuntu.py:86-118 | no configuration of a file is lost if and only if no interface that keeps its name has another one's new name |
| `Netplan.NothingLostWithoutPrefix` | coriolis/osmorphing/ubuntu.py:90-101 | nothing is lost where no original name carries the prefix |
| `Netplan.InterfaceLost` | coriolis/osmorphing/ubuntu.py:90-117 | with `eth0` and `ens3` in one file and prefix `eth`, one configuration is lost |
| `SortKeys.ProcessSortParams` | coriolis/db/api.py:1643-1686 | keys and directions of equal length, the caller's first, the missing default keys after them in their own order and once each, with the first direction given or the default; exactly the stated inputs are refused |
| `SortKeys.AddDefaults` | coriolis/db/api.py:1681-1684 | the default keys not given are appended in their own order, once each, with the filling direction |
| `SortKeys.ComparableIff` | coriolis/db/api.py:1643-1686 | two rows are ordered if and only if some key tells them apart |
| `SortKeys.StrictTotalOrder` | coriolis/db/api.py:1643-1686 | keys that include the id order rows with distinct ids strictly and totally, for any mix of directions |
| `Regions.Mapped.TryUnmap` | coriolis/db/api.py:178-193 | unmapping removes exactly the given regions |
| `Regions.Mapped.MapAll` | coriolis/db/api.py:225-240 | all mappings are added, or none |
| `Regions.Mapped.UpdateFields` | coriolis/db/api.py:70-100 | all fields are set, or none |
| `Regions.Mapped.Update` | coriolis/db/api.py:195-258 | on success the mapped regions are the desired ones and the fields are set; on any failure both are as before |

## Left out

- SSH and HTTP sessions, certificates, tunnels, service set-up and remote commands: input and output without stated behaviour.
- zlib, gzip, HMAC, JSON, libqemu, YAML and the replicator and writer services: contracts or parameters, as named above.
- Clocks, sleeps, timeouts' durations and thread joins: a timeout is a step that may happen at any moment of the wait loop, or never.
- A send that breaks off in the middle of a message: one delivery is atomic; it may be repeated, or be lost altogether, before it is acknowledged.
- The HTTP writer before its first seek: its position is undefined there; the model starts both writers at position 0.
- Failed starts of the helper, the acquiring of the HTTP device, and the polling of a checksum job.
- The receiver's command line and the input file it can name; stdio buffering, beyond a failed write or close leaving some first part of the data; a too short body or inflated text is an outcome of its own, `Undefined`, and says nothing more.
- Transfer.SshSynchronisesDisk: assumes messages within the receiver's size limit and fewer than 2^32 writes, as the format does.
- Replicate.Replicator.Copy: writes the target in order; behind a concurrent writer a failed call leaves some of the accepted writes in any order, which Transfer.ArrivedIsHarmless covers.
- `verify_checksum` of `replicate_disks` and the progress messages it sends.
- Sync.EveryRoundSynchronises: takes the service to report changes since the last round; it says nothing about disks that a round has left out.
- Changes to the source disk while a call is reading it.
- Grub.Grub2ConfigEditor.AppendToOption: values are copied, so a caller that puts the same dictionary object under two options and then edits one of them is not covered; numbers are modelled by their printed form.
- `set_option` of the GRUB editor: only adds an easier edit.
- ClassWalk.WalkClassHierarchy: the generator is run to its end; a consumer that stops early is not modelled.
- Token.VerifyOfCreate: takes JSON to give back the claims that were written, as it does not for every number; payload sections that are valid JSON but not objects, and keys that are not bytes.
- Regions.Mapped.Update: the endpoint form and the service form differ only in names; deleting an existing mapping is taken to succeed, and the updateable fields to be attributes.
- Events.EventManager.SetPercentageStep: a manager without an event handler, which reports nothing and gives all steps one identifier.
- Columns with no value in sorted listings; the documentation of `process_sort_params` calls ascending the default while the code uses descending, and the model takes the default as a parameter.
- Web API resources, policies, RPC clients, keystone, licensing, LDAP, the conductor, scheduler and minion servers, and operating-system morphing apart from the GRUB editor and netplan renaming.
