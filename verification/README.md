# ftx, modelled and proved in Dafny

ftx sends a file over one stream: HELLO both ways, a MANIFEST with one BLAKE3 hash per chunk and a
flat root hash, a request for the chunks the receiver lacks, those chunks, COMPLETE and ACK. The
receiver writes chunks to `dest.partial`, remembers them in a bitmap file `dest.ftxstate`, and renames
the partial file over the destination at the end. A later session with the same manifest resumes.

The project models this from the bytes up and proves what the two programs achieve together. It is laid
out bottom up, one module a file:

| part | modules |
|---|---|
| bytes, CRC-32C, frames | `Bytes`, `Folds`, `Crc32c`, `Polynomials`, `Frames`, `FrameDecoding`, `Connections` |
| messages and files | `Messages`, `MessageCodec`, `Chunks`, `Resume`, `Storage`, `Layouts`, `KnownAnswers` |
| the receiver as a state machine over its files | `Session`, `Rules`, `Verdicts`, `Delivery`, `ResumeSafety`, `FastPath` |
| sender and receiver over two channels, with cuts and restarts | `Protocol`, `Convergence`, `Recovery` |
| the programs themselves, explained by the machines | `Journal`, `Wiring`, `ServerSession`, `ClientSession`, `EndToEnd`, `Conformance`, `Liveness`, `Existence` |

The main results:

- **A transfer is correct, bytes to file** (`EndToEnd.TransferCorrect`). Take any run of the sender's
  loop, on any file, chunk size and path it can be given, and any run of the receiver's loop, joined by
  streams that may stop at any byte, over any starting files, with files that may fail. The destination
  is untouched, or holds the sender's file, or is gone because the final rename failed after it had been
  removed. A receiver that reports success holds the file, and a sender that reports success has a
  receiver that did. One exception: a read-back that breaks off on an error may let bytes through after
  the file.
- **Every delivery is right if and only if none was cropped in that way** (`Delivery.RightExactly`): over
  any number of sessions, with any frames from the peer, as long as the manifests are the sender's.
- **An uninterrupted transfer succeeds** (`Liveness.TransferSucceeds`): two such runs that hear all that
  the other wrote, with no send and no file failing, end in success on both sides. The programs are told
  the outcome of every send, read and file operation and cannot choose it, so this holds of every call with
  good outcomes (`Liveness.ProgramsSucceed`). There are such runs for every job and all truthful files
  (`Existence.TransferExists`). They succeed after any chain of earlier runs of the receiver, whoever its
  peers were, that did not harm the job's claims (`Liveness.ProgramsRecover`).
- **Exactly which sessions succeed** (`Verdicts.SessionVerdict`): for every manifest, every list of chunks,
  every COMPLETE and every state of the files, the receiver succeeds if and only if a condition on those
  alone holds, said without the session's own bookkeeping; and what it then leaves. Beside it stand the
  rules for replies, by the reply: which error is reported when (`Rules.ErrorsWarranted`), what is asked for
  (`Rules.RequestsExact`), what is acknowledged (`Rules.AcksExact`, `Rules.AckNamesLast`), and that nothing
  happens before a HELLO of version 1 (`Rules.GreetingRequired`).
- **When the sidecar tells the truth, exactly** (`ResumeSafety.ResumeInvariant`). Over any history, with
  honest and dishonest manifests mixed and files failing, what it claims of a job is true after every
  single file operation (but for the instant between the rename and its removal) if and only if no event
  is one of three: the partial file is truncated under a sidecar that stays, unless its claims are all
  zeros; a foreign chunk overwrites a claim that a failed wipe has left; a delivery is not followed by the
  removal of the sidecar.
- **Resume converges** (`Convergence.ResumeConverges`): after any sessions, cut anywhere, an uninterrupted
  one follows any schedule to success, in at most 2n + 8 moves for n chunks however they are chosen
  (`Convergence.EveryChoiceConverges`). The two sides never block each other (`Convergence.EveryRun`), and
  each chunk is accepted exactly once over all sessions (`Convergence.Conservation`). It recovers from any
  history of hostile peers, foreign manifests and failing files in which no event harms the job's claims
  (`Recovery.AnyHistoryRecovers`). `Recovery.ExactRecovery` says from exactly which files a session
  succeeds, and `Recovery.NeverRecovers` that from all others none ever does.
- **An in-order session delivers what its root hash names** exactly under an alignment condition on the
  chunk lengths (`FastPath.SessionExact`), since it does not read the file back. The sender's manifests
  meet it (`Delivery.FastRootIsDiskRoot`); a manifest whose chunk lengths do not follow its chunk size
  need not (`FastPath.FastPathMisdelivers`).
- **The program loops do what the machines do** (`ServerSession.HandleSession`, `ClientSession.Send`):
  every file operation, every reply and the result.
- **The checksum is CRC-32C** (`Polynomials.CrcIsRemainder`): of every string, from every seed, it is the
  one word that makes the string a multiple of the Castagnoli polynomial, given by its exponents. It tells
  apart all strings that differ within 32 bits, at any position and any length (`Crc32c.BurstDetected`).
- **Frames, however the stream is cut** (`FrameDecoding.Replay`, `Connections.ReceiveAll`), and **canonical
  codecs** for all messages and the sidecar, with every field, code and byte order at its place (`Layouts`,
  `KnownAnswers`).

BLAKE3 is a parameter: an arbitrary function from byte strings to 32 bytes. Theorems that need it assume
that no two distinct strings collide among those hashed in that very run (and, for the sidecar's id, the
job's own manifest). What the surroundings decide is part of an event: whether a reply gets out, how a
save of the sidecar ends (written, old one kept, old one lost, cut short unnoticed), whether a removal of
it works, where a read-back breaks off, and whether the path is refused or a file fails to open, reopen,
take a write, be read back or be renamed. The programs get these outcomes as arguments, one for each step;
the trace that explains a run carries exactly those.

Where the code differs from its comments, the model follows the code:

- The root hash is a flat hash of the file (`src/lib/transport/client.cpp:104`), not the Merkle root that
  `include/ftx/proto/messages.hpp:36` mentions.
- If all chunks came in order, the partial file is not read back before delivery
  (`src/lib/transport/server.cpp:333-334`).
- `feed` appends without a cap (`src/lib/proto/decoder.cpp:13`), so the bound in
  `include/ftx/proto/decoder.hpp:16` holds throughout if and only if what is held and what is fed fit
  within it at every feed, as `PeakExact` states. `BoundBroken` is a feed that breaks it. Between calls
  it holds unless a frame is ready or a header was bad, as `BufferBound` states.
- The length of a chunk is never checked against the chunk size, only through its hash.
- A partial file that was lost is silently recreated while the bitmap stays
  (`src/lib/io/file_sink.cpp:24-38`). The transfer then succeeds only if the claimed chunks are all
  zeros, as `LostPartial` and `ExactRecovery` state.
- Whether a removal of the sidecar works is not looked at (`src/lib/io/resume_state.cpp:131-134`). If the
  last one fails, a session that both sides take for a success leaves files from which the same transfer
  never succeeds again, as `StaleAfterSuccess`, `StaleSidecar` and `NeverRecovers` state.
- A read error ends the read-back loop like the end of the file (`src/lib/transport/server.cpp:350-355`).
  `LongerDelivered` is a session that delivers more than the file for it.
- The bitmap's size is computed in 32 bits (`src/lib/io/resume_state.cpp:18`) and is too small for the
  seven largest counts, as `BitmapCovers` states. A manifest that fits a frame has at most about two
  million chunks.
- The sender takes any frame of type ACK as success and does not decode it
  (`src/lib/transport/client.cpp:170-187`).
- A save whose flush fails goes unnoticed (`src/lib/io/resume_state.cpp:73-76`), and what got out is
  renamed. It does not load, as `StrictPrefixRejected` states.

## Model

| member | source | states |
|---|---|---|
| `EndToEnd.TransferCorrect` | src/lib/transport/server.cpp:134-383 | for any two runs joined by streams that stop anywhere: the destination is unchanged, the sender's file, or lost to a failed rename; receiver success means it is the file; sender success implies receiver success; only a read-back that broke off may let bytes follow the file |
| `Liveness.TransferSucceeds` | src/lib/transport/client.cpp:65-190 | two runs that hear all the other wrote, with no send and no file failing, over truthful files, both report success and leave exactly the file |
| `Liveness.ProgramsSucceed` | src/lib/transport/client.cpp:65-190 | the same from the outcomes the two programs are given: all good, both succeed |
| `Verdicts.SessionVerdict` | src/lib/transport/server.cpp:134-383 | for every manifest, chunk list, COMPLETE and files: success exactly if the file and the request have room, every chunk is genuine and inside the file, the chunks are enough, and what is hashed has the hash named twice; then the chunks laid over the old or zeroed partial file are at the destination and nothing else is left; otherwise the destination is as it was |
| `Verdicts.Gathers` | src/lib/transport/server.cpp:239-306 | the session's bitmap, counters, running hash and partial file are those of the chunk list, or it ended at the first bad chunk |
| `Rules.ErrorsWarranted` | src/lib/transport/server.cpp:134-379 | in every state, for every message and outcome, each error code is reported if and only if its own conditions hold |
| `Rules.RequestsExact` | src/lib/transport/server.cpp:195-226 | a request goes out if and only if a readable manifest could be opened and the request fits, and it lists exactly the missing indices in increasing order |
| `Rules.AcksExact` | src/lib/transport/server.cpp:308-382 | an ACK goes out if and only if all was received, both roots agree and the rename worked, and it names the last chunk |
| `Rules.HellosExact` | src/lib/transport/server.cpp:134-156 | HELLO is answered if and only if it is of version 1, with version 1, 1 MiB and no capabilities |
| `Rules.OneReply` | src/lib/transport/server.cpp:134-382 | there are no other replies, and never two |
| `Rules.GreetingRequired` | src/lib/transport/server.cpp:134-150 | in a whole session: unless it opens with a HELLO of version 1 it fails, touches no file and says at most one error |
| `Rules.OtherVersionRefused` | src/lib/transport/server.cpp:145-150 | a HELLO of any other version draws exactly the unsupported-version error, whatever follows |
| `Rules.AckNamesLast` | src/lib/transport/server.cpp:374-379 | in a whole session: every ACK names the last chunk of the manifest that the session received |
| `Rules.LastChunkEnds` | src/lib/transport/server.cpp:374-379 | for an honest job that is the nonempty chunk the file ends with |
| `Conformance.ReceiverGreeted` | src/lib/transport/server.cpp:134-150 | a run of the receiver that succeeds or touches a file read as its first frame a nine-byte HELLO with version 1 |
| `Conformance.ReceiverAcksLast` | src/lib/transport/server.cpp:374-379 | joined to a sender, the receiver acknowledges no chunk but the last of the sender's job |
| `Conformance.SenderGreeted` | src/lib/transport/client.cpp:70-83 | along every run the sender gets beyond the greeting only if it heard a HELLO of version 1 |
| `Conformance.SuccessGreeted` | src/lib/transport/client.cpp:70-83 | a sender that reports success read such a frame |
| `Conformance.SuccessAcked` | src/lib/transport/client.cpp:170-187 | and a frame of type ACK |
| `Conformance.OfferFields` | src/lib/transport/client.cpp:28-115 | the manifest's fields, with the 64-bit sum and the 32-bit cast of the count |
| `Conformance.PlanFields` | src/lib/transport/client.cpp:138-168 | each chunk goes out under its own index and its hash in the manifest, and COMPLETE with the manifest's root and status 0 |
| `Existence.TransferExists` | src/lib/transport/client.cpp:65-190 | for every job that fits its frames, every hash and checksum and all truthful files, there are two such runs |
| `Liveness.ProgramsRecover` | src/lib/transport/server.cpp:125-383 | they succeed after any chain of runs of the receiver's program over the same files, whoever the peers were, in which no event harms the job's claims |
| `EndToEnd.SidecarStaysTrue` | src/lib/transport/server.cpp:182-372 | whoever the peer is, a run of the receiver's program in which no event harms the job's claims keeps them true |
| `EndToEnd.SenderFollowsScript` | src/lib/transport/client.cpp:65-187 | along every run the sender has sent HELLO, MANIFEST, a prefix of the requested chunks in request order, COMPLETE; success means all of it and an ACK heard |
| `EndToEnd.SenderSendsOwn` | src/lib/transport/client.cpp:65-168 | even a sender that gives up has sent nothing but the messages of its job |
| `EndToEnd.AckMeansSuccess` | src/lib/transport/server.cpp:374-382 | if an ACK was sent at any time in a session, the session returned success |
| `EndToEnd.ManifestsArriveHonest` | src/lib/transport/connection.cpp:86-154 | whatever part of the sender's bytes arrives, the only manifest the receiver can hear is what the sender made of its job |
| `EndToEnd.SendFile` | src/lib/transport/client.cpp:20-190 | the sender on a fresh connection is such a run, and its steps take the outcomes given for them |
| `EndToEnd.ReceiveFile` | src/lib/transport/server.cpp:125-383 | the receiver on a fresh connection is such a run, over the files as they were and as they are left, and its steps carry the outcomes given for them |
| `Frames.CutStream` | src/lib/transport/connection.cpp:86-154 | of frames written back to back, the last torn anywhere, every cut of the stream yields a prefix of those frames |
| `Journal.HeardWasSent` | src/lib/transport/connection.cpp:86-154 | what one side hears is a message the other side's machine sent |
| `ServerSession.HandleSession` | src/lib/transport/server.cpp:125-383 | files, replies and result are those of the session machine run on exactly the frames of the incoming stream with exactly the outcomes given for its steps, with at most a torn frame after the replies |
| `ServerSession.OnHelloFrame` | src/lib/transport/server.cpp:136-156 | goes on only after a nine-byte HELLO whose version is 1; its silent and reported failures are the machine's |
| `ServerSession.HelloPhase` | src/lib/transport/server.cpp:134-156 | the HELLO exchange with its silent and reported failures is the machine's first step, with the given outcomes |
| `ServerSession.Reconcile` | src/lib/transport/server.cpp:182-212 | resumes exactly when the sidecar loads and names this manifest and count, and leaves it alone; otherwise starts an empty bitmap, and the sidecar is gone if removals work |
| `ServerSession.OpenFiles` | src/lib/transport/server.cpp:182-218 | which files reconciliation and opening leave, for each given outcome of the wipe, the reopening, the creation and the pre-sizing |
| `ServerSession.OpenTransfer` | src/lib/transport/server.cpp:182-226 | reconciliation, opening with its failures and the request together are the machine's step on a manifest |
| `ServerSession.ManifestPhase` | src/lib/transport/server.cpp:158-226 | receiving, decoding, the path's refusal and acting on the manifest are the machine's second step |
| `ServerSession.Transfer.CheckChunk` | src/lib/transport/server.cpp:264-285 | index, own hash and manifest hash are checked in that order |
| `ServerSession.Transfer.TrackOrder` | src/lib/transport/server.cpp:287-292 | the running hash absorbs a chunk exactly while all came in order |
| `ServerSession.Transfer.Write` | src/lib/transport/server.cpp:287-297 | the chunk is hashed if in order and then written, or refused out of range, or written in part by a failing stream |
| `ServerSession.Transfer.Commit` | src/lib/transport/server.cpp:298-305 | the bit is set, the sidecar saved with the given outcome, and the counters advance with their widths |
| `ServerSession.Transfer.AcceptChunk` | src/lib/transport/server.cpp:264-305 | check, write, mark, save and count have the machine's effect on files, bitmap, counters and hasher, failures included |
| `ServerSession.Transfer.CheckCounts` | src/lib/transport/server.cpp:308-330 | resumed sessions need every bit, others the exact byte and chunk counts |
| `ServerSession.Transfer.RootHash` | src/lib/transport/server.cpp:332-357 | the root is the hash of the bytes seen in order, or of the partial file as far as it is read back |
| `ServerSession.Transfer.CheckComplete` | src/lib/transport/server.cpp:308-366 | which error COMPLETE draws, if any: counts first, then the file to read back, then both root hashes |
| `ServerSession.Transfer.Conclude` | src/lib/transport/server.cpp:368-382 | unless the flush or rename is given to fail: the file is delivered, the sidecar removed if that works, and the ACK names the last chunk, or 0 if there is none; otherwise an error with the destination as it was or lost |
| `ServerSession.Transfer.FinishTransfer` | src/lib/transport/server.cpp:308-383 | all of it together has the machine's effect; with nothing failing, a partial file whose hash is the one announced twice is delivered |
| `ServerSession.Transfer.OnFrame` | src/lib/transport/server.cpp:239-306 | every frame the loop can get, including wrong types and malformed payloads, is handled as the machine does |
| `ServerSession.ReceiveLoop` | src/lib/transport/server.cpp:239-383 | the loop to its end is a run of the machine |
| `ServerSession.FollowingIsRunning` | src/lib/transport/server.cpp:125-383 | following the program's steps is running the session machine, so every theorem about runs holds of the program |
| `ClientSession.Send` | src/lib/transport/client.cpp:65-190 | for anything the program can be given, what it writes and returns is what the protocol's sender does on the frames of the incoming stream, with the outcomes given for its reads and sends |
| `ClientSession.HonestPlan` | src/lib/transport/client.cpp:28-120 | for an honest job the program has exactly the protocol sender's messages to send |
| `ClientSession.HashPass` | src/lib/transport/client.cpp:91-107 | one hash per slice in order; the running hash is that of the file when every chunk is counted; it fails exactly if the read of a counted chunk is given to fail |
| `ClientSession.BuildManifest` | src/lib/transport/client.cpp:28-115 | the manifest carries size, chunk size and path as given, the 32-bit count, the hashes of the counted chunks and the hash of the bytes they cover; there is none exactly if a read fails |
| `ClientSession.ReadChunk` | src/lib/transport/client.cpp:143-152 | what is read at index times chunk size is the chunk's slice, unless the stream is given to be bad |
| `ClientSession.SendChunks` | src/lib/transport/client.cpp:138-159 | sends the requested chunks in request order and stops at a bad index or a failed send, as the protocol's sender does |
| `ClientSession.AckTurn` | src/lib/transport/client.cpp:170-187 | success exactly if the next frame of the stream is of type ACK |
| `Delivery.NoWrongFile` | src/lib/transport/server.cpp:239-372 | over any sessions for manifests of given jobs, any frames, any starting files and any failing files, the destination only changes to a job's file or is lost to a failed rename, and success leaves a job's file there, unless a delivery was cropped |
| `Delivery.RightExactly` | src/lib/transport/server.cpp:332-372 | over any such run for honest jobs, every delivery is of its session's file if and only if no delivery's read-back broke off before the end of the partial file |
| `Delivery.DeliveryExact` | src/lib/transport/server.cpp:332-372 | the same for one delivery, from any files |
| `Delivery.LongerDelivered` | src/lib/transport/server.cpp:349-372 | a resumed session with a partial file longer than the file, whose read-back breaks off where the file ends, succeeds and delivers all of it |
| `Delivery.CompleteDelivers` | src/lib/transport/server.cpp:308-372 | if COMPLETE leads to delivery the delivered bytes are the file, or begin with the bytes checked if the read-back was cropped; otherwise nothing changes but a destination lost to a failed rename |
| `Delivery.FastRootIsDiskRoot` | src/lib/transport/server.cpp:233-357 | for a job's manifest, in order and right counts mean chunks 0..n-1 came once each, the count was exact, and the hashed bytes, the partial file and the file are equal |
| `Delivery.CountersExact` | src/lib/transport/server.cpp:287-305 | in an in-order session for a job's manifest the wrapping counters are the exact position and byte count |
| `ResumeSafety.ResumeInvariant` | src/lib/transport/server.cpp:195-372 | over any history of sessions for this and any other manifests with any failing files, the claims of a sidecar with the job's id are true after every file operation if and only if no event harms them; and then they are true at the end |
| `ResumeSafety.FailedWriteSafe` | src/lib/io/file_sink.cpp:67-78 | a write that fails partway through a chunk disturbs no chunk that the sidecar claims |
| `ResumeSafety.StepExact` | src/lib/transport/server.cpp:195-372 | for any event in any state with true claims, they stay true after each single file operation if and only if the event is not one of the three harmful kinds |
| `ResumeSafety.ManifestExact` | src/lib/transport/server.cpp:195-218 | opening for this or any manifest keeps the claims true if and only if it does not truncate the partial file under the job's sidecar, or the new file has the right length and every claimed chunk is zeros |
| `ResumeSafety.ForeignChunkExact` | src/lib/transport/server.cpp:293-302 | a chunk of another manifest keeps the claims true if and only if the bytes that get written change no claimed byte and not the length, or there are no claims |
| `ResumeSafety.CompleteExact` | src/lib/transport/server.cpp:368-372 | COMPLETE keeps the claims true if and only if it does not deliver while the removal of the job's sidecar fails |
| `FastPath.SessionExact` | src/lib/transport/server.cpp:158-379 | for chunks of given lengths, a whole in-order session delivers the bytes its root hash names, for all contents, if and only if each nonempty chunk starts where the previous ones end |
| `FastPath.InOrderDelivers` | src/lib/transport/server.cpp:158-379 | for a manifest naming any parts, the session of manifest, parts in order and COMPLETE succeeds and delivers the parts written in place |
| `FastPath.FastPathExact` | src/lib/transport/server.cpp:287-334 | in-place writes and concatenation of parts of given lengths agree for all contents if and only if the lengths are aligned |
| `FastPath.InOrderShape` | src/lib/transport/server.cpp:264-305 | in an in-order session for any manifest, hashed bytes are the concatenation and the partial file the in-place writes of the same parts |
| `FastPath.FastPathMisdelivers` | src/lib/transport/server.cpp:333-372 | lengths 3 and 1 with chunk size 1, for any hash function: a session that succeeds and delivers bytes other than those its root hash names |
| `FastPath.LengthKept` | src/lib/transport/server.cpp:214-372 | for any manifest, a freshly opened partial file has its declared length to the end of the session, whatever is sent and whatever fails, and so has what is delivered |
| `Convergence.ResumeConverges` | src/lib/transport/server.cpp:182-383 | after any sessions, each cut anywhere and with saves failing at will: every schedule of an uninterrupted session has a run, and every run that follows it takes at most 2n + 8 moves to success, the file at the destination and nothing else left |
| `Convergence.SeriesExists` | src/lib/transport/server.cpp:134-383 | from every first session there are such sessions, and there is such a schedule |
| `Convergence.EveryChoiceConverges` | src/lib/transport/server.cpp:182-383 | the same without a schedule: however the moves are chosen there are at most 2n + 8, and until success a further one is possible |
| `Convergence.SessionBound` | src/lib/transport/server.cpp:239-306 | no sequence of moves within a session, cut or not, is longer than a rank that counts what each side has left to do |
| `Convergence.EveryRun` | src/lib/transport/client.cpp:65-187 | some side can always move; a session that ends uncut ends in success; the sender reports success only if the destination holds the file |
| `Convergence.RunToEnd` | src/lib/transport/server.cpp:134-383 | the moves that any schedule picks, one after the other, end with both sides returned |
| `Convergence.MoveShrinks` | src/lib/transport/server.cpp:239-306 | each move other than a restart shrinks a measure of phase, chunks to send and messages under way |
| `Convergence.Conservation` | src/lib/transport/server.cpp:298-305 | while saves succeed: by delivery, over however many sessions, each chunk was accepted exactly once and the accepted bytes add up to the file size |
| `Convergence.RequestsAreNew` | src/lib/transport/server.cpp:220-226 | while saves succeed: a request lists exactly the chunks that no session since the last delivery has accepted |
| `Protocol.MoveInv` | src/lib/transport/client.cpp:65-187 | every move, cut and restart keeps the coupling of the two sides, the channels and the files |
| `Protocol.ManifestEffect` | src/lib/transport/server.cpp:182-226 | from truthful files the receiver answers the honest manifest with exactly the missing chunks |
| `Protocol.CompleteEffect` | src/lib/transport/server.cpp:308-379 | once all chunks are there, COMPLETE delivers the file and removes partial file and sidecar |
| `Recovery.ExactRecovery` | src/lib/io/file_sink.cpp:24-56 | from any files, an uninterrupted honest session succeeds if the partial file it opens holds all chunks the bitmap claims, and otherwise fails and leaves files that do not either |
| `Recovery.NeverRecovers` | src/lib/io/file_sink.cpp:24-56 | from files of the other kind, no number of uninterrupted honest sessions succeeds or touches the destination |
| `Recovery.LostPartial` | src/lib/io/file_sink.cpp:24-38 | with the partial file lost and the sidecar kept, the files are of the kind that succeeds if and only if every claimed chunk is all zeros |
| `Recovery.StaleSidecar` | src/lib/transport/server.cpp:368-372 | the files after the rename with the sidecar still there are such files, for every file with a nonzero byte |
| `Recovery.StaleAfterSuccess` | src/lib/transport/server.cpp:368-383 | an honest session in which only the last removal fails returns success and leaves exactly those files |
| `Recovery.WreckedLies` | src/lib/io/file_sink.cpp:29-52 | after a reopening that fails and truncates, the sidecar is true if and only if every claimed chunk is all zeros; if pre-sizing fails too, only for an empty file |
| `Recovery.AnyHistoryRecovers` | src/lib/transport/server.cpp:182-383 | after any history of hostile peers, foreign manifests, cuts and failing files in which no event harms the job's claims, the next uninterrupted honest session delivers the file |
| `Recovery.FilledRight` | src/lib/io/file_sink.cpp:58-79 | filling in the missing chunks gives the file if and only if the claimed ones were right |
| `Session.AcceptedIsSlice` | src/lib/transport/server.cpp:264-285 | without collisions, a chunk accepted for a job's manifest is the slice at its index |
| `Session.HonestOffer` | src/lib/transport/client.cpp:28-115 | for an honest job the count is exact, the hashed bytes are the file and the manifest is the honest one |
| `Session.AcceptedEffect` | src/lib/transport/server.cpp:287-305 | what an accepted chunk does to the partial file and, by outcome of the save, to the sidecar |
| `FrameDecoding.Replay` | src/lib/proto/decoder.cpp:9-91 | for any cut into feeds with takes anywhere: frames taken are a prefix of the parse of all bytes fed, all of it unless one is ready, with the error of the first bad header; and the longest the buffer has been |
| `FrameDecoding.PeakExact` | include/ftx/proto/decoder.hpp:16 | the buffer stays within a bound throughout if and only if what is held and what is fed fit within it at every feed |
| `FrameDecoding.BoundBroken` | include/ftx/proto/decoder.hpp:16 | a feed that takes the buffer beyond one header and one largest payload |
| `FrameDecoding.FrameDecoder.Feed` | src/lib/proto/decoder.cpp:9-16 | bytes fed are remembered, the state stays consistent with the parse, and the result says whether it is poisoned |
| `FrameDecoding.FrameDecoder.Drive` | src/lib/proto/decoder.cpp:18-47 | runs until a frame is ready, bytes are short or a header is bad |
| `FrameDecoding.FrameDecoder.TryConsumeHeader` | src/lib/proto/decoder.cpp:49-72 | a good header leads to payload or ready, a bad one poisons |
| `FrameDecoding.FrameDecoder.TakeFrame` | src/lib/proto/decoder.cpp:78-91 | hands out the next frame of the parse and moves on |
| `FrameDecoding.FrameDecoder.History` | src/lib/proto/decoder.cpp:9-91 | in every state, what was taken, what is ready and why it stopped are read off the parse of all bytes fed |
| `FrameDecoding.FrameDecoder.BufferBound` | include/ftx/proto/decoder.hpp:16 | when no frame is ready and none was bad, less than one header and one largest payload is buffered |
| `Connections.ReceiveAll` | src/lib/transport/connection.cpp:113-154 | receiving to the first failure yields the frames and the error of the same parse the decoder refines |
| `Connections.Connection.RecvFrame` | src/lib/transport/connection.cpp:113-154 | the next frame of the stream, or why there is none |
| `Connections.Connection.SendFrame` | src/lib/transport/connection.cpp:86-111 | writes the whole frame, or a proper part of it where the stream is given to break off, and nothing if the payload is over 64 MiB |
| `Frames.WireRoundTrip` | src/lib/proto/frame.cpp:16-74 | frames within the limit, written back to back, parse back exactly |
| `Frames.WireCanonical` | src/lib/proto/frame.cpp:24-54 | the frames of any stream, written again, are the bytes it began with |
| `Frames.ParseExtends` | src/lib/proto/decoder.cpp:9-72 | more bytes only add frames, and none after a bad header |
| `Frames.HeaderRoundTrip` | src/lib/proto/frame.cpp:16-54 | a written header reads back, or is refused exactly for its length |
| `Frames.HeaderCanonical` | src/lib/proto/frame.cpp:24-54 | a header that is accepted is the one that would be written |
| `Layouts.HeaderVerdict` | src/lib/proto/frame.cpp:24-54 | of the nine header bytes: which codes are types, and which fault is named when there are several |
| `Layouts.FrameLimit` | include/ftx/proto/types.hpp:36 | a session reads back the frame it writes if and only if its payload is at most 67108864 bytes |
| `KnownAnswers.GreetingBytes` | include/ftx/proto/messages.hpp:25-29 | the eighteen bytes of the HELLO frame both sides open with |
| `KnownAnswers.ErrorNumbers` | include/ftx/proto/types.hpp:39-49 | an ERROR frame reads as an error if and only if its number is the one listed for it and its length is right |
| `Frames.LengthsSeparated` | src/lib/proto/frame.cpp:16-34 | headers of one type and different lengths never share a CRC |
| `Frames.CorruptHeaderRejected` | src/lib/proto/frame.cpp:24-41 | a header changed within 32 consecutive bits of length and type fails its CRC |
| `Frames.EncodeTo` | src/lib/proto/frame.cpp:16-22 | the in-place encoder writes the nine header bytes and nothing else |
| `Frames.EncodeFrame` | src/lib/proto/frame.cpp:56-74 | the buffer is the header followed by the payload |
| `Crc32c.Compute` | src/lib/util/crc32c.cpp:27-34 | the table loop computes the bit-at-a-time reflected CRC, for every string and seed |
| `Polynomials.CrcIsRemainder` | src/lib/util/crc32c.cpp:9-34 | for every string, seed and word: the word is the CRC if and only if the string followed by its complement, with the complement of the seed added at the front, is a product with the polynomial whose exponents section 12.1 of RFC 3720 lists |
| `Polynomials.PolyIsGenerator` | src/lib/util/crc32c.cpp:9 | the constant holds that polynomial's coefficients |
| `Polynomials.RegisterMoves` | src/lib/util/crc32c.cpp:14-17 | a step of the register is a step of long division by it |
| `KnownAnswers.CheckValue` | tests/util/crc32c_test.cpp:21-25 | the CRC of the digits one to nine is E3069283 |
| `Crc32c.BuildTable` | src/lib/util/crc32c.cpp:11-23 | entry b is eight shifts of the register b |
| `Crc32c.TableStep` | src/lib/util/crc32c.cpp:29-32 | one table look-up is eight one-bit steps |
| `Crc32c.Chaining` | include/ftx/util/crc32c.hpp:12 | the CRC of a seeded by the CRC of b is the CRC of the concatenation |
| `Crc32c.SeedInjective` | src/lib/util/crc32c.cpp:27-34 | for fixed data, different seeds give different CRCs |
| `Crc32c.WindowInjective` | src/lib/util/crc32c.cpp:27-34 | from one register, different 32-bit windows lead to different registers |
| `Crc32c.BurstDetected` | src/lib/util/crc32c.cpp:27-34 | strings of one length that differ within 32 consecutive bits have different CRCs |
| `Crc32c.FourByteBurstDetected` | src/lib/util/crc32c.cpp:27-34 | likewise within four consecutive bytes |
| `Layouts.NetworkOrder16` | include/ftx/util/byteorder.hpp:30-33 | two bytes read as 256 times the first plus the second |
| `Layouts.NetworkOrder32` | include/ftx/util/byteorder.hpp:35-40 | four bytes read with the most significant first |
| `Layouts.NetworkOrder64` | include/ftx/util/byteorder.hpp:42-48 | eight bytes read with the more significant four first |
| `Bytes.BigEndianRoundTrip` | include/ftx/util/byteorder.hpp:12-48 | what is written big-endian at any width reads back |
| `Bytes.FromBigEndianRoundTrip` | include/ftx/util/byteorder.hpp:30-48 | what is read big-endian is written back to the same bytes |
| `Bytes.WriteU64` | include/ftx/util/byteorder.hpp:24-28 | the shift loop writes the eight digits in place and nothing else |
| `Bytes.AccumulateU64` | include/ftx/util/byteorder.hpp:42-48 | the accumulator loop reads the number those digits stand for |
| `Messages.ManifestRoundTrip` | src/lib/proto/messages.cpp:153-196 | a manifest decodes from its encoding if and only if its path fits 16 bits and it has as many hashes as it says |
| `Messages.ManifestCanonical` | src/lib/proto/messages.cpp:169-196 | a payload that decodes is the encoding of what it decodes to |
| `Messages.ManifestInjective` | src/lib/proto/messages.cpp:153-167 | different well-formed manifests have different encodings |
| `Messages.LongPathRejected` | src/lib/proto/messages.cpp:153-196 | a path that does not fit its length field makes the encoding unreadable |
| `Messages.ReqChunksRoundTrip` | src/lib/proto/messages.cpp:201-227 | a request decodes from its encoding if and only if its length fits 32 bits |
| `Messages.ReqChunksCanonical` | src/lib/proto/messages.cpp:211-227 | a request that decodes re-encodes to the same bytes |
| `Messages.ChunkRoundTrip` | src/lib/proto/messages.cpp:232-251 | every chunk message decodes from its encoding |
| `Messages.ChunkCanonical` | src/lib/proto/messages.cpp:241-251 | a chunk payload that decodes re-encodes to the same bytes |
| `Messages.HelloRoundTrip` | src/lib/proto/messages.cpp:126-147 | every HELLO decodes from its encoding |
| `Messages.HelloCanonical` | src/lib/proto/messages.cpp:135-147 | a HELLO that decodes re-encodes to the same bytes |
| `Messages.CompleteRoundTrip` | src/lib/proto/messages.cpp:256-274 | every COMPLETE decodes from its encoding |
| `Messages.CompleteCanonical` | src/lib/proto/messages.cpp:264-274 | a COMPLETE that decodes re-encodes to the same bytes |
| `Messages.AckRoundTrip` | src/lib/proto/messages.cpp:279-294 | every ACK decodes from its encoding |
| `Messages.AckCanonical` | src/lib/proto/messages.cpp:286-294 | an ACK that decodes re-encodes to the same bytes |
| `Messages.ErrorRoundTrip` | src/lib/proto/messages.cpp:299-325 | an ERROR decodes from its encoding if and only if its text fits 16 bits |
| `Messages.ErrorCanonical` | src/lib/proto/messages.cpp:308-325 | an ERROR that decodes re-encodes to the same bytes |
| `Layouts.HelloLayout` | src/lib/proto/messages.cpp:126-133 | version, chunk size, capabilities at bytes 0, 1 and 5 of nine |
| `Layouts.ManifestFields` | src/lib/proto/messages.cpp:153-167 | every field, and every chunk hash, at its offset |
| `Layouts.ReqChunksLayout` | src/lib/proto/messages.cpp:201-209 | the count, and index i at byte 4 + 4i |
| `Layouts.ChunkLayout` | src/lib/proto/messages.cpp:232-239 | index, hash, data at bytes 0, 4 and 36 |
| `Layouts.CompleteLayout` | src/lib/proto/messages.cpp:256-262 | hash and status at bytes 0 and 32 of 33 |
| `Layouts.AckLayout` | src/lib/proto/messages.cpp:279-284 | the index, in four bytes |
| `Layouts.ErrorLayout` | src/lib/proto/messages.cpp:299-306 | number, length of the text, text at bytes 0, 2 and 4 |
| `MessageCodec.Cursor.TakeBytes` | src/lib/proto/messages.cpp:56-119 | takes the next n bytes and advances, or fails and stays |
| `MessageCodec.TakeManifest` | src/lib/proto/messages.cpp:169-196 | the cursor-driven decoder is the decoder by layout |
| `MessageCodec.TakeHashes` | src/lib/proto/messages.cpp:184-192 | the hash loop reads exactly the announced hashes or fails |
| `MessageCodec.TakeReqChunks` | src/lib/proto/messages.cpp:211-227 | the index loop is the decoder by layout |
| `MessageCodec.TakeAck` | src/lib/proto/messages.cpp:286-294 | the cursor-driven decoder is the decoder by layout |
| `MessageCodec.TakeError` | src/lib/proto/messages.cpp:308-325 | the cursor-driven decoder is the decoder by layout |
| `MessageCodec.AppendManifest` | src/lib/proto/messages.cpp:153-167 | appending field by field gives the layout |
| `MessageCodec.AppendReqChunks` | src/lib/proto/messages.cpp:201-209 | appending index by index gives the layout |
| `Wiring.IdOfReceived` | src/lib/transport/server.cpp:188-193 | the id of a received manifest is the hash of the payload bytes received |
| `Wiring.WireInjective` | src/lib/transport/server.cpp:188-193 | no two manifests share an encoding |
| `Chunks.ChunkCountExact` | src/lib/transport/client.cpp:30-33 | the 32-bit count is the exact ceiling if and only if the ceiling fits 32 bits, for every 64-bit size |
| `Chunks.ChunkCountBelow` | src/lib/transport/client.cpp:30-33 | where it is not exact it is too small, so every counted chunk is one of the file |
| `Chunks.Tiling` | src/lib/transport/client.cpp:94-105 | each byte of the file lies in exactly one chunk |
| `Chunks.SlicesCover` | src/lib/transport/client.cpp:94-107 | the clamped reads in order are the file |
| `Chunks.AnyOrderRebuilds` | src/lib/io/file_sink.cpp:58-79 | writing slices in any order with any repeats, each at least once, gives the file |
| `Chunks.WriteSlice` | src/lib/io/file_sink.cpp:58-79 | writing a slice adds that chunk and disturbs no other |
| `Chunks.RangeCheckExact` | src/lib/io/file_sink.cpp:63-66 | for every index, chunk size and payload a session can carry, the 64-bit check accepts exactly the writes in range |
| `Resume.BitmapCovers` | src/lib/io/resume_state.cpp:15-18 | every index has a byte if and only if the count is at most 2^32-8 |
| `Resume.MarkBit` | src/lib/io/resume_state.cpp:20-30 | a mark sets its bit and changes no other |
| `Resume.MarkHave` | src/lib/io/resume_state.cpp:26-30 | a mark adds its index to the set, or nothing beyond the count |
| `Resume.EmptyHave` | src/lib/io/resume_state.cpp:15-18 | a new bitmap stands for the empty set |
| `Resume.MissingExact` | src/lib/io/resume_state.cpp:32-39 | the missing list is the complement in strictly increasing order |
| `Resume.MissingCount` | src/lib/io/resume_state.cpp:32-39 | missing and present indices add up to the count |
| `Layouts.SidecarLayout` | include/ftx/io/resume_state.hpp:13-19 | FTXS, version 1, id, count and bitmap at bytes 0, 4, 5, 37 and 41, with a byte for every eight chunks rounded up |
| `Layouts.SidecarOrder32` | include/ftx/io/resume_state.hpp:18 | the count has its least significant byte first |
| `Layouts.BitmapOrder` | src/lib/io/resume_state.cpp:20-30 | chunk 8a + k is the bit of weight 2^k in byte a of the bitmap |
| `Resume.SaveLoad` | src/lib/io/resume_state.cpp:49-129 | a saved state loads back, whatever follows it in the file |
| `Resume.LoadCanonical` | src/lib/io/resume_state.cpp:88-129 | a file that loads begins with the saved form of what it loads to |
| `Resume.StrictPrefixRejected` | src/lib/io/resume_state.cpp:88-129 | no strict prefix of a saved file loads |
| `Storage.ResumeState.constructor` | src/lib/io/resume_state.cpp:15-18 | a new state has no index, and can be used if and only if the count is at most 2^32-8 |
| `Storage.ResumeState.MarkReceived` | src/lib/io/resume_state.cpp:26-30 | the bitmap in memory gains exactly that index |
| `Storage.ResumeState.MissingChunks` | src/lib/io/resume_state.cpp:32-39 | the loop lists the missing indices |
| `Storage.ResumeState.Complete` | src/lib/io/resume_state.cpp:41-47 | the loop succeeds if and only if nothing is missing |
| `Storage.ResumeState.Save` | src/lib/io/resume_state.cpp:49-86 | by the given outcome: the sidecar holds the saved bytes and loads as this state, or is as before, or is gone, or was cut short and does not load although the save reports success |
| `Storage.LoadState` | src/lib/io/resume_state.cpp:88-129 | the field-by-field reader is the loader by layout |
| `Storage.SidecarOf` | src/lib/io/resume_state.cpp:88-129 | whatever padding bits a loaded file holds, the set it stands for lies below its count |
| `Storage.FileSource.ReadAt` | src/lib/io/file_source.cpp:34-62 | the clamped slice at the offset, the rest of the buffer untouched; it fails exactly for an offset past the end or a bad stream |
| `Storage.FileSink.Open` | src/lib/io/file_sink.cpp:18-56 | keeps a long enough partial file on resume if it can be reopened, otherwise makes one of the declared size full of zeros; which given failure leaves which file |
| `Storage.FileSink.WriteAt` | src/lib/io/file_sink.cpp:58-79 | in range it splices the data in, or the part of it that a failing stream takes; out of range nothing changes |
| `Storage.FileSink.Finalize` | src/lib/io/file_sink.cpp:92-109 | the partial file becomes the destination unless the rename is given to fail; then it stays, and the destination is kept or lost |
| `Storage.HashFile` | src/lib/transport/server.cpp:344-356 | reading back in 64 KiB blocks hashes the whole file, or exactly the part before the byte where reads are given to stop |
| `Storage.DiskFiles.RemoveSidecar` | src/lib/io/resume_state.cpp:131-134 | the sidecar is gone if the removal works, and as it was if not |

## Left out

- TLS, sockets, name resolution, the acceptor, threads and shutdown: a connection is a pair of byte streams that may end anywhere.
- The inside of BLAKE3: a parameter, with feeding piece by piece equal to hashing the concatenation.
- The rule by which a destination path is refused (`src/lib/transport/server.cpp:22-33` and `109-123`): it rests on the file system library, so refusal is one of the outcomes a session can meet.
- Killing the process: writes to the partial file take effect at once here, while the program goes through a buffered stream.
- A stop between the rename and the removal of the sidecar: the two are one step of a run. It would leave the same files as a removal that fails.
- Two sessions at one destination at the same time: the program declares them unsupported.
- Command line, benchmark, logging, error texts and the error text in ERROR replies.
- Creating parent directories, and opening the source file with its failures.
- Storage.FileSource.ReadAt: the source file does not change while it is sent, so a read that is not refused is not short.
- ClientSession.ReadChunk: for the same reason it gives the whole slice or fails.
- Convergence.ResumeConverges: for jobs whose frames fit 64 MiB, with saves that may fail and no other failing file; `AnyHistoryRecovers` and `ProgramsRecover` cover histories with failing files.
- Liveness.TransferSucceeds: for jobs whose frames fit 64 MiB, since larger ones are refused by the sender itself.
