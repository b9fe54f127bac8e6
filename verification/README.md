# Verified model of srt-xtransmit

This project models the algorithmic cores of srt-xtransmit, a network test tool, and proves what
they do for all inputs and runs:

- **File transfer.** The sender cuts files into messages `flags | name | 0 | payload` in one reused
  buffer; the receiver reassembles them with a small state machine and makes the folders on the way.
  Around that: the queue that walks a folder tree, the naming of files relative to the root, and the
  receiver's file system. The main result is `FolderTransfer.SendFolder`: when the socket accepts every
  message and nobody breaks in, the receiver's disk mirrors the sender's tree, byte for byte and file
  for file; for any other answers of the socket and any break it holds the first part of the list of
  files whose messages were sent, and `SendPlan` says which those are.
- **Embedded metrics.** The generator writes fields and a checksum into payloads; the validator keeps
  loss, reordering, integrity, latency, delay factor and jitter online. The online states are proved
  equal to what the history of arrivals says, alone and end to end over a channel that loses, repeats,
  reorders and damages packets.
- **Rate pacer.** The accumulator of deviations refines an absolute schedule, in spinning and in
  sleeping mode, and so bounds the rate of the sending loop (`Pacer.SendPaced`).
- **Connection manager and scheduler.** Both are modelled by their atomic steps, with invariants over
  every interleaving.

`dafny verify dfyconfig.toml --verification-time-limit 0` checks everything.

## How it is organised

| file | contents |
|---|---|
| `Prelude.dfy`, `Runtime.dfy` | bytes, C strings, truncating division; break flag, steady clock, memory |
| `Framing.dfy`, `SendPlan.dfy`, `FileSend.dfy` | the segments of a file as a function; what is sent for any answers and breaks; the sending loops that do it |
| `Disk.dfy`, `Folders.dfy` | paths, places and the file system; the loop that creates folders |
| `FileReceive.dfy`, `Transfer.dfy`, `RoundTrip.dfy` | the receiving loop; one file; lists of files, whole and cut short |
| `Directory.dfy`, `Mirror.dfy`, `FolderTransfer.dfy` | the walk; trees, names and where they land; the transfer of a folder |
| `Payload.dfy`, `Metrics.dfy` | fields, checksum and generator; validator and end-to-end runs |
| `Reorder.dfy`, `Latency.dfy`, `DelayFactor.dfy`, `Jitter.dfy` | the single metrics |
| `Pacer.dfy`, `Scheduler.dfy` | the pacer; the task scheduler |
| `Connections.dfy`, `StreamLoop.dfy`, `Waking.dfy` | the connection manager; when its loop goes on and stops; its waits |

Classes and methods follow the program's own classes and loops. Their contracts tie the new state to a
function of the old one, and the lemmas are about those functions. Bytes are integers 0 to 255, paths
are byte strings, times are integers in the unit their declaration names.

## Where the code is not what one would expect

The model follows the code. These are the places where a promise fails, each with the exact condition
under which it holds:

- A file whose last segment is exactly full is sent without an EOF flag (`Framing.EofMissing`). The
  bytes arrive all the same; the receiver keeps the file open until the next file or its own end.
- An empty file sends nothing and is not created (`RoundTrip.DeliveredExactly`).
- The segment loop ends by itself if and only if the name leaves room for a payload, `|name| + 2 < size`
  (`FileSend.LoopEndsExactly`). With a name that fills the whole segment every read gets nothing without
  coming up short, for every file, and only a break ends it (`FileSend.SendFile`).
- The destination is put in front of the name with no delimiter of its own. Files land at their place
  below the destination exactly when source and destination join cleanly (`Mirror.LandsBelow`); a
  source `folder/` and a destination `out` do not.
- Folder creation starts behind the first `./` of the path, which may also be the end of a folder's
  name such as `a.`. An upload can be received exactly if its path ends in a proper name that is no
  folder, no folder on the way is a file, and the folder where the scan starts exists or is itself the
  first one asked for, in an existing folder (`FileReceive.OpensExactly`). `out/a./b` fails, without an
  error, and `out/a./b/c`, with one, as long as there is no folder `out/a.` (`FileReceive.DottedFileFails`,
  `FileReceive.DottedFolderFails`).
- When the break flag is raised during a spinning wait, the wait ends at once and one more message is
  still sent, possibly early (`Pacer.SpinExactly`, `Pacer.PacedUntil`).
- The generator passes its 64-bit counter through a signed 32-bit int. The number arrives exactly for the
  first 2^31 packets, and for the last 2^31 of the 64-bit range (`Payload.SeqnoDecodes`).
- The packet diagram in the comment of `metrics.cpp` gives the monotonic timestamp 16 bytes; the code uses
  8, and the other 8 keep the byte pattern (`Payload.PatternKept`).
- The loss counter is the true loss exactly when every reordered packet was a repetition
  (`Reorder.LossIsExact`): a late packet is counted as lost and as reordered.
- The smoothed latency starts over whenever it is exactly -1 (`Latency.SentinelForgets`), and approaches a
  constant delay from the side of zero only to within 15 microseconds, for either sign
  (`Latency.SmoothStep`, `Latency.Settles`).
- A packet whose delay is exactly zero hides the next jitter difference (`Jitter.AllUsed`,
  `Jitter.OffsetMatters`).
- Pacing is off, that is the interval is 0, exactly for rates below a tenth of a message per second and
  for more than ten million messages in ten seconds (`Pacer.PacingOff`).
- A pipe that ends before its table entry is made is never removed from the table; this happens exactly
  when its end comes between its start and the main thread's next step (`Connections.OrphanExactly`). The
  bounds still hold, but the final loop can then never end (`Connections.DrainPossibleAfter`), and with as
  many such pipes as streams no further connection is made before a break (`Connections.Stalled`,
  `Connections.StallArises`).
- The size is read before the wait begins, and what a pipe notifies in between is lost. Apart from spurious
  wake-ups a wait can end if and only if a pipe is still running when it begins (`Waking.WakePossible`);
  otherwise the main thread waits for good, even with no orphan (`Waking.LostWakeupArises`).

## Model

| member | source | states |
|---|---|---|
| Framing.SegmentAt | xtransmit/file-send.cpp:54-94 | segment `i` of a file exists exactly when its offset lies in the file, and it is flags, header (first only) and exactly the file's bytes from its offset up to the next one |
| Framing.SegmentFraming | xtransmit/file-send.cpp:57-59 | START is on exactly the first segment; every segment but the last is full and has no EOF; the last has EOF exactly when it is short and the file was read to its end; the other flag bits are 0 |
| Framing.FlagBits | xtransmit/file-receive.cpp:96-97 | the receiver reads the two lowest bits as the sender set them, whatever the other six are |
| Framing.SegmentCount | xtransmit/file-send.cpp:52-94 | an empty file takes no message, any other `1 + ceil(max(0, size - (S - hdr)) / (S - 1))` |
| Framing.EofMissing | xtransmit/file-send.cpp:56-59 | no message of a file carries EOF exactly when the file fills its first segment and a whole number of further ones |
| FileSend.MessageSocket.Write | xtransmit/srt_socket.cpp:530-554 | a write returns a number or raises an exception; it takes the message exactly if it reports the whole length, and nothing otherwise |
| FileSend.WriteSegment | xtransmit/file-send.cpp:61-84 | the retry loop asks again for every 0 and then ends as the first other answer says: segment delivered once, error, or exception; nothing else is delivered and no further answer used |
| FileSend.ReadSegment | xtransmit/file-send.cpp:56-59 | after the read the buffer starts with flags, the header that was there, and exactly the file's next bytes; end of file shows only in a short read |
| FileSend.SendBody | xtransmit/file-send.cpp:54-94 | the loop ends, and what reached the socket, how it ended and what is left of answers and flag are exactly those of the file's plan |
| FileSend.SendFile | xtransmit/file-send.cpp:29-104 | one file: the same, from any buffer contents; a file that cannot be opened fails and sends nothing; with a name that fills the whole segment nothing is sent and only a break ends the loop, after any number of looks at the flag |
| FileSend.LoopEndsExactly | xtransmit/file-send.cpp:52-94 | with a lowered flag the segment loop ends if and only if the header is shorter than the segment; otherwise every turn repeats the one before |
| FileSend.SendFiles | xtransmit/file-send.cpp:209-220 | a list of files through one buffer does exactly what the plan of the list says, up to the first failure, exception or raised flag |
| SendPlan.ExecuteSends | xtransmit/file-send.cpp:54-94 | for any answers and break: what is sent are the plan's messages up to the first that the socket does not take or that a raised flag keeps back, whichever comes first |
| SendPlan.ExecuteDone | xtransmit/file-send.cpp:54-94 | a plan comes to its regular end if and only if it never gives up, the socket takes all its messages and the flag stays lowered for all its looks |
| SendPlan.ExecuteEnds | xtransmit/file-send.cpp:54-94 | how a transmission ends, exactly: with an exception or error as the decisive answer says, broken off, given up at an unreadable file, or regularly |
| SendPlan.ThroughExactly | xtransmit/file-send.cpp:61-84 | the socket takes messages up to the first one whose decisive answer, the next one other than 0, is not its length |
| SendPlan.FilePlanExactly | xtransmit/file-send.cpp:54-94 | a file's plan delivers its segments, looks at the flag before each, and once more behind a full last one or none; it gives up exactly at a read error |
| SendPlan.PlanExactly | xtransmit/file-send.cpp:209-220 | a list's plan delivers exactly the messages of the uploads up to and including the first that cannot be opened or read to its end, all of them if there is none, then with one look at the flag per message and one or two more per file |
| SendPlan.AllowedExactly | xtransmit/file-send.cpp:54-94 | a message of a list gets past the flag if and only if that stays lowered for the looks of the files before it, of the messages before it in its file, and the one before itself |
| SendPlan.SentExactly | xtransmit/file-send.cpp:209-220 | what is sent is an initial part of the message stream; the transmission comes to its regular end, with all of it sent, if and only if every file is readable, the socket accepts every message and the flag stays lowered |
| SendPlan.Cooperative | xtransmit/file-send.cpp:61-84 | a socket that takes every message, at once or after asking to try again, and a flag that nobody raises do not disturb the transmission |
| Disk.FileSystem.CreateFolder | xtransmit/file-receive.cpp:27-44 | success means that the folder is there, failure that a file has its name or its parent is missing; files and other folders stay |
| Disk.PrefixPlace | xtransmit/file-receive.cpp:67-68 | a prefix of a path up to a delimiter is strictly on the way to the file |
| Disk.ResolveExactly | xtransmit/file-receive.cpp:27-44 | a path, read from left to right, names the place of its components other than empty ones and `.`, below the root if it starts with a delimiter |
| Folders.StartPos | xtransmit/file-receive.cpp:51-57 | the scan starts right behind the first `./`, or behind the first `.\` if there is none, or at 0 if there is neither |
| Folders.FolderPrefixes | xtransmit/file-receive.cpp:51-71 | the folders asked for are exactly the prefixes ending at a delimiter behind the start position and up to the last one, parents before children |
| Folders.CreateSubfolders | xtransmit/file-receive.cpp:49-73 | the scan ends, never reaches the end of the path, and creates those prefixes in order up to the first failure |
| Folders.CreateAllExactly | xtransmit/file-receive.cpp:65-71 | on any disk the folders are created up to the first that cannot be created; those before it stay, and nothing behind it is tried |
| Folders.SubfoldersCreated | xtransmit/file-receive.cpp:49-73 | when the scan can get under way, creation succeeds if and only if no prefix names a file, and then exactly the prefixes have been added |
| Folders.ParentReached | xtransmit/file-receive.cpp:108-114 | after success the file's own folder exists |
| Folders.MissingAnchorFails | xtransmit/file-receive.cpp:51-57 | when the scan cannot get under way, creation fails as soon as any folder is asked for |
| Folders.CreationExactly | xtransmit/file-receive.cpp:49-73 | creation succeeds if and only if no folder is asked for, or the scan can get under way and no prefix names a file |
| Folders.OpenableExactly | xtransmit/file-receive.cpp:108-118 | creating the folders and then opening the file succeeds if and only if the path ends in a proper name that is no folder, no prefix names a file, and the scan can get under way |
| FileReceive.OpensExactly | xtransmit/file-receive.cpp:100-119 | after a first segment the receiver goes on exactly under that condition; it stops with an error exactly when a folder cannot be created |
| FileReceive.OpenDisk | xtransmit/file-receive.cpp:100-119 | the disk after a first segment, on any disk: the folders created up to the first failure, and the file emptied exactly if it was opened |
| FileReceive.DottedFileFails | xtransmit/file-receive.cpp:51-57 | any file `out/a./name` is refused without an error while there is no folder `out/a.` |
| FileReceive.DottedFolderFails | xtransmit/file-receive.cpp:51-57 | any file `out/a./name/more` is refused with an error while there is no folder `out/a.` |
| FileReceive.ReceiveSegment | xtransmit/file-receive.cpp:95-156 | one message, with whatever an earlier one left behind it in the buffer, has the effect of that message alone |
| FileReceive.ReceiveFiles | xtransmit/file-receive.cpp:77-160 | the loop's effect on the disk and its result are those of the messages in order; buffer contents and time-outs do not matter |
| FileReceive.StraysIgnored | xtransmit/file-receive.cpp:126-130 | later segments and time-outs while no file is open change nothing on the disk and stop nothing |
| FileReceive.FreshStart | xtransmit/file-receive.cpp:100-119 | a first segment means the same whatever file was open and in whatever state the stream was |
| Transfer.BodyReceived | xtransmit/file-receive.cpp:132-156 | the later segments append exactly the file's bytes to the open file |
| Transfer.FileReceived | xtransmit/file-receive.cpp:100-156 | all segments of a non-empty file leave exactly its bytes under its name, whatever was there; the stream stays attached when no EOF came |
| RoundTrip.EmptyDiskTakes | xtransmit/file-receive.cpp:51-57 | for which uploads a receiver with an empty disk opens a file, exactly, in terms of the path alone |
| RoundTrip.OpenSucceeds | xtransmit/file-receive.cpp:108-118 | an upload is opened if and only if the disk can take it; then its file is empty, exactly the folders on the way are there in addition, and the file system is orderly |
| RoundTrip.AllReceived | xtransmit/file-receive.cpp:89-157 | all messages of any list of files, received in order, leave exactly the old disk with each non-empty file under its name and the folders on the way |
| RoundTrip.LateStart | xtransmit/file-receive.cpp:89-157 | a receiver that comes in the middle ignores the rest of the file it does not know and receives all that follows in full |
| RoundTrip.DeliveredExactly | xtransmit/file-receive.cpp:102-114 | pointwise: a place holds the last upload that sent anything there, in full, and no other place changes |
| RoundTrip.SegmentsCut | xtransmit/file-send.cpp:54-94 | the first messages of a file are the messages of a first part of it |
| RoundTrip.PartialRun | xtransmit/file-receive.cpp:89-157 | after any initial part of the message stream the disk holds exactly the part of the uploads with these messages: some files whole and at most one short, no byte out of place |
| RoundTrip.TransferFiles | xtransmit/file-send.cpp:207-220 | sender and receiver together, for all answers of the socket and any break: exactly the first part of the uploads whose messages are sent, and all of them when all messages are sent, in particular when undisturbed |
| Directory.ReadDirectory | xtransmit/file-send.cpp:111-137 | the queue walk ends; it returns exactly the paths of the files that entries below the folder lead to, with the multiplicities of the tree, or the path itself if it is no folder |
| Directory.FilesExactly | xtransmit/file-send.cpp:127-133 | the files of a tree are exactly those that its entries, step by step, lead to |
| Mirror.FilesApart | xtransmit/file-send.cpp:127-133 | no file is listed twice, and none is where another one's folders are |
| Mirror.WalkedOnce | xtransmit/file-send.cpp:127-133 | in a valid tree the walk returns each of these paths once, and no other path |
| Mirror.RelativeInverse | xtransmit/file-send.cpp:145-160 | the relative name is the inverse of prefixing the root exactly for what lies below the root; for a single file it is the bare file name |
| Mirror.NamesDistinct | xtransmit/file-send.cpp:145-160 | different files below one root are uploaded under different names |
| Mirror.LandsBelow | xtransmit/file-receive.cpp:104-105 | the destination and the relative name together lead to the file's own place below the destination, if and only if source and destination join cleanly |
| FolderTransfer.TreeReceivable | xtransmit/file-send.cpp:210-213 | the uploads of a tree never get in each other's way on the receiver |
| FolderTransfer.TreeMirrored | xtransmit/file-send.cpp:243-281 | the uploads of a tree put exactly its non-empty files below the destination and change no other file |
| FolderTransfer.SendFolder | xtransmit/file-send.cpp:243-281 | walk, naming, sending and receiving together: the receiver's disk mirrors the tree when all messages are sent, in particular when the socket takes everything and nobody breaks in; otherwise it holds the first part of the list whose messages were sent |
| FolderTransfer.SingleFile | xtransmit/file-send.cpp:121-150 | a single file is listed as itself and goes under its own name into the destination, if and only if that is empty or ends in a delimiter |
| FolderTransfer.MissingSource | xtransmit/file-send.cpp:29-37 | a source that does not exist is listed as itself, and nothing is sent for it |
| Payload.LERoundTrip | xtransmit/metrics.cpp:91-102 | a number that fits its field is read back as written |
| Payload.LEByte | xtransmit/metrics.cpp:91-102 | byte `i` of a field has the weight 256^i |
| Payload.WritePacketChecksum | xtransmit/metrics.cpp:117-130 | puts the digest of everything else in place and changes nothing else |
| Payload.Generator.GeneratePayload | xtransmit/metrics.hpp:50-63 | overwrites the whole payload with pattern, fields and checksum, and counts |
| Payload.GeneratedDecodes | xtransmit/metrics.hpp:81-85 | every generated payload decodes to its timestamps, its own length and a matching checksum, whatever the checksum function |
| Payload.WireLayout | xtransmit/metrics.cpp:44-49 | which bytes hold which field, and what the checksum covers |
| Payload.FieldsExactly | xtransmit/metrics.cpp:44-115 | what the fields of any payload say, generated or not: the number their eight bytes hold, least significant first |
| Payload.ChecksumExactly | xtransmit/metrics.cpp:132-150 | any packet is accepted if and only if each of its 16 digest bytes is that of the digest of everything else |
| Payload.DigestDamage | xtransmit/metrics.cpp:132-150 | a generated payload with other bytes for its digest is accepted only if they are the same |
| Payload.BodyDamage | xtransmit/metrics.cpp:132-150 | with its digest untouched a damaged payload is accepted if and only if the checksum function does not tell the two apart |
| Payload.SeqnoDecodes | xtransmit/metrics.hpp:52-58 | the sequence number survives exactly for counters below 2^31 or at least 2^64 - 2^31 |
| Payload.PatternKept | xtransmit/metrics.hpp:54 | the bytes no field uses keep the running pattern |
| Reorder.ReorderMetric.SubmitSample | xtransmit/metrics_reorder.hpp:28-54 | updates all five counters as the classification says, without overflow while sequence numbers and packet count fit |
| Reorder.ReorderMetric.IncPktsReceived | xtransmit/metrics_reorder.hpp:58-61 | counts a damaged packet and nothing else |
| Reorder.OnlineIsHistory | xtransmit/metrics_reorder.hpp:28-54 | after every sequence of arrivals the counters are NextExp, the arrivals below it, their largest distance, and the missing numbers plus the late first arrivals |
| Reorder.Accounting | xtransmit/metrics_reorder.hpp:28-54 | lost and repeated packets are as many as reordered packets and missing numbers; lost is never below the true loss |
| Reorder.Conservation | xtransmit/metrics_reorder.hpp:30-53 | expected plus reordered is processed plus lost |
| Reorder.LossIsExact | xtransmit/metrics_reorder.hpp:39-53 | the loss counter is the true loss if and only if every reordered packet was a repetition |
| Reorder.LosslessRun | xtransmit/metrics_reorder.hpp:28-54 | after any permutation of 0 .. n-1 lost equals reordered and nothing is missing |
| Reorder.Undisturbed | xtransmit/metrics_reorder.hpp:32-53 | nothing lost and nothing reordered if and only if the arrivals are 0, 1, ..., n-1 |
| Metrics.Validator.ValidatePacket | xtransmit/metrics.hpp:75-100 | updates all metrics of the connection for an intact packet, and only the packet counters for a damaged one |
| Metrics.DamageCounted | xtransmit/metrics.hpp:85-94 | a packet with any damage inside its digest bytes is counted as damaged, and nothing but the packet counters changes |
| Metrics.Validator.Stats | xtransmit/metrics.cpp:154-186 | reports the state and ends the period of latency and delay factor only |
| Metrics.ReorderOfRun | xtransmit/metrics.hpp:81-99 | over any run the reordering counters are the history of the intact packets' numbers; damaged packets are counted as such |
| Metrics.LengthsOfRun | xtransmit/metrics_integrity.hpp:28-43 | over any run the wrong-length counter counts the packets whose length field is not their length |
| Metrics.LatencyOfRun | xtransmit/metrics.hpp:96 | over any run latency is the history of the intact packets' delays and the reports between them |
| Metrics.JitterOfRun | xtransmit/metrics.hpp:97 | over any run jitter is the history of the intact packets' delays, untouched by reports |
| Metrics.DelayFactorOfRun | xtransmit/metrics.hpp:98 | over any run the delay factor is the history of the intact packets' delays since the last report |
| Metrics.RunConserves | xtransmit/metrics.hpp:75-100 | over any packets and reports, expected plus reordered plus checksum failures is processed plus lost |
| Metrics.EndToEnd | xtransmit/metrics.hpp:50-100 | from generator through an adversarial channel to validator: the counters describe the packet numbers that came through, against the sets of what arrived and what is missing; damaged packets are counted exactly |
| Metrics.DelaysArrive | xtransmit/metrics.hpp:82-98 | all timing metrics see arrival time minus what the sender wrote, for intact packets only: delays for jitter, the period's delays for the delay factor, delays and period ends for latency |
| Metrics.TimingEndToEnd | xtransmit/metrics.hpp:50-100 | from generator through an adversarial channel to validator: jitter, delay factor and latency are the histories of those delays |
| Latency.LatencyMetric.SubmitSample | xtransmit/metrics_latency.cpp:14-23 | updates minimum, maximum and average for a delay truncated to microseconds |
| Latency.AverageBounded | xtransmit/metrics_latency.cpp:20-22 | the average lies between the smallest and largest delay ever submitted, for any signs, over all periods |
| Latency.AverageOfAll | xtransmit/metrics_latency.cpp:20-29 | the average is that of all delays since the beginning, in order; ends of periods do not change it |
| Latency.ExtremaOfPeriod | xtransmit/metrics_latency.cpp:17-29 | minimum and maximum are those of the delays since the last reset |
| Latency.SmoothStep | xtransmit/metrics_latency.cpp:20-22 | for any signs: under a constant delay a step moves toward it, never past it; it stands still exactly in the last 15 microseconds on the side of zero, and jumps from -1 |
| Latency.Settles | xtransmit/metrics_latency.cpp:20-22 | for any signs: under a constant delay the average comes to rest in at most as many samples as it was off, within 15 of the delay on the side of zero, and at the delay itself from it, from beyond it and from -1 |
| Latency.SentinelForgets | xtransmit/metrics_latency.cpp:20-22 | when the update is the smoothing formula, exactly |
| DelayFactor.DelayFactorMetric.SubmitSample | xtransmit/metrics_delay_factor.cpp:10-25 | the first packet of a period sets the reference, every other one the extremes |
| DelayFactor.DelayFactorIsSpan | xtransmit/metrics_delay_factor.hpp:30 | the delay factor is the span of the delays behind the reference packet, to within two microseconds |
| DelayFactor.DelayFactorExact | xtransmit/metrics_delay_factor.hpp:30 | with microsecond clocks it is exactly that span |
| DelayFactor.ReferenceIrrelevant | xtransmit/metrics_delay_factor.cpp:14-24 | with microsecond clocks the reference packet's delay does not matter |
| DelayFactor.OffsetIrrelevant | xtransmit/metrics_delay_factor.cpp:10-25 | a constant offset between the clocks does not matter, to the nanosecond |
| Jitter.JitterMetric.SubmitSample | xtransmit/metrics_jitter.cpp:10-22 | updates the jitter from the previous delay unless that is zero |
| Jitter.RelativeTransit | xtransmit/metrics_jitter.cpp:18 | the difference used is how far the two delays are apart, in whole microseconds, whichever is larger |
| Jitter.ClosedForm | xtransmit/metrics_jitter.cpp:10-22 | the jitter is a sixteenth of the sum of how far consecutive delays are apart, behind delays other than 0, each weighted by 15/16 to the power of its age |
| Jitter.AllUsed | xtransmit/metrics_jitter.cpp:16 | the used differences are all consecutive ones if and only if no delay but possibly the last is zero |
| Jitter.JitterBounded | xtransmit/metrics_jitter.cpp:18-19 | the jitter is at least 0 and at most the largest used difference, times 1 - (15/16)^n |
| Jitter.OffsetIrrelevant | xtransmit/metrics_jitter.cpp:10-22 | two clocks that differ by a constant give the same jitter as long as no delay becomes zero |
| Jitter.OffsetMatters | xtransmit/metrics_jitter.cpp:16 | for every pair of delays, the offset that makes the first one zero hides the step: the two clocks give the same jitter if and only if there is no step |
| Pacer.RatePacer.Wait | xtransmit/pacer.hpp:45-71 | the exact clock reading, clock and flag after a wait in each mode; unless a raised flag breaks off a spinning wait, the call returns no earlier than the deadline |
| Pacer.SpinExactly | xtransmit/pacer.hpp:57-67 | a spinning wait ends at the first reading at or after the deadline; it is broken off if and only if the flag is found raised after a reading still ahead of it |
| Pacer.NextDeadline | xtransmit/pacer.hpp:47-70 | in both modes the next deadline is the absolute schedule plus what truncation dropped (under 1 microsecond per wait), or the last sample if that is later |
| Pacer.MicrosecondClock | xtransmit/pacer.hpp:69 | with a clock that ticks in microseconds truncation drops nothing |
| Pacer.NeverEarly | xtransmit/pacer.hpp:51-67 | no whole wait releases a message before its scheduled time, however late or bursty the caller |
| Pacer.OnSchedule | xtransmit/pacer.hpp:47-56 | in both modes the deadline is the scheduled time plus what truncation dropped if and only if the last sample is not past that; a sleeping caller is released exactly there if and only if it is back by then |
| Pacer.IntervalBounds | xtransmit/pacer.hpp:73-77 | the interval is less than a microsecond too short for the rate, and too long only by rounding the message count |
| Pacer.IntervalExactly | xtransmit/pacer.hpp:73-77 | the interval is, for every rate and size, ten seconds over the whole messages in ten seconds, both rounded down, or 0 if there are none |
| Pacer.PacingOff | xtransmit/pacer.hpp:75-76 | for which rates the interval is 0, exactly |
| Pacer.BandwidthCap | xtransmit/pacer.hpp:47-76 | the bytes released by whole waits in any time from the start stay below the configured rate enlarged by one part in the interval |
| Pacer.SendPaced | xtransmit/generate.cpp:53-74 | the sending loop on clock, flag and work is the run `Paced` of waits: the same release times, samples, clock and flag; every release but possibly the last one after a break is at or after its scheduled time and within the rate, and without a break all messages go out |
| Pacer.PacedTimely | xtransmit/generate.cpp:59-74 | every run of waits, from any point on schedule and for any clock, flag and work, keeps the schedule as far as its waits are whole |
| Pacer.PacedUntil | xtransmit/generate.cpp:59-64 | which messages a break stops, exactly: message `k` goes out if and only if the turns before it look at the flag less often than it stays lowered, and at the same time as without a break unless its own wait is broken off |
| Connections.ConcurrentPipes.OnPipeExit | xtransmit/misc.cpp:127-145 | marks the entry of an ended pipe, and changes nothing when there is none |
| Connections.ConcurrentPipes.Count | xtransmit/misc.cpp:147-152 | the size is the number of entries not marked, and cannot underflow |
| Connections.ConcurrentPipes.ClearInactive | xtransmit/misc.cpp:155-165 | removes exactly the marked entries and keeps the size |
| Connections.RunKeeps | xtransmit/misc.cpp:122-273 | every step of every thread, in any interleaving, keeps table, threads and counters in agreement and the limits: marked entries stay a subset of the entries, and every running pipe has an entry or is the pending one |
| Connections.ConnectionBound | xtransmit/misc.cpp:216-268 | in every interleaving the running pipes are at most the configured streams, and the connections at most the configured maximum |
| Connections.RunningCounted | xtransmit/misc.cpp:122-152 | the size the main thread reads is the running pipes, other than one whose entry is pending, plus the orphaned ones |
| Connections.DrainedOnExit | xtransmit/misc.cpp:270-273 | when the final loop has ended every pipe ever started has reported its end |
| StreamLoop.StopReason | xtransmit/misc.cpp:216-268 | a run that has left the stream loop has a failed connection, a break, the maximum of connections, or no reconnection and all streams started |
| StreamLoop.NoMoreConnections | xtransmit/misc.cpp:253-260 | once the maximum is reached, a break or missing reconnection is noticed, or the loop is left, nothing is connected in any run |
| StreamLoop.FailureEnds | xtransmit/misc.cpp:229-251 | a connection that fails is the last attempt |
| StreamLoop.BreakEnds | xtransmit/misc.cpp:259-268 | after a break at most the connection that is about to be established is made, in any run |
| StreamLoop.BreakDrains | xtransmit/misc.cpp:259-268 | after a break the main thread reaches the final loop in at most four steps of its own |
| StreamLoop.RoomConnects | xtransmit/misc.cpp:256-268 | with room and no break it is back at connecting after at most three steps of its own |
| StreamLoop.FullWaits | xtransmit/misc.cpp:256-263 | without room it comes to wait if there is reconnection, and to the final loop if there is none |
| StreamLoop.ExitMakesRoom | xtransmit/misc.cpp:262-263 | from that wait the end of any running pipe brings it back to connecting, where the same id can be connected again |
| StreamLoop.WakeUpClears | xtransmit/misc.cpp:155-165 | after a wake-up only the entries of pipes that have not reported their end are left |
| StreamLoop.StreamsReached | xtransmit/misc.cpp:216-257 | every number of running pipes up to the configured streams and the maximum is reached |
| StreamLoop.MaximumReached | xtransmit/misc.cpp:216-257 | every number of connections up to the maximum is reached, and any number without one |
| Connections.OrphanForever | xtransmit/misc.cpp:134-139 | a pipe that ended before its entry was made stays in the table for good, and the final loop never ends |
| Connections.OrphanArises | xtransmit/misc.cpp:122-139 | such a pipe does arise, for any id |
| Connections.OrphanExactly | xtransmit/misc.cpp:122-139 | in any run a pipe is orphaned if and only if its end comes between its start and the main thread's next step |
| Connections.DrainPossible | xtransmit/misc.cpp:270-273 | from the head of the final loop its end can be reached if and only if there is no such pipe |
| Connections.DrainPossibleAfter | xtransmit/misc.cpp:270-273 | the same told from the schedule: a run at the final loop can be continued to the end if and only if no pipe ended between its start and the main thread's next step |
| Connections.Stalled | xtransmit/misc.cpp:253-268 | with as many orphaned pipes as streams, a main thread that waits for room makes no further connection in any run without a break, though no pipe is running |
| Connections.StallArises | xtransmit/misc.cpp:253-264 | with a single stream and reconnection such a wait does arise, for any id |
| Waking.IsRun | xtransmit/misc.cpp:155-165 | the runs in which a wait ends only by a notification are among those where a wake-up can come at any time, so every property of those holds here |
| Waking.WakePossible | xtransmit/misc.cpp:127-165 | a wait that has begun can end if and only if a pipe is still running |
| Waking.NoExitNoWake | xtransmit/misc.cpp:155-159 | as long as no pipe reports its end a waiting main thread does not move, even when the break flag is raised |
| Waking.LostWakeupArises | xtransmit/misc.cpp:270-273 | with a single connection the last pipe can end between the size being read and the wait; the final loop then never ends although no pipe is running or orphaned |
| Scheduler.TaskScheduler.AddTask | xtransmit/scheduler.hpp:107-112 | enters the task at a position with nothing due later before it and, in a sorted queue, only tasks due later behind it; everything else stays |
| Scheduler.TaskScheduler.ManageTasks | xtransmit/scheduler.hpp:114-131 | executes the tasks that are due in order and removes exactly them |
| Scheduler.PassKeeps | xtransmit/scheduler.hpp:118-129 | after a pass no task that is due is left, and every invariant of the queue and the log is kept |
| Scheduler.RunKeeps | xtransmit/scheduler.hpp:86-131 | in every run added tasks are exactly the executed and the pending ones, each once |
| Scheduler.RunOrdered | xtransmit/scheduler.hpp:114-131 | no task is executed twice or before its time, and of two pending together the earlier, or the one added earlier, runs first |
| Scheduler.EveryTask | xtransmit/scheduler.hpp:86-131 | a task is pending if and only if no pass since its addition has reached its time, and executed at the first pass that does |

## Left out

- Sockets, epoll, routing, forwarding, statistics files, command line and progress output: input and output over other libraries, or presentation; the memory views of `buffer.hpp`, which have no logic of their own. A socket is a list of answers, each a return value or an exception, and a list of messages.
- FileSend.SendFile: for a header that fills the whole segment only the runs that a break ends are modelled, as the others do not end, and `FileSend.SendFiles` excludes such names by precondition; a longer header is outside what the program handles. Division by the elapsed time is not modelled.
- FileReceive.ReceiveFiles: a first segment without a terminated name, or a message longer than the buffer, is excluded by precondition; the program does not check either. The end of the message list stands for the raised break flag. Write errors on the output file are not modelled.
- Disk.Resolve: both `/` and `\` separate components, as in the folder scan; `..` is an ordinary name, and there are no links. Path comparison in `Mirror.RelativePath` is by bytes.
- Reorder.ReorderMetric.SubmitSample: does not model the wrap-around at the largest 64-bit sequence number, which the precondition excludes.
- Metrics.EndToEnd: packets with a counter of 2^31 or more are excluded, because they carry a wrong number (`Payload.SeqnoDecodes`).
- Payload.GeneratedDecodes: the checksum is an arbitrary function to 16 bytes; that damage goes unnoticed by a collision is neither excluded nor modelled. Lengths beyond a 32-bit int are not narrowed.
- Latency, DelayFactor: overflow of 64-bit microsecond counts is not modelled; before two samples the delay factor is not meaningful.
- Jitter: the double is a real number; rounding is not modelled.
- Pacer: the narrowing of `long` on platforms where it has 32 bits; `csv_pacer`.
- Pacer.SendPaced: does not model the configured duration, which ends the loop behind a wait, and exceptions of the socket, which end it behind a write; both only make the run shorter. The number of messages is the length of the list of work.
- Connections: the stream loop is given as atomic steps because the pipe threads run beside it; access to the table without the lock is taken to be atomic, a wake-up can come at any time (only by a notification in `Waking`), and only safety and reachability are stated. Sleeping between reconnections and creating sockets are inputs.
- Scheduler: a task that throws, or that adds a task and so locks twice; stopping; when the timer thread wakes up.
- Payload.Generator.GeneratePayload: payloads shorter than the 56 bytes of the fields are excluded by precondition; the program writes the fields without looking at the length. `Metrics` likewise starts from payloads that hold the fields.
