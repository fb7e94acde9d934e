# Trace-output bookkeeping of lttng-tools, modelled in Dafny

This project models four sequential pieces of lttng-tools' bookkeeping and proves properties about them. Each piece turns system answers into decisions and counters:

- **The CTF packet-index file** (`src/common/index/index.c`):
  - the 16-byte big-endian header written on create and validated on open;
  - the path an index file is opened at;
  - whole-record reads and writes;
  - the reference count of an open index file.
- **The kernel consumer's per-stream accounting** (`src/common/kernel-consumer/kernel-consumer.c`):
  - packet-index values, with `-1ULL` standing in for values an older lttng-modules does not provide;
  - lost-packet accounting from packet sequence numbers;
  - discarded-event accounting, including a single wrap-around;
  - metadata-version change detection;
  - the read path's padding and expected-write-length rule;
  - the data-pending test;
  - the channel snapshot, which walks each stream's consumed position up to its produced position one sub-buffer at a time, comparing `unsigned long` positions through a signed cast.
- **The relay daemon's health endpoint** (`src/bin/lttng-relayd/health-relayd.c`):
  - the quit-pipe test;
  - the zero-length send guard;
  - run-directory creation and permissions;
  - the precedence rules for the health socket path;
  - the reply whose bit `i` reports subsystem `i` in error.
- **Two declarations of the session daemon**:
  - the command completion handler (`src/bin/lttng-sessiond/cmd.h`): it runs before the reply, and a failing handler's code replaces the reply;
  - the consumer output record (`src/bin/lttng-sessiond/consumer.h`): a local path or a control/data URI pair, with its invariants.

Files, one module each:

| file | module | contents |
|---|---|---|
| `fixed_width.dfy` | `FixedWidth` | `uint8/32/64`, `unsigned long` of 32 or 64 bits, wrap-around, `(long)` and `ssize_t`→`size_t` conversions, modular arithmetic facts |
| `decimal.dfy` | `Decimal` | `%d` / `%PRIu64` rendering and its inverse |
| `big_endian.dfy` | `BigEndian` | `htobe32` / `be32toh` on four bytes |
| `index_file.dfy` | `IndexFile` | index header codec, open/create/read/write, path, refcount |
| `stream_stats.dfy` | `StreamStats` | index values, stream statistics, metadata version, sub-buffer read, data pending |
| `snapshot.dfy` | `Snapshot` | the snapshot position walk, per-stream and per-channel snapshot |
| `health_relayd.dfy` | `HealthRelayd` | the relay daemon's health endpoint |
| `completion_handler.dfy` | `CommandCompletion` | the completion-handler reply rule |
| `consumer_output.dfy` | `ConsumerOutput` | the consumer output record, its meaning and invariants |

The model's inputs stand for everything it does not compute:
- every kernel query (`kernctl_*`);
- every system call (`open`, `mkdir`, `chown`, `chmod`, `close`, `getuid`, `getpid`);
- every transfer (`lttng_read`, `lttng_write`, the mmap writer, socket receive);
- the environment.

An operation takes these answers as parameters, as a value or a negative errno, and returns what the code does with them. The width of `unsigned long` is a parameter (`LongBits`, 32 or 64).

## Model

| member | source | states |
|---|---|---|
| FixedWidth.SSizeAsSize | src/common/index/index.c:144-145 | comparing an `ssize_t` with a `size_t` first turns a negative value into itself plus 2^bits |
| FixedWidth.SignedLong | src/common/kernel-consumer/kernel-consumer.c:240 | the `(long)` cast of an `unsigned long` is negative exactly when the value is at least 2^(bits-1) |
| BigEndian.Encode32 | src/common/index/index.c:91-94 | the four `htobe32` bytes of a field are exactly 4 and decode back to the field |
| BigEndian.Encode32Decode32 | src/common/index/index.c:243-245 | every four bytes read from disk are the encoding of the value `be32toh` gives |
| IndexFile.CreatedHeader | src/common/index/index.c:91-94 | the header written on create is 16 bytes and carries `CTF_INDEX_MAGIC`, `major`, `minor` and the element length |
| IndexFile.DecodeEncodeHeader | src/common/index/index.c:91-94 | decoding the bytes of an encoded header gives back all four fields |
| IndexFile.EncodeDecodeHeader | src/common/index/index.c:233-245 | every 16 bytes read as a header re-encode to the same bytes, so decoding loses nothing |
| IndexFile.CheckHeader | src/common/index/index.c:239-254 | a header is accepted iff magic and major match and the element length fits a packet index; otherwise the first failing check is reported, in the code's order |
| IndexFile.IndexPathShape | src/common/index/index.c:213-220 | with `tracefile_count > 0` the path is `<path>/index/<name>_<current>.idx`, otherwise `<path>/index/<name>.idx`, which does not depend on the current tracefile number |
| IndexFile.IndexPathDistinguishesTracefiles | src/common/index/index.c:213-216 | with rotation, two different tracefile numbers never name the same index file |
| IndexFile.Open | src/common/index/index.c:193-277 | with the intended short-read test (Findings row 3), a handle is returned iff the file opened, a whole header was read and it passes validation; the handle then holds one reference and the header's version and length; otherwise the error is that of the first failing step (open, read error, short header, then the header check's own verdict), and the descriptor is closed exactly when the open itself succeeded |
| IndexFile.AcceptHeader | src/common/index/index.c:239-262 | a header in memory yields a handle with one reference iff it passes validation, and otherwise yields the validation error with the descriptor closed |
| IndexFile.OpenAsWritten | src/common/index/index.c:233-237 | as written, a short header read is validated with the missing bytes taken from whatever the stack buffer held |
| IndexFile.OpenAsWrittenAcceptsEmptyFile | src/common/index/index.c:233-245 | as written, an empty index file can open successfully; the corrected open rejects it as a short header |
| IndexFile.CreatedHeaderOpens | src/common/index/index.c:239-259 | a header written for the current major version, with a length that fits, reopens with the same major, minor and length and one reference |
| IndexFile.OpenIgnoresMinor | src/common/index/index.c:243-250 | open accepts a created header iff its major version is current, whatever its minor version |
| IndexFile.FailedWriteLooksComplete | src/common/index/index.c:144-145 | as written, a failed `lttng_write` (-1) passes the completeness test on both word sizes; the intended test rejects it |
| IndexFile.FullTransferExact | src/common/index/index.c:173-181 | for a genuine transfer result, the intended test holds exactly when the whole record was transferred |
| IndexFile.Write | src/common/index/index.c:127-153 | with the intended completeness test (Findings row 1), writing a record returns 0 iff the descriptor is valid and exactly `element_len` bytes were written, and -1 otherwise |
| IndexFile.WriteAsWritten | src/common/index/index.c:144-148 | as written, a write that failed with -1 on a valid descriptor returns success |
| IndexFile.Read | src/common/index/index.c:160-186 | a record is delivered iff the descriptor is valid and `element_len` bytes were read, and it is those bytes |
| IndexFile.ReadCode | src/common/index/index.c:182-185 | the read's return code is 0 exactly on delivery and -1 otherwise |
| IndexFile.ReadBackWritten | src/common/index/index.c:127-186 | after a header and whole records were written, each `write` returning 0, reading record k right after the header gives that record back unchanged, and reading past the last record delivers nothing |
| IndexFile.Create | src/common/index/index.c:38-120 | with the intended header-write test, create succeeds iff the directory exists or was made, any old file is gone, the file was created and the whole header was written; the new file then holds one reference and its first 16 bytes decode to the requested header; a created descriptor is closed on failure |
| IndexFile.CreateAsWritten | src/common/index/index.c:96-100 | as written, a header write that failed with -1 passes `size_ret < sizeof(hdr)`, and a file that holds no header is handed out with one reference |
| IndexFile.FailedHeaderWriteCreates | src/common/index/index.c:96-100 | as written, a -1 header write creates the index file; the intended create fails and closes the descriptor, and open rejects the empty file as a short header |
| IndexFile.CreateThenOpen | src/common/index/index.c:91-104 | an index file created for the current version reopens with that version, element length and one reference |
| IndexFile.Get | src/common/index/index.c:279-282 | `get` adds one reference to a live file |
| IndexFile.Put | src/common/index/index.c:284-298 | `put` removes one reference, and the file's own descriptor is closed exactly when the count reaches zero |
| IndexFile.Run | src/common/index/index.c:279-298 | after any sequence of `get`/`put`, a live file still holds at least one reference |
| IndexFile.RunKeepsLive | src/common/index/index.c:279-298 | while no prefix drops the count to zero, the file stays open with the initial count plus gets minus puts |
| IndexFile.ReleaseAtZero | src/common/index/index.c:284-298 | the `put` that takes the count from one to zero closes the file's descriptor and frees it |
| StreamStats.GetIndexValues | src/common/kernel-consumer/kernel-consumer.c:1288-1360 | index values are produced iff the six mandatory queries succeed and instance id and sequence number either succeed or answer `-ENOTTY`, which becomes `-1ULL`; every field is the kernel's value; otherwise the error returned is that of the first failing query in the code's order |
| StreamStats.OlderModulesIndex | src/common/kernel-consumer/kernel-consumer.c:1334-1357 | an lttng-modules that answers `-ENOTTY` for the instance id and the sequence number yields the same index, with exactly those two fields `-1ULL` |
| StreamStats.DiscardedDelta | src/common/kernel-consumer/kernel-consumer.c:1441-1451 | the discarded-event increment is `new - last` when the counter did not go backwards, and `2^(BITS_PER_LONG-1) - last + new` modulo 2^64 when it did |
| StreamStats.UpdateStreamStats | src/common/kernel-consumer/kernel-consumer.c:1400-1457 | the first sample only records the sequence number; a larger one adds `seq - last - 1` lost packets; a non-increasing one returns -1 and changes nothing; a failed query changes nothing further and returns the error; otherwise the discarded increment is added and `last_discarded_events` becomes the new value |
| StreamStats.ReplayTotals | src/common/kernel-consumer/kernel-consumer.c:1421-1452 | over a whole run from the sentinel with increasing sequence numbers `s0 < … < sn`, the channel loses exactly `sn - s0 - n` packets, and with a counter that never goes backwards it accumulates exactly the events discarded since the start |
| StreamStats.FirstSample | src/common/kernel-consumer/kernel-consumer.c:1421-1422 | a first sample after the `-1ULL` sentinel records the sequence number and leaves `lost_packets` unchanged |
| StreamStats.NextSample | src/common/kernel-consumer/kernel-consumer.c:1423-1425 | a larger sequence number adds exactly `seq - last - 1` lost packets, none for consecutive packets |
| StreamStats.UnimplementedSequenceNeverLoses | src/common/kernel-consumer/kernel-consumer.c:1405-1422 | without kernel sequence numbers (`-ENOTTY`) the sentinel stays and no packet is ever counted lost |
| StreamStats.CheckMetadataVersion | src/common/kernel-consumer/kernel-consumer.c:1465-1496 | a different kernel version replaces the stored one and raises the reset flag; an equal version or `-ENOTTY` changes nothing and returns 0; another failure changes nothing and is returned |
| StreamStats.CheckMetadataVersionIdempotent | src/common/kernel-consumer/kernel-consumer.c:1484-1487 | seeing the same kernel answer twice changes nothing the second time |
| StreamStats.CheckMetadataVersionTracksKernel | src/common/kernel-consumer/kernel-consumer.c:1484-1492 | after a version answer the stored version is the kernel's, and the reset flag is raised iff the version changed or the flag was already raised |
| StreamStats.ReleaseAfterErrorAsWritten | src/common/kernel-consumer/kernel-consumer.c:1542-1557 | as written, a failed size query followed by a successful `put_subbuf` returns 0 |
| StreamStats.ReleaseAfterError | src/common/kernel-consumer/kernel-consumer.c:1563-1575 | the release rule of the index-values exit: the put's error if the put fails, otherwise the original error, so always negative |
| StreamStats.ReleaseAfterErrorLosesFailure | src/common/kernel-consumer/kernel-consumer.c:1545-1556 | with a successful put, the as-written rule reports 0 where the intended rule keeps the error |
| StreamStats.Prepare | src/common/kernel-consumer/kernel-consumer.c:1560-1608 | a data stream fails iff its index values or its statistics' update fail, a metadata stream iff its version check fails; a failure puts the sub-buffer back and reports the step's error (or the put's); failed index values leave stream and channel alone, the statistics' update is kept even when it fails, and a metadata stream's channel is never touched; a prepared data stream carries the kernel's index values, a metadata stream none |
| StreamStats.ReadSubbuffer | src/common/kernel-consumer/kernel-consumer.c:1501-1703 | with the intended release rule (Findings row 4), a failed reservation changes nothing; a failed padded-size or payload-size query puts the sub-buffer back and returns the query's error (or the put's); a failed preparation returns its error and state; the writer is called iff every step before it succeeded, mmap output handing it `subbuf_size` and `padded_len - subbuf_size`, splice `padded_len` and no padding; the result is the put's error or the bytes written; a metadata stream never writes an index; the index is written iff every query succeeded, the writer reported `subbuf_size` (streaming) or `padded_len` (local) for mmap or `padded_len` for splice, and the sub-buffer was released |
| StreamStats.DataReadUpdatesStats | src/common/kernel-consumer/kernel-consumer.c:1560-1664 | a data sub-buffer reaches the writer only after a successful statistics update, with the stream and channel that update left, and the writer gets the whole padded sub-buffer |
| StreamStats.MetadataReadChecksVersion | src/common/kernel-consumer/kernel-consumer.c:1591-1664 | a metadata sub-buffer reaches the writer only after a tolerated version check, with the stream that check left and the channel untouched, and the writer gets the whole padded sub-buffer |
| StreamStats.DataPending | src/common/kernel-consumer/kernel-consumer.c:1837-1862 | data is pending (1) iff the endpoint is active and another sub-buffer can be reserved, and 0 otherwise |
| StreamStats.DataPendingMeansReadable | src/common/kernel-consumer/kernel-consumer.c:1837-1862 | with the intended release rule (Findings row 4), on an active stream, data is pending exactly when a sub-buffer read would get past the reservation instead of returning its answer untouched |
| Snapshot.PendingIsSignedComparison | src/common/kernel-consumer/kernel-consumer.c:240 | the walk's loop condition is the `(long)(consumed - produced) < 0` comparison |
| Snapshot.Backlog | src/common/kernel-consumer/kernel-consumer.c:240 | the distance `consumed` lags behind `produced` is positive iff the loop condition holds, and is at most 2^(bits-1) |
| Snapshot.PendingTracksRemaining | src/common/kernel-consumer/kernel-consumer.c:240-296 | after advancing any number of bytes less than a wrap-around, the loop condition holds iff part of the initial backlog is left |
| Snapshot.Inc64 | src/common/kernel-consumer/kernel-consumer.c:256 | `lost_packets++` on the `uint64_t` counter adds one modulo 2^64 |
| Snapshot.AddLostWraps | src/common/kernel-consumer/kernel-consumer.c:256 | n increments of the lost counter add n modulo 2^64 |
| Snapshot.AddLostAdd | src/common/kernel-consumer/kernel-consumer.c:256 | x increments followed by y increments are x + y increments |
| Snapshot.VisitAt | src/common/kernel-consumer/kernel-consumer.c:248-295 | with the intended release rule (Findings row 4), one iteration stops (negative) iff `get_subbuf` fails other than with `-EAGAIN`, or a size query or the put fails; otherwise it skips on `-EAGAIN` or copies with the kernel's sizes, noting whether the writer reported the expected length |
| Snapshot.WalkStep | src/common/kernel-consumer/kernel-consumer.c:248-296 | every iteration, copied or skipped, advances the consumed position by exactly `max_sb_size`, and a skip adds exactly one lost packet |
| Snapshot.WalkFrom | src/common/kernel-consumer/kernel-consumer.c:240-297 | with the intended release rule (Findings row 4), the loop terminates for `max_sb_size > 0`; it ends with 0 only once `consumed` is no longer behind `produced`, and with a negative result only at a position still behind `produced` whose kernel answers stop the iteration with exactly that result; the walk's position and lost-count invariants are kept |
| Snapshot.Walk | src/common/kernel-consumer/kernel-consumer.c:236-297 | with the intended release rule (Findings row 4), the k-th iteration visits `start + k*max_sb_size` (wrapped) and did what the kernel answered there; the lost count is incremented once per skip; the position is `start` plus the bytes covered; on success the loop condition fails there, and on failure it still holds and the kernel's answers there stop the iteration with the returned result |
| Snapshot.WalkIgnoresLost | src/common/kernel-consumer/kernel-consumer.c:240-297 | the lost count a walk starts from does not change where it stops, its result, or its iterations |
| Snapshot.WalkIterations | src/common/kernel-consumer/kernel-consumer.c:240-297 | with the intended release rule (Findings row 4), a successful walk takes exactly ceil(backlog / `max_sb_size`) iterations, none when nothing is pending |
| Snapshot.FlushStepAsWritten | src/common/kernel-consumer/kernel-consumer.c:192-207 | as written, a failed `flush_empty` always ends the channel snapshot, with the fallback flush's result |
| Snapshot.FlushStep | src/common/kernel-consumer/kernel-consumer.c:192-205 | the stream's snapshot goes on iff either flush succeeded, and otherwise ends with the flush's error |
| Snapshot.FallbackFlushEndsSnapshot | src/common/kernel-consumer/kernel-consumer.c:201-206 | without `flush_empty` and with a successful fallback flush, the as-written code ends the snapshot with 0; the corrected rule proceeds |
| Snapshot.PrepareStream | src/common/kernel-consumer/kernel-consumer.c:168-232 | with the intended flush fallback (Findings row 5), the steps before the walk (open the output, flush, snapshot, both positions, the sub-buffer size when unknown) give 0 iff all succeed, and otherwise the negative result of the first that fails |
| Snapshot.SnapshotStream | src/common/kernel-consumer/kernel-consumer.c:153-312 | with the intended flush fallback and release rule (Findings rows 4 and 5), a stream's snapshot fails (negative) iff a step before the walk fails, the walk stops on a kernel error (whose result is returned), or the local output cannot be closed, and then returns that step's own result (`close`'s for the output); a recorded stream opened its output, flushed, took the snapshot and both positions, and was walked from the start position with a positive `max_sb_size` (the known one if any) to where the loop condition fails, each iteration faithful to the kernel; its iterations are those of the walk, none before it; the lost count is incremented once per skip |
| Snapshot.SnapshotChannel | src/common/kernel-consumer/kernel-consumer.c:132-329 | with the intended flush fallback and release rule (Findings rows 4 and 5), a non-mmap channel returns -1 and records nothing; otherwise streams are recorded in order, each with exactly its own snapshot's iterations, and the first stream not recorded is one whose snapshot fails, whose result is returned; 0 is returned iff every stream was recorded, and then the channel's lost counter was incremented once per skipped sub-buffer of every stream |
| Snapshot.RecordNext | src/common/kernel-consumer/kernel-consumer.c:153-312 | with the intended flush fallback and release rule (Findings rows 4 and 5), one stream of the channel loop: on success it extends the recorded streams and the lost count by that stream's walk, and on failure that stream's snapshot fails |
| Snapshot.AllRecordedAt | src/common/kernel-consumer/kernel-consumer.c:153-312 | with the intended flush fallback and release rule (Findings rows 4 and 5), every stream before the recorded count was snapshotted successfully, with the iterations its walk performs |
| HealthRelayd.CheckHealthQuitPipe | src/bin/lttng-relayd/health-relayd.c:66-72 | the quit test is 1 iff the descriptor is the quit pipe's and the readable bit (bit 0) is among the events, and 0 otherwise |
| HealthRelayd.QuitPipeIgnoresOtherEvents | src/bin/lttng-relayd/health-relayd.c:68 | event bits other than `LPOLLIN` never change the quit test |
| HealthRelayd.SendUnixSock | src/bin/lttng-relayd/health-relayd.c:80-87 | a zero-length send returns -1 without transmitting; any other send transmits and returns the transfer's result |
| HealthRelayd.HealthReplyPassesGuard | src/bin/lttng-relayd/health-relayd.c:80-87 | the 8-byte health reply always passes the zero-length guard and is handed to the transfer |
| HealthRelayd.CreateRundirWithPerm | src/bin/lttng-relayd/health-relayd.c:89-137 | `EEXIST` is success and touches nothing; another `mkdir` error is -1; a newly created directory is chowned and chmodded only when root, and the result is 0 iff those calls succeed |
| HealthRelayd.RootRundirPerms | src/bin/lttng-relayd/health-relayd.c:105-131 | a directory root creates ends owned by uid 0 and the tracing group (gid 0 when the lookup fails) with mode 0755 |
| HealthRelayd.ExistingRundirUntouched | src/bin/lttng-relayd/health-relayd.c:96-104 | when `mkdir` fails, the directory's owner, group and mode are left as they were |
| HealthRelayd.Truncate | src/bin/lttng-relayd/health-relayd.c:144-147 | the path buffer keeps a prefix of at most `PATH_MAX - 1` characters, and a string that fits is kept whole |
| HealthRelayd.ParseHealthEnv | src/bin/lttng-relayd/health-relayd.c:139-150 | a set environment variable becomes the path, truncated to `PATH_MAX - 1` characters; an unset one leaves the path empty |
| HealthRelayd.SetupHealthPath | src/bin/lttng-relayd/health-relayd.c:152-232 | non-root without a home directory returns `-EPERM` before any directory is made; otherwise the run directory and then its relay sub-directory are created, the second only if the first succeeded, and the result is 0 iff both succeed; a non-empty override is kept, otherwise the root or home default with the pid is chosen, truncated; on failure the path is the override, or empty |
| HealthRelayd.DefaultSockPerProcess | src/bin/lttng-relayd/health-relayd.c:210-226 | without an override the default socket lies in the created relay directory, and daemons with different pids get different sockets when the paths fit |
| HealthRelayd.EnvOverrideWins | src/bin/lttng-relayd/health-relayd.c:210-221 | a non-empty override is the path whatever the uid and pid |
| HealthRelayd.BitOfSetBit | src/bin/lttng-relayd/health-relayd.c:400 | `ret_code \|= 1ULL << i` sets bit i and no other bit |
| HealthRelayd.ReplyMask | src/bin/lttng-relayd/health-relayd.c:394-403 | bit i of the reply is set iff i is a subsystem number and `health_check_state` reports subsystem i in error; every other bit is clear |
| HealthRelayd.MaskOfBits | src/bin/lttng-relayd/health-relayd.c:394-403 | the subsystem-by-subsystem definition of the reply has exactly those bits |
| HealthRelayd.HandleClient | src/bin/lttng-relayd/health-relayd.c:379-417 | a client from which nothing is received is closed with no reply and nothing sent; any other client is sent the reply mask, the send's result is the transfer's, and the client is closed |
| CommandCompletion.Complete | src/bin/lttng-sessiond/cmd.h:26-38 | the trace ends with a reply; a queued handler runs first, and no reply precedes it |
| CommandCompletion.OneReply | src/bin/lttng-sessiond/cmd.h:30-32 | exactly one reply reaches the client, with or without a handler |
| CommandCompletion.SuccessfulHandlerKeepsReply | src/bin/lttng-sessiond/cmd.h:30-31 | a handler that succeeds leaves the command's own reply |
| CommandCompletion.FailedHandlerOverridesReply | src/bin/lttng-sessiond/cmd.h:31-32 | a failing handler's code is the reply, even when the command succeeded |
| CommandCompletion.ReplyOkIffAllSucceeded | src/bin/lttng-sessiond/cmd.h:29-32 | the client is told `LTTNG_OK` iff the command and its handler, if any, both succeeded |
| ConsumerOutput.Dest | src/bin/lttng-sessiond/consumer.h:85-99 | an output denotes a local path iff its type is local, and a net output's URIs are present exactly when their flags are set |
| ConsumerOutput.ValidIffDestinationValid | src/bin/lttng-sessiond/consumer.h:57-99 | a record satisfies its invariants iff its sub-directory fits and the destination it denotes is valid |
| ConsumerOutput.UnselectedMemberIgnored | src/bin/lttng-sessiond/consumer.h:96-99 | records that differ only in the union member `type` does not select have the same meaning and validity |
| ConsumerOutput.UnsetUriIgnored | src/bin/lttng-sessiond/consumer.h:58-63 | a URI whose flag is clear affects neither meaning nor validity |
| ConsumerOutput.SetUrisShareAddress | src/bin/lttng-sessiond/consumer.h:65-68 | in a valid net output, two set URIs are valid and share their destination address |

## Left out

- Kernel queries, system calls, transfers, the environment, uid and pid are inputs, as described above. The model does not compute them.
- `consumer_get_consume_start_pos`: its code is not part of this model. Its result is the input `startPos`, so `nb_packets_per_stream` plays no part.
- `ctf_packet_index_len`: its result is the parameter `elementLen`.
- The `DEFAULT_*` path formats of the relay daemon are a `PathDefaults` parameter. Each format is taken as built from the run directory, the relay sub-directory and a socket stem.
- `NR_HEALTH_RELAYD_TYPES` is the length of the health-state sequence, at most 64.
- `CTF_INDEX_MAGIC`, the index version and `sizeof(struct ctf_packet_index)` are constants with the values of the CTF index format.
- Snapshot.SnapshotStream: a `max_sb_size` of 0, or one above 2^(bits-1), is excluded by its precondition. With 0 the C loop never advances and does not terminate, and a larger size could skip past `produced`.
- Snapshot.SnapshotChannel: when a stream fails, the returned lost count is not stated. The per-iteration faithfulness is stated once per stream (`Snapshot.SnapshotStream`); the channel states each recorded stream's iterations through it.
- Relay-stream sending and closing and the local `utils_create_stream_file` are reduced to a result code (`openOutput`, `closeOut`). The bookkeeping of `net_seq_idx`, `out_fd` and `relayd_id` is left out.
- `lttng_kconsumer_read_subbuffer`: stream rotation, the live-mode metadata sync, the result of writing the index entry, and the unreachable default output case are left out.
- `lttng_kconsumer_snapshot_metadata`, `lttng_kconsumer_recv_cmd`, `lttng_kconsumer_on_recv_stream` and `lttng_kconsumer_sync_metadata` are socket and metadata plumbing around the core, and are left out.
- The health thread's socket creation, its permissions, the poll/accept loop with `EINTR` restart, and `assert(msg.cmd == HEALTH_CMD_CHECK)` are left out.
- HealthRelayd.HandleClient: the result of sending the reply is only logged by the code; the model returns it and nothing depends on it.
- StreamStats.DataPending: the `kernctl_put_subbuf` after a successful reservation and its `assert(ret == 0)` (kernel-consumer.c:1851-1852) are left out; the model has no answer for that put, so it returns 1 where a failed put would abort the daemon.
- StreamStats.ReadSubbuffer: `assert(len >= subbuf_size)` (kernel-consumer.c:1658) becomes the precondition that a known payload size is at most the padded size; the abort on a kernel that breaks it is not modelled.
- `setup_health_path`'s allocation failures (`-ENOMEM`) are left out.
- The `zmalloc` failure exits of `lttng_index_file_create` and `lttng_index_file_open` (index.c:49-52 and 207-210) are left out: the model has no allocator, so both operations start from the path.
- The `htobe64` conversion of the packet-index fields (kernel-consumer.c:1297-1357) is left out: `PacketIndex` holds the host values, and the 64-bit byte order is not modelled (only the 32-bit header fields are).
- ConsumerOutput: the `dst` union is modelled as two independent fields; the aliasing of `trace_path` and `net` is not modelled. There is no operation that stores a destination; the model states only what a record means and when it is valid.
- A failed `snprintf` of an index path, and its truncation at `PATH_MAX`, are left out.
- IndexFile.WriteAsWritten: only the case that shows the defect is stated. The corrected `IndexFile.Write` carries the full contract.
- Concurrency is left out: RCU, stream locks, and the atomic reference count. The refcount is modelled as a sequential state machine.
- `struct lttng_uri` is defined outside the session daemon. `ConsumerOutput.Uri` stands in for it with an address and a port, and its validity rule is a stand-in for "complete and valid".
- `struct consumer_data` and the prototypes in `consumer.h` and `cmd.h` (lines 40-146) are left out. Their code is not part of this model.
- The discarded-event wrap-around is modelled as written, adding 2^(BITS_PER_LONG-1). The kernel counter's width is not visible here, so it is not reported as a finding.
- `src/bin/lttng/commands/disable_rotation.c` (command-line parsing and XML output) and the setuid test helper under `tests/destructive/` are outside the core.

## Findings

| source | as written | input that shows it | evidently intended | confidence | as-written member | corrected member |
|---|---|---|---|---|---|---|
| src/common/index/index.c:144-145 | `ret < len` compares an `ssize_t` with a `size_t`, so a failed `lttng_write` (-1) becomes `SIZE_MAX` and passes as a full write | a valid descriptor, `element_len` 72, `lttng_write` returning -1: `lttng_index_file_write` returns 0 | a negative result is a failure (-1) | high; not executed | IndexFile.WriteAsWritten, IndexFile.FailedWriteLooksComplete | IndexFile.Write |
| src/common/index/index.c:96-97 | `size_ret < sizeof(hdr)` compares an `ssize_t` with a `size_t`, so a failed header write (-1) passes and `lttng_index_file_create` returns a file without a header | directory and file created, `lttng_write` of the header returning -1: a handle is returned, and the file is empty | a negative result fails the create and closes the descriptor | high; not executed | IndexFile.CreateAsWritten, IndexFile.FailedHeaderWriteCreates | IndexFile.Create |
| src/common/index/index.c:233-237 | only `read_len < 0` is rejected, so after a short read the rest of `hdr` is uninitialised stack memory that is then validated | an empty index file (`lttng_read` returns 0) while the stack holds a valid header: the file opens | reject `read_len < sizeof(hdr)` | high; not executed | IndexFile.OpenAsWritten, IndexFile.OpenAsWrittenAcceptsEmptyFile | IndexFile.Open |
| src/common/kernel-consumer/kernel-consumer.c:319-323 | after a failed size query, `ret` is overwritten by `kernctl_put_subbuf`'s result; the read path does the same at lines 1545-1556 and 1642-1654 | `kernctl_get_subbuf_size` fails, `kernctl_put_subbuf` returns 0: the snapshot returns 0 | keep the query's error unless the put fails, as the index-values exit at lines 1563-1574 does | medium; not executed | StreamStats.ReleaseAfterErrorAsWritten, StreamStats.ReleaseAfterErrorLosesFailure | StreamStats.ReleaseAfterError, Snapshot.VisitAt, Snapshot.WalkFrom, Snapshot.Walk, Snapshot.SnapshotStream, Snapshot.SnapshotChannel, StreamStats.ReadSubbuffer, StreamStats.DataPendingMeansReadable |
| src/common/kernel-consumer/kernel-consumer.c:192-207 | after `flush_empty` fails and the fallback `kernctl_buffer_flush` succeeds, `goto end_unlock` leaves the channel snapshot with `ret` 0 | lttng-modules without `flush_empty` (`-ENOTTY`) and a fallback flush returning 0: no stream is recorded and 0 is returned | continue the stream's snapshot after a successful fallback flush | high; not executed | Snapshot.FlushStepAsWritten, Snapshot.FallbackFlushEndsSnapshot | Snapshot.FlushStep, Snapshot.PrepareStream, Snapshot.SnapshotStream, Snapshot.SnapshotChannel |
