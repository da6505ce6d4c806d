# Choosh: a Dafny model of its transport, host-file, diff, event and gateway logic

This project models the parts of the Choosh repository that carry its data guarantees, and proves
them for all inputs, all runs and all interleavings of the model. `dafny verify dfyconfig.toml`
checks everything.

- **Documents.** A phone opens a file in chunks and saves it with a compare-and-swap on the content
  revision (`HostFiles.dfy`, `DocumentProtocol.dfy`). The write path is interleaved at the steps lock
  lookup / lock / check / read / compare / write / unlock, for any number of threads and paths. That saves
  and opens get through, with exactly the answers their conditions call for, is in `DocumentProgress.dfy`.
- **Agent events.** The per-workspace spool with its sequencer and two eviction rules, and the client
  that resumes from it (`EventSpool.dfy`).
- **Tunnels.** The frame decoder (`Framing.dfy`), the write splitter and the web writers' backpressure
  (`TunnelWrite.dfy`), and the I/O task that multiplexes control requests and tunnels (`TunnelMux.dfy`, with
  what callers wait for, answers, acknowledgements and ends of streams, in `TunnelLaws.dfy`).
- **Diffs.** The git-format diff parser (`GitDiff.dfy`), a printer and its round trip
  (`DiffPrinter.dfy`), the meaning of parsed hunks as patches (`DiffMeaning.dfy`), and what is refused
  (`DiffLaws.dfy`).
- **Loopback HTTP.** Head parsing and the cookie-stripping rebuild (`HttpHead.dfy`,
  `HttpRoundTrip.dfy`), the web gateway connection (`Gateway.dfy`), who it lets in (`HttpGate.dfy`), the
  asset route's URLs and ranges (`Asset.dfy`), and its statuses, queries and refused paths (`AssetLaws.dfy`).
- **Scanning and listing.** The device-code scanner: the detectors (`AuthDetect.dfy`), where a stream may be
  cut (`AuthCuts.dfy`), whole streams (`AuthRuns.dfy`), what a prompt is (`AuthPrompts.dfy`) and which
  prompts are reported (`AuthReports.dfy`), with the messages of the three tools spelled out
  (`AuthMessages.dfy`); and directory pagination (`Pagination.dfy`).
- `Text.dfy`, `Numbers.dfy`, `Utf8.dfy` and `Wrappers.dfy` hold the slice of Rust's string API these parts call.

Source code that updates state is modelled by classes and loops, each method proved equal to a
function on values; the lemmas then prove what those functions promise over whole runs.

Assumptions that are visible in the statements:

- The revision of a file is `h(content)` for an arbitrary function `h`. Results that need it require
  `Injective(h)`, the usual idealisation of SHA-256.
- Clock readings, read sizes, send failures, arriving frames and the choice a `select!` makes are
  arguments or explicit lists, universally quantified. No statement assumes that clock readings follow
  sequence order.
- In `DocumentProtocol` each ranged read, and each `fs::write`, is one atomic step; other programs may
  change any file between any two steps.
- The operating system refuses a seek to an offset of 2^63 or more (`HostFiles.SEEK_LIMIT`), the least strict
  limit there is. A file system with a smaller one refuses more offsets, all beyond what its files hold.

Where the code and its own comments disagree, the model follows the code:

- `agent_event_spool.rs:15-20` expects a caller that is ahead of a restarted spool to be sent back for
  a snapshot. The code does so exactly while nothing has been recorded for the workspace
  (`EventSpoolRuns.AheadOfLatest`), and answers an empty replay afterwards.
- `http_lite.rs:228-230` says that other headers, a `Cookie` header with no matching pair among them,
  pass through byte-identical. A line that is no cookie header does so exactly when its name is trimmed
  and its value is one space and trimmed text; a cookie line exactly when it is spelled `Cookie` and each
  piece between semicolons is one space and a trimmed name=value pair that is not the gateway's
  (`HttpRoundTrip.LineIsIdentical`). `cookie: a=b` is renamed and `Cookie: a=b;c=d` is spaced out
  (`LowerCaseCookieChanges`, `UnspacedCookieChanges`). What is kept in every case is the parsed head.
- A `Content-Range` answer to a range that starts at or behind the end of the file names a byte that is
  not sent (`AssetRange.ContentRangeNamesTheBody`, `AssetRange.PastTheEndNamesAByte`), and
  `bytes=0-18446744073709551615` is read as a range of length 0 (`AssetRange.RangeHeaderBack`).
- `fs_ops.rs:201-214` serialises writers of one path against each other. A program that takes no such
  lock and changes the file between a writer's read and its write is overwritten, and the save still
  answers ok (`DocumentProtocol.RacedWriteExact`, `DocumentRace.OvertakenSaveLosesAChange`).
- `auth_detect.rs:99-104` and `auth_detect.rs:137-142` expect that it does not matter where a stream is cut
  into reads. It does not matter, whatever comes next, exactly when the cut is outside characters and
  outside escape sequences (`AuthCuts.CleanCutExact`; for the stripping alone `AuthCuts.StripExact`). A cut
  inside an escape leaves the rest of that escape in the buffer, in front of a code if one follows
  (`AuthRuns.CutInsideEscapeShows`). Bytes that are no UTF-8 at all do no harm.
- `auth_detect.rs:114-115` says that a new login with a different code is still reported. A complete prompt is
  reported exactly when no prompt of an earlier kind is in the buffer and its provider or code differs from
  the last report (`AuthReports.ReportExact`): an AWS login that follows a GitHub prompt is not
  (`AuthReports.SecondLoginIsNotReported`, `AuthReports.OneSecondLogin`).

## Model

| member | source | states |
|---|---|---|
| HostFiles.HashWholeFile | rust/choosh-hostd/src/fs_ops.rs:331-342 | Whatever sizes the reads come in, the streamed hash is the revision of the whole content and the cursor ends at the end of the file |
| HostFiles.Host.ReadFileRange | rust/choosh-hostd/src/fs_ops.rs:159-189 | A ranged read returns the capped slice, the true size and the whole file's revision, or the right error (a seek to 2^63 or beyond is an I/O error); it changes nothing |
| HostFiles.RangeReadExact | rust/choosh-hostd/src/fs_ops.rs:159-189 | A ranged read fails exactly for a missing file, a directory, a length above the bound and an offset of 2^63 or more; otherwise it is the bytes from the offset on, as many as were asked for or are left, with the size and revision of the whole file; without a range it is the front of the file |
| HostFiles.Host.WriteFile | rust/choosh-hostd/src/fs_ops.rs:240-268 | The body under the lock is one atomic compare-and-swap: error and stale answers leave all files alone, a written answer changes exactly this file |
| DocumentReader.AbsorbKeepsSnapshot | rust/choosh-android-bridge/src/engine.rs:1090-1114 | One reply either completes the document, extends it by a full chunk of the same file state, or fails; bytes of two states are never joined |
| DocumentReader.ReadWholeFile | rust/choosh-android-bridge/src/engine.rs:1066-1119 | With arbitrary changes between requests, a returned document is one real file state, with its revision and length; the loop needs max(1, ceil(size / bound)) requests; it fails only for a fault, a missing file or a change, and a failure is a transport error iff the last reply was lost, an application error iff the host rejected it (with the host's error), and otherwise the revision had changed |
| DocumentProtocol.WritesAreLinearizable | rust/choosh-hostd/src/fs_ops.rs:224-292 | In every interleaving of writers, opens and other programs the files are those of a sequential run of compare-and-swaps, each call appears in it at most once, and each answer is what the call got there; the one exception is a write whose file another program changed between its read and its write, and it too replaces exactly its own file |
| DocumentProtocol.RealTimeOrder | rust/choosh-hostd/src/fs_ops.rs:237-269 | That sequential run only grows at its end, so a call that begins later is ordered after everything already decided |
| DocumentProtocol.NoLostUpdate | rust/choosh-android-bridge/src/engine.rs:508-544 | A save based on any content the client was ever told of, also when answers in between were lost: it writes only if the file holds exactly the bytes it is based on, and then does write unless a check or the disk refuses; a file with another content makes it stale, a stale answer carries the true content, and every answer other than ok leaves the file alone; raced writes excepted |
| DocumentProgress.SwapIs | rust/choosh-hostd/src/fs_ops.rs:240-268 | The compare-and-swap behind the lock, spelled out: which of not-found, not-a-file, bound, binary, stale and written it answers under which conditions, each iff, and what the files are then |
| DocumentProgress.UndisturbedAnswerIsExact | rust/choosh-hostd/src/fs_ops.rs:236-268 | In every run of any writers, each answer to a call on a file that no other program has touched, unless an injected I/O error made it, is exactly the one its conditions call for in the files of that moment; never an I/O error |
| DocumentProgress.QuietRunIsExact | rust/choosh-hostd/src/fs_ops.rs:236-268 | So a run without I/O errors and other programs is, answer by answer, a sequential run of those compare-and-swaps |
| DocumentProgress.SaveAlone | rust/choosh-android-bridge/src/engine.rs:508-544 | Progress: from any reachable state in which no other save of the file is under way, a save based on the content that is there runs to the answer ok with the new revision, and the file holds its bytes |
| DocumentProgress.OpenAlone | rust/choosh-android-bridge/src/engine.rs:465-487 | Progress: from any reachable state an open of a file that is left alone brings back the whole document, however many requests it takes |
| DocumentProgress.LoneSaveSucceeds | rust/choosh-android-bridge/src/engine.rs:465-544 | Open and save together: a client left alone opens any document up to the seek limit and saves any NUL-free bytes within the bound over it |
| DocumentProtocol.HeldBasesAreUsable | rust/choosh-android-bridge/src/engine.rs:508-544 | In every run, whatever an open, a save or a stale answer ever gave a client remains something it can base a save on |
| DocumentProtocol.RacedWriteExact | rust/choosh-hostd/src/fs_ops.rs:259-268 | What a save that answers ok overwrites: the content it is based on, unless another program changed the file between its read and its write, and then what the last such program left; content is lost iff that differs |
| DocumentRace.OvertakenSaveLosesAChange | rust/choosh-hostd/src/fs_ops.rs:259-268 | The concrete run in which that loss happens |
| DocumentProtocol.OpenReturnsASnapshot | rust/choosh-android-bridge/src/engine.rs:465-487 | In every run an opened document is the complete content of one file state of that run, with its revision and length |
| DocumentProtocol.MutualExclusion | rust/choosh-hostd/src/fs_ops.rs:287-292 | Two writers past their locks work on different paths |
| DocumentProtocol.NoDeadlock | rust/choosh-hostd/src/fs_ops.rs:237-238 | A write in progress can step, or it waits for a lock whose holder can step |
| EventSpool.WorkspaceSpool.EvictExpired | rust/choosh-hostd/src/agent_event_spool.rs:88-99 | The two pop loops compute the eviction whose effect `EvictionExact` characterises |
| EventSpool.WorkspaceSpool.Push | rust/choosh-hostd/src/agent_event_spool.rs:180-184 | The next number is given out, the event appended under it, then eviction runs |
| EventSpool.AgentEventSpool.RecordEvent | rust/choosh-hostd/src/agent_event_spool.rs:175-185 | Recording changes only the event's own workspace, creating it when new; events without a workspace get no number |
| EventSpool.AgentEventSpool.ResumeAfter | rust/choosh-hostd/src/agent_event_spool.rs:198-259 | Resuming evicts in the asked workspace only, and gives the answer that `ResumeExact` and `ResumeWithoutAck` characterise |
| EventSpoolRuns.EvictionExact | rust/choosh-hostd/src/agent_event_spool.rs:88-99 | Exactly which events one eviction drops: an all-expired prefix and what exceeds the count bound; the rest stays in order |
| EventSpoolRuns.RetainedIsContiguous | rust/choosh-hostd/src/agent_event_spool.rs:68-99 | After any calls with any clock readings, a workspace is known iff something was recorded for it, and it retains one contiguous interval of the log ending at the latest, within the count bound |
| EventSpoolRuns.RetainedExact | rust/choosh-hostd/src/agent_event_spool.rs:88-99 | After one more call for its workspace, log entry n is retained iff it was retained before or has just been recorded, fewer than the bound are newer, and not all entries from the oldest retained one up to it are older than the retention, with the age spelled out as clock reading minus recording time |
| EventSpoolRuns.NewestAreRetained | rust/choosh-hostd/src/agent_event_spool.rs:88-99 | While no clock reading exceeds a recording time by more than the retention, exactly the newest min(recorded, bound) events are retained |
| EventSpoolRuns.NewestAreReplayed | rust/choosh-hostd/src/agent_event_spool.rs:198-236 | And a resume without an ack replays exactly those |
| EventSpoolRuns.RecordNumbers | rust/choosh-hostd/src/agent_event_spool.rs:175-185 | Recorded events are numbered 1, 2, 3, ... per workspace |
| EventSpoolRuns.ResumeExact | rust/choosh-hostd/src/agent_event_spool.rs:198-259 | For a positive ack a snapshot is demanded iff the workspace is unknown or event ack+1 was recorded and has been evicted; otherwise the answer is exactly ack+1..latest in order |
| EventSpoolRuns.ResumeWithoutAck | rust/choosh-hostd/src/agent_event_spool.rs:206-236 | Without an ack (or with 0) the answer is always a replay of the newest part of the log |
| EventSpoolRuns.WorkspacesAreIsolated | rust/choosh-hostd/src/agent_event_spool.rs:175-221 | A workspace's spool depends only on the calls that name that workspace |
| EventSpoolRuns.ResumeKeepsComplete | rust/choosh-android-bridge/src/engine.rs:953-971 | One resume keeps the client complete; a replay leaves it level with the latest event; after a snapshot demand the next resume is a replay |
| EventSpoolRuns.ClientIsComplete | rust/choosh-hostd/src/agent_event_spool.rs:198-259 | In every run, with any recordings and evictions between its resumes, the client holds exactly the consecutive recorded events from its baseline to its ack |
| EventSpoolRuns.AheadOfLatest | rust/choosh-hostd/src/agent_event_spool.rs:208-244 | A caller ahead of the latest event is sent back for a snapshot iff nothing has been recorded for the workspace |
| EventSpoolRuns.AheadOfRestartedSpoolIsReplayed | rust/choosh-hostd/src/agent_event_spool.rs:15-20 | The concrete run in which the header comment's expectation fails |
| Framing.FrameDecoder.Feed | rust/choosh-protocol/src/framing.rs:105-155 | The copying loop returns exactly the frames of the buffered and new bytes, keeps the incomplete rest, and fails for good on a bad length or an overfull batch |
| Framing.ParseConcat | rust/choosh-protocol/src/framing.rs:105-155 | The meaning of a stream is that of its first part continued on the bytes left over |
| Framing.AnyFragmentation | rust/choosh-protocol/src/framing.rs:105-155 | Fed in any pieces, a stream gives its frames in order iff no piece overflows the batch limit |
| Framing.ParseEncoded | rust/choosh-protocol/src/framing.rs:56-68 | Decoding the concatenation of encoded frames gives back those frames and nothing left over |
| Framing.EncodeExact | rust/choosh-protocol/src/framing.rs:56-68 | Which payloads the encoder refuses, and that it writes the length, most significant byte first, and the payload |
| Framing.BigEndian | rust/choosh-protocol/src/framing.rs:56-68 | The four length bytes as powers of 256 |
| Framing.FramesThenMore | rust/choosh-protocol/src/framing.rs:105-155 | Behind complete frames a length of 0 or above the bound is the error it is called, whatever follows, and an incomplete frame is kept |
| TunnelWrite.PtyTunnelHandle.Write | rust/choosh-android-transport/src/lib.rs:691-713 | With a channel that may close between any two sends, the loop queues exactly the payloads of the split in order, up to the first closed send, and reports an error iff one is missing |
| TunnelWrite.SplitWrite | rust/choosh-android-transport/src/lib.rs:691-713 | For non-empty bytes no payload is empty, each encoded body is the tunnel byte 2, the id and the payload, fits the frame bound and decodes to id and payload; the payloads concatenate to the bytes, and all but the last are 256 KiB less 9 bytes long |
| TunnelWrite.CutWriteIsPrefix | rust/choosh-android-transport/src/lib.rs:691-713 | A write that is cut short has handed over a prefix of its bytes and no close signal; all of them iff no send failed |
| TunnelWrite.ChunkBoundIsTight | rust/choosh-android-transport/src/lib.rs:150 | The frame encoder accepts a payload iff it is within the chunk bound |
| TunnelWrite.WrittenBytesArrive | rust/choosh-android-transport/src/lib.rs:691-713 | Split, encoded and received in any fragments, a write arrives byte for byte; it is refused iff a fragment overflows the receiver's batch limit |
| TunnelWrite.AtMostOneUnacknowledged | rust/choosh-android-transport/src/lib.rs:796-821 | In every run with any number of web writers, failing sends and a connection that may end at any moment, each writer has at most one unacknowledged chunk, and its chunks reach the wire in order without gap or repetition |
| TunnelWrite.FinishedWriteIsSent | rust/choosh-android-transport/src/lib.rs:796-821 | A web write that has returned without an error has all its chunks on the wire, in order |
| TunnelWrite.WriterCanGoOn | rust/choosh-android-transport/src/lib.rs:796-821 | In every run no writer is stuck: it can hand over its next chunk (or learn that the connection has ended), or the task has its chunk to send |
| TunnelWrite.WriteCompletes | rust/choosh-android-transport/src/lib.rs:796-821 | Progress: while the connection lives, from any reachable state and whatever else is queued, a write can be run to its end without an error, with all its chunks on the wire |
| TunnelWrite.OnlyTheEndFails | rust/choosh-android-transport/src/lib.rs:811-821 | A web write returns an error only when the connection has ended |
| TunnelMux.IoTask.HandleCommand | rust/choosh-android-transport/src/lib.rs:896-934 | Each command updates the pending and tunnel maps and puts its frame on the wire as the run model says; a failed send ends the task, a failed close does not, and an ack is given only for a frame that was sent |
| TunnelMux.IoTask.HandleControlFrame | rust/choosh-android-transport/src/lib.rs:940-994 | A response is taken by its pending request, which is removed, answered, and for an opened tunnel registered first |
| TunnelMux.IoTask.HandleTunnelFrame | rust/choosh-android-transport/src/lib.rs:1002-1032 | A payload goes to its tunnel's channel; an empty one or an overflow unregisters the tunnel; a short frame is an error |
| TunnelMux.IoTask.RunTask | rust/choosh-android-transport/src/lib.rs:852-889 | The loop handles commands, frames and reader events one by one until the first error, leaving the state of that run |
| TunnelMuxRuns.CommandsReachTheWire | rust/choosh-android-transport/src/lib.rs:896-934 | In every run the frames on the wire for a tunnel are the payloads its commands asked for, in order and without a gap, a close that works being an empty one; at most the payload whose send ended the task is missing |
| TunnelMuxRuns.WritesReachTheWire | rust/choosh-android-transport/src/lib.rs:691-713 | End to end from the handle: when a tunnel's commands are those of non-empty writes and perhaps a close, its frames on the wire carry a prefix of the written bytes, all of them while the task runs, and the empty frame is there at most once, last, and only for a close |
| TunnelMuxRuns.PrefixDelivery | rust/choosh-android-transport/src/lib.rs:852-1032 | In every run what a reader got and still has queued is a prefix of the non-empty payloads that arrived for its tunnel since registration, all of them while registered and read, and the queue never exceeds its capacity |
| TunnelMuxRuns.EndedStreamStaysEnded | rust/choosh-android-transport/src/lib.rs:1015-1027 | Once a channel's sender is gone nothing is ever added to it |
| TunnelMuxRuns.OverflowEndsTheStream | rust/choosh-android-transport/src/lib.rs:1018-1027 | A frame that does not fit ends its stream for the rest of the run: the reader gets at most what was delivered before it, so a lost frame is never followed by a later one |
| TunnelMuxRuns.OpenedMissesNothing | rust/choosh-android-transport/src/lib.rs:946-971 | A waiter that is told its tunnel is open misses nothing: in every continuation of the run, while the channel stays registered and read, it gets exactly the non-empty payloads that arrive for the tunnel from that answer on |
| TunnelMuxRuns.RequestsAreMatched | rust/choosh-android-transport/src/lib.rs:896-994 | In every run the recorded requests are those of the commands; each waiter gets at most one answer, the right one for what its command asked, made from a response with its own id; and the pending map is exactly the sent and unanswered requests, each with its kind |
| TunnelLaws.RequestsReachTheWire | rust/choosh-android-transport/src/lib.rs:896-934 | In every run the ids of the requests on the wire, in order, are exactly those of the control and open-tunnel commands whose send worked, each once |
| TunnelLaws.PendingWasSent | rust/choosh-android-transport/src/lib.rs:896-912 | While the task runs every recorded request has been put on the wire, so nobody waits for an answer to something never sent |
| TunnelLaws.AcksAreEarned | rust/choosh-android-transport/src/lib.rs:914-927 | The acknowledgements given are, in order, exactly those of the payloads whose send worked |
| TunnelLaws.OpenedAsAsked | rust/choosh-android-transport/src/lib.rs:946-971 | Each waiter that is told of a tunnel gets a channel of its own, for that tunnel and with the capacity its command asked for, and no channel is without its waiter |
| TunnelLaws.StreamEndsExactly | rust/choosh-android-transport/src/lib.rs:1002-1032 | A registered stream loses its sender iff the task ends, it is closed locally, its close signal arrives, a payload does not fit or is no longer read, or its tunnel id is opened again |
| TunnelLaws.CloseSignalEndsTheStream | rust/choosh-android-transport/src/lib.rs:1002-1017 | An empty payload ends its stream for good: the reader gets what was delivered before it, and nothing later |
| TunnelLaws.TaskEndsExactly | rust/choosh-android-transport/src/lib.rs:852-889 | The task ends iff the connection is lost, a tunnel frame is shorter than an id, or a send other than a close fails |
| TunnelLaws.EndLeavesNobodyWaiting | rust/choosh-android-transport/src/lib.rs:885-889 | When it has ended no request is pending and no tunnel has a sender |
| TunnelLaws.PushesAreKeptWhileTheyFit | rust/choosh-android-transport/src/lib.rs:976-990 | Agent events are queued in order up to 256 and dropped behind that; none ends the task |
| GitDiff.ParseSection | rust/choosh-hostd/src/jj_ops.rs:900-939 | The peeking loop reads exactly the lines up to the next header and folds them as the specification does |
| GitDiff.ParseGitDiff | rust/choosh-hostd/src/jj_ops.rs:885-974 | The whole parser computes the value that the round-trip lemmas are about |
| DiffPrinter.DiffRoundTrip | rust/choosh-hostd/src/jj_ops.rs:885-974 | Parsing the printed text of any well-formed files (text, rename, binary, and a header alone with its two paths) gives back those files, each line less one final CR |
| DiffPrinter.DiffRoundTripExact | rust/choosh-hostd/src/jj_ops.rs:885-974 | Parsing gives back exactly the printed files iff no path and no content line ends in CR |
| DiffPrinter.ContentLine | rust/choosh-hostd/src/jj_ops.rs:917-933 | Inside a hunk a line that starts with a content character is content, whatever its text looks like |
| DiffPrinter.HunkHeaderRoundTrip | rust/choosh-hostd/src/jj_ops.rs:1017-1036 | A printed hunk header, with or without counts, parses to its four numbers |
| DiffPrinter.BinaryMarkerExact | rust/choosh-hostd/src/jj_ops.rs:990-999 | A binary marker is parsed truthfully iff the first ` and ` in it is the separator |
| DiffPrinter.ModeHeaderExact | rust/choosh-hostd/src/jj_ops.rs:1008-1015 | A header alone yields its two paths, the old one first, iff its first ` b/` is the separator |
| DiffPrinter.ModeLineExact | rust/choosh-hostd/src/jj_ops.rs:1008-1015 | And its whole line does iff, besides, the new path does not end in CR |
| DiffMeaning.DiffMeansItsScript | rust/choosh-hostd/src/jj_ops.rs:917-933 | For any edit script cut into hunks and printed, with markers for missing final newlines, as a changed, added, deleted or renamed file anywhere in a diff, applying the parsed hunks turns the old file into the new one, and context with removed (added) lines is the old (new) slice its header names; every line of both files less one final CR |
| DiffMeaning.FinalNewlineIsForgotten | rust/choosh-hostd/src/jj_ops.rs:917-932 | Scripts that differ only in those markers are parsed alike |
| DiffLaws.NothingIsPaperedOver | rust/choosh-hostd/src/jj_ops.rs:885-974 | When a diff is parsed at all, every line behind the first file header that starts like a hunk header or a binary marker is a well-formed one |
| DiffLaws.EntryPerHeader | rust/choosh-hostd/src/jj_ops.rs:885-974 | There is exactly one entry for each file header |
| DiffLaws.SectionThen | rust/choosh-hostd/src/jj_ops.rs:885-974 | A file header, the lines up to the next one, and the rest: the section is parsed on its own and its entry comes first |
| DiffLaws.NoiseIsIgnored | rust/choosh-hostd/src/jj_ops.rs:900-939 | Lines that are neither headers, renames, binary markers, hunk headers nor content (index, modes, similarity, copies, empty lines, missing-newline notes) can be left out anywhere without changing the result, errors included |
| DiffLaws.BinaryExactly | rust/choosh-hostd/src/jj_ops.rs:943-951 | An entry is a binary one iff its section has a binary marker and not both lines of a rename, whatever else is in it |
| DiffLaws.HalfARename | rust/choosh-hostd/src/jj_ops.rs:943-945 | Half a rename changes nothing in its entry |
| DiffLaws.HunkHeaderExact | rust/choosh-hostd/src/jj_ops.rs:1017-1026 | Which hunk headers are read, and as what: the first two words before the next ` @@` must be the two sides; what follows, there or as a title, says nothing |
| DiffLaws.RangeExact | rust/choosh-hostd/src/jj_ops.rs:1030-1036 | Which texts are one side of a hunk header, and with which numbers: sign, decimal start and perhaps a decimal count, 1 when left out |
| DiffLaws.SignIsNeeded | rust/choosh-hostd/src/jj_ops.rs:1030-1036 | A side without its sign is refused |
| DiffLaws.OldSideNames | rust/choosh-hostd/src/jj_ops.rs:978-984 | What `--- ` names: nothing at `/dev/null`, else the path, less `a/` if it is there |
| DiffLaws.NewSideNames | rust/choosh-hostd/src/jj_ops.rs:978-984 | And `+++ `, less `b/` |
| DiffLaws.BinaryMarkerNames | rust/choosh-hostd/src/jj_ops.rs:990-999 | What a binary marker says: which sides are there, and the path of the new side, or of the old one where the new one is missing; the closing word may be missing |
| DiffLaws.HeaderNeedsSeparator | rust/choosh-hostd/src/jj_ops.rs:1008-1015 | A header alone without ` b/` is an error |
| DiffLaws.NeitherSideIsRefused | rust/choosh-hostd/src/jj_ops.rs:940-974 | A binary marker with neither side is an error |
| HttpHead.TryParseHead | rust/choosh-android-bridge/src/http_lite.rs:74-95 | The header loop computes the parse, with the first malformed line as its error |
| HttpHead.RebuildHeadStrippingCookie | rust/choosh-android-bridge/src/http_lite.rs:232-262 | The byte-appending loop produces the encoding of the printed head with stripped headers |
| HttpRoundTrip.RebuildRoundTrip | rust/choosh-android-bridge/src/http_lite.rs:232-262 | For every parsed head and any bytes behind it, the rebuilt bytes parse to the same request line and other headers in order, each cookie header reduced to its non-gateway pairs and gone when none is left |
| HttpRoundTrip.GatewayCookieIsGone | rust/choosh-android-bridge/src/http_lite.rs:221-223 | After the rebuild no token matches the gateway cookie |
| HttpRoundTrip.RebuildIsIdempotent | rust/choosh-android-bridge/src/http_lite.rs:232-262 | Rebuilding the parsed rebuilt head gives the same bytes |
| HttpRoundTrip.PrintedCookieHeader | rust/choosh-android-bridge/src/http_lite.rs:202-211 | A re-printed cookie header parses to exactly its pairs |
| HttpRoundTrip.PrintedParses | rust/choosh-android-bridge/src/http_lite.rs:74-95 | A printed head parses to itself, its length being that of its bytes, whatever follows |
| HttpRoundTrip.ParseIsStable | rust/choosh-android-bridge/src/http_lite.rs:74-99 | A decided parse, success or error, does not depend on bytes that arrive later |
| HttpRoundTrip.LineIsIdentical | rust/choosh-android-bridge/src/http_lite.rs:228-259 | A header line is forwarded byte for byte iff, for a cookie name, it is spelled `Cookie` and every piece of its value is one space and a trimmed name=value pair that is not the gateway's; for any other name, iff the name is trimmed and the value is one space and trimmed text |
| HttpRoundTrip.UnspacedLineChanges | rust/choosh-android-bridge/src/http_lite.rs:228-259 | The concrete line `A:b` is not forwarded as it came |
| HttpRoundTrip.LowerCaseCookieChanges | rust/choosh-android-bridge/src/http_lite.rs:228-259 | Nor is `cookie: a=b`, which is renamed |
| HttpRoundTrip.UnspacedCookieChanges | rust/choosh-android-bridge/src/http_lite.rs:228-259 | Nor is `Cookie: a=b;c=d`, which gains a space |
| HttpGate.HeadAcceptedExactly | rust/choosh-android-bridge/src/http_lite.rs:74-95 | Which text in front of the first blank line is a request head (two spaces in the request line, each other line empty or with a colon), and which of the three errors is given otherwise |
| HttpGate.NotTextIsRefused | rust/choosh-android-bridge/src/http_lite.rs:77 | Bytes that are no UTF-8 are no head |
| HttpGate.GateExact | rust/choosh-android-bridge/src/http_lite.rs:213-223 | The gate opens for a head iff its first cookie header, in any letter case, lists the token under `choosh_gw_token` |
| HttpGate.NoCookieNoEntry | rust/choosh-android-bridge/src/http_lite.rs:213-223 | And never without a cookie header |
| HttpGate.LetInByToken | rust/choosh-android-bridge/src/web_gateway.rs:244-285 | From the bytes of the request, in any reads: the connection is let in iff the head is accepted and its first cookie header lists the token |
| HttpGate.NeverLetInWithoutCookie | rust/choosh-android-bridge/src/web_gateway.rs:244-285 | And a request without a cookie header never is |
| HttpGate.PairByPair | rust/choosh-android-bridge/src/http_lite.rs:240-255 | The rebuild drops the pairs of the given name, wherever they stand, and keeps every other pair in its place |
| HttpGate.OutcomeHasItsCause | rust/choosh-android-bridge/src/http_lite.rs:126-151 | Each outcome of reading a head has its own cause: too large iff the buffer is over the cap, an early end only at the end of the stream, a timeout and a failure only where a read gives one |
| Gateway.ReadHeadWithCap | rust/choosh-android-bridge/src/http_lite.rs:126-151 | The read loop checks the cap before parsing and returns the outcome, buffer and unread input of the specification |
| Gateway.PumpBidirectional | rust/choosh-android-bridge/src/web_gateway.rs:321-358 | The `select!` loop ends in the state of the pump specification, for every schedule, with writes that fail after any part and cancellation at any turn; it closes upstream unless cancelled |
| GatewayConnection.AcceptedHead | rust/choosh-android-bridge/src/http_lite.rs:126-151 | An accepted head is the parse of the whole stream, lies within the buffer and the cap, and no byte is lost between buffer and unread input |
| GatewayConnection.AcceptedWhateverTheSplit | rust/choosh-android-bridge/src/http_lite.rs:130-150 | With room for one more read beyond the head, or for the whole stream, every split of the stream into reads accepts the same head |
| GatewayConnection.SplitDecides | rust/choosh-android-bridge/src/http_lite.rs:130-150 | Without that room a head within the cap is accepted under one split and refused as too large under another |
| GatewayConnection.AcceptanceExact | rust/choosh-android-bridge/src/http_lite.rs:130-150 | Every split of the stream accepts the head iff there is that room |
| GatewayConnection.RefusedWhateverTheSplit | rust/choosh-android-bridge/src/http_lite.rs:133-140 | A head longer than the cap is refused as too large under every split |
| GatewayConnection.RunFaithful | rust/choosh-android-bridge/src/web_gateway.rs:327-356 | In every run both directions deliver in order: nothing is lost while the pump lives, a prefix is delivered when it stops, also inside a failed or cancelled write, and no empty write, the close signal, is ever issued |
| GatewayConnection.HalfCloseIsHarmless | rust/choosh-android-bridge/src/web_gateway.rs:327-356 | When no call fails and both sides get their turns, in any order, the pump runs to the end of both directions |
| GatewayConnection.StopsExactly | rust/choosh-android-bridge/src/web_gateway.rs:321-358 | The pump stops iff the shutdown signal, the idle timeout, a cancellation, a failed read of the client or a write that breaks off makes it, and a direction ends iff its side is at its end |
| GatewayConnection.UploadsFitTheChunk | rust/choosh-android-bridge/src/web_gateway.rs:327-345 | No upload is longer than one upload chunk |
| GatewayConnection.Forward | rust/choosh-android-bridge/src/web_gateway.rs:287-307 | From the opened upstream on: the rebuilt head, the leftover and the pumped bytes are what upstream receives, in writes of which none is the empty close signal, completely when both sides finish |
| GatewayConnection.ServeConnection | rust/choosh-android-bridge/src/web_gateway.rs:244-308 | Upstream is contacted iff the head is accepted and the cookie matches; it receives the rebuilt head and the bytes behind the blank line, never an empty write, and the client receives upstream's chunks, a prefix at any end and everything when both sides finish; 431, 403 and 502 exactly in their cases; upstream is closed unless the connection is cancelled |
| AuthDetect.StripAnsiAndNormalize | rust/choosh-hostd/src/auth_detect.rs:181-222 | The nested loops compute the escape-free, CR-free text of the specification |
| AuthCuts.CharacterShows | rust/choosh-hostd/src/auth_detect.rs:181-222 | Every character but ESC and CR is shown, and CR is not |
| AuthCuts.CsiShowsNothing | rust/choosh-hostd/src/auth_detect.rs:187-194 | A CSI sequence up to its first final byte from `@` to `~` shows nothing |
| AuthCuts.OscShowsNothing | rust/choosh-hostd/src/auth_detect.rs:195-207 | Nor does an OSC sequence up to BEL or ESC backslash |
| AuthCuts.ShortEscapeShowsNothing | rust/choosh-hostd/src/auth_detect.rs:208-212 | Nor do any other two characters that start with ESC |
| AuthCuts.StrayByteShows | rust/choosh-hostd/src/auth_detect.rs:136-149 | A byte that starts no character, in the middle of a text, shows as one replacement character |
| AuthDetect.FirstNonblankLineToken | rust/choosh-hostd/src/auth_detect.rs:255-269 | The cursor loop computes the first word of the first terminated non-blank line |
| AuthDetect.AuthCodeDetector.Feed | rust/choosh-hostd/src/auth_detect.rs:136-162 | One feed appends the cleaned text, keeps the last 8192 characters, and reports unless the last report had the same provider and code |
| AuthRuns.DetectionIsStable | rust/choosh-hostd/src/auth_detect.rs:331-466 | A detector that fires gives the same code and URL on every extension whose last marker is unchanged |
| AuthRuns.ReportIsWhole | rust/choosh-hostd/src/auth_detect.rs:136-162 | For a stream of any bytes and any length, cut into reads anywhere outside characters and escapes, what a read reports is what its detector finds in the whole stream unless the marker occurs again later, so a code or URL cut by a chunk boundary is never reported |
| AuthRuns.OlderTextIsIrrelevant | rust/choosh-hostd/src/auth_detect.rs:331-466 | Text in front of what a detector fires on changes neither code nor URL, so evicting it from the buffer does not either |
| AuthCuts.StripExact | rust/choosh-hostd/src/auth_detect.rs:181-222 | Stripping a text apart from what follows is stripping them together, for everything that may follow, iff the text does not end inside an escape |
| AuthCuts.CleanCutExact | rust/choosh-hostd/src/auth_detect.rs:136-149 | Decoding and stripping two reads apart is doing it together, for every later read, iff the first ends neither inside a character nor inside an escape |
| AuthRuns.BufferOfStream | rust/choosh-hostd/src/auth_detect.rs:136-149 | The buffer is the last 8192 characters that the stream shows, for any bytes and every cutting into reads outside characters and escapes |
| AuthRuns.BufferOfAsciiStream | rust/choosh-hostd/src/auth_detect.rs:136-149 | For escape-free ASCII every cutting is of that kind, and the buffer is the last 8192 characters of the stream less its CRs |
| AuthRuns.CutInsideEscapeShows | rust/choosh-hostd/src/auth_detect.rs:136-149 | The concrete split inside a colour sequence that leaves its last byte in the buffer |
| AuthRuns.ConsecutiveReportsDiffer | rust/choosh-hostd/src/auth_detect.rs:157-161 | Two reports in a row never carry the same provider and code |
| AuthReports.ReportExact | rust/choosh-hostd/src/auth_detect.rs:136-162 | For any reads, a read reports a prompt iff it is complete in the buffer, no detector that is asked earlier fires on the buffer, and its provider or code differs from the last report |
| AuthReports.CompletePromptIsReported | rust/choosh-hostd/src/auth_detect.rs:136-162 | For a stream of any bytes and every cutting outside characters and escapes, a prompt that at some read is complete in the last 8192 shown characters, with no earlier detector firing there, has been reported by then and is the last report |
| AuthReports.LaterLoginIsSilent | rust/choosh-hostd/src/auth_detect.rs:150-161 | Whatever plain text the next read brings after a GitHub prompt, nothing but that prompt is reported while its marker stays the last one and both fit the buffer |
| AuthReports.SecondLoginIsNotReported | rust/choosh-hostd/src/auth_detect.rs:150-161 | After a GitHub prompt with any device code and device-login URL, an AWS prompt with any device code and any URL that holds `https://` once is complete in the buffer and is not reported |
| AuthReports.OneSecondLogin | rust/choosh-hostd/src/auth_detect.rs:150-161 | Two concrete prompts of that kind |
| AuthPrompts.GithubPromptIsFound | rust/choosh-hostd/src/auth_detect.rs:331-348 | Every text with the parts of a GitHub prompt behind its last marker (blanks, code, confirmed end, first URL, device-login path) is detected, with exactly its code and URL |
| AuthPrompts.GithubReportIsAPrompt | rust/choosh-hostd/src/auth_detect.rs:331-348 | And whatever that detector reports sits in the text with all those parts |
| AuthPrompts.AwsPromptIsFound | rust/choosh-hostd/src/auth_detect.rs:406-415 | Every text whose last URL before the last marker is terminated, and whose first non-blank line behind it is, is detected with that URL and that line's first word |
| AuthPrompts.AwsReportIsAPrompt | rust/choosh-hostd/src/auth_detect.rs:406-415 | And whatever that detector reports sits in the text with those parts |
| AuthPrompts.AzurePromptIsFound | rust/choosh-hostd/src/auth_detect.rs:451-466 | Every text with a confirmed `https` token behind the last page marker and a confirmed code behind the next code marker is detected, with both |
| AuthPrompts.AzureReportIsAPrompt | rust/choosh-hostd/src/auth_detect.rs:451-466 | And whatever that detector reports sits in the text with those parts |
| AuthMessages.AzureMessageExact | rust/choosh-hostd/src/auth_detect.rs:451-466 | The text Azure prints, with any page and any word for the code: it is detected, with exactly both, iff the page is an https URL and the word is 4 to 24 letters, digits and dashes with a letter or digit among them |
| AuthMessages.GithubMessageExact | rust/choosh-hostd/src/auth_detect.rs:331-348 | The text GitHub prints, with any spacing, word and URL: detected, with both, iff the word is such a code and the URL leads to `/login/device` |
| AuthMessages.AwsMessageExact | rust/choosh-hostd/src/auth_detect.rs:406-415 | The text AWS prints, behind anything, with any URL and word: detected, with both, iff the word is such a code |
| Pagination.SortSorts | rust/choosh-hostd/src/fs_ops.rs:117-125 | The sorted names are strictly increasing and are the listing's entries, no more and no fewer |
| Pagination.ListingOrderIsIrrelevant | rust/choosh-hostd/src/fs_ops.rs:112-146 | A page does not depend on the order in which the directory was read |
| Pagination.PageExact | rust/choosh-hostd/src/fs_ops.rs:127-132 | A page is the next entries behind the cursor in order; a following cursor names its last entry, and there is none iff nothing is left |
| Pagination.ListDirExact | rust/choosh-hostd/src/fs_ops.rs:112-146 | Missing and non-directory targets give their own errors; a page holds entries of the directory behind the cursor, each name before the next by the first character that differs, at most the page size |
| Pagination.LessIsBefore | rust/choosh-hostd/src/fs_ops.rs:125-132 | The order of names is that of the first differing character, a proper prefix coming first |
| Pagination.NamesIncrease | rust/choosh-hostd/src/fs_ops.rs:112-146 | While the directory changes between pages, names still strictly increase over the whole listing and every entry was present when its page was read |
| Pagination.NoStableNameIsMissed | rust/choosh-hostd/src/fs_ops.rs:112-146 | A name present at every request of a finished listing is listed, also when it turns from file to directory between requests |
| Pagination.NothingStableIsMissed | rust/choosh-hostd/src/fs_ops.rs:112-146 | And an entry that stays the same is listed as it is |
| Pagination.UnchangingDirectory | rust/choosh-hostd/src/fs_ops.rs:112-146 | Over an unchanging directory the pages concatenate to the whole sorted listing, finishing in exactly the number of requests it needs |
| AssetUrl.PercentEncode | rust/choosh-android-bridge/src/markdown_gateway.rs:408-420 | The byte loop computes the encoding |
| AssetUrl.PercentDecode | rust/choosh-android-bridge/src/markdown_gateway.rs:422-440 | The index loop computes the decoding, with a `%` that starts no valid escape left as it is |
| AssetUrl.PercentRoundTrip | rust/choosh-android-bridge/src/markdown_gateway.rs:408-440 | Decoding inverts encoding for every UTF-8 path |
| AssetUrl.EncodedAlphabet | rust/choosh-android-bridge/src/markdown_gateway.rs:408-420 | The encoded form has only unreserved characters, `/` and `%`, so none of `?`, `&`, `=` |
| AssetUrl.Resolve | rust/choosh-android-bridge/src/markdown_gateway.rs:352-357 | The URL of a reference is the route `/asset` with the encoded path `docDir/reference`, or the reference alone in the top directory |
| AssetUrl.AssetUrlRoundTrip | rust/choosh-android-bridge/src/markdown_gateway.rs:352-378 | Splitting and query-parsing the URL built for a path gives the route and exactly that path |
| AssetLaws.QueryIsReadBack | rust/choosh-android-bridge/src/markdown_gateway.rs:371-378 | Any list of keys and values, percent-encoded and joined, is read back, the last value of a key winning |
| AssetLaws.EscapeIsRead | rust/choosh-android-bridge/src/markdown_gateway.rs:422-440 | `%` and two hexadecimal digits of either case (or `%+` and one, as the number parser allows) stand for their byte |
| AssetLaws.OthersStay | rust/choosh-android-bridge/src/markdown_gateway.rs:422-440 | Every other byte stays as it is |
| AssetLaws.ComponentsAreSplit | rust/choosh-web/src/lib.rs:45-54 | Splitting at slashes gives exactly the components that stand between slashes |
| AssetLaws.RefusedPaths | rust/choosh-web/src/lib.rs:45-54 | Which paths the route refuses: the empty one, those with a backslash, a NUL or `://`, and those with an empty, `.` or `..` component |
| AssetLaws.ClimbingIsForbidden | rust/choosh-android-bridge/src/markdown_gateway.rs:294-316 | A path with a `..` component, wherever it stands, is answered 403 |
| AssetLaws.StatusExact | rust/choosh-android-bridge/src/markdown_gateway.rs:294-341 | Exactly when the route answers 400, 403, 404 and 502, without a body; anything else is 200 or 206 |
| AssetLaws.RangeExact | rust/choosh-android-bridge/src/markdown_gateway.rs:384-393 | Which Range headers are honoured, and as what: `bytes=` and two numbers in order |
| AssetLaws.NoRange | rust/choosh-android-bridge/src/markdown_gateway.rs:384-393 | Any other unit, or no dash, is no range |
| AssetRange.ContentRangeNamesTheBody | rust/choosh-android-bridge/src/markdown_gateway.rs:322-336 | An answer to a ranged request that starts before 2^63 is partial, and its Content-Range names exactly the bytes sent iff the range starts inside the file and its length is not 0; from 2^63 on the answer is 502 |
| AssetRange.PastTheEndNamesAByte | rust/choosh-android-bridge/src/markdown_gateway.rs:322-336 | The concrete request one byte past the end whose answer names a byte and sends none |
| AssetRange.RangeHeaderBack | rust/choosh-android-bridge/src/markdown_gateway.rs:384-393 | A closed range is understood as written, except the one whose length does not fit 64 bits |
| AssetRange.ContentRangeBack | rust/choosh-android-bridge/src/markdown_gateway.rs:328-330 | A reader of the Content-Range text gets back first, last and total |
| AssetRange.GatewayAnswers | rust/choosh-android-bridge/src/markdown_gateway.rs:294-341 | Every range inside an unchanging file of up to 2^63 bytes is answered with its bytes up to the chunk bound and a Content-Range that names them |
| AssetRange.Reassembly | rust/choosh-android-bridge/src/markdown_gateway.rs:294-341 | A client that asks for ranges of any length and follows the ends it is told collects exactly the file and finishes |
| AssetRange.FirstAnswer | rust/choosh-android-bridge/src/markdown_gateway.rs:317-336 | A request without a Range header, or with one that cannot be read, is answered by the whole file if it fits one chunk, else by its first chunk as a partial answer |
| AssetRange.ResolvedUrlServes | rust/choosh-android-bridge/src/markdown_gateway.rs:352-378 | End to end, the URL resolved for a reference serves the file at that path, piece by piece to its last byte |
| Utf8.DecodeEncode | rust/choosh-android-bridge/src/http_lite.rs:77 | Strict and lossy UTF-8 decoding invert encoding |
| Numbers.NumberExact | rust/choosh-android-bridge/src/markdown_gateway.rs:384-393 | Which texts are read as an unsigned 64-bit number, and as which: decimal digits of that value, perhaps behind a plus |
| Text.SplitJoin | rust/choosh-android-bridge/src/http_lite.rs:78 | Splitting undoes joining when no part can be confused with the separator |

## Left out

- DocumentProtocol.OpenReturnsASnapshot: each `read_file_range` is taken as one atomic step, although the code takes length, hash and bytes without the path lock.
- HostFiles.Host.WriteFile: `fs::write` is one step, so a torn write or a partial write followed by an I/O error is not modelled.
- EventSpool.WorkspaceSpool.Push: the sequence number is unbounded where the source has a `u64`.
- EventSpoolRuns.ResumeExact: states one spool lifetime; a restart starts a new, empty spool.
- Framing.FrameDecoder.Feed: `finish`, the end-of-stream check beside it, is not modelled.
- TunnelMux.IoTask.HandleControlFrame: `decode_tunnel_id_hex` and JSON decoding are abstract.
- TunnelLaws.PushesAreKeptWhileTheyFit: nobody takes an agent event out of the queue; a reader that does only makes room.
- TunnelMuxRuns.RequestsAreMatched: request ids are the arguments of the commands, required fresh where the source draws them from a counter.
- TunnelWrite.WrittenBytesArrive: the underlying byte stream is reliable and ordered.
- TunnelWrite.AtMostOneUnacknowledged: the web `write` loop is modelled by its steps, begin / send / acknowledged, because each send suspends the writer; the split itself is the one `PtyTunnelHandle.Write` loops over.
- Gateway.ReadHeadWithCap: the idle timeout is an outcome of a read, not a clock.
- Gateway.PumpBidirectional: the idle timeout and the shutdown signal may fire at any turn, which includes every real timing.
- GatewayConnection.ServeConnection: response texts are reduced to their status codes, the accept loop's connection cap is not modelled, and an upload chunk size of 0, which would read as an immediate end of stream, is excluded.
- AssetRange.RangeHeaderBack: the overflowing length wraps as in a release build; a debug build would panic.
- AssetRange.GatewayAnswers: content types, response headers other than Content-Range, and the cookie gate of this gateway are not modelled.
- Pagination.PageExact: a page size of 0, for which the code returns an empty page without a cursor, is computed by the model but outside the statements.
- `confine` and symbolic links: a path is the resolved path.
- `control_tunnel_call`, connection set-up, handle tables, JNI glue, credentials, power management and command lines: foreign calls or one-step state.
- `jj-lib` calls, snapshots and revsets in jj_ops.rs: they rest on libraries outside the repository.
- JSON and base64 codings, sockets, task scheduling and wall clocks.
