# SomniumDB, modelled and proved in Dafny

SomniumDB is a replicated, log-structured key-value store. Its nodes version every write with a hybrid logical clock,
ship their own log records to each other as last-writer-wins merges and deletes, and forget tombstones below a
watermark. On one node, the state lives in memory, in a cold file and in hibernation snapshots; an append-only file of
RESP arrays makes it durable, and the same RESP parser serves clients, recovery and replication.

The project models these four parts and proves what they promise. Each part has a pure layer that says what an operation
means, imperative classes and loops that follow the source step by step and are proved against that layer, and theorems
over every run, every interleaving or every input.

| layer | modules |
|---|---|
| shared | `Ints`, `Wrappers`, `Sums`, `ByteCodec`, `FileIo` |
| clock and one node | `Hlc`, `Node`, `NodeLaws`, `Effects`, `Expiry` |
| replication | `Cluster`, `ClusterLaws`, `Forgetting`, `Replication`, `Convergence`, `Delivery`, `Duplicates`, `Boundaries` |
| commands | `LogMeaning`, `Commands` |
| shipping | `Wire`, `Shipping`, `WireMeaning`, `ShippedLog` |
| RESP and connections | `Decimal`, `Resp`, `Grammar`, `Inline`, `Connection` |
| log | `AofCodec`, `Recovery`, `Formats`, `Canonical`, `LogFiles`, `AofFile`, `Persistence`, `Restart`, `Lifetime` |
| tiers | `ColdFile`, `Memory`, `Tiers`, `Snapshot`, `Rooms` |

How the layers meet:

- `Node.Exec` is the meaning of a command on one node's records, tombstones, frontiers, clock and log. The class
  `Commands.Database` has the handlers with their argument loops; each is proved to take `Exec`'s step, so the theorems
  about runs of `Exec` (version order, restart, replication) speak about the handlers. What a caller sees of each
  command, by lookups before and after it, is stated on the handlers without `Exec` (`Effects` has the laws behind it).
- The handlers also prove that each log record they append means, to replay, exactly what they did
  (`LogMeaning.Meaning`), and `WireMeaning` proves that the commands a peer receives for that record mean the same
  mutations; `ShippedLog` proves that whole rounds of shipping send the queues of `Cluster`, and that executing a line
  takes the step of the command it stands for. `Commands.Database.Startup` goes from the bytes of a file to the state
  its log determines.
- `Cluster` is a step relation over N nodes: clients write, a link loads the frontier, reads the log, sends a batch;
  batches are executed command by command, acknowledged, lost, or sent again from any earlier offset.
- `Tiers.Store` proves that memory, cold file and snapshots are one map, which is the `records` of a node.

Main results: `Replication.ForgettingIsUnobservable`, `Convergence.Converges`, `Delivery.CanConverge`,
`NodeLaws.VersionOrder`, `Expiry.VersionOrderIff`, `Lifetime.RestartNeverInvents`, `Lifetime.RestartShowsLiveIff`,
`Lifetime.SpliceShowsLiveIff`, `AofFile.AofManager.RecoversCompletedIff`, `AofFile.AofManager.SurvivesPowerLoss`,
`Recovery.RecoverFile` with `Recovery.RecoverExact`, `Shipping.Peer.Ship`, `ShippedLog.ShipRound`, `Grammar.AcceptsIff`,
`Connection.Client.RunsTheStream`, `Tiers.Store` (every method), `Rooms.SlotsHold`, `Snapshot.SnapshotRoundTrip`.

Properties that are false of the code are kept as results: a failing input, and the exact condition under which the code
meets them.

- A rewrite can drop a live key, because the child reads the snapshots of sleeping rooms after the fork
  (`Lifetime.LateReadLoses`): within one process lifetime the rewritten log shows the store exactly when each visible
  key that slept at the fork was still in the snapshot read, or was logged since (`Lifetime.SpliceShowsLiveIff`).
- A rewrite taken after a restart can drop a live key, because replay's writes leave an old tombstone in place
  (`Lifetime.RewriteAfterRestartLoses`): a dump shows the state exactly when no unexpired key has both
  (`Restart.DumpFaithful`), and replay leaves both exactly for a key whose last mutation is a write after a delete, with
  peers (`Restart.ReplayLeavesBothIff`).
- A room whose snapshot cannot be read wakes without its keys, and a restart can show them again
  (`Lifetime.UnreadableWakeResurrects`). Across all of this a restart invents no key but such forgotten ones
  (`Lifetime.RestartNeverInvents`), and shows exactly the live keys if and only if no dropped key is still visible and
  out of the snapshots' reach, and no forgotten key is still shown (`Lifetime.RestartShowsLiveIff`).
- Version order fails once records expire (`Expiry.ExpiryBreaksVersionOrder`): in every run it holds exactly when no
  merge arrives for a key without unexpired record and tombstone, above the watermark, that the log is already ahead of
  (`Expiry.VersionOrderIff`).
- A key is in one tier only as long as its cold reads succeed (`Tiers.FailedReadResurfaces`): a write keeps every key in
  one tier exactly when its key is not in the cold index or could be read (`Tiers.Store.Write`).
- `MSET` naming a key twice diverges (`Duplicates.DuplicateKeysDiverge`): writer and peer agree on it exactly when its
  first and last values are equal (`Duplicates.AgreeIff`).
- A write that a peer refused in a batch whose closing frontier it then heard is lost when sent again
  (`Boundaries.RefusedWriteIsLost`): a late write is ignored exactly when the record found, or a tombstone that outlives
  the frontier, or else the watermark after it, is at or above it (`Boundaries.LateWriteIgnoredIff`).
- After a refused room selection, later writes of the batch run, and are answered positively, in another room
  (`Wire.RefusedSelectionMisdirects`): a write runs at home exactly when the last positively answered selection before
  it says so (`Wire.RanAtHomeIff`); the offset counts only writes before the first refusal.
- A commit that cannot read the size of the new file leaves the process believing that it is empty; the next rewrite
  then copies the wrong bytes, and an acknowledged record is lost (`AofFile.FailedSizeLoses`). The new file holds the
  dump and the later records exactly when the bytes copied are those records, and always when the process knew the
  file's size or nothing was appended since the fork (`AofFile.AofManager.CommitRewrite`).
- A log whose header could not be written is misread (`LogFiles.HeadlessMisread`). Recovery returns the completed
  records exactly when the file got its header, holds them, all within the parser's limits, and ends with bytes that ask
  for more; or got no whole header, and holds no complete record and only bytes that ask for more
  (`AofFile.AofManager.RecoversCompletedIff`).
- A replicated delete is normalised twice on replay, and keeps its version exactly when the version sent was 0 or at
  least 2^31 (`Commands.DeleteSurvivesReplay`); a snapshot restores records exactly when every version is 0 or at least
  2^47 (`Snapshot.RestoredIff`).
- An issued version exceeds the clock exactly when neither 64-bit counter is at its maximum (`Hlc.NextExceeds`).
- A log record is read back exactly when its tokens are within the parser's limits (`Resp.RoundTripIff`).

Where comments and code differ, the code is followed: the log's header announces 11 bytes
(`src/storage/aof_manager.cpp:19`), not the 10 of the comment at `src/storage/aof_manager.h:28`; and a batch that
reached the end of the log makes the selected room unknown even when every reply was positive, since the closing
frontier's reply is counted too (`src/storage/replicator.cpp:276`).

## Model

| member | source | states |
|---|---|---|
| Hlc.Clock.Issue | src/core/hlc.h:24-27 | the issued version is the least that is at or above the wall clock and above the clock and the overwritten version, in 64-bit arithmetic with wrap-around |
| Hlc.Clock.See | src/core/hlc.h:30 | observing a version puts the clock at or above it and never back |
| Hlc.NextExceeds | src/core/hlc.h:22-27 | the issued version exceeds both the clock and what it overwrites if and only if neither counter wraps |
| Hlc.NormalizeIdempotent | src/core/hlc.h:11-14 | normalising twice changes nothing exactly for 0 and values of at least 2^31 |
| Hlc.NextIsHlcFormat | src/core/hlc.h:13-27 | with a real wall clock every issued version is already in HLC format |
| NodeLaws.ExecStep | src/core/crdt.cpp:44-77 | every command keeps records and tombstones disjoint, the clock above every stored version, whatever was settled settled, and logs only mutations newer than everything settled for their key |
| NodeLaws.VersionOrder | src/core/commands.cpp:74-103 | in every run with peers and no expiry, whatever merges and frontiers arrive, the versions logged for a key strictly increase and the clock is at or above every stored or logged one |
| NodeLaws.ClockDrift | src/core/hlc.h:24-30 | the clock is at most its largest input (wall clock or observed version) plus the number of versions issued |
| Forgetting.CoupledExec | src/core/crdt.cpp:44-105 | a command that is quiet below the watermark has the same reply, version, records and log on a node that forgets as on one that keeps every tombstone |
| Cluster.Start | src/storage/replicator.h:12-22 | the starting cluster: every node lists all others as peers, stores, knows and logged nothing, and nothing is in flight |
| ClusterLaws.StartInv | src/core/crdt.cpp:107-122 | the cluster invariant holds at the start |
| ClusterLaws.NextInv | src/storage/replicator.cpp:159-286 | every step keeps it: frontiers heard, in flight or loaded vouch for mutations the receiver already has settled, and offsets never pass an undelivered one |
| Replication.ForgettingIsUnobservable | src/core/crdt.cpp:79-105 | in every run of N nodes, with losses and repeated deliveries, any set of nodes may collect tombstones: the same run is possible without, every reply, version and decision agrees, and all records, clocks and logs end equal |
| Convergence.Converges | src/core/crdt.cpp:124-156 | once every node received every mutation, each shows for each key exactly the write or delete with the greatest (timestamp, node), and all nodes hold the same records |
| Delivery.CanConverge | src/storage/replicator.cpp:159-286 | from every reachable state, whatever was lost, repeated or forgotten, some further run without clients delivers everything: then all nodes hold the same records, the greatest mutation of each key |
| Duplicates.WriterKeepsLast | src/core/commands.cpp:104-115 | after an MSET the writer holds the last value given for each key |
| Duplicates.PeerKeepsFirst | src/storage/replicator.cpp:226-230 | a peer receiving its merges keeps the first value, the others being stale |
| Duplicates.AgreeIff | src/core/crdt.cpp:44-50 | writer and peer agree on a key exactly when its first and last values are equal |
| Duplicates.DuplicateKeysDiverge | src/core/commands.cpp:92-119 | MSET k a k b leaves b at the writer and a at the peer under one version |
| Expiry.MergeKeepsOrderIff | src/core/crdt.cpp:44-50 | a merge keeps the logged versions of its key increasing if and only if it does not find the key without unexpired record and tombstone, its version above the watermark, and the log already ahead of it |
| Expiry.VersionOrderIff | src/core/database.cpp:167-187 | from an empty node, with or without peers and after any run of commands, merges, frontiers and expiry, the logged versions of every key increase if and only if no merge of the run was such a revival |
| Expiry.ExecKeeps | src/core/commands.cpp:271-285 | every other command, and every other merge, keeps them increasing, expired records erased or not |
| Expiry.ExpiryBreaksVersionOrder | src/core/database.cpp:170-175 | a run from an empty node at any real wall clock: a write expires, and an older merge puts a smaller version into the log |
| Boundaries.LateWriteIgnoredIff | src/core/crdt.cpp:44-122 | for any node, peers and frontiers heard before: after one more frontier, a write is ignored exactly when it is at or under the record found; with none found, the key's tombstone if that outlives the frontier; or else the least frontier of all peers, or the old watermark |
| Boundaries.RefusedWriteIsLost | src/storage/replicator.cpp:257-263 | the batch of a live write with its closing frontier, of which the peer refuses the write: sent again, the write is ignored while its writer shows it |
| Commands.GuardIsOverflow | src/core/commands.cpp:58-61 | the division in the guard refuses exactly the deadlines that leave the signed 64-bit range |
| Commands.ParseOptions | src/core/commands.cpp:46-65 | the option loop reads the options as their grammar does |
| Commands.OptionsIff | src/core/commands.cpp:46-65 | accepted are exactly an optional NX or XX and an optional EX or PX with a positive number whose deadline fits in 64 bits, in either order |
| Commands.OptionsMean | src/core/commands.cpp:49-63 | accepted options set NX and XX exactly when given, and the deadline to now plus that many seconds for EX, milliseconds for PX, or none |
| Commands.ParseExpire | src/core/commands.cpp:163-184 | the loop accepts exactly any mix of known options without a contradictory pair and a deadline that fits in 64 bits |
| Commands.Database.constructor | src/core/database.cpp:45 | a node started on an empty directory: nothing stored or heard, its first version, the wall clock, as clock and frontier, and a log that says what was done |
| Commands.Database.Lookup | src/core/database.cpp:167-187 | returns the record exactly while its deadline, if any, is not past; an expired one is erased and leaves no tombstone |
| Commands.Database.IssueVersion | src/core/hlc.h:24-27 | advances the clock to the issued version, which replay's normalisation leaves alone |
| Commands.Database.SetTombstone | src/core/crdt.cpp:64-70 | keeps the newest delete of a key and all other tombstones; nothing without peers or at the watermark and below |
| Commands.Database.HandleSet | src/core/commands.cpp:39-90 | refuses exactly bad options without any effect; nil, and nothing found, logged or issued differently, exactly with NX and the key found or XX and the key absent; otherwise the key is found with the value and deadline given under a version above the one replaced, every other key as before, and a log record that means what was done |
| Commands.Database.OverwrittenBy | src/core/commands.cpp:98-102 | the first loop finds the greatest version among the records and tombstones about to be replaced |
| Commands.Database.StorePairs | src/core/commands.cpp:104-115 | the second loop, after the lookups pruned expired keys, writes what writing all pairs to the original state gives |
| Commands.Database.HandleMset | src/core/commands.cpp:93-120 | each key is found with the last value given for it, without a deadline, under one version above all that were replaced unless one is at the maximum; every other key as before; one record |
| Commands.Database.HandleExpire | src/core/commands.cpp:157-206 | 1 exactly when the key is found and its old deadline passes NX, XX, GT, LT or PERSIST, no deadline counting as infinite; then a deadline to come leaves the key with its value under a newer version, a past one deletes it; 0 changes nothing found, logged or issued; unknown or contradictory options and deadlines out of 64 bits are refused |
| Commands.Database.HandleDel | src/core/commands.cpp:223-245 | none of the names is found any more, every other key as before; the reply is the number of distinct live keys named |
| Commands.RemoveAllFinds | src/core/commands.cpp:228-243 | after a DEL none of the names is found and every other key is as before |
| Commands.Database.IncomingVersion | src/core/crdt.cpp:27-42 | accepts exactly decimal versions of a 32-bit node that, in HLC format, are at most the allowed offset ahead of the wall clock, and only then observes them |
| Commands.Database.IsStale | src/core/crdt.cpp:44-50 | compares with the record, else the tombstone, else the watermark |
| Commands.Database.HandleCrdtMerge | src/core/crdt.cpp:124-156 | refused, changing nothing, exactly when malformed or too far in the future, so that the clock never passes the allowed offset by it; stale exactly when at or under the record found, else the tombstone, else the watermark; otherwise the key holds the value and version sent, with the deadline sent or the one in place |
| Commands.Database.HandleCrdtDel | src/core/crdt.cpp:11-25 | the same for deletes: the key is gone and its tombstone at or above the version sent; the record logged survives replay when its version is a fixed point |
| Commands.DeleteSurvivesReplay | src/core/persistence.cpp:191-196 | a replicated delete keeps its version through replay exactly when the version sent was 0 or at least 2^31 |
| Commands.Database.LowestFrontier | src/core/crdt.cpp:83-89 | the loop counts the other nodes heard and finds the least of their frontiers |
| Commands.Database.CollectTombstones | src/core/crdt.cpp:82-105 | the watermark becomes the least frontier of the other nodes exactly when as many as there are peers were heard, never goes back, and leaves exactly the tombstones above it |
| Commands.Database.Forget | src/core/crdt.cpp:93-104 | the erasing loop leaves exactly the tombstones above the watermark |
| Commands.Database.HandleReplFrontier | src/core/crdt.cpp:107-122 | the sender's frontier becomes the greater of old and new, every other stays, this node's own becomes a new version, nothing stored or logged changes, and the watermark follows; bad arguments change nothing |
| Commands.Database.ReplayRecord | src/core/persistence.cpp:135-200 | replays the record's meaning verbatim: no condition, staleness or relative deadline is evaluated again; an old deadline record changes only that deadline |
| Commands.Database.ReplayPairs | src/core/persistence.cpp:175-181 | one MSET record restores all its pairs with one version |
| Commands.Database.Startup | src/storage/aof_manager.cpp:360-477 | from a file read in any chunks and torn at its end: each key is as the log's last mutation of it says, its tombstone the newest logged delete above the watermark, the clock the greatest version |
| Commands.Database.DumpState | src/core/persistence.cpp:42-77 | the dump's records mean the unexpired keys first and the tombstones after, in any map order |
| Persistence.ExecLogsEffect | src/core/commands.cpp:85-87 | applying what a command logged to the old records gives its new records, for every command and time |
| Persistence.AgreeLog | src/core/persistence.cpp:141-146 | the last record about a key decides it, whatever snapshot the log is replayed over |
| Restart.ReplayMeaning | src/core/persistence.cpp:148-157 | replay rebuilds the records the log determines, with a clock above every logged version |
| Restart.ReplayedTombstone | src/core/persistence.cpp:191-196 | after replay into a node without tombstones, a key's tombstone is one of the log's deletes of it above the watermark, and at or above each of them |
| Restart.DeleteOutlivesRestart | src/core/crdt.cpp:44-50 | so a merge at or under any logged delete of a key found nowhere is still ignored after a restart |
| Restart.DumpRestoresTombs | src/core/persistence.cpp:71-75 | a dump replayed into an empty node restores every tombstone above the watermark with its version |
| Restart.DumpFaithful | src/core/persistence.cpp:42-77 | a dump in any order shows the state exactly when no unexpired key also has a tombstone |
| Restart.ReplayLeavesBothIff | src/core/persistence.cpp:149-157 | replay leaves a key with record and tombstone exactly when peers are configured, the log's last mutation of the key is a write, and another is a delete above the watermark |
| NodeLaws.ExecDisjoint | src/core/commands.cpp:75-78 | live commands never leave a key with both a record and a tombstone |
| Lifetime.ActInv | src/core/persistence.cpp:79-133 | while cold reads succeed: every command, expiry, wake with a readable, unreadable or corrupt snapshot, hibernation, fork, late or corrupt read by the child, commit, abort and restart keeps the invariant: the log shows each live key, nothing of one that a commit dropped, and forgotten keys, which went with a snapshot, are not live |
| Lifetime.RestartNeverInvents | src/core/persistence.cpp:135-200 | while cold reads succeed: over any number of process lifetimes, whatever was read late, dropped or could not be read, each key that a restart shows is live with that value, deadline and version, or went with an unreadable snapshot and was not logged since |
| Lifetime.RestartShowsLiveIff | src/core/persistence.cpp:135-200 | while cold reads succeed: a restart shows exactly the live keys if and only if each visible key that a commit dropped is kept by a snapshot and not mentioned by the log, and no key that went with an unreadable snapshot is still shown by the log or a snapshot |
| Lifetime.RestartShowsLive | src/core/persistence.cpp:135-200 | while cold reads succeed: so it does after every run in which no commit dropped a visible key and no snapshot was unreadable, at every later time, with values, deadlines and versions |
| Lifetime.SpliceShowsLiveIff | src/core/persistence.cpp:42-77 | while cold reads succeed: within one process lifetime the dump followed by the records since the fork shows the live store if and only if every visible key of a room asleep at the fork is in the snapshot that the child read, or was logged since, and no forgotten key is shown |
| Lifetime.LateReadLoses | src/core/persistence.cpp:55-63 | a run that loses any key outside the pinned room: its room sleeps, the rewrite forks, the room wakes, the key is evicted, the room sleeps again, and only then the child reads its snapshot |
| Lifetime.UnreadableWakeResurrects | src/core/rooms.cpp:33-35 | a run that forgets any key outside the pinned room: its room sleeps, and wakes with an unreadable or corrupt snapshot; the key is not live, and a restart shows it |
| Lifetime.RewriteAfterRestartLoses | src/core/persistence.cpp:71-75 | a run that loses any key: SET, DEL, SET, restart, rewrite |
| Decimal.ReadU64 | src/storage/fs_util.h:81-92 | the digit loop accepts exactly the non-empty digit strings that fit in 64 bits, and computes their value |
| Decimal.U64RoundTrip | src/storage/fs_util.h:80-92 | every unsigned 64-bit number survives printing and parsing |
| Decimal.I64Iff | src/storage/fs_util.h:94-107 | a signed number is read exactly from decimal digits after a minus sign or nothing, within 64 bits |
| Decimal.I64RoundTrip | src/storage/fs_util.h:94-107 | every signed 64-bit number does, the most negative one included |
| Resp.Parse | src/core/resp.h:25-59 | the offset-advancing loops compute the pure parse of the bytes from the offset on |
| Resp.ParseBody | src/core/resp.h:47-58 | the loop over bulk strings reads exactly the announced number, or stops at the first short or malformed one |
| Resp.ParseStable | src/core/resp.h:22-24 | a complete or malformed verdict never changes when bytes are appended |
| Resp.RoundTrip | src/storage/replicator.cpp:37-41 | an encoded in-limit list followed by any bytes parses to itself and ends exactly at its end |
| Resp.RoundTripIff | src/core/resp.h:18-19 | an encoded list is read back exactly when it is within the limits |
| Resp.OverLimitRejected | src/core/resp.h:18-19 | a list over the limits is rejected, whatever bytes follow it, and not awaited |
| Resp.StrictPrefixNeedsMore | src/core/resp.h:22-24 | every strict prefix of an encoding asks for more |
| Resp.CutNeedsMore | src/core/resp.h:22-24 | so does a cut anywhere inside any complete command, however it was encoded |
| Grammar.AcceptsIff | src/core/resp.h:25-59 | the parser accepts exactly the arrays of the grammar: a count, then each argument with its length, numbers in at most 32 bytes with leading zeros allowed, within the limits |
| Grammar.BrokenRejected | src/core/resp.h:25-59 | whatever follows, too large a count, and anything but a bulk string after the count and any arguments, is refused at once |
| Grammar.NotAnArray | src/core/resp.h:25-40 | bytes that do not start as an array, or start with 32 bytes without a line end, are refused at once |
| Inline.NextWord | src/core/resp.h:77-107 | the quote-state loop reads one argument, or reports unbalanced quotes |
| Inline.SplitInline | src/core/resp.h:67-110 | the loops split a line into its arguments, or refuse it |
| Inline.LineRoundTrip | src/core/resp.h:63-66 | every list of arguments, whatever bytes they hold, is the meaning of a line without line breaks |
| Inline.SpelledLine | src/core/resp.h:67-110 | however its words are spelled and spaced, a line is split into their values; bare, single-quoted, double-quoted and mixed words are such spellings |
| Inline.BareWord | src/core/resp.h:77-83 | characters other than spaces and quotes stand for themselves |
| Inline.BareThenQuoted | src/core/resp.h:80-84 | a word may start bare and end in double quotes |
| Inline.SingleQuoted | src/core/resp.h:85-92 | single quotes keep every character but a quote and a backslash as it is |
| Inline.EscapesMean | src/core/resp.h:88-101 | the five letter escapes, other escaped characters, and the one escape of single quotes |
| Inline.HexMeans | src/core/resp.h:93-97 | a byte by its two hexadecimal digits |
| Inline.BadQuotesRefused | src/core/resp.h:83-106 | a quote left open, or closed before anything but a space, makes the line refused |
| Connection.ParseRequest | src/core/resp.h:114-129 | an array or a line within the window, from the offset on |
| Connection.RequestStable | src/core/resp.h:112-129 | a verdict on a request, array or inline, never changes when bytes are appended |
| Connection.InlineRoundTrip | src/core/resp.h:117-128 | a quoted line ended by LF is the request it was made from, and ends right after it |
| Connection.InlineLine | src/core/resp.h:117-128 | a line ended by LF or CRLF is its arguments, or refused for its quotes; without an end it is awaited below 65536 bytes and refused from there on |
| Connection.OneRequest | src/net/connection.cpp:144-149 | an array request closes the connection exactly when it is QUIT alone, in any case; any other is run and the stream goes on |
| Connection.Client.Receive | src/net/connection.cpp:175-180 | bytes in any pieces extend the stream that the run commands and the leftover account for |
| Connection.Client.Turn | src/net/connection.cpp:129-173 | a turn runs the next commands in order, at most 8192; it drops exactly on QUIT or a protocol error, and is done only when the rest is incomplete |
| Connection.Client.RunsTheStream | src/net/connection.cpp:129-173 | under every split into reads and turns, the commands run are those of parsing the whole stream up to the first QUIT, malformed or incomplete request |
| AofCodec.RecordRoundTrip | src/storage/aof_manager.cpp:110-127 | a version 3 record survives the file: its tokens, its end, and the record built from them |
| AofCodec.BuildRoundTrip | src/storage/aof_manager.cpp:32-61 | the record built from a record's tokens is that record, for every signed deadline |
| AofCodec.HeaderParses | src/storage/aof_manager.cpp:19-22 | the header literal is the array of the magic token and version 3 |
| Recovery.RecoverFile | src/storage/aof_manager.cpp:400-471 | under every chunking of every file, the fill-and-parse loop replays, truncates or sets aside as one-shot recovery of the whole file |
| Recovery.RecoverExact | src/storage/aof_manager.cpp:422-437 | a header, complete records and a torn tail: exactly those records are replayed, in order, and the file is cut exactly after the last |
| Recovery.CutPoint | src/storage/aof_manager.cpp:430-433 | a cut anywhere in the records leaves some whole records and a strict prefix of the next |
| Formats.OldLogRead | src/storage/aof_manager.cpp:440-469 | a file of version 1 or 2 is replayed whole, in the format that its first array shows |
| Formats.RecordIff | src/storage/aof_manager.cpp:32-61 | after the header an array is a record exactly when its last tokens are the meta token, a deadline, a version and a 32-bit node; its fields stand in this order |
| Formats.OtherVersionRefused | src/storage/aof_manager.cpp:443-452 | a header of another version is refused |
| Canonical.ShortestLog | src/storage/aof_manager.cpp:110-127 | what recovery reads, over any bytes, is at least as long as the encoding of the records it returns, and no longer only if it is that encoding |
| LogFiles.HeadedIff | src/storage/aof_manager.cpp:400-471 | whatever bytes of the right length follow the header, recovery returns given records and cuts after them if and only if those bytes are their encoding, all are within the parser's limits, and the rest asks for more |
| LogFiles.HeadlessIff | src/storage/aof_manager.cpp:440-469 | with part of a header or none before them, recovery returns given records if and only if there are none and the bytes that are there ask for more |
| LogFiles.HeadlessMisread | src/storage/aof_manager.cpp:440-469 | records appended to a file without a header are never read back as they were written |
| FileIo.WriteAll | src/storage/fs_util.h:19-33 | retries partial and interrupted writes; reports exactly how many bytes reached the file |
| FileIo.DeliversAll | src/storage/fs_util.h:19-33 | as long as no call fails, the bytes delivered are those the calls took, interruptions taking none, up to the length |
| FileIo.FailureStops | src/storage/fs_util.h:19-33 | nothing more is delivered once a call fails or takes nothing |
| AofFile.AofManager.constructor | src/storage/aof_manager.cpp:237-290 | a new file gets its header exactly when it opens, its size can be read and the write completes; a partial header stays exactly when its cut fails too; the log is open when the header was synced, or the size could not be read; the process goes on in every case |
| AofFile.AofManager.Append | src/storage/aof_manager.cpp:293-358 | for every record, over the parser's limits or not: answers true exactly when the write completes (and, under always, the sync); a record is completed exactly then; torn appends stay blocked; under always a true answer leaves everything the process knows of synced; whether the file holds the completed records does not change |
| AofFile.AofManager.Written | src/storage/aof_manager.cpp:339-357 | the file is the completed records, one more than before |
| AofFile.AofManager.CutShort | src/storage/aof_manager.cpp:320-338 | a partial write is cut off again, or stays as the last bytes of the file and blocks appends |
| AofFile.AofManager.StartSync | src/storage/aof_manager.cpp:198-202 | the worker captures generation, size and file under the lock |
| AofFile.AofManager.FinishSync | src/storage/aof_manager.cpp:205-228 | a completion moves the synced prefix only forward, only to what it captured, and not at all under another generation |
| AofFile.AofManager.StartRewrite | src/storage/aof_manager.cpp:479-497 | the temporary file starts with the header, and the fork's place in the log is remembered |
| AofFile.AofManager.DumpRecord | src/storage/aof_manager.cpp:499-508 | the temporary file is always the dump so far |
| AofFile.AofManager.CopyTail | src/storage/aof_manager.cpp:525-543 | the block loop appends exactly the bytes from the fork's offset to the size that the process knows, or fails exactly when one of its blocks does |
| AofFile.AofManager.CommitRewrite | src/storage/aof_manager.cpp:545-598 | from every valid state: the file is swapped exactly when every block was copied and the sync, the close and the rename succeed, and otherwise nothing of the log changes; the new file is the dump and the copied bytes, and holds the later records if and only if those bytes are they, in particular when the process knew the file's size or nothing was appended since the fork; it knows the new size exactly when that could be read |
| AofFile.AofManager.Swap | src/storage/aof_manager.cpp:572-597 | after the rename the new file is durable and unblocked under a new generation, even if it cannot be reopened or its size is unknown |
| AofFile.AofManager.AbortRewrite | src/storage/aof_manager.cpp:510-523 | abandoning a rewrite leaves the log as it was |
| AofFile.AofManager.RecoversCompletedIff | src/storage/aof_manager.cpp:360-477 | whatever partial writes, failed cuts, unknown sizes, reopenings and rewrites happened: recovery returns exactly the records whose write completed, and cuts exactly the torn bytes of a headed file, if and only if the file got its header, holds them, all within the parser's limits, and the torn bytes ask for more; or it got no whole header, and holds no complete record and only bytes that ask for more |
| AofFile.FailedSizeLoses | src/storage/aof_manager.cpp:531-549 | a run that loses any record within the parser's limits: a commit that cannot read the size, another rewrite, an acknowledged append, a commit that succeeds; recovery sets the file aside and returns nothing |
| AofFile.AofManager.SurvivesPowerLoss | src/storage/aof_manager.cpp:182-235 | in a file that holds its header and the completed records, all within the parser's limits: if only the durable bytes and any part of the rest survive, recovery returns a prefix of the completed records that misses none within the synced offset |
| Wire.AcknowledgedAtHome | src/storage/replicator.cpp:214-222 | a write among the leading positive replies ran in its record's own room |
| Wire.RanAtHomeIff | src/storage/replicator.cpp:214-222 | for every batch and every replies, a write ran in its record's room if and only if the last positively answered selection before it names that room, or none was and the connection started there |
| Wire.RefusedSelectionMisdirects | src/storage/replicator.cpp:275-276 | the planned batch of any local record, its selection refused: all its writes are acknowledged in the room the connection started in |
| Wire.PlanTracks | src/storage/replicator.cpp:194-237 | in every batch each write follows a selection of its record's room, and each mark counts all writes of the records before it |
| Wire.PlanNeeded | src/storage/replicator.cpp:213-222 | a room is selected only where another one, or none that is known, was selected, and right before a write of a record of that room |
| Shipping.ScanFrom | src/storage/replicator.cpp:205-206 | reading any length from a record boundary finds exactly the records that fit, with their boundaries |
| Shipping.BatchParses | src/storage/replicator.cpp:37-41 | the peer parses the bytes of a batch into exactly its commands, in order |
| Shipping.AddArray | src/storage/replicator.cpp:207-233 | the pair loop queues the merges or the delete of one local record, and nothing for headers and foreign records |
| Shipping.Build | src/storage/replicator.cpp:198-237 | the parse loop builds the planned batch of every complete array in the buffer, and reports a malformed start |
| Shipping.Deliver | src/storage/replicator.cpp:312-337 | however replies are fragmented, the peer is alive exactly when all arrive, and acknowledged are exactly the leading positive ones |
| Shipping.RepliesMean | src/storage/replicator.cpp:320-335 | a reply is a line, positive exactly when it starts with a plus sign; an unfinished line is no reply |
| Shipping.Advance | src/storage/replicator.cpp:279-282 | the offset stops before the first record with an unacknowledged write |
| Shipping.Peer.ReadBatch | src/storage/replicator.cpp:189-244 | a batch of at most 4 MiB, or the whole rest exactly when these hold no complete record |
| Shipping.Peer.Locate | src/storage/replicator.cpp:170-175 | another or a shorter file is shipped from its start |
| Shipping.Peer.Exchange | src/storage/replicator.cpp:257-274 | sends the batch, closed exactly at the end of the log by REPLFRONTIER with this node's id and then its frontier, or a lone PING in place of nothing; a broken connection acknowledges nothing |
| Shipping.Peer.Settle | src/storage/replicator.cpp:276-282 | the room known and the offset after the replies keep the shipping invariant |
| Shipping.Peer.Ship | src/storage/replicator.cpp:159-286 | the offset stands on a record boundary; every local record before it was acknowledged in its own room; the lines sent are the batch of the arrays from the offset on, and this node's frontier closes it exactly when it ends at the end of the file, whatever the replies; the offset moves over the whole batch exactly when every write was acknowledged; a round without failures moves past a complete record |
| WireMeaning.ShippedMeansLogged | src/storage/replicator.cpp:223-231 | the commands of a local record, received by a peer, are its own mutations one for one: keys, values, deadlines and versions |
| WireMeaning.LogIsArrays | src/storage/aof_manager.cpp:110-127 | the file that appends leave is the header and the tokens of its records, as shipping reads it |
| ShippedLog.BatchIsShipped | src/storage/replicator.cpp:205-234 | the writes of a batch read from the file are, in order, the merges that the replication model ships for those records, and the peer reads each as that merge whatever it holds |
| ShippedLog.BatchIsReadLog | src/storage/replicator.cpp:159-263 | so a batch is the model's reading of the log: the same queue, closed by the frontier exactly at the end of the log |
| ShippedLog.ShipRound | src/storage/replicator.cpp:159-286 | a round in which the file is read sends, line by line, the queue of the model's ReadLog at the peer's offset, its closing frontier included, and fully acknowledged leaves the offset where the model's Acknowledge puts it |
| ShippedLog.AcknowledgeMoves | src/storage/replicator.cpp:278-284 | acknowledging a batch moves that link's offset, and no other, to the place up to which it was read |
| ShippedLog.Execute | src/core/crdt.cpp:107-156 | executing a line at a peer, a write or a closing frontier, takes the step of the command it denotes and is answered positively |
| ByteCodec.I64RoundTrip | src/storage/eviction_manager.cpp:19-34 | a signed 64-bit field survives its eight little-endian bytes |
| ColdFile.ColdRoundTrip | src/storage/eviction_manager.cpp:19-34 | a record with its deadline and version survives the cold file's format |
| ColdFile.ColdLayout | src/storage/eviction_manager.cpp:19-34 | deadline, timestamp and node are little-endian in this order, the deadline in two's complement, and the value follows |
| ColdFile.ColdTorn | src/storage/fs_util.h:35-49 | a partial write at the logical end leaves every live record readable |
| ColdFile.ColdEvict | src/storage/eviction_manager.cpp:86-95 | a complete write adds one extent apart from all others, and bytes stay conserved |
| ColdFile.ColdReplace | src/storage/eviction_manager.cpp:94-95 | over an index entry that the key still had, the old extent's bytes are neither live nor obsolete |
| ColdFile.ColdTake | src/storage/eviction_manager.cpp:120-124 | a taken key's bytes become obsolete, and file bytes stay obsolete plus live |
| Memory.TotalIsSum | src/core/room.h:42-52 | the process total is the sum of the rooms' bytes |
| Memory.ChargedChange | src/core/database.cpp:197-200 | charging the change of a value's size keeps every total exact |
| Memory.ChargedWake | src/core/rooms.cpp:35-47 | charging a woken room its keys' cost keeps every total exact |
| Memory.ChargedSleep | src/core/rooms.cpp:55-63 | refunding a hibernated room does |
| Tiers.FailedReadResurfaces | src/storage/eviction_manager.cpp:113-118 | a run that brings any deleted key back: written, evicted, written again while its cold read fails, deleted, and looked up |
| Tiers.Store.constructor | src/storage/eviction_manager.cpp:37-44 | empty tiers with an empty cold file |
| Tiers.Store.Lookup | src/core/database.cpp:167-187 | the resident record, else the cold one if it can be read; with every key in one tier and a successful read, the last record written, and only an expired one is dropped |
| Tiers.Store.Insert | src/core/database.cpp:189-195 | a blank record for an absent key, charged |
| Tiers.Store.Update | src/core/database.cpp:197-200 | changes a resident record and its charge |
| Tiers.Store.Erase | src/core/database.cpp:202-207 | removes a resident record and its charge |
| Tiers.Store.Write | src/core/commands.cpp:72-82 | the map maps the key to the new record and nothing else changes, wherever the key was; every key stays in one tier if and only if this one was not in the cold index or could be read |
| Tiers.Store.Delete | src/core/commands.cpp:231-243 | the key is gone from every tier if and only if the cold index does not hold it, or holds it alone and it could be read; otherwise the old cold record shows |
| Tiers.Store.Take | src/storage/eviction_manager.cpp:105-125 | the record read back is the one evicted; a failed read reports the key absent and keeps its index entry |
| Tiers.Store.EvictOne | src/storage/eviction_manager.cpp:85-100 | moves one record between tiers if its write completes, and otherwise leaves the map and the charges alone; bytes leak only over an index entry that a failed read left |
| Tiers.Store.Evict | src/storage/eviction_manager.cpp:55-103 | for any victims and any partial writes the map is unchanged, only records of the room move, and the room ends empty, or with at most the allowed keys and the process within the memory limit, or with a failed write; the last record moved had to go; it fails only when a write does |
| Tiers.Store.CleanExpired | src/core/commands.cpp:271-285 | exactly the expired resident keys go |
| Tiers.Store.KeysCost | src/core/room.h:48-52 | the loop sums the costs of the loaded keys |
| Tiers.Store.Activate | src/core/rooms.cpp:22-49 | waking from a readable snapshot keeps the map, an unreadable one wakes the room empty; a refusal, exactly when the room would not fit, changes nothing |
| Tiers.Store.Hibernate | src/core/rooms.cpp:51-66 | hibernating keeps the map and frees the room's charge; a failed snapshot changes nothing |
| Tiers.Store.CopyLive | src/storage/eviction_manager.cpp:147-162 | the copy loop, in any order, holds exactly the unexpired records |
| Tiers.Store.Compact | src/storage/eviction_manager.cpp:140-180 | success keeps every unexpired record and reclaims exactly the obsolete bytes and the expired lengths; a failure changes nothing |
| Snapshot.Wakeup | src/storage/snapshot_manager.cpp:59-167 | on arbitrary bytes the loading loop ends inside the data; the room is replaced by a complete load and untouched otherwise |
| Snapshot.SaveRoom | src/storage/snapshot_manager.cpp:183-219 | the writing loops, field by field through a flushed buffer, put the whole snapshot into the file, or fail, and do not fail when writes succeed |
| Snapshot.HibernateRoom | src/storage/snapshot_manager.cpp:169-244 | after write, sync, close and rename the new snapshot is in place and the keys are freed; any failure leaves the old file and the keys |
| Snapshot.SnapshotRoundTrip | src/storage/snapshot_manager.cpp:40-167 | a written snapshot restores every key, value and deadline, and versions in HLC format; every strict prefix is rejected |
| Snapshot.HeaderLayout | src/storage/snapshot_manager.cpp:203-205 | the magic, version 2 and the number of records, little-endian |
| Snapshot.EntryLayout | src/storage/snapshot_manager.cpp:207-216 | key and value each with its length, then deadline, timestamp and node, little-endian |
| Snapshot.RestoredIff | src/storage/snapshot_manager.cpp:135-137 | the records come back unchanged exactly when every version is 0 or at least 2^47 |
| Rooms.SlotsHold | src/core/rooms.cpp:22-66 | in every interleaving of activations, refusals, failed snapshots and hibernations the rooms not asleep are at most the counter, outside recovery the counter is at most 3, and at rest it is the number of active rooms |
| Rooms.StepCounts | src/core/rooms.cpp:28-42 | every atomic step keeps the counter equal to the slots held |
| Rooms.ActivationIff | src/core/rooms.cpp:26-31 | undisturbed, an activation takes a slot exactly when fewer than 3 are taken or it may ignore the budget, as recovery does; a refusal changes nothing |
| Rooms.SlotsComeBack | src/core/rooms.cpp:36-65 | a lost race only makes the swap try again; a room that does not fit, or goes to sleep, gives its slot back, and a failed snapshot keeps it |

## Left out

- Wall clock: a command reads the clock once here; the source reads it again for each lookup and for EXPIRE's version.
- NodeLaws.VersionOrder: holds for runs in which no record expires; `Expiry.VersionOrderIff` covers those in which records do.
- Replication.ForgettingIsUnobservable: holds for runs in which no record expires and no clock reaches 2^64 - 1, within one process lifetime and with append-only logs, because frontiers, watermark and collected tombstones do not survive a restart.
- Convergence.Converges: holds under the same conditions and for MSETs without repeated keys; `Duplicates.AgreeIff` says what repeated ones do.
- Source of merges: in `Cluster`, merges and frontiers come only from replication, never from clients.
- Error replies inside a batch: a peer may hear a frontier although an earlier merge of the batch was refused, because the frontier is pipelined behind it (`Boundaries.LateWriteIgnoredIff`); the `Cluster` runs have positive replies only.
- Commands.Database.HandleCrdtDel: promises a faithful log record only for versions that are fixed points of normalisation, as `Commands.DeleteSurvivesReplay` makes exact.
- Error texts: replies are modelled by kind, not by wording; GET, MGET, EXISTS, TTL and INFO would only add easy members.
- Room and key maps: the nested maps per room are one map keyed by room and name; hash order is any order.
- AofFile.AofManager.constructor: starts from a new file; reopening an existing one counts its whole size as synced without syncing it (`src/storage/aof_manager.cpp:274-279`), so the durable prefix is not claimed across a restart.
- Lifetime.ActInv: takes every read of the cold file as successful; `Tiers.FailedReadResurfaces` is a run with a failed one, after which a deleted key is found again.
- Lifetime.RestartNeverInvents: the same.
- Lifetime.RestartShowsLiveIff: the same.
- Lifetime.RestartShowsLive: the same.
- Lifetime.SpliceShowsLiveIff: the same, and only in runs without a restart, since replay can leave both a record and a tombstone (`Restart.ReplayLeavesBothIff`).
- Appends during recovery: the source refuses them until the replay is over; the model has no such phase.
- Old formats: version 1 snapshots are in `Snapshot.Load`, but no round trip is stated for them; renaming corrupt files is not modelled.
- Tiers.Store.Activate: leaves an unreadable snapshot file in place; the source renames a corrupt one.
- Shipping.Peer.Ship: takes an inode as identifying a file whose log only grows; a reused inode at a misaligned offset restarts from 0, which is modelled but not claimed to deliver everything. TLS, authentication, back-off, the saved offset file and failure detection are not modelled.
- Threads and locks: a critical section is one atomic step. The child of a fork is the memory of the fork, plus one read of each sleeping room's snapshot at any later time; its reads of the cold file, whose live extents are never overwritten, are taken as of the fork.
- Buffer caps: connections stay below their input and output caps; AUTH and HELLO count as commands run.
- The count-min sketch and random sampling (any resident key may be the victim), Pub/Sub, the pool allocator, metrics, the event loop and configuration are not modelled.
