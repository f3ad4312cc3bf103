# Verified models of the server core

Machine-checked Dafny models of seven parts of the vendored Redis server (version 8.6.1, under
`backend/redis-stable/src`). Run `dafny verify dfyconfig.toml` in this directory.

- **Atomic slot migration** (`asm_*.dfy`; `cluster_asm.c`). Two nodes, a snapshot channel, a command stream, offset
  acknowledgements, a write pause and trim queues form a transition system; failures, timeouts, disconnections and
  client commands are free choices of the environment. The handlers are also given as methods on task objects, and a whole run
  is driven through them.
- **ACL selectors** (`acl_*.dfy`; `acl.c`). The command bitmap, the allowed first arguments and the rule text that is edited in
  place; replaying the text rebuilds the rest, and exactly when it does not. What each rule means, key and channel patterns, and the
  quoting of arguments.
- **Append only file** (`aof_*.dfy`; `aof.c`). The manifest through rewrites, failures and starts, with crashes
  between any two disk operations; the command encoder and the loader; and both together, file by file.
- **Bit operations** (`bits_*.dfy`; `bitops.c`). Popcount, bit search, BITOP, bitfields and their overflow arithmetic, in
  8-, 32- and 64-bit machine words, against definitions bit by bit.
- **Blocking keys** (`blocked_*.dfy`; `blocked.c`). The index of clients blocked on keys and the service of ready keys.
- **Background workers** (`bio_*.dfy`; `bio.c`). Queues, condition variables, completion requests and the wake-up pipe under free
  interleaving.
- **Lists and slot ranges** (`adlist.dfy`, `slot_*.dfy`; `adlist.c`, `cluster.c`). Heap-level doubly linked lists that refine
  sequences, and the canonical form of slot range arrays.

Where the code and its comments or expectations differ, the model follows the code:

- The acknowledged migration offset can pass the source's offset: bytes of a command that straddles the end of the sync
  buffer are counted in the applied offset and again with the whole command (`AckOvershootsIffSplit`).
- A log whose last write was cut inside an annotation is not truncated by the loader; a command that is appended behind it
  without an annotation loses its header, and the next start refuses the file (`ResumedIff`, `CutAnnotationCorrupts`).
- Trimming is meant for slots of other nodes, but an import that has not begun when its node comes to own the slots is
  cancelled, which schedules them, and their keys are deleted (`OwnedKeyIsTrimmed`; `StartVerdict` has the exact condition).
- An accepted first argument with a blank or a quote is not rebuilt from the rule text (`RebuiltIffPlain`). Plainness is
  sufficient for the description not to panic and not necessary: such an argument can make the assertion fail
  (`AssertionIsReachable`), make the bitmaps differ (`PanicIsReachable`), or be printed although it is read back as another
  argument (`QuoteIsPrinted`); `PrintedIff` has the exact conditions.
- A start with AOF enabled can append to a file that is waiting to be deleted, delete the file it has just created, or adopt
  a file no manifest names (`StartIffSafe` has the exact condition; `HistoryFileReopened`, `NewFileDeleted` and
  `OrphanAdopted` reach the failing cases, all of them after AOF was off or being switched on).
- Saturating a SET value near the least 64-bit integer gives the greatest value of the field (`SaturationExact`), and the
  overflow checks return 1 also for a wrapped underflow, unlike their comment.
- Merging runs before validation, so ranges with their start above their end can be accepted, slots can be lost, and the
  verdict can depend on how the sort leaves equal starts (`AcceptedIff`, `KeepsAllIff`, `VerdictDependsOnTies`).

## Model

| member | source | states |
|---|---|---|
| AsmTheorems.MigrationIsExact | backend/redis-stable/src/cluster_asm.c:714-793 | In every run, when the import task stands in TAKEOVER its node holds in the migrated slots exactly what the source held when it sent STREAM-EOF, and still what the source holds while the source keeps its write pause |
| AsmTheorems.ImportIsUndisturbed | backend/redis-stable/src/cluster_asm.c:1745-1829 | In every run, from CONNECTING to TAKEOVER the destination owns none of the imported slots and no pending or active trim job touches them, and it holds no key in them during the handshake |
| AsmTheorems.HandoffFollowsSnapshot | backend/redis-stable/src/cluster_asm.c:2043-2094 | In every run the source is in HANDOFF_PREP or later only if the destination has received the whole snapshot since the source last accepted a SYNC |
| AsmTheorems.AckBound | backend/redis-stable/src/cluster_asm.c:1611-1626 | In every run the offset the source has seen acknowledged exceeds its own by at most what had been parsed of a command when the sync buffer last ran dry on a live connection since the source accepted a SYNC, read off the events of the run |
| AsmTheorems.AckOvershootsIffSplit | backend/redis-stable/src/cluster_asm.c:2475-2500 | While the destination executes the stream its offset is the bytes executed and the bytes of the command that straddled the end of the sync buffer, read off the events of the run; it passes the source's offset if and only if more bytes straddled than are still to be executed |
| AsmTheorems.OvershootAndTakeoverAreReachable | backend/redis-stable/src/cluster_asm.c:2433-2500 | A concrete run in which the acknowledged offset passes the source offset, and one that ends in TAKEOVER with data |
| AsmTheorems.AckNeverDecreases | backend/redis-stable/src/cluster_asm.c:2043-2094 | As long as the source accepts no new connection, the acknowledged offset never decreases, over any run |
| AsmTheorems.RunKeepsInv | backend/redis-stable/src/cluster_asm.c:2541-2662 | Every run of both nodes keeps the invariant that ties tasks, trim queues, channels, offsets and contents together |
| AsmSafety.SrcFeedInv | backend/redis-stable/src/cluster_asm.c:723-793 | Feeding a command to the migration keeps the whole invariant: stream, unsent bytes and source offset stay in step |
| AsmSafety.SrcSnapshotStartInv | backend/redis-stable/src/cluster_asm.c:1630-1647 | Starting the snapshot and the command stream at the same moment keeps the invariant |
| AsmSafety.SrcSendEofInv | backend/redis-stable/src/cluster_asm.c:2502-2539 | Sending STREAM-EOF after the pause freezes the content the destination has to reach |
| AsmSafety.SrcBeforeSleepInv | backend/redis-stable/src/cluster_asm.c:2541-2583 | Cancelling a task that saw a cross-slot command, timing out or sending STREAM-EOF keeps the invariant |
| AsmSafety.DstExecuteInv | backend/redis-stable/src/cluster_asm.c:2433-2500 | Executing one fed message keeps the destination's content equal to the snapshot plus the messages so far |
| AsmSafety.DstStreamDoneInv | backend/redis-stable/src/cluster_asm.c:2459-2485 | Leaving the buffer (to TAKEOVER or to WAIT_STREAM_EOF) keeps the invariant, including the offset that is acknowledged |
| AsmSafety.DstItemInv | backend/redis-stable/src/cluster_asm.c:1630-1670 | A RESTORE of the snapshot keeps the destination's content equal to the first items of the snapshot |
| AsmSafety.LeftoversAreScheduled | backend/redis-stable/src/cluster_asm.c:3079-3109 | After asmTrimSlotsIfNotOwned every slot that is not owned and holds keys is in some trim job |
| AsmSafety.StartIsClean | backend/redis-stable/src/cluster_asm.c:1745-1829 | An import that reaches CONNECTING finds no key in its slots, owns none of them, and no trim job overlaps them |
| AsmKeyspace.SnapshotRestores | backend/redis-stable/src/cluster_asm.c:2256-2359 | A complete snapshot applied to empty slots rebuilds the source's slots |
| AsmKeyspace.RestoredToKeys | backend/redis-stable/src/cluster_asm.c:2172-2215 | After any number of snapshot items a slot holds exactly the keys listed so far, with the source's values |
| AsmKeyspace.ReplayToAppend | backend/redis-stable/src/cluster_asm.c:723-793 | Feeding one more message does not change what the earlier ones replay to |
| AsmTasks.SaveSnapshot | backend/redis-stable/src/cluster_asm.c:2256-2359 | The loop over slots and keys lists every key of the slots once, with its value, and nothing else |
| AsmTasks.MigrateTask.Write | backend/redis-stable/src/cluster_asm.c:723-793 | The write handler takes the protocol's step and puts exactly the protocol's messages on the channel |
| AsmTasks.MigrateTask.ReceiveAck | backend/redis-stable/src/cluster_asm.c:2043-2094 | The ACK handler takes the protocol's step, never lowers the offset, and reaches HANDOFF_PREP only within the allowed lag |
| AsmTasks.MigrateTask.BeforeSleep | backend/redis-stable/src/cluster_asm.c:2541-2583 | The before-sleep handler takes the protocol's step and emits STREAM-EOF exactly when the protocol does |
| AsmTasks.ImportTask.Start | backend/redis-stable/src/cluster_asm.c:1745-1829 | The start handler takes the protocol's step on the task and on the node's trim queue |
| AsmTasks.ImportTask.TrimSlotsIfNotOwned | backend/redis-stable/src/cluster_asm.c:3079-3109 | The loop schedules exactly the slots that are not owned, hold keys and are in no job yet |
| AsmTasks.ImportTask.TrimJobProcessPending | backend/redis-stable/src/cluster_asm.c:3027-3077 | No job stays pending. With active trimming the jobs join the active ones in order and no key goes; otherwise exactly the slots of the jobs are emptied at once, all other slots keep their keys, and the active jobs stay |
| AsmCluster.Cluster.Play | backend/redis-stable/src/cluster_asm.c:2433-2583 | Every event of a run is handled by the methods of the two tasks and the connection; the invariant holds throughout, and a destination in TAKEOVER holds what the source held at STREAM-EOF |
| AsmCluster.Cluster.SourceWrites | backend/redis-stable/src/cluster_asm.c:723-793 | What the write handler puts into its client is what enters the stream on the connection |
| AsmCluster.Cluster.SourceBeforeSleep | backend/redis-stable/src/cluster_asm.c:2541-2583 | STREAM-EOF leaves on the connection exactly when the task emits it, and a cancelled or timed out task drops the connection |
| AsmCluster.Cluster.DestinationExecutes | backend/redis-stable/src/cluster_asm.c:1714-1743 | The next message of the stream is parsed to its end and executed, and STREAM-EOF after the buffer ends the connection |
| AsmTrim.PendingTrims | backend/redis-stable/src/cluster_asm.c:3027-3075 | The same for the protocol's step, slot by slot, with everything else about the node unchanged |
| AsmTrim.TrimmedIsEmpty | backend/redis-stable/src/cluster_asm.c:3458-3537 | In every run without cancelled trim jobs: when the last trim job of a slot that the node does not own in the meantime is done, the slot is empty, whatever imports, snapshots, streams and client writes happened |
| AsmTrim.FailedImportIsErased | backend/redis-stable/src/cluster_asm.c:1131-1136 | From any run to the failure or cancellation of an active import: each of its slots is empty as soon as trimming it is done, unless the node gets to own it first or trimming is cancelled |
| AsmTrim.LeftoversAreErased | backend/redis-stable/src/cluster_asm.c:3079-3109 | The same for keys that a start finds in slots the node does not own |
| AsmTrim.TrimCanFinish | backend/redis-stable/src/cluster_asm.c:3458-3537 | When writes are not paused some run of trim steps alone empties the slots of all jobs, leaves every other slot as it is, and ends without jobs |
| AsmTrim.OwnedKeyIsTrimmed | backend/redis-stable/src/cluster_asm.c:1791-1802 | A run in which a node deletes a key of a slot it owns: it has come to own the slot of an import that has not begun, and cancelling that import schedules the trim |
| AsmImport.StartVerdict | backend/redis-stable/src/cluster_asm.c:1745-1829 | A start connects if and only if no slot is owned, holds keys or is in a trim job, writes are not paused, nobody objects and the slots have one owner; it is cancelled if only the owners are against it, and tries again otherwise; a slot the node owns is scheduled for trimming if and only if nothing else was against the start |
| AsmImport.StagesInOrder | backend/redis-stable/src/cluster_asm.c:1455-1600 | In every run an import that has come to a stage has gone through all stages before it, except that STREAM-EOF in the buffer skips WAIT_STREAM_EOF |
| AsmImport.StageStep | backend/redis-stable/src/cluster_asm.c:1455-1600 | No event skips a stage, and a step of the handshake that waits for no answer advances by one |
| AsmImport.ResetIsFresh | backend/redis-stable/src/cluster_asm.c:316-333 | A second attempt begins with no state, offset or connection of the first |
| AsmImport.NoItemIsRefused | backend/redis-stable/src/cluster_asm.c:2172-2215 | In every run a RESTORE of the snapshot finds its key absent, and its slot gains exactly this key |
| AsmImport.ParseConsumes | backend/redis-stable/src/cluster_asm.c:2433-2500 | Parsing takes exactly its bytes off the stream, and out of the sync buffer while there is one |
| AsmImport.ExecuteConsumes | backend/redis-stable/src/cluster_asm.c:1714-1743 | Executing takes the rest of the message, applies it, and reaches TAKEOVER exactly at STREAM-EOF behind the buffer |
| AsmImport.FailOnce | backend/redis-stable/src/cluster_asm.c:1093-1137 | A failure or cancellation ends the task and both connections and schedules the trim of its slots, but not a second time, and deletes nothing yet |
| AsmImport.CompletionHandsOver | backend/redis-stable/src/cluster_asm.c:2806-2844 | In every run, when the ownership moves to a destination in TAKEOVER, it owns the slots with exactly what the source held at STREAM-EOF, and no trim job touches them |
| AsmSource.StreamIsWrites | backend/redis-stable/src/cluster_asm.c:723-793 | While a connection feeds, its stream is exactly the commands executed on the migrated slots, in order, the source offset counts their bytes, and no cross-slot command was among them |
| AsmSource.FeedStarts | backend/redis-stable/src/cluster_asm.c:1630-1647 | In every run the snapshot starts with both offsets at zero and no cross-slot command held against the task, and the connection feeds from then on |
| AsmSource.CrossSlotEnds | backend/redis-stable/src/cluster_asm.c:740-760 | A cross-slot command executed while the task feeds rules out STREAM-EOF and completion until the next SYNC, and from the next time before the event loop sleeps the task has ended |
| AsmSource.AckVerdict | backend/redis-stable/src/cluster_asm.c:2043-2094 | The handoff is prepared if and only if the destination, not going back, is within the allowed lag while snapshot or stream is sent |
| AsmSource.BeforeSleepEnds | backend/redis-stable/src/cluster_asm.c:2541-2583 | Exactly when a task is cancelled, fails, sends STREAM-EOF or goes on, and that the write pause is lifted in the first two cases |
| AsmSource.EndingEvents | backend/redis-stable/src/cluster_asm.c:1139-1217 | A failure, a cancellation or a change of ownership lifts the write pause, closes both connections and sends nothing more; the task completes if and only if STREAM-EOF was sent |
| AclSemantics.ReplayRebuilds | backend/redis-stable/src/acl.c:1037-1212 | After any sequence of operations on a new selector, replaying the recorded rules from the base chosen by the reserved bit gives every command bit and every allowed first argument |
| AclSemantics.OpReplay | backend/redis-stable/src/acl.c:1037-1212 | One operation keeps that replay invariant |
| AclSemantics.NewRuleReplay | backend/redis-stable/src/acl.c:620-630 | Compressing the rules and adding the new one gives what the new rule gives after the old ones |
| AclSemantics.KeptReplay | backend/redis-stable/src/acl.c:574-618 | Dropping the rules a new rule covers leaves every cell the new rule does not assign as it was |
| AclSemantics.CoveredIsAssigned | backend/redis-stable/src/acl.c:574-618 | Everything a covered rule assigns is assigned by the rule that covers it |
| AclSemantics.ReservedIsBase | backend/redis-stable/src/acl.c:551-558 | No rule assigns the reserved bit, so it remembers the base |
| AclText.SplitOfJoin | backend/redis-stable/src/acl.c:760-813 | The rule text is split into the rules it was built from if and only if no rule contains a blank or a quote |
| AclText.SplitOfPlain | backend/redis-stable/src/acl.c:760-813 | Plain rules are read back as they are |
| AclText.ScanWeight | backend/redis-stable/src/sds.c:1047-1158 | The argument splitter never produces more text than it reads, and equality forces plain tokens |
| AclText.KeptMembers | backend/redis-stable/src/acl.c:574-618 | A kept rule is one that neither is the new name nor extends it with a bar |
| AclText.KeptNames | backend/redis-stable/src/acl.c:574-618 | The same with the name compared to the rule's text: equal, or continued with a bar |
| AclRepr.ReprRoundTrip | backend/redis-stable/src/sds.c:951-975 | Any list of byte strings, quoted and put side by side with spaces, is split into itself, as the comment on the splitter promises |
| AclRepr.HexDigits | backend/redis-stable/src/sds.c:997-1025 | The hexadecimal digits and their values, in either case |
| AclRepr.BlankEnds | backend/redis-stable/src/sds.c:1047-1158 | Four kinds of blank end a token outside of quotes; a vertical tab or a form feed becomes part of it |
| AclRepr.BlankSkipped | backend/redis-stable/src/sds.c:1047-1158 | All six kinds are skipped in front of a token |
| AclBuffer.RuleBuffer.RemoveCommandRule | backend/redis-stable/src/acl.c:574-618 | The in-place loop leaves exactly the rules that neither equal the name nor extend it with a bar, in order, single-spaced |
| AclBuffer.RuleBuffer.RemoveOne | backend/redis-stable/src/acl.c:574-618 | One turn of the loop at a first, middle or last rule removes it or passes it, and says where the next one starts |
| AclBuffer.RuleBuffer.ReplaceRule | backend/redis-stable/src/acl.c:620-630 | The text after an update is the kept rules and the new one |
| AclBuffer.JoinOfTwo | backend/redis-stable/src/acl.c:620-630 | Two lists of rules side by side are joined with one space, or none when one is empty |
| AclBuffer.Cut | backend/redis-stable/src/acl.c:590-611 | Cutting a rule with one neighbouring space leaves the other rules single-spaced |
| AclSelector.Selector.SetSelector | backend/redis-stable/src/acl.c:1037-1212 | The operation accepts, records and assigns exactly what its meaning says, for commands, keys and channels; every bit is then set by + and cleared by - if the operation names it, its command or one of its categories, set or cleared by the operations about everything, and otherwise as before; the replay invariant is kept |
| AclMeaning.LastWord | backend/redis-stable/src/acl.c:1037-1212 | After any operations on a new selector a command's bit is set if and only if the last accepted operation that names it, its command, one of its categories or everything is an allowing one |
| AclMeaning.CommandRule | backend/redis-stable/src/acl.c:1181-1188 | + and - with a command set and clear its bit and those of its subcommands and no other, and drop its first arguments |
| AclMeaning.SubRule | backend/redis-stable/src/acl.c:1122-1188 | + and - with a subcommand set and clear its bit only |
| AclMeaning.CategoryRule | backend/redis-stable/src/acl.c:1189-1194 | + and - with a category set and clear the bits of its commands with all their subcommands and of its subcommands, and no other |
| AclMeaning.FirstArgRule | backend/redis-stable/src/acl.c:1122-1180 | + with a first argument of a command without subcommands allows that argument and changes nothing else |
| AclMeaning.AcceptedForms | backend/redis-stable/src/acl.c:1122-1194 | An operation with a sign is accepted if and only if it names a command, a subcommand or a category, or allows a first argument of a command without subcommands |
| AclMeaning.BitAfterOp | backend/redis-stable/src/acl.c:1054-1194 | What any operation makes of any command bit, from its sign, its name and the command table |
| AclSelector.Selector.AddKeyPattern | backend/redis-stable/src/acl.c:1068-1112 | The letters of a % pattern are read, blanks and patterns after allkeys are refused, and a listed pattern gains permissions instead of a second entry |
| AclSelector.Selector.AddChannel | backend/redis-stable/src/acl.c:1113-1128 | A channel is added once; blanks and channels after allchannels are refused |
| AclKeys.AppliedGrants | backend/redis-stable/src/acl.c:1037-1128 | An accepted operation keeps the lists free of duplicates, and a key pattern adds exactly the permissions it names to those granted before |
| AclKeys.PatternForms | backend/redis-stable/src/acl.c:1068-1112 | ~ stands for reading and writing, and behind % come R, W or both, in any order and case, then ~ and the pattern; nothing else is accepted |
| AclKeys.BlanksAreRefused | backend/redis-stable/src/acl.c:251-256 | A key pattern or channel with a blank of any kind, or a terminator, is refused |
| AclKeys.PlainIsAccepted | backend/redis-stable/src/acl.c:1068-1128 | One without is accepted if and only if not everything is granted already |
| AclKeys.KeyLastWord | backend/redis-stable/src/acl.c:1037-1112 | After any operations a key pattern is granted for reading, or for writing, if and only if an operation granted it, or it was granted at first, and no resetkeys came since |
| AclKeys.ChannelLastWord | backend/redis-stable/src/acl.c:1037-1128 | The same for channels and resetchannels |
| AclSelector.Selector.SetCategory | backend/redis-stable/src/acl.c:654-671 | A category rule assigns exactly the commands and subcommands that carry the flag |
| AclSelector.Selector.ChangeCommandPerm | backend/redis-stable/src/acl.c:632-648 | A command rule assigns the command's bit, its subcommands' bits and its first arguments |
| AclSelector.Selector.AddAllowedFirstArg | backend/redis-stable/src/acl.c:945-974 | Adds one first argument, compared without regard to case, and no other |
| AclSelector.Selector.SetAll | backend/redis-stable/src/acl.c:1054-1067 | The two base operations set or clear everything and drop the rules |
| AclDescribe.DescribeCommandRules | backend/redis-stable/src/acl.c:760-813 | The text is the base and the stored rules, and neither an assertion nor the final panic can be reached |
| AclDescribe.ReplayRules | backend/redis-stable/src/acl.c:760-813 | Replaying the stored rules on a new selector is accepted throughout and rebuilds every cell |
| AclDescribe.BlankInFirstArg | backend/redis-stable/src/acl.c:1122-1185 | The accepted operation +a&#124;b c is recorded as one rule, split into two tokens, and the second is rejected |
| AclFaithful.PlainIsRebuilt | backend/redis-stable/src/acl.c:760-813 | After any operations whose first arguments are plain every token of the description is accepted and every bit and first argument is rebuilt |
| AclFaithful.RebuiltIffPlain | backend/redis-stable/src/acl.c:760-813 | As long as all operations were plain, the description after one more accepts every token and rebuilds every cell if and only if that operation is plain too |
| AclFaithful.PrintedIff | backend/redis-stable/src/acl.c:785-813 | As long as all operations were plain, describing after one more fails the assertion if and only if that one is not plain and its own text is not split or holds a token that is no operation, and is printed, without assertion or panic, if and only if it is plain or its tokens are operations that change no bit of the selector |
| AclFaithful.RebuiltIsPrinted | backend/redis-stable/src/acl.c:800-813 | What is rebuilt reaches neither the assertion nor the panic |
| AclFaithful.AssertionIsReachable | backend/redis-stable/src/acl.c:788-791 | The accepted operation +a&#124;b c makes the assertion on a replayed token fail |
| AclFaithful.PanicIsReachable | backend/redis-stable/src/acl.c:804-811 | The accepted operation +a&#124;b +c is replayed as two operations, and the bitmaps differ |
| AclFaithful.QuoteIsPrinted | backend/redis-stable/src/acl.c:785-813 | The accepted operation +a&#124;'b' is not plain and panics nowhere, but the replayed text allows another first argument |
| AclCommandIds.CommandIds.GetCommandID | backend/redis-stable/src/acl.c:1530-1556 | A name keeps its ID, whatever its case; new IDs are unused and never the reserved bit |
| AclCommandIds.NumberedIsWellFormed | backend/redis-stable/src/acl.c:1530-1556 | A command table numbered by these IDs is one for which the results hold: no reserved bit, no subcommand with the ID of a command, no shared IDs |
| AofRuns.ChainCoversDataset | backend/redis-stable/src/aof.c:2604-2672 | In every run, crashes inside handlers included, with AOF on all files named by the manifest on disk exist, and base plus incremental files plus buffer are the whole log; a start with AOF enabled is part of a run when it is safe in the sense of StartIffSafe |
| AofChain.ChainDecodes | backend/redis-stable/src/aof.c:2604-2672 | In every run in which commands are fed, with crashes inside handlers, truncations by the loader, starts, failed rewrites and switching AOF: loaded on its own, from no selected database, every incremental file of the chain gives exactly the commands fed while it was open, each in its database; the last one gives a prefix of them, and with the buffer all of them while AOF is on; a start is part of a run when it is safe in the sense of StartIffSafe and the last file does not end inside an annotation |
| AofChain.StepChain | backend/redis-stable/src/aof.c:2604-2921 | Every step of such a run keeps what each named file holds: feeding, flushing a part, every handler whole or cut after any of its disk operations, and the truncation by the loader |
| AofChain.CutHolds | backend/redis-stable/src/aof.c:2761-2921 | After every prefix of every handler the named files hold what they were fed, the last one but for a tail |
| AofChain.RepairEnds | backend/redis-stable/src/aof.c:1679-1735 | In every such run, a truncation by the loader leaves a last file that loads without a short read and as it did before, and changes no other file |
| AofRuns.CrashRestores | backend/redis-stable/src/aof.c:2761-2921 | A crash between any two disk operations of any handler, in any run with AOF on, leaves a start that is safe, restores exactly what had been written, and has it in its files |
| AofRuns.RewriteAfterPartialFlush | backend/redis-stable/src/aof.c:2604-2672 | A rewrite keeps the chain correct if and only if its forced flush empties the buffer |
| AofRuns.StartIffSafe | backend/redis-stable/src/aof.c:682-782 | After a start with AOF enabled and its deletion of history files the manifest names existing files that load what was executed, if and only if the manifest had an incremental file, or no file of the first name holds anything and none of that name waits to be deleted |
| AofRuns.HistoryFileReopened | backend/redis-stable/src/aof.c:727-782 | A run to the first failing start: history files left by a rewrite with AOF off, one of which the start appends to and then deletes |
| AofRuns.NewFileDeleted | backend/redis-stable/src/aof.c:682-707 | A run to the second: the history is deleted but its manifest is not persisted, and the start deletes the file it has just created |
| AofRuns.OrphanAdopted | backend/redis-stable/src/aof.c:2794-2845 | A run to the third: switching AOF on is cut between the rename of the temporary file and the manifest, and the start appends to a file no manifest names |
| AofRuns.StartCanCrash | backend/redis-stable/src/aof.c:727-782 | A start cut after any of its disk operations leaves a start that is safe and loads the same |
| AofRuns.CutSurvives | backend/redis-stable/src/aof.c:2761-2921 | After every prefix of every handler the manifest on disk is sound and its files exist, and with AOF on they hold, with what is not yet flushed, the whole log |
| AofRuns.ProgramEnds | backend/redis-stable/src/aof.c:804-868 | The disk operations of every handler, in their order, end in the handler's next state |
| AofRuns.RunInv | backend/redis-stable/src/aof.c:2761-2921 | Every step of every run, crashes and starts included, keeps the invariant of manifest, files and buffer |
| AofEndings.FailedRewrite | backend/redis-stable/src/aof.c:2884-2921 | In every run a failed rewrite gives up the child and nothing else, but while AOF is being switched on the buffer, the temporary file and its descriptor go |
| AofEndings.StoppedHolds | backend/redis-stable/src/aof.c:1010-1032 | In every run switching AOF off writes out the whole buffer; if AOF was on, the files then hold exactly what was executed |
| AofSafety.LoadAppend | backend/redis-stable/src/aof.c:1147-1355 | Appending to the last file appends to what is loaded |
| AofSafety.MarkedShape | backend/redis-stable/src/aof.c:440-466 | After marking the previous files as history everything old is older than everything current |
| AofServer.ManifestObject.MarkRewrittenIncrAsHistory | backend/redis-stable/src/aof.c:506-537 | The walk from the tail moves all files but the open one to the history |
| AofServer.AofServer.OpenNewIncrAofForAppend | backend/redis-stable/src/aof.c:804-868 | Creates the file before it persists the manifest that names it, for every combination of failures, and reports it |
| AofServer.AofServer.RewriteInBackground | backend/redis-stable/src/aof.c:2604-2672 | Flushes, opens and forks in this order, and refuses while a child runs |
| AofServer.AofServer.BackgroundRewriteDone | backend/redis-stable/src/aof.c:2761-2921 | Performs renames, manifest write and deletions in the order of the model's program for every combination of failures |
| AofServer.AofServer.DelHistoryFiles | backend/redis-stable/src/aof.c:682-707 | Unlinks the history files one after the other, then persists the manifest without them; nothing is done without history |
| AofServer.AofServer.OpenIfNeededOnServerStart | backend/redis-stable/src/aof.c:727-782 | Creates a missing base file, opens the last incremental file and persists the manifest, in this order |
| AofServer.AofServer.Handle | backend/redis-stable/src/aof.c:2604-2921 | Every event is handled by the methods, which perform exactly the disk operations of its program in their order |
| AofServer.AofServer.Serve | backend/redis-stable/src/aof.c:2604-2921 | A whole run is served by the methods; the invariant holds throughout, and with AOF on files and buffer are the log |
| AofLoader.LogRoundTrip | backend/redis-stable/src/aof.c:1409-1448 | Loading the bytes written by feedAppendOnlyFile gives back every command fed, with its database and arguments, in order, for any arguments and annotations |
| AofLoader.CutLogIsPrefix | backend/redis-stable/src/aof.c:1679-1735 | A log whose tail was lost loads as its first commands and is never called corrupt |
| AofLoader.LoadCutLog | backend/redis-stable/src/aof.c:1597-1677 | Loading a log cut at any byte executes exactly the whole commands and selects the database they leave, it is a short read if and only if a command was cut, and the valid length is the end of the last whole command |
| AofResume.ResumedIff | backend/redis-stable/src/aof.c:1597-1735 | A log that was cut anywhere, loaded, truncated and appended to by a new process loads as the commands of the first start and all new ones if and only if the truncated file does not end inside a line or the first new command comes with an annotation; otherwise it is refused as corrupt |
| AofResume.CutAnnotationCorrupts | backend/redis-stable/src/aof.c:1597-1613 | Such a file: an annotation cut behind #TS: is not truncated, and the next command without an annotation makes the file corrupt |
| AofResume.AfterLoadOfCut | backend/redis-stable/src/aof.c:1679-1735 | What a start leaves of a cut log are whole entries that mean what was executed, and at most a part of an annotation |
| AofResume.DamagedLog | backend/redis-stable/src/aof.c:1597-1647 | A log that is damaged behind whole entries (a line with neither sign, a command without arguments, or something else in place of an argument) is corrupt and not cut; the whole entries before have been carried out in their databases, and nothing else |
| AofLoader.FeedsMeaning | backend/redis-stable/src/aof.c:1409-1448 | The entries written for fed commands mean those commands, whatever SELECTs lie between |
| AofLoader.SelectLetters | backend/redis-stable/src/aof.c:1649-1657 | Exactly the two-word commands that spell SELECT, in any case, change the database |
| AofLoader.LogWriter.FeedAppendOnlyFile | backend/redis-stable/src/aof.c:1409-1448 | The buffer grows by an annotation if due, a SELECT if the database changed, and the command |
| AofLoader.LogWriter.CatGenericCommand | backend/redis-stable/src/aof.c:1357-1388 | The loop appends the array of bulk strings that stands for the command |
| AofLoader.LoadSingleAppendOnlyFile | backend/redis-stable/src/aof.c:1581-1677 | The parsing loop computes the specification of loading for every file, well-formed or not |
| AofLoader.LogFile.ReadCommand | backend/redis-stable/src/aof.c:1597-1647 | Line, count and arguments are read with fgets and fread, with exactly the cases of the specification, NUL bytes in lines and numbers out of range apart |
| AofLoader.LogFile.ReadArguments | backend/redis-stable/src/aof.c:1618-1647 | The loop over the arguments reads all of them or says why it stopped |
| AofLog.CommandRoundTrip | backend/redis-stable/src/aof.c:1357-1388 | Reading an encoded command gives it back and stops behind it, whatever follows (Redis serialization protocol, arrays and bulk strings) |
| AofLog.CommandCut | backend/redis-stable/src/aof.c:1597-1677 | Every proper non-empty prefix of an encoded command is a short read |
| AofLog.ArgRoundTrip | backend/redis-stable/src/aof.c:1620-1647 | Reading an encoded argument gives it back, for arbitrary bytes |
| AofLog.ReadDec | backend/redis-stable/src/aof.c:1357-1388 | Decimal numbers are read back |
| AofLog.ReadSigned | backend/redis-stable/src/aof.c:1607-1629 | Blanks, a sign and digits are read as atoi and strtol read them, whatever follows |
| AofLog.ReadNothing | backend/redis-stable/src/aof.c:1607-1629 | Without digits the number is zero |
| BitopCompute.BitopCommand | backend/redis-stable/src/bitops.c:1080-1438 | For all eight operators, any number of keys and any lengths, every bit of the result is the declared Boolean function of the zero-padded keys, the length is that of the longest key, and the two arity errors are exact |
| BitopCompute.FastPath | backend/redis-stable/src/bitops.c:1189-1340 | The word-level path computes the right bytes for every operator and stops at a multiple of 32 |
| BitopCompute.FoldBlocks | backend/redis-stable/src/bitops.c:1212-1275 | The unrolled loops of AND, OR, XOR and of the disjunction leave the fold over all keys in every byte |
| BitopCompute.OneBlocks | backend/redis-stable/src/bitops.c:1311-1340 | The unrolled loop of ONE leaves the bits set in exactly one key |
| BitopCompute.JoinBlocks | backend/redis-stable/src/bitops.c:1276-1310 | The second pass joins the first key to the disjunction as DIFF, DIFF1 and ANDOR declare |
| BitopCompute.FlipBlocks | backend/redis-stable/src/bitops.c:1251-1260 | NOT over whole blocks |
| BitopCompute.ByteResult | backend/redis-stable/src/bitops.c:1343-1433 | The early-exiting byte loop gives the right byte for every operator |
| BitopCompute.FoldByte | backend/redis-stable/src/bitops.c:1350-1418 | Leaving the loop early changes nothing: the partial result is already that of all keys |
| BitopCompute.OnBytes | backend/redis-stable/src/bitops.c:1224-1340 | A word operation works on each of its eight bytes |
| BitopMeaning.SenseIsDeclared | backend/redis-stable/src/bitops.c:687-699 | The counting form of each operator is its declared Boolean function, with ONE meaning set in exactly one key |
| BitopMeaning.StopEarly | backend/redis-stable/src/bitops.c:1356-1385 | A fold that reached 0 (AND) or 0xff (OR and disjunctions) keeps it for all further keys |
| BitopMeaning.StopOnce | backend/redis-stable/src/bitops.c:1408-1413 | Once every bit was seen repeatedly, no further key changes the result of ONE |
| BitopMeaning.OnceOfOdd | backend/redis-stable/src/bitops.c:1310-1333 | Bits seen an odd number of times and never repeatedly are those seen exactly once |
| Popcount.RedisPopcount | backend/redis-stable/src/bitops.c:65-150 | The number of set bits, for every length and every alignment |
| Popcount.CountBlock | backend/redis-stable/src/bitops.c:108-146 | Seven words folded, added and multiplied count the bits of 28 bytes |
| Popcount.MultiplyAddsLanes | backend/redis-stable/src/bitops.c:137-144 | Lanes of at most 56 add up to at most 224 in the top byte; the 32-bit multiplication never carries into it |
| Popcount.FoldCounts | backend/redis-stable/src/bitops.c:122-143 | The shifts and masks leave the number of set bits of each byte in its lane |
| Bitcount.BitcountCommand | backend/redis-stable/src/bitops.c:1458-1553 | The number of set positions of the range (IndexesFromTheEnd says which positions these are), also when both edges share a byte; an empty range when two negative indexes come in the wrong order |
| Bitcount.ByteRange | backend/redis-stable/src/bitops.c:1484-1510 | The range as bytes and edge masks |
| Bitcount.CountEdges | backend/redis-stable/src/bitops.c:1530-1549 | The bits of the whole bytes are those of the range and those the two masks select |
| Bitcount.IndexesFromTheEnd | backend/redis-stable/src/bitops.c:1489-1500 | An index from the end and the same byte or bit counted from the front mean the same, at the start and at the end; indexes before the first mean the first, ends behind the last mean the last, and the end is included |
| Bitcount.CountedIsSize | backend/redis-stable/src/bitops.c:1458-1553 | Counting over the interval is the number of set positions whose byte or bit lies between the given indexes |
| Bitpos.RedisBitpos | backend/redis-stable/src/bitops.c:390-475 | The first bit with the wanted value in the string followed by zeros, -1 only when no bit is set, at every alignment; the final panic is unreachable |
| Bitpos.SkipWhole | backend/redis-stable/src/bitops.c:408-434 | Skipping bytes up to a word boundary and then whole words passes no wanted bit |
| Bitpos.ScanWord | backend/redis-stable/src/bitops.c:458-474 | The scan from the left finds the first wanted bit of a word that holds one |
| Bitpos.WordBit | backend/redis-stable/src/bitops.c:441-449 | A bit of the loaded word is the bit of the string at that position, zero behind its end |
| BitmapBytes.MostSignificantFirst | backend/redis-stable/src/bitops.c:441-449 | A byte is the sum of its bits, the first one weighing 128 |
| BitposRange.BitposCommand | backend/redis-stable/src/bitops.c:1556-1693 | The least matching position of the given range, by membership of each position in it, otherwise -1, or the first position behind the string when a clear bit is sought in a non-empty range without end; 0 or -1 for a missing key |
| BitposRange.AnswerIsPromised | backend/redis-stable/src/bitops.c:1600-1692 | The answer over the interval is the one over the positions between the given indexes |
| BitposRange.SearchRange | backend/redis-stable/src/bitops.c:1636-1672 | The three stages with edge masks find the first matching bit of the range |
| BitposRange.Finish | backend/redis-stable/src/bitops.c:1674-1692 | The common end turns what a stage found into the answer for the range |
| Bitfield.SetUnsignedBitfield | backend/redis-stable/src/bitops.c:498-511 | Exactly the bits of the field take the low bits of the value; every other bit is as before |
| Bitfield.SetSignedBitfield | backend/redis-stable/src/bitops.c:513-516 | The same for a signed value taken modulo 2^64 |
| Bitfield.GetUnsignedBitfield | backend/redis-stable/src/bitops.c:518-530 | The unsigned value of the field; no bit is lost in the shifts |
| Bitfield.GetSignedBitfield | backend/redis-stable/src/bitops.c:532-552 | Two's complement of the field, by reinterpretation and sign propagation |
| Bitfield.StoreThenLoad | backend/redis-stable/src/bitops.c:498-530 | A field read after a store gives the value modulo 2^bits |
| Bitfield.StoreElsewhere | backend/redis-stable/src/bitops.c:498-530 | A field that does not overlap the stored one reads as before |
| Bitfield.NineBytesSuffice | backend/redis-stable/src/bitops.c:1909-1942 | Reading from nine copied bytes equals reading the infinitely zero-padded string |
| Bitfield.GetField | backend/redis-stable/src/bitops.c:1909-1942 | GET gives the field of the zero-padded string |
| Bitfield.GrownReads | backend/redis-stable/src/bitops.c:782-812 | Growing the string changes no field |
| BitfieldOverflow.CheckUnsigned | backend/redis-stable/src/bitops.c:577-612 | Zero exactly when the ideal sum fits; WRAP gives the congruent value (code 1 in both directions), SAT the clamp, FAIL no value |
| BitfieldOverflow.CheckSigned | backend/redis-stable/src/bitops.c:614-667 | The same for signed fields up to 64 bits; SAT differs from the clamp only for misjudged values |
| BitfieldOverflow.SaturationExact | backend/redis-stable/src/bitops.c:614-640 | Saturating a SET value gives the clamp if and only if the value is not within 2^(bits-1) of the least 64-bit integer in a field narrower than 64 bits |
| BitfieldOverflow.LeastIntegerSaturatesUpwards | backend/redis-stable/src/bitops.c:614-640 | SET i8 of the least 64-bit integer with SAT gives 127 instead of -128 |
| BitfieldOverflow.WrappedIsUnique | backend/redis-stable/src/bitops.c:600-611 | Wrapping gives the only value of the field that is congruent to the exact result |
| BitfieldOverflow.WrapSignedIsWrapped | backend/redis-stable/src/bitops.c:649-666 | The 64-bit addition with the high bits set or cleared is the wrapped sum |
| BitfieldOverflow.InRangeIsJudged | backend/redis-stable/src/bitops.c:614-640 | A value in range is never misjudged, so INCRBY saturates exactly |
| BitfieldCommand.BitfieldGeneric | backend/redis-stable/src/bitops.c:1721-1957 | The replies and the final string are those of the operations one after the other on the grown string, each of which reads as SetReads and IncrReads say; BITFIELD_RO refuses exactly the lists that write |
| BitfieldCommand.WriteField | backend/redis-stable/src/bitops.c:1835-1908 | SET and INCRBY reply and store as SetReads and IncrReads say; FAIL writes nothing |
| BitfieldCommand.SetReads | backend/redis-stable/src/bitops.c:1842-1908 | After SET the field reads the value if it fits (an unsigned field the value modulo 2^64); otherwise with WRAP the only value of the field congruent to it, with SAT the nearest one outside the misjudged case, and with FAIL the reply is Nil and the string unchanged |
| BitfieldCommand.IncrReads | backend/redis-stable/src/bitops.c:1842-1908 | The same four cases for INCRBY on the sum of the value before and the increment |
| BitfieldCommand.WrappingCounter | backend/redis-stable/src/bitops.c:1835-1908 | Over a whole command a field that is only incremented with WRAP is a counter modulo 2^bits, whatever happens to other fields |
| BitfieldCommand.StepReads | backend/redis-stable/src/bitops.c:1842-1908 | After an operation the field holds what the operation announces |
| BitfieldCommand.StepApart | backend/redis-stable/src/bitops.c:1842-1908 | An operation leaves every field it does not overlap |
| BitfieldCommand.StartReads | backend/redis-stable/src/bitops.c:782-812 | Making room for a command changes no field |
| BlockedIndex.ExactlyOnce | backend/redis-stable/src/blocked.c:388-436 | Under the invariant a key is in a client's map if and only if the client is in the key's list, once, at the stored node |
| BlockedIndex.AddKeeps | backend/redis-stable/src/blocked.c:398-427 | Blocking on one more key keeps the agreement of map, lists, order and counts |
| BlockedIndex.ReleaseKeeps | backend/redis-stable/src/blocked.c:536-569 | Releasing a client from a key keeps the agreement, and both assertions hold |
| BlockedIndex.UnlinkNode | backend/redis-stable/src/blocked.c:543-548 | Taking a node off a list removes it and nothing else and lowers the count by its share |
| BlockedIndex.FlagKeeps | backend/redis-stable/src/blocked.c:184-215 | The flag of a client that waits for nothing can change without harm |
| BlockedServer.Server.BlockForKeys | backend/redis-stable/src/blocked.c:388-437 | The client waits for exactly the given keys, at the end of each list, and all counters agree; duplicate keys count once |
| BlockedServer.Server.AddToKeys | backend/redis-stable/src/blocked.c:398-427 | The loop puts the client at the end of each list once |
| BlockedServer.Server.ReleaseBlockedEntry | backend/redis-stable/src/blocked.c:536-569 | Exactly the client's node leaves the list; an empty list and a count of zero go |
| BlockedServer.Server.UnblockClientWaitingData | backend/redis-stable/src/blocked.c:443-457 | The client leaves every list, the others keep their order |
| BlockedServer.Server.UnblockClient | backend/redis-stable/src/blocked.c:184-215 | The client waits for nothing any more, the counters agree, it is queued once if asked for and not queued otherwise, and other clients keep their keys |
| BlockedServer.Server.UnblockClientOnKey | backend/redis-stable/src/blocked.c:666-709 | The client leaves all lists; if its pending command blocks again it waits for exactly the keys named, at the ends of their lists, with the kind and flag asked for; otherwise it is queued for reprocessing once, unless it is a module's; only keys the command signals become ready, and one that concerns another client does; no other client is touched |
| BlockedServer.Server.SignalKeyAsReady | backend/redis-stable/src/blocked.c:476-520 | A key that concerns some blocked client is queued, no key is queued twice, and no other key is: the quick returns drop no wake-up |
| BlockedServer.Server.HandleClientsBlockedOnKey | backend/redis-stable/src/blocked.c:582-618 | From the first client of the list to the last each one that matches is served and nothing happens at the others; the clients served are those of ServedExactly, and for clients that are not a module's those of ServedInFull, and the final state is the effect of PassEffect on the first one, although the list changes meanwhile |
| BlockedServer.Server.HandleRound | backend/redis-stable/src/blocked.c:351-382 | Every key that was ready when the round began has one turn, in the order of signalling, which begins where the one before it ended, takes the key off the ready keys, passes over its list as it is then, serves the clients of ServedExactly and ServedInFull and has the effect of PassEffect; the round ends where the last turn ends, and all invariants hold although keys are signalled again |
| BlockedService.ServedExactly | backend/redis-stable/src/blocked.c:582-618 | Exactly the clients of the list that match are served, each of them once, and in the order of the list |
| BlockedService.ServedInFull | backend/redis-stable/src/blocked.c:605-612 | A listed client that is not a module's is served if and only if the key is found at its turn with the type it waits for, or the client wants to know about a missing key |
| BlockedService.SignalledIsServed | backend/redis-stable/src/blocked.c:476-618 | A client that a signal concerns is served in the turn of the signalled key when the key is still found with that type |
| BlockedService.PassEffect | backend/redis-stable/src/blocked.c:582-618 | After a pass every list, the one passed over included, is what it was without the served clients, in the same order, followed by nodes of served clients only; clients not served keep keys, kind, flags and place, and the queue only grows, by served clients; every served client is blocked again exactly as its command asked, or else queued if it had a command pending and is not a module's |
| BlockedService.ServedAfter | backend/redis-stable/src/blocked.c:666-709 | Leaving the lists, running the command again and queueing add up to the service of one client: its lists, its keys, its flags, the queue and the ready keys |
| BlockedService.ServedAlone | backend/redis-stable/src/blocked.c:666-709 | Serving a client changes nothing about any other client |
| BlockedServer.ConcernIsSeen | backend/redis-stable/src/blocked.c:479-505 | When a client is concerned none of the quick returns applies |
| BlockedServer.CountBlocked | backend/redis-stable/src/blocked.c:74-88 | The counters of blocked clients grow by the client, in total and by type |
| BlockedServer.CountUnblocked | backend/redis-stable/src/blocked.c:205-209 | The counters shrink by the client |
| BioSafety.RunKeepsInv | backend/redis-stable/src/bio.c:257-369 | Every interleaving of submitters, three workers, a drainer and the reader keeps the invariant |
| BioSafety.FirstInFirstOut | backend/redis-stable/src/bio.c:257-369 | In every reachable state a worker has carried out a prefix of its jobs in the order of submission, each once |
| BioSafety.CountersExact | backend/redis-stable/src/bio.c:181-189 | In every reachable state a type's counter is the number of its queued jobs, the one at hand included |
| BioSafety.CallbacksInOrder | backend/redis-stable/src/bio.c:416-445 | Callbacks run in the order of their requests, once, and only after all earlier jobs of their worker have been carried out |
| BioSafety.JobsOfWorkers | backend/redis-stable/src/bio.c:59-67 | In every reachable state the first worker has the jobs that close files, the second all jobs of the append only file, the third those that free, each with the completion requests about its jobs |
| BioSafety.AofJobsInOrder | backend/redis-stable/src/bio.c:59-67 | No sync or closing of the append only file, and no request about them, is carried out before those submitted earlier |
| BioSafety.CallbackAnswers | backend/redis-stable/src/bio.c:202-224 | Only completion requests have callbacks, and when one runs every earlier job of the kind it asks about has been carried out |
| BioSafety.CompletionsAreKept | backend/redis-stable/src/bio.c:335-445 | A completion request that was carried out is called, about to be called, or listed |
| BioSafety.NoLostWakeup | backend/redis-stable/src/bio.c:335-356 | A listed completion implies a byte in the pipe, or a worker about to write one, whenever the reader is back in the event loop |
| BioSafety.WorkerProgress | backend/redis-stable/src/bio.c:285-296 | A worker with jobs is never asleep without a signal: it has a step, and the step is progress |
| BioSafety.DrainerWaitsForWork | backend/redis-stable/src/bio.c:383-391 | A sleeping drainer waits for a worker that is at work |
| BioSafety.DrainReturns | backend/redis-stable/src/bio.c:383-391 | Draining returns only when every submitted job of the worker has been carried out |
| BioSafety.AwakeKept | backend/redis-stable/src/bio.c:186-367 | One condition variable for worker and drainer loses no signal, as they never sleep at the same time |
| BioSystem.Bio.BioSubmitJob | backend/redis-stable/src/bio.c:181-189 | Submitting takes the protocol's step |
| BioSystem.Bio.ProcessOne | backend/redis-stable/src/bio.c:280-367 | One undisturbed turn of a worker carries out and deletes the first job, lists its completion, and wakes a drainer |
| BioSystem.Bio.BioPipeReadJobCompList | backend/redis-stable/src/bio.c:416-445 | Undisturbed, the reader empties the pipe and calls every listed completion in order |
| BioSystem.Bio.BioPendingJobsOfType | backend/redis-stable/src/bio.c:372-380 | The number of unfinished jobs of a type |
| Adlist.List.ListLinkNodeHead | backend/redis-stable/src/adlist.c:90-101 | Keeps a well-formed list and puts the node in front of the sequence |
| Adlist.List.ListLinkNodeTail | backend/redis-stable/src/adlist.c:123-134 | Keeps a well-formed list and puts the node behind the sequence |
| Adlist.List.ListAddNodeHead | backend/redis-stable/src/adlist.c:76-85 | The same with a new node |
| Adlist.List.ListAddNodeTail | backend/redis-stable/src/adlist.c:109-118 | The same with a new node |
| Adlist.List.ListInsertNode | backend/redis-stable/src/adlist.c:136-163 | The value is inserted before or after the given node |
| Adlist.List.ListUnlinkNode | backend/redis-stable/src/adlist.c:179-193 | Exactly the given node leaves the sequence |
| Adlist.List.ListRotateTailToHead | backend/redis-stable/src/adlist.c:339-351 | The last element becomes the first |
| Adlist.List.ListRotateHeadToTail | backend/redis-stable/src/adlist.c:354-366 | The first element becomes the last |
| Adlist.RotationsUndo | backend/redis-stable/src/adlist.c:339-366 | The two rotations undo each other |
| Adlist.List.ListJoin | backend/redis-stable/src/adlist.c:370-386 | The other list's nodes follow this list's, and the other list is empty and valid |
| Adlist.List.ListIndex | backend/redis-stable/src/adlist.c:324-336 | The node at an index from the head, or from the tail for negative indexes, null outside |
| Adlist.List.ListSearchKey | backend/redis-stable/src/adlist.c:299-318 | The first node that matches, null if none does |
| Adlist.List.ListDup | backend/redis-stable/src/adlist.c:254-288 | A fresh list of copies in the same order, or null when a value cannot be copied; the original is unchanged |
| Adlist.ListIter.ListNext | backend/redis-stable/src/adlist.c:233-244 | Returns the node at hand and moves on in the chosen direction |
| Adlist.List.VisitFromHead | backend/redis-stable/src/adlist.c:219-244 | An iteration that deletes any of the nodes it returns, chosen by place, visits every node once in order, and exactly the nodes at the other places remain, in order |
| Adlist.List.VisitFromTail | backend/redis-stable/src/adlist.c:219-244 | The same in the opposite direction |
| Adlist.Glue | backend/redis-stable/src/adlist.c:90-193 | Two well-linked segments side by side are one |
| SlotArray.NormalizeExact | backend/redis-stable/src/cluster.c:1759-1794 | For well-formed ranges normalization keeps every slot as often as given, accepts exactly the disjoint ones below 16384, and leaves the canonical form, whatever the sort does to equal starts |
| SlotArray.InvertedRangeAccepted | backend/redis-stable/src/cluster.c:1767-1783 | A range with start above end can be merged and accepted: 1-4 and 5-2 become 1-2 |
| SlotRows.AcceptedIff | backend/redis-stable/src/cluster.c:1759-1794 | For every sorted array, ranges with start above end included: it is accepted, and then canonical, if and only if every such range is absorbed by a neighbour, every range ends before the next starts, and the last ends below 16384 |
| SlotRows.VerdictDependsOnTies | backend/redis-stable/src/cluster.c:1867-1886 | 5-4 and 5-9 are accepted in one order and rejected in the other, and the sort may leave either |
| SlotRows.AcceptedTimes | backend/redis-stable/src/cluster.c:1759-1794 | An accepted array keeps every slot as often as given, less one for each range with start above end in whose gap the slot lies |
| SlotRows.KeepsAllIff | backend/redis-stable/src/cluster.c:1759-1794 | An accepted array keeps all slots if and only if no range ends more than one below its start |
| SlotRows.EqualIffSameKept | backend/redis-stable/src/cluster.c:1899-1912 | Two accepted arrays become equal if and only if they keep the same slots |
| SlotArray.EqualIffSameSlots | backend/redis-stable/src/cluster.c:1899-1912 | For well-formed disjoint ranges the normalized arrays are equal exactly when they hold the same slots |
| SlotArray.SlotsAscend | backend/redis-stable/src/cluster.c:1977-1999 | The slots of a canonical array come once each, in ascending order, and are exactly those it holds |
| SlotArray.SlotRangeArray.NormalizeAndValidate | backend/redis-stable/src/cluster.c:1759-1794 | Accepts exactly the arrays of AcceptedIff with a legal number of ranges, and says what each error means; the array is the merged form |
| SlotArray.SlotRangeArray.Validate | backend/redis-stable/src/cluster.c:1770-1792 | The loops with the table of used slots accept exactly the acceptable ranges |
| SlotArray.SlotRangeArray.MergeRanges | backend/redis-stable/src/cluster.c:1888-1895 | The in-place loop computes the merged ranges |
| SlotArray.SlotRangeArray.SortAndMerge | backend/redis-stable/src/cluster.c:1883-1896 | The merged form of some sorted permutation |
| SlotArray.SlotRangeArray.IsEqual | backend/redis-stable/src/cluster.c:1899-1912 | True exactly when the normalized arrays are equal |
| SlotArray.SlotRangeArray.Append | backend/redis-stable/src/cluster.c:1926-1956 | Extends the last range or adds one, growing when full |
| SlotArray.SlotRangeArray.Build | backend/redis-stable/src/cluster.c:1914-1956 | Appending an ascending scan gives the canonical array of exactly these slots |
| SlotArray.SlotRangeArray.AllSlots | backend/redis-stable/src/cluster.c:1977-1999 | A whole iteration visits the slots range by range |
| SlotArray.SlotIter.Next | backend/redis-stable/src/cluster.c:1986-1999 | The next slot of the range, the start of the next range, or -1 for good |
| SlotRanges.MergedTimes | backend/redis-stable/src/cluster.c:1888-1895 | Merging sorted well-formed ranges keeps every slot as often as before |
| SlotRanges.MergedCanonical | backend/redis-stable/src/cluster.c:1883-1896 | Sorted disjoint ranges are merged to the canonical form |
| SlotRanges.CanonicalUnique | backend/redis-stable/src/cluster.c:1899-1912 | Canonical arrays that hold the same slots are equal |
| SlotRanges.AppendKeeps | backend/redis-stable/src/cluster.c:1926-1956 | Appending a slot behind the last one keeps the canonical form and adds this slot only |
| SlotRanges.BuiltIsCanonical | backend/redis-stable/src/cluster.c:1914-1956 | What an ascending scan builds is canonical and holds exactly the scanned slots |

## Left out

- AofLoader.LogRoundTrip: does not cover a fed command that is itself SELECT, because the loader would take it for a change of database, as in the source.
- AofLoader.LogFile.ReadCommand: NUL bytes inside a line, where the C string ends, and numbers beyond the range of int or long, which atoi and strtol cut differently, are read here as characters and as the numbers they are; only malformed files hold either. The same goes for AofLoader.LogFile.ReadArguments.
- AofChain.ChainDecodes: starts on a last file that ends inside an annotation are left out, because `ResumedIff` shows that the file may then not decode; open transactions (MULTI without EXEC), which a start also undoes, are not modelled.
- AclFaithful.PrintedIff: is about the first operation that is not plain; behind it the rule text is edited in place word by word, on words that are no rules.
- AclSelector.Selector.SetSelector: requires that a first argument is plain, as `RebuiltIffPlain` shows the replay invariant needs; operations that are not plain are modelled on values only. The packing of the bitmap into 64-bit words is not modelled.
- AclSelector.Selector.AddAllowedFirstArg: the table of first arguments is a map, so its allocation by command ID is not modelled.
- BlockedServer.Server.HandleRound: is one round over the ready keys; the outer loop repeats rounds while commands go on signalling keys, and need not end.
- BlockedServer.Server.HandleClientsBlockedOnKey: passes over clients of modules, whose callbacks are not part of this model.
- BioSystem.Bio.ProcessOne: states a turn without interference; the interleaved statement is that of the protocol lemmas.
- Popcount.RedisPopcount: is the variant without the POPCNT instruction and without vector units; those variants and the vector BITOP are not modelled.
- SlotArray.SlotRangeArray.Qsort: stands for any sort by start; only sortedness and permutation are used.
- AsmTrim.TrimmedIsEmpty: is about runs in which trim jobs are not cancelled; a change of role cancels them and leaves the keys where they are. Whether trimming is active or done at once is a free choice.
- Slot migration: role changes and failover, replicas of either node, module commands in the snapshot, TRIMSLOTS sent directly to a node, trimming on the source, debug fail points and client bookkeeping; timeouts and disconnections are free choices.
- The RDB payload of a migrated value, DUMP and RESTORE: a snapshot item carries its value as it is.
- Fork, fsync, sockets and the kernel: a fork takes an atomic snapshot, a rename is atomic, channels are first in first out.
- AofRuns.ChainCoversDataset: starts with AOF enabled are part of a run only when `StartIsSafe`; `StartIffSafe` proves that the other starts break the chain, and `CrashRestores` that they never follow a state with AOF on.
- AOF: history deletion switched off by configuration, the rollback of a switch-on whose rewrite cannot start, the replication offsets in the manifest, the text format of the manifest, file name prefixes, the RDB preamble, fsync policies, and the undoing of an open MULTI after a short read; writing a manifest fails only before its rename; in runs the forced flush before a rewrite empties the buffer, and `RewriteAfterPartialFlush` says what happens otherwise.
- The AOF loader treats a bulk length below zero as a short read at this level; the allocation it would ask for is not modelled.
- Bitfields: parsing of offsets and types, the limit on string length, and the count of changes for keyspace events.
- BITOP and BITPOS: lookup of keys, type errors and storing the result.
- Two drainers of the same background worker: the server drains from its main thread only, and a single signal would not wake both.
- Lists: freeing of memory and the callbacks for it; listIndex for the least machine integer, whose negation overflows.
- Slot range arrays: conversion to and from text, and 16-bit storage of the bounds.
- `chk.c`, whose core is floating point and random decay, and network and client plumbing.
