# Retrograd: verified models of its checkpoint, reward and collection logic

These Dafny modules model the parts of the repository whose correctness is not visible
from any one branch, and prove what they promise for all inputs, all runs and all
interruptions:

- the crash-safe publication of a checkpoint directory, what such a directory holds and
  reads back as, the optimizer slot table and the chunked reader behind it, the content
  fingerprint and its cache (`crates/retrograd-checkpoint`);
- the register machine, its backward distance search, its solver, its command and prompt
  grammars, and the reward built on them (`examples/register_machine`);
- the streaming reader of tool calls (`crates/retrograd-agent-core/src/parser.rs`);
- rejection sampling and preference pairs (`crates/retrograd-agent/src/collect.rs`, `collect/api.rs`);
- trajectories and rewards-to-go, UTF-8 truncation, word wrapping, sample summaries,
  BF16 rounding and the GGUF file layout.

Code that changes state step by step is modelled by classes and loops (`Writing.Disk`,
`SlotTable.OptimizerStateReader`, `Fingerprint.Fingerprinter`, `FingerprintCache.Cache`,
`Collect.KeepBest`, `Pairs.KeepPair`, `BackwardSearch.Search`, `Wrap.Wrapped`,
`Gguf.Build`, ...), each proved against a specification; the properties of the
specification are lemmas beside it. `dafny verify dfyconfig.toml` checks everything.

## Where the code and its documentation differ

The model follows the code. In these places a promise of the documentation holds under a
condition only; the condition is proved both necessary and sufficient, unless an entry
says otherwise:

- A checkpoint that `write` accepts need not be one that `read` accepts: `write` checks
  neither the schema versions, the slot table, the required artifacts nor the file list.
  `CheckpointFormat.Accepted` is the condition, and `CheckpointFormat.StagedIsRead` shows it
  necessary and sufficient.
- Nor need a checkpoint that `read` accepts come back the same: an artifact that is held but
  not declared is written and never read, a declared one that is not held may be found in
  what an earlier attempt left. `CheckpointFormat.ReadsBack` is the condition for the same
  checkpoint, shown necessary and sufficient by `CheckpointFormat.WriteThenRead`;
  `CheckpointFormat.SomeAcceptedCheckpointsDiffer` sets the two apart.
- "An interrupted write leaves no directory a loader would accept": a process that dies, or a
  call that returns an error, between the manifest and the rename leaves its temporary
  directory complete. Over an emptied temporary directory, and with no payload under the
  manifest's name, `Leftovers.WhenAnInterruptedWriteLoads` gives the exact condition on the
  request, and `Leftovers.LeftoversReadWhole` says that nothing but the checkpoint being
  written ever loads from there. Both need that the attempt brings no manifest but its own,
  which is a sufficient condition only. The removal of an earlier attempt's directory under
  the same name may fail unnoticed, and if its manifest stays, a mix of the two may load:
  `Leftovers.AnOldManifestMayLoadAMix` shows one such run, not which requests have one.
- "A replacement keeps the prior directory as a recoverable backup until the new one has
  landed" is kept, but an error in the removal of the backup is returned as the write's,
  although the new directory is in place (`Leftovers.AnErrorMayFollowTheRename`). As far as
  modelled that takes a checkpoint published earlier and set aside (`Writing.Disk.PutInPlace`);
  the sibling export that follows, which is left out, can fail after the rename as well.
- Payloads come in under any name the caller chooses; `write` overwrites those that go by one
  of the six names of its own documents (`CheckpointFormat.PayloadsSurviveUnderOtherNames`).
- "No two scenarios share a seed" holds as long as there are at most 2^64 attempts
  (`Pairs.SeedsAreDistinctUpToTheWordSize`).
- The cached file fingerprint is the file's unless a file changes its content while it keeps
  both size and time (`FingerprintCache.AnswersAreRightIffChangesShow`).
- `duplicate` is said to count repeats of a trace already kept. A fingerprint is entered
  before the cap is looked at, so repeats of a trace over the cap are counted, too
  (`Attempts.ADuplicateMayRepeatNothingKept`). It is as documented if and only if, of each
  fingerprint that two passing, writable attempts share, fewer than `keep` others are ahead
  (`Duplicates.WhatDuplicatesRepeat`).
- A text wrapped to width 0 is dropped, and the full-width row of a table without columns is
  wider than its borders (`Wrap.Wrapped`, `Wrap.SpanRows`).
- The two parameter tables compared on resume may list parameters in any order, but the order
  of two rows of one parameter matters (`SlotTable.AssignmentIsComparedByParameter`).

## Model

| member | source | states |
|---|---|---|
| Publication.StepKeepsInvariant | crates/retrograd-checkpoint/src/lib.rs:633-707 | every file system call of a write, failed, interrupted or not, keeps the protocol's invariant |
| Publication.ReadersAreSafe | crates/retrograd-checkpoint/src/lib.rs:543-555 | after any history of writes, failures and crashes, half-finished removals included, the directory a reader picks is the whole one published last; before the first publication there is none |
| Publication.OnlyPublishingChangesWhatReadersSee | crates/retrograd-checkpoint/src/lib.rs:676-682 | the directory a reader picks holds the same before and after each step of any run, but for the rename into place, after which it is the completely staged directory of the write under way |
| Publication.ReadersReadACompletedWrite | crates/retrograd-checkpoint/src/lib.rs:804-891 | names the call of the run whose directory a reader finds, the last to be renamed into place: every reader since then finds what it staged, `read` accepts that exactly under `Accepted`, gives back all that call was given but artifacts and the bundle's length and digest, and the artifacts, too, exactly under `ReadsBack` |
| Writing.Disk.Write | crates/retrograd-checkpoint/src/lib.rs:633-686 | `write` only makes steps of the protocol, begun with this request; nothing but its staged directory is ever published, and success means that it is in place, alone and whole; if no call fails the file system ends with just that directory, or, if the payloads did not land, as it was and without the temporary directory; this, unless a manifest was left there or comes as a payload, holds nothing else a loader accepts |
| Writing.Disk.WriteInto | crates/retrograd-checkpoint/src/lib.rs:727-799 | staging ends with exactly the staged directory, or, unless a manifest was left there or comes as a payload, with one a loader refuses, or died with it complete |
| Writing.Disk.PutInPlace | crates/retrograd-checkpoint/src/lib.rs:676-686 | after the rename the new directory is published and the backup goes; a failed rename never loses what was published; an error after the rename takes a checkpoint that was published before |
| Writing.Disk.RollBack | crates/retrograd-checkpoint/src/lib.rs:676-682 | publishes nothing, and if no further call fails leaves the previous checkpoint in its place and neither backup nor temporary directory |
| Writing.Lifetime | crates/retrograd-checkpoint/src/lib.rs:633-707 | any number of requests on a disk that may fail at every call: each is begun and has its outcome, readers are safe at every moment and find what one of these requests staged, in the end the one renamed into place last, every request that succeeded being so |
| Leftovers.WhenAnUnpublishedDirectoryLoads | crates/retrograd-checkpoint/src/lib.rs:623-686 | an attempt that brings no other manifest may end, by death or by error, unpublished and with a directory a loader accepts exactly if it gets past its payload writer and `read` accepts what it stages |
| Leftovers.WhenAnInterruptedWriteLoads | crates/retrograd-checkpoint/src/lib.rs:623-625 | over an emptied temporary directory, no payload going by the manifest's name, the same in checks on the request alone: declared files among the payloads, payload length, versions, file list, slot table, required artifacts |
| Leftovers.LeftoversReadWhole | crates/retrograd-checkpoint/src/lib.rs:623-632 | at every moment of an attempt that brings no other manifest, and after it whatever its end, its temporary directory is refused, or reads as the checkpoint being written up to artifacts that can be recreated |
| Leftovers.AnOldManifestMayLoadAMix | crates/retrograd-checkpoint/src/lib.rs:623-625 | the run in which a manifest left behind makes a directory load that mixes two checkpoints |
| Leftovers.AnErrorMayFollowTheRename | crates/retrograd-checkpoint/src/lib.rs:684-686 | whenever a previous checkpoint was set aside, a write can end after its rename with the backup still there, and is published nevertheless |
| CheckpointFormat.StagedIsRead | crates/retrograd-checkpoint/src/lib.rs:727-891 | `read` accepts a staged directory exactly under `Accepted`, and returns what was given: every record, the manifest but for its bundle, the bundle's file and signature, the declared artifacts; length and digest are those of the bundle's file |
| CheckpointFormat.WriteThenRead | crates/retrograd-checkpoint/src/lib.rs:727-891 | a staged directory reads back with all that was given, artifacts included, exactly under `ReadsBack`; without a bundle it is the same checkpoint |
| CheckpointFormat.ReadIsWhatTheDirectoryHolds | crates/retrograd-checkpoint/src/lib.rs:804-891 | the checks of `read`, one after the other, come to one condition on the directory: it returns a checkpoint if and only if its parts are there at the current versions, every file it names, every required artifact and a table in order |
| CheckpointFormat.WhenStaged | crates/retrograd-checkpoint/src/lib.rs:733-762 | `write` gets past the payload writer if and only if adapter, bundle and optimizer state, as declared, landed or were there, the last with the declared length |
| CheckpointFormat.SomeAcceptedCheckpointsDiffer | crates/retrograd-checkpoint/src/lib.rs:727-891 | a checkpoint that is written and read without complaint and comes back different |
| CheckpointFormat.SomeStagedCheckpointsAreUnreadable | crates/retrograd-checkpoint/src/lib.rs:727-799 | a checkpoint that is written without complaint and refused by `read` |
| CheckpointFormat.PayloadsSurviveUnderOtherNames | crates/retrograd-checkpoint/src/lib.rs:733-797 | a payload arrives as it was given if and only if it goes by none of the names `write` uses itself |
| CheckpointFormat.BundleIsRecordedAsFound | crates/retrograd-checkpoint/src/lib.rs:785-797 | length and digest recorded of the trainable bundle are those of the file found under its name, unless that is the manifest's |
| CheckpointFormat.PartsAreNeverReadPiecemeal | crates/retrograd-checkpoint/src/lib.rs:801-803 | a directory that lost files is refused or reads as the whole did, up to recreatable artifacts |
| SlotTable.ValidateSlotTable | crates/retrograd-checkpoint/src/lib.rs:578-612 | accepts exactly the tables no two rows of which agree in scope, owner and slot, whose rows follow each other from byte 0 on and which end at the declared length; otherwise names the first row at fault and its fault, checked in this order |
| SlotTable.EveryByteHasExactlyOneRow | crates/retrograd-checkpoint/src/lib.rs:578-582 | in an accepted table each payload byte belongs to one row and no other |
| SlotTable.NoRowReadsPastTheEnd | crates/retrograd-checkpoint/src/lib.rs:505-513 | no row of an accepted table reaches past the payload |
| SlotTable.RowsSpellThePayload | crates/retrograd-checkpoint/src/lib.rs:445-446 | the rows' payloads in order are the payload file |
| SlotTable.ChunksSpellThePayload | crates/retrograd-checkpoint/src/lib.rs:485-487 | the chunks of a slot are its payload, at consecutive offsets, none empty, all but the last filling the buffer |
| SlotTable.OptimizerStateReader.Open | crates/retrograd-checkpoint/src/lib.rs:465-483 | refuses exactly the files whose length is not the declared one |
| SlotTable.OptimizerStateReader.Stream | crates/retrograd-checkpoint/src/lib.rs:488-529 | refuses an empty buffer, an overflowing or an outlying range, in that order; else delivers the slot's chunks until the receiver refuses one |
| SlotTable.Restore | crates/retrograd-checkpoint/src/lib.rs:488-529 | streaming every slot of an accepted table through any buffer delivers the payload file byte for byte |
| SlotTable.AssignmentIsComparedByParameter | crates/retrograd-checkpoint/src/lib.rs:222-234 | two assignments pass exactly when each parameter has the same rows in the same order in both |
| SlotTable.SwappedRowsDiffer | crates/retrograd-checkpoint/src/lib.rs:222-234 | two rows of one parameter, swapped, are refused |
| Resume.StagedPayloadIsTiled | crates/retrograd-checkpoint/src/lib.rs:733-762 | the payload of a readable checkpoint is the one its writer was asked for, of the declared length and tiled by its slots |
| Resume.RestoreFrom | crates/retrograd-checkpoint/src/lib.rs:462-529 | a directory whose slot table and payload length are in order yields its whole payload, any other nothing |
| Resume.ResumeAfter | crates/retrograd-checkpoint/src/lib.rs:462-555 | after any history of writes, failures and crashes a reader streams out byte for byte the payload of the request published last, if `read` accepts what that staged |
| Fingerprint.MixIsABijection | crates/retrograd-checkpoint/src/fingerprint.rs:46-51 | one byte through one lane is a bijection of the 64-bit state |
| Fingerprint.XorIsBitwise | crates/retrograd-checkpoint/src/fingerprint.rs:46-51 | the exclusive or of the model is what its name says, bit by bit |
| Fingerprint.BytesReachTheLowestBits | crates/retrograd-checkpoint/src/fingerprint.rs:46-51 | a byte reaches the lowest eight bits of a lane only |
| Fingerprint.ComplementFlipsEveryBit | crates/retrograd-checkpoint/src/fingerprint.rs:46-51 | the complement of a byte has each bit the other way round |
| Fingerprint.SecondLaneReadsComplements | crates/retrograd-checkpoint/src/fingerprint.rs:13-16 | the second lane is the first lane's rule over the complement of each byte, and the lanes never mix |
| Fingerprint.OneByteChangesTheFingerprint | crates/retrograd-checkpoint/src/fingerprint.rs:13-21 | inputs of any length that differ in one byte have different fingerprints |
| Fingerprint.FingerprintPieces | crates/retrograd-checkpoint/src/fingerprint.rs:23-25 | the fingerprint depends on the concatenated bytes only, however they are split |
| Fingerprint.Fingerprinter.Update | crates/retrograd-checkpoint/src/fingerprint.rs:46-51 | the loop over the bytes absorbs them in order into both lanes |
| Fingerprint.FinishIsInjective | crates/retrograd-checkpoint/src/fingerprint.rs:53-55 | the 32 digits determine both lanes |
| Fingerprint.FinishSpellsTheLanes | crates/retrograd-checkpoint/src/fingerprint.rs:53-55 | the digits are the lower-case hexadecimal numbers of the two lanes, the first lane first |
| Fingerprint.FingerprintOfNothing | crates/retrograd-checkpoint/src/fingerprint.rs:38-44 | what the lanes start from |
| FingerprintCache.FingerprintFile | crates/retrograd-checkpoint/src/fingerprint.rs:94-107 | however the reads come back, the digest is the whole file's |
| FingerprintCache.Run | crates/retrograd-checkpoint/src/fingerprint.rs:67-92 | the calls of a process are answered as the cache rule says |
| FingerprintCache.AnswersAreRightIffChangesShow | crates/retrograd-checkpoint/src/fingerprint.rs:58-66 | all answers of a run are right if and only if no file changes its content, between two calls about it, without changing size or time |
| FingerprintCache.ARewriteMayGoUnnoticed | crates/retrograd-checkpoint/src/fingerprint.rs:64-66 | the two calls that are answered from memory although the file was rewritten |
| Machine.MovesAreComplete | examples/register_machine/machine.py:180-200 | the listed moves reach every state a command of the language reaches, and only legally |
| Machine.PredecessorsAreExact | examples/register_machine/machine.py:203-230 | the hand-written reverse edges are exactly the reverse of `step`, for any register count and value range |
| Machine.LegalIsMove | examples/register_machine/machine.py:159-177 | a legal command keeps every register in range and does to some positions what its operation does |
| Machine.ArithmeticActsOnItsRegister | examples/register_machine/machine.py:152-170 | `add` and `sub` change the register they name, found by its place among the task's names, by their amount, and no other, or are refused for leaving the range |
| Machine.TransferActsOnItsRegisters | examples/register_machine/machine.py:152-177 | `copy` writes the first register into the second, `swap` exchanges the two |
| Machine.ForeignCommandsAreRefused | examples/register_machine/machine.py:152-163 | an operation that is not allowed is refused, and so is a register the task does not have |
| Machine.CommandsAscend | examples/register_machine/machine.py:180-191 | the commands come by operation as allowed, then by register, then by amount or second register |
| Machine.MovesAscend | examples/register_machine/machine.py:194-200 | the moves come in the order of their commands |
| BackwardSearch.Search | examples/register_machine/machine.py:234-244 | the search terminates, and its map holds exactly the states that reach the goal, each at its shortest distance |
| Distances.ShortestDistances | examples/register_machine/machine.py:233-252 | the map gives each state the length of its shortest program, and a state is missing exactly when no program reaches the goal |
| Distances.CommandGainsAtMostOne | examples/register_machine/reward_server.py:23-29 | a command lowers the true distance by at most one and never leads out of a dead end |
| Distances.SomeMoveGainsOne | examples/register_machine/machine.py:255-257 | from every state that can reach the goal some listed move brings it one command closer |
| Distances.Solve | examples/register_machine/machine.py:255-270 | terminates; returns nothing exactly when the goal is out of reach, and else a shortest program, each command of which is the first move there that comes one command closer |
| Distances.BothDirectionsAreShallow | examples/register_machine/README.md:76-77 | with both `add` and `sub` the depth never exceeds the register count, nor the position behind the last register that differs from the goal |
| Grammar.ParseCommandIsTheGrammar | examples/register_machine/machine.py:60-77 | a line parses as a command exactly when it is spelled by the grammar, letter case and white space as the patterns allow |
| Grammar.PrintParses | examples/register_machine/machine.py:56-57 | a printed command reads back as itself |
| Grammar.AnyCaseParses | examples/register_machine/machine.py:56-77 | a printed command reads back as itself in any mixture of upper and lower case |
| Grammar.AsciiLinesSpeakTheLanguage | examples/register_machine/machine.py:56-77 | whatever parses of an ASCII line is a command of the language, operation in lower and registers in upper case |
| Grammar.RunProgram | examples/register_machine/machine.py:283-298 | the loop stops at the first line that cannot run, for the reason it cannot |
| Grammar.RunsAreExecutions | examples/register_machine/machine.py:283-285 | whatever was written, the lines that ran are a legal program of that many commands, never more than the limit |
| Grammar.RunsStopWhereTheyMust | examples/register_machine/machine.py:283-298 | a run stops no earlier than it must: at a line past the limit, outside the grammar or refused in the state reached, for that reason, or when there is no line left |
| Grammar.SpelledProgramRuns | examples/register_machine/machine.py:283-298 | a program within the limit runs to its end, however it is spelled |
| Grammar.SolveAndRun | examples/register_machine/machine.py:255-298 | the solver's program, printed, read back and run, ends without error on the goal |
| Grading.WhiteSpaceOfBothLanguages | examples/register_machine/machine.py:56-57 | what the patterns take for white space is what the Rust side does, and four control characters |
| TaskText.ParseUndoesRender | examples/register_machine/machine.py:126-149 | `parse` undoes `render` for every task and limit, singular included |
| TaskText.ParseFindsTheTask | examples/register_machine/machine.py:137-149 | a rendered task is found wherever it stands in a prompt no earlier line of which looks like its start |
| TaskText.ParsedTasksAreValid | examples/register_machine/machine.py:110-120 | whatever `parse` accepts has two to four registers holding digits, some operations in order without repeats, and a positive limit |
| TaskText.ParseReadsWhatIsWritten | examples/register_machine/machine.py:80-149 | whatever `parse` accepts stands in the text as the task it returns, in the first four lines that look like one |
| TaskText.RenderedTask | examples/register_machine/machine.py:124-134 | a task as it stands in a prompt, word for word |
| Reward.ScoreCompletion | examples/register_machine/reward_server.py:112-160 | scores exactly the prompts that hold a task whose goal is reachable from another start, in terms of the true distances |
| Reward.SomeTaskIsGradable | examples/register_machine/reward_server.py:114-118 | there are tasks to score |
| Reward.RewardIsBounded | examples/register_machine/reward_server.py:9-21 | every completion earns between 0 and 1 |
| Reward.RewardIsOneIffPerfect | examples/register_machine/reward_server.py:12-21 | 1 is earned exactly by one block, nothing around it, that spells a shortest program within the limit |
| Reward.ProgressIsEarnedByCommands | examples/register_machine/reward_server.py:23-31 | k commands that ran earn at most k parts in d_start of the progress, half of it after an error |
| Reward.MovingAwayEarnsNothing | examples/register_machine/reward_server.py:53-58 | a program that ends farther from the goal, or in a dead end, earns 0 |
| Reward.SolvingOutranksEverythingElse | examples/register_machine/reward_server.py:12-21 | any solving completion outranks any other |
| Grading.ProgressIsCredited | examples/register_machine/reward_server.py:23-31 | each command that ran is credited with how much it shortened the true distance, half as much after an error; in parts of d_start the credits are the progress, and moving away or into a dead end leaves none |
| Grading.SomeProgramRan | examples/register_machine/reward_server.py:129 | whatever a block holds, some program ran of it |
| Grading.PartsOfTheScore | examples/register_machine/reward_server.py:112-160 | syntax is the share of the lines that are commands, scaled for length and forfeited by moving away; format, solved and efficiency are earned exactly under their conditions, each at its weight |
| Grading.NoBlockEarnsNothing | examples/register_machine/reward_server.py:30-31 | without a block the reward is 0 and nothing ran |
| Grading.BlocksAreCutOut | examples/register_machine/reward_server.py:91-126 | the blocks are cut out of the completion from the left, each from an opening tag to the next closing one; what is outside is all the rest |
| Grading.LinesEndAtBreaks | examples/register_machine/reward_server.py:123 | a block is cut into lines at every line break and nowhere else, a carriage return with its line feed being one |
| Grading.BlankLinesDoNotCount | examples/register_machine/reward_server.py:123 | only lines that hold something count, in order |
| Reference.ShortestAnswerIsPerfect | examples/register_machine/generate.py:111-114 | a shortest program written between the program lines earns 1 exactly if it fits the limit |
| Reference.ScoreReference | examples/register_machine/generate.py:111-124 | task to prompt, solver, written answer, and back through both parsers, the machine and the reward: the score is 1 exactly if the limit allows for the distance |
| HermesStream.CommittedLength | crates/retrograd-agent-core/src/parser.rs:130-143 | the loop computes the committed offset |
| HermesStream.PartialMarkerIsLongest | crates/retrograd-agent-core/src/parser.rs:146-159 | what is held back is the longest trailing beginning of a marker |
| HermesStream.CommittedNeverDecreases | crates/retrograd-agent-core/src/parser.rs:127-129 | for every stream and every extension the committed offset never decreases |
| HermesStream.CommittedEndsBetweenMarkers | crates/retrograd-agent-core/src/parser.rs:127-143 | the committed part holds no open block, and no marker, whatever arrives, will lie across its end |
| HermesStream.AllIsCommittedWhenClosed | crates/retrograd-agent-core/src/parser.rs:130-143 | all is committed exactly when every block is closed and no marker prefix trails |
| HermesStream.PartialReadsAreNeverRetracted | crates/retrograd-agent-core/src/parser.rs:47-50 | every later partial read, and the full read, begins with the content and the calls already handed out |
| HermesStream.PartialReadOfAClosedTurnIsFull | crates/retrograd-agent-core/src/parser.rs:130-143 | of a closed turn the partial read is the full read |
| HermesStream.FullReadIs | crates/retrograd-dataset/src/chat_template.rs:688-715 | the full read hands out the trimmed text around the closed blocks and the blocks that decode, in order |
| HermesStream.ParseReadsTheBlocks | crates/retrograd-dataset/src/chat_template.rs:688-715 | a turn is cut into blocks from the left; each block is a call or an error under its number, an unclosed one at the end included, and no other text is lost |
| HermesStream.TrimDropsSpace | crates/retrograd-dataset/src/chat_template.rs:704-713 | trimming drops the white space at both ends and nothing else |
| Collect.KeepBest | crates/retrograd-agent/src/collect.rs:244-336 | the sink receives exactly the kept records in order, and the counters account for every candidate |
| Collect.NothingBetterIsLeftOut | crates/retrograd-agent/src/collect.rs:241-243 | kept traces pass, can be written, repeat no fingerprint and stand best first; one is left out only for its like that ranks no worse or for a full cap of such |
| Collect.BestAreKeptFirst | crates/retrograd-agent/src/collect.rs:273-280 | in plain figures: a kept trace earned no less than those behind it, those of its fingerprint and those of no kept fingerprint, is no longer if it earned as much, and of no later member if as long |
| Collect.OtherTurnsDoNotCount | crates/retrograd-agent/src/collect.rs:635-643 | a fingerprint is made of all that the assistant said and all that was observed, in order, and of nothing else |
| Collect.RecordsSayWhereTheyComeFrom | crates/retrograd-agent/src/collect.rs:306-325 | the records are those of the kept traces in order, each with scenario, seed, member, reward, verdict, number of assistant turns and pass rate |
| Collect.PassRateIsTheShareThatPasses | crates/retrograd-agent/src/collect.rs:262-271 | the pass rate is the share of the attempts that pass every filter, written or not |
| Collect.EveryCandidateIsAccountedFor | crates/retrograd-agent/src/collect.rs:262-325 | candidates are the filter rejections, the unexportable, the duplicates, those over the cap and the kept |
| Collect.FiltersAreCountedInOrder | crates/retrograd-agent/src/collect.rs:606-620 | each filter's counter grows by the attempts it is the first to hold back |
| Collect.KeptAndDroppedAreCounted | crates/retrograd-agent/src/collect.rs:284-305 | as many traces are kept as there are different fingerprints, up to the cap; the other counters are exact |
| Collect.RankingIsTotalWithoutTies | crates/retrograd-agent/src/collect.rs:273-280 | the passing attempts have one order under the ranking if and only if no two different ones share reward, length and member |
| Collect.KeptDoesNotDependOnOrder | crates/retrograd-agent/src/collect.rs:273-280 | in whatever order attempts without ties come in, the same traces are kept in the same order |
| Attempts.RankingIsTotal | crates/retrograd-agent/src/collect.rs:273-280 | the order is total: whatever the attempts at a scenario came to, the candidates made of them have one order only |
| Attempts.CandidatesAreNumbered | crates/retrograd-agent/src/collect/api.rs:104-133 | each candidate carries the number of its attempt and the seed that was made with it, no two the same number |
| Attempts.Grade | crates/retrograd-agent/src/collect/api.rs:111-133 | one loop counts the attempts that failed, were cut short or not graded, and makes candidates of the others in order |
| Attempts.EveryAttemptIsAccountedFor | crates/retrograd-agent/src/collect/api.rs:109-142 | every attempt at a scenario failed, is kept, or lands on exactly one counter |
| Attempts.CollectFromApi | crates/retrograd-agent/src/collect/api.rs:97-145 | outside pairs mode: with room for them the sink gets the records of every scenario before an interrupt in order, and the books balance; without it, as many as fit |
| Duplicates.KeptIffFewAreAhead | crates/retrograd-agent/src/collect.rs:241-243 | a fingerprint is kept if and only if fewer than `keep` others have a passing, writable attempt that ranks before all of its own |
| Duplicates.DuplicatesAreCounted | crates/retrograd-agent/src/collect.rs:298-301 | `duplicate` grows by the passing, writable attempts that another one with the same fingerprint ranks before |
| Duplicates.OverTheCapAreCounted | crates/retrograd-agent/src/collect.rs:302-305 | `over_keep` grows by the fingerprints that at least `keep` others are ahead of |
| Duplicates.WhatDuplicatesRepeat | crates/retrograd-agent/src/collect.rs:89-90 | every duplicate repeats a kept trace if and only if of no fingerprint that two passing, writable attempts share are `keep` others ahead |
| Attempts.ADuplicateMayRepeatNothingKept | crates/retrograd-agent/src/collect.rs:298-305 | three attempts, of which the third is counted as duplicate and is like nothing that is kept |
| Pairs.KeepPair | crates/retrograd-agent/src/collect.rs:345-453 | each group ends in exactly one of five ways, counted on its counter, and only a kept pair reaches the sink |
| Pairs.KeptPairIsBestAgainstWorst | crates/retrograd-agent/src/collect.rs:338-343 | a kept pair sets the best passing trace against the worst other that can be written, in plain figures the longer of two equal failures, at least the gap apart |
| Pairs.NoGapMeansNoPairIsFarEnoughApart | crates/retrograd-agent/src/collect.rs:389-405 | a group is refused for its gap exactly when no passing and other writable trace lie that far apart, or nothing passes |
| Pairs.Decide | crates/retrograd-agent/src/collect.rs:362-437 | the searches for the best passing and the worst other trace and the checks behind them end as specified |
| Pairs.WhyNoPairIsKept | crates/retrograd-agent/src/collect.rs:362-437 | when a group is too small, when it has nothing writable to be rejected, and, once the gap is wide enough, when it fails on its records and when on its prompts |
| Pairs.PairsAreCutAtTheLongestPrompt | crates/retrograd-agent/src/collect.rs:455-486 | prompt and response rebuild both traces, the prompt is the longest that ends with a user turn or an observation and that both answer, and there is none exactly when none is shared or the tools differ |
| Pairs.SeedsAreDistinctUpToTheWordSize | crates/retrograd-agent/src/collect.rs:203-209 | no two attempts share a seed exactly while there are at most 2^64 |
| Pairs.RepeatedSeed | crates/retrograd-agent/src/collect.rs:203-209 | beyond 2^64 attempts, the one that repeats the seed of the first |
| Trajectory.Validate | crates/retrograd-agent-core/src/trajectory.rs:147-203 | accepts exactly the valid trajectories, and otherwise names a true fault |
| Trajectory.TrainedTokensLieInOnePolicyAction | crates/retrograd-agent-core/src/trajectory.rs:174-193 | each trained token lies in exactly one step, a policy action |
| Trajectory.RewardsToGo | crates/retrograd-agent/src/train.rs:41-57 | one right-to-left pass gives the returns of all tokens, the trained ones among them |
| Trajectory.TrainSequencesAreTheirTrajectories | crates/retrograd-agent/src/train.rs:18-65 | a trajectory is refused exactly when it is not valid, partial and such are dropped, or not rewarded; else it is trained on as it is, with its own reward and all that its steps earned |
| Trajectory.UngradedStepsEarnNothing | crates/retrograd-agent-core/src/trajectory.rs:210-219 | each graded step counts once in the sum, each other one not at all |
| Trajectory.ReturnsAlignAndDifferByTheRewardsBetween | crates/retrograd-agent/src/train.rs:30-65 | returns stand one to one with the log-probabilities, and two differ by the rewards of the steps that start between their tokens |
| Trajectory.ReturnsWithinOneStep | crates/retrograd-agent/src/train.rs:48-54 | within a step all returns agree, but for its own reward, which reaches its first token only |
| Utf8.FloorBoundary | crates/retrograd-agent-core/src/text.rs:26-33 | the largest character boundary at or below a position |
| Utf8.Text.Truncate | crates/retrograd-agent-core/src/text.rs:13-24 | fitting text stays; other text becomes a beginning of itself and of the marker, valid, within the cap, each cut at the last boundary that fits and less than four bytes short |
| Utf8.BoundarySplits | crates/retrograd-agent-core/src/text.rs:22-23 | cut at a boundary, valid UTF-8 stays valid on both sides |
| Utf8.OnlyBoundariesSplit | crates/retrograd-agent-core/src/text.rs:22-33 | boundaries are exactly the places where both sides of a cut are valid |
| Utf8.CharactersAreEncodedScalars | crates/retrograd-agent-core/src/text.rs:22-33 | the characters of valid text are exactly the encodings of section 3 of RFC 3629 |
| Wrap.Wrapped | crates/retrograd-cli-ui/src/stream.rs:166-199 | the loop wraps as specified word by word; no line is too wide, no ink is lost or moved unless the width is 0, no word that fits is cut and no line is broken early |
| Wrap.StartWord | crates/retrograd-cli-ui/src/stream.rs:177-186 | a word goes behind the open line if it fits there and else on a new, indented one |
| Wrap.SpanRows | crates/retrograd-cli-ui/src/stream.rs:112-133 | every full-width row is as wide as the borders, for every table with a column, and holds its line between bars and blanks |
| Wrap.Rule | crates/retrograd-cli-ui/src/stream.rs:139-149 | a border, character by character, and its width |
| Distribution.PercentileIsMonotone | src/bench/mod.rs:171-177 | a higher quantile never has a lower value |
| Distribution.MedianIsTheMiddle | src/bench/mod.rs:171-177 | the median is the middle sample or lies half-way between the two middle ones |
| Distribution.PercentilesInterpolate | src/bench/mod.rs:171-177 | between two neighbouring samples a percentile lies on the line that joins them, at a sample's own quantile on the sample |
| Distribution.DecilesAreSamples | src/bench/mod.rs:160-165 | of ten times m and one samples p10 is the one that m stand before, p90 the one that m stand behind |
| Distribution.VarianceBound | src/bench/mod.rs:154-159 | the variance is at most the product of the mean's distances to the extremes |
| Distribution.MeanAndVarianceAreMoments | src/bench/mod.rs:153-159 | the mean is the sum over the number, the variance the mean of the squares less the square of the mean |
| Distribution.FiguresAreOrdered | src/bench/mod.rs:149-168 | low, p10, median, p90 and high stand in order, and so do low, mean and high |
| Distribution.ExtremesAreSamples | src/bench/mod.rs:161-166 | low and high are samples, and none lies outside them |
| Distribution.FiguresDoNotDependOnOrder | src/bench/mod.rs:152 | the order of the samples changes no figure |
| Bf16.SignAndMagnitude | scripts/gen-tiny-fixture.py:141-151 | the sign survives and the rounded magnitude never leaves its bits |
| Bf16.RoundsToNearestEven | scripts/gen-tiny-fixture.py:141-151 | no value of the grid is nearer than the one chosen, ties go to the even one, the error is at most half a step |
| Bf16.RoundingIsMonotone | scripts/gen-tiny-fixture.py:151 | larger magnitudes never round to smaller ones |
| Bf16.NaNStaysQuietNaN | scripts/gen-tiny-fixture.py:149-150 | not-a-number stays one, with its sign, and becomes quiet; no other of its upper bits changes |
| Bf16.SnapIsIdempotent | scripts/gen-tiny-fixture.py:154-156 | snapping twice is snapping once, so grid values survive storage |
| Gguf.Build | scripts/gen-tiny-fixture.py:343-374 | the growing header, running offset and padded body make the file of the specification |
| Gguf.HeaderReadsBack | scripts/gen-tiny-fixture.py:265-291 | a reader of the format gets metadata and tensor records back as written |
| Gguf.FileIsMarked | scripts/gen-tiny-fixture.py:343-353 | the file begins with the four letters of its magic and the format version |
| Gguf.RecordedOffsetsFindThePayloads | scripts/gen-tiny-fixture.py:353-374 | every recorded offset is aligned and is where that tensor's payload lies; payloads do not overlap; the data starts on an alignment boundary |
| StableSort.SortIsStable | crates/retrograd-agent/src/collect.rs:275-282 | attempts that compare equal keep their order |
| StableSort.OneArrangementIffNoTies | crates/retrograd-agent/src/collect.rs:273-280 | sorting determines the order of given elements if and only if no two different ones compare equal |

## Left out

- Power loss and `fsync`: a rename is atomic and what a call wrote stays; the process may die between any two calls.
- A reader that is still reading while a write publishes: readers are taken to read one moment's directory.
- The temporary directory's name carries a process and a counter; the model has one such directory and lets it hold anything an earlier attempt may have left, a manifest included.
- The sibling GGUF export of `write`, paths without a parent or a name, and a file standing where the checkpoint directory belongs.
- `check_compatible` and the configuration checks: long lists of comparisons, one branch each.
- MessagePack, SHA-256 and JSON: a document is what it encodes, digests are parameters, and the digest of a record's turns is taken to be injective.
- Error texts; errors are distinguished where the code returns early, and `CheckpointFormat.Read` names the first check that fails.
- A file that changes while `fingerprint_file_cached` hashes it.
- `_distances` is memoized per goal and operations; the model computes it each time.
- The pattern `\d` of the task grammar also matches digits of other scripts; the model reads ASCII digits.
- Floating point in rewards, returns and percentiles: reals instead, so no rounding to six digits, no infinities, no NaN and no negative zero; the standard deviation is left as its variance.
- `serve` and `explain` of the reward server, and the sampling of tasks by the generator.
- Decoding the body of one tool call (`parse_call`) is a parameter of the streaming reader; the grammar engines other than this fallback are not modelled.
- Validation of a finished preference pair is a parameter, and the metadata of records and pairs is kept as far as it is computed here, without the generator's name and form.
- `keep_best` hands over to `keep_pair` when pairs are configured: the two are modelled as two methods, without that dispatch, and without the progress callback.
- `score_group`, judging and the asynchronous rollouts, and what a remote model answers: what each attempt came to, its length included, is a parameter. Configuration checks and the `interrupted` flag of a collection.
- ANSI colours in table rows; widths count characters, as the code does.
- The conversion of a double to 32 bits before BF16 rounding, F16 and Q8_0 storage, the random stream behind the weights, and what the fixture's metadata says.
- `truncate_dataset`, `greatest_divisor` and the printing of benchmark rows.
