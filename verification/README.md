# Proofs about the trace dashboard and its stream checks

The repository holds a RISC-V trace encoder and the Python programs around it: programs that cut
the encoder's Nexus byte stream into messages, read it back out of ring buffers, drive the
encoder's registers, compile a recorded PC sequence into a stimulus, and publish recordings. This
project models those programs in Dafny, one module per component, and proves what they promise.

Code that changes things step by step is modelled by methods with loops and by classes, and each
method is tied by its `ensures` to a specification function; the lemmas are about these functions.

| module | component |
|---|---|
| `Nexus`, `Resync`, `Readers`, `Codec`, `SyncWindow` | the framing grammar, its five readers, the field codec and the sync-gap gate |
| `DdrDump`, `UramRing`, `Console` (with `Modular`, `RingCells`) | ring buffers against the streams they abbreviate |
| `RunControl`, `EncoderRegs`, `SplitRead` | run bits and protocol interlock, gated registers and arming, the HI-LO-HI read |
| `Replay` | the trace-to-stimulus compiler and the CPU model that runs its output |
| `CallStack` | shadow call stack and instruction counts |
| `JsScan`, `JsGrammar`, `Rdl` | the JavaScript comment scanner, the scripts it reads rightly, and the register-description preprocessor |
| `Sanitize`, `PublicForm`, `Differences`, `Neutrality` | the recording sanitiser and its comparator, what each does at every path, and what comparing a recording with its public form can report |

`Commons`, `Seqs`, `Modular` and `RingCells` hold what several modules share.
`dafny verify dfyconfig.toml` checks everything.

## What the proofs found

Some promises hold only under a condition. The code is modelled as it is; the lemmas named here
give the exact condition or a concrete input.

- **Sync window.** A window of B + L bytes (largest anchor gap plus longest message) already
  contains a complete anchor message after trimming, and one byte less does not
  (`SyncWindow.WindowGuarantee`, `SyncWindow.WindowBoundIsTight`).
- **DDR dump.** The capped dump of a wrapped ring of at least 32 bytes keeps its promise exactly when
  the start round-up is smaller than the cap (`DdrDump.SafeCaps`); a cap of 1 to 31 can return more
  than the cap, or the oldest bytes. The uncapped dump of a wrapped ring whose write pointer stands
  at a multiple of the ring size asks for an empty second part; with a page-aligned base the mapping
  of 0 bytes fails and so does the dump (`DdrDump.DumpKeepsPromise`, `DdrDump.DumpBreaksPromise`).
- **On-chip ring.** The hardware dump equals its specification exactly if it has not wrapped or the
  byte count is a whole number of beats (`UramRing.DumpExact`); otherwise the dump starts with the
  newest word and the tail ends a word early (`UramRing.DumpOutOfStep`, `UramRing.TailOutOfStep`).
  Switching the demo to one-shot mode keeps the ring right up to the ring capacity and leaves wrong
  bytes behind it (`UramRing.TickMirrors`, `UramRing.LateOneShotBreaks`).
- **Console.** A poll records the right bytes exactly if what it wants and what arrives between its
  counter read and its ring read fit into the ring together (`Console.PollExact`;
  `Console.TornPoll` is an instance where they do not). As long as every poll has that room, every
  recorded byte is the one its poll was after; a ring that drops instead of overwriting is lossless
  in every run.
- **Protocol interlock.** `cva6_run` sets its bit without asking. It keeps the protocols exclusive
  exactly if the interlock would have let its core start (`RunControl.CvaRunExact`); in the shipped
  three-core scenario, starting core 0 and then `cva6_run` runs two protocols
  (`RunControl.CvaRunBreaksExclusion`).
- **Run control.** Stop, run, core_run and core_stop do what they say (`RunControl.Bus.Act`); a single
  core is changed alone exactly if no running core without a bit of its own shares a release bit with
  another (`RunControl.SetRunExact`).
- **Refused writes.** A write is refused exactly when no writable field takes writes
  (`EncoderRegs.RefusesExact`); it would have changed no field, except that a locked
  write-1-to-clear field would have been cleared (`EncoderRegs.RefusedWriteEffect`).
- **Split read.** The comment calls the combined PC exact; for a register that is no counter it is
  right exactly if the high word did not leave and come back within the attempt
  (`SplitRead.StableIsExactIff`, `SplitRead.JumpAwayAndBack`).
- **Replay.** The replay is exact, for a CPU of any stride, if and only if jumps, calls and returns
  of the recorded sequence agree with the pcinfo and it advances by that stride behind every
  sequential instruction and untaken branch (`Replay.ReplayExact`). By the documented mapping table,
  where the stride is the pcinfo size, the second part always holds (`Replay.MappingExact`); the test
  bench CPU steps by 4 bytes, so with compressed instructions it need not
  (`Replay.CpuModelExact`, `Replay.CompressedRunLosesInstructions`).
- **Slashes.** The scanner tells divisions and regular expressions apart as its rules say unless a
  comment stands between the word in front and the slash (`JsGrammar.SlashExact`,
  `JsGrammar.KeywordHidden`).
- **Comment spans.** A span leaves the script body exactly if the body alone ends inside a block
  comment that something behind the body closes (`JsScan.InsideBody`, and read off the text in
  `JsGrammar.OpenBodyOverruns`).
- **Neutrality probe.** A dirty string takes the numbers in the same list with it, which the probe
  reports as lost payload; a NaN that survives is reported as a changed number
  (`Neutrality.ProbeVerdict`, `Neutrality.DirtyListLosesData`). The comment above the probe allows
  removed and rewritten strings only; the verdict also passes new keys with any data under them
  (`Differences.PassesExact`, `Differences.NewDataPasses`).

## Model

| member | source | states |
|---|---|---|
| Nexus.FrameMessages | scripts/check_addr64_emission.py:63-81 | the loop reports the messages, idle count and truncated tail of the only reading of the buffer as framed items plus an unfinished rest |
| Nexus.SplitInvertsFlatten | scripts/check_addr64_emission.py:63-81 | reading the bytes of any framed stream, with any unfinished rest behind, gives that stream and that rest back |
| Nexus.Unambiguous | scripts/check_addr64_emission.py:63-81 | two framed streams with the same bytes are the same stream: there is no second reading |
| Nexus.FramerBalance | scripts/check_addr64_emission.py:63-81 | on any buffer message lengths, idle bytes and truncated tail add up to the buffer length |
| Nexus.ReportedInPlace | scripts/check_addr64_emission.py:73-78 | every reported message is in the buffer at its reported offset |
| Nexus.ReportAppend | scripts/check_addr64_emission.py:63-81 | framing two streams one behind the other reports the messages of both |
| Resync.AlignToMessages | examples/dashboard/insight.py:41-63 | head, payload and tail partition the window; the payload starts behind the first end byte and ends with the last, or is empty |
| Resync.EndMarksBoundary | scripts/check_addr64_emission.py:70-78 | in a framed stream a byte with MSEO 11 stands exactly in front of each item boundary |
| Resync.SubStream | examples/dashboard/insight.py:41-63 | the bytes between two boundaries are a stream of their own, carrying exactly the messages there |
| Resync.WholeItems | examples/dashboard/insight.py:41-63 | framing the bytes between two boundaries leaves no truncated tail and yields the original messages inside |
| Resync.Resynchronised | examples/dashboard/insight.py:41-63 | for every window of every stream the payload is whole items, frames without a tail, and yields exactly the original messages behind the first boundary of the window |
| Resync.NothingSalvaged | examples/dashboard/insight.py:49-63 | the payload is empty exactly when no two item boundaries lie behind the start of the window |
| Readers.ScanMessages | examples/dashboard/insight.py:480-504 | the one-pass scan counts, per TCODE, the MSEO-00 bytes right behind an end byte, and the 0xFF bytes |
| Readers.MessageBoundaries | examples/dashboard/record_web_demo.py:154-167 | the list is the ascending list of those starts |
| Readers.ReadersAgree | examples/dashboard/insight.py:480-504 | on every capture, cut off or not, the scan has the framer's TCODE histogram, but skips a message at offset 0 and counts the start of a truncated one; the boundary list is the later offsets likewise; its idle count exceeds the framer's by the messages that end in 0xFF |
| Readers.PrefixScan | examples/dashboard/record_web_demo.py:292-336 | scanning a prefix gives the counts of the whole up to the cut |
| Readers.CutsAreClean | examples/dashboard/record_web_demo.py:154-167 | every offered cut lies on an item boundary: no truncated message in front of it |
| Readers.WithinJoin | examples/dashboard/record_web_demo.py:292-336 | the messages in front of a cut and those behind it are all messages |
| Readers.WindowMix | examples/dashboard/record_web_demo.py:292-336 | the difference of two prefix scans is the TCODE histogram of the messages between the cuts; in the window from byte 0 the skipped first message is missing |
| Codec.EncodeField | scripts/check_addr64_emission.py:103-118 | the loop emits the six-bit groups of the value, least significant first, only the last byte marked |
| Codec.FieldRoundTrip | scripts/check_addr64_emission.py:84-118 | decoding the groups gives the value back, for unbounded values; only the last byte carries the marker |
| Codec.LastField | scripts/check_addr64_emission.py:84-100 | None exactly when no end-of-field byte exists, else the number behind the last one |
| Codec.PacketShape | scripts/check_addr64_emission.py:121-163 | TCODE byte, fields and final field make one framed message with its TCODE |
| Codec.PacketLastField | scripts/check_addr64_emission.py:84-100 | the last field of an emitted message is the encoded value, also when the message ends in 0xFF |
| Codec.CaptureRoundTrip | scripts/check_addr64_emission.py:63-118 | framing any emitted list of messages and idle bytes with any unfinished rest recovers offsets, TCODEs, bytes, idle count and tail |
| Codec.CheckAddresses | scripts/check_addr64_emission.py:178-232 | the gate passes exactly when the wanted PC is carried in full and, if asked for, some carried PC reaches the bit |
| Codec.AddressesOfEmitted | scripts/check_addr64_emission.py:178-232 | on an emitted capture the carried addresses are exactly those the encoder put into synchronizing messages |
| SyncWindow.FrameLengths | scripts/check_sync_window.py:106-131 | the second framer agrees with the first: same offsets and TCODEs, the lengths of the same bytes, same idle count and tail |
| SyncWindow.CheckSyncGaps | scripts/check_sync_window.py:165-205 | passes exactly when the decoder's count, if given, equals the synchronizing messages framed, there are two anchors, and no two neighbours are further apart than the bound |
| SyncWindow.WindowGuarantee | scripts/check_sync_window.py:165-205 | if the gate passes with bound B and no message exceeds L bytes, every window of B + L bytes between first and last anchor keeps a complete anchor message after trimming |
| SyncWindow.WindowBoundIsTight | scripts/check_sync_window.py:165-205 | a stream, bound and window of B + L - 1 bytes that keeps none |
| DdrDump.PhysReadExact | examples/dashboard/server.py:876-906 | through page and 16-byte rounding a positive read returns exactly the cells [addr, addr + n); a read of at most 0 bytes is empty or fails on an empty mapping |
| DdrDump.HardwareReader | examples/dashboard/server.py:876-906 | the physical read is an exact reader in the sense the dump relies on |
| DdrDump.RingRead | examples/dashboard/server.py:1976-2000 | reading from the cell of the m-th newest byte, in one piece or two, gives consecutive stream bytes |
| DdrDump.WrappedUncapped | examples/dashboard/server.py:1963-2005 | the uncapped dump of a wrapped ring is the whole ring in chronological order, or fails when the second part is empty and the base page-aligned |
| DdrDump.WrappedCapped | examples/dashboard/server.py:1976-2000 | what the capped dump of a wrapped ring returns for every cap: the newest (cap - gap) mod size bytes, or the oldest cap bytes if that is 0 |
| DdrDump.Linear | examples/dashboard/server.py:1998-2005 | what the dump of an unwrapped buffer returns for every cap |
| DdrDump.BurstEdge | examples/dashboard/server.py:1971-2004 | a capped dump begins at an offset that is a multiple of 32, wrapped or not, if the ring size is one |
| DdrDump.DumpKeepsPromise | examples/dashboard/server.py:1963-2005 | under the condition the dump is all held bytes in order, or the newest k with cap - 31 <= k <= cap |
| DdrDump.DumpBreaksPromise | examples/dashboard/server.py:1984-1990 | outside the condition there is a memory content on which the promise fails |
| DdrDump.SafeCaps | examples/dashboard/server.py:1915-1923 | a cap of at least 32 always meets the condition; an uncapped dump misses it only at the aligned wrap |
| UramRing.DemoRing.Advance | examples/dashboard/server.py:1153-1191 | one tick moves the byte counter, writes whole words from the last partial one on, and sets the byte, beat and wrapped registers |
| UramRing.DemoRing.StoreWord | examples/dashboard/server.py:1180-1191 | one packed word changes its four cells and no other |
| UramRing.DemoRing.Clear | examples/dashboard/server.py:1241-1248 | clearing resets the counter and its registers and leaves the cells |
| UramRing.TickMirrors | examples/dashboard/server.py:1153-1191 | a tick keeps the ring a mirror of the stream |
| UramRing.EveryRunMirrors | examples/dashboard/server.py:1153-1191 | after any bursts and clears, with arbitrary initial cells, the ring mirrors the stream |
| UramRing.EveryRunCounts | examples/dashboard/server.py:1170-1178 | after any bursts and clears the byte counter is the sum of the bursts since the last clear, clipped at the capacity in one-shot mode |
| UramRing.MirrorsMeans | examples/dashboard/server.py:1153-1191 | mirroring says that cell j mod cap holds stream byte j for the last cap positions |
| UramRing.LateOneShotBreaks | examples/dashboard/server.py:1153-1191 | a one-shot switch behind the capacity breaks the mirror |
| UramRing.DumpIsNewest | examples/dashboard/server.py:1947-1961 | in step with the beat counter the hardware dump equals uram_dump: the newest min(bytes, size) stream bytes |
| UramRing.CappedDumpIsNewest | examples/dashboard/server.py:1943-1962 | and with a cap its last cap bytes |
| UramRing.DumpExact | examples/dashboard/server.py:1943-1962 | with beats = bytes / 4, it does so exactly when unwrapped or on a whole beat |
| UramRing.DumpOutOfStep | examples/dashboard/server.py:1943-1962 | wrapped and with a partial last beat it does not: it starts with the newest word |
| UramRing.TailIsNewest | examples/dashboard/server.py:2009-2032 | trace_tail(n) is the last min(n, held) bytes of the dump |
| UramRing.TailOutOfStep | examples/dashboard/server.py:2009-2032 | wrapped with a partial last beat it ends at the last whole word, and what lies a whole ring back is the word behind that |
| Console.ConsoleReader.PollOnce | examples/dashboard/server.py:2130-2170 | one poll turns the recording state into that of the specification, takes over the drop counter, hands back the counter as read pointer, and judges the read-back |
| Console.PollAccounts | examples/dashboard/server.py:2139-2162 | retained plus trimmed plus lost bytes account for the counter, clears included, and the buffer stays within its limit |
| Console.PollKeeps | examples/dashboard/server.py:2145-2166 | the recording keeps the newest of its bytes and the new ones, as many as its limit allows |
| Console.EveryRunLossless | examples/dashboard/server.py:2095-2170 | with a dropping ring, after any arrivals and polls, also arrivals within a poll, nothing is lost and the buffer is the accepted stream behind the trimmed head |
| Console.EveryRunSampled | examples/dashboard/server.py:2095-2170 | with any ring and any arrivals, as long as every poll has room: the buffer is the stream bytes at the positions the polls were after (the last min(new, cap) in front of each counter, front trimmed), and skipped bytes are counted as lost |
| Console.BlobExact | examples/dashboard/server.py:2147-2158 | the last n bytes in front of the counter are read right exactly when at most the ring capacity lies between the first of them and the end of the stream |
| Console.PollExact | examples/dashboard/server.py:2130-2158 | a poll that finds something new records the right bytes exactly when its bytes and those arriving meanwhile fit into the ring |
| Console.TornPoll | examples/dashboard/server.py:2139-2158 | an instance without room: one arrival within a poll of a full overwriting ring records a wrong byte |
| RunControl.RunMask | examples/dashboard/scenario.py:97-109 | the union of the bits that release a core |
| RunControl.Bus.WriteControl | examples/dashboard/server.py:1064-1084 | a CONTROL write stores the value and mirrors each core's effective state in STATUS |
| RunControl.Bus.SetCoreRun | examples/dashboard/server.py:747-791 | writes the word with only the target changed, or takes it back when STATUS contradicts it |
| RunControl.Bus.Act | examples/dashboard/server.py:3901-3952 | run, stop, core_run and core_stop: which are refused, that refused ones change nothing, and that one not taken back has done what it says: the cores it reaches run or have stopped, the restart pulse included, the others and all other bits are as before |
| RunControl.StopAllDone | examples/dashboard/server.py:3901-3929 | after stop no core that hangs off the collective bit runs, whichever of its bits released it; cores apart from these and all other bits are as before |
| RunControl.RunAllDone | examples/dashboard/server.py:3901-3927 | after an accepted run all of them run |
| RunControl.DeclaredReleases | examples/dashboard/scenario.py:97-109 | in every declared scenario the collective bit releases the cores that hang off it |
| RunControl.CollectiveExact | examples/dashboard/scenario.py:97-109 | and, if the names stand for different bits, no other core |
| RunControl.SetRunDone | examples/dashboard/server.py:747-791 | a change of one core that is not taken back has changed this core and no other |
| RunControl.RestartDone | examples/dashboard/server.py:3947-3952 | so has a start behind the stop of the running core, taken back or not |
| RunControl.SetRunExact | examples/dashboard/server.py:747-791 | with cores that have no bit of their own: a core runs behind the change exactly if it should, or if a running core without own bit shares a release bit with it |
| RunControl.SetRunTargetsOne | examples/dashboard/server.py:747-791 | set_core_run changes the effective run state of the target core and of no other |
| RunControl.SetRunKeepsOther | examples/dashboard/server.py:747-791 | every CONTROL bit that releases no core keeps its value |
| RunControl.NeverRestored | examples/dashboard/server.py:775-791 | with a STATUS mirror per core the probe never takes the change back |
| RunControl.TakenBackExact | examples/dashboard/server.py:775-791 | on a bitstream whose STATUS mirror stays 0 a change is taken back exactly if a core that is to run has a bit of its own and a mirror |
| RunControl.RunAllRefusedExact | examples/dashboard/server.py:698-744 | the collective start is refused exactly if running all cores would run two protocols |
| RunControl.CoreRunRefusedExact | examples/dashboard/server.py:698-744 | the start of a core is refused exactly if it would leave two protocols running |
| RunControl.EveryRunExclusive | examples/dashboard/server.py:698-744 | from all cores stopped no sequence of actions has two running cores of different protocols |
| RunControl.TrioIsSound | examples/dashboard/scenario.py:97-139 | the shipped three-core scenario meets the assumptions on release bits |
| RunControl.RawStartExact | examples/dashboard/server.py:4017-4022 | setting any bits past the interlock keeps the exclusion exactly when it would let each core they release start and these agree among themselves |
| RunControl.CvaRunExact | examples/dashboard/server.py:4017-4022 | cva6_run keeps the exclusion exactly when the interlock is not locked for its core |
| RunControl.CvaRunBreaksExclusion | examples/dashboard/server.py:4017-4022 | in the shipped scenario, from all stopped: core 0 is started, the interlock is locked for the CVA6 core, and cva6_run runs two protocols |
| EncoderRegs.VerdictExact | examples/dashboard/server.py:501-537 | the not-taken list names exactly the locked fields that the write should have changed, and is empty with Enable off |
| EncoderRegs.RefusedWriteEffect | examples/dashboard/server.py:456-497 | a refused write leaves every writable field as it was, except that a write-1-to-clear one is cleared |
| EncoderRegs.RefusesExact | examples/dashboard/server.py:456-497 | a write is refused exactly when the register has writable fields and none of them takes writes |
| EncoderRegs.Disarms | examples/dashboard/server.py:3953-4008 | dropping Enable and InstTracing takes effect although Enable locks other fields |
| EncoderRegs.CombinedWriteFails | examples/dashboard/server.py:3953-4008 | a single combined write on an enabled encoder leaves the sync fields at their old values |
| EncoderRegs.ArmingSteps | examples/dashboard/server.py:3953-4008 | programming and arming behind a disarming write ends in the armed word |
| EncoderRegs.ArmedAt | examples/dashboard/server.py:3976-4008 | bit by bit: bits 16 to 19 of the armed word are those of the mode, 20 to 23 those of the maximum, 0 to 2 are set, 15 is cleared in a multi-source stream, the others are kept |
| EncoderRegs.FeatAt | examples/dashboard/server.py:4000-4006 | bit by bit: the low half of FEAT is kept, the source ID stands from bit 16, its width from bit 28 |
| EncoderRegs.Encoders.ArmOne | examples/dashboard/server.py:3953-4008 | one encoder ends armed with the configured mode and maximum, its write-1-to-clear bits unchanged, the others untouched |
| EncoderRegs.Encoders.TraceOn | examples/dashboard/server.py:3953-4008 | so does every encoder of the scenario, bit by bit, with its source ID and width in FEAT when several share the stream |
| SplitRead.ReadCorePc | examples/dashboard/server.py:3048-3064 | reports the first attempt whose high words agree, the number of retries, and stability |
| SplitRead.StableIsExact | examples/dashboard/server.py:3048-3064 | on a register that only grows, a stable value is the register at the low read |
| SplitRead.StableIsExactIff | examples/dashboard/server.py:3048-3064 | without that, it is so exactly when the high word at the low read equals the agreeing one |
| SplitRead.JumpAwayAndBack | examples/dashboard/server.py:3048-3064 | a jump away and back within an attempt yields a stable PC that never was |
| SplitRead.FewChangesAreStable | examples/dashboard/server.py:3048-3064 | at most three changes of the high word leave a stable result |
| SplitRead.TornIsReal | examples/dashboard/server.py:3048-3064 | as many changes of the high word happened as retries are reported |
| SplitRead.FourChangesCanTear | examples/dashboard/server.py:3048-3064 | four changes can defeat every attempt |
| Replay.Generate | scripts/gen_replay.py:84-131 | the loop computes the script, the failure or the early stop of the specification; a script comes out exactly for a non-empty accepted oracle |
| Replay.AcceptedExact | scripts/gen_replay.py:84-131 | a script comes out exactly if each PC is in the pcinfo with one of the six kinds, direct transfers have a target, sequential instructions go on behind themselves and branches behind themselves or to their target |
| Replay.ScriptTells | scripts/gen_replay.py:84-131 | the script says, in order and instruction by instruction, what each control-flow instruction does and where to, branch targets not taken included; in front of each the runs retire exactly the sequential bytes in front of it; runs are not empty and never adjacent |
| Replay.ReplayFaithful | scripts/gen_replay.py:15-23 | on an oracle that is consistent and sequential in the CPU's stride the script retires exactly the oracle PCs, minus a trailing indirect jump |
| Replay.ReplayExact | scripts/gen_replay.py:15-133 | and only on such an oracle, for a CPU of any stride |
| Replay.MappingExact | scripts/gen_replay.py:15-23 | with the pcinfo sizes as stride, as the mapping table says, exact replay and consistency are equivalent |
| Replay.CpuModelExact | tests/lib/cpu_model.sv:421-429 | for the 4-byte CPU model, whatever the instruction sizes: exact exactly when jumps, calls and returns (to the call's PC + 4) agree and the oracle advances by 4 behind sequential instructions and untaken branches |
| Replay.CompressedRunLosesInstructions | tests/lib/cpu_model.sv:585-607 | an instance: 0, 2, 4 with two compressed instructions is accepted and not replayed |
| Replay.Chunks | scripts/gen_replay.py:133-133 | the chunks concatenate to the script, none is empty or too long, all but the last are full |
| CallStack.PcStreamAnalysis.constructor | examples/dashboard/insight.py:201-280 | the loop over the PCs computes counts, depth, maximum depth and unwinds as specified |
| CallStack.CountsSumUp | examples/dashboard/insight.py:201-240 | the per-function counts add up to the number of PCs |
| CallStack.FunctionCount | examples/dashboard/insight.py:108-115 | the count of a function is the number of PCs from its start up to its end; page keys never mix with function starts |
| CallStack.CountersExact | examples/dashboard/insight.py:240-273 | transfers count all jumps, calls and returns those from their sites, as long as the pairing holds |
| CallStack.ReturnCuts | examples/dashboard/insight.py:251-273 | a return cuts the stack just below the nearest frame with its target among the topmost 64, pops one frame if there is none, and is an unwind when it misses the top |
| CallStack.StackBounded | examples/dashboard/insight.py:198-280 | on every trace the stack stays within one above its limit |
| CallStack.FollowsProgram | examples/dashboard/insight.py:240-280 | on a well-nested trace the shadow stack is the program's own stack and nothing is unwound |
| CallStack.DepthIsTrue | examples/dashboard/insight.py:240-280 | so the reported depth is the nesting depth |
| CallStack.UnwindsExact | examples/dashboard/insight.py:240-280 | zero unwinds and well nested are the same thing |
| CallStack.InsightState.AddWindow | examples/dashboard/insight.py:348-358 | merging a window adds its counts per function and its instruction, byte and time totals, and keeps the total equal to the sum of the function counts |
| JsScan.PrevWord | examples/dashboard/record_web_replay.py:688-695 | the word in front of a position, white space skipped |
| JsScan.SkipStringAt | examples/dashboard/record_web_replay.py:666-675 | the position behind the closing quote, escapes skipped |
| JsScan.SkipsString | examples/dashboard/record_web_replay.py:666-675 | a string literal is skipped to just behind its closing quote, whatever escapes are in it |
| JsScan.SkipRegexAt | examples/dashboard/record_web_replay.py:698-714 | the loop computes the position behind a regular expression |
| JsScan.SkipsRegex | examples/dashboard/record_web_replay.py:698-714 | a regular expression is skipped to just behind its closing slash, slashes in character classes included |
| JsScan.CommentScanner.ReadCode | examples/dashboard/record_web_replay.py:734-778 | the code reader, terminating on every text, appends the specified spans and stops where specified |
| JsScan.CommentScanner.ReadOne | examples/dashboard/record_web_replay.py:738-777 | one turn of its loop |
| JsScan.CommentScanner.ReadTemplate | examples/dashboard/record_web_replay.py:717-731 | the same for template literals, whose holes are code again |
| JsScan.CommentSpans | examples/dashboard/record_web_replay.py:781-784 | the spans of a body are comments in ascending order, disjoint and within the text |
| JsScan.ScanComments | examples/dashboard/record_web_replay.py:734-778 | on every text each span starts with // or /* and runs to its line end or first closing mark; ascending, disjoint |
| JsScan.ScanAlone | examples/dashboard/record_web_replay.py:734-778 | a body within a page is read as if it stood alone, spans clipped at its end |
| JsScan.InsideBody | examples/dashboard/record_web_replay.py:762-767 | all spans stay in the body unless the body alone ends in a block comment that is closed behind it |
| JsScan.ReplaceSpans | examples/dashboard/record_web_replay.py:816-828 | the replacement loop |
| JsScan.ReplacedKeepsLines | examples/dashboard/record_web_replay.py:787-828 | the replacement keeps the number of line breaks |
| JsScan.FillerExact | examples/dashboard/record_web_replay.py:787-828 | a comment is replaced by one space if it stands on one line, and by as many line breaks as it has otherwise |
| JsScan.Survives | examples/dashboard/record_web_replay.py:816-828 | every character outside the spans survives, with as many line breaks in front of it as before |
| JsScan.OrderKept | examples/dashboard/record_web_replay.py:816-828 | survivors keep their order |
| JsScan.NothingMadeUp | examples/dashboard/record_web_replay.py:816-828 | every other character of the result is a space or a line break |
| JsScan.StripIsSafe | examples/dashboard/record_web_replay.py:787-828 | for the spans of any script body: line breaks kept, every other character survives on its line and in order, and nothing but spaces and line breaks is added |
| JsGrammar.SlashExact | examples/dashboard/record_web_replay.py:678-695 | the scanner decides about a slash as the written-out rules say exactly if no comment hides the word in front, and the other way otherwise |
| JsGrammar.KeywordHidden | examples/dashboard/record_web_replay.py:688-695 | an instance: in return/**//x/ the slash counts as a division |
| JsGrammar.ScanIsExact | examples/dashboard/record_web_replay.py:666-778 | on every program spelled by a token tree, slashes by the written-out rules, the spans are exactly the comments of the tree |
| JsGrammar.QuoteInRegex | examples/dashboard/record_web_replay.py:678-682 | an instance: the quote in f(/'/g);// c opens no string |
| JsGrammar.TemplateIsExact | examples/dashboard/record_web_replay.py:717-731 | a template literal is read to just behind its closing backtick, finding exactly the comments in its holes |
| JsGrammar.StripIsExact | examples/dashboard/record_web_replay.py:787-828 | stripping such a program gives its text with every comment blanked and nothing else changed |
| JsGrammar.ClosedBodyInside | examples/dashboard/record_web_replay.py:734-778 | a body within a page that a token tree spells has exactly the comments of the tree, all inside |
| JsGrammar.OpenBodyOverruns | examples/dashboard/record_web_replay.py:749-752 | a body that a token tree and an unclosed block comment spell: that comment runs to the first closing mark behind the body, and leaves it exactly if there is one |
| Rdl.RdlClean | scripts/check_feature_flags.py:270-309 | the character machine computes the blanked text |
| Rdl.CleanKeepsShape | scripts/check_feature_flags.py:270-309 | length and line breaks are kept, every other character kept or blanked |
| Rdl.CleanIsLexical | scripts/check_feature_flags.py:270-309 | on every sequence of code, strings and comments exactly the strings and comments are blanked |
| Rdl.BlankAllExact | scripts/check_feature_flags.py:270-309 | blanking leaves the line breaks and turns every other character into a space |
| Rdl.RdlPreprocess | scripts/check_feature_flags.py:312-344 | the stack machine computes the specified lines |
| Rdl.MachineMeaning | scripts/check_feature_flags.py:312-344 | on well-nested conditionals that is the recursive meaning (ifdef off, ifndef on, else the other way), and the stacks end as they began |
| Rdl.LineOf | scripts/check_feature_flags.py:371-382 | the binary search gives one more than the newlines in front of the position |
| Rdl.LineNumbersSurvive | scripts/check_feature_flags.py:362-382 | a position within a line of the processed text has the line number of that line in the original file |
| Sanitize.Sanitizer.Sanitize | examples/dashboard/record_web_replay.py:512-550 | the recursion with its side log computes the public tree and the log lines |
| Sanitize.Sanitizer.SanitizeField | examples/dashboard/record_web_replay.py:515-535 | one dictionary entry: dropped by policy, shortened, dropped as dirty, or kept, with its log lines |
| Sanitize.SurvivorsAreClean | examples/dashboard/record_web_replay.py:512-550 | every surviving string is clean at its own path, and no entry of the drop lists survives |
| PublicForm.PublicExact | examples/dashboard/record_web_replay.py:512-550 | at every path the public recording has exactly the expected node: none below a dropped or dirty entry, else that of the recording, strings rewritten or, where they stay verbatim, unchanged |
| PublicForm.DirtyExact | examples/dashboard/record_web_replay.py:536-549 | a value goes exactly if lists alone lead from it to a string whose form is dirty |
| PublicForm.BasenameExact | examples/dashboard/record_web_replay.py:496-502 | the shortened text is the longest end of the path without a separator |
| PublicForm.BasenameElements | examples/dashboard/record_web_replay.py:496-504 | lists are shortened element by element, dictionaries and atoms not at all |
| PublicForm.LogExact | examples/dashboard/record_web_replay.py:512-550 | a log line stands for a path exactly if its entry is dropped by the policy, shortened or dirty; below a dropped entry and behind the first dirty list element nothing is logged |
| Sanitize.Comparer.ComparePayload | examples/dashboard/check_replay_public.py:312-340 | the recursion over the shared dictionary appends exactly the specified differences |
| Differences.CompareExact | examples/dashboard/check_replay_public.py:312-340 | for any two trees with distinct keys the lists length, changed, numeric, added and removed hold exactly the paths where the trees differ in that way |
| Differences.PassesExact | examples/dashboard/check_replay_public.py:343-372 | the probe passes any two recordings exactly when they have the same payload: same kind of node at shared paths, equal atoms that are no NaN, equal list lengths, only text under missing keys |
| Differences.StringyExact | examples/dashboard/check_replay_public.py:301-309 | an entry counts as text only exactly if no path in it leads to an atom other than null |
| Differences.NewDataPasses | examples/dashboard/check_replay_public.py:366-369 | a new key with data under it is listed and passes |
| Neutrality.SanitisingIsNeutral | examples/dashboard/check_replay_public.py:312-340 | comparing any tree with its public form: no key added, no length changed, a number differs exactly when a NaN survives |
| Neutrality.RemovedExactly | examples/dashboard/check_replay_public.py:317-322 | the entries reported as removed are exactly those the policy loses, in order, with their text-only mark |
| Neutrality.LostIsLogged | examples/dashboard/record_web_replay.py:512-550 | every removed entry has a drop line in the log |
| Neutrality.ProbeVerdict | examples/dashboard/check_replay_public.py:343-372 | the probe passes exactly when only text is lost and no NaN survives |
| Neutrality.DirtyListLosesData | examples/dashboard/record_web_replay.py:536-545 | a dirty string beside a number in a list makes the probe fail |

## Left out

- The SystemVerilog encoder, its formal properties, and the external decoders.
- HTTP handling, threads, `/dev/mem`, clocks, board scripts: a bus is a register map with byte cells; a poll is interleaved with arriving bytes, but not with a second poll.
- The random parts of the demo tick (burst size, histogram, overflow injection): a burst is any number.
- The demo branches of `dump_bytes` and `ConsoleReader.poll`, which hand out the specification itself.
- 32-bit wrap-around of hardware counters, and a console clear after which the counter has already passed its old value.
- Words in the ring windows are modelled as their four little-endian bytes.
- Registers are sets of bit numbers: or is union, and is intersection; `~` is within 32 bits.
- Symbol-file and call-site parsing, the board's scenario file format, and `regmap.json`: fields, cores and symbols are parameters.
- Regular expressions: the line kinds of the preprocessor, the drop, rename, verbatim and dirty rules of the sanitiser and the character classes of the scanner are parameters.
- DdrDump.PhysReadExact: a mapping of 0 bytes is taken to fail, as POSIX mmap does with EINVAL; misaligned word access is not modelled.
- UramRing.DemoRing.Advance: the other registers that a tick changes (retire counters, histogram, overflow flags) are not modelled.
- RunControl.EveryRunExclusive: covers run, stop, core_run and core_stop; raw register writes and cva6_run bypass the interlock, and a demo tick that overwrites STATUS within a call is left out.
- Replay.ReplayExact: a return without an open call, where the CPU model reports an error and goes on, stops the CPU; what the CPU model can do beyond the statements the generator emits is not modelled.
- CallStack.PcStreamAnalysis.constructor: the function trail, its labels, the hot-spot list and the texts of the depth note are left out.
- CallStack.InsightState.AddWindow: the record of the last window and the rate history are left out.
- SyncWindow.CheckSyncGaps: how the decoder's log is counted is left out; its count is a parameter.
- JsGrammar.ScanIsExact: the rules for slashes are the scanner's documented ones; JavaScript itself also allows a regular expression behind a closing parenthesis or a division sign, and divides behind a closing brace, a postfix operator or a property named like a keyword. Programs where a comment hides the word in front of a slash are left to `JsGrammar.SlashExact`.
- JsScan.CommentScanner.ReadOne: the loop body of the code reader is a method of its own.
- The HTML and CSS comment collectors, whose spans enter the replacement as any other ascending spans.
- Sanitize.SurvivorsAreClean: speaks of string values; dictionary keys are not rewritten or checked by the sanitiser either.
- Neutrality.SanitisingIsNeutral: the rebuilding of the provenance part and the allow-lists in front of the sanitiser are left out.
- Dictionaries and lists of the JSON tree are linked lists in insertion order, numbers are integers or reals without infinities, and `InsightState` keeps its counters only.
