# SoCRocket core: a verified model

SoCRocket is a library of SystemC models for building virtual platforms. This Dafny project
models five state-heavy pieces of its core and proves what they promise:

- **Interrupt controller** (`arm/gic`). `GicState` gives registers, shadow copies, outputs, the
  pending-event flag and counters as a value, and every handler as a function on it in closed
  form. `GicSteps` shows that each loop of the handlers computes its closed form, `GicPass` what a
  pass of the launcher delivers and when repeated passes settle, `GicRuns` what holds over all
  runs. `GicLines` says line by line what every handler changes and leaves alone, `GicHistory` what
  a run leaves recorded, told from its steps. Class `Gic.ArmGic` performs the handlers step by step and is proved against `GicState`.
- **Registers** (`core/sr_register`). `Fields` has the order check, the mask and field access,
  `BankBytes` the byte-wise access to a bank as functions, `Registers` and `RegisterBanks` the
  classes that run the loops.
- **Signals** (`core/sr_signal`). `Signals` and `Selectors` are the classes, `Routing` says where a
  write goes as a function of the history of connections.
- **JSON parser and allocator** (`core/common`). `JsonStrings`, `JsonText` and `JsonDoc` are a pure
  decoder, lexer and tree builder; `JsonHeap`, `JsonParser` and `JsonParams` work in place on a
  byte buffer and on linked objects. `JsonUtf8`, `JsonSpelling` and `JsonTokens` say without a
  scanner how strings and tokens are written, `JsonAccept`, `JsonTree` and `JsonNodes` which texts
  are accepted and which tree they give; `JsonPrint` writes values with any layout, and
  `JsonRoundTrip` and `JsonListing` show that the parser and the parameter list give them back. `Blocks` and `BlockAllocation` are the bump allocator.
- **Two text algorithms**: the printer and parser of `vector<string>` parameters (`StringLists`) and
  the bracket matchers of `core/tools/cpplint.py` (`Brackets`).

The pattern is the same everywhere: methods with loops and classes with updated fields follow the
code, each is proved equal to a function of its inputs or of its old state, and lemmas prove the
properties of those functions for all inputs and all runs.

A machine word is the set of its one bits. The bitwise operators of C++ are defined on the base-2
representation bit by bit, so `|`, `&`, `& ~` and `1 << k` are union, intersection, difference and a
singleton; `Words.NumberUpTo` gives the number where the code uses one (comparison of a mask, the
line named by a register, field values).

Where code and documentation differ, the model follows the code:

- `incomming_irq` tests broadcast bit `line + 1`, although gic.h describes bit n as line n. For line
  31 the shift by 32 is taken to find no bit. `GicRuns.BroadcastAsDocumented` says when the
  difference shows, and `GicRuns.BroadcastIsOffByOne` is an input.
- The promise that repeated launcher passes change nothing holds only when every CPU with a
  selected line has a bound output: an unbound channel reads as its default and is counted again in
  every pass (`GicPass.SettlesAfterOne`, `GicPass.SettlesAfterTwo`, `GicPass.UnboundIsCountedAgain`).
- With an extended interrupt the last CPU may still change in the second pass, exactly when
  `GicPass.LastMoves` holds of the registers (`GicPass.SettlesAfterOneExactlyWhen`,
  `GicPass.OnePassIsNotEnough`).
- Outputs are not always current when no event is pending. A write to the level register, a reset,
  and for the last CPU a pass itself can leave them wrong; `GicRuns.ShowsExactlyWhen` says when, for
  each output and over all runs, and `GicRuns.LevelWriteLosesAWakeup`, `GicRuns.ResetLosesAWakeup` and
  `GicRuns.PassLosesAWakeup` are runs that do.
- A surrogate pair in a JSON string becomes two three-byte sequences, which RFC 3629 does not allow
  (`JsonStrings.SurrogatesStayApart`). `JsonUtf8.DecodedIsWellFormed` says exactly which literals
  decode to well-formed UTF-8.
- A text that starts with white space, or with a scalar, is JSON but is refused
  (`JsonRoundTrip.OnlyBracketsStart`, `JsonRoundTrip.LeadingBlankIsRefused`). Leading zeros, missing
  digits and any number of commas and colons are not JSON but are accepted
  (`JsonTokens.AcceptedExactly`).
- The overlap assertion of `check_and_init` does not find every overlap
  (`Fields.DisjointExactlyWhen`, `Fields.OverlapMayPass`).
- A bus write clears the bits outside the write mask instead of leaving them
  (`BankBytes.NotWritableIsCleared`).

## Model

| member | source | states |
|---|---|---|
| `Gic.ArmGic.constructor` | arm/gic/gic.cpp:108-177 | a new controller has all registers and shadow copies at their initial values, masks 0xFFFFFFFE, counters at zero and every bound output idle |
| `Gic.ArmGic.IncomingIrq` | arm/gic/gic.cpp:266-299 | the loop over 32 lines puts all asserted lines at once where they belong (pending, or force and shadow of every CPU), counts each, and notifies the launcher; a falling edge does nothing |
| `Gic.ArmGic.RaiseLine` | arm/gic/gic.cpp:274-294 | one asserted line goes to pending, or, when its broadcast bit (line + 1) is set and it is below 16, to the force register and shadow of every CPU |
| `Gic.ArmGic.LaunchIrq` | arm/gic/gic.cpp:308-369 | the loop over the CPUs, downwards, computes the closed form of a pass although each iteration rewrites the pending bit the next one reads |
| `Gic.ArmGic.ServeCpu` | arm/gic/gic.cpp:317-366 | one iteration of the loop: extended-interrupt bit, selection, output and counter |
| `Gic.ArmGic.Select` | arm/gic/gic.cpp:336-353 | the two downward searches find the line of highest priority: level-1 lines before level-0 lines, higher numbers first |
| `Gic.ArmGic.ClearWrite` | arm/gic/gic.cpp:381-411 | exactly the named extended lines and the lines of the clear register leave pending (the latter also force), and all outputs end with the lowest cleared line, else the extended interrupt, else unchanged |
| `Gic.ArmGic.ReleaseNamed` | arm/gic/gic.cpp:383-390 | all lines named by identification registers are dropped from pending, the registers are cleared, and the flag tells whether there was one |
| `Gic.ArmGic.DeactivateLines` | arm/gic/gic.cpp:399-403 | of lines written inactive one after the other, from 15 down, the lowest remains on every output |
| `Gic.ArmGic.ForceWrite` | arm/gic/gic.cpp:414-438 | for every CPU register and shadow become the merged lines 1 to 15 without those whose twin in the upper half is set; outputs end with the last line cleared by the scan |
| `Gic.ArmGic.AcknowledgedIrq` | arm/gic/gic.cpp:441-459 | the line leaves pending, force and the force register and shadow of that CPU only, its named extended line leaves pending, and all outputs show the line inactive |
| `Gic.ArmGic.BusWrite` | arm/gic/gic.cpp:108-177 | a bus write reaches the register of that offset through its write mask and runs its callback; an offset without a register changes nothing |
| `Gic.ArmGic.DoRst` | arm/gic/gic.cpp:241-260 | reset restores levels, pending, clear, broadcast and all per-CPU registers, leaves outputs, event and counters, and clears the force register only when there is no CPU |
| `Gic.ArmGic.PendingWrite` | arm/gic/gic.cpp:484-487 | the callback of pending, force and mask only notifies the launcher |
| `Gic.RegAt` | arm/gic/gic.h:217-234 | an offset names a register exactly when it is that register's offset |
| `GicState.OffsetsAreDistinct` | arm/gic/gic.h:217-234 | with at most sixteen CPUs no two modelled registers share an offset, with each other or with the registers left out |
| `Gic.RegistersByOffset` | arm/gic/gic.h:217-234 | each register is found at its offset: 0x00, 0x04, 0x08, 0x0C, 0x14, and 0x40, 0x80, 0xC0 plus four times the CPU for exactly the CPUs there are |
| `GicSteps.IncomingStep` | arm/gic/gic.cpp:273-295 | the closed form for all lines up to n + 1 is the one for n followed by raising line n |
| `GicSteps.ClearStep` | arm/gic/gic.cpp:384-390 | dropping the named lines CPU by CPU is the same as dropping all of them |
| `GicSteps.ForceStep` | arm/gic/gic.cpp:415-436 | one more CPU in the closed form of force_write is one iteration of its loop |
| `GicSteps.CompetingIsEffective` | arm/gic/gic.cpp:317-332 | in the middle of a pass the lines an iteration computes from the current registers are those the closed form gives from the registers before the pass |
| `GicSteps.PassStep` | arm/gic/gic.cpp:315-367 | the closed form of a pass is the fold of its iterations, including the bit each leaves for the next |
| `GicPass.PriorityIsTop` | arm/gic/gic.cpp:336-353 | the selected line is the one of 1 to 15 that no competing line outranks, ordered by level bit and then number, and 0 exactly when there is none |
| `GicPass.PassDelivers` | arm/gic/gic.cpp:315-367 | after a pass a bound output shows line h active (or (0, false) for h = 0) exactly when h is the top line of that CPU, whatever the output held, given that no output is (0, true) |
| `GicPass.PassDeliversUnlessZeroActive` | arm/gic/gic.cpp:355-366 | without that hypothesis delivery fails exactly for an output (0, true) with no line competing |
| `GicPass.PassKeepsEffective` | arm/gic/gic.cpp:315-333 | every CPU but the last competes over the same lines in the next pass |
| `GicPass.SecondPassKeepsRegisters` | arm/gic/gic.cpp:315-333 | from the second pass on no register changes |
| `GicPass.RepeatIsIdle` | arm/gic/gic.cpp:315-367 | a pass that chooses what the one before chose changes nothing exactly when every chosen line has a bound output |
| `GicPass.SettlesAfterOne` | arm/gic/gic.cpp:315-367 | with eirq = 0 a second pass changes no register, output or counter exactly when every chosen line has a bound output |
| `GicPass.SettlesAfterTwo` | arm/gic/gic.cpp:315-367 | with any eirq and any number of CPUs a third pass changes nothing, under the same condition |
| `GicPass.LastChoiceMovesExactlyWhen` | arm/gic/gic.cpp:315-353 | a second pass chooses another line for the last CPU exactly when the pending bit of eirq differs from what CPU 0 will ask for, nothing but that bit raises eirq for the last CPU, and eirq outranks all its other lines |
| `GicPass.ChoiceMovesExactlyWhen` | arm/gic/gic.cpp:315-353 | no other CPU chooses another line in the second pass |
| `GicPass.PriorityOfOneMore` | arm/gic/gic.cpp:336-353 | one more competing line changes the choice exactly when it outranks all others |
| `GicPass.SettlesUnlessLastMoves` | arm/gic/gic.cpp:315-367 | unless that holds, a second pass changes nothing exactly when every chosen line has a bound output |
| `GicPass.SettlesAfterOneExactlyWhen` | arm/gic/gic.cpp:315-367 | with all outputs bound, a second pass changes nothing exactly when the registers do not meet that condition |
| `GicPass.OnePassIsNotEnough` | arm/gic/gic.cpp:324-332 | a configuration with eirq = 1 in which the second pass still changes an output |
| `GicPass.UnboundIsCountedAgain` | arm/gic/gic.cpp:355-363 | a configuration with an unbound output in which the second pass counts the same interrupt again |
| `GicRuns.InvAlways` | arm/gic/gic.cpp:241-459 | in every reachable state force registers and shadows agree on lines 1 to 15 with empty upper halves, no output is (0, true), and registers are within their masks |
| `GicRuns.ForceRegisterWrite` | arm/gic/gic.cpp:414-438 | a bus write w to a force register gives (old | w) & ~(w >> 16) on lines 1 to 15, in register and shadow, and leaves those lines of every other CPU alone |
| `GicRuns.AcknowledgeConsumes` | arm/gic/gic.cpp:441-459 | after an acknowledge of line 1 to 15 other than eirq, no run that does not raise or write that line again ever shows it active on that CPU's output |
| `GicRuns.ClearConsumesUnlessForced` | arm/gic/gic.cpp:381-411 | writing a line to the clear register consumes it for a CPU (recorded nowhere for it and not shown) exactly when that CPU's force register does not hold it |
| `GicRuns.ClearConsumes` | arm/gic/gic.cpp:381-411 | a cleared line that is not forced is never shown again on that CPU's output in any run that does not raise or write it again |
| `GicRuns.ShowsAfterPassExactlyWhen` | arm/gic/gic.cpp:315-367 | after a pass the bound output of a CPU shows the priority function of the registers it leaves, except for the last CPU exactly when the registers before the pass make it move |
| `GicRuns.ShowsAfterLevelWriteExactlyWhen` | arm/gic/gic.cpp:109-113 | a level write, which notifies nobody, leaves a bound output right exactly when it shows the line that is on top of its lines under the new levels |
| `GicRuns.ShowsAfterResetExactlyWhen` | arm/gic/gic.cpp:241-260 | a reset, which leaves outputs and force register alone, does so exactly when the bound output shows the highest line of the force register |
| `GicRuns.ShowsExactlyWhen` | arm/gic/gic.cpp:241-459 | in every reachable state of every run an event is pending, or the output of a CPU is right exactly when the last pass, level write or reset met the condition above |
| `GicRuns.NoLostWakeup` | arm/gic/gic.cpp:298-438 | in runs without level writes and resets an event is pending or the bound output shows the priority function of the current registers: for every CPU with eirq = 0, for all but the last otherwise |
| `GicRuns.LevelWriteLosesAWakeup` | arm/gic/gic.cpp:109-113 | a run of three steps after which a level write leaves an output wrong with no event pending |
| `GicRuns.ResetLosesAWakeup` | arm/gic/gic.cpp:241-260 | a run of three steps after which a reset does the same |
| `GicRuns.PassLosesAWakeup` | arm/gic/gic.cpp:324-332 | a run of two steps with eirq = 1 after which a pass does the same for the last CPU |
| `GicRuns.AcknowledgedExtended` | arm/gic/gic.cpp:441-459 | acknowledging eirq withdraws it for that CPU, and the next pass lets it compete again exactly when an extended line is left for this CPU, or for the next higher one with eirq unmasked here |
| `GicRuns.AcknowledgedExtendedReturns` | arm/gic/gic.cpp:441-459 | eirq is shown active after that pass exactly when it competes and outranks the other lines |
| `GicRuns.InputIsRecorded` | arm/gic/gic.cpp:266-299 | in every state that satisfies the invariant each asserted line is recorded in pending or in all force registers and shadows, never both, no recorded line is lost, and exactly the counters of asserted lines grow |
| `GicRuns.BroadcastAsDocumented` | arm/gic/gic.h:265-267 | an asserted line is treated as the header describes exactly when broadcast bits line and line + 1 agree, or when it is recorded in pending and for all CPUs already |
| `GicRuns.Line15IsNeverBroadcast` | arm/gic/gic.cpp:281-287 | line 15 always goes to pending only |
| `GicRuns.BroadcastIsOffByOne` | arm/gic/gic.cpp:281-293 | with broadcast bit 3 written, line 2 is broadcast and line 3 is not |
| `GicRuns.InputIsDroppedOutsideMask` | arm/gic/gic.cpp:281-293 | an extended line with a broadcast bit above its write mask would disappear: nothing but counter and event changes exactly then, or when the line is pending already |
| `GicRuns.CountersCount` | arm/gic/gic.cpp:273-276 | over every run each line counter equals the number of assertions of its line |
| `GicLines.AcknowledgeExactly` | arm/gic/gic.cpp:441-459 | an acknowledge takes the line from pending, force and that CPU's force register, and the line named by that CPU's identification register from pending; every other line of every register, other CPUs, masks, levels and counters stay |
| `GicLines.WriteStores` | arm/gic/gic.cpp:109-170 | which bits a bus write stores in each register, with every write mask as a range of lines (mask and pending 1 to 31, level, force and broadcast 1 to 15, identification 0 to 4), which registers notify the launcher, and that all others keep theirs |
| `GicLines.ClearExactly` | arm/gic/gic.cpp:381-411 | a write to the clear register takes lines 1 to 31 of the value from pending and force and the named lines from pending, releases the identification registers when there is an extended interrupt, and keeps all other lines and registers |
| `GicLines.ClearShows` | arm/gic/gic.cpp:391-403 | all outputs then show the lowest line 1 to 15 of the value inactive, without one the extended interrupt if an extended line was cleared or released, and otherwise what they did |
| `GicLines.ForceExactly` | arm/gic/gic.cpp:414-438 | a write to a CPU's force register adds lines 1 to 15 of the lower half and removes those of the upper half, for that CPU only; others keep lines 1 to 15, named lines leave pending, all else stays |
| `GicLines.ForceShows` | arm/gic/gic.cpp:416-422 | all outputs then show the lowest line of the upper half inactive, or what they did without one |
| `GicLines.IncomingExactly` | arm/gic/gic.cpp:266-299 | where each asserted line is recorded, and that everything else stays |
| `GicLines.ResetExactly` | arm/gic/gic.cpp:241-260 | registers after construction and reset: only masks are set, for lines 1 to 31; outputs, event, counters and the force register survive a reset |
| `GicLines.CompetesExactly` | arm/gic/gic.cpp:317-332 | a line competes for a CPU when it is in its force register, or recorded and unmasked, or is the extended interrupt with an unmasked extended line recorded |
| `GicLines.PassShows` | arm/gic/gic.cpp:315-367 | after a pass a bound output shows a line exactly when it competes and goes before all others that do, level 1 first, then higher numbers, and no line exactly when none competes |
| `GicLines.MaskedIsNotShown` | arm/gic/gic.cpp:152-158 | after a write to a CPU's mask register a pass does not show it a line that the value leaves out, unless that line is in its force register or is the extended interrupt |
| `GicLines.PassExactly` | arm/gic/gic.cpp:315-367 | a pass changes no register but the pending bit of the extended interrupt, which tells whether CPU 0 has an extended line |
| `GicHistory.PendingExactlyWhen` | arm/gic/gic.cpp:266-459 | in every reachable state a line is pending exactly when some step of the run recorded it and no later step named it |
| `GicHistory.ForcedExactlyWhen` | arm/gic/gic.cpp:266-459 | a line is in a CPU's force register exactly when it was broadcast or written there and not withdrawn there, acknowledged by that CPU or reset later |
| `GicHistory.MaskedStaysHidden` | arm/gic/gic.cpp:266-459 | a line that a CPU masks and that is not forced for it is never shown to it in any run, until a step unmasks or forces it |
| `GicHistory.CpuCountersCount` | arm/gic/gic.cpp:355-363 | over every run a CPU's counter equals the number of passes that changed its output to an active line; for an unbound output, of those with a line to send |
| `Fields.ClearIsPasses` | core/sr_register/sc_register.h:761-777 | the assertion on the way holds at every insertion exactly when no field reaches above one registered before it without lying wholly above it |
| `Fields.DisjointExactlyWhen` | core/sr_register/sc_register.h:753-772 | fields are disjoint exactly when they pass the check in both orders of registration and no two share a high bit; so disjoint fields always pass |
| `Fields.OverlapMayPass` | core/sr_register/sc_register.h:764-772 | two overlapping fields that pass the check |
| `Fields.SortedIsPermutation` | core/sr_register/sc_register.h:758-780 | the sorted list is a permutation of the registered one by descending high bit |
| `Fields.SortedIsStable` | core/sr_register/sc_register.h:764-776 | fields with the same high bit keep their order of registration |
| `Fields.UnionIs` | core/sr_register/sc_register.h:782-792 | a bit is in the collected mask exactly when it lies in some field |
| `Fields.UnionOfSorted` | core/sr_register/sc_register.h:778-793 | sorting does not change the mask |
| `Fields.RegisterMaskExactly` | core/sr_register/sc_register.h:782-796 | a bit is in the mask of a register exactly when it is in the word and the register has no fields or one of them covers it |
| `Fields.ReadAfterWrite` | core/sr_register/sc_register.h:826-837 | writing a number to a field of a register and reading it back gives the number modulo two to the width of the field |
| `Fields.OthersUnchanged` | core/sr_register/sc_register.h:744-749 | a field write leaves another field as it was, for all values, exactly when the two fields are disjoint |
| `Fields.WriteWhatIsRead` | core/sr_register/sc_register.h:826-837 | writing back what a field holds changes nothing |
| `Fields.WriteTwice` | core/sr_register/sc_register.h:826-837 | the last of two writes to a field wins |
| `Registers.GenMask` | core/sr_register/sr_register.h:65-74 | width ones shifted to the low bit are exactly the bits low to high |
| `Registers.Register.InsertField` | core/sr_register/sc_register.h:761-777 | one insertion succeeds exactly when the assertion holds and puts the field before the first with a lower high bit |
| `Registers.Register.SortFields` | core/sr_register/sc_register.h:758-777 | the loop succeeds exactly when the registered fields pass, with the stable sort by high bit |
| `Registers.Register.CollectMask` | core/sr_register/sc_register.h:782-796 | the mask is the union of the fields, or all bits when there are none |
| `Registers.Register.CheckAndInit` | core/sr_register/sc_register.h:753-802 | succeeds exactly when the registered fields pass the check, then fields are sorted, the mask is theirs and the value is the reset value within the mask; otherwise nothing changes |
| `Registers.Register.Write` | core/sr_register/sc_register.h:720-742 | bits outside the mask are dropped and the value stays within the mask |
| `Registers.Register.MaskWrite` | core/sr_register/sc_register.h:744-749 | only the masked bits take the shifted value, and the register stays within its mask |
| `Registers.Register.ReadField` | core/sr_register/sc_register.h:826-829 | the bits of the field, moved down |
| `Registers.Register.WriteField` | core/sr_register/sc_register.h:833-837 | on a ready register the field then reads as the written number modulo two to its width, and every disjoint field as before |
| `Registers.Register.BusWrite` | core/sr_register/sr_register.h:200-204 | a bus write keeps only writable bits of the mask |
| `Registers.Register.PutBit` | core/sr_register/sr_register.h:209-211 | only the one bit changes, and a bit outside the mask cannot be set |
| `Registers.WithoutFields` | core/sr_register/sc_register.h:794-802 | a register without fields starts with its reset value within the word, and a value written from the bus is read back in its writable bits |
| `BankBytes.WriteFromAt` | core/sr_register/sr_register.h:422-440 | after a byte write a touched register holds the bytes over its old value, cut to its writable bits of the mask, and every other register is the same |
| `BankBytes.BytesAfterWrite` | core/sr_register/sr_register.h:422-440 | byte by byte: written bytes, and in a partial last word the old bytes, both cut to the writable bits |
| `BankBytes.ReadFromAt` | core/sr_register/sr_register.h:404-419 | a read leaves in every byte of the range the byte of its word, zero without a register, and nothing outside the range |
| `BankBytes.WriteThenRead` | core/sr_register/sr_register.h:404-440 | reading back a written range gives each byte cut to write mask and mask of its register, or zero where there is none |
| `BankBytes.WriteExactly` | core/sr_register/sr_register.h:422-440 | each bit of each register after a byte write: of the written byte or, behind the end of the access, of its old value, in writable bits of its mask, if its address is a whole number of words behind the offset, and unchanged otherwise |
| `BankBytes.ReadExactly` | core/sr_register/sr_register.h:404-419 | each bit of the buffer after a byte read, and that it is left alone behind the end of the access |
| `BankBytes.UntouchedUnchanged` | core/sr_register/sr_register.h:422-440 | a register whose address no word of the access has is unchanged |
| `BankBytes.WordOfIs` | core/sr_register/sr_register.h:404-413 | counting words from 0, byte q belongs to the word at q - q mod n |
| `BankBytes.NotWritableIsCleared` | core/sr_register/sr_register.h:200-204 | a bus write clears bits that are not writable: they survive exactly when none was set |
| `RegisterBanks.RegisterBank.CreateRegister` | core/sr_register/sr_register.h:282-290 | the register at that address is replaced |
| `RegisterBanks.RegisterBank.CreateDescribed` | core/sr_register/sr_register.h:292-300 | a register already at that address stays, although the new one is listed |
| `RegisterBanks.RegisterBank.BusRead` | core/sr_register/sr_register.h:319-327 | the register at exactly that address, zero without one |
| `RegisterBanks.RegisterBank.BusWrite` | core/sr_register/sr_register.h:329-335 | only the register at exactly that address changes |
| `RegisterBanks.RegisterBank.SciregRead` | core/sr_register/sr_register.h:404-419 | the loop over words computes the byte read on the array and never fails |
| `RegisterBanks.RegisterBank.SciregWrite` | core/sr_register/sr_register.h:422-440 | the loop over words computes the byte write on the registers and never fails |
| `Signals.Infield.Bind` | core/sr_signal/sr_signal_infield.h:78-88 | first binding of a sender and first value of a channel win |
| `Signals.Infield.Update` | core/sr_signal/sr_signal_infield.h:96-118 | exactly the channel of the sender takes its value, with one callback; an unknown sender changes nothing |
| `Signals.SignalOut.Bind` | core/sr_signal/sr_signal_out.h:47-57 | a receiver is listed only once |
| `Signals.SignalOut.Write` | core/sr_signal/sr_signal_out.h:64-71 | the value is stored and every receiver is updated exactly once |
| `Selectors.Selector.GetOut` | core/sr_signal/sr_signal_selector.h:59-66 | the output of a channel is made once and then kept |
| `Selectors.Selector.Connect` | core/sr_signal/sr_signal_connect.h:36-46 | connecting keeps receiver lists and channel tables in agreement with the history of connections and no channel loses its value |
| `Selectors.Selector.Write` | core/sr_signal/sr_signal_selector.h:77-84 | with the early exit, the write delivers to every infield what writing all channels of the mask in turn delivers, and stores the value exactly in the outputs of the mask |
| `Selectors.Selector.DeliveredMeans` | core/sr_signal/sr_signal_selector.h:77-84 | after distinct connections exactly the infield channels connected to a channel in the mask hold the new value, all others keep theirs, and there is one callback for each |
| `Selectors.Selector.ReadAfterWrite` | core/sr_signal/sr_signal_infield.h:125-134 | after a write, reading a channel of an infield gives the value exactly when the channel is connected to one in the mask, and otherwise what it gave before, the default included |
| `Selectors.ReadWriteRead` | core/sr_signal/sr_signal_selector.h:77-95 | the same for both reads on the objects: the output channel has the value exactly when it exists and is in the mask |
| `Routing.WriteReaches` | core/sr_signal/sr_signal_selector.h:77-84 | the same on channel values, for any history of distinct connections |
| `Routing.OneCallEach` | core/sr_signal/sr_signal_out.h:64-71 | as many callbacks as selected and connected channels |
| `Routing.CallsCarry` | core/sr_signal/sr_signal_out.h:64-71 | every callback brings the written value, on a channel connected to a selected one |
| `Routing.FirstIsTheConnection` | core/sr_signal/sr_signal_connect.h:36-46 | with distinct connections a channel feeds an input channel exactly when they were connected |
| `Routing.NoneBeyond` | core/sr_signal/sr_signal_selector.h:79-79 | once the mask is below the bit of a channel, no bit from there to 31 is set |
| `Routing.ExitSkipsNothing` | core/sr_signal/sr_signal_selector.h:79-83 | the channels the early exit leaves out would not have been written |
| `JsonStrings.Hatoui` | core/common/json_parser.cpp:46-64 | the hexadecimal prefix and its number |
| `JsonStrings.Utf8RoundTrip` | core/common/json_parser.cpp:270-279 | the one to three bytes stored for a code point have the layout of section 3 of RFC 3629: read by that layout, surrogates included, they give the code point |
| `JsonStrings.DecodeEncode` | core/common/json_parser.cpp:242-295 | every byte string, escaped as in section 7 of RFC 8259, decodes to itself wherever the literal stands |
| `JsonUtf8.Utf8IsWellFormed` | core/common/json_parser.cpp:270-279 | the bytes stored for a code point are well-formed in the sense of section 4 of RFC 3629 exactly when it is not a surrogate |
| `JsonUtf8.Utf8IsExact` | core/common/json_parser.cpp:270-279 | a sequence of up to three bytes is well-formed and decodes to a code point exactly when it is what is stored for that code point, and this is not a surrogate |
| `JsonUtf8.DecodedIsWellFormed` | core/common/json_parser.cpp:242-295 | the decoded bytes of a literal are well-formed UTF-8 exactly when the text between its quotes is and none of its escapes denotes a surrogate |
| `JsonUtf8.RawTextIsSlice` | core/common/json_parser.cpp:242-292 | the text of a literal, taken unit by unit, is what stands between its quotes |
| `JsonSpelling.UnitExactly` | core/common/json_parser.cpp:242-292 | one character or escape stands for these bytes exactly when RFC 8259 section 7 says so: itself, one of the eight short escapes, or the UTF-8 form of four hexadecimal digits of either case |
| `JsonSpelling.LiteralExactly` | core/common/json_parser.cpp:242-295 | a literal decodes to these bytes exactly when the text up to its closing quote, or up to the end of the text, is made up of such units |
| `JsonSpelling.RefusedExactly` | core/common/json_parser.cpp:242-292 | a literal is refused with an error exactly when behind such units stands a control character, an escape u without four digits, or another escape |
| `JsonStrings.SurrogatesStayApart` | core/common/json_parser.cpp:264-281 | a literal with a surrogate pair, which decodes to two three-byte sequences |
| `JsonStrings.StoreUtf8` | core/common/json_parser.cpp:270-279 | the bytes of the code point are stored and no other byte changes |
| `JsonStrings.UnitInPlace` | core/common/json_parser.cpp:243-294 | one character or escape is decoded at the write cursor, or the error is found and nothing is written |
| `JsonStrings.DecodeInPlace` | core/common/json_parser.cpp:235-295 | decoding over the source text gives the bytes of the pure decoder, NUL-terminated; the write cursor never passes the read cursor; text before the string and behind the closing quote is unchanged; the errors are those of the decoder |
| `JsonStrings.DecodeSuffix` | core/common/json_parser.cpp:242-295 | decoding depends only on the text from the opening quote on |
| `JsonParser.LexNumber` | core/common/json_parser.cpp:353-378 | a number ends at a delimiter and is an integer with its decimal value, a float, or an error; without a delimiter before the end of the text the scan runs past it |
| `JsonParser.Atoi` | core/common/json_parser.cpp:25-43 | sign and decimal digits, and the position behind them |
| `JsonParser.AtofEnd` | core/common/json_parser.cpp:67-115 | how far sign, digits, fraction and exponent reach |
| `JsonParser.LexInPlace` | core/common/json_parser.cpp:182-385 | the token of the pure lexer; only the text of a string is overwritten, and nothing behind the token |
| `JsonHeap.JsonAppend` | core/common/json_parser.cpp:140-147 | appending relinks the objects so that parent, next sibling, first and last child are those of the tree with one more last child |
| `JsonHeap.LinkLast` | core/common/json_parser.cpp:140-147 | the assignments to the appended object, its parent and the former last child |
| `JsonParser.ApplyOpen` | core/common/json_parser.cpp:184-208 | an opening bracket adds a container and makes it the innermost, or is refused as a second root |
| `JsonParser.ApplyClose` | core/common/json_parser.cpp:210-221 | a closing bracket pops a container of its kind, or is refused |
| `JsonParser.ApplyValue` | core/common/json_parser.cpp:297-381 | a string in an object is kept as a name when none waits; any other value becomes the last child under the waiting name |
| `JsonParser.JsonParse` | core/common/json_parser.cpp:169-397 | in-place parsing of a NUL-terminated buffer fails, succeeds or runs past the end exactly as the pure parser does on the text, builds objects with exactly the links of its tree, and leaves all names and strings decoded in the buffer |
| `JsonDoc.AcceptedIsGroup` | core/common/json_parser.cpp:184-221 | a non-empty token list is a complete document exactly when it is one outermost balanced, kind-matched pair of brackets, with colons only directly in objects |
| `JsonDoc.FoldIsStack` | core/common/json_parser.cpp:184-221 | the parent pointers walked from the innermost container are the stack of open brackets |
| `JsonAccept.AcceptedTexts` | core/common/json_parser.cpp:182-396 | a text is accepted exactly when it is empty or lexes to such a token list |
| `JsonTokens.TokenExactly` | core/common/json_parser.cpp:182-385 | the lexer finds a token at a place exactly when it is written there, with the bytes of every token given outright |
| `JsonTokens.SkipExactly` | core/common/json_parser.cpp:387-390 | white space ends where the run of the four blanks does |
| `JsonTokens.RunawayExactly` | core/common/json_parser.cpp:353-369 | a number is scanned past the end exactly when no delimiter follows |
| `JsonTokens.AcceptedExactly` | core/common/json_parser.cpp:182-396 | a text is accepted exactly when it consists of such tokens and blanks, without a blank in front, and the tokens are one balanced, kind-matched outermost pair or none |
| `JsonTokens.RanExactly` | core/common/json_parser.cpp:353-369 | a text is read past its end exactly when inside a container a number begins that no delimiter ends |
| `JsonNodes.NameWaits` | core/common/json_parser.cpp:297-305 | the waiting name is the last string before, if that stands directly in an object and is not itself named |
| `JsonNodes.NodeOfToken` | core/common/json_parser.cpp:184-381 | every token but closing brackets, marks and names makes the next node, of its kind and value, under the name that waits, inside the node of the enclosing bracket |
| `JsonPrint.DigitsValue` | core/common/json_parser.cpp:25-43 | the decimal digits of a number have its value |
| `JsonRoundTrip.PrintedParses` | core/common/json_parser.cpp:169-397 | every container, printed with any blanks and any spelling of its strings, is parsed to exactly its entries in document order: parents, names, kinds and values |
| `JsonRoundTrip.PrintedIsDepicted` | core/common/json_parser.cpp:169-397 | along first-child and sibling links the parsed tree is the printed value, item by item |
| `JsonRoundTrip.PrintedSucceeds` | core/common/json_parser.cpp:169-397 | so JsonParse succeeds on the printed text with objects linked as that tree |
| `JsonRoundTrip.OnlyBracketsStart` | core/common/json_parser.cpp:182-397 | a text that starts with anything but a bracket is refused |
| `JsonRoundTrip.LeadingBlankIsRefused` | core/common/json_parser.cpp:182-397 | unlike RFC 8259, a printed value behind blanks is accepted exactly when there are none and it is a container |
| `JsonTree.TopIsEnclosing` | core/common/json_parser.cpp:199-220 | the parser's innermost container is the node of the innermost bracket still open |
| `JsonTree.ParentIsEnclosing` | core/common/json_parser.cpp:140-147 | every node's parent is the node of the bracket that encloses its token |
| `JsonTree.ChildrenAscend` | core/common/json_parser.cpp:140-147 | the children of a node, in source order, are all nodes that name it as parent |
| `JsonTree.SiblingChain` | core/common/json_parser.cpp:140-147 | following next_sibling from first_child meets every child once, in source order, and ends at last_child |
| `JsonAccept.FoldPreOrder` | core/common/json_parser.cpp:184-221 | nodes are in document order: everything between a node and its parent is inside that parent |
| `JsonParams.ListsEveryLeaf` | core/common/json_parser.cpp:432-446 | from the root every non-null leaf is listed exactly once in source order, under the name found by walking its parents up |
| `JsonParams.DescendLeaves` | core/common/json_parser.cpp:432-446 | from any node the walk lists the leaves of its subtree, each once and in source order |
| `JsonParams.DescendNames` | core/common/json_parser.cpp:420-446 | dotted names collected on the way down, each cut at its first NUL, equal those collected by walking up |
| `JsonParams.LeavesAreAll` | core/common/json_parser.cpp:432-446 | the leaves of a range are all its non-null leaves, in ascending order |
| `JsonParams.ListedExactly` | core/common/json_parser.cpp:432-446 | listed are exactly the nodes that are neither objects nor arrays nor null |
| `JsonParams.DottedName` | core/common/json_parser.cpp:420-442 | a node's full name is that of its parent, a dot and its own name, with nothing for the root |
| `JsonListing.PrintedIsListed` | core/common/json_parser.cpp:420-446 | for a printed document the listing is every string, number and truth value in the order written, with its value, under the names on the way to it |
| `JsonParams.CString` | core/common/json_parser.cpp:424-442 | a name is appended up to its first NUL |
| `JsonParams.ParsedIsTree` | core/common/json_parser.cpp:169-397 | the parser's result satisfies the hypotheses of these results, with a container as root |
| `JsonParams.ParamList.GetValuePath` | core/common/json_parser.cpp:420-430 | the loop over parent pointers gives the dotted path |
| `JsonParams.ParamList.CreateParamsList` | core/common/json_parser.cpp:432-446 | the recursion over child and sibling pointers appends exactly the listing of the subtree, with names and objects |
| `Blocks.MallocSafe` | core/common/block_allocator.cpp:35-53 | a call of malloc keeps every block sound (header <= used <= size) and blocks disjoint, and returns a range behind the header of its block, inside it and apart from all ranges in use |
| `Blocks.RunIsSafe` | core/common/block_allocator.cpp:22-57 | the same over every sequence of malloc and free, whatever the block size; used bytes are exactly those handed out; addresses obtained are those released and those listed |
| `Blocks.AllReleased` | core/common/block_allocator.cpp:22-28 | after a final release every address obtained has been released exactly as often |
| `Blocks.OneBlockExactlyWhen` | core/common/block_allocator.cpp:35-53 | requests share one block exactly when all of them fit behind its 32-byte header into the block size, or all but the first are empty |
| `Blocks.SideBySide` | core/common/block_allocator.cpp:43-52 | they then stand side by side from its 32nd byte on |
| `BlockAllocation.BlockAllocator.Malloc` | core/common/block_allocator.cpp:35-53 | on linked blocks: reuses the first block exactly when the size fits, otherwise puts a new one of the larger of header plus size and block size in front |
| `BlockAllocation.BlockAllocator.Swap` | core/common/block_allocator.cpp:30-33 | blocks and block size change places |
| `BlockAllocation.BlockAllocator.Destroy` | core/common/block_allocator.cpp:22-28 | every block of the list is released exactly once, in order, and no other |
| `BlockAllocation.BlockAllocator.Free` | core/common/block_allocator.cpp:55-57 | the same through the temporary allocator; the block size becomes 0 and the allocator stays usable |
| `StringLists.EscapeLoop` | core/sr_param/sr_param_native.h:742-750 | the loop puts a backslash before exactly the quotes that have none, and terminates |
| `StringLists.SerializeLoop` | core/sr_param/sr_param_native.h:731-756 | the printed text |
| `StringLists.UnescapeLoop` | core/sr_param/sr_param_native.h:802-806 | the loop drops exactly the backslashes of backslash-quotes |
| `StringLists.FindClosing` | core/sr_param/sr_param_native.h:792-795 | the next quote without a backslash before it |
| `StringLists.DeserializeLoop` | core/sr_param/sr_param_native.h:765-814 | the parsed list, an endless search, or a malformed text |
| `StringLists.UnescapeEscape` | core/sr_param/sr_param_native.h:742-806 | unescaping undoes escaping for strings without a backslash-quote of their own |
| `StringLists.ParseClean` | core/sr_param/sr_param_native.h:784-810 | a clean printed string is met, unescaped and passed |
| `StringLists.ParseUnclean` | core/sr_param/sr_param_native.h:784-810 | a string with a backslash before a quote, or at its end, never comes back |
| `StringLists.RoundTrip` | core/sr_param/sr_param_native.h:731-814 | for every list whose strings do not start with a quote, parsing the printed text gives the list back exactly when no string contains backslash-quote or ends with a backslash |
| `StringLists.SpelledParses` | core/sr_param/sr_param_native.h:765-814 | quoted values with anything but quotes around and between them, spaces included, are parsed to those values without the backslashes before their quotes |
| `StringLists.PrintedAs` | core/sr_param/sr_param_native.h:731-756 | the printed text has braces around, quotes about each value and commas between them |
| `StringLists.EscapedAs` | core/sr_param/sr_param_native.h:742-750 | a quote inside a value gets a backslash |
| `StringLists.MalformedExactlyWhen` | core/sr_param/sr_param_native.h:765-779 | exactly the non-empty texts without an opening brace are refused |
| `StringLists.PrintAndParse` | core/sr_param/sr_param_native.h:731-814 | the same on the loops |
| `Brackets.FindEndOfExpressionInLine` | core/tools/cpplint.py:1222-1243 | the first place where the depth returns to 0, or the depth at the end of the line and no such place |
| `Brackets.FindStartOfExpressionInLine` | core/tools/cpplint.py:1292-1316 | the same backwards |
| `Brackets.CloseExpression` | core/tools/cpplint.py:1246-1289 | finds the bracket that closes the given one in the joined text of all lines, and fails only when there is none |
| `Brackets.ReverseCloseExpression` | core/tools/cpplint.py:1319-1361 | finds the bracket closed by the given one, and fails only when there is none |
| `Brackets.MatchesBackwards` | core/tools/cpplint.py:1292-1361 | balance counted forwards and backwards gives the same pairs of brackets |
| `Brackets.MatchesIsBalanced` | core/tools/cpplint.py:1222-1361 | one bracket closes another exactly when the text between them is balanced, as a grammar says it |
| `Brackets.ClosedByExactly` | core/tools/cpplint.py:1246-1361 | two places are partners exactly when they hold one of the four pairs of brackets and the joined text between them is balanced |
| `Brackets.ClosedByIsOneToOne` | core/tools/cpplint.py:1246-1361 | brackets are paired one to one |
| `Brackets.CloseThenReverse` | core/tools/cpplint.py:1246-1361 | searching forwards and then backwards from the bracket found returns to the start, whenever there is a partner |
| `Brackets.ReverseThenClose` | core/tools/cpplint.py:1246-1361 | searching backwards and then forwards likewise |

## Left out

- SystemC time, delays, delta cycles, sockets and the APB byte lanes: an event is only pending or not, and its delay is not modelled.
- The multiprocessor status register, the three registers pinned to 0, the CPU reset output, power model, statistics printing, logging and the parameter database.
- Receivers of `irq_req` that call back into the controller during a pass, and register accesses that bypass the bus.
- Gic.ArmGic.AcknowledgedIrq: requires a line below 32 and an existing CPU, because the code shifts by the line and throws out_of_range for the CPU.
- Gic.ArmGic.constructor: does not create the multiprocessor status register and the three registers pinned to 0; at most 16 CPUs, as the code asserts, and an extended interrupt of at most 15, as the four bits of the status register hold.
- Gic.ArmGic.BusWrite: registers are written as whole words; the layer below is modelled on its own in Registers and RegisterBanks. A write to the multiprocessor status register changes nothing here, because that register and the CPU reset output are not part of the model.
- Gic.ArmGic.DoRst: sets neither the multiprocessor status register nor the CPU reset output, for the same reason.
- Gic.RegAt: has no register at the offsets of the multiprocessor status register and of the registers pinned to 0, which a write cannot change.
- GicState.OffsetsAreDistinct: covers the offsets of those four registers only as offsets that no other register has.
- Counters are unbounded, without the wrap-around of their 64-bit type.
- Register callbacks and probe events, except for those of the controller.
- RegisterBanks.RegisterBank.SciregWrite: offsets are unbounded, so the truncation of a 64-bit offset to the address type is not modelled, and the host is little-endian.
- Selectors.Selector.Connect: channels below 32, because the code shifts by the channel; an infield connected for the first time must not know an output of the selector.
- `signal_infield::operator()`, which ignores its channel, `sr_register_bank::get_offset`, which compares a map slot with a register pointer, inputs other than infields, and the SystemC adapters.
- Signal types other than plain values: the callback of an infield is recorded, not run.
- JsonParser.AtofEnd: floating-point values are not computed, only how far the number reaches.
- JsonParser.Atoi: the value is unbounded, without the overflow of int.
- JsonParser.LexNumber: the scan for the end of a number does not stop at the end of the text; the model then reports that it ran past the end and says nothing about what follows.
- JsonParser.JsonParse: error positions, descriptions and line numbers are not modelled; nodes are objects of their own, not memory of the block allocator.
- JsonRoundTrip.PrintedParses: a printed fraction or exponent is parsed to a float, whose value is not computed.
- JsonParams.ParamList.CreateParamsList: every listed leaf and its ancestors but the root must have a name, because the code dereferences the name.
- Reading the file, storing the parameters, and the GreenControl calls.
- BlockAllocation.BlockAllocator.Malloc: sizes are unbounded, so the wrap-around of size_t is not modelled, and ::malloc never fails. The header has 32 bytes, as on a 64-bit host.
- StringLists.SerializeLoop: strings that start with a quote, for which the code reads before the start of the string, are excluded.
- StringLists.DeserializeLoop: reads in front of or behind a string are taken to find no backslash, and a text without an opening brace is reported as malformed where the code raises a SystemC error; what follows when that error is configured not to stop the simulation is not modelled.
- Scalar parameters, bit reversal, endianness swaps, BAR packing and the style checks of cpplint: short and independent of what is modelled.
