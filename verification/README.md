# A verified model of the lockstep emulator

The repository is an iOS front end that runs two phones in lockstep (Swift, `DSEmu/`) on top of the
melonDS emulator (C++, `melonDS/src/`). This project models nine of its stateful parts in Dafny and
proves properties of them: over every schedule of the two phones, over every interleaving of FIFO
accesses, over every sequence of writes, compilations, time slices, mode changes or file lines.

Verify everything with `dafny verify dfyconfig.toml`.

## How the files fit together

A state-changing class of the source is a Dafny class whose methods have the source's loops and
branches, and each of its methods is proved equal to a function on values. The theorems are lemmas
about those functions, so they hold of the class.

| part | specification and theorems | classes and loops |
|---|---|---|
| two-phone session | `Messages`, `Session`, `Lockstep`, `LockstepTheorems`, `LockstepCheckpoints`, `SessionErrors`, `Handshake` | `Inbox` |
| wire codec and framing | `Codec`, `WireFormat`, `Interleaving` | `ByteBuffers`, `Framing` |
| JIT register cache | `RegisterCache` | `RegisterCache` |
| DSi AES engine | `Ccm`, `AesTransfer`, `AesTheorems`, `AesSettings`, `KeyScrambler` | `AesEngine`, `KeyScrambler` |
| JIT block index, dispatcher | `JitIndex`, `JitTheorems`, `JitBytes`, `JitExamples`, `CodeWindows`, `AddressMap` | `JitCache`, `Dispatcher` |
| dead-flag elimination | `FlagLiveness` | `FlagLiveness` |
| DMA channels | `DmaTransfer`, `DmaTheorems`, `DmaPrograms` | `DmaChannel` |
| cheat engine and cheat files | `ARCheat`, `ARCheatEffects`, `ARCheatMemory`, `ARCheatCodes`, `ARCodeText`, `ARCodeTheorems`, `ARCodeLines` | `ARCheat`, `ARCodeFile` |
| DSi shared work RAM | `SharedWRAM`, `SharedWRAMWindows`, `SharedWRAMAccess` | `SharedWRAMWindows` |
| ARM register banks, block transfers | `BankedRegisters`, `BlockTransfer`, `Returns`, `ArmStates` | `ArmCore` |

The functions that the classes are proved against are themselves pinned down from outside, by what the
registers, messages and files hold: `LockstepCheckpoints`, `SessionErrors`, `WireFormat`, `AesSettings`,
`JitBytes`, `AddressMap`, `DmaPrograms`, `ARCheatEffects`, `ARCheatMemory`, `ARCheatCodes`, `ARCodeLines`,
`SharedWRAMAccess` and `ArmStates` state results in frame numbers, octets, bits, addresses and digits alone.

The session is a transition system of three processes, the controller, its inbox reader and the
display, over two FIFO queues; a schedule is any sequence of process names, and a process that cannot
move skips its turn. The emulator state, its step functions, the snapshot functions and the block
cipher are arbitrary functions; the bus of the cheat engine and of DMA is an arbitrary state with
arbitrary read, write and copy functions; an instruction of the JIT is a set of register or flag names
and an arbitrary function that respects them.

## What turned out differently from what one would expect

Where a property fails, the input is given and the exact condition is proved beside it, for all inputs.

- AES: a transfer started with a full input FIFO and an empty output FIFO is busy and accepts no
  access, because starting does not process what is already queued (`AesTheorems.StartStuck`). After any
  one access it can always go on (`AesTheorems.NeverStuck`).
- JIT: in `InvalidateByAddr` the inner `mask` shadows the outer one, so every block of the 512-byte range
  is dropped, not only those of the granule (`JitIndex.InvalidateKeeps`).
- JIT: the check before restoring a retired block does not compare processors. Restoring a block of the
  other processor is exactly what breaks the index (`JitTheorems.CompileKeeps`); it is reachable, and then
  a lookup returns a retired block (`JitTheorems.StaleAfterForeignRestore`,
  `JitExamples.ForeignRestoreHappens`).
- JIT: the check compares the values read, not where they were read, so a block compiled along another
  branch can come back with code that memory no longer holds
  (`JitExamples.RestoredAlongOtherPath`). Over whole runs lookups never return stale code if and only if
  every restored block was still in memory when it was restored (`JitTheorems.NoStaleCode`); without
  looking at memory, if and only if each access of the restored block is also one of the scan or of a live
  block (`JitTheorems.RestoreIsSafe`).
- Dispatcher: a window cached in the ARM7's own RAM can cover a bank of the DSi's shared RAM mapped in
  the same 64 KiB; code there is compiled, never found through that window, and the next visits change
  nothing (`Dispatcher.CrossingMakesNoProgress`, `Dispatcher.CrossingMisses`). It is the only such case
  (`CodeWindows.WindowCrossing`).
- DMA: `Start` installs the empty burst table but leaves the burst index, which is then past the
  terminator unless it was 0 (`DmaTheorems.StartLeavesIndex`). Only zeros are read there and the next use
  of the table resets it (`DmaTheorems.TimingsInTable`, `DmaTheorems.EventsInTable`).
- DMA: a chunked transfer in address-reload mode starts again from the reloaded address at unit 112; it
  is exactly the case that does not copy the flat range (`DmaTheorems.FlatCopyExactly`).
- Cheats: the condition stack has 32 bits, so ENDIF undoes IF exactly while its top bit is clear
  (`ARCheat.EndifUndoesIf`); a skipped IF pushes nothing, so its ENDIF pops the enclosing one
  (`ARCheat.SkippedIfIsNotPushed`).
- Cheats: the copy within memory goes forward unit by unit, so between aligned addresses it is a copy of what
  was there before, for every memory, if and only if the destination does not start inside the source behind
  its first byte (`ARCheatMemory.CopyWithinExactly`). A copy from the code to an address that is not a
  multiple of four puts its whole words where the bus aligns them to (`ARCheatMemory.CopiesIn`).
- Codec: the digest's frame number is not sent, so decoding inverts encoding if and only if it equals the
  acknowledged frame (`Codec.DecodeInvertsEncode`).
- ARM: a user-bank load with writeback writes the base back into the user bank
  (`BlockTransfer.LdmRegistersLoads`), and a user-bank store takes registers 13 and 14 for banked in the
  reserved modes too (`BlockTransfer.StmStores`).
- ARM: returning from an exception sets bit 4 of the status register, so it is restored if and only if
  that bit was set (`BankedRegisters.InterruptRoundTrip`). `LDM` into the program counter always leaves an
  ARM7 in ARM state and `POP` always leaves it in Thumb state (`Returns.CallReturns`,
  `Returns.ThumbCallReturns`).

## Model

| member | source | states |
|---|---|---|
| Lockstep.StepKeeps | DSEmu/TwoPhone/TwoPhoneSession.swift:191-283 | With equal configurations, an exact snapshot and inputs numbered by frame, every move of the controller, the inbox reader or the display keeps the invariant that ties queues, window, barrier, digests and both emulator states together |
| Lockstep.RunInv | DSEmu/TwoPhone/TwoPhoneSession.swift:191-442 | The invariant holds after every schedule |
| Lockstep.DisplayReceives | DSEmu/TwoPhone/TwoPhoneSession.swift:395-424 | The head of the channel is always the input for the display's next frame, or the finish message once it has run them all |
| LockstepTheorems.Agreement | DSEmu/TwoPhone/TwoPhoneSession.swift:226-283 | In every reachable state both phones have applied prefixes of the one sent input sequence, the display is at most one frame ahead and at most `frameWindow` behind, and at equal counts after the snapshot load equal step functions give equal emulator states |
| LockstepTheorems.EqualSteps | DSEmu/TwoPhone/TwoPhoneSession.swift:255-256 | A deterministic emulator produces the same state and digest on both phones at every frame |
| LockstepTheorems.WindowAndBarrier | DSEmu/TwoPhone/TwoPhoneSession.swift:229-279 | Pending frames are always consecutive, end at the last frame run and never exceed the window; whenever an input is about to be sent there is room and every earlier checkpoint has matched |
| LockstepTheorems.BarrierHolds | DSEmu/TwoPhone/TwoPhoneSession.swift:258-279 | No frame is sent past a checkpoint that has not matched |
| LockstepTheorems.NoFailureInWindowLoop | DSEmu/TwoPhone/TwoPhoneSession.swift:229-248 | The failure return inside the window-full loop is unreachable: there an acknowledgement always leaves the controller in the loop |
| LockstepTheorems.NothingOutstandingAtFinish | DSEmu/TwoPhone/TwoPhoneSession.swift:297-310 | When finish is sent, after success or mismatch, no acknowledgement is pending, queued in the inbox or under way, so the next inbox message is the finish acknowledgement |
| LockstepTheorems.SomeoneCanMove | DSEmu/TwoPhone/TwoPhoneSession.swift:191-442 | No reachable state has all processes blocked unless both phones completed with the same verdict and frame count |
| LockstepTheorems.HonestRunsNeverFail | DSEmu/TwoPhone/TwoPhoneSession.swift:322-360 | With equal configurations and FIFO channels no reachable state throws a protocol error or deadlocks |
| LockstepTheorems.BoundedMoves | DSEmu/TwoPhone/TwoPhoneSession.swift:226-283 | A session limited to n frames makes at most 9n + 20 moves under every schedule, so it terminates |
| LockstepTheorems.MaximalRunVerdict | DSEmu/TwoPhone/TwoPhoneSession.swift:285-320 | Every maximal run ends with both phones completed, equal verdicts and equal inputs applied; success if and only if every checkpoint matched, failure at the first that did not; checkpoint counts and final digests are those of the frames run |
| LockstepTheorems.SuccessMeansEqualDigests | DSEmu/TwoPhone/TwoPhoneSession.swift:343-351 | If all checkpoints matched, both phones report the same final digest |
| LockstepTheorems.DeterministicRunsSucceed | DSEmu/TwoPhone/TwoPhoneSession.swift:226-295 | Equal deterministic emulators that always produce their digests always succeed at the frame limit |
| LockstepCheckpoints.NothingSentPastADifference | DSEmu/TwoPhone/TwoPhoneSession.swift:250-279 | In every reachable state about to send the next input, both phones' digests exist and agree at every multiple of the checkpoint interval up to the last frame sent |
| LockstepCheckpoints.NeverBeyondADifference | DSEmu/TwoPhone/TwoPhoneSession.swift:258-279 | With or without a frame limit, no reachable state has gone beyond a multiple of the interval whose digests are missing or differ |
| LockstepCheckpoints.DrainsOnlyAtCheckpoints | DSEmu/TwoPhone/TwoPhoneSession.swift:254-259 | The controller drains its window only after a multiple of the interval or at the frame limit |
| LockstepCheckpoints.DrainsAtEveryCheckpoint | DSEmu/TwoPhone/TwoPhoneSession.swift:254-259 | After each of these frames it does, and only these frames become pending with a digest asked for |
| LockstepCheckpoints.CountBelowLimit | DSEmu/TwoPhone/TwoPhoneSession.swift:495-497 | Below the limit the checkpoints up to frame f are f divided by the interval |
| LockstepCheckpoints.CountAtLimit | DSEmu/TwoPhone/TwoPhoneSession.swift:495-497 | At the limit n they are n divided by the interval, and one more if the interval does not divide n |
| LockstepCheckpoints.VerdictByInterval | DSEmu/TwoPhone/TwoPhoneSession.swift:226-320 | A maximal run limited to n frames succeeds having compared exactly that many checkpoints, with agreeing digests at every multiple of the interval and at n, or fails at the first of these frames whose digests are missing or differ |
| SessionErrors.HelloAccepted | DSEmu/TwoPhone/TwoPhoneSession.swift:444-456 | Either phone goes on exactly with a hello of protocol version 3 and its own ROM hash |
| SessionErrors.SnapshotVerified | DSEmu/TwoPhone/TwoPhoneSession.swift:371-388 | The display loads the sent state and answers ready exactly if what it loaded hashes to the sent hash |
| SessionErrors.FailureReported | DSEmu/TwoPhone/TwoPhoneSession.swift:378-384 | A failed verification is reported before the display gives up |
| SessionErrors.OnlyReadyAndStart | DSEmu/TwoPhone/TwoPhoneSession.swift:207-210 | The controller starts only on ready, the display runs only on start |
| SessionErrors.DisplayLoop | DSEmu/TwoPhone/TwoPhoneSession.swift:395-431 | The display runs exactly the input of its next frame, with a digest at multiples of the interval and at the limit, acknowledges a finish exactly at the frame it has reached, and fails on anything else |
| SessionErrors.AcknowledgementSent | DSEmu/TwoPhone/TwoPhoneSession.swift:403-414 | It acknowledges the frame it has run with the digest of that frame |
| SessionErrors.AcknowledgementTaken | DSEmu/TwoPhone/TwoPhoneSession.swift:322-360 | Only the oldest pending frame's acknowledgement is taken; at a checkpoint it is counted and the session goes on exactly if both digests are there and equal |
| SessionErrors.InboxEmpty | DSEmu/TwoPhone/TwoPhoneSession.swift:36-48 | Without a message the controller waits, unless the inbox has an error or has stopped: then it fails |
| SessionErrors.FinishAcknowledged | DSEmu/TwoPhone/TwoPhoneSession.swift:308-310 | The session completes exactly on the finish acknowledgement, with the verdict announced |
| SessionErrors.WindowOpens | DSEmu/TwoPhone/TwoPhoneSession.swift:229-252 | Below the window size the next input goes out with the next frame number |
| SessionErrors.LoopEnds | DSEmu/TwoPhone/TwoPhoneSession.swift:226 | The loop ends exactly at the frame limit, if there is one |
| SessionErrors.ReaderAppends | DSEmu/TwoPhone/TwoPhoneSession.swift:58-86 | The reader appends what arrives in order, stops after the finish acknowledgement, and records a lost peer |
| SessionErrors.LostPeer | DSEmu/TwoPhone/TwoPhoneSession.swift:199-207 | A peer that closed with nothing left to read fails a direct receive |
| Handshake.NoFrameBeforeVerification | DSEmu/TwoPhone/TwoPhoneSession.swift:200-210 | For arbitrary phones, no input is sent and no frame run unless the ROM hashes agree and the reloaded snapshot hashes to the controller's state |
| Handshake.GuardStep | DSEmu/TwoPhone/TwoPhoneSession.swift:371-388 | What the messages in the channels certify about ROM and snapshot is kept by every move of either phone, failing ones included |
| Inbox.ControllerMessageInbox.Next | DSEmu/TwoPhone/TwoPhoneSession.swift:36-48 | Queued messages come first, in order; only an empty inbox reports its error or that it stopped |
| Inbox.ControllerMessageInbox.Deliver | DSEmu/TwoPhone/TwoPhoneSession.swift:66-77 | A received message is appended unless the inbox has stopped; the finish acknowledgement is delivered and stops it |
| Inbox.ControllerMessageInbox.Fail | DSEmu/TwoPhone/TwoPhoneSession.swift:78-86 | A transport error is recorded only while the inbox runs, and no message is lost |
| Inbox.ControllerProgress.ReceiveControllerAcknowledgement | DSEmu/TwoPhone/TwoPhoneSession.swift:322-360 | The acknowledgement must be for the oldest pending frame; it is removed, its time recorded, a checkpoint counted and its digest recorded before it is compared, a missing or different digest is reported, and a match starts the timing afresh |
| Codec.ValueOfBigEndian | DSEmu/TwoPhone/TwoPhoneProtocol.swift:197-205 | Big-endian writing of a number that fits is undone by reading |
| Codec.BigEndianOfValue | DSEmu/TwoPhone/TwoPhoneProtocol.swift:229-239 | Big-endian reading is undone by writing |
| Codec.DecodeInvertsEncode | DSEmu/TwoPhone/TwoPhoneProtocol.swift:70-190 | Every encodable message decodes to itself, if and only if an acknowledgement's digest carries the acknowledged frame; otherwise to the message with that frame |
| Codec.EncodeInvertsDecode | DSEmu/TwoPhone/TwoPhoneProtocol.swift:131-190 | Whatever decodes is encodable again, to the same bytes but for a flag byte normalised to 1 |
| WireFormat.DecodesExactly | DSEmu/TwoPhone/TwoPhoneProtocol.swift:131-190 | A payload is accepted exactly if its type byte and length are right, flags decide the optional digest and the text is well formed; each field is the number at its place, most significant octet first; every other payload gets the error for its size, type or form |
| WireFormat.EncodesExactly | DSEmu/TwoPhone/TwoPhoneProtocol.swift:70-129 | A message is refused exactly for a ROM hash that is not 32 bytes, a text over 65535 bytes or a payload over 40 MiB; else its payload is one that decodes, with 1 for true, and says the message by place |
| WireFormat.Utf8Exactly | DSEmu/TwoPhone/TwoPhoneProtocol.swift:253-258 | A text is accepted exactly if it is the concatenated octets, by RFC 3629, of some Unicode scalar values |
| WireFormat.FramesExactly | DSEmu/TwoPhone/TCPSocketTransport.swift:123-130 | The first frame is the payload behind its length in four octets; lengths of zero or over 40 MiB are invalid |
| ByteBuffers.Encode | DSEmu/TwoPhone/TwoPhoneProtocol.swift:70-129 | The writer yields the specified layout, or the error for a wrong hash length, a text of 65536 bytes or more, or an oversized payload |
| ByteBuffers.DecodePayload | DSEmu/TwoPhone/TwoPhoneProtocol.swift:131-190 | The reader yields the specified message or the right error, trailing bytes included |
| ByteBuffers.ByteWriter.AppendUInt64 | DSEmu/TwoPhone/TwoPhoneProtocol.swift:201-205 | Shifting out eight bytes appends the big-endian form |
| ByteBuffers.ByteReader.ReadUInt | DSEmu/TwoPhone/TwoPhoneProtocol.swift:229-239 | The shifting loop returns the value of the next bytes, or fails exactly when there are too few |
| Framing.TCPSocketTransport.WriteAll | DSEmu/TwoPhone/TCPSocketTransport.swift:139-154 | For every pattern of partial sends and interruptions: done means all bytes went out once and in order, otherwise a prefix did; enough willing calls always finish |
| Framing.TCPSocketTransport.ReadExactly | DSEmu/TwoPhone/TCPSocketTransport.swift:156-172 | For every pattern of partial receives: done means exactly the next `count` bytes were taken, otherwise fewer; enough willing calls always finish |
| Framing.TCPSocketTransport.Send | DSEmu/TwoPhone/TCPSocketTransport.swift:108-121 | A sent message adds exactly its frame to the stream; an unencodable one adds nothing |
| Framing.TCPSocketTransport.Receive | DSEmu/TwoPhone/TCPSocketTransport.swift:123-130 | Takes exactly the first frame of the stream and decodes it; given enough calls, reports an invalid length if and only if the header holds one, with the header consumed; on any other failure some prefix is consumed |
| Framing.FrameFirst | DSEmu/TwoPhone/TCPSocketTransport.swift:113-127 | The first frame of a stream is the first one written, whatever follows |
| Framing.Conversation | DSEmu/TwoPhone/TCPSocketTransport.swift:108-172 | Any list of sendable messages, over any splits into partial sends and then partial receives, is received as exactly that list |
| Interleaving.RunInv | DSEmu/TwoPhone/TCPSocketTransport.swift:139-172 | Over every interleaving of single send and receive calls, what is taken, in flight and still to be sent is always the frames of the messages not yet received |
| Interleaving.ReceivesWhatIsSent | DSEmu/TwoPhone/TCPSocketTransport.swift:108-172 | Over every such interleaving the receiver never fails, has received a prefix of what is sent, and everything once no byte is left |
| Interleaving.MovesTransfer | DSEmu/TwoPhone/TCPSocketTransport.swift:142-170 | While bytes are left one end can move, and every call that does anything lowers the transfers left, so interleaved conversations end |
| RegisterCache.RegisterCache.UnloadRegister | melonDS/src/ARMJIT_RegisterCache.h:55-66 | Saves a dirty register, forgets its mapping, changes nothing else |
| RegisterCache.RegisterCache.LoadRegister | melonDS/src/ARMJIT_RegisterCache.h:68-89 | Takes the first free host register of the allocation order, with or without loading the value |
| RegisterCache.FirstFreeExists | melonDS/src/ARMJIT_RegisterCache.h:71-88 | While fewer host registers are used than available the search succeeds, so the abort is unreachable |
| RegisterCache.FirstFreeIsFirst | melonDS/src/ARMJIT_RegisterCache.h:71-81 | The host register taken is the first free one of the allocation order |
| RegisterCache.UsesCounts | melonDS/src/ARMJIT_RegisterCache.h:135-146 | A register's rank is the number of instructions still to come that strictly need it |
| RegisterCache.FutureMeans | melonDS/src/ARMJIT_RegisterCache.h:133-142 | A register is needed in future exactly if an instruction still to come reads it, the program counter aside, or writes it |
| RegisterCache.NecessaryMeans | melonDS/src/ARMJIT_RegisterCache.h:151 | The registers to load are the sources and destinations but the optional ones, the program counter only as a source where that can be allocated |
| RegisterCache.UnloadKeepsView | melonDS/src/ARMJIT_RegisterCache.h:55-66 | Unloading keeps the mapping consistent and every guest value |
| RegisterCache.LoadKeepsView | melonDS/src/ARMJIT_RegisterCache.h:68-81 | Loading keeps the mapping consistent and every guest value but that of a register loaded without its value |
| RegisterCache.UsedIsImage | melonDS/src/ARMJIT_RegisterCache.h:76-78 | The used host registers are always exactly the image of the mapping |
| RegisterCache.NecessaryMustFit | melonDS/src/ARMJIT_RegisterCache.h:151-181 | An instruction whose necessary registers are all loaded needs no more than are available, so requiring that is no restriction |
| RegisterCache.RegisterCache.PrepareExit | melonDS/src/ARMJIT_RegisterCache.h:107-112 | Afterwards memory alone equals the guest file, and the cache is unchanged |
| RegisterCache.RegisterCache.Flush | melonDS/src/ARMJIT_RegisterCache.h:114-120 | Afterwards memory alone equals the guest file and nothing is loaded |
| RegisterCache.RegisterCache.RankRegisters | melonDS/src/ARMJIT_RegisterCache.h:133-144 | The loops compute the set of registers needed from here on and how often each is strictly needed |
| RegisterCache.RegisterCache.PickVictim | melonDS/src/ARMJIT_RegisterCache.h:159-170 | With some unnecessary register loaded the assert holds, and the victim is the first least used one |
| RegisterCache.RegisterCache.MakeRoom | melonDS/src/ARMJIT_RegisterCache.h:156-174 | The eviction loop terminates with room for the necessary registers, evicts none of them and changes no guest value |
| RegisterCache.RegisterCache.Prepare | melonDS/src/ARMJIT_RegisterCache.h:122-200 | For blocks of at most 32 instructions whose necessary registers fit: no assert or abort fails, the necessary registers are loaded, destinations are dirty, registers never used again are gone, and every guest value is kept but those the instruction will overwrite |
| RegisterCache.RegisterCache.Execute | melonDS/src/ARMJIT_RegisterCache.h:91-200 | Executing through the cache changes the view as the instruction changes the plain guest file; recorded constants stay true |
| RegisterCache.RegisterCache.Turn | melonDS/src/ARMJIT_RegisterCache.h:122-200 | One prepared or flushed instruction keeps the view equal to the plain guest file |
| RegisterCache.RegisterCache.RunBlock | melonDS/src/ARMJIT_RegisterCache.h:107-200 | For every instruction list, leaving early after any instruction or running to the end, memory alone equals the plain 16-register guest file for R0 to R14, and the rest of the machine agrees |
| Ccm.CounterAdvances | melonDS/src/tiny-AES-c/aes.c:551-564 | The context's big-endian increment takes counter block i of section 2.3 of RFC 3610 to block i + 1: with at most 65535 blocks it never carries out of the low three bytes |
| Ccm.IncrementAddsOne | melonDS/src/tiny-AES-c/aes.c:551-564 | The increment adds one to the big-endian value, modulo its size |
| Ccm.StreamCancels | melonDS/src/DSi_AES.cpp:174-203 | Applying the key stream twice gives the blocks back |
| AesEngine.DSiAES.WriteCnt | melonDS/src/DSi_AES.cpp:251-332 | A control write selects the key and, on a rising start bit, starts a transfer with the specified counts, counter block and first chain value, or clears the bit if there is nothing to do |
| AesEngine.DSiAES.ProcessBlockDecrypt | melonDS/src/DSi_AES.cpp:160-186 | Decrypts, then chains the plaintext |
| AesEngine.DSiAES.ProcessBlockEncrypt | melonDS/src/DSi_AES.cpp:188-214 | Chains the plaintext, then encrypts |
| AesEngine.DSiAES.Updated | melonDS/src/DSi_AES.cpp:405-490 | The loops take extra blocks, then payload blocks while both FIFOs allow, and finish when none remain |
| AesEngine.DSiAES.CompareMac | melonDS/src/DSi_AES.cpp:446-450 | The byte loop sets the flag if and only if the reversed chain value is the MAC register |
| AesEngine.DSiAES.ReadOutputFIFO | melonDS/src/DSi_AES.cpp:339-368 | Returns the oldest word and lets the engine go on, or sends a MAC that was waiting for room |
| AesEngine.DSiAES.WriteInputFIFO | melonDS/src/DSi_AES.cpp:370-381 | Queues a word and lets a running engine go on |
| AesTransfer.FirstMacBlockIsB0 | melonDS/src/DSi_AES.cpp:298-312 | The first chained block is block B_0 of section 2.2 of RFC 3610 |
| AesTransfer.StartKeeps | melonDS/src/DSi_AES.cpp:275-328 | A start establishes the transfer invariant, or starts nothing if both counts are zero |
| AesTransfer.ExtraKeeps | melonDS/src/DSi_AES.cpp:144-158 | An extra block extends the authentication chain by one block |
| AesTransfer.PayloadKeeps | melonDS/src/DSi_AES.cpp:160-238 | A payload block extends key stream, chain and output by one block each, and the output FIFO does not overflow |
| AesTransfer.FinishKeeps | melonDS/src/DSi_AES.cpp:434-489 | Zeroing the low counter bytes recovers counter block zero, and finishing emits or compares the RFC 3610 authentication value |
| AesTransfer.UpdateKeeps | melonDS/src/DSi_AES.cpp:405-490 | After an update the transfer is done or waits for four input words or for output room; busy implies that blocks remain |
| AesTransfer.WriteKeeps | melonDS/src/DSi_AES.cpp:370-381 | Supplying a word keeps the invariant |
| AesTransfer.ReadKeeps | melonDS/src/DSi_AES.cpp:339-368 | Reading a word keeps the invariant, a waiting MAC included |
| AesTheorems.EveryInterleaving | melonDS/src/DSi_AES.cpp:339-490 | After any legal interleaving of FIFO writes and reads, chain, counter, counts and everything that has come out are functions of the words supplied; no FIFO ever overflows |
| AesTheorems.StartStuck | melonDS/src/DSi_AES.cpp:251-332 | A started transfer accepts some access if and only if the input FIFO was not full or the output FIFO not empty |
| AesTheorems.NeverStuck | melonDS/src/DSi_AES.cpp:339-418 | After any access a busy engine has blocks left and accepts a write if it lacks input, a read otherwise |
| AesTheorems.DrainedMeansComplete | melonDS/src/DSi_AES.cpp:434-489 | Once enough words are supplied and all output is read, the transfer has ended and everything including the MAC has come out |
| AesTheorems.FinishedOnce | melonDS/src/DSi_AES.cpp:434-489 | The MAC is finalised once: after the end no access changes the chain value, the emitted MAC or the comparison |
| AesTheorems.EncryptsAsRfc3610 | melonDS/src/DSi_AES.cpp:188-214 | A finished encryption has produced the RFC 3610 ciphertext of its input followed by the authentication value |
| AesTheorems.DecryptsAsRfc3610 | melonDS/src/DSi_AES.cpp:160-186 | A finished decryption has produced the plaintext and sets bit 21 if and only if the MAC register holds its authentication value |
| AesTheorems.RoundTrip | melonDS/src/DSi_AES.cpp:144-214 | Decrypting what an encryption produced, with the same settings and the emitted MAC, returns the plaintext words and sets bit 21, for any two interleavings |
| AesTheorems.CounterMode | melonDS/src/DSi_AES.cpp:216-238 | In counter mode output block i is input block i with the encrypted i-th increment of the initialisation value |
| AesTheorems.AdvanceAdds | melonDS/src/tiny-AES-c/aes.c:551-564 | i increments add i modulo 2^128 |
| AesSettings.EncryptsBySettings | melonDS/src/DSi_AES.cpp:251-332 | From registers and control word alone: with a and n the halves of the block count, a finished encryption has put out what was left over, then input block a + k xored with the encrypted counter k + 1 of the reversed low twelve IV bytes, then the end of the chain over the a extra blocks and the plaintext xored with the encrypted counter zero; the first block of the chain carries the MAC size field, 1 for 0, the key is the selected slot's if applied |
| AesSettings.DecryptsBySettings | melonDS/src/DSi_AES.cpp:251-332 | A finished decryption has put out the blocks xored with the same counters, and bit 21 is set exactly if the MAC register holds, byte by byte reversed, that chain value over the extra blocks and what came out |
| AesSettings.CountsBySettings | melonDS/src/DSi_AES.cpp:216-332 | In the counter modes block i comes out xored with the encrypted reversed IV register plus i modulo 2^128, with no extra blocks and no MAC |
| AesSettings.LeftoverFirst | melonDS/src/DSi_AES.cpp:339-368 | The words left over from before the start come out first, and only a decryption sets bit 21 |
| AesSettings.StartsExactly | melonDS/src/DSi_AES.cpp:251-332 | A control write starts a transfer exactly if bit 31 is written, none runs and there is a block to do; any other write only sets mode, key and bit 31 and clears bit 21 |
| AesSettings.IdleWriteQueues | melonDS/src/DSi_AES.cpp:370-381 | A word for an idle engine is queued unless sixteen are waiting, when it is lost |
| AesSettings.XorIsBitwise | melonDS/src/DSi_AES.cpp:152-155 | The exclusive or of two blocks differs from the first where the second has a bit set |
| KeyScrambler.RotationMultiplies | melonDS/src/DSi_AES.cpp:511-526 | The rotation multiplies the little-endian number by 2^n modulo 2^128 - 1, for every n below 128 |
| KeyScrambler.ROL16 | melonDS/src/DSi_AES.cpp:511-526 | The two byte loops perform that rotation in place |
| KeyScrambler.NormalKeyFormula | melonDS/src/DSi_AES.cpp:528-547 | The normal key is ((X xor Y) + constant modulo 2^128) rotated by 42 |
| KeyScrambler.NormalKeyNumber | melonDS/src/DSi_AES.cpp:528-547 | In numbers: 2^42 times ((X xor Y) + 0xFFFEFB4E295902582A680F5F1A4F3E79 modulo 2^128), modulo 2^128 - 1 |
| KeyScrambler.DeriveNormalKey | melonDS/src/DSi_AES.cpp:528-547 | The xor, carry and rotation loops compute that key |
| JitIndex.InvalidateKeeps | melonDS/src/ARMJIT.cpp:941-1033 | Invalidating keeps the index coherent, empties the whole 512-byte range, and leaves blocks without code in the range alone |
| JitIndex.WriteReported | melonDS/src/ARMJIT.h:58-64 | After a reported write no lookup, map or list leads to a block that covers the written 16-byte granule, and every block outside the range survives |
| JitIndex.EvictKeeps | melonDS/src/ARMJIT.cpp:973-1031 | One turn of the invalidation loop keeps lists, masks and the fast table consistent and shortens the list |
| JitIndex.DropAllKeeps | melonDS/src/ARMJIT.cpp:950-1032 | The loop terminates with the range empty, and only blocks of the range are gone |
| JitIndex.CompileAdds | melonDS/src/ARMJIT.cpp:848-938 | Compiling enters the restored or new block into the list and mask of each of its ranges, the map and the fast table, and nothing else |
| JitTheorems.CompileKeeps | melonDS/src/ARMJIT.cpp:548-565 | Compiling keeps the index coherent if and only if no block of the other processor is restored; then the next lookup finds a live block for that processor and address, with the scanned values |
| JitTheorems.RunsStayCoherent | melonDS/src/ARMJIT.cpp:914-1033 | Every run of compilations and writes without such a restore is coherent: live blocks are listed with their masks, every fast entry names a live block that starts there |
| JitTheorems.StaleAfterForeignRestore | melonDS/src/ARMJIT.cpp:848-938 | After any such restore, invalidating and compiling again makes a lookup return a block that is no longer live |
| JitTheorems.WriteKeepsFresh | melonDS/src/ARMJIT.cpp:941-1033 | After a reported write every live block still holds what memory holds |
| JitTheorems.CompileKeepsFresh | melonDS/src/ARMJIT.cpp:848-938 | A compilation leaves every live block as memory holds it if and only if the block that it restores, if any, is still in memory |
| JitTheorems.RestoreIsSafe | melonDS/src/ARMJIT.cpp:848-879 | A restore is safe in every memory that fits the scan and the live blocks if and only if each address and value the restored block was compiled from is one of the scan or of a live block |
| JitTheorems.SamePlacesHold | melonDS/src/ARMJIT.cpp:848-879 | A candidate that was read at the scanned addresses is always still in memory |
| JitTheorems.NoStaleCode | melonDS/src/ARMJIT.cpp:848-938 | Over any run without a foreign restore, at no moment does a lookup return a block whose code or literals differ from memory, if and only if every block that was restored was still in memory at that moment |
| JitBytes.SixteenBytes | melonDS/src/ARMJIT.h:58-64 | Two addresses share a granule exactly in the same 16 bytes, a range exactly in the same 512 |
| JitBytes.NothingNearIsFound | melonDS/src/ARMJIT.h:58-64 | After a reported write no lookup or map entry leads to a block that read an instruction or literal in the 16 bytes around it |
| JitBytes.ReportsExactly | melonDS/src/ARMJIT.cpp:941-1033 | A reported write changes nothing unless the mask has its bit; then exactly the live blocks with a range at its 512 bytes go |
| JitBytes.TakenOut | melonDS/src/ARMJIT.cpp:981-1031 | Of the blocks a write takes out, those that loaded the written address as a literal are deleted and the address is remembered once; of the others with the same values one becomes the candidate; other candidates stay |
| JitBytes.CompilesExactly | melonDS/src/ARMJIT.cpp:848-938 | A compilation reuses the candidate exactly if start address, each literal value, ranges and masks are the scan's, else it makes a new block of the scan and deletes the candidate; either way the block is mapped, found, listed last in each of its ranges, and its granules are marked |
| JitExamples.RestoredAlongOtherPath | melonDS/src/ARMJIT.cpp:848-912 | A concrete run where a lookup returns a block whose code memory no longer holds |
| JitExamples.ForeignRestoreHappens | melonDS/src/ARMJIT.cpp:848-938 | A concrete run from nothing, coherent and with its scan as memory is, in which a block of the other processor is restored, and whose continuation ends in a lookup of a block that is not live |
| JitCache.CollectRanges | melonDS/src/ARMJIT.cpp:620-639 | The collection loop yields unique ranges whose masks cover exactly the granules that were fetched or read as literals |
| JitCache.PositionOf | melonDS/src/ARMJIT.cpp:623-638 | Finding or adding a range, with the swap of a returning one, changes no coverage |
| JitCache.CollectedIsWellFormed | melonDS/src/ARMJIT.cpp:914-919 | What was collected satisfies the asserts of registration |
| JitCache.JitCache.InvalidateByAddr | melonDS/src/ARMJIT.cpp:941-1033 | The loops over lists and ranges perform the specified invalidation; every assert holds |
| JitCache.JitCache.CheckAndInvalidate | melonDS/src/ARMJIT.h:58-64 | The mask test never skips an invalidation that is needed |
| JitCache.JitCache.CompileBlock | melonDS/src/ARMJIT.cpp:848-938 | Relinks, restores or allocates, and registers, as specified |
| JitCache.JitCache.RetireJitBlock | melonDS/src/ARMJIT.cpp:485-497 | Keeps the block as the candidate for its hash and deletes the one it replaces |
| CodeWindows.WindowIsExact | melonDS/src/ARMJIT_Memory.cpp:1019-1230 | Every address in the window that `GetMirrorLocation` gives for some address is localised by `LocaliseAddress` to the window's offset plus its distance from the start, within 16 MiB |
| CodeWindows.WindowHolds | melonDS/src/ARMJIT_Memory.cpp:1019-1166 | The window set up for an address holds that address, for every classification |
| CodeWindows.DispatchAgrees | melonDS/src/ARMJIT.cpp:1069-1099 | Through any cached window the dispatcher finds what the index holds for an address if it is classified to the window's region, and nothing otherwise, never another block |
| CodeWindows.WindowCrossing | melonDS/src/ARMJIT_Memory.cpp:1232-1348 | A window covers code of another region only from the ARM7's own RAM into DSi shared RAM bank B or C |
| AddressMap.Arm9Code | melonDS/src/ARMJIT_Memory.cpp:1168-1297 | Where the ARM9's code sits, by intervals of addresses: TCM, BIOS, main RAM, shared RAM and its banks, video RAM, with their mirrors |
| AddressMap.Arm7Code | melonDS/src/ARMJIT_Memory.cpp:1168-1348 | The same for the ARM7 |
| AddressMap.WindowWhereCode | melonDS/src/ARMJIT_Memory.cpp:1019-1166 | There is a window for an address exactly if code sits there |
| Dispatcher.FastBlockLookup.Next | melonDS/src/ARM.cpp:622-633 | Whatever window is cached, a turn yields the indexed block of the address or none as above, including a window that ends at the top of the address space and so seems empty |
| Dispatcher.CompiledIsFound | melonDS/src/ARM.cpp:632-637 | After compiling, the block is found through the cached window if and only if the regions agree |
| Dispatcher.CrossingMakesNoProgress | melonDS/src/ARM.cpp:757-777 | Where they differ, compiling again changes nothing and the block is still not found |
| Dispatcher.CrossingHappens | melonDS/src/ARMJIT_Memory.cpp:1076-1083 | A concrete mapping where this is so |
| Dispatcher.CrossingMisses | melonDS/src/ARM.cpp:757-777 | There a block of one word is compiled and indexed, the dispatcher misses it through that window, and compiling again changes nothing |
| FlagLiveness.FloodFillSetFlags | melonDS/src/ARMJIT.cpp:251-267 | The backward loop adds to each instruction exactly the asked flags that it writes, or may write, and that no later instruction writes for certain |
| FlagLiveness.FloodsComputeLiveness | melonDS/src/ARMJIT.cpp:822-825 | The forward sequence of floods asks, after each instruction, for exactly the live flags |
| FlagLiveness.LiveIsAskedFor | melonDS/src/ARMJIT.cpp:822-825 | A live flag reaches an instruction that demands it, or the end, without being overwritten |
| FlagLiveness.ComputeSetFlags | melonDS/src/ARMJIT.cpp:822-900 | The set flags of each instruction are its written or maybe written flags that are live after it |
| FlagLiveness.LeanRunAgrees | melonDS/src/ARMJIT.cpp:822-900 | Writing only those flags gives every instruction the same observed flags and effects as writing all, and all four flags at every uncompilable instruction, followed branch and the end |
| DmaTheorems.PreemptionTransparent | melonDS/src/DMA.cpp:553-694 | For any sequence of time targets, stalls and restarts, completing the transfer gives the same memory, moves, cycles and registers as one uninterrupted run |
| DmaTheorems.MovesExactlyTheCount | melonDS/src/DMA.cpp:553-624 | Exactly the remaining count of units moves, chunked or not, in order, and the channel is idle afterwards |
| DmaTheorems.FlatCopyExactly | melonDS/src/DMA.cpp:173-182 | The units are the flat source and destination ranges, wrapping at 32 bits, if and only if the transfer is not chunked with a reloaded address |
| DmaTheorems.NextChunk | melonDS/src/DMA.cpp:173-182 | A reloaded address starts again at the first unit of the next chunk |
| DmaTheorems.WriteStarts | melonDS/src/DMA.cpp:115-171 | A rising enable bit starts with the programmed count, zero meaning the whole counter range, and chunks it only in GX mode |
| DmaPrograms.StartsAtOnce | melonDS/src/DMA.cpp:115-154 | A write that enables an idle channel starts it at once exactly if the start bits, 27 to 29 or on the ARM7 28 and 29, are zero |
| DmaPrograms.OnlyEnablingPrograms | melonDS/src/DMA.cpp:115-121 | Any other write only replaces the control register |
| DmaPrograms.MovesAsProgrammed | melonDS/src/DMA.cpp:115-197 | By the bits of the control word: the count field of the channel's width, zero for the maximum, says how many units move; unit k goes up by k widths in mode 0, down in mode 1, stays in mode 2, and in mode 3 goes up by k, or in chunks of 112 by k modulo 112, on either side; memory changes by these units alone |
| DmaPrograms.EndsAtRest | melonDS/src/DMA.cpp:626-652 | Afterwards the channel is at rest, still enabled exactly if bit 25 is set |
| DmaPrograms.SliceStopsFirst | melonDS/src/DMA.cpp:553-635 | A slice moves units up to and including the first after which the chunk has ended, the clock has reached its target or a stall was asked for, at least one unless the clock was already there |
| DmaPrograms.OneUnit | melonDS/src/DMA.cpp:563-596 | One unit charges its cycles times the clock ratio, copies one element and moves both addresses by one step |
| DmaPrograms.PlainCosts | melonDS/src/DMA.cpp:214-265 | What a unit costs without a burst: 16 or 18 between main RAM, 7, 8 or 9 against the burst direction by its place in a block, the access times elsewhere |
| DmaPrograms.ReadBursts16 | melonDS/src/DMA_Timings.cpp:48-77 | Every entry of the burst from main RAM, 16 bits wide |
| DmaPrograms.ReadBurstsCartridge16 | melonDS/src/DMA_Timings.cpp:78-119 | The same to the cartridge bus, by its sequential time |
| DmaPrograms.ReadBursts32 | melonDS/src/DMA_Timings.cpp:122-147 | Every entry of the burst from main RAM, 32 bits wide, by the width of the other bus |
| DmaPrograms.ReadBurstsCartridge32 | melonDS/src/DMA_Timings.cpp:148-178 | The same to the cartridge bus |
| DmaPrograms.WriteBursts | melonDS/src/DMA_Timings.cpp:181-240 | Every entry of the bursts to main RAM, of both widths |
| DmaPrograms.BurstGoesOn | melonDS/src/DMA.cpp:224-244 | Later units take the next entry, and behind the last one the burst opens again |
| DmaTheorems.StartLeavesIndex | melonDS/src/DMA.cpp:190-193 | After a start the burst index is at or before the terminator if and only if it was 0 |
| DmaTheorems.TimingsInTable | melonDS/src/DMA.cpp:199-551 | A unit's timing keeps the index at or before the terminator of the table it uses, and an access to main RAM never costs zero |
| DmaTheorems.EventsInTable | melonDS/src/DMA.cpp:156-694 | Over any sequence of slices and restarts the index stays inside its table |
| DmaChannel.DmaChannel.Start | melonDS/src/DMA.cpp:156-197 | Performs the specified start |
| DmaChannel.DmaChannel.WriteCnt | melonDS/src/DMA.cpp:115-154 | Performs the specified control write and moves nothing |
| DmaChannel.DmaChannel.RunUnits | melonDS/src/DMA.cpp:563-596 | The loop moves units until the count, the clock or a stall ends it |
| DmaChannel.DmaChannel.Run | melonDS/src/DMA.cpp:553-700 | A slice charges and moves its units, then ends the chunk or the transfer |
| ARCheat.TurnsAligned | melonDS/src/AREngine.cpp:59-82 | Every turn, whatever memory holds, keeps the code pointer and loop start on instruction boundaries of the linear decode and decreases (end minus loop start, loop count, end minus pointer) |
| ARCheat.BoundaryNext | melonDS/src/AREngine.cpp:70-82 | Executed or skipped, an instruction with its data leads to the next boundary |
| ARCheat.SkipData | melonDS/src/AREngine.cpp:76-77 | The skipping loop advances by the data of the copy operation, as executing it does |
| ARCheat.CopyData | melonDS/src/AREngine.cpp:327-356 | The copy loops write exactly the given bytes in order and advance by the whole pairs of data words |
| ARCheat.RunCheat | melonDS/src/AREngine.cpp:42-82 | On code whose copy data fits, the interpreter loop terminates for every memory and bus, in the state of the interpretation function |
| ARCheatEffects.Starts | melonDS/src/AREngine.cpp:42-57 | A cheat starts at its first word under a true condition, everything else zero |
| ARCheatEffects.Writes | melonDS/src/AREngine.cpp:86-96 | 00 to 2F write 32, 16 or 8 bits of b at (a modulo 2^28) plus the offset, and change nothing else |
| ARCheatEffects.LoadsOffset | melonDS/src/AREngine.cpp:210-212 | B0 loads the offset from the address plus the offset |
| ARCheatEffects.TestsWord | melonDS/src/AREngine.cpp:98-148 | 30 to 60 push the condition and test b against the word at the address, or at the offset if the address is zero: greater, less, equal, different |
| ARCheatEffects.TestsHalf | melonDS/src/AREngine.cpp:150-208 | 70 to A0 test the low half of b so against the halfword less the bits of the high half |
| ARCheatEffects.MaskedAt | melonDS/src/AREngine.cpp:150-208 | That masking bit by bit |
| ARCheatEffects.TestsCount | melonDS/src/AREngine.cpp:229-245 | C5 counts its executions, skipped or not, and where not skipped pushes and tests the masked count |
| ARCheatEffects.AndedAt | melonDS/src/AREngine.cpp:229-245 | That masking bit by bit |
| ARCheatEffects.EndsIf | melonDS/src/AREngine.cpp:251-254 | D0 pops the condition, in force or not |
| ARCheatEffects.PassesOver | melonDS/src/AREngine.cpp:70-82 | Under a false condition every operation but C5, D0, D1 and D2 is passed over with its data and no effect |
| ARCheatEffects.MarksLoop | melonDS/src/AREngine.cpp:214-219 | C0 records loop start, count, condition and stack |
| ARCheatEffects.Repeats | melonDS/src/AREngine.cpp:256-282 | D1 and D2 go back while the count lasts, then restore the condition or clear everything |
| ARCheatEffects.SetsRegisters | melonDS/src/AREngine.cpp:284-325 | D3, D4, D5 and DC set and add to the offset and the data register, modulo 2^32 |
| ARCheatEffects.StoresData | melonDS/src/AREngine.cpp:296-309 | D6, D7 and D8 store 32, 16 or 8 bits at b plus the offset and move the offset by 4, 2 or 1 |
| ARCheatEffects.LoadsData | melonDS/src/AREngine.cpp:311-321 | D9, DA and DB load 32, 16 or 8 bits from b plus the offset |
| ARCheatEffects.StoresOffset | melonDS/src/AREngine.cpp:247-249 | C6 stores the offset at b |
| ARCheatEffects.Gives | melonDS/src/AREngine.cpp:221-227 | C4 and the operations that do not exist end the cheat |
| ARCheatMemory.IfBlock | melonDS/src/AREngine.cpp:98-254 | The block of an IF is run exactly if the comparison holds, else the run goes on behind its ENDIF with nothing changed; behind a block that was run, condition and stack are those from before |
| ARCheatMemory.LoopRuns | melonDS/src/AREngine.cpp:214-267 | FOR 0..b with its NEXT runs its body b + 1 times, for every b and every effect of the body |
| ARCheatMemory.CopiesIn | melonDS/src/AREngine.cpp:327-356 | E0: byte i of the data lands at the effective address plus i and no other byte changes, for an aligned address; to any other the words go where the bus aligns them to |
| ARCheatMemory.CopyWithinExactly | melonDS/src/AREngine.cpp:358-379 | F0: between aligned addresses it copies what was there before, in every memory, if and only if the destination does not start inside the source behind its first byte |
| ARCheatMemory.CopiesWithin | melonDS/src/AREngine.cpp:358-379 | F0 copies from the offset to the address alone and goes on behind the pair |
| ARCheatCodes.WriteAtOffset | melonDS/src/AREngine.cpp:42-96 | The code D3000000 x, a b leaves the bytes of b at a + x, modulo 2^32, and every other byte alone |
| ARCheatCodes.WriteThroughPointer | melonDS/src/AREngine.cpp:42-282 | The usual pointer cheat writes at what the pointer holds plus its displacement, and does nothing while it is zero |
| ARCheatCodes.Fills | melonDS/src/AREngine.cpp:42-309 | A loop of b repetitions over a byte store fills exactly b + 1 bytes, for every b, value and start |
| ARCheat.EndifUndoesIf | melonDS/src/AREngine.cpp:98-254 | ENDIF restores condition and stack if and only if the stack's top bit was clear |
| ARCheat.SkippedIfIsNotPushed | melonDS/src/AREngine.cpp:70-82 | A skipped IF pushes nothing, so the ENDIF after it pops the enclosing condition |
| ARCodeTheorems.SaveThenLoad | melonDS/src/ARCodeFile.cpp:58-195 | For codes of even length, loading what was saved returns the same categories if and only if all names have 1 to 127 characters, no NUL, CR or LF and no leading white space |
| ARCodeTheorems.LoadsValid | melonDS/src/ARCodeFile.cpp:58-165 | Whatever file loads, the result has such names and even-length codes |
| ARCodeTheorems.DataHeaderIsLine | melonDS/src/ARCodeFile.cpp:184-187 | A saved data line is one line and is never taken for a CAT or CODE line |
| ARCodeTheorems.LoadCats | melonDS/src/ARCodeFile.cpp:58-195 | Loading saved categories, in any loader state, appends exactly them |
| ARCodeLines.LoadsNumbers | melonDS/src/ARCodeFile.cpp:137-158 | A line of two numbers of eight hexadecimal digits, each in either case, indented or not, adds the numbers they spell to the code under way, and is an error without one |
| ARCodeLines.ScansSigned | melonDS/src/ARCodeFile.cpp:137-140 | A number may be shorter, signed and prefixed with 0x: up to eight characters count, a minus negates modulo 2^32, and what follows is left for the next number |
| ARCodeLines.EnabledUnlessZero | melonDS/src/ARCodeFile.cpp:108-133 | A code is enabled exactly if its number has a digit other than 0, sign or not |
| ARCodeLines.LongLineSplits | melonDS/src/ARCodeFile.cpp:71-77 | A line longer than the buffer is read in pieces of 1023 characters |
| ARCodeLines.SkipsComments | melonDS/src/ARCodeFile.cpp:82-86 | Comments and blank lines, indented or not, change nothing |
| ARCodeLines.KeyWordsInCapitals | melonDS/src/ARCodeFile.cpp:86-120 | CAT and CODE in any other spelling are malformed lines |
| ARCodeLines.CodeNeedsCategory | melonDS/src/ARCodeFile.cpp:122-127 | A CODE line outside every category is an error |
| ARCodeLines.HandWrittenFile | melonDS/src/ARCodeFile.cpp:58-165 | A file of a comment, a category, a code and a line of digits in either case loads as just that |
| ARCodeFile.ARCodeFile.Load | melonDS/src/ARCodeFile.cpp:58-165 | The line loop computes the specified categories; a missing file is not an error, and a malformed line fails and keeps those finished so far |
| ARCodeFile.ARCodeFile.ReadLine | melonDS/src/ARCodeFile.cpp:79-157 | One line updates current category and code as specified, or is malformed |
| ARCodeFile.ARCodeFile.Save | melonDS/src/ARCodeFile.cpp:167-195 | The nested loops write the specified text |
| SharedWRAM.MapPartKeeps | melonDS/src/DSi.cpp:1054-1144 | After any write of a mapping register the pointer table is the function of the registers in which the lowest-numbered part wins |
| SharedWRAM.TableIsFunction | melonDS/src/DSi.cpp:1077-1096 | In every reachable state the pointer table is a function of the registers alone |
| SharedWRAM.MapAllSettings | melonDS/src/DSi.cpp:1054-1076 | After any sequence of writes each register holds its last unprotected write, without the bits that cannot be set |
| SharedWRAM.OrderIndependent | melonDS/src/DSi.cpp:1077-1081 | Two sequences of writes with the same last writes to unprotected parts give the same bank and map, whatever their order |
| SharedWRAM.WantedIsMapped | melonDS/src/DSi.cpp:1498-1503 | The comparison that a write makes holds for exactly the parts mapped to that slot and processor |
| SharedWRAM.ReadAfterWrite | melonDS/src/DSi.cpp:1344-1357 | A read after a write to a mapped slot returns the written bytes although the write goes to all overlapping parts; an unmapped slot reads zero and is not written |
| SharedWRAM.WriteDisturbsNothingElse | melonDS/src/DSi.cpp:1494-1508 | A write changes no other byte and no part that is not mapped there |
| SharedWRAMWindows.MapRangeKeeps | melonDS/src/DSi.cpp:1193-1262 | A window's bounds and mask are always those of its register, without the bits that cannot be set |
| SharedWRAMWindows.WriteThenRead | melonDS/src/DSi.cpp:1339-1359 | Within the windows of either processor, a read of 1, 2 or 4 aligned bytes after a write to the same address returns them, or zero if the slot is unmapped |
| SharedWRAMAccess.ReadsLowestPart | melonDS/src/DSi.cpp:1339-1359 | By register fields: an aligned read that window A, else B, else C covers shows, from the offset in the page on, the lowest part whose setting is 128 + 4 slot + processor, or zeros; the slot is the page number modulo the window's slots |
| SharedWRAMAccess.WritesAllParts | melonDS/src/DSi.cpp:1487-1547 | A write there changes exactly these bytes of every part with that setting, and no other byte of any bank |
| SharedWRAMAccess.OtherAccesses | melonDS/src/DSi.cpp:1359 | An access that no window covers, or with the memory disabled, is for ordinary memory |
| SharedWRAMAccess.DropsLowBits | melonDS/src/DSi.cpp:1377-1390 | A wide access first drops its low address bits |
| SharedWRAMAccess.PagesFromStart | melonDS/src/DSi.cpp:1346 | The address q pages and r bytes into the region is byte r of slot q modulo the slots |
| SharedWRAMAccess.RegisterKeepsFields | melonDS/src/DSi.cpp:1193-1262 | A window register keeps the start, end and size fields of what is written |
| SharedWRAMAccess.SettingKeepsFields | melonDS/src/DSi.cpp:1054-1104 | A mapping register keeps enable, slot and master and clears the other bits |
| SharedWRAMAccess.TableShowsLowest | melonDS/src/DSi.cpp:1077-1096 | A table entry is a part exactly if that is the first one enabled for the slot and the master, 2 and 3 both being the DSP |
| SharedWRAMWindows.SharedWRAMUnit.BuildTable | melonDS/src/DSi.cpp:1082-1096 | Clearing and refilling from the highest part down gives the table of lowest parts |
| SharedWRAMWindows.SharedWRAMUnit.MapNWRAM | melonDS/src/DSi.cpp:1099-1144 | Performs the specified register write, or nothing if protected or unchanged |
| SharedWRAMWindows.SharedWRAMUnit.MapNWRAMRange | melonDS/src/DSi.cpp:1193-1262 | Performs the specified window write |
| SharedWRAMWindows.SharedWRAMUnit.WritePages | melonDS/src/DSi.cpp:1499-1507 | The page loop writes exactly the mapped parts |
| SharedWRAMWindows.SharedWRAMUnit.WriteBytes | melonDS/src/DSi.cpp:1487-1547 | Selects bank and slot by the first window that holds the address and writes there |
| BankedRegisters.UpdateModeKeeps | melonDS/src/ARM.cpp:448-516 | Swapping between any two modes, defined or not, keeps every register of the abstract per-mode file and every saved status |
| BankedRegisters.UpdateModesKeep | melonDS/src/ARM.cpp:448-516 | So does every sequence of mode changes |
| BankedRegisters.EntryKeeps | melonDS/src/ARM.cpp:527-539 | Interrupt entry saves the status and changes no register but the IRQ link register and the program counter |
| BankedRegisters.EntryLinks | melonDS/src/ARM.cpp:537-538 | The link register that entry writes is the interrupted program counter, plus 2 in Thumb state |
| BankedRegisters.InterruptRoundTrip | melonDS/src/ARM.cpp:406-446 | Returning restores every register of the non-IRQ modes but the program counter, and the status if and only if its bit 4 was set |
| ArmStates.ModeSees | melonDS/src/ARM.cpp:448-516 | After a change of mode register i is the new mode's own, or where it has none the user one, which lay in the old mode's array where that has it |
| ArmStates.ArraysHold | melonDS/src/ARM.cpp:448-516 | The old mode's array holds its registers again, the new mode's the user ones, the others stay |
| ArmStates.StatusStays | melonDS/src/ARM.cpp:448-516 | No mode change touches a saved status, and one within a mode nothing |
| ArmStates.EntersIrq | melonDS/src/ARM.cpp:527-539 | A masked interrupt changes nothing; any other leaves mode 0x12 in ARM state with bits 6 and 7 set and the flags kept, r15 four past offset 0x18 from the exception base, the old status saved and the link set |
| ArmStates.Jumps | melonDS/src/ARM.cpp:362-404 | An odd address continues in Thumb state at it less one, an even one in ARM state at its word, with r15 one instruction ahead; nothing else changes |
| ArmStates.RestoresStatus | melonDS/src/ARM.cpp:406-446 | Which saved status each mode brings back, with bit 4 set |
| BlockTransfer.StmStores | melonDS/src/ARMInterpreter_LoadStore.cpp:473-536 | A block store, in all its forms, puts each listed register of the bank it transfers at its rank's word from the lowest address; of a listed base the old value, but on an ARM7 behind a lower register the address of the word |
| BlockTransfer.StmBase | melonDS/src/ARMInterpreter_LoadStore.cpp:481-533 | The base, listed or not, is unchanged without writeback, else moved by the size of the list |
| BlockTransfer.StmLeaves | melonDS/src/ARMInterpreter_LoadStore.cpp:507-527 | No word outside the range of the list changes |
| ArmStates.RankCounts | melonDS/src/ARMInterpreter_LoadStore.cpp:507-510 | A register's word is as many words up as lower registers are listed |
| ArmStates.LowestAddress | melonDS/src/ARMInterpreter_LoadStore.cpp:476-493 | The lowest address by the four forms: base, base + 4, base - 4n + 4, base - 4n |
| ArmStates.StoresAt | melonDS/src/ARMInterpreter_LoadStore.cpp:473-536 | What a store leaves at each address, in register and array places |
| BlockTransfer.LdmRegistersLoads | melonDS/src/ARMInterpreter_LoadStore.cpp:393-465 | A block load fills exactly the listed registers of the bank it transfers, writes the base back into that bank, a listed one only on an ARM9 unless it is the last of several, leaves every other register of every bank alone, and takes the program counter from the word after the last |
| ArmStates.LoadsFrom | melonDS/src/ARMInterpreter_LoadStore.cpp:393-462 | What a load in the current bank leaves in each register, by addresses, the rules for a listed base included |
| BlockTransfer.LoadRestoresStore | melonDS/src/ARMInterpreter_LoadStore.cpp:393-536 | A load restores what a store with the same list from the same lowest address saved, whatever happened to the registers between |
| BlockTransfer.StackRoundTrip | melonDS/src/ARMInterpreter_LoadStore.cpp:393-536 | STMDB then LDMIA on one list, base not in it, restores the listed registers and the base |
| BlockTransfer.UserRoundTrip | melonDS/src/ARMInterpreter_LoadStore.cpp:418-505 | A user-bank store and load without writeback, in any form and from any mode, restore the user registers and the base |
| Returns.CallReturns | melonDS/src/ARMInterpreter_LoadStore.cpp:433-468 | Pushing a list with the link register and popping it with the program counter restores registers and stack pointer and goes on at the saved link, in the state that bit 0 selects on an ARM9 and always in ARM state on an ARM7 |
| Returns.ThumbCallReturns | melonDS/src/ARMInterpreter_LoadStore.cpp:702-768 | The same for the Thumb pop, which leaves an ARM7 always in Thumb state |
| Returns.InterruptReturns | melonDS/src/ARM.cpp:406-539 | Entry, lowering the link by n, saving a list and the link, any handler that changes only what it saved, and the restoring load bring back every register of the non-IRQ modes, the status if and only if its bit 4 was set, and the interrupted state, and go on n bytes before the entry's link: with n = 4 and an aligned program counter exactly where it was |
| ArmCore.ArmCore.UpdateMode | melonDS/src/ARM.cpp:448-516 | The in-place swaps perform the specified mode change |
| ArmCore.ArmCore.RestoreCPSR | melonDS/src/ARM.cpp:406-446 | Performs the specified return, modes without a saved status included |
| ArmCore.ArmCore.TriggerIRQ | melonDS/src/ARM.cpp:527-539 | Performs the specified entry, or nothing while masked |
| ArmCore.ArmCore.JumpTo | melonDS/src/ARM.cpp:362-404 | Sets program counter and state bit as specified |
| ArmCore.ArmCore.A_STM | melonDS/src/ARMInterpreter_LoadStore.cpp:473-536 | The loop with its base and bank rules performs the specified store |
| ArmCore.ArmCore.A_LDM | melonDS/src/ARMInterpreter_LoadStore.cpp:393-471 | The loop, the program counter, the writeback rules and the jump perform the specified load |
| ArmCore.ArmCore.T_PUSH | melonDS/src/ARMInterpreter_LoadStore.cpp:702-738 | Counting first and storing upwards is the descending block store of the list |
| ArmCore.ArmCore.T_POP | melonDS/src/ARMInterpreter_LoadStore.cpp:740-768 | Is the ascending block load of the list but for the state of an ARM7 |

## Left out

- User interface, rendering, audio, discovery, sockets, sleeping, cancellation, backgrounding and reconnection: no deep state; the session sees FIFO channels and the transport sees byte streams and a list of system call results.
- Session data: frame counters are unbounded naturals, failure texts are empty, status messages are not kept, and the display's frame timing is kept in the acknowledgement method only; the reader's receive and append are one move.
- Session form: the two long methods with blocking calls are one transition system, because the properties are about their interleavings; only the inbox and the acknowledgement method are classes.
- Codec text: a Swift string is its UTF-8 bytes, so strings that are equal under Unicode normalisation but have different bytes count as different.
- Frames of `BonjourTransport`: the same framing as the TCP transport.
- Native code: an instruction of the register cache acts on host registers as soon as it is prepared; register masks are sets; R15 is never part of the compared file.
- AES: words are four bytes; flag bits of one byte that the source joins with `|` are added; DMA requests, the interrupt, savestates and the MAC taken from the FIFO (which the source does not implement) are not modelled.
- AES: the engine always emits all 16 MAC bytes and takes extra data as whole blocks, so truncation and the length prefix of section 2.2 of RFC 3610 are the caller's.
- AES: callers write no full FIFO and read no empty one; the FIFOs' ring buffers are sequences.
- JitTheorems.NoStaleCode: runs without restores of the other processor's blocks, since those already break the index that lookups use.
- JIT: where code sits is fixed, so the branch of `CompileBlock` for remapped memory, `ResetBlockCache` on such changes and windows cached before one are not modelled; nor are page protection, idle loops, branch following and instructions that overwrite their own block while it is compiled.
- JIT: the hash of a list of values is the list itself (no collisions); the Thumb bit is in neither tag nor hash in the source and is not modelled; addresses in `JitExamples.RestoredAlongOtherPath` are offsets in one region.
- JIT: a bank's pointer table, the DTCM test and the register bits that address classification depends on are given as data (`CodeWindows.Machine`), in the forms their registers allow.
- Flags: an instruction's effect on flags is an arbitrary function; the tables of read and written flags per instruction are not modelled.
- DMA: the four `UnitTimings` functions are one with the processor and width as parameters; `IsGXFIFODMA`, interrupts, CPU stop and resume, and register writes or other bus activity during a transfer are not modelled.
- Cheats: codes have at most 2^30 words, beyond which the source's 32-bit skipping loop could not end; halfword masks are computed bit by bit.
- Cheat files: one character per byte; `%d` beyond the range of `int` and failing writes are not modelled; `Save` needs codes of even length, which loading guarantees.
- Shared RAM: the three functions for banks A, B and C are one with the bank kind as parameter; a register word is its bytes; the DSP's accesses, code invalidation on writes and accesses outside the windows are not modelled.
- Cheats: the memory of `ARCheatMemory` is bytes with aligned accesses, as main RAM is on the ARM7 bus; what other addresses do is left to the arbitrary bus of `ARCheatEffects`. Running all enabled cheats in turn is not modelled.
- ARM: data and prefetch aborts, cycle counts, instruction fetches after a jump, the protection-unit maps and the cheat hook in interrupt entry are not modelled; block transfers whose base is in the list are modelled, and the round trips exclude them.
- ARM: an ARM9 jump sets the program counter and state bit as an ARM7 jump does; its abort check is not modelled.
- Other melonDS parts: graphics, cartridges, Wi-Fi, the instruction tables and single-instruction arithmetic would add easy members or large tables.
- AesEngine.DSiAES.WriteCnt: does not model the DMA sizes of the control word or the input DMA request at a start, because no property of the data depends on them.
- AesEngine.DSiAES.Updated: does not model the output DMA request, the stopped requests and the interrupt at the end.
- AesEngine.DSiAES.ReadOutputFIFO: does not model the DMA requests that follow a read.
- JitCache.JitCache.InvalidateByAddr: does not model page protection, which is a foreign call.
- JitCache.JitCache.CompileBlock: does not model the branch for remapped memory, because it retires a block without unlisting it; the Thumb state is in neither tag nor hash.
- DmaChannel.DmaChannel.Start: does not model the GX flag, which only the geometry engine reads, and stopping the processor.
- DmaChannel.DmaChannel.WriteCnt: does not model the geometry FIFO check in GX mode, which may start the channel at once; such a start is `Start`.
- DmaChannel.DmaChannel.Run: does not model the interrupt and resuming the processor.
- SharedWRAMWindows.SharedWRAMUnit.WritePages: does not model the code invalidation per written page; what that does is `JitCache.JitCache.CheckAndInvalidate`.
- SharedWRAMWindows.SharedWRAMUnit.WriteBytes: likewise.
- ArmCore.ArmCore.UpdateMode: does not model the protection-unit map of the new mode.
- ArmCore.ArmCore.TriggerIRQ: does not model the cheat hook of the ARM7.
- ArmCore.ArmCore.JumpTo: does not model the two instruction fetches and their cycles.
