# Verification of the DCC decoder

A Dafny 4.11 model of the control logic of this model railway decoder, in both of its
implementations: the C firmware under `Software/` and the Rust rewrite under `dcc-rp2040-rs/`, with
machine-checked proofs about it. `dafny verify dfyconfig.toml` checks everything.

## What is modelled

| module | part of the decoder |
|---|---|
| `Wire`, `Velocity`, `Numbers` | shared types and arithmetic |
| `ShiftRegister` | the 64-bit input register of the C firmware, related to the history of bits received |
| `Framing` | recognition of packets in the bit stream, against the general packet format of section A of NMRA S-9.2 |
| `PacketRing` | the interrupt handler and the main loop around the ring of received packets |
| `RampHelper` | the acceleration helper of the Rust decoder |
| `RampTask` | the task around that helper, which signals the motor task |
| `SpeedHelper` | the acceleration tick of the C firmware |
| `PacketCodec` | packet decoding, addresses and instructions |
| `Firmwares` | the C firmware's reading of addresses, functions and speeds beside the Rust one |
| `FunctionOutputs` | active functions, their outputs, and the loop that feeds them |
| `FlashStore` | the CV store: a cache over NOR flash |
| `ServiceMode` | the packet handler and the execution of service instructions |
| `ServiceInstructions` | what a service instruction does to the CVs and what its reply means |
| `ServiceHistory` | service mode over whole runs: repetition, timing, the address invariant |
| `PowerCycles` | the CV store over the life of the decoder, with restarts |
| `MotorBridge` | every write to the two sides of the motor bridge |
| `TrimmedMean`, `OutlierFilter` | the back-EMF measurement and the filter of the ADC offset calibration |
| `SpeedTable` | the two-segment speed table and its rounding |
| `StartupSweep` | the startup controller of the Rust decoder |
| `Floats` | the reals with infinities and the value that is no number |
| `PidController` | the motor controller of the C firmware, startup and PID |
| `DerivativeFilter` | its band-limited derivative over the reals |
| `PidLevels` | what it writes, in terms of CVs, setpoint and samples |
| `PidBounds` | what it guarantees over whole runs, and for which CVs |

Objects with state are classes whose methods update their fields and are proved equal to a function
of the old state (`AfterBit`, `Next`, `Tick`, `After`, `AfterWrite`, ...). The results about whole
runs are lemmas about the run of that function over a sequence of events. Where a property one would
expect does not hold, a lemma says exactly when it does, and another shows an input that breaks it.

Conventions. Time is a logical clock. ADC samples, flash outcomes (success, a failed erase, a failed
program, with any damage to the erase range) and the order of events are universally quantified.
Reals stand for floating point, with infinities and the value that is no number where the C
controller can produce them; `SpeedTable` also bounds the rounding errors of 32-bit floats. 8-bit and
16-bit wrap-around is written out; the Rust release profile has overflow checks off
(`dcc-rp2040-rs/Cargo.toml:20`), so its subtraction below zero is modelled as wrapping.

## What was found

- The ramp helper subtracts one from a zero index in exactly one case: standing still, with a
  deceleration rate, told to stop facing the other way (`dcc-rp2040-rs/motor/src/speed/accel.rs:79`).
  The index becomes 255, and the motor is driven at the last entry of the speed table for 130 steps
  before it slows down (`RampHelper.UnderflowExactly`, `RampHelper.IndexInTableExactly`,
  `RampTask.RunawayLevels`).
- A reset or an acknowledgement turns the motor off but leaves the setpoint that the next one is
  compared with, so that a repeated command may never reach the motor
  (`RampTask.LostAfterResetExactly`, `RampTask.LostAfterAcknowledgeExactly`).
- A latched service packet outlives its session: the same packet sent once in a later session
  executes (`ServiceHistory.TwoSessionsExecute`).
- Bit writes go round the guards on the address CVs
  (`dcc-rp2040-rs/dcc/src/handler.rs:248-252`), and a run of five packets can leave the decoder with
  address 0, after which the next start resets all CVs (`PowerCycles.AddressCanBecomeZero`).
- A write that failed on the flash has already changed the cache, so repeating it is skipped and
  reported as a success (`FlashStore.RepeatedWriteIsSkipped`).
- The packet ring holds seven packets: the eighth makes it look empty and the following bit destroys
  the oldest unread packet, even under evaluation (`PacketRing.CapacityExactly`,
  `PacketRing.EighthPacketLosesTheOldest`).
- Whatever was received before, the ones that precede the first start bit frame at most one packet
  (`PacketRing.OnesFrameOnce`).
- The average of the levels at which the motor started divides by zero in the C firmware until the
  first start is on record (`Software/core1.c:159`); with CV60 at its documented maximum of 255 the
  proportional gain at the top setpoint is no number (`Software/core1.c:336`); with CV48 and CV49 both
  zero the derivative is none, and with cutoffs that leave exactly no sample nothing is. Whether every
  written level is defined and stays within the PWM range depends on exactly these
  (`PidBounds.LevelsBoundedExactly`).
- The two firmwares differ on accepted packets that end at the instruction byte: the C firmware takes
  the checksum for the speed or the function bits (`Firmwares.SpeedsAgreeExactly`,
  `Firmwares.FunctionsAgreeExactly`). The Rust decoder takes a packet to a long address for one to
  the short address of the same number, and the other way round (`Firmwares.AddressesAgreeExactly`).
- A start does not repair erased flash, which reads as the long address 16383
  (`PowerCycles.ErasedFlashStays`).
- Cutoffs that leave no sample make the C measurement zero or no number
  (`TrimmedMean.CutoffsFitExactly`).
- Without a filter time constant (CV48 = 0) the derivative term of the C controller grows without
  bound (`PidBounds.DerivativeBoundedExactly`).
- The outlier filter finds nothing for a tolerance of zero deviations when no sample equals the
  truncated mean (`OutlierFilter.NothingLeftExactly`).
- The speed table falls somewhere exactly when the three voltage CVs are out of order; the decoder
  does not check them (`SpeedTable.TableRisesExactly`).
- A comment says that a change of direction jumps to the new speed without delay
  (`Software/core1.c:106`); the code first moves one entry when the counter happens to equal the rate.
  The model follows the code.

## Model

| member | source | states |
|---|---|---|
| ShiftRegister.RegisterIsHistory | Software/core0.c:613-623 | Bit n of the register is the bit that arrived n bits before the newest one, for any earlier contents and any number of bits: the register refines the last 64 bits seen |
| ShiftRegister.RegisterHolds | Software/core0.c:622-623 | The same for all 64 positions at once |
| ShiftRegister.Masks | Software/core0.h:16-41 | Each mask test holds exactly when the register shows a final one, a zero before each of the 3, 4 or 5 bytes and ten ones before them, data bits free |
| ShiftRegister.MasksExclusive | Software/core0.c:553-558 | No register content at all satisfies two of the three mask tests |
| ShiftRegister.HalfWavesAreRead | Software/core0.c:618-621 | The half-waves a decoder has to take by NMRA S-9.1, 52 to 64 us and 90 us or more, are read as one and zero; the limit is 87 us |
| Framing.LockedFrame | Software/core0.c:548-560 | Once a preamble and a start bit have passed, the shape of an n-byte packet is visible exactly at the end bit of a message of n bytes: not at another bit, not with another length |
| Framing.LockedThroughOnes | Software/core0.c:548-560 | Idle ones and the next preamble create no false packet |
| Framing.EncodeLocks | Software/core0.c:548-560 | After a preamble of ten or more ones the first start bit synchronises the receiver, whatever preceded |
| Framing.StreamLocks | Software/core0.c:548-560 | From the first start bit of a stream of well-formed messages on, the receiver is locked to the right message after every bit |
| Framing.FramingIsExact | Software/core0.c:548-568 | For any earlier register contents and any stream of messages, after every bit from the first start bit on the firmware reports a packet exactly when a message of three to five bytes has just ended, with its bytes in reverse order, and never under two masks |
| PacketRing.Core0.DetectDccPacket | Software/core0.c:548-560 | Returns the length of the frame the register shows, or the invalid marker |
| PacketRing.Core0.BitsToDccPacketData | Software/core0.c:562-568 | Fills the front of the slot with the bytes taken from the register and leaves the rest of the slot |
| PacketRing.Core0.TrackSignalFall | Software/core0.c:613-633 | One interrupt in place is the step AfterBit: a half-wave above 87 us is a zero, the slot at the write index gets the detected length, and a packet is stored and published |
| PacketRing.Core0.Poll | Software/core0.c:803-812 | Takes the slot at the read index exactly when the indices differ, and only moves the read index |
| PacketRing.WriteSlotIsUnread | Software/core0.c:624-632 | The slot written on every bit holds an unread packet exactly when eight packets are outstanding |
| PacketRing.BitKeepsFifo | Software/core0.c:613-633 | While fewer than eight packets are outstanding an interrupt keeps the queue: unread packets untouched, the new one last, the slot under evaluation unchanged |
| PacketRing.ReaderKeepsFifo | Software/core0.c:803-812 | Beginning and ending an evaluation keeps the queue and delivers its head as framed |
| PacketRing.RingIsFifo | Software/core0.c:613-633 | Under every interleaving of interrupts with the begin and end of evaluations that never lets eight packets wait, what was delivered is a prefix of what was framed, in order, and no slot changes while it is evaluated |
| PacketRing.CapacityExactly | Software/core0.c:803-812 | Over every interleaving: the two indices tell the reader throughout whether packets wait exactly when eight never do, so seven is the exact capacity |
| PacketRing.EighthPacketLosesTheOldest | Software/core0.h:53 | What the eighth does: an idle reader sees nothing to read, and the next bit that ends no packet overwrites the length of the oldest unread slot, also while that slot is being evaluated |
| PacketRing.EightMessagesFill | Software/core0.c:803-812 | It can happen: any eight messages of three to five bytes fill the ring while the main loop takes none of them |
| Framing.NoFrameAfterOnes | Software/core0.c:548-560 | After a frame, no number of further ones shows another frame of any length |
| PacketRing.OnesFrameOnce | Software/core0.c:613-633 | A run of ones of any length frames at most one packet, whatever was in the register |
| PacketRing.FramesAreReports | Software/core0.c:613-633 | Apart from noise before the first start bit, the packets framed in a stream are those due in it |
| PacketRing.ReportsArePayloads | Software/core0.c:548-568 | The reports due over a whole stream are its messages of three to five bytes, each once, in order |
| PacketRing.SentIsDelivered | Software/core0.c:803-812 | End to end: after at most one packet that the noise before the first start bit may have framed, the packets delivered are a prefix of the messages sent, and all of them once the reader has caught up |
| PacketRing.ReaderCatchesUp | Software/core0.c:803-812 | After any run that never let eight packets wait, k evaluations deliver the next k packets framed, also when the first of them had begun |
| PacketRing.AllSentIsDelivered | Software/core0.c:803-812 | A reader that evaluates what is left has then delivered every message of three to five bytes sent, each once, in order, after at most one packet out of the noise |
| RampHelper.Helper.constructor | dcc-rp2040-rs/motor/src/speed/accel.rs:22-28 | Starts stopped, facing forward, with that as its target |
| RampHelper.Helper.SetTarget | dcc-rp2040-rs/motor/src/speed/accel.rs:32-34 | Changes the target and nothing else |
| RampHelper.Helper.Reset | dcc-rp2040-rs/motor/src/speed/accel.rs:36-39 | Current and target both return to the default |
| RampHelper.Helper.Step | dcc-rp2040-rs/motor/src/speed/accel.rs:44-102 | One step in place is Next, the returned setpoint is the target as soon as it is reached, and the delay is the one of Wait |
| RampHelper.UnderflowExactly | dcc-rp2040-rs/motor/src/speed/accel.rs:76-84 | The u8 subtraction goes below zero exactly when a standing vehicle is told to stop facing the other way with a deceleration rate; the index is then 255, and in no other case does storing the index change it |
| RampHelper.StopTheOtherWayRunsAway | dcc-rp2040-rs/motor/src/speed/accel.rs:79 | What that does to a run: after reaching standstill the next step shows index 255, and the whole stop takes 256 steps more than the index |
| RampHelper.StepFollowsPlan | dcc-rp2040-rs/motor/src/speed/accel.rs:44-102 | Every step takes exactly one off the closed-form plan of steps up and down, in the phase the step is in |
| RampHelper.RampTakesItsPlan | dcc-rp2040-rs/motor/src/speed/accel.rs:44-102 | From any state, with any rates, to any constant target: the target is reached after exactly the planned number of steps and not before, and the delays add up to the planned ones |
| RampHelper.WaitsInClosedForm | dcc-rp2040-rs/motor/src/speed/accel.rs:93-99 | The delays of a plan are (up * accel_rate + down * decel_rate) * loop_delay |
| RampHelper.RampTime | dcc-rp2040-rs/motor/src/speed/accel.rs:44-102 | With both rates set and a moving target: distance many steps in the same direction, index plus target when turning round, with the total delay in closed form |
| RampHelper.RunTakesSteps | dcc-rp2040-rs/motor/src/speed/accel.rs:32-102 | On every run a new target and k steps take the index and direction where k steps from the current setpoint lead |
| RampHelper.IndexInTableExactly | dcc-rp2040-rs/motor/src/speed/accel.rs:32-102 | Over all runs of new targets, steps and resets the index stays within the speed table exactly when no step performs the stop the other way |
| RampHelper.StepIsSafe | dcc-rp2040-rs/motor/src/speed/accel.rs:44-102 | Emergency stop takes one step; with a deceleration rate the direction changes only at standstill; with both rates the index moves by at most one and never past the target |
| RampTask.Task.MaybeSendToChannel | dcc-rp2040-rs/application/src/motor/handler.rs:212-219 | A setpoint other than the last one is remembered and its level signalled, any other call changes nothing |
| RampTask.Task.Wake | dcc-rp2040-rs/application/src/motor/handler.rs:223-247 | One pass of the task in place is Handled: target, step, signal and timer of a command or an expiry, and a reset that leaves the remembered setpoint |
| RampTask.PreviousIsLastSent | dcc-rp2040-rs/application/src/motor/handler.rs:212-219 | On every run the remembered setpoint is the one signalled last |
| RampTask.CommandTakesSteps | dcc-rp2040-rs/application/src/motor/handler.rs:231-245 | On every run a velocity command and k expiries of the timer take k + 1 steps of the helper towards the new target |
| RampTask.CommandIsCarriedOut | dcc-rp2040-rs/application/src/motor/handler.rs:231-245 | After each of those steps the timer is set to the rate of the phase the step was in, first down, then up, and the motor was told the setpoint of the step; after the last one the timer waits for ever and the motor was told the target |
| RampTask.SignalOfSetpoint | dcc-rp2040-rs/application/src/motor/handler.rs:204-210 | Stop and emergency stop are signalled as entry 0 of the table, step n as entry n, and more than 126 as entry 126 |
| RampTask.ResetSilences | dcc-rp2040-rs/application/src/motor/handler.rs:227-230 | After a reset nothing is signalled and the ramp stands still until the next velocity command |
| RampTask.LostAfterResetExactly | dcc-rp2040-rs/application/src/motor/handler.rs:227-237 | After a reset, which stops the motor, a moving command is never signalled over its whole ramp exactly when it asks for the setpoint signalled last and has no acceleration rate or step 1 to go to |
| RampTask.LostAfterAcknowledgeExactly | dcc-rp2040-rs/application/src/motor/handler.rs:231-237 | After an acknowledgement, at the end of a ramp, a command is not signalled exactly when it repeats the target |
| RampTask.LostCommandExample | dcc-rp2040-rs/application/src/motor/handler.rs:212-237 | Speed 50, a reset and speed 50 again without an acceleration rate: one signal for the two |
| RampTask.RunawayLevels | dcc-rp2040-rs/application/src/motor/handler.rs:204-210 | Stopping the other way: in the 130 steps after standstill the motor is told the last entry of the table, in the new direction, and then every entry down to the second, each held for decel_rate * loop_delay |
| SpeedHelper.Controller.SpeedHelper | Software/core1.c:72-119 | One timer tick in place is Tick: counter, table index and setpoint |
| SpeedHelper.TickFollowsClock | Software/core1.c:85-118 | Every tick takes exactly one off the closed-form number of ticks left |
| SpeedHelper.RampArrives | Software/core1.c:72-119 | With constant targets, from any counter value (even past the rate) and any index: the goal is reached after exactly the closed-form number of ticks, not before, and kept |
| SpeedHelper.RampTimeBound | Software/core1.c:111-114 | That number is at most 256 + (distance - 1) * (rate + 1) |
| SpeedHelper.RampTimeBoundIsMet | Software/core1.c:111-114 | A counter one past the rate needs exactly the bound, going once round its 256 values |
| SpeedHelper.AccelerationTime | Software/core1.c:91-97 | From counter zero without a turn a step above the index is reached after exactly (goal - index) * (CV3 + 1) ticks, or one if CV3 is zero |
| SpeedHelper.DecelerationTime | Software/core1.c:98-104 | A step below it after exactly (index - goal) * (CV4 + 1) ticks, or one if CV4 is zero |
| SpeedHelper.ArrivesInTime | Software/core1.c:85-118 | From any counter within 256 ticks and CV3 + 1, going down CV4 + 1, for every entry after the first |
| SpeedHelper.ArrivesAtOnce | Software/core1.c:85-110 | An emergency stop takes one tick; a change of direction one, or two when the counter is at a rate that is not zero and more than one entry is missing |
| SpeedHelper.TicksMove | Software/core1.c:72-119 | On every run any number of further ticks with one input makes these moves, with the setpoint at the table entry of the index |
| SpeedHelper.SetpointIsTableEntry | Software/core1.c:85-118 | On every run, whatever targets and rates do, the index stays below 127 and the setpoint is the table entry at the index |
| PacketCodec.DecodeOfProtected | dcc-rp2040-rs/dcc/src/transport/codec.rs:13-52 | Data followed by its XOR decodes to itself exactly when it has two to five bytes, a first byte of at most 231, and a third byte after a long address |
| PacketCodec.AcceptedIsProtected | dcc-rp2040-rs/dcc/src/transport/codec.rs:8-53 | A raw packet is accepted exactly when it is such data followed by its XOR: nothing else gets through |
| PacketCodec.DecodeExactly | dcc-rp2040-rs/dcc/src/transport/codec.rs:8-53 | Which raw packets are too long, too short, idle, of an unknown address or of a wrong checksum, each exactly |
| PacketCodec.XorOfUpdate | dcc-rp2040-rs/dcc/src/transport/codec.rs:38-45 | Replacing one byte changes the checksum by the old and the new byte, wherever it is |
| PacketCodec.OneByteErrorIsCaught | dcc-rp2040-rs/dcc/src/transport/codec.rs:38-45 | No change confined to one byte turns an accepted raw packet into another accepted one |
| PacketCodec.LongAddressRoundTrip | dcc-rp2040-rs/dcc/src/transport/packet.rs:38-52 | A 16-bit address reads back from the two bytes that carry it exactly when it is at most 10239 |
| PacketCodec.NeverBroadcast | dcc-rp2040-rs/dcc/src/lib.rs:38-43 | No packet has the address the broadcast test looks for |
| PacketCodec.ParseFg1 | dcc-rp2040-rs/dcc/src/transport/packet.rs:187-208 | The bit-by-bit accumulation equals the shifted field F1 to F4 with F0 at bit 0 |
| PacketCodec.ParseFg2 | dcc-rp2040-rs/dcc/src/transport/packet.rs:210-251 | The same for F5 to F8 or F9 to F12, selected by bit 4 |
| PacketCodec.SpeedsAreDistinct | dcc-rp2040-rs/dcc/src/transport/packet.rs:141-164 | No two speed bytes mean the same speed and direction, and the steps are 1 to 126 |
| Firmwares.AddressesAgreeExactly | Software/core0.c:429-471 | For every accepted packet and all address CVs, the C firmware takes a packet as addressed to it exactly when the Rust one does and the packet has the configured address format, or when CV1 is no short address and equals its first byte |
| Firmwares.FormatsAreConfused | dcc-rp2040-rs/dcc/src/lib.rs:30-35 | Where they differ: a packet to the long address 3 is taken by the Rust decoder whose short address is 3, and not by the C one |
| Firmwares.FunctionsAgreeExactly | Software/core0.c:473-530 | On every accepted packet of either address format the C shifts and clear masks and the Rust groups give the same 32 active functions exactly when the packet is not cut short before the bits of F13 to F31, or those functions already are what the checksum, which C takes for the missing byte, would make them |
| Firmwares.CutShortExample | Software/core0.c:516-519 | The accepted packet 03 DE DD: no change for the Rust decoder, six functions switched on by the C one |
| Firmwares.SpeedsAgreeExactly | Software/core0.c:486-489 | On every accepted packet of either address format both take the same speed step, emergency stop and direction, exactly when it is not a speed instruction cut short, from which C takes the checksum for the speed |
| Firmwares.SpeedsMeanTheSame | Software/core1.c:58-67 | Every speed byte gives the same index, emergency stop and direction in both firmwares |
| Firmwares.ParseExactly | dcc-rp2040-rs/dcc/src/transport/packet.rs:126-185 | Every packet is parsed as the speed the C firmware reads, as a group with the effect of the C firmware's update, or refused as too short or unknown, each exactly when its instruction byte and length say so |
| FunctionOutputs.Handler.Handle | dcc-rp2040-rs/application/src/functions/handler.rs:96-103 | The flags become the masked union and every output is as if recomputed, though nothing is updated when the flags stay the same |
| FunctionOutputs.Handler.SetDirection | dcc-rp2040-rs/application/src/functions/handler.rs:105-110 | The same for a change of direction |
| FunctionOutputs.Handler.UpdateOutputs | dcc-rp2040-rs/application/src/functions/handler.rs:112-149 | Each output is at its on level exactly when some active function's mask for the current direction contains its pin, and otherwise at zero; pins and levels stay |
| FunctionOutputs.MaskIsWanted | dcc-rp2040-rs/application/src/functions/handler.rs:119-125 | The loop's OR of masks contains a pin exactly when an active function asks for it |
| FunctionOutputs.HasUnion | dcc-rp2040-rs/dcc/src/lib.rs:69-71 | After a masked union a function has the group's value if the group covers it, and its old value otherwise |
| FunctionOutputs.GroupsPartition | dcc-rp2040-rs/dcc/src/lib.rs:125-143 | Each of the 32 functions is in exactly one of the six groups |
| FunctionOutputs.LastInstructionCounts | dcc-rp2040-rs/dcc/src/lib.rs:69-81 | After any sequence of packets a function has the value of the last instruction whose group contains it |
| FunctionOutputs.DirectionIsLast | dcc-rp2040-rs/application/src/functions/handler.rs:105-110 | After any sequence of packets the direction is that of the last velocity |
| FunctionOutputs.WantedIsWantedAfter | dcc-rp2040-rs/application/src/functions/handler.rs:112-149 | The pins wanted now are those that the forward map, or the reverse map after a reverse velocity, gives to the functions last switched on |
| FunctionOutputs.Serve | dcc-rp2040-rs/application/src/main.rs:146-185 | Over any sequence of packets, with repeated velocities dropped and outputs updated only on changes, every output ends as the last instructions and the last direction require |
| FlashStore.Flash.New | dcc-rp2040-rs/application/src/store/mod.rs:19-30 | An error when the flash cannot be read, else a store whose cache is the CV region of the flash |
| FlashStore.Flash.SyncCvs | dcc-rp2040-rs/application/src/store/mod.rs:33-54 | Erase then program the whole cache, stopping at the first failure; the cache itself is not changed |
| FlashStore.Flash.WriteBytes | dcc-rp2040-rs/application/src/store/mod.rs:114-130 | Bounds check, skip when the cache already holds the value and force is off, else cache and flash are updated, in place |
| FlashStore.SyncRestores | dcc-rp2040-rs/application/src/store/mod.rs:33-54 | A sync that succeeds makes the CV region equal to the cache, although programming can only clear bits |
| FlashStore.WriteAgreesExactly | dcc-rp2040-rs/application/src/store/mod.rs:114-130 | After a successful write flash and cache agree exactly when they did before or the write was not skipped |
| FlashStore.WriteEffect | dcc-rp2040-rs/application/src/store/mod.rs:114-130 | Whatever the flash does: out of bounds nothing changes, else the cache is patched, and no flash byte outside the erase range changes |
| FlashStore.ReadAfterWrite | dcc-rp2040-rs/application/src/store/mod.rs:99-131 | Reading gives the byte written at the addresses written and the old byte everywhere else |
| FlashStore.ReadBytesIsEach | dcc-rp2040-rs/application/src/store/mod.rs:104-108 | Reading several bytes gives each of them, or an error when they reach past the end |
| FlashStore.WriteReply | dcc-rp2040-rs/application/src/store/mod.rs:114-130 | A write within bounds is an error exactly when it reaches a flash that fails |
| FlashStore.ForcedWriteRestores | dcc-rp2040-rs/application/src/store/mod.rs:121-129 | A forced write that succeeds makes flash and cache agree, whatever was before |
| FlashStore.FlashRefinesCache | dcc-rp2040-rs/application/src/store/mod.rs:33-54 | On every run of writes without flash errors flash and cache agree and a reload gives the same store; on every run whatever the bytes outside the erase range never change |
| FlashStore.NextSyncRestores | dcc-rp2040-rs/application/src/store/mod.rs:114-130 | After any run with any failures, the next write that is not skipped and succeeds restores agreement |
| FlashStore.RepeatedWriteIsSkipped | dcc-rp2040-rs/application/src/store/mod.rs:121-123 | Repeating a failed write unforced reports success and leaves the flash as the failure left it |
| ServiceMode.Handler.Handle | dcc-rp2040-rs/dcc/src/handler.rs:59-83 | One packet in place is After: routing by reset, time limit and address, timer, pending packet, store and reply |
| ServiceMode.Handler.HandleServiceMode | dcc-rp2040-rs/dcc/src/handler.rs:94-117 | The first of two equal packets is only latched; the second clears the latch and is executed by its instruction type |
| ServiceMode.Handler.Address | dcc-rp2040-rs/dcc/src/cv/store.rs:186-195 | The long or short address, as CV29 selects |
| ServiceMode.Handler.VerifyByte | dcc-rp2040-rs/dcc/src/handler.rs:123-134 | Acknowledges exactly when the CV holds the byte; a packet without data is an error |
| ServiceMode.Handler.WriteByte | dcc-rp2040-rs/dcc/src/handler.rs:136-212 | All branches: ignored, read-only, guarded and plain CVs, with the writes, errors and replies of each |
| ServiceMode.Handler.WritePrimaryAddress | dcc-rp2040-rs/dcc/src/handler.rs:147-160 | Three writes in order, stopping at the first that fails |
| ServiceMode.Handler.ManipulateBit | dcc-rp2040-rs/dcc/src/handler.rs:220-262 | Bit write without guards, bit verify, and the errors for missing data or wrong top bits |
| ServiceMode.Handler.ResetToFactoryDefaults | dcc-rp2040-rs/dcc/src/handler.rs:214-218 | Forces all defaults into cache and flash and asks for a reboot |
| ServiceMode.CvAddressesAreDistinct | dcc-rp2040-rs/dcc/src/transport/packet.rs:313-321 | Packets with different address bits address different CVs, so that the 1024 combinations reach all 1024 |
| ServiceInstructions.WithBitSetsOneBit | dcc-rp2040-rs/dcc/src/handler.rs:243-250 | The byte of a bit write has the given bit at the given position and the old bits at the seven others |
| ServiceInstructions.AcknowledgedByteVerifies | dcc-rp2040-rs/dcc/src/handler.rs:123-212 | If a byte write is acknowledged, a verification of the same byte right after it is too |
| ServiceInstructions.AcknowledgedBitVerifies | dcc-rp2040-rs/dcc/src/handler.rs:220-262 | If a bit write is acknowledged, a verification of the same bit right after it is too |
| ServiceInstructions.InstructionBits | dcc-rp2040-rs/dcc/src/transport/packet.rs:299-311 | By first byte: 116 to 119 verifies a byte, 120 to 123 handles a bit, 124 to 127 writes a byte |
| ServiceInstructions.CvNumber | dcc-rp2040-rs/dcc/src/transport/packet.rs:313-321 | The CV number is one more than the last two bits of the first byte and the second byte make |
| ServiceInstructions.ByteVerificationExactly | dcc-rp2040-rs/dcc/src/handler.rs:123-134 | A byte verification is acknowledged exactly when the CV holds the byte, not answered otherwise, and changes nothing |
| ServiceInstructions.BitVerificationExactly | dcc-rp2040-rs/dcc/src/handler.rs:253-260 | A bit verification is acknowledged exactly when the bit of the CV has the value, not answered otherwise, and changes nothing |
| ServiceInstructions.BitWriteExactly | dcc-rp2040-rs/dcc/src/handler.rs:220-252 | A bit write stores its bit, keeps the others and is acknowledged, unless the flash fails |
| ServiceInstructions.ByteWriteExactly | dcc-rp2040-rs/dcc/src/handler.rs:136-218 | Without flash errors, what every byte write stores and answers: acknowledged and stored exactly for CVs other than 7, 8, 31 and 32 and values the CV may hold, and what becomes of the rest |
| ServiceInstructions.PrimaryAddressDone | dcc-rp2040-rs/dcc/src/handler.rs:147-160 | A new primary address switches extended addressing and the consist off |
| ServiceInstructions.PrimaryAddressStops | dcc-rp2040-rs/dcc/src/handler.rs:147-160 | When its first or second write fails, a new primary address is answered with that error and the writes after it are not made |
| ServiceInstructions.FlashFailureIsReported | dcc-rp2040-rs/dcc/src/handler.rs:172-212 | An accepted byte write that changes its CV is answered with the error of the store when the flash fails |
| ServiceInstructions.ShortPackets | dcc-rp2040-rs/dcc/src/handler.rs:94-117 | Without the data byte nothing changes but by the legacy reset 7F 08, with the answer of each instruction |
| ServiceInstructions.UnknownInstructions | dcc-rp2040-rs/dcc/src/handler.rs:106-116 | Instructions that do not exist are refused and change nothing |
| ServiceInstructions.PrimaryAddressWrites | dcc-rp2040-rs/dcc/src/handler.rs:147-160 | Writing the primary address stores it, whatever the flash does, and changes no CV but 1, 19 and 29 |
| ServiceInstructions.ExecuteChangesOnly | dcc-rp2040-rs/dcc/src/handler.rs:94-262 | For every instruction, CV and flash outcome: a factory reset makes every CV its default, a bit write changes its one bit, and otherwise a CV changes only by a byte write that may change it |
| ServiceHistory.PendingIsLatched | dcc-rp2040-rs/dcc/src/handler.rs:94-98 | After any run the latch depends only on the packets routed to service mode |
| ServiceHistory.StoreChangesOnlyOnRepetition | dcc-rp2040-rs/dcc/src/handler.rs:94-98 | A packet changes the CV store only if it is routed to service mode, equals the packet routed there immediately before, and completes a pair with it |
| ServiceHistory.RunExecutesPairs | dcc-rp2040-rs/dcc/src/handler.rs:94-117 | The number of instructions a run executes is that of the pairs among its routed packets |
| ServiceHistory.HalfOfARunExecutes | dcc-rp2040-rs/dcc/src/handler.rs:94-98 | A maximal run of k equal routed packets executes exactly floor(k / 2) times |
| ServiceHistory.LatchSurvives | dcc-rp2040-rs/dcc/src/handler.rs:59-83 | No reset, command, packet for others or lapse of time changes the latched packet |
| ServiceHistory.LatchedExecutesLater | dcc-rp2040-rs/dcc/src/handler.rs:94-98 | A service packet latched once executes on its next arrival in service mode, however long after, if none other is routed there between |
| ServiceHistory.TwoSessionsExecute | dcc-rp2040-rs/dcc/src/handler.rs:59-117 | Any service packet sent once in each of two sessions any time apart executes |
| ServiceHistory.TimerOrigin | dcc-rp2040-rs/dcc/src/handler.rs:60-75 | While the timer runs it runs since an event that chains back to a reset, and only packets for others came since |
| ServiceHistory.ServiceIsLinked | dcc-rp2040-rs/dcc/src/handler.rs:60-75 | Every packet routed to service mode chains back to a reset through gaps below 20 ms with no command to this decoder on the way |
| ServiceHistory.RoutesExactly | dcc-rp2040-rs/dcc/src/handler.rs:59-83 | Where every packet of a run goes: two zero bytes reset, 112 to 127 less than 20 ms after the event the timer runs since are for service mode, and of the others those with the address in the CVs are commands |
| ServiceHistory.Answers | dcc-rp2040-rs/dcc/src/handler.rs:59-117 | A reset is reported, packets for others and the first of a pair are not answered, the second as it was executed |
| ServiceHistory.CommandAnswers | dcc-rp2040-rs/dcc/src/handler.rs:85-92 | A command is answered with the speed or the function group the C firmware reads, or refused for the reason it has |
| ServiceHistory.WrittenIsVerifiedExactly | dcc-rp2040-rs/dcc/src/handler.rs:94-134 | Over runs: after an accepted byte write and no other execution, a verification of that CV is acknowledged exactly for the byte written |
| ServiceHistory.WriteKeepsAddressExactly | dcc-rp2040-rs/dcc/src/handler.rs:172-198 | Writing a CV keeps CV1 in 1..127, CV17 in 192..231 and CV17, CV18 off 192, 0 exactly when the byte-write guards accept the value |
| ServiceHistory.ExecuteKeepsAddressExactly | dcc-rp2040-rs/dcc/src/handler.rs:94-262 | Executing any instruction, with any flash outcome, keeps those bounds exactly when it is not a bit write of a value the guards refuse |
| ServiceHistory.AddressInvariantExactly | dcc-rp2040-rs/dcc/src/handler.rs:59-262 | On every run the bounds hold throughout exactly when no such bit write executes |
| PowerCycles.RestartKeepsStore | dcc-rp2040-rs/dcc/src/cv/store.rs:344-354 | Within the bounds the decoder's address is not zero and a restart does not touch the store |
| PowerCycles.StartMakesOrderExactly | dcc-rp2040-rs/dcc/src/cv/store.rs:344-359 | A start leaves the addresses in order exactly for flash images that were in order or whose address is zero |
| PowerCycles.ErasedFlashStays | dcc-rp2040-rs/dcc/src/cv/store.rs:344-354 | Erased flash is neither: it reads as the long address 16383 and is left as it is |
| PowerCycles.ExecuteAgrees | dcc-rp2040-rs/dcc/src/handler.rs:94-262 | Without flash errors every service instruction leaves the flash equal to the cache |
| PowerCycles.LifeAgrees | dcc-rp2040-rs/application/src/store/mod.rs:33-54 | The same over every life of packets and restarts, so that a restart loads what was stored |
| PowerCycles.LifeInOrderExactly | dcc-rp2040-rs/dcc/src/cv/store.rs:344-354 | Over every life without flash errors the addresses are always in order exactly when the first start left them so and no harmful bit write executes; no restart then changes a CV |
| PowerCycles.AddressCanBecomeZero | dcc-rp2040-rs/dcc/src/handler.rs:248-252 | A run of five packets that leaves any store with address zero, so that the next start resets every CV |
| MotorBridge.MotorTask.SetOutputLevel | dcc-rp2040-rs/application/src/motor/mod.rs:211-226 | The opposite side is written off first, then the level |
| MotorBridge.MotorTask.PulseForAcknowledge | dcc-rp2040-rs/application/src/motor/mod.rs:189-204 | Both off, one side at half and off again; the next pulse uses the other side |
| MotorBridge.MotorTask.Stop | dcc-rp2040-rs/application/src/motor/mod.rs:205-209 | Both sides off, forward first |
| MotorBridge.MotorTask.SetOutput | dcc-rp2040-rs/application/src/motor/handler.rs:113-137 | A control cycle starts with both sides off, drives one side if a level comes out, and arms the timer exactly for a non-zero speed |
| MotorBridge.MotorTask.Wake | dcc-rp2040-rs/application/src/motor/handler.rs:139-195 | One pass of the task makes exactly the writes and the state change of its event |
| MotorBridge.EventIsSafe | dcc-rp2040-rs/application/src/motor/handler.rs:139-195 | From a steady state every event leaves a steady state and never has both sides energised between two writes |
| MotorBridge.BridgeIsSafe | dcc-rp2040-rs/application/src/motor/handler.rs:107-195 | On every possible order of speed signals, commands and timer expiries at most one side is energised between any two writes |
| MotorBridge.WritesSplit | dcc-rp2040-rs/application/src/motor/handler.rs:139-195 | The writes of a run are those up to an event followed by those since |
| MotorBridge.StaysOff | dcc-rp2040-rs/application/src/motor/handler.rs:161-179 | After a reset or a completed acknowledgement both sides stay off, write by write, until a non-zero speed signal or another acknowledgement |
| MotorBridge.BridgeDrivesAsTold | dcc-rp2040-rs/application/src/motor/handler.rs:113-195 | After every event of every run the bridge drives the level of the last control cycle on the side of the last speed signal, or nothing, and the timer is set exactly after a cycle at a speed that is not zero |
| MotorBridge.PulseIsSeen | dcc-rp2040-rs/application/src/motor/mod.rs:189-204 | Every acknowledgement is one pulse at the given level on one side, the forward one first and then in turns |
| TrimmedMean.InsertLast | Software/core1.c:34-44 | One insertion in place puts the key behind every sample not larger, moves the larger ones up by one and touches nothing behind |
| TrimmedMean.SortWhileSampling | Software/core1.c:34-44 | Sorting step by step while sampling ends in Sort of the samples |
| TrimmedMean.SortSorts | Software/core1.c:34-44 | Sort is sorted and a permutation |
| TrimmedMean.SortIsUnique | dcc-rp2040-rs/application/src/motor/mod.rs:144 | A sorted permutation is unique, so the library sort gives the same array |
| TrimmedMean.Measure | Software/core1.c:34-54 | For all cutoffs: the mean of the samples left after dropping l at the low and r at the high end, no number if exactly none is left, and zero if the cutoffs cross |
| TrimmedMean.MeasuredIsMeanOfMiddle | Software/core1.c:47-54 | However the samples are sorted, the result times the number left is the sum of those between the l lowest and the r highest |
| TrimmedMean.CutoffsFitExactly | Software/core1.c:49-52 | For samples between two bounds above zero the measurement is between them exactly when the cutoffs leave a sample |
| TrimmedMean.GuardedCutoffs | dcc-rp2040-rs/application/src/motor/mod.rs:121-125 | At least one sample is always left, and cutoffs that leave one are used as they are |
| TrimmedMean.GuardedCount | dcc-rp2040-rs/application/src/motor/mod.rs:117 | The sample count is within the buffer and not zero, and a count that already is stays |
| TrimmedMean.MiddleWithinExactly | Software/core1.c:47-51 | What is kept lies in lo..hi exactly when at most l samples lie below and at most r above |
| TrimmedMean.TrimmedIsRobust | Software/core1.c:47-54 | Then the result lies in lo..hi, whatever the values of the outliers |
| TrimmedMean.ArbitrarySamples | Software/core1.c:47-54 | Any set of at most min(l, r) samples may be arbitrary: the result stays in the range of the others |
| OutlierFilter.WithinIsThreshold | dcc-rp2040-rs/math/src/lib.rs:20-33 | Comparing squares decides exactly as comparing with k times the sample standard deviation |
| OutlierFilter.DiscardedWeigh | dcc-rp2040-rs/math/src/lib.rs:32-38 | Every discarded sample carries more than its share of the squared deviations |
| OutlierFilter.ChebyshevBound | dcc-rp2040-rs/math/src/lib.rs:12-38 | About any centre, so also the truncated mean: the number discarded is zero or, times k squared, strictly below n - 1 |
| OutlierFilter.KeptIsFiltered | dcc-rp2040-rs/math/src/lib.rs:32-38 | What is kept is the multiset of the samples within the threshold |
| OutlierFilter.RoundIsNearest | dcc-rp2040-rs/math/src/lib.rs:43 | No integer is nearer to the quotient, halves going up |
| OutlierFilter.FilteredMeanInRange | dcc-rp2040-rs/math/src/lib.rs:7-45 | For one deviation or more and any non-empty data there is a result, between the smallest and the largest sample, and of two or more samples at least two are kept |
| OutlierFilter.FilteredMeanExactly | dcc-rp2040-rs/math/src/lib.rs:12-44 | The result is the mean, rounded to the nearest integer, of exactly the samples whose squared distance from the truncated mean is at most k * k times the variance, and there is none exactly when no sample is |
| OutlierFilter.FewSamples | dcc-rp2040-rs/math/src/lib.rs:8-17 | No samples have no mean, and one is its own |
| OutlierFilter.NothingLeftExactly | dcc-rp2040-rs/math/src/lib.rs:40-41 | There is no result exactly for empty data, or for zero deviations and two or more samples none of which is the truncated mean |
| OutlierFilter.NothingLeftExample | dcc-rp2040-rs/math/src/lib.rs:40-41 | Samples 1 and 3 with zero deviations give none |
| SpeedTable.Build | dcc-rp2040-rs/motor/src/speed/table.rs:21-66 | The table filled in place holds the exactly interpolated value to the nearest integer in each entry, all within 12 bits |
| SpeedTable.CalcStep | dcc-rp2040-rs/motor/src/speed/table.rs:40-47 | Clamping, adding a half and truncating gives the nearest integer of the exact quotient |
| SpeedTable.TieMargin | dcc-rp2040-rs/motor/src/speed/table.rs:41-46 | No interpolated value is nearer than 1/126 to a rounding tie |
| SpeedTable.RoundingIsFloatProof | dcc-rp2040-rs/motor/src/speed/table.rs:41-46 | Every evaluation off by less than 1/126 gives the same entry |
| SpeedTable.FloatTableIsExact | dcc-rp2040-rs/motor/src/speed/table.rs:41-46 | With each of the operations rounded as in 32-bit floating point the entry is still that of the exact table |
| SpeedTable.NeighboursDifferBySlope | Software/core1.c:305-313 | Neighbouring entries of a segment differ by the slope rounded down or up |
| SpeedTable.SegmentEnds | dcc-rp2040-rs/motor/src/speed/table.rs:40-47 | A segment runs from its start level to its end level exactly |
| SpeedTable.TableIsNearest | Software/core1.c:300-313 | Entry 0 is zero, and every other within half of the straight line from CV2 to 16 * CV6, which 63 equal steps reach, or from there to 16 * CV5 |
| SpeedTable.TableRisesExactly | dcc-rp2040-rs/motor/src/speed/table.rs:49-63 | The table never falls exactly when v_start <= 16 * v_mid <= 16 * v_high |
| StartupSweep.Controller.GetInitialLevel | dcc-rp2040-rs/motor/src/speed/startup.rs:42-57 | Two thirds of the average of the non-zero entries, zero if there is none |
| StartupSweep.Controller.Compute | dcc-rp2040-rs/motor/src/speed/startup.rs:66-93 | One call in place is Next; it issues the level or hands over with the feed forward of the level |
| StartupSweep.Controller.Reset | dcc-rp2040-rs/motor/src/speed/startup.rs:62-64 | Forgets the level and keeps the buffer |
| StartupSweep.ClocksExactly | dcc-rp2040-rs/application/src/main.rs:245-247 | Every value of CV9 gives a maximum that fits 16 bits and that the sweep works with exactly for clocks from 8.875 MHz up to, not including, 652.75 MHz |
| StartupSweep.LevelsStayBounded | dcc-rp2040-rs/motor/src/speed/startup.rs:66-93 | A call keeps every issued and stored level within the maximum and the 16-bit addition does not wrap |
| StartupSweep.RunStaysBounded | dcc-rp2040-rs/motor/src/speed/startup.rs:62-93 | The same over every run of calls and resets |
| StartupSweep.SweepLevels | dcc-rp2040-rs/motor/src/speed/startup.rs:71-81 | While the motor does not turn, call k issues the starting level plus k steps |
| StartupSweep.SweepReachesTheTop | dcc-rp2040-rs/motor/src/speed/startup.rs:71-81 | From any bounded state some call among the next max / step + 1 issues a level less than one step below the maximum |
| StartupSweep.NoSweepBelow250 | dcc-rp2040-rs/motor/src/speed/startup.rs:75 | With a maximum below 250 the step is zero and the level never moves |
| StartupSweep.InitialLevelIs | dcc-rp2040-rs/motor/src/speed/startup.rs:42-57 | The initial level is two thirds of the average of the levels above zero on record, in any order, rounded down twice, and zero without any |
| StartupSweep.CallExactly | dcc-rp2040-rs/motor/src/speed/startup.rs:66-93 | A call forgets its level when the motor turns, else raises it by a 250th of the maximum, or at the top starts from half the initial level |
| StartupSweep.BufferHoldsHandovers | dcc-rp2040-rs/motor/src/speed/startup.rs:82-92 | On every run the buffer holds the levels of the last sixteen handovers |
| PidController.Controller.GetInitialLevel | Software/core1.c:147-160 | Two thirds of the average of the levels before the first zero; with none, two thirds of whatever 0 / 0 is |
| PidController.Controller.GetKp | Software/core1.c:138-144 | The gain on the first or second line of the schedule, infinite or no number where its slope divides by zero |
| PidController.Controller.ControllerStartupMode | Software/core1.c:163-186 | One startup call in place: writes the level and raises it, or hands over to PID when the motor turns or the measurement is no number |
| PidController.Controller.ControllerPidMode | Software/core1.c:189-229 | One PID call in place: the clipped trapezoid integral, the filtered derivative and the clipped sum, converted to a level unless it is no number |
| PidController.Controller.ControllerGeneral | Software/core1.c:232-269 | One call in place is Next: standing still clears the terms and the startup level, else the samples are measured and the mode decides |
| PidBounds.GainIsNumberExactly | Software/core1.c:329-336 | The proportional gain for a setpoint is a number exactly when CV60 is not 255 and CV5 not zero, or the setpoint is below 16 * CV5 |
| PidBounds.CoefficientsAreNumbersExactly | Software/core1.c:320-322 | Both filter coefficients are numbers exactly when CV48 and CV49 are not both zero |
| PidBounds.MeasurementIsNumberExactly | Software/core1.c:49-52 | For 12-bit samples the measurement is a number, of 12 bits, exactly when CV63 + CV64 differs from CV61; it is zero when the cutoffs cross |
| PidBounds.IntegralBoundedExactly | Software/core1.c:197-203 | For all CVs: the integral is a number within its two limits on every run exactly when CV63 + CV64 differs from CV61, or no setpoint of the table moves the motor |
| DerivativeFilter.Coefficients | Software/core1.c:321-322 | The filter does not swing exactly for t <= 2 * tau, and forgets exactly for tau > 0 |
| DerivativeFilter.FilterKeepsGood | Software/core1.c:195 | One filter step keeps the derivative a distance from an average of the measurements, or within the fixed point of a filter that swings |
| DerivativeFilter.BoundBelowSimpleOne | Software/core1.c:321-322 | The bound is at most 4095 * k_d / min(t, 2 tau) |
| PidBounds.DerivativeStaysBounded | Software/core1.c:189-269 | On every run with a time constant and cutoffs that do not leave exactly no sample, for every sampling time including zero, the derivative is a number within 4095 * 2 k_d / (2 tau + t), or 4095 * k_d / (2 tau) if the filter swings |
| PidBounds.BoundIsMet | Software/core1.c:189-269 | A filter that does not swing meets the bound exactly, two calls after a start |
| PidBounds.UndampedDerivativeGrows | Software/core1.c:322 | Without a time constant, after a handover at the highest measurement, alternating measurements add a full swing to the derivative on every call |
| PidBounds.DerivativeBoundedExactly | Software/core1.c:189-328 | For all CVs: some bound holds for the derivative, as a number, on every run exactly when the motor never moves, or the cutoffs cross, or they leave a sample and there is a time constant, or else no derivative gain and a sampling time |
| PidBounds.LevelsBoundedExactly | Software/core1.c:138-336 | For all CVs: every level written on every run, by startup or PID, is defined and at most the maximum exactly when the motor never moves, or: the level made from 0 / 0 is at most the maximum, the cutoffs do not leave exactly no sample, and, if they leave one, CV60 is not 255, CV5 is not zero, and CV48 and CV49 are not both zero |
| PidBounds.ZeroQuotientIsHarmless | Software/core1.c:159 | A quotient of 0 is within the maximum and one of all ones is above it, for every PWM frequency |
| PidLevels.PidCallExactly | Software/core1.c:189-269 | The level written is feed forward plus k_p times (setpoint - mean + CV172) plus integral plus derivative, limited to the PWM range and rounded down, with the state the call leaves |
| PidLevels.IntegralIs | Software/core1.c:194-203 | The integral adds k_i * t * (e + e_prev) / 2 from CV50 and CV49, within ten times CV53 below and CV52 above zero |
| PidLevels.IntegralIsSum | Software/core1.c:194-229 | Over any number of calls that keep it within its limits the integral grows by k_i * t times the trapezoids under the errors |
| PidLevels.DerivativeIs | Software/core1.c:195 | The derivative answers (2 tau + t) d = 2 k_d (m_prev - m) + (2 tau - t) d_prev, from CV48, CV49 and CV51 |
| PidLevels.GainIsOnLines | Software/core1.c:138-144 | The gain lies on the two lines through (0, CV54-55), (x1, CV56-57) and (16 * CV5, CV58-59), with x1 at CV60 in 255ths of 16 * CV5 |
| PidLevels.MaximumIs | Software/core1.c:325 | The maximum is 125 MHz divided by the PWM frequency of CV9, rounded down |
| PidLevels.InitialLevelIs | Software/core1.c:147-160 | The level from the record is two thirds of the average of its entries before the first zero, rounded down twice |
| PidLevels.StartupCallExactly | Software/core1.c:163-186 | A startup call hands over exactly when the mean less CV172 is 7.5 or more, with CV47 in 255ths of the level fed forward and the level on record, and otherwise writes and raises the level |
| PidLevels.RecordHoldsHandovers | Software/core1.c:163-186 | On every run, through any stops, the record holds the levels of the last sixteen handovers, from its first entry on, and zeros behind them |
| PidLevels.StopCallExactly | Software/core1.c:237-245 | A setpoint of zero or a change of direction writes zero and forgets everything but the record and the last measurement |

## Left out

- PWM, ADC, PIO, DMA, timers, watchdog, GPIO, channels and task wiring: sides are levels, samples and times are inputs.
- Rounding errors of floating point, except in the speed table: means, the outlier threshold and the PID terms are exact reals or integers.
- SpeedTable.FloatTableIsExact: takes the relative rounding error of binary32 as the meaning of each operation and does not model its bits; the clamp and the conversions of integers are exact there.
- PowerCycles.LifeInOrderExactly: a restart may happen at any time; that a reboot reply forces one is not modelled.
- RampTask.LostAfterResetExactly: says what is signalled; that the motor stays off meanwhile is MotorBridge.StaysOff, and the two tasks are not run as one system.
- PidBounds.LevelsBoundedExactly: a value that is no number counts as undefined when it is converted to a level, as in C.
- SpeedHelper.Controller.SpeedHelper: the two speed step globals that the other core writes are read once per tick.
- PacketRing.RingIsFifo: an interrupt is one step between the steps of the main loop; a memory order weaker than that is not modelled, nor what evaluating a packet does.
- MotorBridge.BridgeIsSafe: PWM writes succeed; sides are levels, not waveforms.
- FunctionOutputs.Serve: a reboot, which ends the loop, does not occur; the motor commands sent beside are not modelled.
- ServiceMode.Handler.ReadByte: CV numbers start at one, as CvAddress guarantees; the store's subtraction for CV zero is not reached.
- ServiceMode.Handler.Handle: packets have at least two bytes, as PacketCodec.Decode guarantees; the broadcast branch is missing because no packet takes it (PacketCodec.NeverBroadcast).
- The CV defaults beyond CV1, CV17, CV18 and CV29, the readers of output maps and PWM settings, and the acknowledgement pulse's timing.
- The C firmware's programming mode, outlier filter and flash access are not modelled beside their Rust counterparts.
- The discrete_pid library behind the Rust speed controller is not part of this model.
- Ordering between the command channel and the latest-value speed signal of the Rust tasks, which the code does not ensure.
- The development profile of the Rust build, in which the overflow of the ramp helper panics instead of wrapping.
- Logging, board files, scripts and build files.
