# A verified model of the control-components firmware

This Dafny project models the parts of the Open Control Systems firmware whose correctness is not obvious from reading
one function, and proves properties of them: the 1-Wire stack of the DS18B20 sensors, the asynchronous calls between
FreeRTOS tasks, the state that survives reboots, and the periodic scheduling and parsing code. It needs Dafny 4.11;
`dafny verify dfyconfig.toml` checks everything.

Code that the program writes as expressions is modelled by functions. Code that changes state is modelled by classes and
methods whose fields and loops are those of the source; their contracts equate the new state with a specification
function, and the theorems are lemmas about those functions and about whole runs of them. What several tasks do at once
is modelled as a state machine whose atomic steps are the statements between scheduling points.

## What is modelled

**ROM search** (`RomSearch`, `ScannerSkeleton`, `RomPasses`, `RomEnumeration`, `ScannerFate`, `ScannerPicks`,
`RomOutcome`, `RomCodeScanner`, `Ds18b20Handler`). The bus is a wired AND over the devices still taking part in a Search
ROM [F0h] transaction. `RomSearch` has one pass of the scanner over it, `RomPasses` tells the pass by code prefixes, and
`ScannerSkeleton` tells repeated passes by discrepancies alone: where the smallest code has them (the spine), and where
the smallest code behind one of them has more (a branch). `RomEnumeration` puts these together. The scanner does not
enumerate every set of devices: its follow branch reads the bit at the previous discrepancy, which is still blank in a
fresh buffer. It finds all devices if and only if they form a left comb, that is, if every device but the smallest first
differs from the smallest at a position of its own; one or two devices always do. `ScannerFate` follows the scanner on
all other skeletons, and `RomOutcome` tells for every set of devices whether scanning ends with all devices, ends
without one, never ends or fails an assertion, with valid codes for each case, and exactly which devices are ever found.
What decides is the deepest discrepancy whose branch forks: if it is at bit 0 and its branch has no more than one
discrepancy an assertion fails; if the smallest code has at least as many discrepancies after the fork, up to the last
one of the branch, as the branch has, and one right there or deeper, scanning ends too early; else it never ends.
`RomCodeScanner` is the class with its byte buffer, and `Ds18b20Handler` the two loops over it.

**1-Wire transport** (`OneWireBus`, `Scratchpad`, `Crc`, `Bits`). The bus master drives a line whose level is recorded
microsecond by microsecond; a slave holds the line for a while after each falling edge. What a slave decodes is defined
on the waveform only: it samples at a fixed time after each falling edge. CRC-8 is compared with the bit-serial shift
register, which tells exactly which polynomials detect all error bursts of up to eight bits.

**Asynchronous calls** (`FutureProtocol`, `Cond`, `AsyncFuncScheduler`, `AsyncFunc`, `AsyncFuncSteps`). `FutureProtocol`
interleaves any number of waiting and notifying tasks, stray notifications from elsewhere in the system and timeouts.
`AsyncFunc` is the product of the scheduler with the futures of all jobs, and `AsyncFuncSteps` bounds its runs.

**State over reboots** (`FsmBlock`, `FsmHistory`, `FsmStore`, `PersistentCounter`, `Ds18b20Sensor`, on `Storage`).
Storage writes each key as a whole; histories contain failed and cut-off writes, reboots and power cuts.

**Scheduling and parsing** (`RateLimiter`, `PeriodicTaskScheduler`, `StringOps`, `SerialNumber`, `UriOps`).

`Folds`, `Numbers`, `Options` and `Status` hold what several of these share.

## Findings

Where the code does not do what its purpose suggests, the model follows the code and a lemma tells exactly when it does.

- Scanning finds all devices exactly for left combs (`RomEnumeration.CompleteIffLeftComb`). On every other set it
  never ends, or fails an assertion, or ends with OK for the listing and a device missing, and a condition on the
  discrepancies tells which (`RomOutcome.ScanningEnds`). `RomOutcome.ForksHappen` has three valid codes for each of
  the first two cases, the fewest there can be, and `RomOutcome.LossHappens` four for the third. The devices found are
  the smallest and the smallest behind each discrepancy without a fork behind a deeper one
  (`RomOutcome.ReportedExactly`). Accordingly the search for another serial number can go on for ever
  (`Ds18b20Handler.FindNeverEnds`), and a listing that ends with OK can lack a device
  (`Ds18b20Handler.ScanRomCodesEnds`).
- A sensor configuration without resolution and with an all-zero ROM code passes the CRC check and counts as stored
  when nothing is stored (`Ds18b20Sensor.WriteAgrees`, `Ds18b20Sensor.DefaultIsNotStored`); a scratchpad of zeros
  confirms it (`Ds18b20Sensor.ZerosConfirm`).
- A state transition whose write stops before its last key restores the new state with the time of the old one
  (`FsmHistory.TornDuration`).
- A restore that cannot read the write count restarts it (`FsmHistory.CountLost`).
- A result code `Last` leaves every waiting task waiting (`FutureProtocol.OneResult`, `AsyncFunc.EveryCallerReturns`).
- A query field without `=` before one that has it makes a view of wrapped-around length, and only such a field does
  (`UriOps.WildExactly`).
- The split loses the only run of a string that reaches to its end, and nothing else (`StringOps.Split`,
  `StringOps.LostExactly`).
- Time comparison with wrap-around is exact but for an empty interval (`RateLimiter.AfterIsModular`).
- Serial numbers are accepted with any characters but `:` in place of hexadecimal digits
  (`SerialNumber.ParseSerialNumber`).

## Model

| member | source | states |
|---|---|---|
| RomSearch.PassFindsADevice | components/ocs_onewire/rom_code_scanner.cpp:52-89 | A pass on a fixed set of devices, from any scanner state and buffer, never reads silence, and a completed pass has found the code of a device on the bus |
| RomSearch.PassKeepsMatching | components/ocs_onewire/rom_code_scanner.cpp:52-89 | At every position that a pass reaches, the participating devices are exactly those that match the bits written so far, and there is one; a position is missed only when an assertion fails before it |
| RomSearch.ReadsBack | components/ocs_onewire/rom_code_scanner.cpp:126-134 | Below its current discrepancy a scan with any buffer takes the side that the buffer has at the previous discrepancy |
| RomPasses.PassIsWalk | components/ocs_onewire/rom_code_scanner.cpp:52-89 | A pass over the wired AND of the remaining devices is the same as a walk over code prefixes that some device has |
| RomPasses.FreshPass | components/ocs_onewire/rom_code_scanner.cpp:52-135 | What a pass with a fresh buffer finds from any state between passes: the smallest code behind the current discrepancy or the smallest code again, the scanner it leaves, and exactly when it fails an assertion |
| ScannerSkeleton.FreshStaysSteady | components/ocs_onewire/rom_code_scanner.cpp:91-135 | What holds of the discrepancies between passes is kept by every pass, whatever the devices |
| ScannerSkeleton.CombRun | components/ocs_onewire/rom_code_scanner.cpp:23-135 | On a comb of discrepancies the scans report the smallest code, then the branches from the deepest up, then no more data for ever |
| ScannerSkeleton.ForkedBranchFails | components/ocs_onewire/rom_code_scanner.cpp:91-135 | With one discrepancy and one more behind it, every scan from the third on repeats the smallest code or, with the fork at bit 0, fails an assertion |
| RomEnumeration.RepliesArePicks | components/ocs_onewire/rom_code_scanner.cpp:23-43 | For every set of valid devices every reply of repeated scans is the one predicted from the positions of discrepancies alone |
| RomEnumeration.ScanTells | components/ocs_onewire/rom_code_scanner.cpp:23-43 | For every scanner state, buffer and set of devices, with valid codes or not: NoData once it has finished, Error on an empty bus, and otherwise a device, with OK if and only if the last byte of its code is the CRC of the others; it has finished exactly if that was so and no conflict is left |
| RomEnumeration.OkIsGenuine | components/ocs_onewire/rom_code_scanner.cpp:36 | Whatever is on the bus, a code that is reported with OK is that of a device and its last byte is the CRC of the others |
| RomEnumeration.NobodyAnswers | components/ocs_onewire/rom_code_scanner.cpp:28 | On an empty bus every scan ends with Error |
| RomEnumeration.RepliesUntilInvalid | components/ocs_onewire/rom_code_scanner.cpp:23-43 | On any devices scanning is predicted from the discrepancies until the first code that fails the check, which ends with Error |
| RomEnumeration.OrderListsDevices | components/ocs_onewire/rom_code_scanner.cpp:23-135 | On a left comb the scanning order has every device once, in LSB-first lexicographic order |
| RomEnumeration.LeftCombEnumeration | components/ocs_onewire/rom_code_scanner.cpp:23-135 | Repeated scans with fresh buffers return OK once for each device of a left comb, in LSB-first lexicographic order, then NoData for ever, and no assertion fails |
| RomEnumeration.CompleteIffLeftComb | components/ocs_onewire/rom_code_scanner.cpp:23-135 | All devices are found if and only if they form a left comb |
| RomEnumeration.TwoDevicesAreFound | components/ocs_onewire/rom_code_scanner.cpp:23-135 | One or two devices are always found |
| RomEnumeration.FoundIsOnTheSpine | components/ocs_onewire/rom_code_scanner.cpp:126-134 | Whatever the devices, a scan only returns the smallest code or the smallest code behind one of its discrepancies |
| RomEnumeration.ForkedSetFails | components/ocs_onewire/rom_code_scanner.cpp:91-135 | Every reply on the sets with one discrepancy and one more behind it: from the third scan on the smallest code again, or a failed assertion, so a device is missed |
| ScannerFate.Fates | components/ocs_onewire/rom_code_scanner.cpp:91-135 | For any discrepancies whatever, scans report codes and then no more data for ever, or codes and then a failed assertion, or codes for ever, as the deepest discrepancy whose branch forks tells |
| ScannerPicks.PickedExactly | components/ocs_onewire/rom_code_scanner.cpp:91-135 | For any discrepancies whatever, some scan takes the branch at a discrepancy of the smallest code if and only if no deeper branch forks |
| RomOutcome.ReportedExactly | components/ocs_onewire/rom_code_scanner.cpp:23-135 | For every set of valid devices a device is ever reported if and only if it is the smallest or the smallest behind a discrepancy that has no fork behind a deeper one |
| RomOutcome.ScanningEnds | components/ocs_onewire/rom_code_scanner.cpp:23-135 | For every set of valid devices scanning comes to NoData, fails an assertion or returns OK for ever if and only if its fate says so, and the fate is complete exactly for left combs and exactly if every device is reported |
| RomOutcome.ForksHappen | components/ocs_onewire/rom_code_scanner.cpp:126-134 | There are three valid codes on which scanning never ends, and three on which it fails an assertion |
| RomOutcome.LossHappens | components/ocs_onewire/rom_code_scanner.cpp:126-134 | There are four valid codes on which scanning ends without one of them |
| RomCodeScanner.RomCodeScanner.Scan | components/ocs_onewire/rom_code_scanner.cpp:23-43 | The class computes the specified scan: status, code left in the buffer, new scanner state, for every state and buffer; the code left is that of a device and the status OK exactly if its last byte is the CRC of the others, and Error on an empty bus |
| RomCodeScanner.RomCodeScanner.ScanBits | components/ocs_onewire/rom_code_scanner.cpp:52-89 | The bit loop over read slots, masks and write slots computes one pass |
| RomCodeScanner.RomCodeScanner.HandleDiscrepancy | components/ocs_onewire/rom_code_scanner.cpp:91-135 | The branch taken at a discrepancy, the new discrepancies and count, and when an assertion fails |
| RomCodeScanner.RomCodeScanner.Reset | components/ocs_onewire/rom_code_scanner.cpp:45-50 | The scanner is as new |
| RomCodeScanner.StoreCodeBit | components/ocs_onewire/rom_code_scanner.cpp:76-83 | Setting or clearing a bit through its mask writes that bit of the code and no other |
| RomCodeScanner.RomCodeValid | components/ocs_onewire/rom_code.cpp:22-30 | The check accepts exactly the codes whose last byte is the CRC of the others |
| Ds18b20Handler.FindRomCode | components/ocs_pipeline/httpserver/ds18b20_handler.cpp:87-108 | The loop ends at the first reply that is not OK or has the wanted serial number, in terms of the replies of a fresh scanner |
| Ds18b20Handler.ScanRomCodes | components/ocs_pipeline/httpserver/ds18b20_handler.cpp:62-85 | The loop lists the codes of all OK replies, turns NoData into OK, and stops when the formatter is full |
| Ds18b20Handler.FindRomCodeSucceeds | components/ocs_pipeline/httpserver/ds18b20_handler.cpp:87-108 | On a left comb the search ends and succeeds exactly when a device has the serial number, with the smallest such code |
| Ds18b20Handler.SerialNumberIs | components/ocs_onewire/rom_code.h:51-53 | The serial number of a code is what stands between its family code and its CRC, and nothing else |
| Ds18b20Handler.FindRomCodeByBytes | components/ocs_pipeline/httpserver/ds18b20_handler.cpp:99-104 | On a left comb the search succeeds exactly when the bytes of some device are a family code, the wanted serial number and a CRC, and the code it ends with is made in this way |
| Ds18b20Handler.NobodyThere | components/ocs_pipeline/httpserver/ds18b20_handler.cpp:62-108 | Without a device both loops end with Error and no code |
| Ds18b20Handler.LoopsAreGenuine | components/ocs_pipeline/httpserver/ds18b20_handler.cpp:62-108 | Whatever is on the bus and however the loops end, they yield only devices whose codes pass the check |
| Ds18b20Handler.InvalidEndsLoops | components/ocs_pipeline/httpserver/ds18b20_handler.cpp:62-108 | A device whose code fails the check ends both loops when its turn comes: the listing with Error after the codes before it, the search with Error unless one of those has the serial number |
| Ds18b20Handler.ScanRomCodesLists | components/ocs_pipeline/httpserver/ds18b20_handler.cpp:62-85 | On a left comb the listing ends with all devices in increasing order, or out of memory exactly when there are more devices than room |
| Ds18b20Handler.FindRomCodeEnds | components/ocs_pipeline/httpserver/ds18b20_handler.cpp:87-108 | On any set of valid devices the search ends with a device that has the serial number if and only if scanning can find one, and otherwise comes to what scanning comes to |
| Ds18b20Handler.FindNeverEnds | components/ocs_pipeline/httpserver/ds18b20_handler.cpp:91-105 | The search never ends if and only if scanning never ends and can find no device with the serial number |
| Ds18b20Handler.ScanRomCodesEnds | components/ocs_pipeline/httpserver/ds18b20_handler.cpp:62-85 | On any set of valid devices the listing ends with OK and exactly the devices that scanning can find, which are all devices exactly on left combs, or at the room limit, which it always reaches on an endless set, or in a failed assertion |
| Crc.Crc8 | components/ocs_algo/crc_ops.cpp:14-40 | The two nested loops compute the register that the lemmas are about, in both bit orders |
| Crc.RegisterByBits | components/ocs_algo/crc_ops.cpp:22-37 | The byte-wise computation equals the bit-serial shift register fed with the stream of message bits |
| Crc.RegisterIsRemainder | components/ocs_algo/crc_ops.cpp:14-40 | The register is the remainder of the message, as a polynomial, divided by the generator, for any message, polynomial, initial value and bit order |
| Crc.BurstDetected | components/ocs_algo/crc_ops.cpp:14-40 | Every burst of at most eight wrong bits in a message of any length changes the register, across byte boundaries too, when the polynomial keeps the bit that is shifted out |
| Crc.TopBitNeeded | components/ocs_algo/crc_ops.cpp:26-36 | That condition on the polynomial is necessary: without it some wrong byte goes unnoticed whatever the byte is |
| Crc.ZeroResidue | components/ocs_algo/crc_ops.cpp:14-40 | A message followed by a byte leaves the register zero exactly when the byte is its CRC |
| Crc.BurstInvalidates | components/ocs_sensor/ds18b20/scratchpad.cpp:21-29 | A valid ROM code or scratchpad hit by a burst of at most eight wrong bits, CRC byte included, is rejected |
| Bits.NthIsBit | components/ocs_algo/bit_ops.cpp:22-24 | Testing a mask against a byte reads that bit |
| Bits.MaskedWrite | components/ocs_algo/bit_ops.cpp:14-20 | Or with a mask and And with its complement write that bit and no other |
| Bits.BitsOfIsBusOrder | components/ocs_onewire/bus.cpp:100-146 | The bits of a buffer on the bus are those of the numbers in it, byte after byte, the least significant first |
| OneWireBus.Bus.Reset | components/ocs_onewire/bus.cpp:46-67 | The reset waveform, and OK exactly when a slave still holds the line when the presence pulse is sampled |
| OneWireBus.Bus.WriteBit | components/ocs_onewire/bus.cpp:148-184 | One slot and its recovery on the line, of the same length for both bits |
| OneWireBus.Bus.ReadBit | components/ocs_onewire/bus.cpp:73-98 | One slot on the line, and 0 exactly when the slave still holds the line at the time of the sample |
| OneWireBus.Bus.WriteByte | components/ocs_onewire/bus.cpp:100-109 | Dividing by two writes the bits of the byte, least significant first |
| OneWireBus.Bus.WriteBytes | components/ocs_onewire/bus.cpp:137-146 | The slots of all bits in order; InvalidArg for no buffer or no bytes, with the line untouched |
| OneWireBus.Bus.ReadByte | components/ocs_onewire/bus.cpp:111-124 | Eight slots; every bit of the byte is what was sampled, whatever it held before |
| OneWireBus.Bus.ReadBytes | components/ocs_onewire/bus.cpp:126-135 | The buffer holds the sampled bits in order and nothing behind it changes; InvalidArg for no buffer or no bytes |
| OneWireBus.DecodesExactly | components/ocs_onewire/bus.cpp:148-184 | A slave that samples s microseconds after each falling edge decodes all written bytes, after any settled line, if and only if s is not before the end of the low pulse of a 1 and before the end of the slot |
| OneWireBus.SlotsOnTheLine | components/ocs_onewire/bus.cpp:148-184 | Consecutive slots fall at a fixed pitch and nowhere else, whatever the data |
| OneWireBus.WriteSlotShape | components/ocs_onewire/bus.cpp:148-184 | Microsecond by microsecond, the line is low for the low pulse of a 1 or for the whole slot of a 0, and high for the rest of the slot and the recovery |
| OneWireBus.ReadSlotShape | components/ocs_onewire/bus.cpp:73-98 | The line is low for the initial interval of a read slot and high for the rest of it and the recovery |
| OneWireBus.WriteTime | components/ocs_onewire/bus.cpp:137-184 | n bytes take 8n times the slot and its recovery, whatever the data |
| OneWireBus.Ds18b20Timing | components/ocs_sensor/ds18b20/store.cpp:99-112 | The intervals of the store meet the assertions of the constructor, and a slave that samples after 15 microseconds decodes what is written |
| OneWireBus.ReadsExactly | components/ocs_onewire/bus.cpp:73-98 | Reading gives what a slave sends, whatever that is, if and only if the slave holds the line until after the sample |
| OneWireBus.RoundTrip | components/ocs_onewire/bus.cpp:111-146 | Bytes that a slave decoded and sends back are read as they were written |
| Scratchpad.MatchRom | components/ocs_onewire/rom_code.cpp:32-41 | A reset, Match ROM [55h] and the eight bytes of the code on the line, or only the reset if nobody answers |
| Scratchpad.Write | components/ocs_sensor/ds18b20/scratchpad.cpp:105-117 | The frame on the line: the address, Write Scratchpad [4Eh] and bytes 2 to 4 |
| Scratchpad.Read | components/ocs_sensor/ds18b20/scratchpad.cpp:119-131 | The frame on the line with Read Scratchpad [BEh], and nine bytes of what the slave answers |
| Scratchpad.Valid | components/ocs_sensor/ds18b20/scratchpad.cpp:21-29 | The check accepts exactly scratchpads whose last byte is the CRC of the others |
| Scratchpad.FrameDecodes | components/ocs_sensor/ds18b20/scratchpad.cpp:105-117 | A slave that samples in the window decodes exactly the bytes of a frame, after the reset pulse and whatever was on the line before |
| Scratchpad.CommandBytes | components/ocs_sensor/ds18b20/scratchpad.h:19-26 | The bit patterns of the commands and of the polynomial stand for the numbers of the data sheet |
| FutureProtocol.StepInv | components/ocs_core/cond.cpp:20-64 | Every step, stray notification and timeout keeps: both mutexes exclude, only a task that saw no result queues up, every waiting task is queued or notified, the queue is empty once a result is out unless it is being emptied, and results come from notify |
| FutureProtocol.NoLostWakeup | components/ocs_core/future.cpp:20-35 | In every run, when there is a result and the mutex is free, every task inside the wait has a notification pending, the queue is empty and no task is about to join it |
| FutureProtocol.NoMoreQueueing | components/ocs_core/future.cpp:27-35 | Once there is a result no task queues up again, in any continuation |
| FutureProtocol.OkOnlyAfterNotify | components/ocs_core/future.cpp:27-41 | wait returns OK only after a result was notified, and code then returns a notified code |
| FutureProtocol.StuckIsDone | components/ocs_core/future.cpp:20-35 | No deadlock: when no task can go on, both mutexes are free, every notify has returned, and tasks still waiting wait for a result that is not there |
| FutureProtocol.RunsAreBounded | components/ocs_core/cond.cpp:20-48 | Once there is a result the tasks run out of steps after a bounded number of them, in any order and whatever stray notifications come |
| FutureProtocol.EveryoneReturns | components/ocs_core/future.cpp:20-41 | Then every notify and every wait has returned |
| FutureProtocol.OneResult | components/ocs_core/future.cpp:20-41 | With one notification every waiting task that did not time out returns exactly the notified code, unless that is `Last`, which leaves all of them waiting |
| FutureProtocol.TimeUpFails | components/ocs_core/cond.cpp:20-28 | A wait whose time was up has ended with an error, result or not, in every run that cannot go on, and its place on the queue stays taken |
| Cond.Cond.AppendTask | components/ocs_core/cond.cpp:50-54 | The calling task joins the end of the queue |
| Cond.Cond.Signal | components/ocs_core/cond.cpp:30-38 | The task that waits longest leaves the queue and gets one notification; nothing happens on an empty queue |
| Cond.Cond.Broadcast | components/ocs_core/cond.cpp:40-48 | The queue is emptied and every place on it gives its task a notification |
| Cond.BroadcastCounts | components/ocs_core/cond.cpp:40-64 | After a broadcast each task has as many notifications more as it had places on the queue |
| Cond.DrainIsBroadcast | components/ocs_core/cond.cpp:40-48 | The steps of the notifying task in the protocol are the loop of the broadcast |
| Cond.Future.Notify | components/ocs_core/future.cpp:20-25 | The code is published and the queue is emptied with a notification for every place |
| AsyncFuncScheduler.AsyncFuncScheduler.Add | components/ocs_scheduler/async_func_scheduler.cpp:60-77 | A job is accepted exactly if the write queue is not full and there is memory for its future, and goes to the end of the queue |
| AsyncFuncScheduler.AsyncFuncScheduler.Run | components/ocs_scheduler/async_func_scheduler.cpp:36-58 | One run executes the write queue as it was, in order, whatever is added meanwhile, and leaves in the write queue what was accepted meanwhile |
| AsyncFuncScheduler.ExactlyOnceInOrder | components/ocs_scheduler/async_func_scheduler.cpp:36-77 | With adds at any time: accepted jobs are the executed ones, the rest of the read queue and the write queue, so each is executed at most once and in order, and at most twice the maximum are outstanding |
| AsyncFuncScheduler.RunEnds | components/ocs_scheduler/async_func_scheduler.cpp:36-58 | A run executes at most the maximum even if every function adds itself again, and ends having executed exactly what was accepted before it began |
| AsyncFuncScheduler.RunIsMachineRun | components/ocs_scheduler/async_func_scheduler.cpp:36-58 | The run of the class, with its arrivals, is a run of the interleaved machine |
| AsyncFunc.StepInv | components/ocs_scheduler/async_func.cpp:25-39 | Every event of the scheduler, its jobs and their futures keeps: each accepted job has its own future in a sound state, notified exactly if the job has been executed |
| AsyncFunc.OwnResult | components/ocs_scheduler/async_func.cpp:25-39 | In every run a future is notified at most once, with the result of its own job, and its caller returns nothing else |
| AsyncFunc.EveryCallerReturns | components/ocs_scheduler/async_func.cpp:25-39 | When nothing more can happen every accepted job has been executed and every caller has returned the result of its own job or timed out, unless the result is `Last` |
| AsyncFuncSteps.StepsAreBounded | components/ocs_scheduler/async_func.cpp:25-39 | In every run the scheduler and all tasks at all futures together take at most 47 steps for each added job and 9 for each stray notification, so they come to rest when no more jobs are added |
| AsyncFuncSteps.ComesToRest | components/ocs_scheduler/async_func.cpp:25-39 | From every reachable state the system comes to rest by its own steps |
| FsmBlock.FsmBlock.constructor | components/ocs_control/fsm_block.cpp:19-43 | A restore takes over the keys up to the first that is missing or fails, and counts time on only if all were read |
| FsmBlock.FsmBlock.WriteAll | components/ocs_control/fsm_block.cpp:118-137 | A write stores the counted block on the keys before the first failure and leaves the others as they were |
| FsmBlock.FsmBlock.HandleReboot | components/ocs_control/fsm_block.cpp:45-53 | Time is brought up to date and the block is stored |
| FsmBlock.FsmBlock.Run | components/ocs_control/fsm_block.cpp:55-63 | The block is stored without touching its time, and a failure is reported |
| FsmBlock.FsmBlock.Transit | components/ocs_control/fsm_block.cpp:93-106 | The next state becomes the current one with no time, the current one the previous one with its time, nothing is requested, and the block is stored |
| FsmBlock.FsmBlock.Update | components/ocs_control/fsm_block.cpp:108-112 | The duration is what was saved plus the whole units since the start in this boot |
| FsmHistory.RestoreUndoesWrite | components/ocs_control/fsm_block.cpp:118-156 | A complete write and a complete restore give the block back, but for the request for the next state and the clock |
| FsmHistory.TornRestore | components/ocs_control/fsm_block.cpp:118-156 | After a write that stopped at any key a restore sees new values on a prefix of the keys and old ones on the rest, and the state is the old or the new one |
| FsmHistory.TornDuration | components/ocs_control/fsm_block.cpp:130-134 | The restored duration belongs to the restored state if and only if the write did not stop between the two keys, or they agree anyway |
| FsmHistory.CutRestore | components/ocs_control/fsm_block.cpp:139-156 | A restore that gets to read only some keys has the values on those and nothing on the others, and counts time on only if it has read them all |
| FsmHistory.FirstRestore | components/ocs_control/fsm_block.cpp:139-156 | So has a restore after the first write ever, cut off at any key |
| FsmHistory.TimeAccounting | components/ocs_control/fsm_block.cpp:29-53 | Over any history of complete saves, reboots and power cuts the duration of a state, in units, is the time since it was entered, without what a power cut took, less than one unit short for each boot and never too much |
| FsmHistory.BlockTellsStory | components/ocs_control/fsm_block.cpp:93-122 | In such a history the current state is the one last requested before a transition, the previous state the one that was left for it with the time of that stay, the next state the one requested since, and the write count the number of saves, modulo 2^64 |
| FsmHistory.CountNeverDecreases | components/ocs_control/fsm_block.cpp:118-122 | Over any history of crashes and failed writes the stored write count never decreases, if restores read it and it does not wrap around |
| FsmHistory.CountLost | components/ocs_control/fsm_block.cpp:139-141 | After a power cut the next save increases the stored count if and only if the restore read it |
| FsmStore.FsmStore.Add | components/ocs_control/fsm_store.cpp:39-43 | One handler more for the state |
| FsmStore.FsmStore.Run | components/ocs_control/fsm_store.cpp:23-37 | One run of the store: block, flag, all calls of handlers in order, and when an assertion fails; handlers may choose the next state while they handle it and while they are told that it is left |
| FsmStore.BegunIsInTransit | components/ocs_control/fsm_store.cpp:23-37 | After every run a transition has begun exactly if the block is in transit |
| FsmStore.NextRunServes | components/ocs_control/fsm_store.cpp:23-103 | After any runs: a state other than none and the current one that is requested when a run ends makes the next run leave the current state, once, for what is chosen by then, and otherwise the next run leaves nothing; all calls of that run, its end state and what its handlers then chose are given |
| FsmStore.RunsAreHistory | components/ocs_control/fsm_store.cpp:23-37 | Runs on a clock that does not go back are a clean history of the block: time is brought up to date, a transition is ended, and what handlers choose is requested |
| FsmStore.StoreCountsTime | components/ocs_control/fsm_store.cpp:23-37 | Over any runs the durations of the current and the previous state are their times in units |
| FsmStore.TransitionsAreOrdered | components/ocs_control/fsm_store.cpp:54-103 | In every sequence of runs each transition follows its announcement to every handler of the state that is left, and the entered state is handled by every handler before any other transition |
| FsmStore.ToldOnce | components/ocs_control/fsm_store.cpp:54-86 | Each handler of a state is told exactly as often as the state is left, and nobody else is told |
| PersistentCounter.TimeCounter.Get | components/ocs_diagnostic/time_counter.cpp:23-25 | As many whole units as fit into the time since the last reset and no more, modulo 2^64 |
| PersistentCounter.PersistentCounter.Acc | components/ocs_diagnostic/basic_persistent_counter.cpp:22-31 | The counter starts from the stored value, or from zero if there is none or it cannot be read, and leaves it stored |
| PersistentCounter.PersistentCounter.Mem | components/ocs_diagnostic/mem_persistent_counter.cpp:22-29 | The counter starts in the same way, and nothing is stored any more unless erasing fails |
| PersistentCounter.PersistentCounter.Save | components/ocs_diagnostic/basic_persistent_counter.cpp:49-52 | The accumulated value is stored, or what was stored stays and the status tells |
| PersistentCounter.AccBoots | components/ocs_diagnostic/acc_persistent_counter.cpp:18-20 | Any number of boots of the class leave what the history function says |
| PersistentCounter.MemBoots | components/ocs_diagnostic/mem_persistent_counter.cpp:22-33 | The same for the memory counter |
| PersistentCounter.AccIsSum | components/ocs_diagnostic/acc_persistent_counter.cpp:18-20 | Over any history of boots and power cuts the value is the sum of the raw values at the last save of each earlier boot plus the current raw value, modulo 2^64, however often each boot saved |
| PersistentCounter.MemIsStreak | components/ocs_diagnostic/mem_persistent_counter.cpp:22-33 | The memory counter sums over the last boots in a row that ended with a save, so it carries over exactly then |
| PersistentCounter.LifetimeAccounting | components/ocs_pipeline/basic/system_counter_pipeline.cpp:38-50 | The lifetime over clean boots is their total time in units, less than one unit short for each boot and never too much |
| Ds18b20Sensor.Sensor.ReadConfiguration | components/ocs_sensor/ds18b20/sensor.cpp:102-109 | A configured sensor answers from the object, another from storage |
| Ds18b20Sensor.Sensor.WriteDevice | components/ocs_sensor/ds18b20/sensor.cpp:124-153 | What crosses the bus when the resolution is set, and OK exactly when the device answers with a valid scratchpad that has the bits |
| Ds18b20Sensor.Sensor.WriteConfiguration | components/ocs_sensor/ds18b20/sensor.cpp:111-195 | Status and new state for every outcome of the bus and the storage; the sensor is assigned only on success |
| Ds18b20Sensor.Sensor.EraseConfiguration | components/ocs_sensor/ds18b20/sensor.cpp:197-206 | Status, erased configuration and new state, also when nothing was stored |
| Ds18b20Sensor.Node.Add | components/ocs_sensor/ds18b20/store.cpp:119-151 | A name may be added once; the stored configuration is loaded and confirmed by the device, and the sensor is added even if that fails |
| Ds18b20Sensor.WriteAgrees | components/ocs_sensor/ds18b20/sensor.cpp:155-186 | After a successful write object and storage agree if and only if something was stored or the configuration is not the default one |
| Ds18b20Sensor.WriteTakes | components/ocs_sensor/ds18b20/sensor.cpp:111-195 | A configuration is taken if and only if its ROM code has the right CRC, the device answers with a scratchpad that has the right CRC and the code of the resolution, and the storage can be read and has it already or can be written; it is then stored unless it was, and otherwise nothing changes and the status tells what failed first |
| Ds18b20Sensor.TakenComesBack | components/ocs_sensor/ds18b20/store.cpp:126-146 | A configuration that was taken is given back by every later reboot whose storage can be read and whose device accepts it, whatever reboots came before |
| Ds18b20Sensor.RebootTells | components/ocs_sensor/ds18b20/store.cpp:119-151 | How any sensor comes out of a reboot, with the exact condition |
| Ds18b20Sensor.EraseTells | components/ocs_sensor/ds18b20/sensor.cpp:197-206 | Erasing succeeds exactly if something is stored and can be erased; then nothing is stored and no reboot gives the sensor a configuration |
| Ds18b20Sensor.RegisterHasCode | components/ocs_sensor/ds18b20/sensor.cpp:27-59 | The register for 9, 10, 11 and 12 bits is 00h, 20h, 40h and 60h |
| Ds18b20Sensor.DeviceHears | components/ocs_sensor/ds18b20/sensor.cpp:124-153 | A sampling device reads the reset pulse, Match ROM [55h] with the code and Write Scratchpad [4Eh] with two zeros and the register, then the reset pulse, Match ROM with the code and Read Scratchpad [BEh], each as far as somebody answers |
| Ds18b20Sensor.DefaultIsNotStored | components/ocs_sensor/ds18b20/sensor.cpp:155-206 | The exception: the default configuration is configured without being stored, is lost by a reboot and cannot be erased |
| Ds18b20Sensor.ZerosConfirm | components/ocs_sensor/ds18b20/sensor.cpp:124-153 | The exception happens: a device that answers nine zero bytes confirms the default configuration |
| Ds18b20Sensor.RunAgrees | components/ocs_sensor/ds18b20/sensor.cpp:102-206 | In every history of writes, erasures and reboots with any failures, for configurations with a resolution, a configured sensor has the stored configuration and a valid ROM code |
| Ds18b20Sensor.RebootRestores | components/ocs_sensor/ds18b20/store.cpp:126-146 | A reboot restores the configuration if and only if the storage can be read and the device confirms; it never changes what is stored |
| Ds18b20Sensor.ProtoTells | components/ocs_sensor/ds18b20/sensor.cpp:27-59 | Different resolutions have different bits, except none and nine bits |
| RateLimiter.AfterIsModular | components/ocs_algo/time_ops.h:22-46 | The comparison equals the modular one for every start and time if and only if the interval is not zero or time has not wrapped around |
| RateLimiter.RateLimiter.Allow | components/ocs_core/rate_limiter.cpp:23-34 | The first operation and those after the interval are allowed, and only they restart the interval |
| RateLimiter.RateLimiter.Poll | components/ocs_core/rate_limiter.cpp:23-34 | Polled again and again, the limiter performs the operations that the lemmas are about |
| RateLimiter.AtLeastInterval | components/ocs_core/rate_limiter.cpp:23-34 | On any clock that does not go back, consecutive operations are at least the interval apart and the first poll performs one |
| RateLimiter.WindowHolds | components/ocs_core/rate_limiter.cpp:23-34 | A window of a given length holds at most one operation more than whole intervals |
| RateLimiter.LessThanIntervalAndGap | components/ocs_core/rate_limiter.cpp:23-34 | With polls at most a gap apart consecutive operations are less than the interval and the gap apart |
| PeriodicTaskScheduler.PeriodicTaskScheduler.Add | components/ocs_scheduler/periodic_task_scheduler.cpp:41-65 | Error when full, InvalidArg for a name already there, else one node more and the minimum interval |
| PeriodicTaskScheduler.PeriodicTaskScheduler.RunNodes | components/ocs_scheduler/periodic_task_scheduler.cpp:107-128 | Each node runs exactly if its own interval is over, whatever the other tasks return |
| PeriodicTaskScheduler.PeriodicTaskScheduler.Rounds | components/ocs_scheduler/periodic_task_scheduler.cpp:107-128 | Over any number of rounds each task runs at exactly the times that its own limiter allows at its own readings |
| StringOps.Split | components/ocs_algo/string_ops.cpp:16-57 | The cursor loop finds the maximal runs without delimiter in order if and only if the only run is not lost, and nothing if it is |
| StringOps.LostExactly | components/ocs_algo/string_ops.cpp:16-57 | It is lost if and only if the string is delimiters followed by one run to its end that has two characters or more or is the whole string |
| StringOps.RunsOfJoin | components/ocs_algo/string_ops.cpp:16-57 | The runs of joined tokens are the tokens |
| StringOps.RunsExactly | components/ocs_algo/string_ops.cpp:16-57 | The runs are the only tokens that make the string with delimiters before, after and at least one between them |
| StringOps.RunsFit | components/ocs_algo/string_ops.cpp:16-57 | A string is no shorter than its runs joined, and equal to them if it is no longer |
| SerialNumber.ParseSerialNumber | components/ocs_sensor/ds18b20/parse_configuration.cpp:44-65 | Succeeds exactly on six tokens of two characters joined by colons, and then has written their bytes; a failed parse has written the bytes of the tokens before the first that has not two characters |
| SerialNumber.ParseConfiguration | components/ocs_sensor/ds18b20/parse_configuration.cpp:69-82 | OK exactly for such a serial number and a resolution of 9 to 12 bits, which is then set |
| SerialNumber.PrintThenParse | components/ocs_onewire/serial_number_to_str.cpp:19-25 | Parsing the printed form of any six bytes gives the same bytes |
| SerialNumber.ParseHexValue | components/ocs_sensor/ds18b20/parse_configuration.cpp:38-42 | Two hexadecimal digits are parsed into the number that they stand for, the first being the high one |
| SerialNumber.ParseHexBits | components/ocs_sensor/ds18b20/parse_configuration.cpp:38-42 | Any two characters, hexadecimal digits or not, make a byte of the bits of what the second is taken for and, four places up, of the first |
| SerialNumber.PrintByteValue | components/ocs_onewire/serial_number_to_str.cpp:19-25 | A byte is printed as the two upper-case digits that stand for it |
| SerialNumber.ParseThenPrint | components/ocs_sensor/ds18b20/parse_configuration.cpp:38-65 | Printing what was parsed from hexadecimal digits gives the upper-case form of the text |
| UriOps.ParsePath | components/ocs_algo/uri_ops.cpp:37-52 | The longest beginning without a question mark |
| UriOps.ParseKeyValue | components/ocs_algo/uri_ops.cpp:20-33 | One field, also when the equals sign found belongs to a later field |
| UriOps.ParseQuery | components/ocs_algo/uri_ops.cpp:54-85 | The advancing cursor visits every field after the question mark, those after a wild one too |
| UriOps.QueryMeans | components/ocs_algo/uri_ops.cpp:54-85 | For every request the result is what the fields mean one after the other, the first value of a key winning; a field without an equals sign takes all up to a later one for its key |
| UriOps.WildExactly | components/ocs_algo/uri_ops.cpp:20-33 | A view of wrapped-around length is made if and only if a field without an equals sign is followed by one that has it |
| UriOps.PrintThenParse | components/ocs_algo/uri_ops.cpp:20-85 | Printing a path without question mark and any list of printable fields, then parsing, gives back the path and the first value of each key |

## Left out

- Nested `AsyncFuncScheduler::run` from inside a scheduled function, which swaps the vector that is iterated: the
  model has one runner.
- `Cond::signal` in the interleaved protocol: only `Future`, which broadcasts, uses the condition variable there.
- OneWireBus.Bus.Reset: does not model failures of the pin and the delayer, because the line always follows its
  master; an error there ends the call early and leaves the rest of the waveform out.
- OneWireBus.Bus.WriteBit: leaves out the same failures.
- OneWireBus.Bus.ReadBit: leaves out the same failures.
- OneWireBus.Bus.WriteByte: leaves out the early return after a bit that failed in this way.
- OneWireBus.Bus.WriteBytes: leaves out the early return after a byte that failed in this way.
- OneWireBus.Bus.ReadByte: leaves out the early return after a bit that failed in this way.
- OneWireBus.Bus.ReadBytes: leaves out the early return after a byte that failed in this way.
- Resets and commands of the search transaction on the waveform: `RomCodeScanner.SearchBus` has them as events.
- Ds18b20Handler.FindRomCode: cut after a given number of scans, because on an endless set the loop of the source does
  not end; `Ds18b20Handler.FindRomCodeEnds` tells what comes of it for every large number.
- Ds18b20Handler.ScanRomCodes: cut in the same way, and the JSON formatter is a bound on the number of strings.
- Scans with buffers that hold a previous code: one pass is covered by `RomSearch.PassKeepsMatching`, repeated passes
  are proved for fresh buffers, which both loops use.
- The temperature of a scratchpad and `Sensor::run`: floating-point formatting without a property across functions.
- FsmHistory.TimeAccounting: assumes that the clock starts at zero in every boot, and leaves power cuts after a torn
  write to `FsmHistory.TornRestore`.
- Overflow of 64-bit signed times in the rate limiter, and a clock reading of zero, which stands for "not started".
- PersistentCounter.AccIsSum: supposes that storage works; the methods have its failures, which keep the last value.
- PersistentCounter.MemIsStreak: supposes that storage works, too.
- `StringOps::split` on a view that is not a whole string, whose search for the delimiter goes past the view.
- Characters outside ASCII, for which the result of `isdigit` and `tolower` depends on the platform.
- FreeRTOS, NVS, timers and drivers: a mutex is its owner, a task notification a count, storage a value per key, the
  clock a number that does not decrease.
- Logging, HTTP, mDNS, WiFi, JSON, pipelines and the other sensors: plumbing over libraries.
