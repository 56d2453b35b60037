# Verification of the exterior lighting node

This Dafny project models the exterior lighting node of `body_control_zonal_lighting`, its
controller and its diagnostic clients, and proves properties of the model.

- **OTA download.** `OtaSession` is the session behind UDS services 0x34, 0x36 and 0x37
  (section 14 of ISO 14229-1) on the Linux node, over a file system whose calls may fail;
  `OtaZephyr` is the same session over a stream buffer and a flash slot. `Crc32` is its
  checksum (section 8 of RFC 1952), `OtaClient` the client that drives it, `OtaOverDoip` the
  whole way through a connection, and `DoipFlash` the same into the flash slot.
- **Lamps.** `Faults` and `FunctionManager` are the fault table and the lamp store.
  `NodeHandlers` holds the bare-metal and the Zephyr command handler, `NodeRuns` what they
  keep over every run, `NodeEvents` what their status events tell the controller,
  `NodeQueue` the two threads of the Zephyr node with the queue between them, `NodeRaces`
  the same with diagnostic faults inside a handler, and `Blink` the pins on a wrapping
  millisecond clock.
- **Controller and node.** `Arbitrator`, `Controller` and `Provider` are the two ends of the
  SOME/IP service, `SomeIp` its payloads, `ControllerRuns` the controller's requests over
  every run, and `InFlight` the system of both ends and the two channels between them.
  `Watchdog` is the controller's health monitor.
- **Diagnostics.** `Uds` is the dispatcher, `UdsAnswers` what it answers byte for byte, and
  `UdsClient` the read-out loops of the diagnostic client. `DoipFraming` cuts frames
  (generic DoIP header of ISO 13400-2) out of a stream, `DoipSender` puts them on the wire,
  and `DoipConnection` is the connection as the three nodes serve it. `DoipBareMetal` is the
  bare-metal server, which works on a receive buffer instead of blocking reads; `DoipClient`
  is the Python client's side, and `DoipPairing` relates both ends over a whole session.
  `DoipWire` gives the bytes of it all.

A class of the source is a class here.  Its methods are proved against functions on values,
and the properties are lemmas about every run of those functions.  The outcomes of system
calls, flash calls and sends are parameters of the steps that make them.

## Results that limit the code

Each is stated as a lemma with a concrete input or the exact condition under which the code
does what is promised, and where the promise fails as a whole with both.

- The 0x34 size field has 32 bits and the client cuts the size to them, so an image of more
  than 2^32 bytes passes the 10 MiB limit exactly if its size modulo 2^32 does
  (`OtaClient.SizeLimit`).
- On the Zephyr node a new download overwrites an image that is already marked for the boot
  loader, as soon as it fills the stream buffer (`OtaZephyr.PendingImageOverwritten`) or
  reaches the flush of 0x37 (`OtaZephyr.PendingImageFlushedOver`), and exactly then
  (`OtaZephyr.SlotChangesIff`, `OtaZephyr.SlotUntouchedIff`).
- On the bare-metal node a routing activation request of fewer than 7 bytes, or a send that
  fails, closes the connection in the middle of the receive loop, which then subtracts the
  frame length from a length of zero (`DoipBareMetal.ShortActivationUnderflows`); exactly
  without these the length stays within the buffer (`DoipBareMetal.LengthStaysInBoundsIff`).
- The bare-metal receive buffer holds 1024 bytes including the 8-byte header while the length
  check allows payloads of 1024, so larger payloads than 1016 stall the connection
  (`DoipBareMetal.LargeFrameStalls`, `DoipBareMetal.LoneFrame`).
- A fault injected over UDS into a lit lamp is not published, and the controller arbitrates
  on a stale cache until the next broadcast (`InFlight.UdsInjectionKeepsIff`,
  `NodeEvents.OpTellsIff`).
- A hazard request while the hazard lamp is faulted lights both indicators without hazard
  through the service provider (`InFlight.DecisionKeepsExclusiveIff`), and so does every
  hazard deactivation midway that finds all three on (`InFlight.PrefixKeepsExclusiveIff`).
- A reply that was left over is taken for the answer to the next diagnostic request
  (`DoipPairing.StaleReplyIsTaken`); as long as none is, none ever will be
  (`DoipPairing.RequestsPairWithResponses`).
- On the Zephyr node a diagnostic fault takes no lock; if it lands between the fault guard and
  the write of an activation, the faulted lamp is lit (`NodeRaces.RacedInterlockBroken`,
  `NodeRaces.RacedInterlockIff`).  The indicators stay exclusive when it lands between two
  calls of the lamp store (`NodeRaces.RacedThreadsKeepSafe`).
- An indicator that hazard interrupted resumes a phase whose clock went on, so its first phase
  can be shorter than a period (`Blink.ResumedPhase`).
- The sequence counter wraps to zero, and a node that has seen no hazard command ignores
  indicator commands with counter zero (`NodeRuns.WrappedCounterIsIgnored`).
- The bare-metal node acts on truncated and out-of-range payloads that the Zephyr node drops
  (`NodeRuns.MalformedPayloadSeparates`); from related states this shows exactly if the command
  changes a lamp (`NodeRuns.MalformedPayloadSeparatesIff`).

## Where the code and its documentation disagree

The model follows the code.

- `include/body_control/lighting/application/ota_session_manager.hpp:51-52` calls the CRC of
  0x37 optional; the code requires it.
- The comment at `app/stm32_nucleo_h753zi/main.cpp:163-164` says that the right indicator pin
  is held low during hazard; the code writes the hazard phase to it (line 202).
- `include/body_control/lighting/domain/lighting_constants.hpp` and the comment at
  `src/application/central_zone_controller.cpp:18` exclude the counter value zero; the 16-bit
  increment reaches it.

- The comment at `app/zephyr_nucleo_h753zi/main.cpp:122` says that the diagnostic handler needs
  no lock because only one thread calls it; it changes the lamp store that other threads use.

## Model

| member | source | states |
|---|---|---|
| Crc32.Crc32Update | body_control_zonal_lighting/src/application/ota_session_manager.cpp:256-272 | the nested loop computes the fold of the message into the register, byte by byte and bit by bit |
| Crc32.FoldConcat | body_control_zonal_lighting/src/application/ota_session_manager.cpp:147 | folding block after block equals one fold over the concatenation, from any register value |
| Crc32.FoldFeedsItsBits | body_control_zonal_lighting/src/application/ota_session_manager.cpp:256-272 | the byte loop is a 32-bit shift register fed with the message bits, lowest bit of each byte first |
| Crc32.FoldLinear | body_control_zonal_lighting/src/application/ota_session_manager.cpp:256-272 | the running CRC is linear over xor, for registers and equally long messages together |
| Crc32.GeneratorTerms | body_control_zonal_lighting/src/application/ota_session_manager.cpp:267 | the constant 0xEDB88320 is the bit-reflected polynomial x^32+x^26+...+x+1 of section 8 of RFC 1952 |
| Crc32.FeedIsRemainder | body_control_zonal_lighting/src/application/ota_session_manager.cpp:261-270 | clocking a message through the register is schoolbook division by the generator, for every start value |
| Crc32.ChecksumIsRemainder | body_control_zonal_lighting/src/application/ota_session_manager.cpp:202 | the final checksum is the inverted remainder of the shifted message with its first 32 bits inverted |
| Crc32.BurstDetected | body_control_zonal_lighting/src/application/ota_session_manager.cpp:202-211 | two images that differ only inside some 32 consecutive bits have equal checksums exactly when they are equal |
| OtaSession.OtaSessionManager.HandleRequestDownload | body_control_zonal_lighting/src/application/ota_session_manager.cpp:31-96 | new session, files and response for every request and every outcome of opening the staging file |
| OtaSession.OtaSessionManager.HandleTransferData | body_control_zonal_lighting/src/application/ota_session_manager.cpp:100-159 | new session, files and response for every request, short write, failed write and failed unlink |
| OtaSession.OtaSessionManager.HandleRequestTransferExit | body_control_zonal_lighting/src/application/ota_session_manager.cpp:163-234 | new session, files and response for every refusal, a failed rename, and the promotion |
| OtaSession.OtaSessionManager.CloseStaging | body_control_zonal_lighting/src/application/ota_session_manager.cpp:274-281 | no descriptor is open afterwards |
| OtaSession.OtaSessionManager.ResetFields | body_control_zonal_lighting/src/application/ota_session_manager.cpp:283-291 | size, count, counter and CRC are back at their start values, and nothing else changed |
| OtaSession.DownloadAcceptedIff | body_control_zonal_lighting/src/application/ota_session_manager.cpp:36-78 | 0x34 is accepted exactly for a request of at least 11 bytes with ALFID 0x44, a size within the limit, no open session and an opened file; a refused one changes nothing |
| OtaSession.BlockAcceptedIff | body_control_zonal_lighting/src/application/ota_session_manager.cpp:103-158 | 0x36 is accepted exactly when the session is active and the block is in size, carries counter (1 + blocks accepted) mod 256 and is written whole; a refusal changes the session only if all of that held but the write fell short, and then the session fails with the staging file closed |
| OtaSession.RepeatedBlockChangesNothing | body_control_zonal_lighting/src/application/ota_session_manager.cpp:124-130 | an accepted block sent again is refused with 0x73 and changes nothing, whatever the file system does |
| OtaSession.ExitPromotesIff | body_control_zonal_lighting/src/application/ota_session_manager.cpp:166-233 | 0x37 promotes exactly when the byte count matches modulo 2^32, the five-byte request carries the checksum of the accepted blocks, and the rename works; the image changes only then, to exactly those bytes |
| OtaSession.ServeKeepsConsistent | body_control_zonal_lighting/src/application/ota_session_manager.cpp:31-234 | one request keeps the session equal to what the observed requests and responses say it should be |
| OtaSession.PromotionSafety | body_control_zonal_lighting/src/application/ota_session_manager.cpp:31-234 | over every request sequence and I/O failure: active exactly when staging is open, staged bytes are the accepted blocks in order, counter, count and CRC follow from them, and the validated image is the one promoted last |
| OtaSession.PromotionSafetyFromPowerUp | body_control_zonal_lighting/src/application/ota_session_manager.cpp:31-234 | the same from the idle state with nothing staged |
| OtaSession.DamagedImageRefused | body_control_zonal_lighting/src/application/ota_session_manager.cpp:202-211 | a transfer damaged inside some 32 consecutive bits is refused at 0x37 and the validated image is untouched |
| OtaSession.DownloadBytes | body_control_zonal_lighting/src/application/ota_session_manager.cpp:31-96 | 0x34 byte for byte: the refusals in the order of their checks, and the acceptance with block length 514 |
| OtaSession.TransferBytes | body_control_zonal_lighting/src/application/ota_session_manager.cpp:100-159 | 0x36 byte for byte; a block that is not written whole ends the session and leaves no staging file if the unlink works |
| OtaSession.ExitBytes | body_control_zonal_lighting/src/application/ota_session_manager.cpp:163-234 | 0x37 byte for byte; a session refused before the rename leaves no staging file if the unlink works, and in every case the counters are back at their start |
| OtaSession.CarriedBytes | body_control_zonal_lighting/src/application/ota_session_manager.cpp:193-200 | which byte of the request weighs most in the checksum |
| Bytes.CounterAfterAsNat | body_control_zonal_lighting/src/application/ota_session_manager.cpp:150-152 | the wrapping block counter after n steps is (first + n) mod 256 |
| Bytes.U32RoundTrip | body_control_zonal_lighting/tools/ota_client/ota_client.py:225-228 | the four size bytes carry the size modulo 2^32 |
| OtaZephyr.FlashOtaSessionManager.HandleRequestDownload | body_control_zonal_lighting/src/application/ota_session_manager_zephyr.cpp:81-162 | new session, flash state and response for every request and every return code of the flash calls |
| OtaZephyr.FlashOtaSessionManager.HandleTransferData | body_control_zonal_lighting/src/application/ota_session_manager_zephyr.cpp:166-224 | new session, stream buffer, flash and response for every request and write result, including the bytes that a failing write has programmed |
| OtaZephyr.FlashBlockAcceptedIff | body_control_zonal_lighting/src/application/ota_session_manager_zephyr.cpp:169-224 | 0x36 is accepted exactly when the session is active, the block is in size and carries the next counter, and the write succeeds; the block is then staged, in the flash or in the buffer |
| OtaZephyr.FlashOtaSessionManager.HandleRequestTransferExit | body_control_zonal_lighting/src/application/ota_session_manager_zephyr.cpp:228-320 | new session, flash and response for every refusal, a flush that fails or programs the held bytes, a failed upgrade request, and success, which alone schedules the reboot |
| OtaZephyr.FlashOtaSessionManager.CloseStaging | body_control_zonal_lighting/src/application/ota_session_manager_zephyr.cpp:360-367 | the flash area is closed afterwards |
| OtaZephyr.FlashOtaSessionManager.ResetFields | body_control_zonal_lighting/src/application/ota_session_manager_zephyr.cpp:369-375 | size, count, counter and CRC are back at their start values, and nothing else changed |
| OtaZephyr.SessionsInLockstep | body_control_zonal_lighting/src/application/ota_session_manager_zephyr.cpp:81-320 | the flash session and the file session answer every run of requests alike, corresponding failures included |
| OtaZephyr.FlashExitPromotes | body_control_zonal_lighting/src/application/ota_session_manager_zephyr.cpp:273-319 | a positive 0x37 sets the upgrade flag over a slot in which exactly the accepted blocks are programmed in order, nothing held back |
| OtaZephyr.FlashHoldsWholeBuffers | body_control_zonal_lighting/src/application/ota_session_manager_zephyr.cpp:48-50 | over every run, an active session has programmed exactly as many whole buffers of 1024 bytes as the staged bytes fill, and holds the rest, less than a buffer |
| OtaZephyr.FailingWritePrograms | body_control_zonal_lighting/src/application/ota_session_manager_zephyr.cpp:196-212 | a write that fails has programmed the first bytes of what was due and no others |
| OtaZephyr.SlotAfter | body_control_zonal_lighting/src/application/ota_session_manager_zephyr.cpp:196-282 | the slot after every request: a full buffer at 0x36, or the held bytes at 0x37, are appended to what was programmed before, and take the place of the old contents if they are the first; no request lowers the upgrade flag |
| OtaZephyr.SlotChangesIff | body_control_zonal_lighting/src/application/ota_session_manager_zephyr.cpp:166-282 | a request changes the slot exactly when it is a block that the session takes and that fills the buffer, or a 0x37 that reaches the flush with bytes held, and something is programmed that is not the contents of the slot already |
| OtaZephyr.ActiveOnlyByDownload | body_control_zonal_lighting/src/application/ota_session_manager_zephyr.cpp:81-162 | a session becomes active exactly by a 0x34 request with the right format, a size within the limit and flash calls that succeed |
| OtaZephyr.PendingImageStays | body_control_zonal_lighting/src/application/ota_session_manager_zephyr.cpp:285-319 | with no session open, a pending image stays in the slot, and pending, over every run without a 0x34 request |
| OtaZephyr.SlotUntouchedIff | body_control_zonal_lighting/src/application/ota_session_manager_zephyr.cpp:81-320 | over any run no step touches the slot exactly when no step fills the buffer, or flushes it, with other contents |
| OtaZephyr.PendingImageOverwritten | body_control_zonal_lighting/src/application/ota_session_manager_zephyr.cpp:81-224 | counterexample beyond that: before the reboot, a new download and two full blocks replace the image while the upgrade stays pending; after the first block the old image is still there |
| OtaZephyr.PendingImageFlushedOver | body_control_zonal_lighting/src/application/ota_session_manager_zephyr.cpp:279-306 | a second one: a download of one block whose upgrade request fails has been flushed over the image, and the upgrade stays pending |
| OtaClient.SplitIsExact | body_control_zonal_lighting/tools/ota_client/ota_client.py:197-198 | the blocks are non-empty, at most the block size, and concatenate to the data |
| OtaClient.DownloadRequestCarries | body_control_zonal_lighting/tools/ota_client/ota_client.py:224-229 | the server reads back the announced size modulo 2^32 |
| OtaClient.ExitRequestCarries | body_control_zonal_lighting/tools/ota_client/ota_client.py:248-252 | the server reads back the client's checksum |
| OtaClient.RequestBytes | body_control_zonal_lighting/tools/ota_client/ota_client.py:201-255 | the requests of a transfer byte for byte, and how many blocks there are |
| OtaClient.SizeLimit | body_control_zonal_lighting/tools/ota_client/ota_client.py:225-228 | the size check agrees with the limit exactly below 2^32 bytes and for those larger sizes whose remainder modulo 2^32 is outside the limit; one byte beyond 2^32 it does not |
| OtaClient.SendBlocks | body_control_zonal_lighting/tools/ota_client/ota_client.py:236-245 | for every list of write results, the blocks are accepted in order, however often the counter wraps, exactly while the writes are whole; the session then holds all of them, and at the first that fails the session fails |
| OtaClient.SendBlock | body_control_zonal_lighting/tools/ota_client/ota_client.py:238-245 | one block is accepted exactly if its write is whole |
| OtaClient.TransferFirmware | body_control_zonal_lighting/tools/ota_client/ota_client.py:201-255 | against the dispatcher and for every list of I/O results, the client reports success exactly when no session was open, the announced size is accepted and the open, the writes and the rename succeed; then the validated image is the firmware, and otherwise the one from before |
| OtaOverDoip.TransferSucceeds | body_control_zonal_lighting/tools/ota_client/ota_client.py:201-255 | the list of requests of a transfer gets only positive answers from the dispatcher and leaves the firmware validated |
| OtaOverDoip.TransferOverConnection | body_control_zonal_lighting/tools/ota_client/ota_client.py:146-157 | the same across the connection code of each of the three nodes with the file session behind it, when sends, however short, and I/O succeed: every `send_uds` returns a positive answer |
| OtaOverDoip.TransferOverStream | body_control_zonal_lighting/tools/ota_client/ota_client.py:134-157 | the same, also with the file session, from accept on, over one stream in any segments with the routing activation before it |
| DoipFlash.ConnectionsInLockstep | body_control_zonal_lighting/app/zephyr_nucleo_h753zi/main.cpp:897-990 | for any frames and any failures, a connection with the flash session behind it sends the same bytes, and stays as long open, as one with the file session |
| DoipFlash.FlashTransferOverStream | body_control_zonal_lighting/app/zephyr_nucleo_h753zi/main.cpp:897-990 | end to end into the flash: over one stream in any segments, a transfer to the Zephyr node gets only positive answers and leaves the firmware in the slot with the upgrade flag set |
| Faults.FaultManager.constructor | body_control_zonal_lighting/src/application/fault_manager.cpp:10-18 | starts with no fault, every slot no-fault |
| Faults.FaultManager.InjectFault | body_control_zonal_lighting/src/application/fault_manager.cpp:20-45 | appends the lamp's code to the ordered, duplicate-free list unless it is on it; the capacity test never drops a code |
| Faults.FaultManager.ClearFault | body_control_zonal_lighting/src/application/fault_manager.cpp:47-83 | removes exactly that lamp's code, keeping the order of the rest |
| Faults.FaultManager.ShiftLeft | body_control_zonal_lighting/src/application/fault_manager.cpp:72-77 | the shift loop closes the gap in place and clears the last used slot |
| Faults.FaultManager.ClearAllFaults | body_control_zonal_lighting/src/application/fault_manager.cpp:85-90 | the list is empty and every flag is down |
| Faults.FaultManager.IsFaulted | body_control_zonal_lighting/src/application/fault_manager.cpp:92-103 | the flag of a lamp says whether the lamp is on the list |
| Faults.FaultManager.GetFaultStatus | body_control_zonal_lighting/src/application/fault_manager.cpp:110-117 | the first slots are the listed codes in order, the remaining ones are no-fault |
| Faults.Pigeonhole | body_control_zonal_lighting/src/application/fault_manager.cpp:37-42 | five lamps without repetition never need a sixth slot |
| Faults.FaultTableChronicle | body_control_zonal_lighting/src/application/fault_manager.cpp:20-90 | after any run the list holds exactly the lamps whose fault was injected and not cleared since, ordered by the time from which it stands |
| FunctionManager.ExteriorLightingFunctionManager.constructor | body_control_zonal_lighting/src/application/exterior_lighting_function_manager.cpp:10-29 | starts with five lamps that are off, each under its own name |
| FunctionManager.ExteriorLightingFunctionManager.ApplyCommand | body_control_zonal_lighting/src/application/exterior_lighting_function_manager.cpp:31-84 | new lamp store and result for every command |
| FunctionManager.ExteriorLightingFunctionManager.HandleFaultInjection | body_control_zonal_lighting/src/application/exterior_lighting_function_manager.cpp:101-122 | records the fault and turns the lamp off |
| FunctionManager.ExteriorLightingFunctionManager.HandleFaultClear | body_control_zonal_lighting/src/application/exterior_lighting_function_manager.cpp:124-136 | removes the fault and leaves the lamps alone |
| FunctionManager.ExteriorLightingFunctionManager.HandleClearAllFaults | body_control_zonal_lighting/src/application/exterior_lighting_function_manager.cpp:138-141 | removes all faults and leaves the lamps alone |
| FunctionManager.ExteriorLightingFunctionManager.GetLampStatus | body_control_zonal_lighting/src/application/exterior_lighting_function_manager.cpp:86-99 | finds the status of each of the five lamps and of no other |
| FunctionManager.ExteriorLightingFunctionManager.IsOn | body_control_zonal_lighting/app/stm32_nucleo_h753zi/main.cpp:502-507 | reads whether a lamp is recorded as on; no other function is |
| FunctionManager.ApplyShows | body_control_zonal_lighting/src/application/exterior_lighting_function_manager.cpp:41-76 | what a command does to what is lit, lamp by lamp, in terms of action, previous state and fault |
| FunctionManager.ApplyOutcome | body_control_zonal_lighting/src/application/exterior_lighting_function_manager.cpp:31-84 | the whole status of every lamp and the result after a command: applied under the guard or refused, with the counter of the command |
| FunctionManager.InjectOutcome | body_control_zonal_lighting/src/application/exterior_lighting_function_manager.cpp:101-122 | after a fault the lamp is dark and listed last unless it was listed; every other status is as before |
| FunctionManager.ClearOutcome | body_control_zonal_lighting/src/application/exterior_lighting_function_manager.cpp:124-136 | after a clear that fault is gone, the others keep their order, and every status is as before |
| FunctionManager.DisturbShows | body_control_zonal_lighting/src/application/exterior_lighting_function_manager.cpp:111-119 | a fault operation turns off at most the lamp it injects a fault into |
| FunctionManager.InterlockOverRuns | body_control_zonal_lighting/src/application/exterior_lighting_function_manager.cpp:31-141 | over every interleaving of commands, injections and clears, each lamp is off or on and a faulted lamp is never on |
| NodeHandlers.ExteriorLightingNodeHandler.HandleHazard | body_control_zonal_lighting/app/stm32_nucleo_h753zi/main.cpp:379-442 | lamp store after each applied command, status events in order, hazard counter and saved indicator of the bare-metal hazard toggle |
| NodeHandlers.ExteriorLightingNodeHandler.HandleIndicator | body_control_zonal_lighting/app/stm32_nucleo_h753zi/main.cpp:444-489 | the same for indicator commands: companion filter, hazard block, toggle resolution, exclusivity, events |
| NodeHandlers.ExteriorLightingNodeHandler.SendLampStatusEvent | body_control_zonal_lighting/app/stm32_nucleo_h753zi/main.cpp:491-500 | one event with the status of a lamp that the node has, none for another |
| NodeHandlers.ExteriorLightingNodeHandler.OnTransportMessageReceived | body_control_zonal_lighting/app/stm32_nucleo_h753zi/main.cpp:322-349 | dispatch of any payload, truncated or out of range; park and head commands are reported if they were applied |
| NodeHandlers.ZephyrLightingNode.HandleHazard | body_control_zonal_lighting/app/zephyr_nucleo_h753zi/main.cpp:362-455 | the same for the Zephyr hazard toggle, which clears both indicators before it restores one |
| NodeHandlers.ZephyrLightingNode.HandleIndicator | body_control_zonal_lighting/app/zephyr_nucleo_h753zi/main.cpp:457-540 | the same for Zephyr indicator commands, which keep the registry |
| NodeHandlers.ZephyrLightingNode.ApplyLampCommand | body_control_zonal_lighting/app/zephyr_nucleo_h753zi/main.cpp:542-591 | dispatch of a parsed command |
| NodeHandlers.ZephyrLightingNode.OnTransportMessageReceived | body_control_zonal_lighting/app/zephyr_nucleo_h753zi/main.cpp:623-680 | payloads of a wrong size or with invalid enumerations are dropped, and so is a command that finds the queue of eight full |
| NodeHandlers.ZephyrLightingNode.CmdThread | body_control_zonal_lighting/app/zephyr_nucleo_h753zi/main.cpp:692-718 | one turn of the command thread takes the oldest command and applies it, or waits |
| NodeHandlers.ZephyrLightingNode.SendLampStatusEvent | body_control_zonal_lighting/app/zephyr_nucleo_h753zi/main.cpp:344-353 | one event with the status of a lamp that the node has, none for another |
| NodeHandlers.ZephyrLightingNode.BroadcastLampStatuses | body_control_zonal_lighting/app/zephyr_nucleo_h753zi/main.cpp:758-765 | the loop of the health thread sends the events of all five lamps |
| NodeQueue.ThreadsRefineHandler | body_control_zonal_lighting/app/zephyr_nucleo_h753zi/main.cpp:623-718 | for every interleaving of the two threads, and of faults between their critical sections, there is a run of the command handler over well-formed commands that ends in the same state; its commands and those still queued are exactly those that found room, in order |
| NodeQueue.QueueIsFifo | body_control_zonal_lighting/app/zephyr_nucleo_h753zi/main.cpp:662-718 | commands taken, followed by those still queued, are those queued at first, followed by those that found room |
| NodeQueue.ThreadsKeepSafe | body_control_zonal_lighting/app/zephyr_nucleo_h753zi/main.cpp:623-718 | the indicators stay exclusive under every such interleaving |
| NodeRaces.RacedThreadsKeepSafe | body_control_zonal_lighting/app/zephyr_nucleo_h753zi/main.cpp:362-591 | and also when any list of faults lands between any two calls inside a handler, as the diagnostic thread takes no lock: after every single application the two indicators are not on together |
| NodeRaces.RacedStepSafe | body_control_zonal_lighting/app/zephyr_nucleo_h753zi/main.cpp:362-591 | one handler with faults inside keeps what the run lemmas ask for |
| NodeRaces.RacedInterlockIff | body_control_zonal_lighting/src/application/exterior_lighting_function_manager.cpp:31-84 | with faults between the guard and the write of one command, the fault interlock holds afterwards exactly unless the guard let an activation or toggle pass and the faults then left that lamp faulted |
| NodeRaces.RacedInterlockBroken | body_control_zonal_lighting/src/application/exterior_lighting_function_manager.cpp:44-62 | counterexample: a fault injected between them is followed by a lit, faulted indicator |
| NodeRaces.NoRaces | body_control_zonal_lighting/app/zephyr_nucleo_h753zi/main.cpp:542-591 | without faults inside handlers, those are the two threads above |
| NodeQueue.BurstFillsQueue | body_control_zonal_lighting/app/zephyr_nucleo_h753zi/main.cpp:662-679 | while the command thread does not run, a burst of datagrams leaves its well-formed commands in the queue, in order and up to the room there was |
| NodeQueue.EightFit | body_control_zonal_lighting/app/zephyr_nucleo_h753zi/main.cpp:95 | eight well-formed datagrams fit into an empty queue and no more |
| NodeQueue.WellFormedIff | body_control_zonal_lighting/app/zephyr_nucleo_h753zi/main.cpp:639-660 | in bytes: exactly five, the first three within their ranges |
| NodeHandlers.ExteriorLightingNodeHandler.CaptureIndicator | body_control_zonal_lighting/app/stm32_nucleo_h753zi/main.cpp:395-397 | remembers the lit indicator, or that there is none |
| NodeHandlers.ZephyrLightingNode.CaptureIndicator | body_control_zonal_lighting/app/zephyr_nucleo_h753zi/main.cpp:447-449 | remembers the lit indicator, or that there is none |
| NodeRuns.PowerUpIsSafe | body_control_zonal_lighting/app/stm32_nucleo_h753zi/main.cpp:525-528 | a node that was just started satisfies what the run lemmas ask for |
| NodeRuns.IndicatorExclusivity | body_control_zonal_lighting/app/stm32_nucleo_h753zi/main.cpp:322-489 | on both nodes, under any payloads and faults, the two indicators are never on together, not even between two calls of ApplyCommand |
| NodeRuns.IndicatorHonouredIff | body_control_zonal_lighting/app/stm32_nucleo_h753zi/main.cpp:450-485 | an activation leaves its indicator lit exactly if it was lit, or hazard is off, the counter is not the last hazard counter and the lamp is not faulted |
| NodeRuns.CommandShows | body_control_zonal_lighting/app/stm32_nucleo_h753zi/main.cpp:322-489 | for each lamp and on both nodes, whether it is lit after any command, told from action, lamps, faults, the hazard counter and the saved indicator: what a toggle, an activation and a deactivation do, to the opposite lamp too, and when they are ignored |
| NodeRuns.RegistryFollows | body_control_zonal_lighting/app/zephyr_nucleo_h753zi/main.cpp:486-520 | the Zephyr registry names the indicator activated last until it is deactivated |
| NodeRuns.StatusCarriesCounter | body_control_zonal_lighting/app/stm32_nucleo_h753zi/main.cpp:379-489 | whatever a command changes, on either node, carries the command's counter and counts as applied |
| NodeRuns.HandlersBisimilar | body_control_zonal_lighting/app/zephyr_nucleo_h753zi/main.cpp:362-591 | for every interleaving of well-formed commands and faults, both nodes show the same five lamps and, while hazard is on, have saved the same indicator |
| NodeRuns.MalformedPayloadSeparates | body_control_zonal_lighting/app/zephyr_nucleo_h753zi/main.cpp:639-660 | counterexample for malformed payloads: one byte toggles hazard on the bare-metal node and is dropped on the other |
| NodeRuns.MalformedPayloadSeparatesIff | body_control_zonal_lighting/app/zephyr_nucleo_h753zi/main.cpp:639-660 | when exactly: from related states the nodes go on showing the same lamps after a malformed payload if and only if the command it parses to changes nothing, which is told from the lamps, the faults and the hazard counter |
| NodeRuns.TurnSignalRetention | body_control_zonal_lighting/app/stm32_nucleo_h753zi/main.cpp:395-431 | whatever comes between hazard-on and the next hazard command, except a hazard fault, the indicators end as before, a faulted one dark; on both nodes |
| NodeRuns.FanoutActsAsOne | body_control_zonal_lighting/src/application/command_arbitrator.cpp:87-101 | an arbitrated hazard fan-out, delivered in order, changes either node exactly as its first command alone |
| NodeRuns.WrappedCounterIsIgnored | body_control_zonal_lighting/src/application/central_zone_controller.cpp:105 | after the controller's counter wrapped to zero, an indicator request goes out exactly unless the controller turns it down, and a node that has seen no hazard command ignores all its commands |
| NodeEvents.OpTellsIff | body_control_zonal_lighting/app/stm32_nucleo_h753zi/main.cpp:322-500 | on both nodes, a controller that has all events knows which lamps are lit after every command, well-formed or not, and after a fault exactly if it darkens no lit lamp |
| NodeEvents.BareRunTells | body_control_zonal_lighting/app/stm32_nucleo_h753zi/main.cpp:322-500 | so over every run of the bare-metal node without such a fault, and the arbitration context is then what the node shows |
| NodeEvents.ZephyrRunTells | body_control_zonal_lighting/app/zephyr_nucleo_h753zi/main.cpp:344-591 | the same over every run of the Zephyr node |
| NodeEvents.InformedSincePowerUp | body_control_zonal_lighting/app/stm32_nucleo_h753zi/main.cpp:322-500 | so since power-up, with an empty cache, on both nodes |
| NodeEvents.BroadcastTells | body_control_zonal_lighting/app/zephyr_nucleo_h753zi/main.cpp:758-765 | the periodic broadcast makes the controller right about every lamp, whatever it missed |
| NodeEvents.CommandIsAnswered | body_control_zonal_lighting/app/stm32_nucleo_h753zi/main.cpp:322-500 | which events one command on the bare-metal node causes, in which order, and that each tells the status after the command |
| NodeEvents.ZephyrIsAnswered | body_control_zonal_lighting/app/zephyr_nucleo_h753zi/main.cpp:362-591 | the Zephyr node sends the same, except when hazard goes off: then three dark signals and last the restored indicator |
| Blink.BlinkManager.ProcessMainLoop | body_control_zonal_lighting/app/stm32_nucleo_h753zi/main.cpp:182-218 | blink states and pin levels after one call |
| Blink.BlinkManager.Tick | body_control_zonal_lighting/app/stm32_nucleo_h753zi/main.cpp:236-251 | toggles when the wrapped elapsed time reaches the period |
| Blink.BlinkManager.DriveIndicator | body_control_zonal_lighting/app/stm32_nucleo_h753zi/main.cpp:253-276 | starts, ticks or resets the state of one indicator and writes its pin |
| Blink.PinExclusivity | body_control_zonal_lighting/app/stm32_nucleo_h753zi/main.cpp:182-218 | both indicator pins are high exactly when the hazard pin is, if the store keeps the indicators exclusive |
| Blink.NodePinExclusivity | body_control_zonal_lighting/app/stm32_nucleo_h753zi/main.cpp:182-218 | so it is on both nodes, after any payloads and faults |
| Blink.PinsFollowLamps | body_control_zonal_lighting/app/stm32_nucleo_h753zi/main.cpp:186-217 | park and head pins are steady, the three hazard pins are in phase, and an indicator pin outside hazard needs a lit indicator |
| Blink.BlinkTiming | body_control_zonal_lighting/app/stm32_nucleo_h753zi/main.cpp:236-251 | across wraps of the 32-bit clock, a phase lasts at least one period and less than one period plus one gap, and a pin that has not changed is in a phase younger than a period |
| Blink.FirstPulseIsFull | body_control_zonal_lighting/app/stm32_nucleo_h753zi/main.cpp:258-270 | the first pulse after a change from off to on seen outside hazard is an on pulse of at least one period |
| Blink.PhaseAfterHazard | body_control_zonal_lighting/app/stm32_nucleo_h753zi/main.cpp:188-217 | an indicator that hazard interrupted goes on with its old phase if less than a period has passed on the wrapped clock since that began, and otherwise starts a whole phase of the other level |
| Blink.ResumedPhase | body_control_zonal_lighting/app/stm32_nucleo_h753zi/main.cpp:188-217 | the first phase after hazard is shorter than a period exactly in the first case, and then by as much as had passed, to within one gap |
| Blink.FullPulseAfterHazard | body_control_zonal_lighting/app/stm32_nucleo_h753zi/main.cpp:188-217 | an indicator that was off before hazard and is lit after it starts with a full on pulse |
| Blink.BlinkRate | body_control_zonal_lighting/app/stm32_nucleo_h753zi/main.cpp:236-251 | called at least every 20 ms, each phase lasts 500 ms and less than 520 |
| InFlight.DecisionMeansIntended | body_control_zonal_lighting/src/application/command_arbitrator.cpp:70-154 | without faults, applying the decision does to each of the five lamps what the request intends: fan-out, block, exclusivity, or the plain command |
| Arbitrator.ResultTells | body_control_zonal_lighting/src/application/command_arbitrator.cpp:70-154 | when a request is rejected, told from its values and the context, and when its commands were modified |
| InFlight.DecisionKeepsExclusiveIff | body_control_zonal_lighting/src/application/command_arbitrator.cpp:87-154 | a whole decision leaves both indicators on without hazard exactly when it turns hazard on, the hazard lamp is faulted and neither indicator is |
| InFlight.MidwayBothOnWithoutHazard | body_control_zonal_lighting/src/application/command_arbitrator.cpp:93-101 | counterexample midway: after the first command of a hazard-off fan-out both indicators are on without hazard |
| InFlight.PrefixKeepsExclusiveIff | body_control_zonal_lighting/src/application/command_arbitrator.cpp:87-154 | when exactly any first part of a decision leaves both indicators on without hazard, told from the lamps, the faults and the request |
| InFlight.ControllerExclusivity | body_control_zonal_lighting/src/application/central_zone_controller.cpp:101-130 | in fault-free runs with each request settled before the next, under any delivery schedule, both indicators on implies hazard on |
| Controller.CentralZoneController.constructor | body_control_zonal_lighting/src/application/central_zone_controller.cpp:12-36 | starts with two equal empty caches, counter one, not initialised |
| Controller.CentralZoneController.SendLampCommand | body_control_zonal_lighting/src/application/central_zone_controller.cpp:83-131 | checks, counter, arbitration on the cache, the commands that go out before the first failing send, and the status |
| Controller.CentralZoneController.SendDecision | body_control_zonal_lighting/src/application/central_zone_controller.cpp:115-128 | the send loop sends a prefix and stops at the first failure |
| Controller.CentralZoneController.OnLampStatusReceived | body_control_zonal_lighting/src/application/central_zone_controller.cpp:240-262 | both caches take the status in the slot of its lamp, and an unknown lamp changes neither |
| Controller.LampStateManager.constructor | body_control_zonal_lighting/src/application/lamp_state_manager.cpp:10-30 | starts with unknown states under the right names |
| Controller.LampStateManager.UpdateLampStatus | body_control_zonal_lighting/src/application/lamp_state_manager.cpp:32-44 | writes the slot of the lamp, in place |
| Controller.LampStateManager.IsFunctionActive | body_control_zonal_lighting/src/application/lamp_state_manager.cpp:61-72 | a lamp is active exactly if its cached state is on |
| Controller.LampStateManager.GetArbitrationContext | body_control_zonal_lighting/src/application/lamp_state_manager.cpp:74-88 | the context is what the cache holds as on; an unknown state counts as off |
| Provider.ExteriorLightingServiceProvider.OnTransportMessageReceived | body_control_zonal_lighting/src/service/exterior_lighting_service_provider.cpp:97-141 | lamp store and published lamp status events for each of the lamp requests |
| Provider.ExteriorLightingServiceProvider.HandleSetLampCommand | body_control_zonal_lighting/src/service/exterior_lighting_service_provider.cpp:149-176 | publishes the new status exactly if the command was applied |
| Provider.ExteriorLightingServiceProvider.HandleGetLampStatus | body_control_zonal_lighting/src/service/exterior_lighting_service_provider.cpp:178-194 | publishes the status of a known lamp |
| Provider.ExteriorLightingServiceProvider.HandleInjectFault | body_control_zonal_lighting/src/service/exterior_lighting_service_provider.cpp:206-230 | injects the fault and publishes the status of the lamp |
| Provider.ExteriorLightingServiceProvider.HandleClearFault | body_control_zonal_lighting/src/service/exterior_lighting_service_provider.cpp:232-250 | clears the fault and publishes no lamp status |
| Provider.ExteriorLightingServiceProvider.BroadcastAllLampStatuses | body_control_zonal_lighting/src/service/exterior_lighting_service_provider.cpp:70-90 | publishes the five statuses in order |
| Provider.InjectFaultServed | body_control_zonal_lighting/src/service/exterior_lighting_service_provider.cpp:206-230 | a valid fault request leaves its lamp faulted and dark and everything else as before, and one event says so; any other does nothing |
| Provider.ClearFaultServed | body_control_zonal_lighting/src/service/exterior_lighting_service_provider.cpp:232-250 | a valid clear request removes exactly that fault and changes no lamp |
| Provider.GetLampStatusServed | body_control_zonal_lighting/src/service/exterior_lighting_service_provider.cpp:187-204 | a status request is answered with the status of the lamp asked for and changes nothing |
| Provider.SetLampCommandServed | body_control_zonal_lighting/src/service/exterior_lighting_service_provider.cpp:149-185 | a lamp command acts on the lamp it names, and is answered with that lamp's new status exactly if it was applied |
| Provider.BroadcastServed | body_control_zonal_lighting/src/service/exterior_lighting_service_provider.cpp:70-90 | the five events tell the five statuses in order |
| Controller.CentralZoneController.Initialize | body_control_zonal_lighting/src/application/central_zone_controller.cpp:38-58 | the controller is initialised exactly if the service consumer is, and says so |
| ControllerRuns.RequestSends | body_control_zonal_lighting/src/application/central_zone_controller.cpp:83-131 | what a request sends while the link is up: when anything, for which lamps in which order, and that every command has the request's source and its one counter |
| ControllerRuns.RequestAnswer | body_control_zonal_lighting/src/application/central_zone_controller.cpp:83-131 | what the caller is told in each case, and which commands a link that fails at some send lets through |
| ControllerRuns.RequestsAreNumbered | body_control_zonal_lighting/src/application/central_zone_controller.cpp:107 | after any run from power-up the counter is one plus the number of requests that passed the checks, modulo 2^16; others leave it |
| ControllerRuns.CommandsCarryTheNumber | body_control_zonal_lighting/src/application/central_zone_controller.cpp:103-128 | and all commands of the next request carry that number |
| ControllerRuns.CachesHoldLastHeard | body_control_zonal_lighting/src/application/central_zone_controller.cpp:240-262 | after any run both caches hold for each lamp what was heard of it last, and an unknown state before that |
| Bytes.CountsUp | body_control_zonal_lighting/src/application/central_zone_controller.cpp:107 | adding one to a 16-bit counter adds one to the number that its two bytes stand for, modulo 2^16 |
| InFlight.StartIsConsistent | body_control_zonal_lighting/src/application/central_zone_controller.cpp:25-58 | at power-up, and after an attempt to initialise, the empty cache agrees with the node |
| InFlight.StepKeepsConsistent | body_control_zonal_lighting/src/service/exterior_lighting_service_provider.cpp:149-250 | no request, delivery in either direction, fault message or broadcast breaks that agreement |
| InFlight.InFlightConsistency | body_control_zonal_lighting/src/application/central_zone_controller.cpp:240-262 | in every reachable state the cache overlaid with the events under way equals the node's status for every lamp ever published, agrees on on and off for the rest, and both controller caches are equal |
| InFlight.BroadcastSends | body_control_zonal_lighting/src/service/exterior_lighting_service_provider.cpp:70-90 | the broadcast step of the system sends the five events of the provider |
| InFlight.QuietContextIsTrue | body_control_zonal_lighting/src/application/lamp_state_manager.cpp:61-88 | with no event under way, the arbitration context is what the node shows |
| InFlight.UdsInjectionKeepsIff | body_control_zonal_lighting/src/application/uds_request_handler.cpp:244-247 | a fault injected over UDS keeps that consistency exactly when the lamp was not lit |
| InFlight.BroadcastRestores | body_control_zonal_lighting/src/service/exterior_lighting_service_provider.cpp:70-90 | a broadcast restores it from any state in which the two controller caches agree |
| SomeIp.LampCommandRoundTrip | body_control_zonal_lighting/src/transport/someip_message_builder.cpp:56-80 | parsing a built command gives the command |
| SomeIp.LampStatusRoundTrip | body_control_zonal_lighting/src/transport/someip_message_builder.cpp:114-141 | parsing a built status event gives the status |
| SomeIp.LampCommandBytes | body_control_zonal_lighting/src/transport/someip_message_parser.cpp:102-117 | which byte stands for which function, action and source, and which byte of the counter comes first |
| SomeIp.TruncatedCommandBytes | body_control_zonal_lighting/src/transport/someip_message_parser.cpp:16-40 | a missing byte reads as zero, and the bytes that are there keep their meaning |
| SomeIp.LampStatusBytes | body_control_zonal_lighting/src/transport/someip_message_builder.cpp:114-141 | the five bytes of a status event |
| Uds.UdsRequestHandler.HandleRequest | body_control_zonal_lighting/src/application/uds_request_handler.cpp:57-96 | dispatch: new lamp store, new session and response for every request |
| Uds.UdsRequestHandler.HandleRoutineControl | body_control_zonal_lighting/src/application/uds_request_handler.cpp:208-261 | routine start injects and routine stop clears the fault of the named lamp; every refusal changes nothing |
| Uds.UdsRequestHandler.HandleClear | body_control_zonal_lighting/src/application/uds_request_handler.cpp:178-204 | clears all faults for group 0xFFFFFF only |
| Uds.UdsRequestHandler.HandleReadDtc | body_control_zonal_lighting/src/application/uds_request_handler.cpp:265-318 | the loops encode one four-byte record for each active, or each supported, code |
| Uds.UdsRequestHandler.EncodeActiveDtcs | body_control_zonal_lighting/src/application/uds_request_handler.cpp:295-302 | the loop encodes one four-byte record for each active code, in order |
| Uds.UdsRequestHandler.EncodeFaultTable | body_control_zonal_lighting/src/application/uds_request_handler.cpp:363-380 | the loop encodes the count and two bytes for each active code |
| Uds.UdsRequestHandler.HandleReadByIdentifier | body_control_zonal_lighting/src/application/uds_request_handler.cpp:130-174 | the four identifiers and the refusals |
| UdsClient.ReadFaultCodes | body_control_zonal_lighting/tools/uds_client/bcl_diagnostic_client.py:237-249 | the loop decodes the codes that the payload holds in full; a response without payload has none |
| UdsClient.ReadDtcInformation | body_control_zonal_lighting/tools/uds_client/bcl_diagnostic_client.py:256-266 | the loop decodes all complete four-byte records; a response without payload has none |
| UdsClient.CodesRoundTrip | body_control_zonal_lighting/tools/uds_client/bcl_diagnostic_client.py:240-248 | the fault-code loop gives back any list of codes that the node encodes |
| UdsClient.RecordsRoundTrip | body_control_zonal_lighting/tools/uds_client/bcl_diagnostic_client.py:260-265 | the DTC loop gives back any list of codes that the node encodes, each with the active status |
| UdsClient.TableFollowsTheWire | body_control_zonal_lighting/src/application/uds_request_handler.cpp:178-261 | after any requests, the fault table is the run of the operations that requests and positive responses show |
| UdsClient.DiagnosticRoundTrip | body_control_zonal_lighting/tools/uds_client/bcl_diagnostic_client.py:231-266 | after any requests, both read-outs decode to the same list: the codes injected and not cleared since, oldest first |
| UdsAnswers.RoutineAnswer | body_control_zonal_lighting/src/application/uds_request_handler.cpp:208-261 | byte for byte: when a routine request is accepted, its response, and the refusals |
| UdsAnswers.RoutineActs | body_control_zonal_lighting/src/application/uds_request_handler.cpp:208-261 | identifiers 0xB001 to 0xB005 stand for the five lamps in order: a start faults and darkens exactly that lamp, a stop clears exactly its fault |
| UdsAnswers.ClearAnswer | body_control_zonal_lighting/src/application/uds_request_handler.cpp:178-204 | byte for byte: only the group FF FF FF clears, and then every fault |
| UdsAnswers.SessionAnswer | body_control_zonal_lighting/src/application/uds_request_handler.cpp:100-126 | byte for byte: the two sessions, bit 7 ignored, and the refusals |
| UdsAnswers.ReadAnswer | body_control_zonal_lighting/src/application/uds_request_handler.cpp:130-174 | byte for byte: lamp states, health with the update taking precedence, ECU identification, and the refusals |
| UdsAnswers.DtcAnswer | body_control_zonal_lighting/src/application/uds_request_handler.cpp:265-318 | the supported codes are all five with the confirmed status; the refusals |
| UdsAnswers.UnknownAnswer | body_control_zonal_lighting/src/application/uds_request_handler.cpp:57-96 | a service that the node does not have, and an empty request, are refused with 0x11 and change nothing |
| UdsAnswers.ReadOutIsStarted | body_control_zonal_lighting/tools/uds_client/bcl_diagnostic_client.py:231-266 | from wire to wire: after any requests both read-outs decode to the identifiers of the routines started and neither stopped nor cleared since, oldest first |
| DoipFraming.BuiltFrameParses | body_control_zonal_lighting/src/transport/doip_server.cpp:266-286 | a built frame, followed by anything, is cut out again with its type and payload |
| DoipFraming.DrainBuildAll | body_control_zonal_lighting/src/transport/doip_server.cpp:123-152 | a stream of built frames is cut into exactly those frames |
| DoipFraming.Socket.RecvFull | body_control_zonal_lighting/src/transport/doip_server.cpp:288-301 | for every segmentation, the loop succeeds exactly if enough bytes come, and returns the first n |
| DoipFraming.ReadFrame | body_control_zonal_lighting/src/transport/doip_server.cpp:123-152 | one turn of the read loop takes exactly the first whole frame off the stream, or fails |
| DoipFraming.ReadFrames | body_control_zonal_lighting/src/transport/doip_server.cpp:119-153 | the blocking header-then-payload reader delivers the frames of the stream, for every segmentation |
| DoipBareMetal.DoipTcpServer.RecvCallback | body_control_zonal_lighting/app/stm32_nucleo_h753zi/main.cpp:605-630 | appends what fits to the buffer and processes it: buffer, length, connection, dispatcher and bytes sent |
| DoipBareMetal.DoipTcpServer.CloseConn | body_control_zonal_lighting/app/stm32_nucleo_h753zi/main.cpp:643-655 | forgets the buffer, the connection and the routing flag |
| DoipBareMetal.DoipTcpServer.ProcessFrames | body_control_zonal_lighting/app/stm32_nucleo_h753zi/main.cpp:657-681 | the loop terminates, hands the whole frames of the buffer to the handlers in order, and leaves the rest at its front; a bad header closes; a handler that closes leaves the length below zero modulo 2^32 |
| DoipBareMetal.DoipTcpServer.MoveDown | body_control_zonal_lighting/app/stm32_nucleo_h753zi/main.cpp:677-679 | the overlapping move keeps the bytes behind the frame |
| DoipBareMetal.DoipTcpServer.HandleFrame | body_control_zonal_lighting/app/stm32_nucleo_h753zi/main.cpp:683-699 | the switch on the payload type, with diagnostic messages only after activation |
| DoipBareMetal.DoipTcpServer.HandleRoutingActivation | body_control_zonal_lighting/app/stm32_nucleo_h753zi/main.cpp:701-721 | a short request closes; otherwise the response goes out and routing is active if it was sent |
| DoipBareMetal.DoipTcpServer.HandleDiagnosticMessage | body_control_zonal_lighting/app/stm32_nucleo_h753zi/main.cpp:723-765 | short or foreign messages are dropped; an unsent ack closes and stops the dispatch; a response of more than 508 bytes is not sent |
| DoipBareMetal.DoipTcpServer.SendFrame | body_control_zonal_lighting/app/stm32_nucleo_h753zi/main.cpp:768-803 | header and payload go out in two calls, and a failure closes |
| DoipBareMetal.LengthStaysInBoundsIff | body_control_zonal_lighting/app/stm32_nucleo_h753zi/main.cpp:605-721 | for every stream, well-formed or not, and every cut into segments that fit, the length stays within the buffer exactly if no frame cut from the stream is a routing activation request of fewer than 7 bytes and none makes the node send something that cannot be sent |
| DoipBareMetal.ShortActivationUnderflows | body_control_zonal_lighting/app/stm32_nucleo_h753zi/main.cpp:673-721 | counterexample beyond that: a routing activation request without payload leaves a length of 2^32 - 8 |
| DoipBareMetal.StaysOpenIff | body_control_zonal_lighting/app/stm32_nucleo_h753zi/main.cpp:683-765 | a frame leaves the connection open exactly if it is not such a request and its sends succeed |
| DoipBareMetal.SegmentationIndependence | body_control_zonal_lighting/app/stm32_nucleo_h753zi/main.cpp:605-681 | under that condition, however a stream of well-formed frames is cut, the handlers get the frames that the blocking reader delivers, and the buffer is empty in the end |
| DoipBareMetal.ReceivedAllIsHandled | body_control_zonal_lighting/app/stm32_nucleo_h753zi/main.cpp:605-681 | under that condition, the same for every stream, well-formed or not: processing after every segment equals handling the frames of the whole once |
| DoipBareMetal.LargeFrameStalls | body_control_zonal_lighting/app/stm32_nucleo_h753zi/main.cpp:669-673 | a payload of 1017 to 1024 bytes passes the length check but is never delivered, nor is anything after it, however it is cut |
| DoipBareMetal.LoneFrame | body_control_zonal_lighting/app/stm32_nucleo_h753zi/main.cpp:657-681 | a frame that arrives by itself is handled up to 1016 payload bytes, stalls with 1017 to 1024, and closes the connection beyond |
| DoipSender.Sender.SendAll | body_control_zonal_lighting/src/transport/doip_server.cpp:303-316 | short sends are resumed, and a failing send leaves a prefix on the wire |
| DoipSender.Sender.SendDoipFrame | body_control_zonal_lighting/app/zephyr_nucleo_h753zi/main.cpp:870-895 | header and payload go out in two calls, and a short send counts as a failure |
| DoipSender.Sender.TcpWrite | body_control_zonal_lighting/app/stm32_nucleo_h753zi/main.cpp:768-803 | one `tcp_write` takes all of the data or none of it |
| DoipSender.PushWhole | body_control_zonal_lighting/src/transport/doip_server.cpp:303-316 | if no call fails, the data is on the wire as a whole, however it was cut |
| DoipSender.FrameGoesOut | body_control_zonal_lighting/app/zephyr_nucleo_h753zi/main.cpp:870-895 | on each node, if its sends succeed, exactly the built frame is appended to the wire |
| DoipConnection.DoipServer.HandleConnection | body_control_zonal_lighting/src/transport/doip_server.cpp:119-182 | Linux node: state of the dispatcher and bytes sent over a whole connection, for any bytes, segmentation and send results |
| DoipConnection.DoipServer.HandleFrame | body_control_zonal_lighting/src/transport/doip_server.cpp:154-180 | Linux node: the switch on the payload type, with diagnostic messages only after activation |
| DoipConnection.DoipServer.HandleRoutingActivation | body_control_zonal_lighting/src/transport/doip_server.cpp:186-208 | a short request closes; otherwise the response goes out and routing is active if it was sent |
| DoipConnection.DoipServer.HandleDiagnosticMessage | body_control_zonal_lighting/src/transport/doip_server.cpp:210-262 | short or foreign messages are dropped; without a sent ack nothing is dispatched |
| DoipConnection.DoipServer.HandleDoipConnection | body_control_zonal_lighting/app/zephyr_nucleo_h753zi/main.cpp:897-990 | Zephyr node, over the file session: the same, where a short activation request is ignored, and a failed send or a response of more than 516 bytes closes |
| DoipConnection.DoipServer.HandleDoipFrame | body_control_zonal_lighting/app/zephyr_nucleo_h753zi/main.cpp:921-987 | Zephyr node: the two cases of the loop body, each behind its length check |
| DoipConnection.DoipServer.HandleDoipMessage | body_control_zonal_lighting/app/zephyr_nucleo_h753zi/main.cpp:941-982 | Zephyr node: one diagnostic message, from the address check to the response |
| DoipPairing.NoDispatchBeforeActivation | body_control_zonal_lighting/src/transport/doip_server.cpp:154-208 | on all three nodes and for all frames, failed activations included, nothing is dispatched and routing is not active unless some frame was an activation request of at least 7 bytes whose response was sent while the handler was untouched; on the two blocking nodes routing is active in the end exactly then |
| DoipPairing.RoutingRisesIff | body_control_zonal_lighting/src/transport/doip_server.cpp:186-208 | one frame makes routing active exactly if it is such a request, and it leaves the handler alone |
| DoipPairing.AckThenResponse | body_control_zonal_lighting/app/stm32_nucleo_h753zi/main.cpp:723-765 | on all three nodes, each accepted request is dispatched once and yields exactly one ack frame and then, if it is not too long for the node, one response frame; DoipWire.MessageBytes gives their bytes |
| DoipClient.SendUds | body_control_zonal_lighting/tools/ota_client/ota_client.py:146-157 | the request goes out, the client skips acks and returns the next response, and what follows that stays unread, however the replies are cut |
| DoipClient.ActivateRouting | body_control_zonal_lighting/tools/ota_client/ota_client.py:134-144 | the request goes out, and activation succeeds exactly if the next frame is a response with the activated code |
| DoipClient.SendAllUds | body_control_zonal_lighting/tools/ota_client/ota_client.py:146-157 | one call after the other, each reading on from where the one before stopped |
| DoipClient.RecvDoipFrame | body_control_zonal_lighting/tools/ota_client/ota_client.py:106-110 | the client's reader takes one frame off the stream, and the rest stays |
| DoipPairing.ClientReadsResponse | body_control_zonal_lighting/tools/ota_client/ota_client.py:149-156 | from an ack and a response, whatever follows, the client returns the response's UDS bytes and leaves exactly what follows unread |
| DoipPairing.ExchangeAnswersIff | body_control_zonal_lighting/tools/ota_client/ota_client.py:146-157 | on an activated connection of each node on which nothing is left over, the client gets the handler's answer exactly when the request is not empty, the node takes it, and the answer is not too long for the node; then again nothing is left over; what happens otherwise |
| DoipPairing.StaleReplyIsTaken | body_control_zonal_lighting/tools/ota_client/ota_client.py:149-156 | with a reply left over, the client takes that for the answer, and its own answer is left over for the next request |
| DoipPairing.RequestsPairWithResponses | body_control_zonal_lighting/tools/ota_client/ota_client.py:146-157 | on each node and over reply bytes that persist, the k-th `send_uds` returns the handler's answer to the k-th request, nothing is left over at any time, and the connection is the one that the messages alone lead to |
| DoipPairing.MessagesWriteReplies | body_control_zonal_lighting/src/transport/doip_server.cpp:210-262 | handling all messages of the client appends exactly the acks and responses, in order, to the wire |
| DoipPairing.RepliesAreRead | body_control_zonal_lighting/tools/ota_client/ota_client.py:149-156 | and from exactly those bytes k successive reads give the k answers and leave nothing |
| DoipPairing.WholeSessionPairs | body_control_zonal_lighting/tools/ota_client/ota_client.py:134-157 | from accept on, on each node, over one stream of activation and messages in any segments: the activation succeeds, and reading on gives the answers in the order of the requests |
| DoipPairing.Talk | body_control_zonal_lighting/tools/ota_client/ota_client.py:134-157 | the loops of the Linux node and of the client composed: the client sends exactly that stream, and each call returns the handler's answer to its request |
| DoipWire.CutIff | body_control_zonal_lighting/src/transport/doip_server.cpp:123-152 | when exactly a node cuts a frame, waits or gives up, told from version byte and announced length |
| DoipWire.ClientCutIff | body_control_zonal_lighting/tools/ota_client/ota_client.py:106-110 | when exactly the client takes a frame, which it does whatever the version bytes |
| DoipWire.MessageBytes | body_control_zonal_lighting/src/transport/doip_server.cpp:210-262 | byte for byte, on all three nodes: the 0x8002 ack and the 0x8001 response that are appended for a request, each with the two addresses of the request swapped; a message that is too short or for another node appends and dispatches nothing |
| DoipWire.ActivationBytes | body_control_zonal_lighting/src/transport/doip_server.cpp:186-208 | byte for byte, on all three nodes: the 0x0006 response, and what a short request does |
| DoipWire.UnsentAckStops | body_control_zonal_lighting/app/stm32_nucleo_h753zi/main.cpp:733-750 | a request whose ack cannot be sent is not dispatched; the embedded nodes close |
| DoipWire.UnsentActivationCloses | body_control_zonal_lighting/src/transport/doip_server.cpp:154-165 | an activation whose response cannot be sent closes and activates nothing |
| DoipWire.UnsentResponseCloses | body_control_zonal_lighting/app/stm32_nucleo_h753zi/main.cpp:744-764 | a request whose response cannot be sent was dispatched; only the Linux node goes on |
| DoipWire.ClientBytes | body_control_zonal_lighting/tools/ota_client/ota_client.py:134-148 | what the client writes, byte for byte |
| DoipWire.ResponseBehindAcks | body_control_zonal_lighting/tools/ota_client/ota_client.py:149-157 | behind any number of acks, the next frame is the response if it is a 0x8001 frame of at least four bytes, and an exception otherwise |
| DoipWire.ActivationIff | body_control_zonal_lighting/tools/ota_client/ota_client.py:137-144 | activation succeeds exactly by a 0x0006 frame whose fifth byte is 0x10 |
| DoipWire.FrameIsPrefix | body_control_zonal_lighting/app/zephyr_nucleo_h753zi/main.cpp:870-895 | whatever the sends do, a prefix of the frame is on the wire, and all of it on success |
| DoipWire.AnsweredIff | body_control_zonal_lighting/tools/ota_client/ota_client.py:146-157 | in numbers: a request is answered exactly if it has 1 to 65532, 1020 or 1012 bytes and the answer fits, up to 516 or 508 bytes on the embedded nodes |
| Watchdog.NodeHealthMonitor.constructor | body_control_zonal_lighting/src/application/node_health_monitor.cpp:8-24 | starts unheard, with nothing available |
| Watchdog.NodeHealthMonitor.UpdateNodeHealthStatus | body_control_zonal_lighting/src/application/node_health_monitor.cpp:26-38 | takes a valid report and restarts the clock; ignores an invalid one |
| Watchdog.NodeHealthMonitor.SetServiceAvailability | body_control_zonal_lighting/src/application/node_health_monitor.cpp:40-52 | sets the flag; a loss after the first report makes the node unavailable |
| Watchdog.NodeHealthMonitor.ProcessMainLoop | body_control_zonal_lighting/src/application/node_health_monitor.cpp:54-74 | advances the clock after the first report and expires at the timeout |
| Watchdog.NodeHealthMonitor.IsNodeAvailable | body_control_zonal_lighting/src/application/node_health_monitor.cpp:85-94 | reads the four conditions |
| Watchdog.WatchdogTrace | body_control_zonal_lighting/src/application/node_health_monitor.cpp:26-94 | available exactly when a report was accepted, less than the timeout passed since the last one, it was not unavailable and had its link up, the latest service flag is true, and no loss was signalled since |
| Watchdog.ReportedFaults | body_control_zonal_lighting/src/application/node_health_monitor.cpp:26-74 | the cached fault flag and count are those of the last accepted report; after 2000 ms without one the state is unavailable and the link down |

## Left out

- Sockets, LwIP, Zephyr and vsomeip calls, GPIO, UART, threads and locks: only their effects are modelled, as byte sequences, steps and outcomes.
- OtaSession.OtaSessionManager.HandleRequestTransferExit: does not model `fsync` and what survives a power cut; the files are what the calls say.
- OtaSession: the destructor, which closes and unlinks an open staging file, is not modelled.
- OtaZephyr.FlashOtaSessionManager.HandleTransferData: the slot is what was programmed last from its start; old bytes behind that, which stay until their 128 KB sector is erased, and the padding of a flush to 32 bytes are not modelled.
- OtaZephyr.FlashOtaSessionManager.HandleRequestTransferExit: records that the reboot was scheduled; the reboot and the boot loader's swap are not modelled.
- NodeHandlers.ExteriorLightingNodeHandler.OnTransportMessageReceived: models the handling of lamp commands; the node health message that the same class publishes is not modelled.
- NodeQueue.ThreadsRefineHandler: a diagnostic fault falls between critical sections of the lamp mutex, although the code takes no lock for it; faults inside a handler are the subject of `NodeRaces`.
- NodeRaces.RacedThreadsKeepSafe: takes one call of the lamp store and one fault operation as atomic each; NodeRaces.RacedInterlockIff looks inside one such call, but not at single memory accesses.
- Provider.ExteriorLightingServiceProvider.OnTransportMessageReceived: models the lamp requests and lamp status events; health and fault-table messages change no lamp and are not modelled.
- Provider.ExteriorLightingServiceProvider.HandleInjectFault: does not model the fault status and health events that follow the lamp status event.
- Provider.ExteriorLightingServiceProvider.HandleClearFault: does not model the fault status and health events.
- Controller: shutdown and health polling are not modelled; neither are the session identifiers of requests.
- DoipBareMetal.DoipTcpServer.ProcessFrames: ends at the subtraction that leaves the length below zero modulo 2^32; what the move of so many bytes does to the memory is not modelled.
- DoipBareMetal.DoipTcpServer.SendFrame: models `tcp_write` as taking all of the data or none, and `tcp_output` as without effect on the bytes.
- DoipConnection.DoipServer.HandleDoipConnection: is the loop over the dispatcher with the file session; DoipFlash.ConnectionsInLockstep relates the flash session to it on values.
- OtaOverDoip.TransferOverConnection: has the file session behind the connection on all three kinds of node; the bare-metal build links a stub that refuses the three OTA services.
- DoipClient.SendUds: receive timeouts and the `struct.error` of a request of 2^32 bytes or more are not modelled.
- Uds.UdsRequestHandler.HandleReadByIdentifier: the ECU identification string is a parameter.
- UdsClient.ReadFaultCodes: returns the codes; the texts that the client prints around them are not modelled.
- Watchdog.WatchdogTrace: time steps are non-negative, and the 64-bit millisecond count does not overflow.
- Payload enumerations beyond their last value are one out-of-range value each, so an out-of-range byte is not kept exactly.
- The SOME/IP service discovery, the operator service, the HMI, the diagnostic console menu and the vehicle signal overlay.
- The STM32 OTA stub and the DC motor project.
