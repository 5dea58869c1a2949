# ATS-M7 firmware services, modelled and proved in Dafny

This project models the hand-written services of the ATS-M7 application and proves what they are
for. Its centre is the Modbus RTU stack over RS485: bytes arrive in UART callbacks, pass through a
bounded ring, are drained in 64-byte chunks, gathered in a frame buffer, cut into frames at a silence,
checked by CRC and handed to the Modbus server; replies go out through a half-duplex line driver. Beside
it stand the NOR-flash layer (append log, partition port, FAL adapter, self-test, SFDP scan) and the CAN
filter reconfiguration.

`dafny verify dfyconfig.toml` checks everything.

## How the model is built

- **Components.** `ModbusService.Service`, `Usart.Rs485`, `QspiLog.QspiService`, `FlashPort.Port`,
  `FalPartition.Fal` and `CanFilters.CanService` are classes with the file-level variables of the C files
  as fields and its functions as methods. Each method is proved against functions of the old state, and
  says beside them, in bytes and numbers, which effect it has.
- **Interleaving.** Callbacks may run between any two kernel calls. `Usart.Rs485.agenda` (and
  `CanService.agenda`) lists, for each kernel call to come, how much time passes and which events the
  driver reports first; nothing is assumed about it, so a proof is one for every interleaving. The
  driver's side of the bargain is that an event the hardware state rules out does not occur: one
  TX_DONE or TX_ABORTED for each accepted `uart_tx`, buffer requests only while reception runs.
- **State machines.** `RxPipeline` (ring, read buffer, frame buffer), `HalfDuplex` (writer against
  callback) and `RxBuffers` (receive double buffering) are transition systems whose runs are arbitrary
  lists of atomic steps. The classes record the steps they take, and their invariants say that their
  fields are the state of such a run; the whole-run theorems are about all runs. `Usart.Rs485.past` is
  what has been consumed of the agenda, and the bytes recorded as announced are those its events carry.
- **Time.** The service stamps every step of the receive path with the clock of the link. `RxTiming` derives
  delivery from bounds on these times, `TimingBounds` shows which bounds are enough.
- **Bytes** are their eight bits, low bit first as a UART sends them, and the CRC register is its sixteen
  bits: seed of ones, taps of the reflected polynomial 0xA001, as in MODBUS over Serial Line V1.02,
  section 6.2.2. The CRC routine itself is a library call in the firmware; `CrcStandard` fixes its start value,
  its polynomial and its byte order, down to the example of the standard.
- **Sizes.** CONFIG_MODBUS_BUFFER_SIZE is a parameter `n` between 64 and 256, the range Zephyr allows.
- **Flash.** Programming ANDs into cells and erasing sets 0xFF; an operation succeeds, or fails with an
  error after any number of bytes.

## Where the code does not do what one would expect

- One to three bytes left in the frame buffer are never flushed by the gap test
  (`ATS-M7/src/modbus_service.c:187`) and spoil the next frame. With a buffer of at least 67 bytes they always
  do (`RxDelivery.LeftoverAlwaysCosts`, `RxDelivery.FrameAfterSilence`); for every size
  `RxDelivery.LeftoverDeliveryIff` gives the exact condition and `RxDelivery.StrayRunLosesFrame` runs from boot in
  which the frame is lost.
- The gap test compares milliseconds of reading, not of arrival. If announcements of one frame may be g ms apart and
  a test may come d ms after the ring was found empty, with a poll in every p ms, a frame can be cut in two as soon as
  g + min(d, p + 1) reaches 2 (`TimingBounds.WideGapSplits`: 1 ms apart with a delay of 1 ms is enough), and it can
  stay in the buffer when the silence behind it is 2p + 2 ms or less (`TimingBounds.ShortSilenceKeeps`). In all
  other cases every good frame is delivered (`RxTiming.TimedDelivery`), so the condition is exact
  (`TimingBounds.TimingIff`).
- `rs485_write` reports success for a transfer the driver aborts (`ATS-M7/src/usart_service.c:45-48`).
  `Usart.AbortedWrite` is such a run; `Usart.Rs485.Rs485Write` says exactly when the data has gone out.
- An RX restart does not reset `rx_buf_idx` (`ATS-M7/src/usart_service.c:68-71`): after an odd number of buffer
  requests the next request is answered with the buffer being filled. `RxBuffers.UnsafeRun` is the shortest
  such run; `RxBuffers.SafeRunIff` is exact.
- `qspi_service_write` ignores whether the erase of a wrap worked (`ATS-M7/src/qspi_service.c:90-93`), and
  `qspi_service_init` starts at offset 0 without erasing (`ATS-M7/src/qspi_service.c:63-64`). Records programmed
  over cells that are not erased are reported as stored: `QspiLog.LostRecord` is a run in which one is lost,
  `QspiLog.QspiService.ReadsBackIff` and `QspiLog.QspiService.LoggedIff` say exactly which are not.
- Once the flash area is open but its page size could not be read, `fal_init` does not ask again and fails
  until a later `flashdb_port_init` succeeds with a nonzero page size (`ATS-M7/src/fal_stub_zephyr.c:44-57`):
  the `Stuck` clauses of `FalPartition.Fal.Init` and `FalPartition.Fal.PortInit`.
- The FAL bounds test implies the port's only for partitions shorter than 2 GiB, because of the cast to a
  signed offset: `FalPartition.FalBoundsImplyPortBoundsIff`. The partition of the board overlay is 32 MiB.

## Model

| member | source | states |
|---|---|---|
| Crc16.CrcIsSerial | ATS-M7/src/modbus_service.c:88 | The byte-wise CRC of a string equals the bit-serial register fed with its bits in wire order, from any start value |
| Crc16.TrailerMatchesIffResidueZero | ATS-M7/src/modbus_service.c:135-142 | The CRC is the register that starts with sixteen ones, fed with the body; the trailer holds it, low byte first, if and only if the CRC over body and trailer is zero |
| CrcStandard.StartsWithOnes | ATS-M7/src/modbus_service.c:88 | Before the first byte all sixteen bits of the CRC are ones |
| CrcStandard.LeadingZeroShows | ATS-M7/src/modbus_service.c:88 | A byte of zeros in front changes the CRC of every string, as it would not from a cleared register |
| CrcStandard.ShiftBytes | ATS-M7/src/modbus_service.c:88 | One shift, written out for the two bytes of every register: to the right, with 0xA001 exclusive-ored in if a one falls out |
| CrcStandard.CrcOfOneMore | ATS-M7/src/modbus_service.c:88 | One more byte of a string is exclusive-ored into the low byte of the CRC so far, and eight shifts follow |
| CrcStandard.StandardExample | ATS-M7/src/modbus_service.c:88-89 | The example of the standard: the message 02 07 is followed by 41 12 on the wire |
| CrcDetection.UndetectedIff | ATS-M7/src/modbus_service.c:135-142 | Linearity: a corrupted good string still has CRC zero if and only if the error pattern alone, from a cleared register, leaves it cleared |
| CrcDetection.BurstLeavesResidue | ATS-M7/src/modbus_service.c:135-142 | A nonzero pattern confined to 16 consecutive bits, anywhere in a string of any length, leaves a remainder |
| CrcDetection.RunParity | ATS-M7/src/modbus_service.c:88-89 | The CRC register keeps the parity of its start value plus the ones fed in |
| CrcDetection.OddLeavesResidue | ATS-M7/src/modbus_service.c:135-142 | A pattern with an odd number of ones leaves a remainder |
| CrcPeriod.PeriodRepeats | ATS-M7/src/modbus_service.c:135-142 | The output of the register behind a single one, seen through the factor x + 1 of the polynomial, repeats after 32767 shifts |
| CrcPeriod.OnlyPeriod | ATS-M7/src/modbus_service.c:135-142 | Every period of that output is a multiple of 32767 = 7 * 31 * 151 |
| CrcPeriod.BackIff | ATS-M7/src/modbus_service.c:135-142 | The register behind a single one comes back to itself after d shifts if and only if d is a multiple of 32767 |
| CrcPeriod.PairResidueIff | ATS-M7/src/modbus_service.c:135-142 | A pattern with two ones, in a string of any length, leaves no remainder if and only if their distance is a multiple of 32767 |
| CrcPeriod.FewLeaveResidue | ATS-M7/src/modbus_service.c:135-142 | One to three ones in at most 32767 bits leave a remainder |
| AduCodec.DecodeEncode | ATS-M7/src/modbus_service.c:78-90 | Every frame built for transmission is unit id, function code, data and the CRC of these, low byte first; on receipt it is accepted and gives back its fields, with the crc the wire carried |
| AduCodec.EncodeDecode | ATS-M7/src/modbus_service.c:135-152 | The fields of every accepted frame are its first byte, its second, the bytes between these and the last two, and the last two; encoded again they are the identical bytes |
| AduCodec.AcceptedIff | ATS-M7/src/modbus_service.c:130-142 | A frame is accepted if and only if it has at least four bytes, the last two of them the CRC of the others |
| AduCodec.AcceptsIffResidueZero | ATS-M7/src/modbus_service.c:135-142 | A frame of at least 4 bytes is accepted if and only if the CRC over all of it is zero |
| AduCodec.ErrorUndetectedIff | ATS-M7/src/modbus_service.c:135-142 | For any good frame and any error pattern: accepted if and only if the pattern's own remainder is zero |
| AduCodec.BurstRejected | ATS-M7/src/modbus_service.c:88-142 | An encoded frame of any length hit by a nonzero burst of at most 16 bits is rejected |
| AduCodec.OddFlipsRejected | ATS-M7/src/modbus_service.c:88-142 | An encoded frame with an odd number of flipped bits is rejected |
| AduCodec.TwoFlipsRejectedIff | ATS-M7/src/modbus_service.c:88-142 | An encoded frame of any length with two flipped bits is rejected if and only if their distance is not a multiple of 32767 |
| AduCodec.FewFlipsRejected | ATS-M7/src/modbus_service.c:88-142 | An encoded frame of less than 4096 bytes (a frame buffer holds at most 256) with one, two or three flipped bits is rejected |
| AduCodec.AcceptedFramesHaveEvenOnes | ATS-M7/src/modbus_service.c:135-142 | Every accepted frame has an even number of one bits |
| RxPipeline.RunKeepsInv | ATS-M7/src/modbus_service.c:162-190 | Every interleaving of callback and poll steps keeps the size bounds, the accounting of every byte, the chunk structure of the frame buffer, and the verdict recorded with every cut |
| RxPipeline.Conservation | ATS-M7/src/usart_service.c:53-60 | From boot, over any steps: bytes announced = submitted + rejected + discarded on overflow + in the frame buffer + being read + in the ring + dropped at the ring, those kept are in arrival order, and bytes are dropped if and only if some announcement finds less room in the 512 bytes of the ring than it needs, which it then fills |
| RxPipeline.FrameIsSuffixOfRead | ATS-M7/src/modbus_service.c:168-184 | The frame buffer holds at most n bytes and is exactly the last whole chunks of the stream read so far |
| RxPipeline.PayloadFits | ATS-M7/src/modbus_service.c:144-152 | Every submitted ADU has at most n - 4 data bytes, so the payload copy fits |
| RxPipeline.RoomEnough | ATS-M7/src/usart_service.c:53-60 | If what is in the ring plus what will be announced is at most 512 bytes, nothing is dropped |
| RxPipeline.NoDropBetweenDrains | ATS-M7/src/usart_service.c:53-60 | Over any number of stretches that each begin with an empty ring and announce at most 512 bytes, nothing is dropped |
| RxDelivery.BurstIsCut | ATS-M7/src/modbus_service.c:168-189 | A stretch without a passing gap test, ended by a silence, is cut as one frame (left-over bytes first) and judged by its CRC, leaving everything empty |
| RxDelivery.Delivery | ATS-M7/src/modbus_service.c:122-190 | From an empty buffer, for any well-separated frames of 4 to n bytes, however split and interleaved, the ADUs submitted are those of the good frames, in order, once each |
| RxDelivery.EndToEnd | ATS-M7/src/modbus_service.c:64-190 | If the frames on the line are encodings of ADUs, the server is given exactly these ADUs in order |
| RxDelivery.SilenceLeavesAtMostThree | ATS-M7/src/modbus_service.c:186-189 | Whatever was buffered, a silence leaves at most 3 bytes |
| RxDelivery.Resynchronisation | ATS-M7/src/modbus_service.c:130-189 | From any state, one silence and one burst of 4 to n - 3 bytes empty the buffer, and all later well-separated frames are delivered |
| RxDelivery.LeftoverDeliveryIff | ATS-M7/src/modbus_service.c:174-189 | A frame of 4 to n bytes arriving on top of left-over bytes is cut and judged as itself, so submitted if good, if and only if there were none, or the first read of the burst, as the arrivals and reads alone determine it, returns more than the buffer has room for behind them |
| RxDelivery.LeftoverAlwaysCosts | ATS-M7/src/modbus_service.c:174-189 | If left-over bytes and 64 more fit the buffer, the next frame is cut and judged as itself if and only if there are no left-over bytes, for every length, split and schedule |
| RxDelivery.FrameAfterSilence | ATS-M7/src/modbus_service.c:174-189 | With a buffer of at least 67 bytes, the frame after a silence is cut and judged as itself if and only if the silence left nothing |
| RxDelivery.StrayBytesLoseFrame | ATS-M7/src/modbus_service.c:187 | For every buffer size: one to three left-over bytes before a frame of 4 to 64 bytes read in one chunk are cut together with it |
| RxDelivery.StrayRunLosesFrame | ATS-M7/src/modbus_service.c:187 | The same as a run from boot: one to three stray bytes, a poll, the frame, two polls |
| RxTiming.TimedDelivery | ATS-M7/src/modbus_service.c:162-190 | With announcements of a frame at most g ms apart, each test at most d ms after the ring was found empty, a poll in every p ms, g + min(d, p + 1) < 2, and more than 2p + 2 ms of silence behind each frame of 4 to n bytes, the server is given exactly the good frames, in order, once each |
| RxTiming.PollsAreShort | ATS-M7/src/modbus_service.c:162-190 | A poll in every p ms alone keeps each test to p + 1 ms after the ring was found empty |
| TimingBounds.TimingIff | ATS-M7/src/modbus_service.c:162-190 | For all bounds g, d, p and z on gap, delay, polling and silence: every run that keeps to them, from any quiet state and for any buffer size, delivers its frame, if and only if g + min(d, p + 1) < 2 and z > 2p + 2 |
| TimingBounds.TimingCanBeMet | ATS-M7/src/modbus_service.c:162-190 | Any such bounds are met by some run, for every frame of 4 to 64 bytes |
| TimingBounds.WideGapSplits | ATS-M7/src/modbus_service.c:186-189 | With g + min(d, p + 1) >= 2 there are runs within the bounds that cut the frame in two, for every buffer size and every frame of 4 to 64 bytes followed by 1 to 3 more that fit it |
| TimingBounds.ShortSilenceKeeps | ATS-M7/src/modbus_service.c:186-189 | With a silence of 2p + 2 ms or less there are runs within the bounds at whose end the frame still lies in the buffer |
| TimedRead.FifoPrefix | ATS-M7/src/usart_service.c:160-174 | Whatever arrives during a read, what it returns followed by what stays in the ring is what was there followed by what the ring took meanwhile |
| TimedRead.ReadIsPipe | ATS-M7/src/usart_service.c:160-174 | A read of 64 bytes does to the receive path what its ring steps say, and nothing else |
| HalfDuplex.EventKeepsInv | ATS-M7/src/usart_service.c:112-143 | Each step of the writer or the callback keeps the relation between DE, semaphore, transfer and tx_buf contents |
| HalfDuplex.HalfDuplexSafety | ATS-M7/src/usart_service.c:45-143 | Over every interleaving: outside rs485_write DE is low, the semaphore 0 and no transfer outstanding, and DE stays low while the data is copied; DE is high throughout every transfer; a waiting writer is owed a callback or released; completed transfers carried exactly the data passed in |
| HalfDuplex.TransferUndisturbed | ATS-M7/src/usart_service.c:112-143 | During a transfer the only event possible is its end, and it leaves tx_buf alone |
| RxBuffers.StepKeepsAligned | ATS-M7/src/usart_service.c:62-71 | Requests, switches and restarts with index 1 keep the index pointing away from the buffer in use, or at it once the other one is offered |
| RxBuffers.RestartAlignedIff | ATS-M7/src/usart_service.c:68-71 | A restart re-establishes the buffer invariant exactly when rx_buf_idx is 1 |
| RxBuffers.IndexIsParity | ATS-M7/src/usart_service.c:62-66 | rx_buf_idx is 1 exactly after an even number of buffer requests since boot |
| RxBuffers.SafeRunIff | ATS-M7/src/usart_service.c:31-101 | Over every run from the initial enable, no request is answered with the buffer being filled if and only if none directly follows a restart made after an odd number of requests |
| RxBuffers.OddRestartUnsafe | ATS-M7/src/usart_service.c:62-71 | Every run with an odd number of requests, disabled, restarted and asked for a buffer, offers the buffer being filled |
| RxBuffers.UnsafeRun | ATS-M7/src/usart_service.c:62-71 | Request, restart, request is a possible run, and it offers the buffer being filled |
| RxBuffers.UndisturbedRunSafe | ATS-M7/src/usart_service.c:62-66 | A run that is never disabled never offers the buffer being filled |
| Usart.Rs485.Init | ATS-M7/src/usart_service.c:78-109 | The error of each failing device, and on success an idle line with an empty ring |
| Usart.Rs485.LineSafe | ATS-M7/src/usart_service.c:112-143 | In every state the link reaches: outside a write DE is low and nothing is outstanding; during a transfer DE is high and tx_buf holds the data passed in |
| Usart.Rs485.OffersSafeIff | ATS-M7/src/usart_service.c:62-71 | In every state the link reaches, the buffers offered so far were free if and only if no request directly followed a restart made after an odd number of requests |
| Usart.Rs485.UartCb | ATS-M7/src/usart_service.c:41-76 | The effect of each UART event on DE, semaphore, ring, buffer index and restart |
| Usart.Rs485.Deliver | ATS-M7/src/usart_service.c:41-76 | What each event does in the state the driver reports it in: the announced bytes reach the ring as far as 512 bytes allow; the end of a transfer lowers DE, gives the semaphore and, if not aborted, has put the bytes of tx_buf on the line; requests are answered with rx_buf[rx_buf_idx]; a disable restarts into buffer 0 |
| Usart.Rs485.Interrupts | ATS-M7/src/usart_service.c:41-76 | The clock moves by what the interlude says; what the callback records is exactly what the UART_RX_RDY events of that interlude carry while a buffer is being filled, in order, stamped with the clock; a transfer outstanding ends by the first TX_DONE or TX_ABORTED of it, if there is one |
| Usart.AllIsHeard | ATS-M7/src/usart_service.c:53-71 | As long as every restart of reception works, the bytes recorded as announced are those of all UART_RX_RDY events since boot, in order |
| Usart.ArrivedInOrder | ATS-M7/src/usart_service.c:53-60 | While there is room for them, the announced bytes are appended to the ring as they come |
| Usart.Rs485.Rs485Write | ATS-M7/src/usart_service.c:112-143 | Under any arrivals: result code; line idle again on return; exactly the given data added to what went out if and only if the result is 0 and the first end of a transfer reported after uart_tx accepts is not TX_ABORTED, nothing otherwise; receive side changed by the events of the consumed interludes only |
| Usart.AbortedWrite | ATS-M7/src/usart_service.c:45-48 | A run in which rs485_write returns 0 and nothing has gone out |
| Usart.Rs485.Rs485Read | ATS-M7/src/usart_service.c:145-175 | Terminates; returns a gap-free FIFO prefix of at most max bytes of what was in the ring and what the events announced meanwhile, in the first bytes of the buffer; a no-wait read is short only if it saw the ring empty, a timed one only past its deadline, and it sleeps at most one time more, 1 ms each, than its timeout has milliseconds |
| ModbusService.Service.constructor | ATS-M7/src/modbus_service.c:216-220 | The service starts with an empty frame buffer and no beat, on arrays of its own, the heartbeat counting from the clock |
| ModbusService.Service.Accounts | ATS-M7/src/modbus_service.c:122-190 | In every state of the service, every byte the driver's events have announced since boot is submitted, rejected, discarded, buffered, in the ring or dropped at the ring, and those kept are in arrival order |
| ModbusService.Service.Delivers | ATS-M7/src/modbus_service.c:122-190 | If the steps since a quiet moment are those of well-separated frames, these frames are what the driver's events announced since, and the service submitted exactly the good ones |
| ModbusService.Service.DeliversInTime | ATS-M7/src/modbus_service.c:122-190 | If since a quiet moment frame after frame came within sound bounds on gaps, delay, polling and silence, these frames are what the driver's events announced since, and the service submitted exactly the good ones |
| ModbusService.Service.SubmitFrame | ATS-M7/src/modbus_service.c:122-160 | Empties the buffer; at least four bytes whose last two are the CRC of the others are submitted, with the first byte as unit id, the second as function code and the rest as data; nothing else is |
| ModbusService.Service.MakeRoomAndCopy | ATS-M7/src/modbus_service.c:174-181 | A chunk that would overflow replaces the buffered bytes, any other is appended |
| ModbusService.Service.RxPoll | ATS-M7/src/modbus_service.c:162-190 | A poll is a run of the receive path that empties ring and read buffer and then makes exactly one gap test, with the clock reading of that moment; every chunk is stored with the time of its step; four bytes or more stay only if the last chunk is less than 2 ms old |
| ModbusService.Service.TestGap | ATS-M7/src/modbus_service.c:186-189 | With at least four bytes buffered and at least 2 ms since the last chunk the buffer is emptied and its frame submitted if acceptable; otherwise neither changes |
| ModbusService.Service.StoreChunk | ATS-M7/src/modbus_service.c:174-182 | A chunk is appended, or replaces the buffered bytes if it would not fit behind them, and the time of the last chunk is the clock |
| ModbusService.Service.Tick | ATS-M7/src/modbus_service.c:234-245 | A tick adds one clock reading to the heartbeat, taken before its poll, and makes exactly one poll, which ends the tick; the heartbeat register counts one up, modulo 65536, if and only if 1000 ms have passed since it last did |
| ModbusService.Service.Serve | ATS-M7/src/main.c:46-49 | So many rounds of the main loop make exactly so many polls and as many clock readings, each later than the one before and the last before the sleep that ends the loop |
| ModbusService.Service.RawTxCb | ATS-M7/src/modbus_service.c:64-98 | Error for a null or oversized ADU; exactly the encoded ADU (unit id, function code, data, CRC low byte first) goes out if and only if the result is 0 and the transfer is not aborted, as for rs485_write; nothing otherwise |
| ModbusService.Service.BuildFrame | ATS-M7/src/modbus_service.c:82-90 | The frame built in place: unit id at 0, function code at 1, the data from 2 on, and the CRC of these behind them |
| Heartbeat.HeartbeatBound | ATS-M7/src/modbus_service.c:234-245 | With readings at most d ms apart, b beats span at least 1000 b and at most (999 + d) b ms, and the last beat is less than a second old |
| Heartbeat.BeatsInTime | ATS-M7/src/modbus_service.c:234-245 | The elapsed time bounds the number of beats from both sides |
| QspiLog.LapIsTail | ATS-M7/src/qspi_service.c:70-102 | Over any writes, failed writes and erases: the records of the current lap are the tail of all stored ones, include the one just stored, begin block-aligned and fit the window |
| QspiLog.AppendToWindow | ATS-M7/src/qspi_service.c:82-100 | Programming a padded record behind a logged lap gives the lap with that record, followed by 0xFF only |
| QspiLog.RecordReadsBack | ATS-M7/src/qspi_service.c:75-102 | Every record of a logged lap reads back exactly from the block-aligned place the layout gives it |
| QspiLog.QspiService.Init | ATS-M7/src/qspi_service.c:44-68 | The error cases with what each leaves behind (a failed page query has replaced the write block, nothing else), and the geometry and offset set on success |
| QspiLog.QspiService.FreshWindow | ATS-M7/src/qspi_service.c:63-64 | After initialisation an erased window is the empty log |
| QspiLog.QspiService.Erase | ATS-M7/src/qspi_service.c:70-73 | Result for every answer of the device; after success every cell of the erase size is 0xFF, and no cell behind it ever changes; the offset stays, and the next records start a lap there |
| QspiLog.QspiService.LoggedIff | ATS-M7/src/qspi_service.c:75-102 | In every state, whatever failed before: the window is the log of the lap if and only if the cells the lap began on could take all its records and were erased behind them |
| QspiLog.QspiService.ReadsBackIff | ATS-M7/src/qspi_service.c:75-102 | In every state, whatever failed before: each record of the lap reads back if and only if none of its ones falls on a bit already cleared in the cells under it |
| QspiLog.QspiService.Write | ATS-M7/src/qspi_service.c:75-102 | For any cells, erase size and outcomes of erase and write: result, and the offset moved by the record rounded up to write blocks, first to 0 if that would pass 4096; without the wrap the cells of the record are programmed and no other changes; with a wrap whose erase covers the window and works, the window is the record and 0xFF, whatever failed before; the record reads back exactly if the cells take it; a log stays a log |
| QspiLog.LostRecord | ATS-M7/src/qspi_service.c:90-98 | A run of the service in which the write returns 0 and what is read back differs |
| QspiLog.QspiService.Dump | ATS-M7/src/qspi_service.c:21-42 | The lines printed are the flash bytes in order, 16 a line but for the last, each with its address, up to the first read that fails |
| QspiLog.QspiService.DumpRecord | ATS-M7/src/qspi_service.c:21-42 | A record dumped from its place prints as it was written if and only if the cells could take it |
| FlashPort.Port.Init | ATS-M7/src/flashdb_port_zephyr.c:106-144 | Result and state for each answer of the platform, an alignment of 0 taken as 1 |
| FlashPort.Port.CheckRange | ATS-M7/src/flashdb_port_zephyr.c:92-104 | Zero exactly for ranges inside an open area, -EACCES without one, -EINVAL otherwise |
| FlashPort.Port.Read | ATS-M7/src/flashdb_port_zephyr.c:161-170 | Returns the addressed bytes of the partition, or the error |
| FlashPort.Port.Write | ATS-M7/src/flashdb_port_zephyr.c:172-181 | Succeeds if and only if the range lies in the open area, is aligned to write blocks and the device works; programs the addressed bytes of the partition and nothing else, blank cells then reading back the data; out of range changes nothing |
| FlashPort.Port.Erase | ATS-M7/src/flashdb_port_zephyr.c:183-192 | Succeeds if and only if the range lies in the open area, is whole erase units and the device works; the addressed bytes are 0xFF then, and nothing else changes; out of range changes nothing |
| FlashPort.Port.SelfTest | ATS-M7/src/flashdb_port_zephyr.c:194-247 | For any area, erase size, alignment and outcomes: the result of the step that fails, the contents left behind, and exactly when the comparison succeeds; a passing test leaves the message and its closing zero in the first 18 bytes; an alignment above 64 is -ENOMEM; on a working device with an erase block of at least 64 bytes the test passes |
| FlashPort.TestLenIsLeast | ATS-M7/src/flashdb_port_zephyr.c:207-216 | The pattern is as long as the least multiple of the alignment not below 18 |
| FlashPort.SelfTestEffect | ATS-M7/src/flashdb_port_zephyr.c:194-247 | With an erase block at least as long as the pattern, on any contents: no mismatch, and the partition is the pattern, 0xFF to the end of the block, and the rest unchanged |
| FalPartition.FalBoundsImplyPortBoundsIff | ATS-M7/src/fal_stub_zephyr.c:142-146 | For every address and size the adapter's bounds test implies the port's after the cast, if and only if the partition is shorter than 2 GiB |
| FalPartition.InitedIff | ATS-M7/src/fal_stub_zephyr.c:33-76 | Over every order of fal_init and flashdb_port_init calls: a fal_init returns 1 if and only if partition and page are not empty and some call so far was answered in full, being a port initialisation or one before which no call opened the area |
| FalPartition.Fal.Init | ATS-M7/src/fal_stub_zephyr.c:33-76 | Success if and only if it succeeded before, or the port is set up with a nonzero page size, or opens now and answers in full; area, length and erase size afterwards; exactly the first opening that is not answered in full gets the adapter stuck, and no fal_init ends that |
| FalPartition.Fal.PortInit | ATS-M7/src/flashdb_port_zephyr.c:106-144 | Result, area and erase size; the adapter's invariant is kept; a stuck adapter is freed if and only if it succeeds with a nonzero page size |
| FalPartition.Fal.PartitionRead | ATS-M7/src/fal_stub_zephyr.c:135-148 | The size and the bytes of a plain array for the partition of this file, once initialised, a buffer and a range inside; -1 for anything else |
| FalPartition.Fal.PartitionWrite | ATS-M7/src/fal_stub_zephyr.c:150-163 | The size for the initialised partition of this file and an aligned range inside, if the device works: the range is programmed, blank cells then reading back the data; -1 otherwise; another partition or a range outside changes nothing, and nothing outside the range ever changes |
| FalPartition.Fal.PartitionErase | ATS-M7/src/fal_stub_zephyr.c:165-178 | The same for erasing a range of whole erase units: it is 0xFF and the rest of the partition unchanged |
| FalPartition.Fal.PartitionEraseAll | ATS-M7/src/fal_stub_zephyr.c:180-187 | Its length for the initialised partition of this file if that is whole erase units and the device works, every byte being 0xFF then; -1 otherwise; nothing outside it changes |
| Sfdp.U32IsArithmetic | ATS-M7/src/flashdb_port_zephyr.c:83-89 | Shifting and or-ing four bytes together gives the little-endian number |
| Sfdp.U24IsArithmetic | ATS-M7/src/flashdb_port_zephyr.c:364-366 | The same for the three-byte address of a parameter header |
| Sfdp.U16IsArithmetic | ATS-M7/src/flashdb_port_zephyr.c:362 | The same for its two-byte id |
| Sfdp.NumBits | ATS-M7/src/flashdb_port_zephyr.c:83-89 | A byte is the number its bits are the binary digits of |
| Sfdp.QerIsBits22To20 | ATS-M7/src/flashdb_port_zephyr.c:388-391 | The printed field is the number in bits 22 to 20 of the word |
| Sfdp.ScanHeaders | ATS-M7/src/flashdb_port_zephyr.c:351-375 | In bounds for every header and count; finds the first of the at most 7 whole headers whose first byte is 00, last byte FF and fourth byte not 00, if there is one, and takes length and address from its fourth and its fifth to seventh byte |
| Sfdp.PrintDw15 | ATS-M7/src/flashdb_port_zephyr.c:316-403 | For any SFDP contents, in bytes: -EINVAL unless they begin with the characters SFDP; -ENOTSUP unless there is a first useful header with a length of at least 15; on success bits 6 to 4 of the byte 58 behind the address it gives |
| CanFilters.CatchAll | ATS-M7/src/can_service.c:42-51 | The two catch-all filters match every standard and every extended frame |
| CanFilters.LimitIff | ATS-M7/src/can_service.c:206-215 | A number is within the limit for its kind if and only if it has no bit from 11, or 29, up |
| CanFilters.QueuedWhileRoom | ATS-M7/src/can_service.c:15-20 | As long as fewer than sixteen frames wait, every frame that a filter matches is queued |
| CanFilters.CanService.RemoveAllFilters | ATS-M7/src/can_service.c:26-37 | No filter installed and none remembered, whatever arrives meanwhile |
| CanFilters.CanService.SetRxFilterAll | ATS-M7/src/can_service.c:40-74 | Under any arrivals: afterwards every queued frame matches an installed filter and the remembered identifiers are the installed filters; every standard frame is accepted, every extended one if and only if the second addition worked; a failed first addition leaves no filter and an empty queue |
| CanFilters.CanService.SetRxFilter | ATS-M7/src/can_service.c:196-231 | An identifier or mask with a bit from 11 up (29 for extended ones) is rejected and changes nothing; otherwise exactly the frames of its kind that agree with the identifier on the bits of the mask are accepted, and bookkeeping and queue are as above |
| CanFilters.CanService.Read | ATS-M7/src/can_service.c:243-250 | The oldest queued frame, or else the first of the arrivals during the wait that an installed filter matches, the rest staying queued; an error only if the queue was empty and no such frame came, -ENOMSG without a wait and -EAGAIN after one |

## Left out

- Zephyr's kernel, drivers, flash map and Modbus server, and FlashDB: only the contracts stated above are used.
- `ATS-M7/src/modbus_points_db.c`, the register and coil callbacks: thin wrappers over FlashDB.
- `modbus_service_init` and `can_service_init`: straight-line call sequences; only the state they set up is modelled.
- Logging, JEDEC id printing and raw QSPI commands: input and output only.
- CAN sending, state names and the bus state callback: single-branch checks.
- The examples under `app`, `ATS`, `drivers`, `lib` and `tests`, and all build configuration.
- Times are unbounded integers: the wrap-around of the 64-bit uptime, and a timeout so long that the deadline overflows, are not modelled.
- Usart.Rs485.Rs485Read: takes the timeout in whole milliseconds, as the tick conversion has floored it.
- Usart.Rs485.Rs485Read: for a wait without end the loop stops only when the clock passes the largest 64-bit value; on the target that moment does not come.
- Usart.Rs485.Rs485Write: the part of the data that an aborted transfer may have put on the line is not modelled.
- QspiLog.QspiService.Write: takes a record that fits the local buffer of 64 bytes with its padding (a longer one overruns it; `PaddedFits` covers every record of at most 64 bytes when the write block divides 64), a device of at least 4096 bytes, and a write block set by an initialisation that found the device ready.
- FlashPort.Port.Init: takes it that a failing `flash_area_open` leaves the area pointer as it was, and that the page size at the partition's start does not change.
- FalPartition.Fal.Init: the names and the magic word of the structs are not modelled; nothing in the file reads the magic word.
- CanFilters.CanService.Read: a wait is counted in arrivals rather than time; one without end that no frame ends is not modelled.
- RxTiming.TimedDelivery: how long the main loop takes for a round is not modelled; the bounds on gap, delay, polling and silence are what a run must keep to.
- Interrupts are taken before kernel calls and, in the transmit copy, before each byte; the transition systems allow them everywhere.
