# STM32F7 HAL: verified models of the driver protocols

A Dafny model of the parts of the STM32F7 hardware abstraction layer that are
algorithms or protocols rather than register writes, with proofs of what they
do over whole runs.  Each peripheral is a small abstract device: the AES core
is an uninterpreted block step, a keystream and a record of everything GHASH
has absorbed; the CRC unit is a shift register fed bit by bit; the DMA stream
has two memory addresses and a memory in use; CAN has mailboxes and FIFOs.  A
driver handle is a class with the fields of the C structure, and a driver
function is a method on it.  Its contract gives the new state in terms of a
specification function, and lemmas say what the specification means.

| file | models |
|---|---|
| `AesCore`, `CrypWords`, `CrypAuth`, `CrypDriver` | GCM in phases, by polling and under interrupts, with the software workaround for a partial last block |
| `AesBlocks` | ECB, CBC and CTR on the AES peripheral, with suspension, saving and restoring of registers and resumption |
| `CrypFifo` | the processor with input and output FIFOs: interrupts and core in any order, and polling |
| `CcmFormat`, `CcmDriver` | the formatting of CCM |
| `CrcCore`, `CrcDivision`, `CrcDriver` | CRC feeding, division of polynomials, splitting, residue, polynomial check |
| `Dcmi` | frame capture over a double-buffered stream |
| `DmaFlags`, `Dma` | flag fields and life cycle of a DMA stream |
| `Flash` | erasing and programming, by polling and under interrupts |
| `CanFrames`, `Can` | frame registers and the interrupt state machine |

Time-outs are choices: a core has a number of computations it still completes
(`fuel`), a polling loop a sequence of readings, an abort a flag saying that
the stream is stuck.  Interleavings are oracles or lists of operations that
the theorems quantify over.

## What the proofs found

Where the code does not do what it is for, the model keeps the code and the
exact condition is proved.

- GCM padding is done in memory, before the data-swapping stage.  It is the
  padding of the standard exactly when the length is a whole number of
  data-type units (`PaddingShape`).
- With the header phase skipped the data type is never written to the control
  register: the lengths arrive right (`SkippedHeader`) and the output is right
  (`SkippedPayload`) for all data exactly for 32-bit data.
- A header phase under interrupts with no header returns at once, runs no
  callback and leaves its interrupt enabled (`AuthIT`, `AuthByInterrupts`).
- A time-out inside `CRYP_Padding` is reported through the error callback while
  the call goes on and returns `HAL_OK` (`Auth`).
- A suspension request made during the last block of a message stays pending and
  stops the next one after its first block (`ProcessData`, `Aes`).
- On the processor with FIFOs the output is that of the input exactly if nothing is
  in flight when the operation starts (`OwnOutput`, `ClearMeansNone`).  A time-out
  leaves a block in the input FIFO, which is not flushed again, and every later
  message is shifted by it (`EncryptTwice`, `EncryptAll`).  In the time-out state
  `HAL_CRYP_AESECB_Encrypt_IT` returns `HAL_OK` and does nothing (`EncryptIT`).
- CCM headers of 65280 bytes or more get wrong length octets, so that what is fed is
  never the standard's formatting (`CodeFormatIsStandard`), and may overrun the
  documented scratch buffer (`ScratchEnough`).  The copy also reads past the header.
- CRC feeding is serial for all data exactly for inversions over units no wider
  than the elements (`PackedAlwaysSerial8`, `PackedAlwaysSerial16`,
  `FedSplitsAlways`), whatever the unit makes of narrower writes.  The residue
  fails for width 7 (`ResidueAlways`).  A locked handle returns 2 as a CRC (`Accumulate`), and a
  rejected polynomial leaves the handle BUSY (`Init`).
- A capture that starts while memory 1 is in use misplaces its first chunk
  (`Capture`); with two chunks a frame, its end is announced after each
  (`EndTestIsFrameEnd`); the status of the stream start is dropped (`Start`).
- `HAL_DMAEx_MultiBufferStart` keeps the lock of a handle it refuses
  (`MultiBufferStart`).
- A flash failure is put down to the sector started last, but to none if the last of
  all has ended; so an error that was already up at the end of a sector is put down
  to the next one (`CulpritIsLastStarted`).  Erasing no sectors ends only when the
  count has come round (`EraseExactly`).
- A second CAN transmission forgets a pending reception (`TransmitIT`).  The TXFAIL
  code is never set: a transmission given up without a bus error stays pending
  (`EndOfTransmission`, `Step`).

## Model

| member | source | states |
|---|---|---|
| `AesCore.CryptIsGctr` | f765_0127_test_ok1/HAL/stm32f7xx_hal_cryp_ex.c:3671-3705 | what is read back in memory order is, once swapped for the data type, the counter mode of section 6.5 of SP 800-38D on the swapped message, for every message of whole data-type units |
| `AesCore.PaddingShape` | f765_0127_test_ok1/HAL/stm32f7xx_hal_cryp_ex.c:5912-5930 | zero padding in memory is zero padding of the message on all data exactly when the length is a whole number of data-type units |
| `AesCore.WireAppend` | f765_0127_test_ok1/HAL/stm32f7xx_hal_cryp_ex.c:3671-3683 | swapping acts word by word, so that blocks entered one after another arrive as the whole |
| `AesCore.SwapBits` | f765_0127_test_ok1/HAL/include/stm32f7xx_hal_cryp.h:688-691 | bit j of a word as the cipher takes it is, for the four data types, bit 31-j, the bit of the opposite byte, that of the other half-word, and bit j of the word written |
| `AesCore.RevBits` | f765_0127_test_ok1/HAL/stm32f7xx_hal_cryp_ex.c:3784-3787 | reversing a byte puts bit 7-i at bit i |
| `CrypAuth.JobAbsorbs` | f765_0127_test_ok1/HAL/stm32f7xx_hal_cryp_ex.c:3507-3850 | header, payload and final phases make GHASH absorb A, zero padding, C, zero padding and the two 64-bit bit lengths, with C the GCTR of the payload (section 7.1, Algorithm 4 of SP 800-38D); all four data types, both directions, all lengths of whole units |
| `CrypAuth.JobAbsorbsMemory` | f765_0127_test_ok1/HAL/stm32f7xx_hal_cryp_ex.c:3507-3850 | the same for all lengths whatsoever, an empty payload included, in terms of the buffers padded in memory |
| `CrypAuth.DecryptsBack` | f765_0127_test_ok1/HAL/stm32f7xx_hal_cryp_ex.c:3507-3850 | decrypting what was encrypted, with the same keystream, gives the message back and makes GHASH absorb the same, for all lengths |
| `CrypAuth.PayloadAbsorbs` | f765_0127_test_ok1/HAL/stm32f7xx_hal_cryp_ex.c:5902-6015 | however the payload ends, with the CTR/FINAL detour or without, GHASH has absorbed its zero-padded ciphertext |
| `CrypAuth.DetourEnds` | f765_0127_test_ok1/HAL/stm32f7xx_hal_cryp_ex.c:5945-6013 | the masked output of a partial block entered again in the final phase completes and leaves the closed-form end of the payload phase |
| `CrypAuth.TailAnswers` | f765_0127_test_ok1/HAL/stm32f7xx_hal_cryp_ex.c:5902-5943 | how the core takes a padded partial block: it completes exactly while it answers, and what it then holds |
| `CrypAuth.EnterStalls` | f765_0127_test_ok1/HAL/stm32f7xx_hal_cryp_ex.c:5932-5943 | a core that does not answer has only been written to |
| `CrypAuth.PayloadSplits` | f765_0127_test_ok1/HAL/stm32f7xx_hal_cryp_ex.c:3658-3750 | whole blocks followed by CRYP_Padding on the rest are the closed form of the whole payload |
| `CrypAuth.FedBoth` | f765_0127_test_ok1/HAL/stm32f7xx_hal_cryp_ex.c:3671-3705 | data fed in two runs of whole blocks is the data fed in one |
| `CrypAuth.LengthBlockWire` | f765_0127_test_ok1/HAL/stm32f7xx_hal_cryp_ex.c:3777-3808 | the four words reach the core as the two big-endian 64-bit bit lengths: the software swap is the inverse of that of the core |
| `CrypAuth.LengthWrites` | f765_0127_test_ok1/HAL/stm32f7xx_hal_cryp_ex.c:3777-3808 | bit by bit, the four words written are the high and low words of the two bit lengths with bit i at 31-i (__RBIT), in the opposite byte (__REV), in the other half-word (__ROR by 16), or in place |
| `CrypAuth.JobWrites` | f765_0127_test_ok1/HAL/stm32f7xx_hal_cryp_ex.c:3507-3850 | everything a job writes, in order: header phase and padded header, payload phase and blocks, for a partial last block of an encryption the way through counter mode and back with the padded ciphertext, final phase and the length words |
| `CrypAuth.Be64Value` | f765_0127_test_ok1/HAL/stm32f7xx_hal_cryp_ex.c:3777-3778 | those eight bytes have the value of the length below 2^64 |
| `CrypAuth.SkippedAbsorbs` | f765_0127_test_ok1/HAL/stm32f7xx_hal_cryp_ex.c:3645-3655 | a job that skips the header phase makes GHASH absorb ciphertext and lengths swapped for the data type the control register holds since the initialisation |
| `CrypAuth.SkippedHeader` | f765_0127_test_ok1/HAL/stm32f7xx_hal_cryp.c:4031-4035 | initialisation sets the data type to 32 bits and only the header phase sets it again; with that phase skipped the lengths, of no header and any payload, arrive right for all payloads exactly for 32-bit data |
| `CrypAuth.SkippedPayload` | f765_0127_test_ok1/HAL/stm32f7xx_hal_cryp.c:4031-4035 | and the output is the counter mode for the data type, for all keys and payloads, exactly for 32-bit data |
| `CrypAuth.JobPhases` | f765_0127_test_ok1/HAL/stm32f7xx_hal_cryp_ex.c:3507-3850 | between the phases the core is idle, enabled and has answers left, so each phase meets what the next needs |
| `CrypWords.PadWord` | f765_0127_test_ok1/HAL/stm32f7xx_hal_cryp_ex.c:5912-5930 | complete words, one masked word and zero words are the words of the zero-padded block |
| `CrypWords.MaskedBlock` | f765_0127_test_ok1/HAL/stm32f7xx_hal_cryp_ex.c:5945-6013 | the output block masked in the same way is the zero-padded first bytes of the output |
| `CrypWords.StoredOutput` | f765_0127_test_ok1/HAL/stm32f7xx_hal_cryp_ex.c:5945-5969 | output blocks followed by the masked words of the last one are the cipher result rounded up to whole words |
| `CrypWords.OutputReads` | f765_0127_test_ok1/HAL/stm32f7xx_hal_cryp_ex.c:3694-3703 | what is read back from the buffers, swapped for the data type, is byte for byte the message xored with the keystream blocks from the initial counter on, and the tag the key gives for what was absorbed |
| `CrypDriver.Handle.Padding` | f765_0127_test_ok1/HAL/stm32f7xx_hal_cryp_ex.c:5878-6015 | CRYP_Padding when polling: header or payload end in closed form and the masked output in the buffer; time-outs counted as error callbacks |
| `CrypDriver.Handle.FeedHeader` | f765_0127_test_ok1/HAL/stm32f7xx_hal_cryp_ex.c:3507-3641 | the header phase: core in closed form, or the time-out exactly when a whole block does not complete |
| `CrypDriver.Handle.FeedPayload` | f765_0127_test_ok1/HAL/stm32f7xx_hal_cryp_ex.c:3645-3754 | the payload phase: core and output buffer in closed form, or the time-out |
| `CrypDriver.Handle.FeedFinal` | f765_0127_test_ok1/HAL/stm32f7xx_hal_cryp_ex.c:3758-3850 | the final phase: the phase selected and the four length words written, bit by bit those of the data type, then the tag of everything absorbed and the peripheral disabled |
| `CrypDriver.Handle.Auth` | f765_0127_test_ok1/HAL/stm32f7xx_hal_cryp_ex.c:3419-3872 | HAL_CRYPEx_AES_Auth in every case: status, lock, state, and with an answering core the closed form of the phase; time-outs inside CRYP_Padding go to the error callback and the call still returns HAL_OK |
| `CrypDriver.Handle.AuthIT` | f765_0127_test_ok1/HAL/stm32f7xx_hal_cryp_ex.c:3903-4289 | HAL_CRYPEx_AES_Auth_IT in every case; a header phase without header ends at once, with the interrupt left enabled and no callback |
| `CrypDriver.Handle.ServeHeader` | f765_0127_test_ok1/HAL/stm32f7xx_hal_cryp_ex.c:5126-5243 | one header interrupt: the next block or the padded rest is entered, or the phase is over |
| `CrypDriver.Handle.ServeTail` | f765_0127_test_ok1/HAL/stm32f7xx_hal_cryp_ex.c:5256-5331 | the interrupt of a partial last block: masked output, and for encryption its re-insertion in the final phase |
| `CrypDriver.Handle.ServeBlock` | f765_0127_test_ok1/HAL/stm32f7xx_hal_cryp_ex.c:5334-5486 | the interrupt of a whole block: output, and the next input or the end |
| `CrypDriver.Handle.ServeFinal` | f765_0127_test_ok1/HAL/stm32f7xx_hal_cryp_ex.c:5490-5524 | the final interrupt: the tag is in the buffer |
| `CrypDriver.Handle.AuthService` | f765_0127_test_ok1/HAL/stm32f7xx_hal_cryp_ex.c:5089-5538 | CRYP_AES_Auth_IT without a suspension request takes a phase from each stage to the next, with one completion callback, at its end |
| `CrypDriver.Handle.Interrupts` | f765_0127_test_ok1/HAL/stm32f7xx_hal_cryp.c:4880-4904 | the interrupts of a phase end, and end it |
| `CrypDriver.Handle.AuthByInterrupts` | f765_0127_test_ok1/HAL/stm32f7xx_hal_cryp_ex.c:3903-4289 | a phase under interrupts ends with the same core (all chaining-mode, phase and data writes in order, and everything absorbed) and the same output as polling, READY, with one callback |
| `CrypDriver.Handle.JobByPolling` | f765_0127_test_ok1/HAL/stm32f7xx_hal_cryp_ex.c:3419-3872 | a whole job by polling, with or without header and payload (without a payload, GMAC): what GHASH has absorbed, output and tag of it, byte by byte the message xored with the keystream and the tag of the key, READY and unlocked |
| `CrypDriver.Handle.JobByInterrupts` | f765_0127_test_ok1/HAL/stm32f7xx_hal_cryp_ex.c:5089-5538 | a whole job under interrupts reaches the same core, output and tag, with one callback a phase (none for an empty header) |
| `CrypDriver.Handle.JobWithoutHeader` | f765_0127_test_ok1/HAL/stm32f7xx_hal_cryp_ex.c:3651-3655 | a job that goes from the initialisation to the payload: output and tag for 32-bit data whatever the data type asked for |
| `CrypDriver.EncryptThenDecrypt` | f765_0127_test_ok1/HAL/stm32f7xx_hal_cryp_ex.c:3419-3872 | one handle encrypts by polling, another decrypts the output under interrupts: the message and the same tag come back, for every header, payload and data type |
| `AesBlocks.RunSplits` | f765_0127_test_ok1/HAL/stm32f7xx_hal_cryp_ex.c:5641-5658 | stopping after any number of blocks and going on from the registers and buffer positions then is the uninterrupted run |
| `AesBlocks.AlikeRuns` | f765_0127_test_ok1/HAL/stm32f7xx_hal_cryp_ex.c:4859-4886 | registers that agree on the configuration, the vector and the key words in use give the same output |
| `AesBlocks.AlikeMeans` | f765_0127_test_ok1/HAL/stm32f7xx_hal_cryp_ex.c:4859-4886 | what counts is the key size, the mode, the vector, the four low key words and, for a 256-bit key, the four high ones, and nothing else |
| `AesBlocks.OutputAt` | f765_0127_test_ok1/HAL/stm32f7xx_hal_cryp_ex.c:5620-5639 | block j of the output is what the cipher puts out for block j of the input, in the order of its words, under the configuration, the key words in use and the vector the blocks before have left |
| `AesBlocks.RevMirrors` | f765_0127_test_ok1/HAL/stm32f7xx_hal_cryp_ex.c:4733-4745 | a saved word has the bytes of its register in the opposite order |
| `AesBlocks.CallSplits` | f765_0127_test_ok1/HAL/stm32f7xx_hal_cryp_ex.c:5641-5658 | a call on the rest of a message, from registers like those it stopped with, continues its output |
| `AesBlocks.IvLoads` | f765_0127_test_ok1/HAL/stm32f7xx_hal_cryp_ex.c:4733-4768 | a saved initialisation vector loads back exactly |
| `AesBlocks.KeyLoads` | f765_0127_test_ok1/HAL/stm32f7xx_hal_cryp_ex.c:4859-4921 | a saved key loads back in all the words a key of its size uses |
| `AesBlocks.Handle.ProcessData` | f765_0127_test_ok1/HAL/stm32f7xx_hal_cryp_ex.c:5601-5665 | CRYP_ProcessData: output, registers and the saved pointers and count up to the first block, except the last, at whose end a request is pending; a request in the last block stays pending |
| `AesBlocks.Handle.Aes` | f765_0127_test_ok1/HAL/stm32f7xx_hal_cryp_ex.c:3162-3222 | HAL_CRYPEx_AES in every case |
| `AesBlocks.Handle.AesIT` | f765_0127_test_ok1/HAL/stm32f7xx_hal_cryp_ex.c:3242-3312 | HAL_CRYPEx_AES_IT in every case; its first block is in flight |
| `AesBlocks.Handle.Service` | f765_0127_test_ok1/HAL/stm32f7xx_hal_cryp.c:5051-5157 | CRYP_AES_IT: one more block, a suspension or the end |
| `AesBlocks.Handle.Interrupts` | f765_0127_test_ok1/HAL/stm32f7xx_hal_cryp.c:4880-4904 | the interrupts of a call stop where the polling loop does, with one callback if the message is over |
| `AesBlocks.Handle.AesByInterrupts` | f765_0127_test_ok1/HAL/stm32f7xx_hal_cryp_ex.c:3242-3312 | a call under interrupts leaves exactly what the polling call leaves |
| `AesBlocks.Handle.GiveWay` | f765_0127_test_ok1/HAL/stm32f7xx_hal_cryp_ex.c:4733-4949 | saving IV, key and control registers, letting another message use the peripheral, and writing them back restores control and vector registers, the four low key words and, for a 256-bit key, the four high ones |
| `AesBlocks.Handle.Message` | f765_0127_test_ok1/HAL/stm32f7xx_hal_cryp_ex.c:4962-4966 | suspension is transparent: any message of whole blocks, any requests at any blocks, any mix of polling and interrupt calls, anything done to the registers in between, gives the output of one uninterrupted run |
| `CrypFifo.OwnOutput` | f765_0127_test_ok1/HAL/stm32f7xx_hal_cryp.c:310-362 | with k blocks of an earlier message in flight the output is that of the input alone, for all ciphers and data, exactly for k = 0 |
| `CrypFifo.Processor.ClearMeansNone` | f765_0127_test_ok1/HAL/stm32f7xx_hal_cryp.c:765-780 | k is 0 exactly if, when the operation starts, the FIFOs are empty or are about to be flushed, which the caller can see |
| `CrypFifo.Processor.InFlight` | f765_0127_test_ok1/HAL/stm32f7xx_hal_cryp.c:1198-1237 | at any moment CrypInCount is at most CrypOutCount and their difference is the bytes in the two FIFOs (but for a block left over before); an interrupt or the core can go on |
| `CrypFifo.Processor.EncryptIT` | f765_0127_test_ok1/HAL/stm32f7xx_hal_cryp.c:1152-1242 | HAL_CRYP_AESECB_Encrypt_IT in all its roles: start, input interrupt (which goes first), output interrupt, or nothing when the state is not READY and neither interrupt is due |
| `CrypFifo.Processor.EncryptByInterrupts` | f765_0127_test_ok1/HAL/stm32f7xx_hal_cryp.c:3708-3771 | every interleaving of the core with input and output interrupts ends READY and unlocked with no interrupt enabled, the output of the polling form, and each callback run once; a block left over before comes out first and one stays in flight |
| `CrypFifo.Processor.ProcessData` | f765_0127_test_ok1/HAL/stm32f7xx_hal_cryp.c:310-362 | the polling loop, also with a block of an earlier message in the FIFOs |
| `CrypFifo.Processor.Encrypt` | f765_0127_test_ok1/HAL/stm32f7xx_hal_cryp.c:750-799 | HAL_CRYP_AESECB_Encrypt: the FIFOs are flushed before the first operation only, and output starts with whatever was in flight; with clear FIFOs it is that of the input |
| `CrypFifo.Processor.EncryptTwice` | f765_0127_test_ok1/HAL/stm32f7xx_hal_cryp.c:330-347 | an operation on clear FIFOs leaves them clear exactly if it does not time out; otherwise the next message gets the output of the abandoned block first and lacks its own last one |
| `CrypFifo.Processor.EncryptAll` | f765_0127_test_ok1/HAL/stm32f7xx_hal_cryp.c:750-799 | over any number of operations the outputs together are those of the leftover block and all inputs, so that the shift persists to every later operation |
| `CrypFifo.Processor.Handover` | f765_0127_test_ok1/HAL/stm32f7xx_hal_cryp.c:310-362 | what is in flight after one operation is what the next one finds |
| `CcmFormat.PrefixFree` | f765_0127_test_ok1/HAL/stm32f7xx_hal_cryp_ex.c:521-581 | no formatting of a message, with a header of up to 2^32 - 1 bytes, is a proper prefix of another, and equal formattings are of the same nonce, tag length, size and header (section 5.4 of SP 800-38C) |
| `CcmFormat.B0Injective` | f765_0127_test_ok1/HAL/stm32f7xx_hal_cryp_ex.c:561-581 | block B0 determines nonce, tag length, payload length and whether there is a header |
| `CcmFormat.B0Reads` | f765_0127_test_ok1/HAL/stm32f7xx_hal_cryp_ex.c:561-581 | B0 read octet by octet: bit 7 of the flags 0, bit 6 for a header, bits 5 to 3 (t-2)/2, bits 2 to 0 one less than the octets of the length field, then the nonce and the payload length (A.2.1) |
| `CcmFormat.CounterReads` | f765_0127_test_ok1/HAL/stm32f7xx_hal_cryp_ex.c:583-597 | a counter block read octet by octet: flags that are the octets of the counter field less one, the nonce and the counter (A.3) |
| `CcmFormat.HeaderReads` | f765_0127_test_ok1/HAL/stm32f7xx_hal_cryp_ex.c:521-560 | the header blocks read octet by octet: the length in two octets, or in four after FF FE, the header, and zeros to the end of a block and no further (A.2.2) |
| `CcmFormat.CounterIsNotB0` | f765_0127_test_ok1/HAL/stm32f7xx_hal_cryp_ex.c:583-597 | no counter block is the B0 of any message |
| `CcmFormat.IncrementBe` | f765_0127_test_ok1/HAL/stm32f7xx_hal_cryp_ex.c:583-597 | incrementing a counter block as one number increments its counter field and touches nothing else until the field overflows |
| `CcmFormat.CounterRuns` | f765_0127_test_ok1/HAL/stm32f7xx_hal_cryp_ex.c:583-597 | from counter block 1 the core goes through the counter blocks of A.3 for all the blocks a 16-bit size takes |
| `CcmDriver.CodeLengthIsStandard` | f765_0127_test_ok1/HAL/stm32f7xx_hal_cryp_ex.c:525-541 | the length octets are those of A.2.2 exactly below 65280 bytes |
| `CcmDriver.CodeFormatIsStandard` | f765_0127_test_ok1/HAL/stm32f7xx_hal_cryp_ex.c:521-581 | everything the driver puts before the payload is the formatting of the standard exactly if the header is below 65280 bytes |
| `CcmDriver.ScratchEnough` | f765_0127_test_ok1/HAL/stm32f7xx_hal_cryp_ex.c:542-556 | the documented scratch size suffices exactly when the header is below 65280 bytes or does not end one byte past a block |
| `CcmDriver.OrShifted` | f765_0127_test_ok1/HAL/stm32f7xx_hal_cryp_ex.c:562-569 | setting bits below the lowest bit set adds them |
| `CcmDriver.FlagBits` | f765_0127_test_ok1/HAL/stm32f7xx_hal_cryp_ex.c:562-569 | the flags octet as the driver assembles it is that of A.2.1 |
| `CcmDriver.Handle.FormatHeader` | f765_0127_test_ok1/HAL/stm32f7xx_hal_cryp_ex.c:521-560 | the scratch buffer holds length, header and zeros to the end of a block |
| `CcmDriver.Handle.FormatB0` | f765_0127_test_ok1/HAL/stm32f7xx_hal_cryp_ex.c:561-581 | the block built, read octet by octet, has the header bit, the tag length, the nonce length, the nonce and the payload size of A.2.1 |
| `CcmDriver.Handle.FormatCounter` | f765_0127_test_ok1/HAL/stm32f7xx_hal_cryp_ex.c:583-597 | the block built is counter block 1 of A.3 |
| `CcmDriver.Handle.FeedHeader` | f765_0127_test_ok1/HAL/stm32f7xx_hal_cryp_ex.c:646-708 | the header phase feeds the scratch buffer block by block, as far as its waits end in time |
| `CcmDriver.Handle.SaveCounter` | f765_0127_test_ok1/HAL/stm32f7xx_hal_cryp_ex.c:709-715 | what is kept is counter block 0 |
| `CcmDriver.Handle.Prepare` | f765_0127_test_ok1/HAL/stm32f7xx_hal_cryp_ex.c:501-728 | lock, state and time-outs included: what is fed is the driver's formatting, or the first blocks of it before a time-out; read octet by octet its first block is B0 and the rest, below 65280 bytes, the header with its length; the vector registers hold counter block 1 and the scratch buffer keeps counter block 0 |
| `CcmDriver.Handle.Finish` | f765_0127_test_ok1/HAL/stm32f7xx_hal_cryp_ex.c:1055-1138 | lock, state and time-out included: the final phase feeds the block kept and stores the first bytes of the output as the tag; outside the processing phase the tag stored is zero |
| `CrcCore.FeedSplits` | f765_0127_test_ok1/HAL/stm32f7xx_hal_crc.c:301-342 | feeding two bit streams one after the other is feeding their concatenation |
| `CrcCore.ShiftsOut` | f765_0127_test_ok1/HAL/stm32f7xx_hal_crc.c:301-342 | a register fed its own leading bits is shifted out, for every polynomial |
| `CrcDivision.FeedIsRemainder` | f765_0127_test_ok1/HAL/stm32f7xx_hal_crc.c:359-406 | for every polynomial, register and bit stream s, the register after s is the remainder of reg x^|s| + s x^n divided by x^n + poly over GF(2), and no other value is |
| `CrcDivision.RemainderUnique` | f765_0127_test_ok1/HAL/stm32f7xx_hal_crc.c:359-406 | quotient and remainder of such a division are unique |
| `CrcDivision.StepReduces` | f765_0127_test_ok1/HAL/stm32f7xx_hal_crc.c:359-406 | one bit into the register is one step of long division |
| `CrcCore.EnterAt32` | f765_0127_test_ok1/HAL/include/stm32f7xx_hal_crc.h:109-114 | which bit of the word written is fed when, for the four input inversions |
| `CrcCore.EnterAt16` | f765_0127_test_ok1/HAL/include/stm32f7xx_hal_crc.h:109-114 | the same for half-words |
| `CrcCore.EnterAt8` | f765_0127_test_ok1/HAL/include/stm32f7xx_hal_crc.h:109-114 | the same for bytes |
| `CrcCore.PackedIsSerial8` | f765_0127_test_ok1/HAL/stm32f7xx_hal_crc.c:416-447 | four bytes a word and the tail feed the bits of one byte after another, without inversion and with bytewise inversion |
| `CrcCore.PackedIsSerial16` | f765_0127_test_ok1/HAL/stm32f7xx_hal_crc.c:457-475 | two half-words a word and the tail feed the bits of one half-word after another |
| `CrcCore.PackedAlwaysSerial8` | f765_0127_test_ok1/HAL/stm32f7xx_hal_crc.c:416-447 | for all data exactly with no or bytewise inversion, whatever the unit makes of writes narrower than the unit of inversion |
| `CrcCore.PackedAlwaysSerial16` | f765_0127_test_ok1/HAL/stm32f7xx_hal_crc.c:457-475 | for all data exactly without word inversion, whatever the unit makes of narrower writes |
| `CrcCore.ResidueAlways` | f765_0127_test_ok1/HAL/stm32f7xx_hal_crc.c:301-342 | a CRC followed by its own bytes leaves zero, for all polynomials and values, exactly for widths other than 7 |
| `CrcCore.SevenFails` | f765_0127_test_ok1/HAL/stm32f7xx_hal_crc.c:301-342 | an input of width 7 for which the residue is not zero |
| `CrcDriver.FedIsSerial` | f765_0127_test_ok1/HAL/stm32f7xx_hal_crc.c:301-342 | for all three formats the driver feeds the serial bits of the data, for regular inversions |
| `CrcDriver.FedSplits` | f765_0127_test_ok1/HAL/stm32f7xx_hal_crc.c:359-406 | data in two parts, split anywhere, aligned to words or not, feeds the same bits |
| `CrcDriver.FedSplitsAlways` | f765_0127_test_ok1/HAL/stm32f7xx_hal_crc.c:359-406 | for all splits exactly for regular inversions, whatever the unit makes of narrower writes |
| `CrcDriver.LowAt` | f765_0127_test_ok1/HAL/include/stm32f7xx_hal_crc.h:92-95 | the polynomial and the initial value of a width are its low bits of POL and INIT, most significant first |
| `CrcDriver.ReadingAt` | f765_0127_test_ok1/HAL/include/stm32f7xx_hal_crc.h:114-117 | bit i of what is read is bit i of the register, or with output inversion bit i counted from the other end of its width; the bits above are zero |
| `CrcDriver.Handle.Handle8` | f765_0127_test_ok1/HAL/stm32f7xx_hal_crc.c:416-447 | CRC_Handle_8 leaves the register fed with the packed bits and returns its reading |
| `CrcDriver.Handle.Handle16` | f765_0127_test_ok1/HAL/stm32f7xx_hal_crc.c:457-475 | CRC_Handle_16 likewise |
| `CrcDriver.Handle.Accumulate` | f765_0127_test_ok1/HAL/stm32f7xx_hal_crc.c:301-342 | the register is left with the remainder of the old value and the data fed by the polynomial in POL, and is what is read, READY and unlocked; a locked handle returns 2 as if it were a CRC |
| `CrcDriver.Handle.Calculate` | f765_0127_test_ok1/HAL/stm32f7xx_hal_crc.c:359-406 | the same from the initial value in INIT |
| `CrcDriver.Handle.CalculateInParts` | f765_0127_test_ok1/HAL/stm32f7xx_hal_crc.c:359-406 | Calculate of a first part then Accumulate of the second returns the remainder of the initial value and the bits of both parts one after another |
| `CrcDriver.Handle.SelfCheck` | f765_0127_test_ok1/HAL/stm32f7xx_hal_crc.c:301-447 | a message followed by its CRC, most significant byte first, returns zero for widths 8, 16 and 32 |
| `CrcDriver.Handle.Degree` | f765_0127_test_ok1/HAL/stm32f7xx_hal_crc_ex.c:118-123 | the search ends for every polynomial, at its most significant bit, or with the counter wrapped round for zero |
| `CrcDriver.Handle.PolynomialSet` | f765_0127_test_ok1/HAL/stm32f7xx_hal_crc_ex.c:107-160 | accepted exactly when the polynomial is not zero and of a degree below the width (always for width 32); on an error nothing is changed |
| `CrcDriver.Handle.Init` | f765_0127_test_ok1/HAL/stm32f7xx_hal_crc.c:116-186 | what is configured, and that an error of the polynomial is passed on, with the registers unchanged and the state left BUSY |
| `Dcmi.EndTestIsFrameEnd` | f765_0127_test_ok1/HAL/stm32f7xx_hal_dcmi.c:843-854 | the end-of-frame test succeeds after exactly every K-th chunk, for all chunks, exactly when K is more than 2 |
| `Dcmi.FrameTiles` | f765_0127_test_ok1/HAL/stm32f7xx_hal_dcmi.c:838-840 | each byte of a frame belongs to exactly one chunk, for every chunk size and count |
| `Dcmi.TwoOn` | f765_0127_test_ok1/HAL/stm32f7xx_hal_dcmi.c:812-841 | the callback takes counter and addresses from one chunk to the next |
| `Dcmi.Wraps` | f765_0127_test_ok1/HAL/stm32f7xx_hal_dcmi.c:831-841 | the chunk after the last of a frame is the first of the next |
| `Dcmi.Camera.SplitLength` | f765_0127_test_ok1/HAL/stm32f7xx_hal_dcmi.c:338-348 | the loop ends with K a power of two from 2 on, 0x8000 <= S <= 0xFFFF and S*K <= Length < (S+1)*K, with equality when K divides Length; K > 2 exactly from 0x20000 on |
| `Dcmi.Camera.Start` | f765_0127_test_ok1/HAL/stm32f7xx_hal_dcmi.c:294-369 | HAL_DCMI_Start_DMA in every case; that the stream may have refused to start goes unnoticed |
| `Dcmi.Camera.XferCplt` | f765_0127_test_ok1/HAL/stm32f7xx_hal_dcmi.c:806-855 | the callback changes only the address of the memory that is not in use |
| `Dcmi.Camera.Transfer` | f765_0127_test_ok1/HAL/stm32f7xx_hal_dma.c:888-908 | one chunk: written where the memory in use says, memories exchanged, the callback run for either |
| `Dcmi.Camera.Capture` | f765_0127_test_ok1/HAL/stm32f7xx_hal_dcmi.c:806-855 | over any number of chunks, chunk t goes to the frame buffer plus 4*S*(t mod K), and the end of a frame is announced after exactly the chunks the test names; the placement holds exactly when the stream starts on memory 0; when it starts on memory 1 the first chunk is already misplaced |
| `Dcmi.Camera.StartAndCapture` | f765_0127_test_ok1/HAL/stm32f7xx_hal_dcmi.c:294-369 | from HAL_DCMI_Start_DMA to the n-th chunk: chunk count and size of the halving loop, every chunk in its place exactly if the stream starts on memory 0, and then the end of a frame announced after every K-th chunk, or after every chunk if there are two |
| `DmaFlags.FindsStream` | f765_0127_test_ok1/HAL/stm32f7xx_hal_dma.c:1193-1213 | the register addresses of the eight streams give the shift and base of their status fields |
| `DmaFlags.FieldsPartition` | f765_0127_test_ok1/HAL/stm32f7xx_hal_dma.c:1193-1213 | the fields of the streams of a register are disjoint and are all the implemented bits |
| `DmaFlags.ConstantHitsFlag` | f765_0127_test_ok1/HAL/include/stm32f7xx_hal_dma.h:353-357 | each header constant, shifted, hits exactly its stream's flag among the implemented bits, in spite of the stray bit 23 in two of them |
| `DmaFlags.HeaderBits` | f765_0127_test_ok1/HAL/include/stm32f7xx_hal_dma.h:353-372 | the flags of the eight streams are the bits the header gives for them, but for the stray ones |
| `DmaFlags.AllHitsField` | f765_0127_test_ok1/HAL/stm32f7xx_hal_dma.c:309 | 0x3F shifted hits exactly the stream's field |
| `DmaFlags.ClearIsLocal` | f765_0127_test_ok1/HAL/stm32f7xx_hal_dma.c:756-875 | a clear write for one flag or one stream leaves every other flag as it was |
| `DmaFlags.ClearRemoves` | f765_0127_test_ok1/HAL/stm32f7xx_hal_dma.c:756-875 | seen as sets, as the model of a stream has them, a clear write removes its flag from its stream and nothing from the others |
| `DmaFlags.ClearAllRemoves` | f765_0127_test_ok1/HAL/stm32f7xx_hal_dma.c:309 | and a write of 0x3F removes all flags of its stream and nothing from the others |
| `Dma.Stream.Init` | f765_0127_test_ok1/HAL/stm32f7xx_hal_dma.c:187-318 | any handle ends up satisfying the invariant and unlocked |
| `Dma.Stream.DeInit` | f765_0127_test_ok1/HAL/stm32f7xx_hal_dma.c:326-383 | refused on a busy handle, otherwise reset and unlocked |
| `Dma.Stream.Start` | f765_0127_test_ok1/HAL/stm32f7xx_hal_dma.c:416-509 | a ready handle is never refused; any other is, and is unchanged |
| `Dma.Stream.MultiBufferStartIT` | f765_0127_test_ok1/HAL/stm32f7xx_hal_dma_ex.c:173-235 | the same in double-buffer mode; memory to memory is an error |
| `Dma.Stream.MultiBufferStart` | f765_0127_test_ok1/HAL/stm32f7xx_hal_dma_ex.c:119-161 | the busy path keeps the lock: the invariant survives exactly when that path is not taken on an idle handle |
| `Dma.Stream.AbortTransfer` | f765_0127_test_ok1/HAL/stm32f7xx_hal_dma.c:523-582 | ready and unlocked with all flags clear, or the time-out |
| `Dma.Stream.AbortIT` | f765_0127_test_ok1/HAL/stm32f7xx_hal_dma.c:590-607 | a busy stream is disabled and waits, locked, for its interrupt |
| `Dma.Stream.PollForTransfer` | f765_0127_test_ok1/HAL/stm32f7xx_hal_dma.c:620-748 | for every sequence of status readings, success exactly if the level is read before any transfer error and none is left from before, the time-out exactly if neither is read, and failure otherwise; the errors noted and the flags left at the reading that ends the loop |
| `Dma.Stream.HandleHalf` | f765_0127_test_ok1/HAL/stm32f7xx_hal_dma.c:806-852 | the half-transfer branch calls back for the memory in use |
| `Dma.Stream.HandleComplete` | f765_0127_test_ok1/HAL/stm32f7xx_hal_dma.c:853-931 | the transfer-complete branch: end of an abort, callback for the memory just completed, or end of the transfer |
| `Dma.Stream.IRQHandler` | f765_0127_test_ok1/HAL/stm32f7xx_hal_dma.c:756-965 | which callbacks run in which order, which flags are noted as which errors and cleared, which interrupts are disabled, and that the handle becomes ready and unlocked exactly when a transfer, an abort or an erroneous transfer is over, the last with its stream disabled |
| `Dma.Stream.RegisterCallback` | f765_0127_test_ok1/HAL/stm32f7xx_hal_dma.c:977-1027 | only on a ready handle, lock restored; an unknown identifier is accepted and ignored |
| `Dma.Stream.UnRegisterCallback` | f765_0127_test_ok1/HAL/stm32f7xx_hal_dma.c:1037-1095 | only on a ready handle, lock restored; one or all callbacks, and an error for an unknown identifier |
| `Dma.Balanced` | f765_0127_test_ok1/HAL/stm32f7xx_hal_dma.c:416-509 | where starts and releases take turns, every start but one still going on has been released |
| `Dma.Stream.Perform` | f765_0127_test_ok1/HAL/stm32f7xx_hal_dma.c:416-509 | a start succeeds and takes the lock exactly on a ready handle; the lock is released by completion, abort, error, polling or reset, each exactly when stated, and by nothing else |
| `Dma.Stream.Run` | f765_0127_test_ok1/HAL/stm32f7xx_hal_dma.c:187-965 | over any interleaving of calls and interrupts a start succeeds exactly on a ready handle, starts and releases take turns and balance but for a transfer still going on, BUSY implies locked, locked implies BUSY or ABORT, and a READY handle is unlocked |
| `Flash.CulpritIsLastStarted` | f765_0127_test_ok1/HAL/stm32f7xx_hal_flash.c:325-397 | a failure is put down to the sector started last exactly unless the last sector of all has just ended, and to the sector under way when the interrupt came exactly if that one has not ended |
| `Flash.Controller.EraseIT` | f765_0127_test_ok1/HAL/stm32f7xx_hal_flash_ex.c:252-299 | locked and under way with the first sector, or BUSY and unchanged |
| `Flash.Controller.MassEraseIT` | f765_0127_test_ok1/HAL/stm32f7xx_hal_flash_ex.c:252-299 | locked and under way, or BUSY and unchanged |
| `Flash.StoresProgram` | f765_0127_test_ok1/HAL/stm32f7xx_hal_flash.c:667-774 | each byte of the unit programmed goes to its own address and nothing anywhere else, a double word in two writes |
| `Flash.Controller.ProgramIT` | f765_0127_test_ok1/HAL/stm32f7xx_hal_flash.c:249-305 | each byte of the datum written to its address, locked and under way, or BUSY and unchanged |
| `Flash.Controller.HandleEnd` | f765_0127_test_ok1/HAL/stm32f7xx_hal_flash.c:325-384 | the end-of-operation part of the handler |
| `Flash.Controller.HandleFailure` | f765_0127_test_ok1/HAL/stm32f7xx_hal_flash.c:386-421 | the error part of the handler and FLASH_SetErrorCode |
| `Flash.Controller.IRQHandler` | f765_0127_test_ok1/HAL/stm32f7xx_hal_flash.c:311-435 | all combinations of flags and procedures, with errors that starting the next sector raises while the handler runs; the lock and the interrupts are held exactly while a procedure is under way |
| `Flash.Controller.EraseStep` | f765_0127_test_ok1/HAL/stm32f7xx_hal_flash.c:311-435 | what one interrupt makes of an erasure k sectors on, the start of the next sector failing at once included |
| `Flash.Controller.EraseByInterrupts` | f765_0127_test_ok1/HAL/stm32f7xx_hal_flash_ex.c:252-299 | n sectors are erased once each in order and reported, the last as 0xFFFFFFFF; a failure anywhere, on being started or later, stops, reports that sector and unlocks |
| `Flash.Controller.EraseExactly` | f765_0127_test_ok1/HAL/stm32f7xx_hal_flash.c:333-359 | an erasure ends after its n sectors exactly if n is not 0; with 0 the first sector is erased all the same and the procedure goes on until the count has come round at 2^32 |
| `Flash.Controller.OneOperation` | f765_0127_test_ok1/HAL/stm32f7xx_hal_flash.c:362-380 | a programming or mass erasure reports its address, or 0, to the right callback and unlocks |
| `Flash.Controller.WaitForLastOperation` | f765_0127_test_ok1/HAL/stm32f7xx_hal_flash.c:610-653 | status and error code for each outcome |
| `Flash.Controller.Erase` | f765_0127_test_ok1/HAL/stm32f7xx_hal_flash_ex.c:174-243 | the polling form erases in order up to the first failing sector, which it names, and unlocks |
| `Flash.Controller.ProgramPolling` | f765_0127_test_ok1/HAL/stm32f7xx_hal_flash.c:180-238 | success exactly when neither the earlier nor this operation fails; the datum is written exactly if the earlier one has not failed; the lock is released |
| `CanFrames.RoundTrip` | f765_0127_test_ok1/HAL/stm32f7xx_hal_can.c:1561-1587 | what transmit writes over any earlier mailbox contents is read back as the same frame |
| `CanFrames.RoundTripAlways` | f765_0127_test_ok1/HAL/stm32f7xx_hal_can.c:732-761 | for all earlier contents exactly for the frames with fields in range |
| `CanFrames.RequestAsks` | f765_0127_test_ok1/HAL/stm32f7xx_hal_can.c:786-787 | the mailbox transmitted asks for transmission, and bits of its length register that are no part of a frame are as they were |
| `CanFrames.RequestHolds` | f765_0127_test_ok1/HAL/stm32f7xx_hal_can.c:732-761 | and its registers hold the frame: identifier from bit 21 or bit 3 on, IDE in bit 2, RTR in bit 1, length in bits 3 to 0, data byte i in byte i |
| `CanFrames.DecodeHolds` | f765_0127_test_ok1/HAL/stm32f7xx_hal_can.c:1561-1587 | what is decoded is the one frame the registers hold in that layout |
| `CanFrames.HoldsDelivered` | f765_0127_test_ok1/HAL/stm32f7xx_hal_can.c:1561-1587 | a frame held by a transmit mailbox is what a receiver decodes, whatever filter matched and whenever |
| `CanFrames.DecodedInRange` | f765_0127_test_ok1/HAL/stm32f7xx_hal_can.c:1561-1587 | what is decoded always has its fields in range |
| `Can.PendingBijective` | f765_0127_test_ok1/HAL/stm32f7xx_hal_can.c:764-778 | the busy states and READY encode the sets of pending operations one to one |
| `Can.Switches` | f765_0127_test_ok1/HAL/stm32f7xx_hal_can.c:1499-1536 | each state switch adds or removes its operation exactly on the states it is meant for, and elsewhere forgets what was pending |
| `Can.Settles` | f765_0127_test_ok1/HAL/stm32f7xx_hal_can.c:1217-1292 | whatever pending operations end in one interrupt, exactly those are removed and the error interrupts stay enabled exactly while something is pending |
| `Can.SentAccounts` | f765_0127_test_ok1/HAL/stm32f7xx_hal_can.c:702-808 | in the abstract machine the frames accepted are the frames carried over the bus, in order, and at most one outstanding |
| `Can.ReceivedInOrder` | f765_0127_test_ok1/HAL/stm32f7xx_hal_can.c:1546-1661 | in the abstract machine messages are received in the order they arrived, none left out and none twice |
| `Can.ReceivedAccounts` | f765_0127_test_ok1/HAL/stm32f7xx_hal_can.c:1006-1102 | in the abstract machine every reception accepted is completed once, but one still pending |
| `Can.Handle.TransmitIT` | f765_0127_test_ok1/HAL/stm32f7xx_hal_can.c:702-808 | the first empty mailbox holds the frame with its request bit set, and the state; with a transmission pending already, a pending reception is forgotten |
| `Can.Handle.ReceiveIT` | f765_0127_test_ok1/HAL/stm32f7xx_hal_can.c:1006-1102 | refused exactly while that reception is pending, otherwise added with its interrupts |
| `Can.Handle.TransmitDone` | f765_0127_test_ok1/HAL/stm32f7xx_hal_can.c:1499-1536 | state, enables and callback at the end of a transmission, in any state |
| `Can.Handle.ReceiveDone` | f765_0127_test_ok1/HAL/stm32f7xx_hal_can.c:1546-1661 | the oldest message is decoded, released and told; state and enables, in any state |
| `Can.Handle.EndOfTransmission` | f765_0127_test_ok1/HAL/stm32f7xx_hal_can.c:1246-1273 | a completed transmission is ended; the failure branch cannot be taken, so the TXFAIL code is never set |
| `Can.Handle.ManageErrors` | f765_0127_test_ok1/HAL/stm32f7xx_hal_can.c:1293-1399 | any error ends all operations and disables all interrupts |
| `Can.Handle.IRQHandler` | f765_0127_test_ok1/HAL/stm32f7xx_hal_can.c:1217-1400 | in any state at all, exactly the ends whose flags are up and enabled are made, and an error gives everything up |
| `Can.Handle.Interrupt` | f765_0127_test_ok1/HAL/stm32f7xx_hal_can.c:1217-1400 | an interrupt without error does to the handle what the abstract step does |
| `Can.Handle.Perform` | f765_0127_test_ok1/HAL/stm32f7xx_hal_can.c:702-808 | each request, event and interrupt does to the handle what the abstract step does |
| `Can.Handle.Run` | f765_0127_test_ok1/HAL/stm32f7xx_hal_can.c:702-808 | over any run without errors, with a new transmission only when none is pending, the handle ends showing the abstract machine: the state encodes the operations asked for and not completed, mailbox 0 asks for transmission exactly while its frame is on the bus, only frames asked for go over it, FIFO interrupts are enabled exactly for pending receptions, error interrupts exactly when something is pending, a pending transmission has its interrupt, messages are received in order of arrival, and requests accepted are completions plus what is pending |

## Left out

- The block ciphers and the multiplication of GHASH: uninterpreted functions of what is fed.
- Key derivation, the DMA forms, CMAC, and the suspension of the GCM phases.
- The build with the NPBLB field of the AES control register.
- The AES error interrupt (HAL_CRYP_IRQHandler, read and write errors): no part of the runs modelled.
- Bytes outside the whole words of input and output: a partial block is read and stored in whole words, as the code does, and callers must provide them.
- `AesBlocks`, `CrypFifo`: buffers are sequences and arrays of words, so that a pointer moves in words while counters stay in bytes; unaligned buffers are not modelled.  An input buffer is a sequence, so that in-place encryption is not.
- CrypFifo.Processor.EncryptIT: operations of zero bytes, for which the 16-bit counters wrap round, are not modelled; the documentation asks for a multiple of 16.
- CrypFifo.Processor.ProcessData: starts with at most one block in flight.  With two, both perhaps unprocessed, its first write finds the input FIFO full; the loop does not look, and what the hardware then does with the words is not in the source.
- CrypFifo.Processor.Encrypt: the same.
- CrypFifo.Processor.EncryptByInterrupts: the same bound; READY with two blocks in flight takes such a write first.
- CrypDriver.Handle.AuthService: suspension requests in the GCM phases are not modelled; resuming them depends on the caller setting up the remaining header as a new one.
- The other modes, directions and ciphers of the FIFO processor: the same loops with other register set-up.
- The CCM payload: the same FIFO loop.  CCM with a wrong nonce or tag length is not modelled.
- Dcmi.Camera.Capture: a capture that starts on memory 1 is followed to its first chunk only.
- Suspending, resuming, stopping and cropping of captures, and the other interrupts of the camera interface.
- Dma.Stream.Run: the callbacks are recorded and do not call back into the driver; the polling multi-buffer start, which breaks the invariant, is not among its operations.
- DMA: the FIFO parameter table (one flag says whether it accepts), burst and priority settings.
- Flash: voltage ranges and option bytes; the memory itself is the record of what is written to it.  A mass erase by polling is not modelled.
- Can.Handle.Run: transmissions are issued only when none is pending, and interrupts find no error; the other cases are in TransmitIT and IRQHandler, which state what happens then.
- CAN: polling transmission and reception, filters, sleep and wake-up; the individual bus errors are one flag.  What is on the bus is any mailbox contents.
- Clocks, MSP initialisation, memory barriers, assert_param and the remaining peripherals.
