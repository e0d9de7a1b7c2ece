# RFID_RP monitors: a Dafny model

This project models the core of the two Raspberry Pi monitors in RFID_RP. Both
read an MR793200 RFID sensor tag over SPI.

- **`mr793200.dfy`**: the MR793200 SPI controller, `mr793200_controller`. It
  covers the opcodes, the frames built by `read_nvm1`, `read_nvm4`, `write_nvm`
  and `enable_write_nvm`, and how `read_nvm1` and `read_nvm4` decode a reply.
  The full-duplex `spi.xfer2` exchange is a parameter: each read takes the
  reply bytes and appends the frame it sends to the controller's `sent` log.
- **`pca9539.dfy`**: the PCA9539 I/O expander driver of the battery monitor,
  `PCA9539Controller`. It covers `open`, `write_reg`, `read_reg`,
  `init_device`, `set_outputs_16` and `shutdown_safe`.
  - Each bus call consumes one entry of a reply script. An entry is either the
    byte the device answers or a `Fault`, which stands for the exception
    smbus2 would raise.
  - Every bus operation attempted is logged in `ops`.
  - A raising call aborts the rest of a `try` block, exactly as in the code.
- **`battery.dfy`**: the battery monitor, `src/battery/main_rp.py`.
  - One iteration of `gpio_poll_task`: VDET edges drive RESET and start the
    PCA9539 initialisation.
  - The Hot Reset button, including its refusal when VDET is low.
  - One pass of `spi_reader_task`:
    - it reads nine user-memory words with `read_nvm1`;
    - it decodes the sixteen on/off channels and their temperatures;
    - it writes the on/off mask to the PCA9539, but only when the output gate
      is open.
  - The Stop and window-close teardown.
  - The lower status labels.
- **`driver.dfy`**: the driver monitor, `src/driver/main_rp.py`.
  - One cycle of `MR793200Poller._run`:
    - it reads two words in block mode;
    - it splits each word into four 4-bit fields, one per seat: FL, FR, RL, RR;
    - a fan field of 0xB..0xF, or a seat-heater field of 0x4..0xF, is replaced
      by the previous value;
    - it stores and publishes the result.
  - The once-only `safe_cleanup` flag, and `start`/`stop`.
  - The fan and seat bar colouring (`set_fan_bars_color_and_active`,
    `set_seat_bars_color_and_active`, `off_all_bars`) and the "update"
    message handler, over abstract colours.
- **`base.dfy`**: Python's `bytearray.hex()`, `str.upper()` and `int(s, 16)`,
  which the code uses to move words between bytes and text.

Bytes are ints in 0..255. Python's `& 0xFF` is `% 256`, and `>> n` is n floor
halvings. Both agree with Python for negative ints too.

Three places where the code is followed:

- `read_nvm4` sends the READ_NVM1 opcode (0x10), not READ_NVM4. Each word comes
  back in a 4-byte block: data, then status.
- The battery Stop sequence writes the outputs to 0 through `set_outputs_16`
  only when the PCA9539 is initialized. It leaves the bus open.
  `shutdown_safe` runs only when the window closes.
- `MR793200Poller.start` re-arms the cleanup flag but keeps `prev_fan` and
  `prev_seat` from the previous run.

## Model

| member | source | states |
|---|---|---|
| Base.ToHex | src/mr793200/mr793200_controller.py:29 | bytearray.hex() writes two characters per byte |
| Base.Upper | src/mr793200/mr793200_controller.py:68 | on ASCII text, str.upper() keeps the length and turns each of a-z into its capital in place, leaving every other character as it is |
| Base.UpperIdempotent | src/driver/main_rp.py:189 | upper-casing the already upper-case text of read_nvm4 again changes nothing |
| Base.DigitsOfHex | src/battery/main_rp.py:349 | reading the hex text of any byte string back as base-16 digits gives its big-endian value |
| Base.HexRoundTrip | src/battery/main_rp.py:349 | int(b.hex(), 16) is the big-endian value of b for every non-empty b |
| Base.DigitsValueUpper | src/driver/main_rp.py:202 | the value of a digit string does not depend on the case of its letters a-f |
| Base.HexValueDefined | src/driver/main_rp.py:208-209 | int(s, 16) on ASCII text succeeds exactly when the text is non-empty and every character is one of 0-9, a-f, A-F |
| Base.DigitsValueDefined | src/battery/main_rp.py:349 | a digit string has a base-16 value exactly when every character is one of 0-9, a-f, A-F |
| Base.HexValueUpper | src/driver/main_rp.py:202 | on ASCII text, int(s.upper(), 16) == int(s, 16), including where both raise |
| Base.HexPairValue | src/driver/main_rp.py:208 | the upper-cased hex of a two-byte word reads back as 256*hi + lo |
| Base.HexWords | src/driver/main_rp.py:208-209 | characters [0, 4) and [4, 8) of the upper-cased hex of four bytes read back as the first and second big-endian words |
| Mr793200.BitOr | src/mr793200/mr793200_controller.py:25 | a \| b on non-negative ints is at least each operand and at most their sum |
| Mr793200.BitOrNibble | src/mr793200/mr793200_controller.py:25 | OR-ing a bank number below 16 into an opcode with a clear low nibble adds it |
| Mr793200.BitOrDisjoint | src/mr793200/mr793200_controller.py:25 | OR-ing a value below 2^n into a multiple of 2^n adds the two |
| Mr793200.Slice | src/mr793200/mr793200_controller.py:28 | Python slicing: the exact slice in range, truncated at the end, empty past the end or when reversed |
| Mr793200.Nvm1Request | src/mr793200/mr793200_controller.py:25 | the read_nvm1 frame: opcode or bank, address, then zeros to 4 + 2*word_len bytes |
| Mr793200.Nvm1Data | src/mr793200/mr793200_controller.py:25-29 | read_nvm1 keeps at most two bytes per requested word |
| Mr793200.DecodeNvm1 | src/mr793200/mr793200_controller.py:26-28 | the accumulating loop yields exactly Nvm1Data |
| Mr793200.Nvm1DataWhole | src/mr793200/mr793200_controller.py:28 | on a reply long enough, word i is taken from reply bytes 4+4i and 5+4i (4-byte stride) |
| Mr793200.Nvm1SlotShape | src/mr793200/mr793200_controller.py:28 | slot i is raw reply bytes 4i+4 and 4i+5 when the reply reaches byte 4i+5, and empty when the reply ends before byte 4i+4 |
| Mr793200.Nvm1ShortWord | src/mr793200/mr793200_controller.py:25-28 | a five-byte reply leaves only reply byte 4 for the one word read (the slice is clamped) |
| Mr793200.Nvm1DataFrameLength | src/mr793200/mr793200_controller.py:25-28 | on the reply to its own frame, read_nvm1 recovers only the first ceil(n/2) words, at stride 4 |
| Mr793200.Nvm1LosesWords | src/mr793200/mr793200_controller.py:25-29 | with word_len >= 2 the result is shorter than 2*word_len bytes: words are lost |
| Mr793200.Nvm1SingleWord | src/mr793200/mr793200_controller.py:43 | with one word the result is exactly reply bytes 4 and 5 |
| Mr793200.Nvm4Request | src/mr793200/mr793200_controller.py:54 | the read_nvm4 frame: READ_NVM1 or bank, address, then zeros to 4 + 4*word_len bytes |
| Mr793200.Nvm4Data | src/mr793200/mr793200_controller.py:60-66 | word i of the result is reply bytes 4+4i and 5+4i |
| Mr793200.DecodeNvm4 | src/mr793200/mr793200_controller.py:57-66 | IOError with the length exactly when the reply is shorter than 4 + 4*word_len, otherwise the data words |
| Mr793200.EnableWriteFrameBytes | src/mr793200/mr793200_controller.py:34 | enable_write_nvm sends C0 00 00 01 |
| Mr793200.WriteNvmFrames | src/mr793200/mr793200_controller.py:36-39 | one frame per whole word: WRITE_NVM or bank, address lsb + 2i, then data bytes 2i and 2i+1 |
| Mr793200.WriteNvmCarries | src/mr793200/mr793200_controller.py:37-39 | the first k frames carry exactly the first 2k data bytes, in order |
| Mr793200.FrameCarries | src/mr793200/mr793200_controller.py:39 | write frame i carries data bytes 2i and 2i+1 |
| Mr793200.CarriedInOrder | src/mr793200/mr793200_controller.py:38-39 | frames whose i-th one carries data bytes 2i and 2i+1 carry, over the first k frames, exactly the first 2k data bytes in order |
| Mr793200.WriteNvmDropsOddByte | src/mr793200/mr793200_controller.py:37 | an odd trailing data byte is never sent |
| Mr793200.Mr793200Controller.constructor | src/mr793200/mr793200_controller.py:17-22 | a new controller has sent nothing |
| Mr793200.Mr793200Controller.ReadNvm1 | src/mr793200/mr793200_controller.py:24-29 | sends the read_nvm1 frame and returns the hex of Nvm1Data |
| Mr793200.Mr793200Controller.EnableWriteNvm | src/mr793200/mr793200_controller.py:33-34 | sends the SPI_EXCL frame and nothing else |
| Mr793200.Mr793200Controller.WriteNvm | src/mr793200/mr793200_controller.py:36-40 | sends WriteNvmFrames in order |
| Mr793200.Mr793200Controller.ReadNvm4 | src/mr793200/mr793200_controller.py:51-68 | sends the block frame; fails exactly on a short reply, otherwise returns the upper-case hex of the data words |
| Mr793200.Mr793200Controller.ReadModelNumber | src/mr793200/mr793200_controller.py:42-43 | one word at 0x0418; on a whole reply, the hex of reply bytes 4 and 5 |
| Mr793200.Mr793200Controller.ReadNvmUserMemory | src/mr793200/mr793200_controller.py:45-46 | read_nvm1 at 0x0422 |
| Mr793200.Mr793200Controller.WriteNvmUserMemory | src/mr793200/mr793200_controller.py:48-49 | write_nvm at 0x0422 plus the offset |
| Mr793200.Nvm4HexLength | src/mr793200/mr793200_controller.py:68 | a successful read_nvm4 returns exactly 4 hex characters per word |
| Pca9539.FirstFault | src/battery/main_rp.py:148-177 | the index of the first raising bus call: every earlier call answered, this one raised |
| Pca9539.Attempted | src/battery/main_rp.py:148-177 | the calls a try block makes: a prefix of its plan, and the whole plan exactly when nothing raises before the last call |
| Pca9539.AttemptedStops | src/battery/main_rp.py:148-177 | once a step raises, nothing after it is attempted |
| Pca9539.AttemptedGoesOn | src/battery/main_rp.py:148-177 | after a step completes, the rest of the block runs on the remaining replies |
| Pca9539.PairSteps | src/battery/main_rp.py:151-154 | write two registers, then read both back |
| Pca9539.InitCheckIsEcho | src/battery/main_rp.py:168-170 | init's all-zero read-back test holds exactly when every read returns the value just written |
| Pca9539.Out0 | src/battery/main_rp.py:188 | out0 is the remainder of a non-negative mask after whole multiples of 256 |
| Pca9539.Out1 | src/battery/main_rp.py:189 | for a 16-bit mask, out1 is the number of whole 256s in it |
| Pca9539.InitVerified | src/battery/main_rp.py:140-177 | init succeeds exactly when the bus is (or gets) open, all twelve register calls answer, and every read-back equals the value just written |
| Pca9539.SplitMask | src/battery/main_rp.py:188-189 | out0 + 256*out1 == mask16 for every 16-bit mask |
| Pca9539.SplitMaskLow16 | src/battery/main_rp.py:188-189 | for any int, the two banks hold the mask's low 16 bits |
| Pca9539.OutputSteps | src/battery/main_rp.py:191-195 | set_outputs_16 writes OUT0 and OUT1 with the two banks, then reads both back |
| Pca9539.OutputCheckIsEcho | src/battery/main_rp.py:196 | the output test holds exactly when both reads echo the writes |
| Pca9539.Pca9539Controller.constructor | src/battery/main_rp.py:106-110 | bus 1, address 0x74, closed, not initialized |
| Pca9539.Pca9539Controller.Open | src/battery/main_rp.py:112-120 | a no-op on an open bus; otherwise open exactly when SMBus() succeeds |
| Pca9539.Pca9539Controller.WriteReg | src/battery/main_rp.py:122-129 | logs the write of val & 0xFF; succeeds exactly when the bus is open and the device answers |
| Pca9539.Pca9539Controller.ReadReg | src/battery/main_rp.py:131-138 | succeeds exactly when open and answered, returning the byte read |
| Pca9539.Pca9539Controller.WritePairReadBack | src/battery/main_rp.py:151-154 | attempts the four steps until one raises; completes exactly when none does, returning both reads |
| Pca9539.Pca9539Controller.InitDevice | src/battery/main_rp.py:140-177 | initialized and the result are both "opened, all 12 calls answered, all six reads zero"; the log holds the calls made up to the first failure |
| Pca9539.Pca9539Controller.SetUpRegisters | src/battery/main_rp.py:150-171 | on an open bus, logs the register calls made up to the first failure; succeeds exactly when all twelve calls are answered and all six reads return zero |
| Pca9539.Pca9539Controller.SetOutputs16 | src/battery/main_rp.py:179-202 | refuses when closed or uninitialized; otherwise succeeds exactly when all steps answer and both reads echo, and then the outputs read back as the mask's low 16 bits |
| Pca9539.Pca9539Controller.ShutdownSafe | src/battery/main_rp.py:204-225 | on an open bus: OUT0 low, OUT1 low unless the first write raised, then close; always ends closed and uninitialized |
| Battery.UserAddrsStep | src/battery/main_rp.py:74 | the nine user-memory words are 0x22 + 2k |
| Battery.Released | src/battery/main_rp.py:432-442 | RESET goes high; the PCA is initialized if it was already or init succeeds, and i2c_ready then says so |
| Battery.Poll | src/battery/main_rp.py:420-447 | the sample becomes the tracked level; on an edge RESET follows the new level; the PCA becomes initialized only on a rising edge with init succeeding; i2c_ready changes only on a rising edge, to the PCA's state |
| Battery.PollCases | src/battery/main_rp.py:420-447 | the first sample is only recorded; no edge changes nothing; a falling edge drives RESET low; a rising edge releases RESET |
| Battery.HotReset | src/battery/main_rp.py:621-656 | with VDET high, pulse RESET low and release it; with VDET low, hold RESET low and leave the rest |
| Battery.PollKeepsReady | src/battery/main_rp.py:436-442 | i2c_ready never holds without an initialized PCA, across poll steps and hot resets |
| Battery.PollKeepsResetSafe | src/battery/main_rp.py:443-446 | after a poll step RESET is never high while VDET is low, and a low sample leaves RESET not high |
| Battery.HotResetBeforePoll | src/battery/main_rp.py:621-656 | a hot reset can release RESET while the tracked VDET is still low (until the next poll step) |
| Battery.SteadyLevel | src/battery/main_rp.py:425-428 | samples equal to the tracked level change nothing |
| Battery.RunKeepsResetSafe | src/battery/main_rp.py:420-458 | any run of poll steps keeps both invariants |
| Battery.Startup | src/battery/main_rp.py:707-712 | main records the VDET level and RESET low, establishing both invariants |
| Battery.HighAtStartupKeepsReset | src/battery/main_rp.py:425-442 | VDET already high at start and staying high never releases RESET nor readies I2C |
| Battery.ParseWord | src/battery/main_rp.py:349 | int(hex, 16) & 0xFFFF: a 16-bit value exactly when the text parses |
| Battery.Word | src/battery/main_rp.py:348-349 | the word a reply yields is 16-bit |
| Battery.WordIsParsedHex | src/battery/main_rp.py:348-349 | parsing read_nvm1's one-word hex gives 256*reply[4] + reply[5]; a 5-byte reply gives reply[4]; shorter raises |
| Battery.WholeWordParses | src/battery/main_rp.py:348-349 | a reply of six bytes or more parses to 256*reply[4] + reply[5] |
| Battery.OddByteParses | src/battery/main_rp.py:348-349 | a five-byte reply parses to reply[4] |
| Battery.TempOf | src/battery/main_rp.py:368-374 | a channel's temperature is a byte |
| Battery.TempAddrIsRead | src/battery/main_rp.py:353-370 | the address a channel looks up is one of the words read, 0x24 + 2*(idx/2) |
| Battery.ChannelExample | src/battery/main_rp.py:358-374 | channel 0 is bit 0 and its temperature the low byte; channel 1 is bit 1 with the high byte |
| Battery.ChannelOn | src/battery/main_rp.py:359 | channel idx is on exactly when the word's remainder modulo 2^(idx+1) reaches 2^idx |
| Battery.BitIsRemainder | src/battery/main_rp.py:359 | (w >> n) & 1 is 1 exactly when w mod 2^(n+1) >= 2^n, for every int w, negative ones included |
| Battery.ShrHigh | src/battery/main_rp.py:359 | shifting past the low k bits leaves the high part |
| Battery.ChannelIsOutputPin | src/battery/main_rp.py:358-380 | the light of channel idx equals the PCA9539 pin the mask drives: bit idx of OUT0, or bit idx-8 of OUT1 |
| Battery.TempIsByte | src/battery/main_rp.py:371-374 | odd-numbered channels show the word's low byte and even-numbered ones its high byte |
| Battery.FirstBadWord | src/battery/main_rp.py:346-355 | the first read whose parse raises: every earlier read parses |
| Battery.CycleFrames | src/battery/main_rp.py:348-355 | the frames of a pass: read_nvm1 of one word at 0x22, 0x24, ... in order |
| Battery.LevelLabel | src/battery/main_rp.py:462-477 | "High", "Low" or "-", each exactly for its level |
| Battery.I2cLabel | src/battery/main_rp.py:480-493 | each of the three statuses shows exactly for its VDET/RESET combination, green exactly for "Succeeded." |
| Battery.Gate | src/battery/main_rp.py:379 | an open output gate implies RESET is not high with VDET low, and i2c_ready implies an initialized PCA |
| Battery.GateShowsSucceeded | src/battery/main_rp.py:379 | whenever the output gate is open the I2C label reads "Succeeded." |
| Battery.AppState.constructor | src/battery/main_rp.py:231-263 | nothing recorded, nothing running, all lights off and temperatures blank |
| Battery.AppState.RecordStartup | src/battery/main_rp.py:707-712 | records the VDET sample and RESET low; the reader's controller and both running flags are unchanged |
| Battery.AppState.PollStep | src/battery/main_rp.py:420-453 | the tracked status moves by Poll; RESET is written only on an edge; init runs only on a rising edge with the PCA uninitialized, and the bus is open afterwards exactly when it was or that init opened it; the reader's controller and both running flags are unchanged |
| Battery.AppState.HotResetClick | src/battery/main_rp.py:621-656 | moves by HotReset; RESET written low then high, or only low when VDET is low; the bus is open afterwards exactly when it was or the re-init opened it; the reader's controller and both running flags are unchanged |
| Battery.AppState.StartReader | src/battery/main_rp.py:334-344 | a fresh controller and a running reader, or nothing when construction fails; the RESET writes and the app flag are unchanged |
| Battery.AppState.ReadWord | src/battery/main_rp.py:348-349 | sends one read_nvm1 frame and yields Word of the reply |
| Battery.AppState.ReadWords | src/battery/main_rp.py:347-355 | reads in order up to and including the first raising word; all nine words when none raises |
| Battery.AppState.ShowChannels | src/battery/main_rp.py:358-376 | every light shows its bit and every temperature its byte |
| Battery.AppState.ReadCycle | src/battery/main_rp.py:346-382 | a pass that raises leaves lights, temperatures and the PCA untouched; a whole pass shows every channel and, when gated, writes the mask |
| Battery.AppState.FinishReader | src/battery/main_rp.py:392-404 | the reader's controller is dropped; the running flags and the RESET writes are unchanged |
| Battery.AppState.ClearChannels | src/battery/main_rp.py:592-597 | all lights off, all temperatures blank |
| Battery.AppState.Stop | src/battery/main_rp.py:579-608 | the reader stops, the channels clear, and the outputs go to 0 exactly when the PCA is initialized; the controller, the app flag and the RESET writes are unchanged |
| Battery.AppState.Close | src/battery/main_rp.py:663-682 | both tasks stop and the PCA is shut down safely; the tracked VDET/RESET levels, i2c_ready, the RESET writes and the controller are unchanged |
| Driver.Nibble | src/driver/main_rp.py:212-222 | a field is in 0..15 |
| Driver.Accept | src/driver/main_rp.py:226-231 | a field below the invalid range is kept; any other is replaced by the previous value |
| Driver.Fields | src/driver/main_rp.py:212-223 | every seat gets the field at its shift |
| Driver.Filtered | src/driver/main_rp.py:212-231 | every seat gets its field after carry-forward |
| Driver.FilteredBounded | src/driver/main_rp.py:226-231 | carry-forward keeps fan values in 0..10 and seat values in 0..3 |
| Driver.UpdateIsFiltered | src/driver/main_rp.py:226-235 | the loop result is Filtered, the update replaces every stored value, and the bound is kept |
| Driver.UserWordsOfHex | src/driver/main_rp.py:202-209 | a whole reply's text has eight characters, whose halves read back as the two data words |
| Driver.Published | src/driver/main_rp.py:224-235 | a run of cycles publishes one value per cycle for a seat |
| Driver.PublishedIsLastValid | src/driver/main_rp.py:226-235 | each published value is the last valid field so far, or the starting value |
| Driver.PublishedBounded | src/driver/main_rp.py:226-231 | published values stay below the invalid range |
| Driver.CarryForwardExample | src/driver/main_rp.py:226-231 | fan 3, 0xC, 5 publishes 3, 3, 5; seat 1, 4, 2 publishes 1, 1, 2 |
| Driver.Mr793200Poller.constructor | src/driver/main_rp.py:147-156 | previous values all 0, not cleaned up |
| Driver.Mr793200Poller.SafeCleanup | src/driver/main_rp.py:164-175 | the first call releases the pin and closes SPI when there is a controller; later calls do nothing |
| Driver.Mr793200Poller.Start | src/driver/main_rp.py:177-195 | re-arms cleanup, keeps previous values, and reads the TID (None exactly on a short reply) |
| Driver.Mr793200Poller.Stop | src/driver/main_rp.py:260-267 | requests the stop, then cleans up at most once |
| Driver.Mr793200Poller.CarryForward | src/driver/main_rp.py:226-231 | the in-place loop gives every seat Accept of its field |
| Driver.Mr793200Poller.ReadUserWords | src/driver/main_rp.py:202-209 | fails exactly on a short reply; otherwise the big-endian words at reply bytes 4-5 and 8-9 |
| Driver.Mr793200Poller.Cycle | src/driver/main_rp.py:200-238 | publishes Filtered of both words and stores it, or on a short reply publishes nothing and keeps the stored values; the bounds are kept |
| Driver.Mr793200Poller.NextLevels | src/driver/main_rp.py:211-235 | both words' fields after carry-forward are Filtered of the stored values, replace every stored value, and stay within bounds |
| Driver.Mr793200Poller.StoreLevels | src/driver/main_rp.py:211-235 | stores and returns Filtered of both words, keeps the stored values within bounds, and changes nothing else |
| Driver.FanPalette | src/driver/main_rp.py:118 | ten non-grey colours, light blue exactly when the seat heater is off |
| Driver.FanBarColors | src/driver/main_rp.py:113-120 | bar i has colour FAN_PALETTE_BY_SEAT[seat_level][i] when i < active_count, and grey otherwise |
| Driver.SeatBarColors | src/driver/main_rp.py:123-128 | bar i has colour SEAT_ORANGE_PALETTE[i] when i < level, and grey otherwise |
| Driver.FanBarsLit | src/driver/main_rp.py:113-120 | min(active_count, 10) fan bars lit, none for a negative count |
| Driver.SeatBarsLit | src/driver/main_rp.py:123-128 | min(level, 3) seat bars lit |
| Driver.PanelShowsLevels | src/driver/main_rp.py:433-445 | with stored values in range, a panel lights exactly its fan level and heater level |
| Driver.SetFanBars | src/driver/main_rp.py:113-120 | the first ten bars become FanBarColors; the rest are untouched |
| Driver.SetSeatBars | src/driver/main_rp.py:123-128 | the first three bars become SeatBarColors; the rest are untouched |
| Driver.Dashboard.constructor | src/driver/main_rp.py:83-110 | every bar starts grey and every seat's fan and heater values start at 0 |
| Driver.Dashboard.OffAllBars | src/driver/main_rp.py:131-139 | every fan and seat bar of every seat is grey |
| Driver.Dashboard.ShowUpdate | src/driver/main_rp.py:433-445 | each seat remembers its values and shows FanBarColors and SeatBarColors of them |

## Findings

| source | as written | input that shows it | evidently intended | confidence | as-written member | corrected member |
|---|---|---|---|---|---|---|
| src/mr793200/mr793200_controller.py:25-28 | read_nvm1 sizes its frame for 2 bytes per word but takes word i at a 4-byte stride | word_len = 2 with a 8-byte reply: word 1 would start past the end, so it returns 2 bytes instead of 4 | one 2-byte word per requested word, as read_nvm4 delivers by sizing the frame 4 + 4*word_len | medium, not executed | Mr793200.Nvm1LosesWords | Mr793200.Nvm4HexLength |

The application only ever calls `read_nvm1` with `word_len == 1`, where
`Mr793200.Nvm1SingleWord` shows it is exact. The driver monitor reads through
`read_nvm4`.

## Left out

- GPIO, SPI and I2C hardware are left out. RPi.GPIO, spidev and smbus2 are not
  part of this model.
  - Pin levels are inputs to the model.
  - SPI replies are byte sequences given to each read.
  - I2C replies are a script with one entry per bus call.
- Exceptions from `spi.xfer2` itself, from `spidev` construction and from
  `GPIO` calls are left out. A read either gets its reply or, in
  `read_nvm4`, raises for a short reply.
- The only I2C failure modelled is a raising call. The log records which calls
  are attempted, not what the smbus2 driver does with them.
- Timing and concurrency are left out: asyncio tasks, threads, `sleep`, the
  500 ms and 1 s periods, the 8 ms write delay, joins with timeouts, and the
  stop event. Each step runs to completion, and a stop takes effect between
  cycles.
- The Flet UI is reduced to what the code computes for it:
  - battery: light on/off per channel, temperature per channel, and the label
    texts;
  - driver: bar colours and stored values;
  - left out: images, layout, button enabling, text colours other than the
    I2C status, the TID text widget, and `page.update()`.
- Prints and logging are left out.
- Base.HexValueDefined: models `int(s, 16)` only for text of the characters 0-9,
  a-f and A-F. Python also accepts a sign, a `0x` prefix, underscores between
  digits and surrounding whitespace. The text parsed here always comes from
  `bytearray.hex()`, so it never has these.
- Base.Upper: models `str.upper()` on ASCII only. Python also maps non-ASCII
  letters, and some of them to several characters (`"ß".upper() == "SS"`),
  which changes the length. Only hex text is upper-cased here.
- The `__main__` test block of `mr793200_controller.py` is left out.
- Battery.AppState.Close: does not model the final GPIO cleanup of VDET/RESET
  or the window destruction. Both are I/O.
- Battery.AppState.ReadCycle: stores a temperature as its integer. It does
  not model the "°C" display string.
- Battery.AppState.HotResetClick: runs the pulse as one step. The 500 ms low
  phase, during which a poll step could interleave, is not modelled.
- Driver.Mr793200Poller.SafeCleanup: logs the cleanup attempts only. The code
  swallows a failure of either step and sets the flag anyway, so a failure
  changes nothing in the model's state.
- Driver.Mr793200Poller.Start: returns the TID instead of publishing it to
  the UI thread. The background thread's start is not modelled; `Cycle` is one
  iteration of its loop.
- Driver.Dashboard.ShowUpdate: takes complete per-seat maps. It does not
  model the `.get(name, 0)` default or the `int()` conversion: the poller
  always publishes all four seats as ints.
- The fan bars' heights (`FAN_BAR_HEIGHTS`, `SEAT_BAR_HEIGHTS`) are layout, and
  are left out.
