# ADXL345 accelerometer driver for the DE1-SoC: a Dafny model

The system is a small driver for the ADXL345 three-axis accelerometer on a DE1-SoC board. It
exists twice: as a Linux kernel module exposing `/dev/accel` (`ADXL345_driver.c`) and as a
user-space program that maps the same registers through `/dev/mem` (`ADXL345_user.c`). Both
route the I2C0 controller to the HPS pins (`mux_init`), bring the controller up with an
enable/disable handshake (`I2C0_OnOff`, `I2C0_Init`), talk to the ADXL345 through one
command/data FIFO register (`ADXL345_REG_WRITE`, `_REG_READ`, `_REG_MULTI_READ`), configure it
(`ADXL345_Init`), test its interrupt source (`ADXL345_IsDataReady`) and decode a six-byte sample
into three signed 16-bit axes (`ADXL345_XYZ_Read`). The kernel module's `accel_read` samples,
formats the line `"<new_data> <xmg> <ymg> <zmg> <mg_per_lsb>\n"` into a 32-byte buffer and hands
it out one character per call.

The model:

- `Registers` (registers.dfy): the ADXL345 register and bit constants, the I2C0 and system-manager
  register names (their offsets are symbolic), and `StartWord`, the `address + 0x400` word.
- `Hardware` (hardware.dfy): the two memory-mapped windows as classes. The I2C0 window keeps every
  store in order, answers ENABLE_STATUS reads from a scripted sequence, and holds the receive FIFO
  as a queue of words, each tagged with the tick at which the device's byte arrives. Each read of
  RXFLR takes one tick and reports how many bytes at the head of the queue have arrived.
- `Transactions` (transactions.dfy): what the DATA_CMD words mean on the bus. A sequence of
  transfers is encoded into words and decoded back, and `Decode(Encode(ts)) == Some(ts)` is
  proved. `WritesTo` gives the values each ADXL345 register receives, with the device's
  auto-incrementing register address.
- `Sample` (sample.dfy): the s16/u16 conversions, the axis decode of `ADXL345_XYZ_Read` with its
  inverse, and the milli-g scaling of `accel_read`.
- `Decimal` (decimal.dfy): the `%d` formatting that `sprintf` performs, and the bound showing the
  line fits in `reg_read`.
- `Protocol` (protocol.dfy): every routine once, as a function from the I2C0 window's state to the
  state after it and the routine's result, with lemmas stating what each routine does.
- `KernelDriver` (kernel_driver.dfy): the kernel module as a class over its globals (`XYZ`,
  `reg_read`, `new_data`, `xmg`, `ymg`, `zmg`, `ind_read`). Its methods keep the C loops (the
  ENABLE poll, the RXFLR spins, the token and drain loops) and are proved equal to the `Protocol`
  functions.
- `UserProgram` (user_program.dfy): the user-space copy with the same contracts.
- `Equivalence` (equivalence.dfy): runs each kernel routine and its user-space twin on two windows
  in the same state and shows they end in the same state with the same result.

Preconditions stand for the device's side of the protocol. A handshake needs more than 100
scripted ENABLE_STATUS values, because the loop reads the status up to 101 times: the status is read
before `poll_count < 100` is tested, so the test at poll_count == 100 still reads it. A read needs the device to supply as many bytes as the routine waits for.
Given those, every RXFLR spin terminates, because the tick count moves towards the awaited byte's
arrival.

`accel_read` returns the new cursor `ind_read`, not the number of bytes copied. The model does the
same: `CursorStep` and `KernelDriver.AccelDriver.Read` return the cursor.

## Model

| member | source | states |
|---|---|---|
| Registers.StartWord | ADXL345_driver.c:244 | the address word's low byte is the register address, its start bit 0x400 is set and its read bit 0x100 is clear |
| Registers.StartIsOr | ADXL345_driver.c:244 | `address + 0x400` equals `address \| 0x400` for every 8-bit address |
| Hardware.RxLevel | ADXL345_driver.c:251 | RXFLR never exceeds the queue length, and it is nonzero exactly when the head byte has arrived |
| Hardware.I2cWindow.Store | ADXL345_driver.c:225 | a store to an I2C0 register appends exactly that (register, value) to the log and changes nothing else |
| Hardware.I2cWindow.LoadEnableStatus | ADXL345_driver.c:227 | a read of ENABLE_STATUS returns the next scripted value and consumes it |
| Hardware.I2cWindow.LoadRxflr | ADXL345_driver.c:251 | a read of RXFLR returns the arrived-prefix length and advances the clock by one tick |
| Hardware.I2cWindow.LoadDataCmd | ADXL345_driver.c:254 | a read of DATA_CMD, allowed only while RXFLR is nonzero, pops and returns the head of the receive FIFO |
| Hardware.SysMgrWindow.Store | ADXL345_driver.c:157-159 | a store to a system-manager register appends exactly that store to the log |
| Transactions.DataCmdTraceGrows | ADXL345_driver.c:244-247 | appending DATA_CMD stores of some words appends exactly those words to the DATA_CMD trace |
| Transactions.CountOps | ADXL345_driver.c:269-275 | the words after a start word up to the next start word form one transfer |
| Transactions.EncodeAppend | ADXL345_driver.c:244-247 | the words of two transfer sequences issued one after the other are the words of the first followed by the words of the second |
| Transactions.DecodeEncode | ADXL345_driver.c:244-247 | decoding the DATA_CMD words of any sequence of transfers gives back exactly those transfers |
| Sample.ToInt16 | ADXL345_driver.c:304 | storing a 16-bit pattern into an s16 keeps the value modulo 2^16 |
| Sample.ToUint16 | ADXL345_driver.c:57 | reading an s16 through the u16 `XYZ` keeps the value modulo 2^16 |
| Sample.Int16RoundTrip | ADXL345_driver.c:57 | the s16 and u16 views of a 16-bit cell convert into each other without loss |
| Sample.AssembleAxis | ADXL345_driver.c:304-306 | `(hi << 8) \| lo` stored into an s16 is the signed value of `hi * 256 + lo` |
| Sample.Axis | ADXL345_driver.c:304-306 | the s16 holding `hi * 256 + lo`; `Sample.AssembleAxis` proves the C shift-or equal to it |
| Sample.Decode | ADXL345_driver.c:300-307 | three axes from six bytes, low byte first; it has exactly three axes, and `Sample.DecodeEncode` and `Sample.EncodeDecode` prove it a bijection with the little-endian layout |
| Sample.DecodeEncode | ADXL345_driver.c:300-307 | the decode is left-inverse to the little-endian byte layout: every X, Y, Z triple is recovered from its six bytes |
| Sample.EncodeDecode | ADXL345_driver.c:300-307 | the decode loses nothing: the six bytes are recovered from the three axes |
| Sample.DecodeExamples | ADXL345_driver.c:304-306 | `FF FF` decodes to -1, `01 80` to -32767, `10 00` to 16 |
| Sample.ScaleMg | ADXL345_driver.c:129-131 | `xmg` is the axis times mg_per_lsb modulo 2^16, read as signed, and exactly the product whenever that fits in an s16 |
| Decimal.NatToString | ADXL345_driver.c:137 | `%d` of a non-negative value is a non-empty digit string without leading zeros |
| Decimal.IntToString | ADXL345_driver.c:137 | `%d` of any value is non-empty and contains no NUL; a non-negative value prints as canonical digits (no leading zeros) denoting it, a negative one as `-` followed by canonical digits denoting its magnitude |
| Decimal.IntToStringNoLeadingZero | ADXL345_driver.c:137 | `%d` never pads: the first digit is '0' only when the value is 0, for negative values as well |
| Decimal.NatToStringValue | ADXL345_driver.c:137 | the printed digits denote the printed number |
| Decimal.Int16Width | ADXL345_driver.c:59 | an s16 prints in at most six characters |
| Decimal.FormatLine | ADXL345_driver.c:137 | the `"%d %d %d %d %d\n"` line: the five `%d` fields separated by spaces and ended by a newline; its length bound and lack of NUL are stated by `Decimal.LineFits`, the fields' values by `Decimal.IntToString` |
| Decimal.LineFits | ADXL345_driver.c:58 | with new_data in {0, 1} and a one-digit mg_per_lsb, the line has 10 to 25 characters and no NUL, so it fits in the 32-byte `reg_read` with its NUL |
| Protocol.IssuedTransfersDecode | ADXL345_driver.c:241-284 | the stores a routine issues extend the DATA_CMD trace by words that decode to exactly its transfers |
| Protocol.Polls | ADXL345_driver.c:227-231 | the final poll count is at most 100; the status bit stayed on every earlier read; below 100 it has moved on the last read |
| Protocol.OnOff | ADXL345_driver.c:219-238 | the handshake as a function of the window: `n + 1` ENABLE stores of `onoff` and `n + 1` status reads for the poll count `n`, result 1 iff `n < 10`; characterised by `Protocol.OnOffOutcome` and `Protocol.PollsIsFirstMove` |
| Protocol.OnOffOutcome | ADXL345_driver.c:219-238 | the handshake returns 1 exactly when the bit moves within the first ten reads, otherwise 0; it stores ENABLE, always with `onoff`, once per status read and 1 to 101 times; it stops at the first read whose bit has moved |
| Protocol.OnOffEarlyFlipSucceeds | ADXL345_driver.c:232-233 | a bit that moves on poll k < 10 gives success after k + 1 ENABLE stores |
| Protocol.OnOffLateFlipFails | ADXL345_driver.c:232-235 | a bit that moves on poll 10 to 99 still gives failure |
| Protocol.OnOffNeverFlipsFails | ADXL345_driver.c:227-235 | a bit that never moves gives 101 ENABLE stores and failure |
| Protocol.PollsIsFirstMove | ADXL345_driver.c:227 | the poll count is the index of the first status read whose bit has moved, or 100 |
| Protocol.MuxWritesEffect | ADXL345_driver.c:157-159 | mux_init stores I2C0USEFPGA = 0, then GENERALIO7 = 1, then GENERALIO8 = 1, each exactly once |
| Protocol.FastModeTiming | ADXL345_driver.c:183-186 | with a 10 ns controller clock, SCL high is 0.6 us + 0.3 us and low is 1.3 us + 0.3 us, which is a 2.5 us (400 kHz) period |
| Protocol.I2cInit | ADXL345_driver.c:163-196 | bring-up as a function of the window; characterised by `Protocol.I2cInitTrace`, `Protocol.I2cInitConfigures` and `Protocol.I2cInitDisableFailure` |
| Protocol.I2cInitTrace | ADXL345_driver.c:163-196 | bring-up stores ENABLE = 2 and runs the disable handshake; if that fails it returns 0 and has stored only ENABLE = 2; otherwise it stores CON, TAR, HCNT, LCNT, runs the enable handshake, and returns 1 exactly when that succeeds |
| Protocol.I2cInitConfigures | ADXL345_driver.c:178-195 | after a successful bring-up the last values stored are CON = 0x65, TAR = 0x53, FS_SCL_HCNT = 90, FS_SCL_LCNT = 160, ENABLE = 1 |
| Protocol.I2cInitDisableFailure | ADXL345_driver.c:171-174 | if the disable bit does not move within ten reads, bring-up returns 0 having stored nothing but ENABLE = 2 |
| Protocol.DrainClock | ADXL345_driver.c:277-283 | draining n bytes takes at least n polls of RXFLR |
| Protocol.DrainClockAfterArrivals | ADXL345_driver.c:277-283 | the drain loop ends only after every drained byte has arrived |
| Protocol.RegWrite | ADXL345_driver.c:258-262 | REG_WRITE as a function of the window; characterised by `Protocol.RegWriteTrace` |
| Protocol.RegRead | ADXL345_driver.c:241-255 | REG_READ as a function of the window, waiting until the head byte has arrived; characterised by `Protocol.RegReadTrace` |
| Protocol.MultiRead | ADXL345_driver.c:265-284 | MULTI_READ as a function of the window, with the drain loop's clock given by `Protocol.DrainClock`; characterised by `Protocol.MultiReadTrace` |
| Protocol.RegWriteTrace | ADXL345_driver.c:258-262 | REG_WRITE is exactly one write transfer `[address + 0x400, value]` and leaves the FIFO, status and clock alone |
| Protocol.RegReadTrace | ADXL345_driver.c:241-255 | REG_READ is exactly one read transfer `[address + 0x400, 0x100]`; it pops only the head byte, after that byte has arrived, and returns its low 8 bits |
| Protocol.MultiReadTrace | ADXL345_driver.c:265-284 | MULTI_READ is one start word and exactly `len` read tokens; `values[i]` is the i-th FIFO word masked to 8 bits; exactly `len` words are popped, each after it arrived |
| Protocol.Adxl345Init | ADXL345_driver.c:198-217 | the nine REG_WRITE calls of ADXL345_Init in order; characterised by `Protocol.Adxl345InitTrace` and `Protocol.InitSequenceEffect` |
| Protocol.Adxl345InitTrace | ADXL345_driver.c:198-217 | ADXL345_Init is the fold of REG_WRITE over INIT_SEQUENCE, so it issues exactly those nine write transfers in order and nothing else |
| Protocol.InitSequenceEffect | ADXL345_user.c:262-281 | the device receives DATA_FORMAT = 0x03, BW_RATE = 0x07, THRESH_ACT = 0x04, THRESH_INACT = 0x02, TIME_INACT = 0x02, ACT_INACT_CTL = 0xFF, INT_ENABLE = 0x18, POWER_CTL = 0x00 then 0x08, and no other register is written |
| Protocol.IsDataReady | ADXL345_driver.c:286-298 | ADXL345_IsDataReady as a function of the window; characterised by `Protocol.IsDataReadyOutcome` and `Protocol.IsDataReadyRx` |
| Protocol.IsDataReadyRx | ADXL345_driver.c:286-298 | a positive answer means the first INT_SOURCE byte has ACTIVITY, the second has DATAREADY, and exactly two FIFO words were consumed |
| Protocol.IsDataReadyOutcome | ADXL345_driver.c:286-298 | returns 1 exactly when the first INT_SOURCE byte has ACTIVITY (0x10) and the second has DATAREADY (0x80); one INT_SOURCE read when ACTIVITY is clear, two otherwise |
| Protocol.XyzRead | ADXL345_driver.c:300-307 | ADXL345_XYZ_Read as a function of the window; characterised by `Protocol.XyzReadOutcome` |
| Protocol.XyzReadOutcome | ADXL345_driver.c:300-307 | one six-byte burst read from 0x32; axis i (X, Y, Z) is the s16 whose low byte is FIFO byte 2i and whose high byte is FIFO byte 2i+1; exactly six words are popped |
| Protocol.IdRead | ADXL345_driver.c:310-312 | ADXL345_IdRead as a function of the window; characterised by `Protocol.IdReadOutcome` |
| Protocol.IdReadOutcome | ADXL345_driver.c:310-312 | one single-byte read of DEVID, returning its low byte |
| Protocol.SampleStep | ADXL345_driver.c:126-136 | the sampling half of accel_read; characterised by `Protocol.SampleStepOutcome` |
| Protocol.SampleStepOutcome | ADXL345_driver.c:126-136 | with data ready, new_data = 1, XYZ holds the axes of the burst bytes after the two INT_SOURCE answers and each mg value is 3 times its axis modulo 2^16; otherwise new_data = 0 and the previous XYZ and mg values are kept |
| Protocol.CursorStep | ADXL345_driver.c:140-146 | for any `length`: a call copies at most one character; a call that copies anything copies `line[ind]` and returns the cursor `ind + 1`; the cursor resets to 0 exactly at the NUL or on `length == 0`, and never passes the line's end |
| Protocol.DrainDeliversLine | ADXL345_driver.c:140-146 | successive one-byte reads from cursor i deliver the rest of the line in order, and the next call returns 0 |
| KernelDriver.AccelDriver.constructor | ADXL345_driver.c:54-59 | the globals start zeroed: `XYZ` is [0, 0, 0], new_data, xmg, ymg, zmg and ind_read are 0, and `reg_read` holds the empty line |
| KernelDriver.AccelDriver.MuxInit | ADXL345_driver.c:149-161 | stores exactly the three mux values, in order, and nothing else |
| KernelDriver.AccelDriver.OnOff | ADXL345_driver.c:219-238 | the poll loop leaves the window and returns the result specified by `Protocol.OnOff` |
| KernelDriver.AccelDriver.I2cInit | ADXL345_driver.c:163-196 | bring-up leaves the window and returns the result specified by `Protocol.I2cInit` |
| KernelDriver.AccelDriver.RegRead | ADXL345_driver.c:241-255 | the RXFLR spin terminates and the window and byte are those of `Protocol.RegRead` |
| KernelDriver.AccelDriver.RegWrite | ADXL345_driver.c:258-262 | the window is that of `Protocol.RegWrite` |
| KernelDriver.AccelDriver.Adxl345Init | ADXL345_driver.c:198-217 | the window is that of `Protocol.Adxl345Init` |
| KernelDriver.AccelDriver.MultiRead | ADXL345_driver.c:265-284 | both loops terminate; `values[..len]` and the window are those of `Protocol.MultiRead`; `values[len..]` is untouched |
| KernelDriver.AccelDriver.IsDataReady | ADXL345_driver.c:286-298 | the window and result are those of `Protocol.IsDataReady` |
| KernelDriver.AccelDriver.XyzRead | ADXL345_driver.c:300-307 | `szData16` and the window are those of `Protocol.XyzRead` |
| KernelDriver.AccelDriver.IdRead | ADXL345_driver.c:310-312 | the window and id are those of `Protocol.IdRead` |
| KernelDriver.AccelDriver.CopyOut | ADXL345_driver.c:140-146 | the cursor and the copied text follow `Protocol.CursorStep` and the return value is the new cursor; `reg_read` stays a NUL-terminated line |
| KernelDriver.AccelDriver.TakeSample | ADXL345_driver.c:126-138 | the globals and window after sampling are those of `Protocol.SampleStep`, and `reg_read` holds the formatted line and a NUL |
| KernelDriver.AccelDriver.StoreLine | ADXL345_driver.c:137 | `reg_read` holds the line formatted from new_data, xmg, ymg, zmg and mg_per_lsb, followed by its NUL, within the 32 bytes |
| KernelDriver.AccelDriver.Read | ADXL345_driver.c:124-147 | samples only when the cursor is 0; otherwise window, globals and line are unchanged; then cursor, copied text and return value follow `Protocol.CursorStep`, and `reg_read` stays a NUL-terminated line |
| UserProgram.UserProgram.MuxInit | ADXL345_user.c:147-159 | stores exactly the three mux values, like the kernel copy |
| UserProgram.UserProgram.OnOff | ADXL345_user.c:162-179 | the same window and result as `Protocol.OnOff`: at most 100 polls, 1 exactly when fewer than 10 |
| UserProgram.UserProgram.I2cInit | ADXL345_user.c:181-214 | the same trace and result as `Protocol.I2cInit` |
| UserProgram.UserProgram.RegRead | ADXL345_user.c:217-231 | the same trace and byte as `Protocol.RegRead` |
| UserProgram.UserProgram.RegWrite | ADXL345_user.c:234-238 | the same trace as `Protocol.RegWrite` |
| UserProgram.UserProgram.MultiRead | ADXL345_user.c:241-260 | the same trace and bytes as `Protocol.MultiRead` |
| UserProgram.UserProgram.Adxl345Init | ADXL345_user.c:262-281 | the same trace as `Protocol.Adxl345Init` |
| UserProgram.UserProgram.IsDataReady | ADXL345_user.c:283-295 | the same trace and result as `Protocol.IsDataReady`, testing 0x10 then 0x80 of register 0x30 |
| UserProgram.UserProgram.XyzRead | ADXL345_user.c:299-306 | the same burst read from 0x32 and decode as `Protocol.XyzRead` |
| UserProgram.UserProgram.IdRead | ADXL345_user.c:308-310 | the same trace and id as `Protocol.IdRead` |
| Equivalence.MuxInitAgrees | ADXL345_user.c:147-159 | the two mux_init copies leave equal system-manager logs |
| Equivalence.OnOffAgrees | ADXL345_user.c:162-179 | the two handshakes leave equal windows and return equal results |
| Equivalence.I2cInitAgrees | ADXL345_user.c:181-214 | the two bring-ups leave equal windows and return equal results for the same status script |
| Equivalence.RegReadAgrees | ADXL345_user.c:217-231 | the two REG_READs leave equal windows and return equal bytes |
| Equivalence.RegWriteAgrees | ADXL345_user.c:234-238 | the two REG_WRITEs leave equal windows |
| Equivalence.MultiReadAgrees | ADXL345_user.c:241-260 | the two MULTI_READs leave equal windows and fill equal bytes |
| Equivalence.Adxl345InitAgrees | ADXL345_user.c:262-281 | the two inits leave equal windows |
| Equivalence.IsDataReadyAgrees | ADXL345_user.c:283-295 | the two IsDataReady copies leave equal windows and return equal results |
| Equivalence.XyzReadAgrees | ADXL345_user.c:299-306 | the two XYZ_Read copies leave equal windows and fill equal axes |
| Equivalence.IdReadAgrees | ADXL345_user.c:308-310 | the two IdRead copies leave equal windows and return equal ids |

## Left out

- Character-device registration, `device_open`/`device_release`, the cdev/class lifecycle and the module's init and exit (ADXL345_driver.c:42-52, 61-121). These are kernel plumbing around the routines.
- `ioremap_nocache`/`iounmap`, `/dev/mem`, `mmap`/`munmap` and the fd helpers (ADXL345_user.c:107-144). These are operating-system I/O. The windows are given to the constructors instead.
- `main` of ADXL345_user.c (lines 42-105), with its SIGINT loop and the float `mg_per_lsb = 3.2` printed with `%d`. This is signal handling, floating point and undefined `printf` behaviour.
- `msleep`/`usleep` and every `printk`/`printf`, including their register reads in `mux_init` and `I2C0_Init`. None of them stores to a register.
- `put_user` and the user buffer: the character put is returned as `copied`. The `buffer++` and `length--` of the local copies are not observable.
- Real hardware timing. The device's answers are an input: the ENABLE_STATUS script, and the FIFO words with their arrival ticks.
- The RXFLR spins of ADXL345_driver.c:251-253 and 277-283 terminate only if the device answers. The model requires that the FIFO holds a word for every byte awaited; with no such word the C loops would spin forever.
- Register offsets: the header defining the `I2C0_*` and `SYSMGR_*` offsets is not part of this model, so they are distinct symbolic registers. The `ADXL345_*` constants of the kernel module come from the same header; the values at ADXL345_user.c:10-21 are used for both copies.
- The user-space window base addresses are not declared `volatile`. The model assumes every access is performed, as written.
- Protocol.OnOff: the handshake is modelled only for scripts of more than 100 ENABLE_STATUS values, enough for the longest run of the loop.
- Protocol.I2cInit: the same, with more than 201 values for its two handshakes.
