# Time-latch test driver: packet codec and serial channel, in Dafny

This project models the core of `timelatch`, a small Linux test program.
The program talks over a serial port to the time latch that gives a
telescope's CCD camera its time reference. It sends the
latch a 13-byte *trigger* frame: the header `$MC`, a 24-bit start delay, a
16-bit pulse width, a 16-bit pulse count, a checksum byte and CR LF. It
then decodes the 22-byte *timemark* frames the latch reports back: the
header, a serial number, the rising-edge date and time, the pulse width, a
checksum byte and CR LF. Both frames use the same checksum: the byte sum of
everything before the checksum byte, kept in a `uint8_t` and masked with
`0x7F`. Multi-byte fields are little-endian.

The serial channel `SerialComm` keeps two circular buffers of 2560 bytes.
The receive buffer is filled by asynchronous read completions of up to 512
bytes and drained by `Read`. The send buffer is filled by `Write` and
drained by asynchronous write completions. There is one callback slot per
direction.

The modules are:

- `Bytes` (`bytes.dfy`) holds the byte and integer types and the
  little-endian splitting of `uint32_u` and `uint16_u`. It also holds the
  checksum, three ways: an unbounded sum modulo 128 (`MaskedSum`), the
  wrapping `uint8_t` accumulator masked by a bitwise AND (`WrapSum`,
  `Mask7F`), and the loop over an array prefix that `complete()` and
  `is_valid()` both run (`MaskedChecksum`). They are proved equal.
- `TimeLatch` (`timelatch.dfy`) models the two frame structs as classes over
  their raw bytes (`Trigger`, `Timemark`), since every operation on them
  works on the struct's memory. Pure reference definitions sit beside
  them: the frame a trigger with given fields is (`TriggerFrame`,
  `EncodeTrigger`), the frame a latch sends for a timemark (`MarkFrame`),
  the fields a received frame decodes to (`FieldsOf`), and the
  `from_string` verdict (`Accepts`). The round trip and the strength of the
  checksum against single-bit errors are proved there.
- `Serial` (`serial_comm.dfy`) models the channel as a class. The two
  circular buffers are sequences that keep their newest 2560 bytes. The
  asynchronous port is explicit state: a count of reads handed to the port
  and one write in flight with its byte count. A completion is a call of
  `HandleRead` or `HandleWrite` with the error code and byte count the port
  reports. The callback it fires comes back as a `Notification`.
- `Driver` (`driver.dfy`) models the test program's read handler `on_read`,
  the send handler `on_send`, and the trigger that `thread_send` builds.

`Lookup`'s header comment (`src/SerialComm.h:85-93`) promises the position
where `flag` first occurs. The code returns the index where that occurrence
*starts*, `pos - 1` after the scan loop (`src/SerialComm.cpp:62-65`), not the
index of its last byte, and the model does the same.

## Model

| member | source | states |
|---|---|---|
| Bytes.Uint32Bytes | src/timelatch.cpp:21-29 | the four bytes of `uint32_u(x)` spell `x` least significant first, and the low three spell `x mod 2^24` |
| Bytes.Uint16Bytes | src/timelatch.cpp:31-38 | the two bytes of `uint16_u(x)` spell `x` least significant first |
| Bytes.Uint16Of | src/timelatch.cpp:40-43 | the value read back from two stored bytes splits into exactly those two bytes (inverse of `Uint16Bytes`) |
| Bytes.Mask7F | src/timelatch.cpp:97 | `sum & 0x7F`, defined as a bitwise AND, equals `sum mod 128` |
| Bytes.WrapSumIsSumMod256 | src/timelatch.cpp:96 | adding bytes into a `uint8_t` leaves the true sum modulo 256 |
| Bytes.ChecksumEquivalence | src/timelatch.cpp:92-98 | the wrapping sum masked with `0x7F` equals the unbounded byte sum modulo 128 |
| Bytes.MaskedChecksum | src/timelatch.cpp:143-147 | the accumulate-then-mask loop over the first `n` bytes returns their byte sum modulo 128 |
| TimeLatch.TriggerFrame | src/timelatch.cpp:46-53 | a trigger struct is 13 bytes: header, 3 delay bytes, 2 width, 2 count, checksum, 2 tail |
| TimeLatch.EncodeTrigger | src/timelatch.cpp:55-98 | a completed trigger starts with `$MC` and ends with CR LF. Bytes 3-5 hold the delay mod 2^24, 6-7 the width and 8-9 the count, little-endian. Byte 10 is the byte sum of bytes 0-9 modulo 128 |
| TimeLatch.BeginHighBitsDropped | src/timelatch.cpp:69-74 | `set_begin` ignores the top byte of the delay: delays equal mod 2^24 give the same frame |
| TimeLatch.SpliceBegin | src/timelatch.cpp:69-74 | writing the delay bytes into a trigger frame replaces the delay field and leaves every other field as it was |
| TimeLatch.SpliceWidth | src/timelatch.cpp:80-84 | writing the width bytes replaces the width field only |
| TimeLatch.SpliceCount | src/timelatch.cpp:86-90 | writing the count bytes replaces the count field only |
| TimeLatch.Trigger.constructor | src/timelatch.cpp:55-63 | a new trigger is `$MC`, a zero delay and width, count 1, checksum 0, CR LF |
| TimeLatch.Trigger.SetBegin | src/timelatch.cpp:69-74 | bytes 3-5 become the low three bytes of `x`; the other ten bytes are unchanged |
| TimeLatch.Trigger.SetWidth | src/timelatch.cpp:80-84 | bytes 6-7 become the bytes of `x`; the rest is unchanged |
| TimeLatch.Trigger.SetCount | src/timelatch.cpp:86-90 | bytes 8-9 become the bytes of `x`; the rest is unchanged |
| TimeLatch.Trigger.Complete | src/timelatch.cpp:92-98 | byte 10 becomes the masked byte sum of bytes 0-9; the rest is unchanged |
| TimeLatch.Trigger.ToString | src/timelatch.cpp:100-106 | the output is a copy of all 13 struct bytes and `n` is 13 |
| TimeLatch.FieldsOf | src/timelatch.cpp:109-128 | the decoded fields, re-encoded in struct order, give back bytes 3-18 of the frame |
| TimeLatch.Accepts | src/timelatch.cpp:131-135 | `from_string` accepts only `n == 22`. It then accepts exactly when byte 19 equals the byte sum of bytes 0-18 modulo 128 |
| TimeLatch.MarkRoundTrip | src/timelatch.cpp:131-149 | every frame a latch sends is accepted, and its fields decode to the values it was built from |
| TimeLatch.AcceptedFrameShape | src/timelatch.cpp:131-149 | an accepted frame that starts with `$MC` is the latch frame of its decoded fields, up to its last two bytes, which are never checked |
| TimeLatch.ZeroFrameAccepted | src/timelatch.cpp:131-149 | 22 zero bytes are accepted: neither the header nor the tail is checked |
| TimeLatch.Bit7FlipUndetected | src/timelatch.cpp:142-149 | flipping bit 7 of any byte the checksum covers leaves the verdict unchanged |
| TimeLatch.OtherBitFlipsDetected | src/timelatch.cpp:142-149 | in an accepted frame, flipping any bit of the checksum byte, or bits 0-6 of a covered byte, makes the frame rejected |
| TimeLatch.Timemark.FromString | src/timelatch.cpp:131-135 | returns the `Accepts` verdict. The struct holds the 22 bytes received when `n == 22` and is untouched otherwise |
| TimeLatch.Timemark.IsValid | src/timelatch.cpp:142-149 | true exactly when byte 19 equals the byte sum of bytes 0-18 modulo 128 |
| TimeLatch.Timemark.AscYear | src/timelatch.cpp:151-154 | the year is bytes 4-5 read little-endian, the same value `FieldsOf` decodes |
| Serial.PushBack | src/SerialComm.cpp:75 | a push onto a full buffer keeps its size at capacity, otherwise grows it by one; the pushed byte is last |
| Serial.PushBackKeepsNewest | src/SerialComm.cpp:75 | a push leaves exactly the newest 2560 bytes of (the old contents followed by the new byte) |
| Serial.Newest | src/SerialComm.cpp:19-20 | the buffer content is the last `min(n, 2560)` bytes of everything pushed |
| Serial.NewestPush | src/SerialComm.cpp:110 | pushing one byte at a time onto a circular buffer keeps the newest 2560 bytes of the whole stream |
| Serial.SerialComm.constructor | src/SerialComm.cpp:16-21 | a new channel is closed, with empty buffers, no read or write handed to the port, and no handlers |
| Serial.SerialComm.Open | src/SerialComm.cpp:31-44 | an open port returns true and changes nothing. Otherwise the result is the device's answer, and a successful open records the name and rate and arms one read |
| Serial.SerialComm.Close | src/SerialComm.cpp:46-51 | afterwards the port is closed, whatever its state before |
| Serial.SerialComm.IsOpen | src/SerialComm.cpp:53-55 | reports the port's open state |
| Serial.SerialComm.Lookup | src/SerialComm.cpp:57-66 | returns -1 for a null flag, `len <= 0` or `from < 0`. Otherwise it returns the least position at or after `from` where the flag's first `len` bytes occur, or -1 when there is none |
| Serial.SerialComm.Write | src/SerialComm.cpp:68-78 | returns 0 and changes nothing for a null buffer, `len <= 0` or a closed port. Otherwise it appends the first `min(len, free space)` bytes and returns that count. It starts a write of the whole buffer exactly when the buffer was empty |
| Serial.SerialComm.Read | src/SerialComm.cpp:80-93 | a window `[from, from+len)` inside the buffer is copied out, its length is returned, and everything before its end is dropped. With fewer bytes buffered it returns `size - from`, copies what is there and reports the erase past the end (with `from` equal to the size it returns 0 and erases nothing) |
| Serial.SerialComm.RegisterRead | src/SerialComm.cpp:95-99 | the new read handler replaces any previous one |
| Serial.SerialComm.RegisterWrite | src/SerialComm.cpp:101-105 | the new write handler replaces any previous one |
| Serial.SerialComm.Arrive | src/SerialComm.cpp:126 | the bytes the port delivers land at the start of the 512-byte scratch buffer |
| Serial.SerialComm.HandleRead | src/SerialComm.cpp:107-114 | on success the `n` scratch bytes are appended in order, keeping the newest 2560, and a new read replaces the completed one. On an error the buffer is unchanged and no read is re-armed. Either way the read handler is notified with the error code |
| Serial.SerialComm.HandleWrite | src/SerialComm.cpp:116-123 | on success the `n` bytes sent leave the front of the send buffer. The handler is notified. A new write of the remaining bytes is in flight exactly when there was no error and bytes remain |
| Serial.SerialComm.StartRead | src/SerialComm.cpp:125-129 | one more read is handed to the port |
| Serial.SerialComm.StartWrite | src/SerialComm.cpp:131-138 | a write of the whole send buffer is in flight exactly when the buffer is non-empty |
| Driver.Classify | src/timelatch.cpp:180-208 | the four outcomes of `on_read`: port error iff `ec != 0`, wrong length iff 22 bytes were not read, and decoded or wrong checksum by the checksum test, with the decoded fields matching the bytes |
| Driver.LatchFrameDecoded | src/timelatch.cpp:185-193 | a latch frame read in one piece decodes to the fields it was built from |
| Driver.OnRead | src/timelatch.cpp:180-208 | with 22 or more bytes buffered it consumes the first 22 and classifies them. With none it reports a read of 0 bytes. With 1 to 21 it reports a short read of the bytes there and raises `overrun`, because `Read(buff, 22)` erases past the end of the buffer. On an error it closes the port |
| Driver.OnSend | src/timelatch.cpp:210-218 | an error closes the port; success leaves it as it was |
| Driver.SentTrigger | src/timelatch.cpp:220-234 | the frame `thread_send` transmits carries the delay, width and count it set, with checksum byte 0 |
| Driver.CompletedTrigger | src/timelatch.cpp:224-228 | with `complete()` called, the transmitted frame is `EncodeTrigger` of the same values and its checksum holds |
| Driver.DriverTriggerBytes | src/timelatch.cpp:222-228 | the completed trigger for delay 1000, width 1000 and count 1 is `24 4D 43 E8 03 00 E8 03 01 00 0B 0D 0A` |
| Driver.SentTriggerChecksumWrong | src/timelatch.cpp:224-234 | the frame sent for those values has checksum byte 0 where the checksum of its bytes is `0x0B` |
| Driver.SendTrigger | src/timelatch.cpp:232-234 | on an open, idle channel, writing one completed trigger queues all 13 bytes and starts a 13-byte write |

## Left out

- Boost.Asio is not modelled: the `io_service`, its keep-alive thread (`AsioIOServiceKeep`), `linearize()` and the `set_option` calls. If `set_option` throws, the model does not show it.
- The two mutexes are not modelled. Each operation is one atomic step, and the order of completions is chosen by the caller.
- Callbacks are not modelled as `signals2` signals with connection management. A handler is a `Slot` value. `HandleRead` and `HandleWrite` return the `Notification` and do not run it.
- Serial.SerialComm.HandleRead: the handler runs after the new read is armed, not before. In this model its effect cannot depend on that order.
- Serial.SerialComm.HandleWrite: the handler runs after `start_write`, not before it as in the source. The order matters when a write handler calls `Write` on a send buffer that the completion has just drained. In the source that `Write` starts a write, and `handle_write`'s own `start_write` then starts a second write of the same bytes. The model starts only one. The program's own `on_send` never writes.
- Serial.SerialComm.Open: the device's answer to `open` is a parameter `deviceOpens`, and the baud rate is only recorded.
- Serial.SerialComm.Read: when `from + len` exceeds the buffered bytes and `from` differs from the number of bytes buffered, `erase_begin` is called past the end, which breaks its precondition. The model reports this as `overrun` and leaves the receive buffer as it was, because the C++ post-state is undefined.
- Driver.OnRead: on a read completion that leaves 1 to 21 bytes buffered, `on_read` calls `Read(buff, 22)` and so `erase_begin(22)` past the end of the buffer. The model raises `overrun` and keeps the buffer as it was, because what the C++ buffer holds afterwards is undefined.
- Serial.SerialComm.Read: the `int` overflow of `from + len` is not modelled; callers are assumed to keep `from + len` within the range of `int`.
- Serial.SerialComm.HandleWrite: the port is assumed to report at most the bytes it was given (`n <= inFlight`).
- `asc_second()` and `pulse_width()` are not modelled: they compute `double` values. The integer fields they read are decoded by `FieldsOf`.
- Log output (`GLog`) and message formatting are not modelled.
- The `main` program, its command line and the signal handling are not modelled.
- The sleeps and the endless loop of `thread_send` are not modelled. `Driver.SendTrigger` is one pass of the loop with `complete()` added, which is the corrected behaviour of the Findings row; the as-written frame of each pass is `Driver.SentTrigger`.
- The host byte order is fixed as little-endian, the layout the frames require.
- The struct memory the C++ code leaves uninitialised (a fresh `timelatch_timemark` and `on_read`'s buffer) is zeroed in the model.
- Serial.SerialComm.Arrive stands for the operating system filling the scratch buffer; it has no counterpart in the source.

## Findings

| source | as written | input that shows it | evidently intended | confidence | as-written member | corrected member |
|---|---|---|---|---|---|---|
| src/timelatch.cpp:224-234 | `thread_send` sets the delay, width and count but never calls `complete()`, so it transmits checksum byte 0 | delay 1000, width 1000, count 1: the byte sum of bytes 0-9 is 651, so the checksum must be `0x0B` | call `complete()` after `set_count` so the latch receives a valid checksum | not executed | Driver.SentTriggerChecksumWrong | Driver.CompletedTrigger |
