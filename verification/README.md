# ADB keyboard-to-USB converter (RP2040): host transaction and key matrix

A Dafny model of the two sequential pieces of the RP2040 ADB-to-USB keyboard
converter:

- **The ADB host transaction, `adb_host_request` (adb.c).**
  - It builds the command byte `(addr << 4) | cmd`.
  - It drives the waveform: an 800 µs attention low, 150 µs high, eight bit cells MSB first, and a 65 µs stop low, then it releases the line.
  - It decodes the device's reply into at most eight bytes. Every wait on the line gives up after 500 µs. A measured high phase shorter than 50 µs is a 1.
  - The wrappers `adb_host_kbd_recv`, `adb_host_kbd_led` and `adb_host_mouse_recv` fix the address and the command.
- **The key matrix, `matrix.c`.**
  - `matrix_scan` splits key-transition bytes into row, column and direction, applies them to a live 16 x 8 matrix and commits that into the debounced matrix. A change sets the modified flag and the time stamp.
  - `matrix_is_modified_debounce` reports the flag and clears it after the debounce window.
  - `matrix_get_row` and `matrix_is_on` read the debounced matrix.
  - `led_set` maps the USB lock bits to the ADB LED mask.

The line and the clocks are replaced by data:

- **The reply script.** The device's reply is a `Reply`: the durations in microseconds of the phases the line goes through after the host releases it. The phases alternate in level, starting with the high phase of the response wait.
  - Each busy-wait loop of `adb_host_request` consumes one phase. The loop is `AdbTiming.BusyWait`, which polls a wrapping 32-bit microsecond counter.
  - A wait times out exactly when its phase lasts more than 500 µs. A phase beyond the end of the script never ends.
- **The reference decoder.** `AdbReceive.VerdictOf` reads the outcome off the first wait that times out. `AdbReceive.Expected` adds the buffer contents to it.
  - The decoder that follows the C loops is `AdbReceive.ReceiveBits`, `AdbReceive.ReceiveLoop` and `AdbReceive.Receive`. It is proved equal to `Expected`.
- **The device side.** `AdbDevice.DeviceReply` is the reply of a device sending given bytes with the same cell encoding. It closes the round trip with the decoder.
- **The matrix state.** The static variables of matrix.c form one immutable `Matrix.State`. The millisecond timer reading, the elapsed time since the last change and the three USB lock-bit positions are parameters.

Where the comments and the code disagree, the model follows the code:

- The comment at adb.c:89 describes a `[Addr][Cmd][0][Reg]` layout. The code shifts the address into the high nibble, ORs the command in below it and folds in no register number, so keyboard TALK is 0x23, keyboard LISTEN is 0x22 and mouse TALK is 0x33.
- The comment at adb.c:118 promises a 45 µs high after the stop bit. The code only releases the line (`AdbFrame.Waveform` ends in `Release`).
- The `!bufsize` test of matrix_scan (matrix.c:102-105) is dead code: a request that returns true always reports at least one byte (`AdbReceive.SuccessCountsByte`). `Matrix.Scan` keeps the branch as written.
- `adb_host_kbd_led` issues a keyboard LISTEN but never puts its LED byte on the line. `AdbHost.KbdLed` proves that its waveform does not depend on the LED mask.

## Model

| member | source | states |
|---|---|---|
| AdbTiming.ElapsedAcrossWrap | keyboards/converter/adb_usb_rp2040/adb.c:124-126 | `time_us_32() - timeout_start`, computed on uint32_t, is the true elapsed time even when the counter wraps past 2^32 between the two readings |
| AdbTiming.BusyWait | keyboards/converter/adb_usb_rp2040/adb.c:124-129 | a wait gives up iff the phase it watches lasts more than ADB_TIMEOUT (500 µs), so exactly 500 µs does not time out; when it does not give up, the wrapping elapsed time on leaving is the phase's duration |
| AdbFrame.RequestByte | keyboards/converter/adb_usb_rp2040/adb.c:89-90 | the request byte keeps the command as its low nibble and ORs the address's low nibble with the command's high nibble above it; for operands below 16 it is addr*16+cmd, with no register bits |
| AdbFrame.KnownRequests | keyboards/converter/adb_usb_rp2040/adb.c:72-85 | the three wrappers send 0x23 (keyboard TALK), 0x22 (keyboard LISTEN) and 0x33 (mouse TALK) |
| AdbFrame.Cells | keyboards/converter/adb_usb_rp2040/adb.c:101-116 | the command is sent as 16 pulses, a low then a high per bit, in MSB-first order, with durations chosen by the bit |
| AdbFrame.Waveform | keyboards/converter/adb_usb_rp2040/adb.c:94-121 | the host drives low 800, high 150, the eight cells, low 65, then releases the line: 20 steps in all |
| AdbFrame.WaveformShape | keyboards/converter/adb_usb_rp2040/adb.c:101-116 | every command cell is low then high, sums to ADB_BIT_TIME (100 µs), and is 65/35 for a 1 bit and 35/65 for a 0 bit |
| AdbFrame.AccumulateCells | keyboards/converter/adb_usb_rp2040/adb.c:169-174 | shifting in one bit per cell (high < 50 µs gives a 1) over the cells of the first n bits of a byte yields those n bits |
| AdbFrame.CellsDecode | keyboards/converter/adb_usb_rp2040/adb.c:169-174 | the receive rule applied to the high phases of a byte's eight cells recovers the byte |
| AdbFrame.CommandRoundTrip | keyboards/converter/adb_usb_rp2040/adb.c:101-116 | decoding the transmitted waveform's high phases with the host's own receive rule gives back the request byte |
| AdbReceive.FirstExpired | keyboards/converter/adb_usb_rp2040/adb.c:137-196 | the first wait of the transaction that times out: every earlier wait ended in time and this one did not |
| AdbReceive.EndOf | keyboards/converter/adb_usb_rp2040/adb.c:137-199 | the outcome chosen by which kind of wait timed out first: an edge wait in byte k gives (k>0, k), a stop-bit wait after byte k gives (false, k+1), a more-data wait gives (true, k+1), none gives (true, 8); the count never exceeds 8 and covers only complete bytes |
| AdbReceive.VerdictOf | keyboards/converter/adb_usb_rp2040/adb.c:123-199 | no response iff the response wait times out; otherwise the count is at most 8 and every counted byte had all 16 cell phases arrive in time |
| AdbReceive.NoResponseVerdict | keyboards/converter/adb_usb_rp2040/adb.c:124-129 | a line that stays high more than 500 µs after the stop bit ends the request with no response |
| AdbReceive.EdgeTimeoutVerdict | keyboards/converter/adb_usb_rp2040/adb.c:141-167 | an edge timeout inside byte k returns false with count 0 when k = 0 and true with count k otherwise |
| AdbReceive.MissingStopVerdict | keyboards/converter/adb_usb_rp2040/adb.c:179-186 | a complete byte whose stop bit never rises returns false, yet counts the byte |
| AdbReceive.NoMoreDataVerdict | keyboards/converter/adb_usb_rp2040/adb.c:188-195 | a complete byte followed by no new low phase within 500 µs returns true with the bytes so far |
| AdbReceive.FullFrameVerdict | keyboards/converter/adb_usb_rp2040/adb.c:137-199 | eight bytes with no wait timing out return true with count 8 |
| AdbReceive.SuccessCountsByte | keyboards/converter/adb_usb_rp2040/adb.c:143-149 | a request that returns true has counted at least one byte, because a timeout inside the first byte returns false; so the `!bufsize` test after a successful receive in matrix_scan (matrix.c:102-105) never fires |
| AdbReceive.CountFits | keyboards/converter/adb_usb_rp2040/adb.c:198 | a count of at most 8 stored into the uint8_t `*bufsize` keeps its value |
| AdbReceive.FilledShape | keyboards/converter/adb_usb_rp2040/adb.c:132-177 | after the clear and k stores the buffer holds the k decoded bytes, zeros up to 8, and the caller's bytes beyond 8 |
| AdbReceive.FilledNext | keyboards/converter/adb_usb_rp2040/adb.c:176-177 | storing byte k into the cleared buffer extends the decoded prefix by exactly that byte |
| AdbReceive.ReceivedBytes | keyboards/converter/adb_usb_rp2040/adb.c:176-177 | the bytes a finished request counts, each one complete in the reply |
| AdbReceive.ExpectedShape | keyboards/converter/adb_usb_rp2040/adb.c:124-177 | without a response neither `*bufsize` nor the buffer is touched; otherwise `*bufsize` <= 8, only fully received bytes are stored, the rest of the first 8 bytes are zero and the caller's bytes beyond 8 are untouched |
| AdbReceive.ExpectedReport | keyboards/converter/adb_usb_rp2040/adb.c:176-199 | a request returns true with a non-zero count exactly when the verdict says so, and then the buffer starts with the received bytes |
| AdbReceive.SucceedsWith | keyboards/converter/adb_usb_rp2040/adb.c:176-199 | a request that succeeds with given bytes returns them, zero-filled up to 8, with the count set to their number |
| AdbReceive.ReceiveBits | keyboards/converter/adb_usb_rp2040/adb.c:139-175 | the bit loop either completes all 16 cell waits and returns the byte the receive rule reads from the high phases, or names the first cell wait that timed out |
| AdbReceive.ReceiveLoop | keyboards/converter/adb_usb_rp2040/adb.c:123-199 | the response wait and byte loop, wait by wait, return exactly the reference outcome |
| AdbReceive.Receive | keyboards/converter/adb_usb_rp2040/adb.c:123-199 | the reply decoder's outcome is the reference one, with its bounds and buffer contents |
| AdbDevice.DeviceReplyReaches | keyboards/converter/adb_usb_rp2040/adb.c:137-195 | a device that answers and pauses within the timeout gets all its bytes and stop bits through, and the line then stays high |
| AdbDevice.DeviceByteAt | keyboards/converter/adb_usb_rp2040/adb.c:169-174 | the decoder reads back every byte a device sends with the 65/35 cell encoding |
| AdbDevice.DeviceReceived | keyboards/converter/adb_usb_rp2040/adb.c:137-195 | a device reply of n bytes (1 to 8) ends with success and count n, and the bytes counted are the device's |
| AdbDevice.DecodesDeviceReply | keyboards/converter/adb_usb_rp2040/adb.c:123-199 | receive round trip: for such a device the request returns true, `*bufsize` = n, the buffer starts with the sent bytes, then zeros up to 8, and the rest is untouched |
| AdbDevice.LateDeviceIgnored | keyboards/converter/adb_usb_rp2040/adb.c:124-129 | a device that answers later than 500 µs leaves the request failed and the caller's count and buffer untouched, whatever it would have sent |
| AdbHost.HostRequest | keyboards/converter/adb_usb_rp2040/adb.c:88-200 | one transaction: the waveform carries the request byte (it decodes back to it) and ends in a release, and the result is the reference outcome of the reply |
| AdbHost.KbdRecv | keyboards/converter/adb_usb_rp2040/adb.c:72-74 | keyboard TALK sends the full request waveform for 0x23 (attention, command cells, stop bit, release), whose command decodes to 0x23, and returns the reference outcome |
| AdbHost.MouseRecv | keyboards/converter/adb_usb_rp2040/adb.c:83-85 | mouse TALK sends the full request waveform for 0x33, whose command decodes to 0x33, and returns the reference outcome |
| AdbHost.BytesWrittenByRequest | keyboards/converter/adb_usb_rp2040/adb.c:124-134 | the request overwrites exactly the first eight bytes of the memory it is handed when the device responds, and nothing when it does not: memory from that point on is unchanged, and the result does not depend on what the overwritten bytes held |
| AdbHost.KbdLedBufferAsWritten | keyboards/converter/adb_usb_rp2040/adb.c:76-80 | adb_host_kbd_led's buffer is one byte holding the LED mask |
| AdbHost.KbdLedAsWrittenOverflows | keyboards/converter/adb_usb_rp2040/adb.c:76-80 | that buffer is shorter than the eight bytes the request requires; whenever the keyboard responds, the request run on the LED byte and the memory after it overwrites the seven bytes past the buffer, whatever they held |
| AdbHost.KbdLedOverflowWitness | keyboards/converter/adb_usb_rp2040/adb.c:76-80 | a keyboard answering 10 µs after the release and sending nothing makes the request fail and zero the seven bytes past the buffer, so any non-zero memory there changes |
| AdbHost.KbdLedBuffer | keyboards/converter/adb_usb_rp2040/adb.c:76-80 | the corrected buffer holds the LED mask and is large enough for every write of the request |
| AdbHost.KbdLed | keyboards/converter/adb_usb_rp2040/adb.c:76-81 | keyboard LISTEN puts 0x22 on the line, and the waveform is the same for every LED mask; the result is true iff the keyboard responds and the decoder's verdict is success |
| Matrix.Init | keyboards/converter/adb_usb_rp2040/matrix.c:71-75 | after init no key is down in either matrix and the flag is clear |
| Matrix.DecodeKey | keyboards/converter/adb_usb_rp2040/matrix.c:113-129 | a byte is skipped iff its low 7 bits are 0x7F (0xFF included); otherwise row < 16 and col < 8 with row*8+col the key code, and the key is pressed iff bit 7 is clear |
| Matrix.SetCell | keyboards/converter/adb_usb_rp2040/matrix.c:132-136 | a press sets exactly bit col of the row, a release clears exactly that bit; all other bits keep their value |
| Matrix.Apply | keyboards/converter/adb_usb_rp2040/matrix.c:126-136 | a transition decides its own cell and leaves every other cell of every row unchanged; a filler changes nothing |
| Matrix.Step | keyboards/converter/adb_usb_rp2040/matrix.c:113-138 | one byte of the parse loop counts one key iff it is not a filler |
| Matrix.StepCell | keyboards/converter/adb_usb_rp2040/matrix.c:113-138 | after one byte of the parse loop a key is in the state the byte gives it if the byte touches it, and in its old state otherwise |
| Matrix.Ingest | keyboards/converter/adb_usb_rp2040/matrix.c:112-139 | the key count is at most the number of bytes; it is 0 iff every byte is a filler and equals the number of bytes iff none is |
| Matrix.IngestCounts | keyboards/converter/adb_usb_rp2040/matrix.c:112-139 | the key count is exactly the number of non-filler bytes of the report, counted independently from the front by `Transitions` |
| Matrix.MixedReportCount | keyboards/converter/adb_usb_rp2040/matrix.c:112-139 | the report [0x21, 0xFF, 0x22] counts exactly two keys |
| Matrix.UntouchedCellKeeps | keyboards/converter/adb_usb_rp2040/matrix.c:112-139 | a key no byte of the report touches keeps its state |
| Matrix.LastByteDecides | keyboards/converter/adb_usb_rp2040/matrix.c:112-139 | bytes are applied in buffer order: the last byte touching a key decides whether it is down |
| Matrix.SetCellIdempotent | keyboards/converter/adb_usb_rp2040/matrix.c:132-136 | setting or clearing the same bit twice equals doing it once |
| Matrix.SetCellPressRelease | keyboards/converter/adb_usb_rp2040/matrix.c:132-136 | clearing a bit after setting it equals clearing it |
| Matrix.ApplyIdempotent | keyboards/converter/adb_usb_rp2040/matrix.c:132-136 | applying the same byte twice equals applying it once |
| Matrix.PressThenRelease | keyboards/converter/adb_usb_rp2040/matrix.c:132-136 | a press followed by the release of the same key leaves it up, as if only the release had been seen |
| Matrix.IngestStep | keyboards/converter/adb_usb_rp2040/matrix.c:112-139 | the report prefix one byte longer is the old prefix followed by one step |
| Matrix.ReportScenario | keyboards/converter/adb_usb_rp2040/matrix.c:112-139 | the report [0x21, 0xFF] presses row 4 column 1 and counts one key; [0xA1, 0xFF] releases it |
| Matrix.ApplyReport | keyboards/converter/adb_usb_rp2040/matrix.c:108-139 | the parse loop leaves the live matrix and key count of applying the report's bytes in order |
| Matrix.CommitRows | keyboards/converter/adb_usb_rp2040/matrix.c:141-148 | after the copy loop the debounced matrix equals the live one, and the changed flag is set iff some row differed |
| Matrix.Committed | keyboards/converter/adb_usb_rp2040/matrix.c:141-153 | after a commit debounced equals live; a difference sets the flag and stamps the time, no difference changes nothing |
| Matrix.CommitIdempotent | keyboards/converter/adb_usb_rp2040/matrix.c:141-153 | committing again with an unchanged live matrix changes nothing, whatever the time |
| Matrix.Scan | keyboards/converter/adb_usb_rp2040/matrix.c:87-156 | a failed or empty receive returns 0 and changes nothing; otherwise the live matrix is the received report applied in order, the debounced matrix equals it, the count is the number of transitions and at most the number of bytes received |
| Matrix.IsModifiedDebounce | keyboards/converter/adb_usb_rp2040/matrix.c:158-167 | returns the flag as it was on entry; the flag is cleared iff it was set and more than `debounce` ms have passed; nothing else changes |
| Matrix.DebounceSettles | keyboards/converter/adb_usb_rp2040/matrix.c:158-167 | after the window the flag is reported once more and every later query reports no change |
| Matrix.DebounceHolds | keyboards/converter/adb_usb_rp2040/matrix.c:158-167 | within the window a set flag stays set and is reported |
| Matrix.GetRow | keyboards/converter/adb_usb_rp2040/matrix.c:40-42 | a column is set in the returned row iff that key is down in the debounced matrix |
| Matrix.IsOn | keyboards/converter/adb_usb_rp2040/matrix.c:169-171 | a key reads as on iff its column is below 8 and it is down in the debounced matrix; columns 8 to 31 read as off |
| Matrix.ReadsDebouncedOnly | keyboards/converter/adb_usb_rp2040/matrix.c:169-171 | row and key reads depend on the debounced matrix alone, never on uncommitted live changes |
| Matrix.LedMask | keyboards/converter/adb_usb_rp2040/matrix.c:180-191 | the mask is computed afresh and is a subset of 0x07: Caps Lock gives 0x02, Num Lock 0x01, Scroll Lock 0x04, each iff its USB lock bit is set |
| Matrix.StandardLedMask | keyboards/converter/adb_usb_rp2040/matrix.c:180-191 | with the HID lock positions (Num 0, Caps 1, Scroll 2) the lock states map to the ADB masks |
| Matrix.LedSet | keyboards/converter/adb_usb_rp2040/matrix.c:180-198 | only the recorded LED state changes and it is a subset of 0x07; the transaction sent is the keyboard LISTEN waveform, which carries no LED data |

## Left out

- GPIO and line plumbing (`adb_io_reset`, `adb_in`, `adb_out`, `adb_high`, `adb_low`, `adb_delay_us`): the line is the `Reply` script and the host's own pulses are the `Pulse` list. Sampling jitter, interrupt latency and poll granularity are abstracted away: a wait's elapsed time is its phase's duration.
- `adb_host_init`, `matrix_init`'s power-up and waits, `matrix_power_up`, `init_led`: initialisation sequencing with no logic beyond the zeroed matrices (`Matrix.Init`).
- `matrix_print` and the debug output: printing only.
- `timer_read` and `timer_elapsed` are not part of this model. The timer reading and the elapsed milliseconds are parameters of `Matrix.Scan` and `Matrix.IsModifiedDebounce`.
- The `USB_LED_*` bit positions are not part of this model. They are parameters of `Matrix.LedMask`.
- Mouse report decoding, ADB collision handling, device SRQ and the device's start bit: the code does none of these.
- `AdbHost.KbdLed`: models the corrected routine. The LED byte is still never transmitted, because the source has no code that would transmit it.
- `Matrix.GetRow`, `Matrix.IsOn`: require `row < 16` (and `col < 32` for `IsOn`), because the source indexes a 16-entry array and shifts a 32-bit int without checks.
- The scan buffer: `matrix_scan` leaves it uninitialised, and `Matrix.Scan` passes a zeroed one. No scan reads it before the decoder clears it, because a request that fails before the clear is not read at all.
- `Matrix.Scan`: returns the key count as an unbounded number. The source's uint8_t cannot wrap, because the count is at most 8.

## Findings

| source | as written | input that shows it | evidently intended | confidence | as-written member | corrected member |
|---|---|---|---|---|---|---|
| keyboards/converter/adb_usb_rp2040/adb.c:76-80 | `adb_host_kbd_led` passes a one-byte buffer to `adb_host_request`, which clears eight bytes of it as soon as the keyboard responds and may store up to eight received bytes; the model runs the request on the LED byte and the memory after it and shows the seven bytes past the buffer overwritten | any keyboard reply whose first phase is at most 500 µs, e.g. the line pulled low 10 µs after the release (reply script [10]) | a buffer of at least eight bytes, as `matrix_scan` passes | high; not executed | AdbHost.KbdLedAsWrittenOverflows | AdbHost.KbdLed |
