# DataIntegrity receive path, modelled in Dafny

The DataIntegrity program is a Qt desktop tool. It reads 16-byte frames from a serial port:
- the marker `"$DC"`;
- eleven one-byte channel samples;
- a big-endian CRC-16 over the first 14 bytes.

It checks every frame with `MainWindow::crc16_ccitt`. It plots the samples of accepted frames on eleven chart series of at most 200 points, and it flags a timeout 400 ms after the last accepted frame (never before the first one).

This project models that receive path and proves properties of it:

- **`Crc16`:** `crc16_ccitt` as a left fold of a per-byte step over `bv16`.
  - The nested-loop method is proved equal to the fold.
  - It has reference values: the empty input, a zero byte, and the CRC-16/CCITT-FALSE check value of `"123456789"`, which is 0x29B1.
  - It has streaming laws.
  - It is proved to detect every single-byte error.
- **`ByteArray`:** the QByteArray operations the slot uses: `indexOf`, `lastIndexOf`, `mid`, `left` and `remove`. Each is a value function with Qt 5's clamping of out-of-range positions. In particular, `mid(-1)` with the default length returns the whole array.
- **`Frame`:** the frame layout.
  - `Accepts` is the CRC test of lines 189-194, and `Payload` gives the eleven samples.
  - `Encode` is the sender's side of `Accepts`: a window that starts with the marker is accepted exactly when it is the encoding of its own samples.
  - Any one corrupted byte makes a window rejected.
- **`History`:** the eleven series as values.
  - `Plot` is one accepted frame. It appends one point per channel and evicts the oldest point past 200.
  - `Record` is a run of accepted frames.
  - Each series holds the most recent 200 points of its channel, with strictly increasing abscissae.
- **`FrameSync`:** the `while` loop of `handleReadyRead` as a pure function, `Drain`. It maps a buffer to the bytes left behind and the accepted sample vectors. `Feed` chains several calls.
  - Proved about `Drain`: what each kind of pass does, why the loop stops, and that what is left is a suffix of the buffer and would not change if the loop ran again.
  - Also proved: re-synchronisation after garbage, the round trip of an encoded frame, and the same frame split across any number of chunks.
  - Every emitted vector came from a well-formed frame in the buffer.
  - A corrupted frame emits nothing, and a frame that starts inside a rejected window is lost.
- **`Window`:** class `MainWindow` with the fields the slot updates in place: `serialBuffer`, `xVal`, `timedOut`, the timer state and the series.
  - `HandleReadyRead` is the readyRead slot, with the bytes read from the port as a parameter.
  - It is proved against `Drain`, `Plot` and `Record`, and it keeps the class invariant `Valid()`. The invariant says:
    - the series are the accepted vectors plotted from abscissa 0;
    - `xVal` is twice the number of accepted frames;
    - the timer runs only after an accepted frame.
  - `OnTimeout` is the timer's lambda.

The model keeps these behaviours of the source as written:
- `xVal` is incremented twice per accepted frame (lines 246 and 266).
- A rejected window is skipped in full, all 16 bytes of it (line 271).
- A buffer under 16 bytes is never searched or trimmed (line 178).
- With neither `"$DC"` nor `'$'` in the buffer, the buffer is kept whole (lines 181-182).
- The CRC test is done inline (lines 189-194); `Accepts`/`Payload` take any 16-byte window, with no marker precondition.
- Nothing resets the buffer, `xVal`, the timer or the series when the port is closed or reopened (`connectSerial`, lines 122-151).

## Model

| member | source | states |
|---|---|---|
| ByteArray.IndexOf | DataIntegrity/mainwindow.cpp:179 | the result is -1 or an occurrence of the pattern, and no occurrence lies before it |
| ByteArray.LastIndexOf | DataIntegrity/mainwindow.cpp:181 | the result is -1 or a position holding the byte, and no later position holds it |
| ByteArray.Mid | DataIntegrity/mainwindow.cpp:182 | an in-range window is that slice; a position with length -1 gives the suffix; a negative position with length -1 gives the whole array |
| ByteArray.Left | DataIntegrity/mainwindow.cpp:190 | the first n bytes, or the whole array when n is too large |
| ByteArray.Remove | DataIntegrity/mainwindow.cpp:271 | removing n bytes at pos leaves the prefix before pos followed by the bytes after the removed range; removing from position 0 leaves the suffix |
| Crc16.Round | DataIntegrity/mainwindow.cpp:166-169 | one pass of the inner loop (no contract of its own); its two branches are stated by Crc16.RoundCases and Crc16.RoundShiftXor, its injectivity by Crc16.RoundInjective |
| Crc16.Rounds | DataIntegrity/mainwindow.cpp:165-170 | n passes of the inner loop (no contract of its own); the inner loop invariant of Crc16.Crc16Ccitt, injectivity by Crc16.RoundsInjective |
| Crc16.Step | DataIntegrity/mainwindow.cpp:164-170 | the work for one input byte (no contract of its own); stated by Crc16.StepUnrolled, Crc16.StepInjectiveInRegister and Crc16.StepInjectiveInByte |
| Crc16.Fold | DataIntegrity/mainwindow.cpp:163-171 | the outer loop as a left fold (no contract of its own); stated by Crc16.FoldConcat and Crc16.FoldSingleByteError |
| Crc16.Crc | DataIntegrity/mainwindow.cpp:161-173 | the fold from 0xFFFF (no contract of its own); computed by Crc16.Crc16Ccitt, values fixed by Crc16.CrcOfEmpty, Crc16.CrcOfZeroByte and Crc16.CrcCheckValue, streaming by Crc16.CrcAppend, error detection by Crc16.SingleByteErrorDetected |
| Crc16.Crc16Ccitt | DataIntegrity/mainwindow.cpp:161-173 | the nested loops return exactly the fold of the per-byte step from 0xFFFF |
| Crc16.RoundCases | DataIntegrity/mainwindow.cpp:166-169 | one pass of the inner loop shifts left and xors 0x1021 exactly when bit 15 was set |
| Crc16.StepUnrolled | DataIntegrity/mainwindow.cpp:164-170 | the work for one byte is the xor into the high half followed by eight rounds |
| Crc16.CrcPrefixStep | DataIntegrity/mainwindow.cpp:163-171 | the register after k+1 bytes is one step from the register after k bytes |
| Crc16.CrcOfEmpty | DataIntegrity/mainwindow.cpp:162 | the checksum of the empty input is the initial 0xFFFF |
| Crc16.CrcOfZeroByte | DataIntegrity/mainwindow.cpp:161-173 | the checksum of the single byte 0x00 is 0xE1F0 |
| Crc16.CrcCheckValue | DataIntegrity/mainwindow.cpp:161-173 | the checksum of ASCII "123456789" is 0x29B1, the CRC-16/CCITT-FALSE check value |
| Crc16.CrcAppend | DataIntegrity/mainwindow.cpp:163-171 | appending a byte advances the checksum by one step |
| Crc16.FoldConcat | DataIntegrity/mainwindow.cpp:163-171 | the checksum of s + t is the fold of t started from the register after s |
| Crc16.RoundShiftXor | DataIntegrity/mainwindow.cpp:166-169 | a round is the shift xored with the polynomial masked by bit 15 |
| Crc16.RoundInjective | DataIntegrity/mainwindow.cpp:166-169 | different registers give different registers after a round |
| Crc16.RoundsInjective | DataIntegrity/mainwindow.cpp:165-170 | different registers stay different after any number of rounds |
| Crc16.StepInjectiveInRegister | DataIntegrity/mainwindow.cpp:164-170 | the same byte from two different registers gives two different registers |
| Crc16.StepInjectiveInByte | DataIntegrity/mainwindow.cpp:164-170 | two different bytes from the same register give two different registers |
| Crc16.FoldSingleByteError | DataIntegrity/mainwindow.cpp:163-171 | for inputs differing only at k, the registers agree on prefixes up to k and differ on every longer prefix |
| Crc16.SingleByteErrorDetected | DataIntegrity/mainwindow.cpp:161-173 | two inputs of the same length differing in exactly one byte have different checksums |
| Frame.ReceivedCrc | DataIntegrity/mainwindow.cpp:191 | the carried checksum read high byte first (no contract of its own); stated by Frame.BigEndian and Frame.BigEndianOfReceived |
| Frame.Accepts | DataIntegrity/mainwindow.cpp:192-194 | the acceptance test (no contract of its own); stated by Frame.AcceptsIffEncoded, Frame.EncodeAccepted and Frame.CorruptedWindowRejected |
| Frame.Payload | DataIntegrity/mainwindow.cpp:200 | the samples of a window are its eleven bytes from offset 3 |
| Frame.BigEndian | DataIntegrity/mainwindow.cpp:191 | two bytes that, read high byte first as line 191 reads them, give back the value |
| Frame.BigEndianOfReceived | DataIntegrity/mainwindow.cpp:191 | reading two bytes big-endian and writing the value back gives the same two bytes |
| Frame.Encode | DataIntegrity/mainwindow.cpp:189-194 | the sender's frame is 16 bytes long and starts with "$DC" |
| Frame.EncodeAccepted | DataIntegrity/mainwindow.cpp:189-200 | every encoded frame passes the CRC test and gives back its samples |
| Frame.AcceptsIffEncoded | DataIntegrity/mainwindow.cpp:189-194 | a window starting with "$DC" is accepted if and only if it is the encoding of its own samples |
| Frame.CorruptedWindowRejected | DataIntegrity/mainwindow.cpp:189-194 | changing any single byte of an accepted window makes it rejected |
| History.AddPoint | DataIntegrity/mainwindow.cpp:234-238 | append to one series, then drop its oldest point past 200 (no contract of its own); stated by History.AddPointKeepsLast and History.AddPointKeepsSeriesOk |
| History.Plot | DataIntegrity/mainwindow.cpp:232-239 | one accepted frame keeps one series per channel; what each series then holds is stated by History.RecordIsLastPoints |
| History.Record | DataIntegrity/mainwindow.cpp:230-266 | a run of accepted frames keeps one series per channel |
| History.EmptyChart | DataIntegrity/mainwindow.cpp:47-60 | the constructor creates eleven series |
| History.AddPointKeepsLast | DataIntegrity/mainwindow.cpp:234-238 | appending and evicting past 200 keeps exactly the last 200 points of the whole history |
| History.RecordIsLastPoints | DataIntegrity/mainwindow.cpp:230-266 | after any run of accepted frames, channel i holds the most recent 200 of its old points followed by (x0 + 2k, sample i of frame k) |
| History.RecordConcat | DataIntegrity/mainwindow.cpp:230-266 | plotting two runs one after the other, the second starting two units per frame later, is plotting their concatenation |
| History.EmptyChartShowsLastPoints | DataIntegrity/mainwindow.cpp:230-266 | from the empty chart, each series holds the last 200 samples of its channel at abscissae 0, 2, 4, ... |
| History.PlotKeepsChart | DataIntegrity/mainwindow.cpp:230-246 | one accepted frame keeps every series at most 200 points long with strictly increasing abscissae below the next xVal |
| History.AddPointKeepsSeriesOk | DataIntegrity/mainwindow.cpp:234-238 | appending at the next abscissa and evicting keeps one series bounded and strictly increasing |
| History.RecordKeepsChart | DataIntegrity/mainwindow.cpp:230-266 | any run of accepted frames keeps the chart bounded and strictly increasing, with xVal advanced by two per frame |
| History.AppendPointsKeepsSeriesOk | DataIntegrity/mainwindow.cpp:230-266 | a bounded increasing series followed by later points and cut to its last 200 is still bounded and increasing |
| FrameSync.Drain | DataIntegrity/mainwindow.cpp:178-272 | the loop emits only eleven-sample vectors; what it leaves and emits is stated by the lemmas below |
| FrameSync.DrainNoMarker | DataIntegrity/mainwindow.cpp:180-183 | with no "$DC", the buffer becomes the part from the last '$' on, nothing is emitted, and the loop would leave that part as it is |
| FrameSync.DrainWaits | DataIntegrity/mainwindow.cpp:186-187 | with the first "$DC" fewer than 16 bytes from the end, the buffer is kept whole and nothing is emitted |
| FrameSync.DrainStep | DataIntegrity/mainwindow.cpp:189-271 | a complete window at the first "$DC" is dropped with everything before it, and its samples are emitted first exactly when it is accepted |
| FrameSync.ShortBufferKept | DataIntegrity/mainwindow.cpp:178 | fewer than 16 buffered bytes are left untouched and nothing is emitted |
| FrameSync.IncompleteFrameWaits | DataIntegrity/mainwindow.cpp:179-187 | a first marker at h with fewer than 16 bytes after it leaves the buffer untouched |
| FrameSync.WindowConsumed | DataIntegrity/mainwindow.cpp:189-271 | the window at the first marker h is tested, and the first h + 16 bytes go whether or not it was accepted |
| FrameSync.DrainRestIsSuffix | DataIntegrity/mainwindow.cpp:178-272 | what is left is a suffix of the buffer, and each emitted frame used up 16 bytes |
| FrameSync.NoMarkerTrimmed | DataIntegrity/mainwindow.cpp:180-183 | with no "$DC" anywhere, nothing is emitted; without a '$' the buffer stays whole, with one it keeps the part from the last '$' |
| FrameSync.DrainIdempotent | DataIntegrity/mainwindow.cpp:178-272 | running the loop again on what it left changes nothing and emits nothing |
| FrameSync.DrainStopsWhen | DataIntegrity/mainwindow.cpp:178-187 | the loop stops with fewer than 16 bytes, with the first marker fewer than 16 bytes from the end, or with no marker and no '$' after the first byte |
| FrameSync.TrimmedIsStable | DataIntegrity/mainwindow.cpp:180-183 | a buffer with no marker and no '$' after its first byte is left as it is |
| FrameSync.ResyncAfterGarbage | DataIntegrity/mainwindow.cpp:179-271 | marker-free garbage followed by a well-formed frame gives exactly that frame's samples and leaves the buffer empty |
| FrameSync.RoundTrip | DataIntegrity/mainwindow.cpp:176-271 | an encoded frame in an empty buffer gives back its eleven samples and leaves the buffer empty |
| FrameSync.CorruptedFrameNotEmitted | DataIntegrity/mainwindow.cpp:189-194 | a frame with any one byte changed emits nothing |
| FrameSync.OverlappedFrameLost | DataIntegrity/mainwindow.cpp:271 | a valid frame that starts inside a rejected window is lost, and only its last three bytes stay buffered |
| FrameSync.FramesNeedWindow | DataIntegrity/mainwindow.cpp:186-194 | a call that emits anything had a complete window at its first marker |
| FrameSync.AcceptedWindowIsEncoded | DataIntegrity/mainwindow.cpp:189-200 | an accepted window at a marker is, in place, the encoding of its own samples |
| FrameSync.EmittedFramesWereInBuffer | DataIntegrity/mainwindow.cpp:189-271 | every emitted sample vector has its well-formed frame somewhere in the buffer |
| FrameSync.PartialDelivery | DataIntegrity/mainwindow.cpp:176-187 | a frame split across any number of chunks gives the same single sample vector as the frame delivered whole, and leaves the buffer empty |
| FrameSync.Feed | DataIntegrity/mainwindow.cpp:175-273 | consecutive calls of the slot, one per chunk (no contract of its own); stated by FrameSync.PartialDelivery |
| Window.MainWindow.Valid | DataIntegrity/mainwindow.cpp:194-266 | the class invariant (a predicate): the series are the accepted vectors plotted from abscissa 0, xVal is twice their number, and the timer runs or has fired only after an accepted frame; kept by every method, read back by Window.MainWindow.ValidChart |
| Window.MainWindow.constructor | DataIntegrity/mainwindow.cpp:47-60 | empty buffer, xVal 0, no timeout, timer stopped, eleven empty series, invariant established |
| Window.MainWindow.OnTimeout | DataIntegrity/mainwindow.cpp:30-34 | the running single-shot timer stops and sets the flag; nothing else changes and the invariant holds |
| Window.MainWindow.PlotSample | DataIntegrity/mainwindow.cpp:230-239 | the plotting loop returns exactly Plot of the series at xVal |
| Window.MainWindow.ConsumeWindow | DataIntegrity/mainwindow.cpp:189-271 | matched is the CRC test of the window; on a match the timer restarts, the flag clears, the samples are plotted at xVal and xVal grows by 2; on a mismatch none of these change; the buffer loses h + 16 bytes either way |
| Window.MainWindow.NextWindow | DataIntegrity/mainwindow.cpp:179-271 | one pass agrees with Drain: it emits what Drain emits first and leaves a buffer Drain finishes the same way; a pass that does not return removes exactly the first marker's offset plus 16 bytes, and a pass that returns leaves a buffer the loop would not change |
| Window.MainWindow.DrainBuffer | DataIntegrity/mainwindow.cpp:178-272 | the loop leaves exactly Drain's rest, plots exactly Drain's frames in order, advances xVal by 2 per frame, and restarts the timer exactly when a frame was accepted |
| Window.MainWindow.HandleReadyRead | DataIntegrity/mainwindow.cpp:175-273 | the slot is Drain of the old buffer plus the chunk; it keeps the invariant, and only an accepted frame clears the timeout flag |
| Window.MainWindow.ValidChart | DataIntegrity/mainwindow.cpp:230-266 | in a valid window every series is bounded and increasing below xVal, and holds the last 200 samples of its channel |

## Left out

- The chart, axes, colours, zoom button, LCD displays and timeout label (lines 13-108, 197-198, 204-219, 242-244, 262-264) are presentation only.
- `qDebug` output is left out, and so is the commented-out plotting code at lines 222-229.
- CSV logging (lines 18-25, 250-258) is file output with wall-clock timestamps.
- `scanSerialPorts`, `connectSerial` and `updateConnectionStatus` (lines 115-159) are serial-port and widget plumbing. This includes the repeated `connect` of the readyRead signal on every reconnect (line 137).
- Nothing in the source resets the buffer, `xVal` or the series on disconnect, and the model invents no reset.
- `serial->readAll()` (line 176) is I/O. `Window.MainWindow.HandleReadyRead` takes the bytes read as its `chunk` parameter.
- The timer is modelled as running or stopped, with `OnTimeout` as an external event. The 400 ms duration (line 28) and the clock are not modelled.
- The series are `QLineSeries` objects in the source, held by reference in `seriesList`. The model holds them as values, so aliasing between series is not modelled.
- The accepted sample vectors, which go to the LCD displays and the CSV log in the source, are kept as the ghost log `accepted`.
- `parseIncomingData` (mainwindow.h:56) is declared but never defined, so it is not part of this model.
- Window.MainWindow.ConsumeWindow: `xVal` is an unbounded integer. The source's `int` would overflow after about 2^30 accepted frames (undefined behaviour in C++), and that is not modelled.
- Window.MainWindow.HandleReadyRead: the slot's `return` statements inside the loop become a `waiting` flag that ends the loop. The loop body is split into the methods `NextWindow` and `ConsumeWindow`.
- The numeric form of the carried checksum, byte 14 × 256 + byte 15, is stated through `Frame.BigEndian` and `Frame.BigEndianOfReceived` on `bv16` rather than as an integer equation.
