# bluetoothaudiosrc buffering and pacing engine, in Dafny

This project models the part of the GStreamer `bluetoothaudiosrc` element
that does real work: the receive buffer that the Bluetooth audio source
service fills frame by frame, and the live-source read that drains it into
the audio pipeline at a real-time pace.

The state is one object, `AudioSrc.BluetoothAudioSrc`. Its fields are:

- a 64 KiB byte array whose valid data is always `buffer[0, writeOffset)`;
- the flags `playing`, `buffering` and `reset`;
- the media clock `clock`, in nanoseconds;
- the wall-clock anchor `clockBase`;
- the stream format fixed by `prepare()`.

Each locked section of the C code is one method that changes this state in
place:

- `Frame` is a frame push: append the frame, or wrap over the oldest data when it does not fit.
- `SetSpeed` is the speed-control state machine.
- `Reset` is the cancel.
- `Pass` is one pass of the blocking read, which takes the lock once per pass.

The blocking read itself is `Read`. Its `while (result != 0)` loop is in
`FillRequest`, which `Read` calls. Each pass stops on a pending reset or
runs `Pass`, which either hands out buffered bytes or writes silence and
advances the clock. After the loop, `Read` computes how long to sleep. The memcpy, memmove and
memset calls are array loops in module `Memory`.

The pure parts live in module `Pacing`:

- the gate `Serves`/`Served`;
- the clock step `ClockAdvance`;
- the sleep `Sleep`;
- the content of the buffer after a push, `Pushed`;
- the bytes successive reads hand out, `Drained`.

Every state-changing method is proved against these functions.

`Read` is specified in closed form. Let `k = Served(playing, buffering, writeOffset, length)`. Then:

- the first `k` buffered bytes are handed out, oldest first;
- the rest of the request is silence;
- the clock advances by the media time of those two chunks;
- `buffering` is cleared exactly when the gate was open;
- the returned sleep is the lead of the media clock over the wall-clock time elapsed since PLAYING.

The loop invariant behind this is the predicate `ReadLoop.Progress`. It says that only the first pass can serve data, and that a serve pass either completes the request or leaves the buffer empty, which shuts the gate for the next pass.

Time is an input. The wall-clock reading taken after the loop is the `now` parameter of `Read`. The PLAYING transition's reading is the `now` parameter of `EnterPlaying`. The sleep is returned in nanoseconds, not slept.

Points where the code's behaviour may be surprising. The model does what the code does:

- When playing and not buffering, the gate compares the buffered byte count with the whole request `length`, not with what is still outstanding. A buffer holding fewer bytes than the request serves none of them: the whole request becomes silence and nothing is consumed (`Pacing.UnderflowIsAllSilence`).
- On overflow, every older byte is lost. Only the frame's bytes past the wrap point remain, which is `|content| + |frame| - 65536` bytes; the buffer is not left full (`Pacing.OverflowDiscardsAllOld`). A frame that exactly fills the free space leaves the buffer empty (`Pacing.ExactFitEmpties`).
- `read` returns `length` even when a pending reset made it return at once without writing anything.
- Entering PLAYING sets only `clockBase`. `clock` keeps the media time already played and is never zeroed.
- `buffering` does not imply `playing`: speed 0 leaves `buffering` as it was.

## Model

| member | source | states |
|---|---|---|
| AudioSrc.BluetoothAudioSrc.constructor | gstbluetoothaudiosrc.c:220-230 | the buffer is a fresh 64 KiB array with no valid data; every flag is false; clock and clock base are 0 |
| AudioSrc.BluetoothAudioSrc.Prepare | gstbluetoothaudiosrc.c:456-461 | success; the bitrate is that of 2 channels of 16-bit samples at 44100 Hz, that is 1411200 bit/s or 176400 bytes/s; the buffer is untouched |
| Pacing.PreparedByteRate | gstbluetoothaudiosrc.c:459 | the prepared format gives 1411200 bit/s and 176400 bytes per second |
| AudioSrc.BluetoothAudioSrc.EnterPlaying | gstbluetoothaudiosrc.c:416-422 | the PLAYING transition sets only the clock base to the current wall-clock time; clock and buffer keep their values |
| AudioSrc.BluetoothAudioSrc.Frame | gstbluetoothaudiosrc.c:128-152 | the write offset stays below the capacity; the new content is `Pushed(old content, frame)` |
| Pacing.Pushed | gstbluetoothaudiosrc.c:138-146 | the content after a push stays below the capacity; either nothing was dropped or exactly one capacity's worth; what remains is a suffix of old content followed by the frame |
| Pacing.PushAppends | gstbluetoothaudiosrc.c:138-140 | a frame with `length < C - w` is appended after the unchanged old content |
| Pacing.OverflowDiscardsAllOld | gstbluetoothaudiosrc.c:141-146 | an overflowing frame leaves `w_old + length - C` bytes: exactly the frame's tail past the wrap, fewer bytes than before, and no old byte |
| Pacing.ExactFitEmpties | gstbluetoothaudiosrc.c:138-146 | a frame that exactly fills the free space leaves the buffer empty |
| Memory.Copy | gstbluetoothaudiosrc.c:139-145 | memcpy: the destination range holds the source bytes; every other byte is unchanged |
| Memory.MoveDown | gstbluetoothaudiosrc.c:545 | memmove to the front: the moved bytes come first, in order; every byte from position `count` on is unchanged |
| Memory.Fill | gstbluetoothaudiosrc.c:557 | memset to 0: the range is zero; every other byte is unchanged |
| AudioSrc.BluetoothAudioSrc.SetSpeed | gstbluetoothaudiosrc.c:82-104 | speed 0 clears only `playing`; speed 100 clears `reset` and sets `playing` and `buffering`; any other speed changes nothing; the buffer is untouched |
| AudioSrc.BluetoothAudioSrc.Reset | gstbluetoothaudiosrc.c:596-609 | sets only `reset`; the buffer is untouched |
| AudioSrc.BluetoothAudioSrc.AdvanceClock | gstbluetoothaudiosrc.c:492-499 | the clock grows by `ClockAdvance(bitrate, n)`; the new clock is returned |
| Pacing.ClockAdvanceIsFloor | gstbluetoothaudiosrc.c:496 | the advance is `floor(1e9 * n / (bitrate / 8))`, stated as the two bounds of a floor; 0 bytes advance nothing |
| Pacing.ClockAdvanceMonotonic | gstbluetoothaudiosrc.c:496 | more bytes never advance the clock less |
| Pacing.PreparedChunkAdvances | gstbluetoothaudiosrc.c:496 | at the prepared bitrate, each byte adds at least 5668 ns, so every non-empty chunk advances the clock |
| Pacing.SplitChunkBounds | gstbluetoothaudiosrc.c:549-558 | a served chunk plus a silence chunk credit the whole request's duration, give or take 1 ns of rounding |
| Pacing.Served | gstbluetoothaudiosrc.c:527-539 | the bytes served are at most the request and at most the buffered count; they are non-zero exactly when the gate is open; they are 0, the whole request or the whole buffer |
| Pacing.GateCases | gstbluetoothaudiosrc.c:527-535 | data is served exactly when playing and buffering with at least 16384 bytes, or playing and not buffering with at least `length` bytes, or stopped with a non-empty buffer |
| Pacing.StartupWithholds | gstbluetoothaudiosrc.c:529-535 | while playing and buffering with fewer than 16384 bytes, nothing is served |
| Pacing.UnderflowIsAllSilence | gstbluetoothaudiosrc.c:527-558 | when playing and not buffering, a buffer with fewer bytes than the request serves nothing |
| Pacing.StoppedDrains | gstbluetoothaudiosrc.c:534-539 | a stopped source serves `min(length, w)` bytes |
| AudioSrc.BluetoothAudioSrc.ServePass | gstbluetoothaudiosrc.c:539-550 | the `available` oldest bytes land at the output offset; the rest of the buffer moves to the front in order; the clock advances by `available` bytes; buffering ends |
| AudioSrc.BluetoothAudioSrc.SilencePass | gstbluetoothaudiosrc.c:552-560 | the rest of the output request is zero; the clock advances by that many bytes; buffer and flags are untouched |
| AudioSrc.BluetoothAudioSrc.ServeStep | gstbluetoothaudiosrc.c:539-550 | a serve pass takes `available = min(result, w)` bytes, where `available >= 1` as the source asserts; it strictly decreases `result` and keeps the read-loop invariant |
| AudioSrc.BluetoothAudioSrc.SilenceStep | gstbluetoothaudiosrc.c:552-560 | a silence pass sets `result` to 0 and keeps the read-loop invariant |
| AudioSrc.BluetoothAudioSrc.Pass | gstbluetoothaudiosrc.c:527-562 | one unreset pass of the loop strictly decreases `result` and keeps the read-loop invariant |
| ReadLoop.ProgressStart | gstbluetoothaudiosrc.c:506-515 | the invariant holds on entry, with nothing done and `clock_played` 0 |
| ReadLoop.ProgressServe | gstbluetoothaudiosrc.c:539-550 | a serve pass can only be the first pass, and it takes exactly the `Served` bytes of the whole read |
| ReadLoop.ProgressSilence | gstbluetoothaudiosrc.c:552-560 | a silence pass completes the request and keeps the invariant |
| ReadLoop.ProgressFinish | gstbluetoothaudiosrc.c:517-563 | a completed loop leaves the closed-form output, content, flag and clock |
| AudioSrc.BluetoothAudioSrc.FillRequest | gstbluetoothaudiosrc.c:506-563 | the loop terminates. A pending reset leaves output, buffer, flag and clock unchanged, with 0 played. Otherwise the output is the first `Served` bytes then zeros; the buffer keeps the rest in order; `buffering` is cleared exactly when the gate was open; the clock covers both chunks |
| AudioSrc.BluetoothAudioSrc.Read | gstbluetoothaudiosrc.c:502-580 | returns `length`. A pending reset changes nothing and does not sleep. Otherwise the output, buffer, flag and clock are as for `FillRequest`, and the sleep is `Sleep(clock, now, clockBase)` |
| Pacing.Elapsed | gstbluetoothaudiosrc.c:572 | `clock_now - clock_base` on the unsigned 64-bit `GstClockTime` wraps when the base is ahead |
| Pacing.Sleep | gstbluetoothaudiosrc.c:565-576 | a non-zero sleep is exactly the media clock's lead, so it ends when the elapsed wall-clock time reaches the media clock; there is no sleep exactly when the clock is not ahead; the sleep never exceeds the clock |
| Pacing.DrainedIsPrefix | gstbluetoothaudiosrc.c:539-550 | successive reads hand out buffered bytes in FIFO order: what they serve is a prefix of the buffered content |
| Pacing.DrainedStep | gstbluetoothaudiosrc.c:517-563 | after the first read's served bytes, the remaining reads hand out at most what is left, and together they leave the same buffer suffix as all the reads |
| Pacing.StoppedDrainsInOrder | gstbluetoothaudiosrc.c:535-550 | a stopped source's successive reads hand out exactly the first `min(total requested, w)` buffered bytes |
| Pacing.StoppedOutputs | gstbluetoothaudiosrc.c:534-560 | two reads of a stopped source together yield the buffered bytes, oldest first, then silence |
| Scenarios.StoppedPlaysOut | gstbluetoothaudiosrc.c:502-580 | two consecutive reads from any stopped, unreset source output its first `min(l1 + l2, w)` buffered bytes in push order, then zeros |
| Scenarios.ReadAll | gstbluetoothaudiosrc.c:502-580 | successive `Read` calls on any unreset source, with nothing else in between, leave buffered exactly the bytes after the `Drained` prefix of the old content |
| Scenarios.StoppedPartialRead | gstbluetoothaudiosrc.c:534-550 | stopped with bytes 0..9 buffered, a read of 6 yields 0..5 and leaves 6..9 |
| Scenarios.OverflowKeepsFrameTail | gstbluetoothaudiosrc.c:141-146 | after 60000 buffered bytes, a 10000-byte frame leaves only its last 4464 bytes |
| Scenarios.EmptyReadIsSilence | gstbluetoothaudiosrc.c:552-576 | stopped and empty, a read of 100 bytes is silence, advances the clock by 566893 ns, and sleeps that long at elapsed time 0 |
| Scenarios.StartupBuffering | gstbluetoothaudiosrc.c:529-560 | after speed 100 with 1000 bytes buffered, a read of 1000 is silence; the bytes stay and buffering goes on |
| Scenarios.StartupThresholdReached | gstbluetoothaudiosrc.c:529-550 | with 16384 bytes buffered while buffering, a read of 1000 serves 1000 bytes and ends buffering |
| Scenarios.ResetReadReturns | gstbluetoothaudiosrc.c:521-525 | with a reset pending, a read writes nothing, consumes nothing and does not sleep |
| Scenarios.SpeedClearsReset | gstbluetoothaudiosrc.c:95-99 | speed 100 clears a pending reset |

`Pacing.Drained` folds `Read`'s closed form over a list of request lengths.
`Scenarios.ReadAll` ties the fold to the class: it calls `Read` once per
length and proves that the buffer left at the end is what follows the
`Drained` bytes.

## Left out

- GStreamer and GObject plumbing is not modelled: class and instance setup, properties, dispose/finalize, caps, plugin registration and the rest of `change_state`. These are framework calls with no buffer logic. The PLAYING transition is kept only as `EnterPlaying`.
- The Bluetooth audio source service glue is not modelled: callback registration, the operational-state and state-change handlers, the `atexit` dispose handler, and the stub sink callbacks (configure, acquire, relinquish, get_time, get_delay). These only call into the service, log, or return success.
- `gst_bluetoothaudiosrc_delay` is not modelled. It always returns 0.
- gstbluetoothaudiosource.c is not part of this model. It is an earlier skeleton of the element with no buffer logic.
- The mutex is not modelled. Each locked section is one method, and no frame arrives between the passes of one read. The model does not capture a read unblocked by frames or by a reset arriving mid-read.
- `timespec_get` and `g_usleep` are not modelled. The clock readings are parameters, and the sleep is returned in nanoseconds. The C code sleeps `sleep / 1000` microseconds; that division is not modelled.
- Read: the 64-bit wrap-around of `clock` is not modelled; `clock` is an unbounded natural number. The wrap of `clock_now - clock_base` is modelled, in `Elapsed`.
- Read: the `length != 0` assertion of the source becomes a precondition, together with `bitrate >= 8`, which holds after `prepare()`. Without that, `advance_clock` would divide by zero.
- The constructor does not model a failed `malloc`, which the source only asserts against.
- Logging, debug output and the buffer-overflow and underflow warnings are not modelled.
- Prepare: the negotiated format is ignored by the source, which always uses 2 channels of 16-bit samples at 44100 Hz. The model therefore takes no format argument.
