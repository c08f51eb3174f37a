/** The bluetoothaudiosrc element's buffering and pacing state and the four
    operations that change it under the element's lock: a frame push from the
    Bluetooth audio source service, the blocking read of the audio pipeline,
    the service's speed control and the pipeline's reset.  Each locked section
    is one method; the read loop runs without interleaved frames. */
module AudioSrc {
  import opened Pacing
  import opened Memory
  import opened ReadLoop

  class BluetoothAudioSrc {
    /** The receive buffer; its valid data always sits at [0, writeOffset). */
    var buffer: array<byte>
    var bufferSize: nat
    var writeOffset: nat

    var playing: bool
    var buffering: bool
    var reset: bool

    /** Media time played so far, in nanoseconds. */
    var clock: nat
    /** Wall-clock time (ns) captured when the pipeline went to PLAYING. */
    var clockBase: nat

    var channels: nat
    var bitsPerSample: nat
    var frameRate: nat
    var bitrate: nat

    ghost predicate Valid()
      reads this
    {
      bufferSize == ReceiveBufferSize &&
      buffer.Length == bufferSize &&
      writeOffset < bufferSize &&
      clockBase < U64
    }

    /** The bytes waiting to be read, oldest first. */
    function Contents(): (s: seq<byte>)
      reads this, buffer
      requires Valid()
      ensures |s| == writeOffset
    {
      buffer[..writeOffset]
    }

    /** _audio_source_initialize: allocate the buffer, empty it, clear every
        flag and the clock.  The format fields are zero until prepare(). */
    constructor ()
      ensures Valid() && fresh(buffer)
      ensures Contents() == []
      ensures !playing && !buffering && !reset
      ensures clock == 0 && clockBase == 0 && bitrate == 0
    {
      bufferSize := ReceiveBufferSize;
      writeOffset := 0;
      buffer := new byte[ReceiveBufferSize];
      playing, buffering, reset := false, false, false;
      clock, clockBase := 0, 0;
      channels, bitsPerSample, frameRate, bitrate := 0, 0, 0, 0;
    }

    /** gst_bluetoothaudiosrc_prepare: the stream is fixed to 16-bit stereo at
        44100 Hz whatever format is negotiated. */
    method Prepare() returns (ok: bool)
      requires Valid()
      modifies this`channels, this`bitsPerSample, this`frameRate, this`bitrate
      ensures Valid() && Contents() == old(Contents())
      ensures ok
      ensures bitrate == Bitrate(PreparedChannels, PreparedBitsPerSample, PreparedFrameRate)
      ensures bitrate == 1411200 && bitrate / 8 == 176400
    {
      channels := PreparedChannels;
      bitsPerSample := PreparedBitsPerSample;
      frameRate := PreparedFrameRate;
      bitrate := channels * (bitsPerSample / 8) * frameRate * 8;
      PreparedByteRate();
      ok := true;
    }

    /** The PAUSED to PLAYING transition: only the pacing anchor is set; the
        clock keeps the media time already played. */
    method EnterPlaying(now: nat)
      requires Valid() && now < U64
      modifies this`clockBase
      ensures Valid() && Contents() == old(Contents())
      ensures clockBase == now
    {
      clockBase := now;
    }

    /** _audio_source_frame: append a frame, wrapping over the oldest data
        when it does not fit strictly before the end of the buffer. */
    method Frame(frame: seq<byte>)
      requires Valid()
      requires |frame| <= MaxFrameLength
      modifies this`writeOffset, buffer
      ensures Valid()
      ensures Contents() == Pushed(old(Contents()), frame)
    {
      if |frame| < bufferSize - writeOffset {
        Copy(buffer, writeOffset, frame);
        writeOffset := writeOffset + |frame|;
        assert buffer[..writeOffset] == old(Contents()) + frame;
      } else {
        // the space before the end of the buffer fits the guint16 `head`
        var head := bufferSize - writeOffset;
        assert head <= MaxFrameLength;
        Copy(buffer, writeOffset, frame[..head]);
        Copy(buffer, 0, frame[head..]);
        writeOffset := |frame| - head;
        assert buffer[..writeOffset] == frame[head..];
      }
    }

    /** _audio_source_set_sink_speed: 0 stops playing, 100 starts a fresh
        buffering phase and clears a pending reset, anything else is ignored. */
    method SetSpeed(speed: int)
      requires Valid()
      requires -128 <= speed < 128
      modifies this`playing, this`buffering, this`reset
      ensures Valid() && Contents() == old(Contents())
      ensures speed == 0 ==>
        !playing && buffering == old(buffering) && reset == old(reset)
      ensures speed == 100 ==> playing && buffering && !reset
      ensures speed != 0 && speed != 100 ==>
        playing == old(playing) && buffering == old(buffering) && reset == old(reset)
    {
      if speed == 0 {
        playing := false;
      } else if speed == 100 {
        reset := false;
        playing := true;
        buffering := true;
      }
    }

    /** gst_bluetoothaudiosrc_reset: ask a blocked read to return. */
    method Reset()
      requires Valid()
      modifies this`reset
      ensures Valid() && Contents() == old(Contents())
      ensures reset
    {
      reset := true;
    }

    /** advance_clock: credit `n` bytes of media time to the clock. */
    method AdvanceClock(n: nat) returns (played: nat)
      requires bitrate >= 8
      modifies this`clock
      ensures clock == old(clock) + ClockAdvance(bitrate, n)
      ensures played == clock
    {
      clock := clock + (NanosPerSecond * n) / (bitrate / 8);
      played := clock;
    }

    /** The serve branch of one read pass: move the `available` oldest
        buffered bytes to `data[at..]`, compact the rest to the front, credit
        their media time and leave the buffering phase. */
    method ServePass(data: array<byte>, at: nat, available: nat) returns (played: nat)
      requires Valid()
      requires data != buffer
      requires 0 < available <= writeOffset && at + available <= data.Length
      requires bitrate >= 8
      modifies this`writeOffset, this`clock, this`buffering, buffer, data
      ensures Valid()
      ensures Contents() == old(Contents())[available..]
      ensures data[..] == old(data[..])[..at] + old(Contents())[..available] + old(data[..])[at + available..]
      ensures clock == old(clock) + ClockAdvance(bitrate, available) && played == clock
      ensures !buffering
    {
      Copy(data, at, buffer[..available]);
      MoveDown(buffer, available, writeOffset - available);
      writeOffset := writeOffset - available;
      played := AdvanceClock(available);
      buffering := false;
    }

    /** The silence branch of one read pass: zero `data[at..at + count]` and
        credit its media time; the buffer and the flags are left alone. */
    method SilencePass(data: array<byte>, at: nat, count: nat) returns (played: nat)
      requires data != buffer
      requires at + count <= data.Length
      requires bitrate >= 8
      modifies this`clock, data
      ensures data[..] == old(data[..])[..at] + Zeros(count) + old(data[..])[at + count..]
      ensures clock == old(clock) + ClockAdvance(bitrate, count) && played == clock
    {
      Fill(data, at, count);
      played := AdvanceClock(count);
    }

    /** A serve pass inside the read loop, carrying the loop invariant. */
    method ServeStep(data: array<byte>, length: nat, result: nat, ghost start: Start, ghost clockPlayed: nat)
      returns (result': nat, played: nat)
      requires Valid()
      requires data != buffer
      requires 0 < result <= length
      requires Progress(start, length, bitrate, length - result, Contents(), data[..], buffering, clock, clockPlayed)
      requires Serves(start.playing, buffering, writeOffset, length)
      modifies this`writeOffset, this`buffering, this`clock, buffer, data
      ensures Valid()
      ensures result' < result
      ensures Progress(start, length, bitrate, length - result', Contents(), data[..], buffering, clock, played)
    {
      var done := length - result;
      ghost var content, out, buffering0, clock0 := Contents(), data[..], buffering, clock;
      var available := if result < writeOffset then result else writeOffset;
      played := ServePass(data, done, available);
      result' := result - available;
      ProgressServe(start, length, bitrate, done, available, length - result',
                    content, out, buffering0, clock0, clockPlayed,
                    Contents(), data[..], buffering, clock, played);
    }

    /** A silence pass inside the read loop, carrying the loop invariant. */
    method SilenceStep(data: array<byte>, length: nat, result: nat, ghost start: Start, ghost clockPlayed: nat)
      returns (result': nat, played: nat)
      requires Valid()
      requires data != buffer
      requires 0 < result <= length
      requires Progress(start, length, bitrate, length - result, Contents(), data[..], buffering, clock, clockPlayed)
      requires !Serves(start.playing, buffering, writeOffset, length)
      modifies this`clock, data
      ensures result' == 0
      ensures Progress(start, length, bitrate, length - result', Contents(), data[..], buffering, clock, played)
    {
      var done := length - result;
      ghost var out, clock0 := data[..], clock;
      played := SilencePass(data, done, result);
      result' := 0;
      ProgressSilence(start, length, bitrate, done, result, length - result',
                      Contents(), out, buffering, clock0, clockPlayed,
                      Contents(), data[..], buffering, clock, played);
    }

    /** One locked pass of the read loop once the reset check has passed:
        with the gate open, hand out min(result, writeOffset) buffered bytes;
        with it shut, fill the rest of the request with silence. */
    method Pass(data: array<byte>, length: nat, result: nat, ghost start: Start, ghost clockPlayed: nat)
      returns (result': nat, played: nat)
      requires Valid()
      requires data != buffer
      requires 0 < result <= length
      requires playing == start.playing
      requires Progress(start, length, bitrate, length - result, Contents(), data[..], buffering, clock, clockPlayed)
      modifies this`writeOffset, this`buffering, this`clock, buffer, data
      ensures Valid()
      ensures result' < result
      ensures Progress(start, length, bitrate, length - result', Contents(), data[..], buffering, clock, played)
    {
      var size: nat := length;
      if buffering {
        size := bufferSize / 4;
      }
      if (playing && writeOffset >= size) || (!playing && writeOffset != 0) {
        result', played := ServeStep(data, length, result, start, clockPlayed);
      } else {
        result', played := SilenceStep(data, length, result, start, clockPlayed);
      }
    }

    /** The loop of gst_bluetoothaudiosrc_read: pass after pass, stop on a
        pending reset, otherwise run one locked pass.  Returns the clock after
        the last pass (0 when none ran). */
    method FillRequest(data: array<byte>, length: nat) returns (clockPlayed: nat)
      requires Valid()
      requires data != buffer
      requires 0 < length <= data.Length
      requires bitrate >= 8
      modifies this`writeOffset, this`buffering, this`clock, buffer, data
      ensures Valid()
      // a pending reset leaves everything as it was
      ensures old(reset) ==>
        Contents() == old(Contents()) && buffering == old(buffering) &&
        clock == old(clock) && data[..] == old(data[..]) && clockPlayed == 0
      // otherwise the first Served(..) buffered bytes are handed out, oldest
      // first, and the rest of the request is silence
      ensures !old(reset) ==>
        var k := Served(old(playing), old(buffering), old(writeOffset), length);
        data[..] == old(Contents())[..k] + Zeros(length - k) + old(data[..])[length..] &&
        Contents() == old(Contents())[k..] &&
        buffering == (old(buffering) && !Serves(old(playing), old(buffering), old(writeOffset), length)) &&
        clock == old(clock) + ClockAdvance(bitrate, k) + ClockAdvance(bitrate, length - k) &&
        clockPlayed == clock
    {
      var result: nat := length;
      clockPlayed := 0;

      ghost var start := Start(Contents(), data[..], playing, buffering, clock);
      ProgressStart(start, length, bitrate);

      while result != 0
        invariant Valid()
        invariant reset ==> result == length
        invariant result <= length
        invariant Progress(start, length, bitrate, length - result, Contents(), data[..], buffering, clock, clockPlayed)
        decreases result
      {
        if reset {
          break;
        }
        result, clockPlayed := Pass(data, length, result, start, clockPlayed);
      }

      if !reset {
        var done := length - result;
        assert done == length;
        ProgressFinish(start, length, bitrate, done, Contents(), data[..], buffering, clock, clockPlayed);
      }
    }

    /** gst_bluetoothaudiosrc_read: fill `data[..length]` and return `length`
        together with the nanoseconds the caller then sleeps to keep a
        real-time pace (`now` is the wall-clock time read after the loop). */
    method Read(data: array<byte>, length: nat, now: nat) returns (n: nat, sleep: nat)
      requires Valid()
      requires data != buffer
      requires 0 < length <= data.Length && length < U32
      requires bitrate >= 8
      requires now < U64
      modifies this`writeOffset, this`buffering, this`clock, buffer, data
      ensures Valid()
      ensures n == length
      // a pending reset leaves everything as it was and does not sleep
      ensures old(reset) ==>
        Contents() == old(Contents()) && buffering == old(buffering) &&
        clock == old(clock) && data[..] == old(data[..]) && sleep == 0
      // otherwise the first Served(..) buffered bytes are handed out, oldest
      // first, the rest of the request is silence, and the sleep lets the
      // wall clock catch up with the media clock
      ensures !old(reset) ==>
        var k := Served(old(playing), old(buffering), old(writeOffset), length);
        data[..] == old(Contents())[..k] + Zeros(length - k) + old(data[..])[length..] &&
        Contents() == old(Contents())[k..] &&
        buffering == (old(buffering) && !Serves(old(playing), old(buffering), old(writeOffset), length)) &&
        clock == old(clock) + ClockAdvance(bitrate, k) + ClockAdvance(bitrate, length - k) &&
        sleep == Sleep(clock, now, clockBase)
    {
      var clockPlayed := FillRequest(data, length);
      if clockPlayed != 0 {
        // clock_now - clock_base on GstClockTime
        var elapsed := Elapsed(now, clockBase);
        sleep := if clockPlayed > elapsed then clockPlayed - elapsed else 0;
      } else {
        sleep := 0;
      }
      n := length;
    }
  }
}
