/** Runs of the element: a source that is constructed, prepared, fed frames
    and read from, with the results the contracts of the element's operations
    determine. */
module Scenarios {
  import opened Pacing
  import opened AudioSrc

  /** A fresh, prepared source holding the given frames. */
  method Prepared() returns (src: BluetoothAudioSrc)
    ensures fresh(src) && fresh(src.buffer) && src.Valid()
    ensures src.Contents() == []
    ensures !src.playing && !src.buffering && !src.reset
    ensures src.clock == 0 && src.clockBase == 0 && src.bitrate == 1411200
  {
    src := new BluetoothAudioSrc();
    var ok := src.Prepare();
  }

  /** Not playing, ten bytes buffered, a read of six: the six oldest bytes are
      handed out and the four newest stay buffered. */
  method StoppedPartialRead() returns (out: seq<byte>, rest: seq<byte>)
    ensures out == [0, 1, 2, 3, 4, 5]
    ensures rest == [6, 7, 8, 9]
  {
    var src := Prepared();
    src.Frame([0, 1, 2, 3, 4, 5, 6, 7, 8, 9]);
    var data := new byte[6](_ => 0);
    var n, sleep := src.Read(data, 6, 0);
    out, rest := data[..], src.Contents();
    assert Served(false, false, 10, 6) == 6;
  }

  /** A frame that does not fit after 60000 buffered bytes keeps only its own
      last 4464 bytes. */
  method OverflowKeepsFrameTail() returns (rest: seq<byte>)
    ensures |rest| == 4464
    ensures rest == seq(4464, i => 7)
  {
    var src := Prepared();
    src.Frame(seq(60000, i => 1));
    src.Frame(seq(10000, i => 7));
    rest := src.Contents();
  }

  /** Not playing and nothing buffered: a read of 100 bytes is silence and
      moves the clock by 100 bytes of 16-bit stereo at 44100 Hz, which the
      reader then sleeps off when no wall-clock time has passed. */
  method EmptyReadIsSilence() returns (out: seq<byte>, clock: nat, sleep: nat)
    ensures out == Zeros(100)
    ensures clock == 566893
    ensures sleep == 566893
  {
    var src := Prepared();
    var data := new byte[100](_ => 9);
    var n;
    n, sleep := src.Read(data, 100, 0);
    out, clock := data[..], src.clock;
    assert Served(false, false, 0, 100) == 0;
    assert ClockAdvance(1411200, 0) == 0;
    assert ClockAdvance(1411200, 100) == 566893;
  }

  /** Playback starts with speed 100: while fewer than a quarter of the
      buffer's bytes are buffered, reads are silence and the source keeps
      buffering; the buffered bytes stay. */
  method StartupBuffering() returns (out: seq<byte>, rest: nat, buffering: bool)
    ensures out == Zeros(1000)
    ensures rest == 1000
    ensures buffering
  {
    var src := Prepared();
    src.SetSpeed(100);
    src.Frame(seq(1000, i => 5));
    var data := new byte[1000](_ => 9);
    var n, sleep := src.Read(data, 1000, 0);
    out, rest, buffering := data[..], |src.Contents()|, src.buffering;
    assert Served(true, true, 1000, 1000) == 0;
  }

  /** Once a quarter of the buffer is buffered, a read is served from it and
      buffering ends. */
  method StartupThresholdReached() returns (out: seq<byte>, rest: nat, buffering: bool)
    ensures out == seq(1000, i => 5)
    ensures rest == BufferingThreshold - 1000
    ensures !buffering
  {
    var src := Prepared();
    src.SetSpeed(100);
    src.Frame(seq(BufferingThreshold, i => 5));
    var data := new byte[1000](_ => 9);
    var n, sleep := src.Read(data, 1000, 0);
    out, rest, buffering := data[..], |src.Contents()|, src.buffering;
    assert Served(true, true, BufferingThreshold, 1000) == 1000;
  }

  /** A pending reset makes a read return at once: nothing is written,
      nothing consumed, no sleep. */
  method ResetReadReturns() returns (out: seq<byte>, rest: seq<byte>, sleep: nat)
    ensures out == [9, 9, 9]
    ensures rest == [1, 2]
    ensures sleep == 0
  {
    var src := Prepared();
    src.Frame([1, 2]);
    src.Reset();
    var data := new byte[3](_ => 9);
    var n;
    n, sleep := src.Read(data, 3, 0);
    out, rest := data[..], src.Contents();
  }

  /** Speed 100 clears a pending reset, so the next read runs again. */
  method SpeedClearsReset() returns (reset: bool)
    ensures !reset
  {
    var src := Prepared();
    src.Reset();
    src.SetSpeed(100);
    reset := src.reset;
  }

  /** Two reads from a stopped source, with no frame in between, play out
      the buffered bytes in the order they were pushed and then silence. */
  method StoppedPlaysOut(src: BluetoothAudioSrc, d1: array<byte>, l1: nat, d2: array<byte>, l2: nat, now: nat)
    requires src.Valid() && !src.playing && !src.reset && src.bitrate >= 8
    requires d1 != src.buffer && d2 != src.buffer && d1 != d2
    requires 0 < l1 <= d1.Length && l1 < U32 && 0 < l2 <= d2.Length && l2 < U32
    requires now < U64
    modifies src, src.buffer, d1, d2
    ensures
      var m := Min(l1 + l2, |old(src.Contents())|);
      d1[..l1] + d2[..l2] == old(src.Contents())[..m] + Zeros(l1 + l2 - m)
  {
    ghost var c := src.Contents();
    var n1, s1 := src.Read(d1, l1, now);
    StoppedDrains(old(src.buffering), |c|, l1);
    var k1 := Min(l1, |c|);
    assert d1[..l1] == c[..k1] + Zeros(l1 - k1);
    assert src.Contents() == c[k1..];
    ghost var b := src.buffering;
    var n2, s2 := src.Read(d2, l2, now);
    StoppedDrains(b, |c| - k1, l2);
    var k2 := Min(l2, |c| - k1);
    assert d2[..l2] == c[k1..][..k2] + Zeros(l2 - k2);
    StoppedOutputs(c, l1, l2);
  }

  /** Successive reads, with no frame, speed change or reset in between,
      consume the buffered bytes in the order `Drained` gives: after them the
      buffer holds exactly what follows the bytes `Drained` hands out. */
  method ReadAll(src: BluetoothAudioSrc, data: array<byte>, lengths: seq<nat>, now: nat)
    requires src.Valid() && !src.reset && src.bitrate >= 8
    requires data != src.buffer
    requires forall i :: 0 <= i < |lengths| ==> 0 < lengths[i] <= data.Length && lengths[i] < U32
    requires now < U64
    modifies src`writeOffset, src`buffering, src`clock, src.buffer, data
    ensures src.Valid()
    ensures |Drained(old(src.Contents()), src.playing, old(src.buffering), lengths)| <= |old(src.Contents())|
    ensures src.Contents() ==
      old(src.Contents())[|Drained(old(src.Contents()), src.playing, old(src.buffering), lengths)|..]
    decreases |lengths|
  {
    ghost var c, b := src.Contents(), src.buffering;
    DrainedIsPrefix(c, src.playing, b, lengths);
    if lengths != [] {
      var n, sleep := src.Read(data, lengths[0], now);
      ReadAll(src, data, lengths[1..], now);
      DrainedStep(c, src.playing, b, lengths);
    }
  }
}
