/** Pure part of the Bluetooth audio source's buffering and pacing engine:
    the fixed sizes, the gate that decides between serving buffered bytes and
    synthesising silence, the media-clock arithmetic, the pacing sleep and the
    logical buffer content after a frame push.  The element itself, which owns
    the byte array and the flags, is modelled in module AudioSrc. */
module Pacing {

  type byte = x: int | 0 <= x < 256

  /** RECEIVE_BUFFER_SIZE: capacity of the receive buffer in bytes. */
  const ReceiveBufferSize: nat := 64 * 1024

  /** While buffering, data is withheld until a quarter of the buffer is filled. */
  const BufferingThreshold: nat := ReceiveBufferSize / 4

  /** Frames arrive with a uint16_t length. */
  const MaxFrameLength: nat := 0xFFFF

  /** Ranges of guint and guint64 (GstClockTime). */
  const U32: nat := 0x1_0000_0000
  const U64: nat := 0x1_0000_0000_0000_0000

  const NanosPerSecond: nat := 1_000_000_000

  /** The format fixed by prepare(): 2 channels of 16-bit samples at 44100 Hz. */
  const PreparedChannels: nat := 2
  const PreparedBitsPerSample: nat := 16
  const PreparedFrameRate: nat := 44100

  function Min(a: nat, b: nat): (r: nat) {
    if a < b then a else b
  }

  function Zeros(n: nat): (z: seq<byte>)
    ensures |z| == n
    ensures forall i :: 0 <= i < n ==> z[i] == 0
  {
    seq(n, _ => 0)
  }

  /** Bits per second of the stream, as prepare() computes it. */
  function Bitrate(channels: nat, bitsPerSample: nat, frameRate: nat): (r: nat) {
    channels * (bitsPerSample / 8) * frameRate * 8
  }

  lemma PreparedByteRate()
    ensures Bitrate(PreparedChannels, PreparedBitsPerSample, PreparedFrameRate) == 1411200
    ensures Bitrate(PreparedChannels, PreparedBitsPerSample, PreparedFrameRate) / 8 == 176400
  {
  }

  // ---------------------------------------------------------------------
  // Frame push

  /** Logical content of the buffer (the bytes at [0, write offset)) after a
      frame is pushed onto `content`.  A frame that does not fit strictly
      before the end of the storage wraps: its head fills the storage up to
      the end, its tail lands at the front, and the write offset becomes the
      tail's length, so every older byte is lost. */
  function Pushed(content: seq<byte>, frame: seq<byte>): (r: seq<byte>)
    requires |content| < ReceiveBufferSize
    requires |frame| <= MaxFrameLength
    // the write offset stays below the capacity
    ensures |r| < ReceiveBufferSize
    // nothing is dropped, or on overflow exactly one capacity's worth of bytes
    ensures |r| == |content| + |frame| || |r| == |content| + |frame| - ReceiveBufferSize
    // and what is dropped are the oldest bytes of the old content followed by the frame
    ensures r == (content + frame)[|content| + |frame| - |r|..]
  {
    if |frame| < ReceiveBufferSize - |content| then
      content + frame
    else
      frame[ReceiveBufferSize - |content|..]
  }

  /** A frame that fits before the end of the storage is appended. */
  lemma PushAppends(content: seq<byte>, frame: seq<byte>)
    requires |content| < ReceiveBufferSize && |frame| <= MaxFrameLength
    requires |content| + |frame| < ReceiveBufferSize
    ensures Pushed(content, frame) == content + frame
    ensures Pushed(content, frame)[..|content|] == content
  {
  }

  /** An overflowing frame drops every byte that was buffered before it and
      keeps only the part of the frame written past the wrap. */
  lemma OverflowDiscardsAllOld(content: seq<byte>, frame: seq<byte>)
    requires |content| < ReceiveBufferSize && |frame| <= MaxFrameLength
    requires |content| + |frame| >= ReceiveBufferSize
    ensures |Pushed(content, frame)| == |content| + |frame| - ReceiveBufferSize
    ensures |Pushed(content, frame)| < |content|
    ensures Pushed(content, frame) == (content + frame)[ReceiveBufferSize..]
    ensures Pushed(content, frame) == frame[|frame| - |Pushed(content, frame)|..]
  {
  }

  /** A frame that exactly fills the free space leaves the buffer empty. */
  lemma ExactFitEmpties(content: seq<byte>, frame: seq<byte>)
    requires |content| < ReceiveBufferSize && |frame| <= MaxFrameLength
    requires |content| + |frame| == ReceiveBufferSize
    ensures Pushed(content, frame) == []
  {
  }

  // ---------------------------------------------------------------------
  // The gate of one read pass

  /** The number of buffered bytes that must be present before a playing
      source serves data: a quarter of the buffer while buffering, otherwise
      the whole request length (not the part of it still outstanding). */
  function Threshold(buffering: bool, length: nat): (r: nat) {
    if buffering then BufferingThreshold else length
  }

  /** Whether a read pass serves buffered data (rather than silence) when
      `available` bytes are buffered and `length` bytes were requested. */
  predicate Serves(playing: bool, buffering: bool, available: nat, length: nat) {
    (playing && available >= Threshold(buffering, length)) || (!playing && available != 0)
  }

  /** Number of buffered bytes one read of `length` bytes hands out, starting
      from `available` buffered bytes and the given flags, when no reset is
      pending and no frame arrives meanwhile. */
  function Served(playing: bool, buffering: bool, available: nat, length: nat): (k: nat)
    ensures k <= length && k <= available
    ensures length > 0 ==> (k > 0 <==> Serves(playing, buffering, available, length))
    ensures k == 0 || k == length || k == available
  {
    if Serves(playing, buffering, available, length) then Min(length, available) else 0
  }

  /** Data is served exactly in the three documented cases. */
  lemma GateCases(playing: bool, buffering: bool, available: nat, length: nat)
    requires length > 0
    ensures Served(playing, buffering, available, length) > 0 <==>
      (playing && buffering && available >= 16384) ||
      (playing && !buffering && available >= length) ||
      (!playing && available != 0)
  {
  }

  /** Startup buffering: right after playback starts, nothing is served until
      a quarter of the buffer has accumulated. */
  lemma StartupWithholds(available: nat, length: nat)
    requires available < BufferingThreshold
    ensures Served(true, true, available, length) == 0
  {
  }

  /** Underflow: once past startup buffering, a buffer holding fewer bytes than
      the request serves none of them; the whole request becomes silence. */
  lemma UnderflowIsAllSilence(available: nat, length: nat)
    requires available < length
    ensures Served(true, false, available, length) == 0
  {
  }

  /** A stopped source keeps draining whatever is buffered. */
  lemma StoppedDrains(buffering: bool, available: nat, length: nat)
    requires length > 0
    ensures Served(false, buffering, available, length) == Min(length, available)
  {
  }

  // ---------------------------------------------------------------------
  // Media clock

  /** Nanoseconds of media time in `n` bytes at the given bitrate (advance_clock). */
  function ClockAdvance(bitrate: nat, n: nat): (r: nat)
    requires bitrate >= 8
  {
    (NanosPerSecond * n) / (bitrate / 8)
  }

  /** The advance is the duration of `n` bytes at `bitrate / 8` bytes per
      second, rounded down to whole nanoseconds. */
  lemma ClockAdvanceIsFloor(bitrate: nat, n: nat)
    requires bitrate >= 8
    ensures ClockAdvance(bitrate, n) * (bitrate / 8) <= NanosPerSecond * n
    ensures NanosPerSecond * n < (ClockAdvance(bitrate, n) + 1) * (bitrate / 8)
    ensures n == 0 ==> ClockAdvance(bitrate, n) == 0
  {
  }

  lemma {:induction false} ClockAdvanceMonotonic(bitrate: nat, m: nat, n: nat)
    requires bitrate >= 8 && m <= n
    ensures ClockAdvance(bitrate, m) <= ClockAdvance(bitrate, n)
  {
    var d := bitrate / 8;
    var a, b := ClockAdvance(bitrate, m), ClockAdvance(bitrate, n);
    ClockAdvanceIsFloor(bitrate, m);
    ClockAdvanceIsFloor(bitrate, n);
    MulMonotonic(m, n, NanosPerSecond);
    assert a * d < (b + 1) * d;
    MulStrict(a, b + 1, d);
  }

  /** After prepare(), each non-empty chunk moves the clock by at least 1 ns,
      in fact by at least 5668 ns per byte. */
  lemma PreparedChunkAdvances(n: nat)
    requires n >= 1
    ensures ClockAdvance(1411200, n) >= 5668 * n
    ensures ClockAdvance(1411200, n) >= 1
  {
    ClockAdvanceIsFloor(1411200, n);
  }

  /** Splitting a read into a served chunk and a silence chunk credits the clock
      with the full request's duration, up to one nanosecond of rounding. */
  lemma {:induction false} SplitChunkBounds(bitrate: nat, k: nat, n: nat)
    requires bitrate >= 8 && k <= n
    ensures ClockAdvance(bitrate, k) + ClockAdvance(bitrate, n - k) <= ClockAdvance(bitrate, n)
    ensures ClockAdvance(bitrate, n) <= ClockAdvance(bitrate, k) + ClockAdvance(bitrate, n - k) + 1
  {
    var d := bitrate / 8;
    var a, b, c := ClockAdvance(bitrate, k), ClockAdvance(bitrate, n - k), ClockAdvance(bitrate, n);
    ClockAdvanceIsFloor(bitrate, k);
    ClockAdvanceIsFloor(bitrate, n - k);
    ClockAdvanceIsFloor(bitrate, n);
    assert NanosPerSecond * k + NanosPerSecond * (n - k) == NanosPerSecond * n;
    assert (a + b) * d <= NanosPerSecond * n;
    assert NanosPerSecond * n < (a + b + 2) * d;
    MulStrict(a + b, c + 1, d);
    MulStrict(c, a + b + 2, d);
  }

  lemma MulMonotonic(x: nat, y: nat, d: nat)
    requires x <= y
    ensures x * d <= y * d
  {
  }

  lemma MulStrict(x: nat, y: nat, d: nat)
    ensures x * d < y * d ==> x < y
  {
    if x >= y {
      MulMonotonic(y, x, d);
    }
  }

  // ---------------------------------------------------------------------
  // Pacing sleep

  /** now - clock_base on GstClockTime (unsigned 64-bit, wrapping). */
  function Elapsed(now: nat, base: nat): (e: nat)
    requires now < U64 && base < U64
    ensures e < U64
    ensures base <= now ==> e == now - base
    ensures now < base ==> e == now + U64 - base
  {
    (now - base) % U64
  }

  /** Nanoseconds the reader sleeps after a read that left the clock at
      `clockPlayed`: the lead of the media clock over the wall-clock time
      elapsed since playback started, or 0 when there is no lead. */
  function Sleep(clockPlayed: nat, now: nat, base: nat): (s: nat)
    requires now < U64 && base < U64
    ensures Elapsed(now, base) + s >= clockPlayed
    ensures s == 0 <==> clockPlayed <= Elapsed(now, base)
    // a sleep ends exactly when the wall clock catches up with the media clock
    ensures s > 0 ==> Elapsed(now, base) + s == clockPlayed
    ensures s <= clockPlayed
  {
    var elapsed := Elapsed(now, base);
    if clockPlayed > elapsed then clockPlayed - elapsed else 0
  }

  // ---------------------------------------------------------------------
  // Successive reads

  function Sum(lengths: seq<nat>): (r: nat) {
    if lengths == [] then 0 else lengths[0] + Sum(lengths[1..])
  }

  /** What two reads of a stopped source produce together: the first serves
      `Min(l1, |c|)` buffered bytes and pads with silence, the second serves
      from what is left.  Together they are the buffered bytes, oldest first,
      followed by silence. */
  lemma {:induction false} StoppedOutputs(c: seq<byte>, l1: nat, l2: nat)
    ensures
      var k1 := Min(l1, |c|);
      var k2 := Min(l2, |c| - k1);
      var m := Min(l1 + l2, |c|);
      c[..k1] + Zeros(l1 - k1) + (c[k1..][..k2] + Zeros(l2 - k2)) == c[..m] + Zeros(l1 + l2 - m)
  {
    var k1 := Min(l1, |c|);
    var k2 := Min(l2, |c| - k1);
    var m := Min(l1 + l2, |c|);
    if k1 < l1 {
      assert k2 == 0 && m == k1;
      assert Zeros(l1 - k1) + Zeros(l2) == Zeros(l1 + l2 - m);
    } else {
      assert m == k1 + k2;
      assert c[..k1] + c[k1..][..k2] == c[..m];
    }
  }

  /** The buffered bytes handed out, in order, by successive unreset reads of
      the given lengths starting from buffered `content`, with no frame and no
      speed change in between. */
  function Drained(content: seq<byte>, playing: bool, buffering: bool, lengths: seq<nat>): (r: seq<byte>)
    decreases |lengths|
  {
    if lengths == [] then []
    else
      var k := Served(playing, buffering, |content|, lengths[0]);
      content[..k] + Drained(content[k..], playing,
                             buffering && !Serves(playing, buffering, |content|, lengths[0]),
                             lengths[1..])
  }

  /** Reads hand buffered bytes out in FIFO order: whatever successive reads
      serve is a prefix of the buffered content. */
  lemma {:induction false} DrainedIsPrefix(content: seq<byte>, playing: bool, buffering: bool, lengths: seq<nat>)
    ensures |Drained(content, playing, buffering, lengths)| <= |content|
    ensures Drained(content, playing, buffering, lengths) == content[..|Drained(content, playing, buffering, lengths)|]
    decreases |lengths|
  {
    if lengths != [] {
      var k := Served(playing, buffering, |content|, lengths[0]);
      var b' := buffering && !Serves(playing, buffering, |content|, lengths[0]);
      DrainedIsPrefix(content[k..], playing, b', lengths[1..]);
      var rest := Drained(content[k..], playing, b', lengths[1..]);
      assert content[..k] + rest == content[..k + |rest|];
    }
  }

  /** One read's step of `Drained`: what the remaining reads leave buffered
      after the first read's `Served` bytes is what all of them leave. */
  lemma DrainedStep(content: seq<byte>, playing: bool, buffering: bool, lengths: seq<nat>)
    requires lengths != []
    ensures
      var k := Served(playing, buffering, |content|, lengths[0]);
      var rest := Drained(content[k..], playing,
                          buffering && !Serves(playing, buffering, |content|, lengths[0]),
                          lengths[1..]);
      |rest| <= |content| - k &&
      |Drained(content, playing, buffering, lengths)| == k + |rest| &&
      content[k..][|rest|..] == content[|Drained(content, playing, buffering, lengths)|..]
  {
    var k := Served(playing, buffering, |content|, lengths[0]);
    var b' := buffering && !Serves(playing, buffering, |content|, lengths[0]);
    DrainedIsPrefix(content[k..], playing, b', lengths[1..]);
  }

  /** A stopped source hands out every buffered byte until the buffer is
      exhausted: reads totalling `Sum(lengths)` bytes reproduce exactly the
      first `Min(Sum(lengths), |content|)` buffered bytes. */
  lemma {:induction false} StoppedDrainsInOrder(content: seq<byte>, buffering: bool, lengths: seq<nat>)
    requires forall i :: 0 <= i < |lengths| ==> lengths[i] > 0
    ensures Drained(content, false, buffering, lengths) == content[..Min(Sum(lengths), |content|)]
    decreases |lengths|
  {
    if lengths != [] {
      var k := Served(false, buffering, |content|, lengths[0]);
      var b' := buffering && !Serves(false, buffering, |content|, lengths[0]);
      assert forall i :: 0 <= i < |lengths[1..]| ==> lengths[1..][i] > 0 by {
        forall i | 0 <= i < |lengths[1..]| ensures lengths[1..][i] > 0 {
          assert lengths[1..][i] == lengths[i + 1];
        }
      }
      StoppedDrainsInOrder(content[k..], b', lengths[1..]);
      var m := Min(Sum(lengths[1..]), |content| - k);
      assert k + m == Min(Sum(lengths), |content|);
      assert content[..k] + content[k..][..m] == content[..k + m];
    }
  }
}
