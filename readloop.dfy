/** The invariant of the read loop, stated on values: what the output, the
    buffered content, the buffering flag and the clock are once `done` bytes
    of a `length`-byte request have been produced, and how one serve pass or
    one silence pass carries it forward. */
module ReadLoop {
  import opened Pacing

  /** The state a read starts from: buffered content, output array contents,
      the two gate flags and the clock. */
  datatype Start = Start(content: seq<byte>, out: seq<byte>, playing: bool, buffering: bool, clock: nat)

  /** Buffered bytes the whole read hands out. */
  function Taken(s: Start, length: nat): (r: nat) {
    Served(s.playing, s.buffering, |s.content|, length)
  }

  ghost predicate Progress(s: Start, length: nat, bitrate: nat, done: nat,
                           content: seq<byte>, out: seq<byte>, buffering: bool,
                           clock: nat, clockPlayed: nat)
  {
    var k := Taken(s, length);
    0 < length <= |s.out| && bitrate >= 8 && done <= length && |out| == |s.out| &&
    (done == 0 || done == k || done == length) &&
    (done == 0 ==>
      content == s.content && buffering == s.buffering && clock == s.clock &&
      out == s.out && clockPlayed == 0) &&
    (done > 0 ==>
      content == s.content[k..] &&
      buffering == (s.buffering && !Serves(s.playing, s.buffering, |s.content|, length)) &&
      out == s.content[..k] + Zeros(done - k) + s.out[done..] &&
      clock == s.clock + ClockAdvance(bitrate, k) + ClockAdvance(bitrate, done - k) &&
      clockPlayed == clock) &&
    (0 < done == k < length ==> Serves(s.playing, s.buffering, |s.content|, length))
  }

  lemma ProgressStart(s: Start, length: nat, bitrate: nat)
    requires 0 < length <= |s.out| && bitrate >= 8
    ensures Progress(s, length, bitrate, 0, s.content, s.out, s.buffering, s.clock, 0)
  {
  }

  /** A serve pass can only be the first pass, and it takes exactly the bytes
      the whole read is specified to take.  The primed parameters are the
      state after the pass. */
  lemma ProgressServe(s: Start, length: nat, bitrate: nat, done: nat, available: nat, next: nat,
                      content: seq<byte>, out: seq<byte>, buffering: bool,
                      clock: nat, clockPlayed: nat,
                      content': seq<byte>, out': seq<byte>, buffering': bool,
                      clock': nat, played: nat)
    requires Progress(s, length, bitrate, done, content, out, buffering, clock, clockPlayed)
    requires done < length
    requires Serves(s.playing, buffering, |content|, length)
    requires available == Min(length - done, |content|)
    requires next == done + available
    requires content' == content[available..]
    requires out' == out[..done] + content[..available] + out[done + available..]
    requires !buffering'
    requires clock' == clock + ClockAdvance(bitrate, available) && played == clock'
    ensures done == 0 && 0 < available == Taken(s, length)
    ensures Progress(s, length, bitrate, next, content', out', buffering', clock', played)
  {
    var k := Taken(s, length);
    if done > 0 {
      // after the first pass either the request is complete or the buffer is
      // empty and no longer buffering, so the gate stays shut
      assert false;
    }
    ClockAdvanceIsFloor(bitrate, 0);
    assert out[..0] + content[..k] + out[k..] == s.content[..k] + Zeros(0) + s.out[k..];
  }

  /** A silence pass completes the request. */
  lemma ProgressSilence(s: Start, length: nat, bitrate: nat, done: nat, rest: nat, next: nat,
                        content: seq<byte>, out: seq<byte>, buffering: bool,
                        clock: nat, clockPlayed: nat,
                        content': seq<byte>, out': seq<byte>, buffering': bool,
                        clock': nat, played: nat)
    requires Progress(s, length, bitrate, done, content, out, buffering, clock, clockPlayed)
    requires done + rest == length && rest > 0
    requires !Serves(s.playing, buffering, |content|, length)
    requires next == length
    requires content' == content && buffering' == buffering
    requires out' == out[..done] + Zeros(rest) + out[done + rest..]
    requires clock' == clock + ClockAdvance(bitrate, rest) && played == clock'
    ensures Progress(s, length, bitrate, next, content', out', buffering', clock', played)
  {
    var k := Taken(s, length);
    ClockAdvanceIsFloor(bitrate, 0);
    if done == 0 {
      assert k == 0;
      assert out[..0] + Zeros(length) + out[length..] == s.content[..0] + Zeros(length - 0) + s.out[length..];
    } else {
      assert done == k;
      assert out[..done] == s.content[..k];
      assert out[length..] == s.out[length..];
      assert Zeros(0) + Zeros(length - k) == Zeros(length - k);
    }
  }

  /** Once the whole request is produced, the output, the content, the flag
      and the clock are what the read as a whole specifies. */
  lemma ProgressFinish(s: Start, length: nat, bitrate: nat, done: nat,
                       content: seq<byte>, out: seq<byte>, buffering: bool,
                       clock: nat, clockPlayed: nat)
    requires Progress(s, length, bitrate, done, content, out, buffering, clock, clockPlayed)
    requires done == length
    ensures
      var k := Taken(s, length);
      out == s.content[..k] + Zeros(length - k) + s.out[length..] &&
      content == s.content[k..] &&
      buffering == (s.buffering && !Serves(s.playing, s.buffering, |s.content|, length)) &&
      clock == s.clock + ClockAdvance(bitrate, k) + ClockAdvance(bitrate, length - k) &&
      clockPlayed == clock
  {
  }
}
