/** The three C library block operations the element uses on its byte arrays:
    memcpy from a byte sequence, memmove towards the front of one array, and
    memset to zero. */
module Memory {
  import opened Pacing

  /** memcpy(dst + at, src, |src|). */
  method Copy(dst: array<byte>, at: nat, src: seq<byte>)
    requires at + |src| <= dst.Length
    modifies dst
    ensures dst[..] == old(dst[..])[..at] + src + old(dst[..])[at + |src|..]
  {
    var i := 0;
    while i < |src|
      invariant 0 <= i <= |src|
      invariant forall j :: 0 <= j < dst.Length ==>
        dst[j] == if at <= j < at + i then src[j - at] else old(dst[j])
    {
      dst[at + i] := src[i];
      i := i + 1;
    }
    assert dst[..] == old(dst[..])[..at] + src + old(dst[..])[at + |src|..];
  }

  /** memmove(a, a + from, count): the `count` bytes starting at `from` move
      to the front; every byte from position `count` on keeps its value. */
  method MoveDown(a: array<byte>, from: nat, count: nat)
    requires from + count <= a.Length
    modifies a
    ensures a[..] == old(a[..])[from..from + count] + old(a[..])[count..]
  {
    var i := 0;
    while i < count
      invariant 0 <= i <= count
      invariant forall j :: 0 <= j < a.Length ==>
        a[j] == if j < i then old(a[from + j]) else old(a[j])
    {
      a[i] := a[from + i];
      i := i + 1;
    }
    assert a[..] == old(a[..])[from..from + count] + old(a[..])[count..];
  }

  /** memset(dst + at, 0, count). */
  method Fill(dst: array<byte>, at: nat, count: nat)
    requires at + count <= dst.Length
    modifies dst
    ensures dst[..] == old(dst[..])[..at] + Zeros(count) + old(dst[..])[at + count..]
  {
    var i := 0;
    while i < count
      invariant 0 <= i <= count
      invariant forall j :: 0 <= j < dst.Length ==>
        dst[j] == if at <= j < at + i then 0 else old(dst[j])
    {
      dst[at + i] := 0;
      i := i + 1;
    }
    assert dst[..] == old(dst[..])[..at] + Zeros(count) + old(dst[..])[at + count..];
  }
}
