/** `memcpy` and `memmove` over byte arrays. */
module Buffers {
  import opened Bytes

  /** Copies src into dst starting at offset at; nothing else changes. */
  method Memcpy(dst: array<Byte>, at: nat, src: Bytes)
    requires at + |src| <= dst.Length
    modifies dst
    ensures dst[..at] == old(dst[..at])
    ensures dst[at..at + |src|] == src
    ensures dst[at + |src|..] == old(dst[at + |src|..])
    ensures forall i :: 0 <= i < dst.Length && !(at <= i < at + |src|) ==> dst[i] == old(dst[i])
  {
    forall i | at <= i < at + |src| {
      dst[i] := src[i - at];
    }
  }

  /** Memcpy at a cursor that has everything before it filled in: the
      filled part grows by src. */
  method Append(dst: array<Byte>, at: nat, src: Bytes)
    requires at + |src| <= dst.Length
    modifies dst
    ensures dst[..at + |src|] == old(dst[..at]) + src
  {
    Memcpy(dst, at, src);
    assert dst[..at + |src|] == dst[..at] + dst[at..at + |src|];
  }

  /** Moves the count bytes at offset from to the front of a (from >= 0,
      so a front-to-back copy is safe however the ranges overlap). */
  method Memmove(a: array<Byte>, from: nat, count: nat)
    requires from + count <= a.Length
    modifies a
    ensures a[..count] == old(a[from..from + count])
    ensures a[count..] == old(a[count..])
  {
    var i := 0;
    while i < count
      invariant 0 <= i <= count
      invariant a[..i] == old(a[from..from + i])
      invariant a[i..] == old(a[i..])
    {
      a[i] := a[from + i];
      i := i + 1;
    }
  }
}
