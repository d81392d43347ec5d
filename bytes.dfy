/** Bytes and the fixed-width little-endian integers of the wire format.

    Both ends copy a `uint32_t` into or out of a byte buffer with `memcpy` on a
    little-endian host, so a 32-bit field is its value's four bytes, least
    significant first. */
module Bytes {

  /** One octet of a buffer (`uint8_t` / `char` in the source). */
  type Byte = b: int | 0 <= b < 256

  type Bytes = seq<Byte>

  /** Number of values of a `uint32_t`. */
  const U32_LIMIT: nat := 0x1_0000_0000

  function Pow256(n: nat): (r: nat)
    ensures r >= 1
  {
    if n == 0 then 1 else 256 * Pow256(n - 1)
  }

  /** The n-byte little-endian image of x (x is reduced modulo 256^n). */
  function LittleEndian(x: nat, n: nat): (r: Bytes)
    ensures |r| == n
  {
    if n == 0 then [] else [x % 256] + LittleEndian(x / 256, n - 1)
  }

  /** The value of a little-endian byte string. */
  function FromLittleEndian(b: Bytes): (r: nat)
    ensures r < Pow256(|b|)
  {
    if b == [] then 0 else b[0] + 256 * FromLittleEndian(b[1..])
  }

  /** Decoding the n-byte image of a value that fits in n bytes gives the value back. */
  lemma {:induction false} DecodeEncode(x: nat, n: nat)
    requires x < Pow256(n)
    ensures FromLittleEndian(LittleEndian(x, n)) == x
  {
    if n > 0 {
      var b := LittleEndian(x, n);
      assert b[1..] == LittleEndian(x / 256, n - 1);
      DecodeEncode(x / 256, n - 1);
    }
  }

  /** Encoding the value of a byte string in as many bytes gives the string back. */
  lemma {:induction false} EncodeDecode(b: Bytes)
    ensures LittleEndian(FromLittleEndian(b), |b|) == b
  {
    if b != [] {
      var v := FromLittleEndian(b);
      var rest := FromLittleEndian(b[1..]);
      assert v % 256 == b[0] && v / 256 == rest;
      EncodeDecode(b[1..]);
    }
  }

  lemma Pow256Of4()
    ensures Pow256(4) == U32_LIMIT
  {
    assert Pow256(1) == 256;
    assert Pow256(2) == 65536;
    assert Pow256(3) == 16777216;
  }

  /** `memcpy(buf, &x, 4)` of a `uint32_t` x. */
  function LE32(x: nat): (r: Bytes)
    requires x < U32_LIMIT
    ensures |r| == 4
  {
    LittleEndian(x, 4)
  }

  /** `memcpy(&x, buf, 4)` into a `uint32_t` x. */
  function U32(b: Bytes): (r: nat)
    requires |b| == 4
    ensures r < U32_LIMIT
  {
    Pow256Of4();
    FromLittleEndian(b)
  }

  /** The 32-bit field that starts at offset pos. */
  function U32At(s: Bytes, pos: nat): (r: nat)
    requires pos + 4 <= |s|
    ensures r < U32_LIMIT
  {
    U32(s[pos..pos + 4])
  }

  /** Round trip one way: reading back a written 32-bit field gives the written value. */
  lemma LE32RoundTrip(x: nat)
    requires x < U32_LIMIT
    ensures U32(LE32(x)) == x
  {
    Pow256Of4();
    DecodeEncode(x, 4);
  }

  /** Round trip the other way: rewriting a field with the value read from it gives the same bytes. */
  lemma U32RoundTrip(b: Bytes)
    requires |b| == 4
    ensures LE32(U32(b)) == b
  {
    EncodeDecode(b);
  }

  /** Two 32-bit fields are equal exactly when their values are. */
  lemma LE32Injective(x: nat, y: nat)
    requires x < U32_LIMIT && y < U32_LIMIT
    ensures LE32(x) == LE32(y) <==> x == y
  {
    LE32RoundTrip(x);
    LE32RoundTrip(y);
  }

  /** Concatenation of byte strings is associative. */
  lemma ConcatAssoc(a: Bytes, b: Bytes, c: Bytes)
    ensures a + (b + c) == (a + b) + c
  {
  }

  /** A slice of a slice is a slice of the whole. */
  lemma SliceOfSlice(a: Bytes, off: nat, len: nat, i: nat, j: nat)
    requires off + len <= |a| && i <= j <= len
    ensures a[off..off + len][i..j] == a[off + i..off + j]
  {
    var b := a[off..off + len];
    assert forall k :: 0 <= k < j - i ==> b[i..j][k] == b[i + k] == a[off + i + k];
  }

  /** A prefix of a sequence cut in three at x and y. */
  lemma SliceThree(a: Bytes, x: nat, y: nat, z: nat)
    requires x <= y <= z <= |a|
    ensures a[..z] == a[..x] + a[x..y] + a[y..z]
  {
  }

  /** A stretch of a that agrees with b element by element is b. */
  lemma SliceOfElements(a: Bytes, at: nat, b: Bytes)
    requires at + |b| <= |a|
    requires forall i :: at <= i < at + |b| ==> a[i] == b[i - at]
    ensures a[at..at + |b|] == b
  {
  }
}
