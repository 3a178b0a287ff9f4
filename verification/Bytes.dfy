/** Bytes, byte strings and the 32-bit little-endian words the C structures are laid out with. */
module Bytes {
  type byte = x: int | 0 <= x < 256

  const TWO_TO_THE_32: int := 0x1_0000_0000

  type uint32 = x: int | 0 <= x < TWO_TO_THE_32

  function Min(a: int, b: int): (m: int) {
    if a < b then a else b
  }

  /** Four bytes, least significant first. */
  function Le32(x: uint32): (s: seq<byte>)
    ensures |s| == 4
  {
    [x % 256, x / 256 % 256, x / 65536 % 256, x / 16777216]
  }

  function FromLe32(s: seq<byte>): (x: uint32)
    requires |s| == 4
  {
    s[0] as int + 256 * s[1] as int + 65536 * s[2] as int + 16777216 * s[3] as int
  }

  lemma Le32RoundTrip(x: uint32)
    ensures FromLe32(Le32(x)) == x
  {
    assert x / 256 == x / 65536 * 256 + x / 256 % 256;
    assert x / 65536 == x / 16777216 * 256 + x / 65536 % 256;
  }

  /** The string f with the bytes of data stored from index at on. */
  function Patch(f: seq<byte>, at: nat, data: seq<byte>): (r: seq<byte>)
    requires at + |data| <= |f|
    ensures |r| == |f|
    ensures forall i :: 0 <= i < |f| ==> r[i] == if at <= i < at + |data| then data[i - at] else f[i]
  {
    f[..at] + data + f[at + |data|..]
  }

  lemma PatchNothing(f: seq<byte>, at: nat)
    requires at <= |f|
    ensures Patch(f, at, []) == f
  {
  }

  lemma PatchOne(f: seq<byte>, at: nat, c: byte)
    requires at < |f|
    ensures f[at := c] == Patch(f, at, [c])
  {
  }

  /** Two adjacent stores are one. */
  lemma PatchTwice(f: seq<byte>, at: nat, a: seq<byte>, b: seq<byte>)
    requires at + |a| + |b| <= |f|
    ensures Patch(Patch(f, at, a), at + |a|, b) == Patch(f, at, a + b)
  {
  }

  lemma PatchOver(f: seq<byte>, at: nat, t: seq<byte>, u: seq<byte>, z: seq<byte>)
    requires |t| == |u| && at + |t| + |z| <= |f|
    ensures Patch(Patch(f, at, t + z), at, u) == Patch(f, at, u + z)
  {
  }
}
