/** Bytes, little-endian 32-bit words and single bits, as the kernel's C code
    reads and writes them through casts and shifts. */
module Bytes {

  type byte = x: int | 0 <= x < 0x100
  type u16 = x: int | 0 <= x < 0x1_0000
  type u32 = x: int | 0 <= x < 0x1_0000_0000

  /** Byte k of the little-endian representation of x. */
  function ByteOf(x: u32, k: nat): byte
    requires k < 4
  {
    if k == 0 then x % 0x100
    else if k == 1 then x / 0x100 % 0x100
    else if k == 2 then x / 0x1_0000 % 0x100
    else x / 0x100_0000
  }

  /** `*(unsigned int *)(s + o)` */
  function GetU32(s: seq<byte>, o: nat): u32
    requires o + 4 <= |s|
  {
    var b0: int, b1: int, b2: int, b3: int := s[o], s[o + 1], s[o + 2], s[o + 3];
    b0 + 0x100 * b1 + 0x1_0000 * b2 + 0x100_0000 * b3
  }

  /** `*(unsigned int *)(s + o) = x` */
  function PutU32(s: seq<byte>, o: nat, x: u32): (r: seq<byte>)
    requires o + 4 <= |s|
    ensures |r| == |s|
  {
    s[o := ByteOf(x, 0)][o + 1 := ByteOf(x, 1)][o + 2 := ByteOf(x, 2)][o + 3 := ByteOf(x, 3)]
  }

  lemma BytesOfWord(x: u32)
    ensures ByteOf(x, 0) + 0x100 * ByteOf(x, 1) + 0x1_0000 * ByteOf(x, 2) + 0x100_0000 * ByteOf(x, 3) == x
  {
    assert x / 0x1_0000 == x / 0x100 / 0x100;
    assert x / 0x100_0000 == x / 0x1_0000 / 0x100;
  }

  /** Reading back a stored word, and a word that does not overlap it. */
  lemma GetPutU32(s: seq<byte>, o: nat, x: u32, p: nat)
    requires o + 4 <= |s| && p + 4 <= |s|
    ensures p == o ==> GetU32(PutU32(s, o, x), p) == x
    ensures p + 4 <= o || o + 4 <= p ==> GetU32(PutU32(s, o, x), p) == GetU32(s, p)
  {
    BytesOfWord(x);
  }

  function Pow2(n: nat): (p: int)
    ensures p >= 1
  {
    if n == 0 then 1 else 2 * Pow2(n - 1)
  }

  /** `(v >> k) & 1` */
  predicate Bit(v: nat, k: nat) {
    if k == 0 then v % 2 == 1 else Bit(v / 2, k - 1)
  }

  /** `v | (1 << k)` when `on`, otherwise `v & ~(1 << k)` */
  function WithBit(v: nat, k: nat, on: bool): (r: nat)
    ensures Bit(r, k) == on
    ensures forall n: nat :: k < n && v < Pow2(n) ==> r < Pow2(n)
  {
    if k == 0 then v - v % 2 + if on then 1 else 0
    else 2 * WithBit(v / 2, k - 1, on) + v % 2
  }

  lemma {:induction false} WithBitOther(v: nat, k: nat, on: bool, j: nat)
    requires j != k
    ensures Bit(WithBit(v, k, on), j) == Bit(v, j)
  {
    if k > 0 && j > 0 {
      WithBitOther(v / 2, k - 1, on, j - 1);
    }
  }
}
