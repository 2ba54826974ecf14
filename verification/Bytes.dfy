/** Bytes, machine integer ranges and the little-endian encoding of integers. */
module Bytes {
  import opened Arithmetic

  type byte = x: int | 0 <= x < 256
  type u8 = x: int | 0 <= x < 256
  type u32 = x: int | 0 <= x <= U32_MAX
  type u64 = x: int | 0 <= x <= U64_MAX
  type i64 = x: int | -0x8000_0000_0000_0000 <= x <= 0x7FFF_FFFF_FFFF_FFFF
  // The modelled machine has 64-bit words.
  type usize = x: int | 0 <= x <= USIZE_MAX

  const U32_MAX := 0xFFFF_FFFF
  const U64_MAX := 0xFFFF_FFFF_FFFF_FFFF
  const USIZE_MAX := U64_MAX

  function Pow256(w: nat): (p: nat)
    ensures p > 0
  {
    if w == 0 then 1 else 256 * Pow256(w - 1)
  }

  /** The low `w` bytes of `v`, least significant first. */
  function LittleEndian(w: nat, v: nat): (b: seq<byte>)
    ensures |b| == w
  {
    if w == 0 then [] else [v % 256] + LittleEndian(w - 1, v / 256)
  }

  function FromLittleEndian(b: seq<byte>): (v: nat)
    ensures v < Pow256(|b|)
  {
    if b == [] then 0 else b[0] + 256 * FromLittleEndian(b[1..])
  }

  /** The byte at each position is the digit of that weight. */
  lemma {:induction false} LittleEndianDigit(w: nat, v: nat, i: nat)
    requires i < w
    ensures LittleEndian(w, v)[i] == v / Pow256(i) % 256
    decreases w
  {
    if i > 0 {
      LittleEndianDigit(w - 1, v / 256, i - 1);
      DivTwice(v, 256, Pow256(i - 1));
    }
  }

  /** Reading back what was written, for every value that fits the width. */
  lemma {:induction false} LittleEndianRoundTrip(w: nat, v: nat)
    requires v < Pow256(w)
    ensures FromLittleEndian(LittleEndian(w, v)) == v
  {
    if w > 0 {
      LittleEndianRoundTrip(w - 1, v / 256);
      assert LittleEndian(w, v)[1..] == LittleEndian(w - 1, v / 256);
    }
  }

  /** Writing back what was read gives the same bytes. */
  lemma {:induction false} LittleEndianCanonical(b: seq<byte>)
    ensures LittleEndian(|b|, FromLittleEndian(b)) == b
  {
    if b != [] {
      LittleEndianCanonical(b[1..]);
      var v := FromLittleEndian(b);
      assert v % 256 == b[0] && v / 256 == FromLittleEndian(b[1..]);
    }
  }

  lemma OneByte()
    ensures Pow256(1) == 0x100
  {
  }

  lemma Pow256Values()
    ensures Pow256(0) == 1 && Pow256(1) == 0x100 && Pow256(2) == 0x1_0000
    ensures Pow256(4) == U32_MAX + 1 && Pow256(8) == U64_MAX + 1
    ensures Pow256(16) == 0x1_0000_0000_0000_0000_0000_0000_0000_0000
  {
    assert Pow256(2) == 256 * Pow256(1);
    assert Pow256(4) == 256 * Pow256(3) && Pow256(3) == 256 * Pow256(2);
    Pow256Add(4, 4);
    Pow256Add(8, 8);
  }

  lemma {:induction false} Pow256Add(a: nat, b: nat)
    ensures Pow256(a + b) == Pow256(a) * Pow256(b)
  {
    if a > 0 {
      Pow256Add(a - 1, b);
    }
  }

  lemma Regroup(a: seq<byte>, b: seq<byte>, c: seq<byte>)
    ensures a + b + c == a + (b + c)
  {
  }
}
