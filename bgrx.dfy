/** The 32-bit BGRX pixel word (img_bgrx.h): blue in bits 0-7, green in
    bits 8-15, red in bits 16-23, the top byte unused. */
module Bgrx {
  import opened CTypes

  const B_SHIFT: nat := 0
  const G_SHIFT: nat := 8
  const R_SHIFT: nat := 16

  function Pow2(n: nat): (r: nat)
    ensures r >= 1
  {
    if n == 0 then 1 else 2 * Pow2(n - 1)
  }

  /** `(wg_uint32)v << s`: the shift of a 32-bit value keeps the low 32 bits. */
  function Shl32(v: u32, s: nat): (r: u32)
    ensures s == 0 ==> r == v
  {
    (v * Pow2(s)) % U32
  }

  /** `(wg_uint32)v >> s`, the quotient by 2^s. */
  function Shr32(v: u32, s: nat): int
  {
    v / Pow2(s)
  }

  /** For fields that do not overlap, `|` is addition. */
  function PackBytes(r: byte, g: byte, b: byte): nat
  {
    b + g * 0x100 + r * 0x1_0000
  }

  /** RGB_2_BGRX(r, g, b) for components that are bytes. */
  function RgbToBgrx(r: byte, g: byte, b: byte): (v: u32)
    ensures v < 0x100_0000
    ensures v == PackBytes(r, g, b)
  {
    assert Pow2(8) == 0x100 && Pow2(16) == 0x1_0000 by {
      assert Pow2(4) == 16;
      assert Pow2(8) == 256;
      assert Pow2(12) == 4096;
    }
    var packed := Shl32(b, B_SHIFT) + Shl32(g, G_SHIFT) + Shl32(r, R_SHIFT);
    packed
  }

  /** BGRX_B */
  function BgrxB(v: u32): (c: byte)
    ensures c == v % 0x100
  {
    Shr32(v, B_SHIFT) % 0x100
  }

  /** BGRX_G */
  function BgrxG(v: u32): (c: byte)
    ensures c == (v / 0x100) % 0x100
  {
    assert Pow2(8) == 0x100 by { assert Pow2(4) == 16; }
    Shr32(v, G_SHIFT) % 0x100
  }

  /** BGRX_R */
  function BgrxR(v: u32): (c: byte)
    ensures c == (v / 0x1_0000) % 0x100
  {
    assert Pow2(16) == 0x1_0000 by { assert Pow2(4) == 16; assert Pow2(8) == 256; assert Pow2(12) == 4096; }
    Shr32(v, R_SHIFT) % 0x100
  }

  /** Unpacking a packed pixel gives back each component. */
  lemma RoundTrip(r: byte, g: byte, b: byte)
    ensures BgrxR(RgbToBgrx(r, g, b)) == r
    ensures BgrxG(RgbToBgrx(r, g, b)) == g
    ensures BgrxB(RgbToBgrx(r, g, b)) == b
  {
    var v := RgbToBgrx(r, g, b);
    assert v == b + 0x100 * (g + 0x100 * r);
    assert v / 0x100 == g + 0x100 * r;
    assert v / 0x1_0000 == r;
  }

  /** The top byte of a packed pixel is zero, so the word carries nothing
      beyond the three components. */
  lemma TopByteZero(r: byte, g: byte, b: byte)
    ensures Shr32(RgbToBgrx(r, g, b), 24) == 0
  {
    assert Pow2(24) == 0x100_0000 by {
      assert Pow2(4) == 16; assert Pow2(8) == 256; assert Pow2(12) == 4096;
      assert Pow2(16) == 65536; assert Pow2(20) == 1048576;
    }
  }

  /** An arbitrary word whose top byte is zero is the packing of its three
      extracted components: pack and unpack are inverse on those words. */
  lemma UnpackPack(v: u32)
    requires v < 0x100_0000
    ensures RgbToBgrx(BgrxR(v), BgrxG(v), BgrxB(v)) == v
  {
    var b, g, r := v % 0x100, (v / 0x100) % 0x100, (v / 0x1_0000) % 0x100;
    assert v / 0x1_0000 < 0x100;
    assert v == b + 0x100 * (v / 0x100);
    assert v / 0x100 == g + 0x100 * (v / 0x1_0000);
  }
}
