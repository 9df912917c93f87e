/** YUYV (YUV 4:2:2) to RGB888 conversion (img_yuyv.c). Every four input
    bytes Y0 V Y1 U describe two pixels that share the chroma bytes; each
    channel is a fixed-point weighted sum shifted right by 8 bits and
    clamped to a byte. The byte positions and coefficients are those of the
    source. */
module Yuyv {
  import opened CTypes
  import opened Image

  /** POS_Y0, POS_V, POS_Y1, POS_U, YUYV_COMPONENT_NUM */
  const PosY0: nat := 0
  const PosV: nat := 1
  const PosY1: nat := 2
  const PosU: nat := 3
  const YuyvComponents: nat := 4
  /** The components of an RGB24 pixel. */
  const RgbComponents: u32 := 3

  /** clamp_0_255, as its C reference version reads (the inline assembly
      computes the same). */
  function Clamp(value: int): (b: byte)
    ensures value < 0 ==> b == 0
    ensures value > 255 ==> b == 255
    ensures 0 <= value <= 255 ==> b == value
  {
    if value > 255 then 255 else if value < 0 then 0 else value
  }

  /** Clamping keeps the order of its arguments. */
  lemma ClampMono(a: int, b: int)
    requires a <= b
    ensures Clamp(a) <= Clamp(b)
  {
  }

  /** `v >> 8` on a wg_int: gcc shifts negative values arithmetically,
      which rounds towards minus infinity exactly like Dafny's division by
      a positive constant. */
  function Shr8(v: int): int
  {
    v / 256
  }

  /** C(Y), D(U), E(V) */
  function CY(y: byte): int { y - 16 }
  function DU(u: byte): int { u - 128 }
  function EV(v: byte): int { v - 128 }

  /** RED_D, GREEN_DE, BLUE_E */
  function RedD(d: int): int { 516 * d + 128 }
  function GreenDE(d: int, e: int): int { -100 * d - 208 * e + 128 }
  function BlueE(e: int): int { 409 * e + 128 }

  /** RED, GREEN and BLUE all clamp (298 * C + term) >> 8. */
  function Channel(c: int, term: int): byte
  {
    Clamp(Shr8(298 * c + term))
  }

  /** One RGB pixel from its luma byte and its group's chroma bytes. */
  function PixelRgb(y: byte, v: byte, u: byte): (px: seq<byte>)
    ensures |px| == 3
  {
    var c := CY(y);
    [Channel(c, RedD(DU(u))), Channel(c, GreenDE(DU(u), EV(v))), Channel(c, BlueE(EV(v)))]
  }

  /** The six output bytes of one four-byte group: both pixels use the
      group's one pair of chroma bytes. */
  function GroupRgb(y0: byte, v: byte, y1: byte, u: byte): (px: seq<byte>)
    ensures |px| == 6
  {
    PixelRgb(y0, v, u) + PixelRgb(y1, v, u)
  }

  /** A brighter luma never gives a darker channel. */
  lemma PixelMonoInLuma(y0: byte, y1: byte, v: byte, u: byte)
    requires y0 <= y1
    ensures forall k :: 0 <= k < 3 ==> PixelRgb(y0, v, u)[k] <= PixelRgb(y1, v, u)[k]
  {
    forall k | 0 <= k < 3
      ensures PixelRgb(y0, v, u)[k] <= PixelRgb(y1, v, u)[k]
    {
      var term := if k == 0 then RedD(DU(u)) else if k == 1 then GreenDE(DU(u), EV(v)) else BlueE(EV(v));
      ShrMono(298 * CY(y0) + term, 298 * CY(y1) + term);
      ClampMono(Shr8(298 * CY(y0) + term), Shr8(298 * CY(y1) + term));
    }
  }

  lemma ShrMono(a: int, b: int)
    requires a <= b
    ensures Shr8(a) <= Shr8(b)
  {
  }

  /** With a zero chroma term the channel is black from C = 0 down and
      white from C = 219 up. */
  lemma ChannelOfLuma(c: int)
    ensures c <= 0 ==> Channel(c, 128) == 0
    ensures c >= 219 ==> Channel(c, 128) == 255
  {
    if c <= 0 {
      ShrMono(298 * c + 128, 128);
    }
    if c >= 219 {
      ShrMono(298 * 219 + 128, 298 * c + 128);
    }
  }

  /** The channel value of luma y when the chroma term is zero. */
  function Luma(y: byte): byte
  {
    Channel(CY(y), 128)
  }

  /** Neutral chroma (U = V = 128) gives a gray pixel: the three channels
      all equal the luma's value. */
  lemma NeutralChromaIsGray(y: byte)
    ensures PixelRgb(y, 128, 128) == [Luma(y), Luma(y), Luma(y)]
  {
  }

  /** Luma 16 and below is black, luma 235 and above is white. */
  lemma LumaRange(y: byte)
    ensures y <= 16 ==> Luma(y) == 0
    ensures y >= 235 ==> Luma(y) == 255
  {
    ChannelOfLuma(CY(y));
  }

  /** The RGB bytes of the first n groups of a YUYV buffer. */
  function Groups(inb: seq<byte>, n: nat): (out: seq<byte>)
    requires YuyvComponents * n <= |inb|
    ensures |out| == 6 * n
    decreases n
  {
    if n == 0 then []
    else
      var g := 4 * (n - 1);
      Groups(inb, n - 1) + GroupRgb(inb[g + PosY0], inb[g + PosV], inb[g + PosY1], inb[g + PosU])
  }

  lemma GroupsNext(inb: seq<byte>, k: nat)
    requires YuyvComponents * (k + 1) <= |inb|
    ensures Groups(inb, k + 1) == Groups(inb, k) + GroupRgb(inb[4 * k], inb[4 * k + 1], inb[4 * k + 2], inb[4 * k + 3])
  {
  }

  /** Output byte 6k + j is byte j of group k. */
  lemma {:induction false} GroupsAt(inb: seq<byte>, n: nat, k: nat, j: nat)
    requires YuyvComponents * n <= |inb| && k < n && j < 6
    ensures Groups(inb, n)[6 * k + j] == GroupRgb(inb[4 * k], inb[4 * k + 1], inb[4 * k + 2], inb[4 * k + 3])[j]
    decreases n
  {
    hide GroupRgb;
    if k < n - 1 {
      GroupsAt(inb, n - 1, k, j);
    }
  }

  /** The number of groups, (width * height) >> 1 on wg_uint. */
  function GroupCount(width: u32, height: u32): nat
  {
    Wrap32(width * height) / 2
  }

  /** The conversion loop: group after group, six bytes at a time. */
  method ConvertGroups(outbuf: array<byte>, inb: array<byte>, n: nat)
    requires outbuf != inb
    requires YuyvComponents * n <= inb.Length && 6 * n <= outbuf.Length
    modifies outbuf
    ensures outbuf[..6 * n] == Groups(inb[..], n)
    ensures outbuf[6 * n..] == old(outbuf[6 * n..])
  {
    var widthCount := 0;
    var pixbuf := 0;
    var out := 0;
    hide Groups, GroupRgb;
    while widthCount < n
      invariant widthCount <= n && pixbuf == 4 * widthCount && out == 6 * widthCount
      invariant outbuf[..out] == Groups(inb[..], widthCount)
      invariant outbuf[6 * n..] == old(outbuf[6 * n..])
    {
      var px := GroupRgb(inb[pixbuf + PosY0], inb[pixbuf + PosV], inb[pixbuf + PosY1], inb[pixbuf + PosU]);
      ghost var before := outbuf[..out];
      outbuf[out] := px[0];
      outbuf[out + 1] := px[1];
      outbuf[out + 2] := px[2];
      outbuf[out + 3] := px[3];
      outbuf[out + 4] := px[4];
      outbuf[out + 5] := px[5];
      assert outbuf[..out + 6] == before + px;
      GroupsNext(inb[..], widthCount);
      widthCount := widthCount + 1;
      pixbuf := pixbuf + YuyvComponents;
      out := out + 6;
    }
  }

  lemma WrapAtMost(x: nat)
    ensures Wrap32(x) <= x
  {
  }

  lemma GroupsFit(width: u32, height: u32)
    requires width * RgbComponents < U32
    ensures 6 * GroupCount(width, height) <= height * Wrap32(width * RgbComponents)
  {
    var pixels := width * height;
    WrapAtMost(pixels);
    assert Wrap32(width * RgbComponents) == width * 3;
    assert height * (width * 3) == 3 * pixels;
  }

  /** img_yuyv_2_rgb24: the image is filled as a width x height RGB image
      (the unchecked fill is taken to succeed) and its block receives the
      converted groups; a pixel left over by an odd pixel count stays
      zero. The status is always CAM_SUCCESS. */
  method Yuyv2Rgb24(inBuffer: array<byte>, inSize: int, width: u32, height: u32, img: Image)
    returns (status: Status)
    requires width * RgbComponents < U32
    requires YuyvComponents * GroupCount(width, height) <= inBuffer.Length
    modifies img
    ensures status == Success
    ensures img.Valid() && img.Flat() && fresh(img.data) && img.kind == ImgRgb
    ensures img.width == width && img.height == height && img.comps == RgbComponents
    ensures 6 * GroupCount(width, height) <= img.data.Length
    ensures img.data[..6 * GroupCount(width, height)] == Groups(inBuffer[..], GroupCount(width, height))
    ensures forall i :: 6 * GroupCount(width, height) <= i < img.data.Length ==> img.data[i] == 0
  {
    var filled := img.Fill(width, height, RgbComponents, ImgRgb, true, true);
    var compNum := GroupCount(width, height);
    GroupsFit(width, height);
    ConvertGroups(img.data, inBuffer, compNum);
    assert forall i :: 6 * compNum <= i < img.data.Length ==> img.data[i] == img.data[6 * compNum..][i - 6 * compNum];
    status := Success;
  }
}
