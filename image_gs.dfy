/** Grayscale image operations (img_gs.c). A grayscale image is an Image of
    one byte per pixel, so its rows lie back to back and its block, read in
    order, is the row-major sequence of its pixels. The pixel walks of the C
    code (iterators or a row pointer advanced one pixel at a time) are kept as
    a row loop that fetches the row offset and a column loop that advances
    the pixel offset. */
module ImageGs {
  import opened CTypes
  import opened Image

  /** GS_PIXEL_MAX, GS_PIXEL_MIN */
  const GsPixelMax: byte := 255
  const GsPixelMin: byte := 0
  /** GS_COMPONENT_NUM */
  const GsComponents: u32 := 1
  /** RGB24_COMPONENT_NUM */
  const RgbComponents: u32 := 3

  /** The 16-bit fixed-point weights (wg_uint32)(65535 * 0.3),
      (65535 * 0.59) and (65535 * 0.11). */
  const C1: nat := 19660
  const C2: nat := 38665
  const C3: nat := 7208

  /** A grayscale image as img_fill lays it out. */
  ghost predicate GsShape(img: Image)
    reads img
  {
    img.Valid() && img.comps == GsComponents
  }

  lemma GsShapeBlock(img: Image)
    requires GsShape(img)
    ensures img.Flat() && img.rowDistance == img.width
    ensures img.data.Length == img.height * img.width && img.rows == RowStarts(img.height, img.width)
  {
  }

  lemma Triple(a: nat, b: nat)
    ensures a * (3 * b) == 3 * (a * b)
  {
  }

  function Abs(x: int): nat
  {
    if x < 0 then -x else x
  }

  // ---------------------------------------------------------------------
  // img_rgb_2_grayscale

  /** RGB_2_GS: the weighted sum, which stays far below 2^32, shifted right
      by 16 bits. The weights add up to 65533, so even white stays below 255. */
  function Gray(r: byte, g: byte, b: byte): (v: byte)
    ensures C1 * r + C2 * g + C3 * b < U32
    ensures v <= 254
  {
    (C1 * r + C2 * g + C3 * b) / 0x1_0000
  }

  /** A pixel that is already gray comes out one level darker (black stays
      black). */
  lemma GrayOfGrey(v: byte)
    ensures Gray(v, v, v) == if v == 0 then 0 else v - 1
  {
    if v > 0 {
      assert C1 * v + C2 * v + C3 * v == 0x1_0000 * (v - 1) + (0x1_0000 - 3 * v);
    }
  }

  /** The gray value of each of the first n pixels of a packed RGB block. */
  function GsOfRgb(rgb: seq<byte>, n: nat): (g: seq<byte>)
    requires 3 * n <= |rgb|
    ensures |g| == n
  {
    seq(n, i requires 0 <= i < n => Gray(rgb[3 * i], rgb[3 * i + 1], rgb[3 * i + 2]))
  }

  /** The row and column walk of img_rgb_2_grayscale over two images of the
      same size. */
  method GrayRows(gs: array<byte>, gsRows: seq<nat>, rgb: array<byte>, rgbRows: seq<nat>, w: nat, h: nat)
    requires gs != rgb
    requires gs.Length == h * w && gsRows == RowStarts(h, w)
    requires rgb.Length == h * (3 * w) && rgbRows == RowStarts(h, 3 * w)
    modifies gs
    ensures gs[..] == GsOfRgb(rgb[..], h * w)
  {
    Triple(h, w);
    var row := 0;
    ghost var done: nat := 0;
    while row < h
      invariant row <= h && done == row * w && done <= h * w
      invariant forall i :: 0 <= i < done ==> gs[i] == Gray(rgb[3 * i], rgb[3 * i + 1], rgb[3 * i + 2])
    {
      MulMono(row + 1, h, w);
      Triple(row, w);
      assert (row + 1) * w == done + w;
      var gsPixel := gsRows[row];
      var rgbPixel := rgbRows[row];
      var col := 0;
      while col < w
        invariant col <= w && gsPixel == done + col && rgbPixel == 3 * gsPixel
        invariant forall i :: 0 <= i < gsPixel ==> gs[i] == Gray(rgb[3 * i], rgb[3 * i + 1], rgb[3 * i + 2])
      {
        gs[gsPixel] := Gray(rgb[rgbPixel], rgb[rgbPixel + 1], rgb[rgbPixel + 2]);
        gsPixel := gsPixel + 1;
        rgbPixel := rgbPixel + 3;
        col := col + 1;
      }
      row := row + 1;
      done := done + w;
    }
    assert gs[..] == GsOfRgb(rgb[..], h * w);
  }

  /** img_rgb_2_grayscale: only an RGB image is converted; the grayscale image
      is filled (the allocation outcomes are inputs) with the RGB image's
      width and height and receives the gray value of every pixel. */
  method Rgb2Grayscale(rgbImg: Image, gsImg: Image, rowsOk: bool, dataOk: bool) returns (status: Status)
    requires rgbImg.Valid() && rgbImg != gsImg
    requires rgbImg.kind == ImgRgb ==> rgbImg.comps == RgbComponents && rgbImg.Flat()
    modifies gsImg
    ensures rgbImg.kind != ImgRgb ==> status == Failure
    ensures rgbImg.kind == ImgRgb ==> status == FillStatus(rowsOk, dataOk)
    ensures status == Failure ==> unchanged(gsImg)
    ensures status == Success ==>
              GsShape(gsImg) && fresh(gsImg.data) && gsImg.kind == ImgGs &&
              gsImg.width == rgbImg.width && gsImg.height == rgbImg.height &&
              gsImg.data[..] == GsOfRgb(rgbImg.data[..], rgbImg.height * rgbImg.width)
  {
    if rgbImg.kind != ImgRgb {
      return Failure;
    }
    var width := rgbImg.width;
    var height := rgbImg.height;
    status := gsImg.Fill(width, height, GsComponents, ImgGs, rowsOk, dataOk);
    if status != Success {
      return Failure;
    }
    GrayRows(gsImg.data, gsImg.rows, rgbImg.data, rgbImg.rows, width, height);
  }

  // ---------------------------------------------------------------------
  // img_gs_histogram

  /** The number of pixels of s equal to v. */
  function Count(s: seq<byte>, v: int): (n: nat)
    ensures n <= |s|
    decreases |s|
  {
    if s == [] then 0 else Count(s[..|s| - 1], v) + (if s[|s| - 1] == v then 1 else 0)
  }

  /** The 256 bins after counting the pixels of s in order, each bin a
      wg_uint incremented with wrap-around. */
  function Bins(s: seq<byte>): (b: seq<u32>)
    ensures |b| == 256
    decreases |s|
  {
    if s == [] then seq(256, _ => 0)
    else
      var b := Bins(s[..|s| - 1]);
      b[s[|s| - 1] := Wrap32(b[s[|s| - 1]] as int + 1)]
  }

  function Sum(s: seq<int>): int
  {
    if s == [] then 0 else s[0] + Sum(s[1..])
  }

  lemma {:induction false} SumZero(s: seq<int>)
    requires forall i :: 0 <= i < |s| ==> s[i] == 0
    ensures Sum(s) == 0
  {
    if s != [] {
      SumZero(s[1..]);
    }
  }

  lemma {:induction false} SumUpdate(s: seq<int>, k: nat, x: int)
    requires k < |s|
    ensures Sum(s[k := x]) == Sum(s) - s[k] + x
  {
    if k > 0 {
      assert s[k := x][1..] == s[1..][k - 1 := x];
      SumUpdate(s[1..], k - 1, x);
    }
  }

  lemma {:induction false} SumBound(s: seq<int>, k: nat)
    requires k < |s| && forall i :: 0 <= i < |s| ==> s[i] >= 0
    ensures s[k] <= Sum(s)
  {
    if k > 0 {
      SumBound(s[1..], k - 1);
    } else if |s| > 1 {
      SumBound(s[1..], 0);
    }
  }

  /** Bin v holds the number of pixels equal to v (modulo 2^32). */
  lemma {:induction false} BinsCount(s: seq<byte>, v: byte)
    ensures Bins(s)[v] == Wrap32(Count(s, v))
    decreases |s|
  {
    if s != [] {
      var p := s[..|s| - 1];
      BinsCount(p, v);
      if s[|s| - 1] == v {
        assert Wrap32(Wrap32(Count(p, v)) + 1) == Wrap32(Count(p, v) + 1);
      }
    }
  }

  /** For fewer than 2^32 pixels no bin wraps, and the bins add up to the
      number of pixels. */
  lemma {:induction false} BinsSum(s: seq<byte>)
    requires |s| < U32
    ensures Sum(Bins(s)) == |s|
    decreases |s|
  {
    if s == [] {
      SumZero(Bins(s));
    } else {
      var p := s[..|s| - 1];
      var x := s[|s| - 1];
      BinsSum(p);
      SumBound(Bins(p), x);
      assert Bins(s) == Bins(p)[x := Bins(p)[x] + 1];
      SumUpdate(Bins(p), x, Bins(p)[x] + 1);
    }
  }

  /** CHECK_FOR_RANGE_LT(size, GS_PIXEL_MAX) as written: a histogram of 255
      bins is accepted. */
  function HistogramCheckAsWritten(size: u32): (s: Status)
    ensures s == Success <==> HasBin(size, GsPixelMax - 1)
  {
    if size < GsPixelMax then Failure else Success
  }

  /** Bin v exists in a histogram of `size` bins. */
  predicate HasBin(size: nat, v: nat)
  {
    v < size
  }

  /** The check that makes every pixel value a bin of the histogram. */
  function HistogramCheck(size: u32): (s: Status)
    ensures s == Success <==> HasBin(size, GsPixelMax)
  {
    if size <= GsPixelMax then Failure else Success
  }

  /** With 255 bins the check as written passes, yet a pixel of value 255
      increments bin 255, which does not exist. */
  lemma HistogramCheckAsWrittenAdmitsMissingBin()
    ensures HistogramCheckAsWritten(255) == Success && !HasBin(255, GsPixelMax)
  {
  }

  /** The corrected check passes exactly when every pixel value has a bin. */
  lemma HistogramCheckCoversPixels(size: u32)
    ensures HistogramCheck(size) == Success <==> forall v :: 0 <= v <= GsPixelMax ==> HasBin(size, v)
  {
    if HistogramCheck(size) == Failure {
      assert !HasBin(size, GsPixelMax);
    }
  }

  /** The counting walk of img_gs_histogram over an image of w by h pixels. */
  /** Counting one more pixel bumps its bin. */
  lemma BinsNext(s: seq<byte>, n: nat)
    requires n < |s|
    ensures Bins(s[..n + 1]) == Bins(s[..n])[s[n] := Wrap32(Bins(s[..n])[s[n]] as int + 1)]
  {
    assert s[..n + 1][..n] == s[..n];
  }

  method CountPixels(hist: array<u32>, data: array<byte>, rows: seq<nat>, w: nat, h: nat)
    requires 256 <= hist.Length && data.Length == h * w && rows == RowStarts(h, w)
    requires hist[..256] == Bins([])
    modifies hist
    ensures hist[..256] == Bins(data[..])
    ensures hist[256..] == old(hist[256..])
  {
    hide Bins;
    var row := 0;
    ghost var done: nat := 0;
    while row < h
      invariant row <= h && done == row * w && done <= h * w
      invariant hist[..256] == Bins(data[..done])
      invariant hist[256..] == old(hist[256..])
    {
      MulMono(row + 1, h, w);
      assert (row + 1) * w == done + w;
      var gsPixel := rows[row];
      var col := 0;
      while col < w
        invariant col <= w && gsPixel == done + col
        invariant hist[..256] == Bins(data[..gsPixel])
        invariant hist[256..] == old(hist[256..])
      {
        var p := data[gsPixel];
        BinsNext(data[..], gsPixel);
        hist[p] := Wrap32(hist[p] as int + 1);
        gsPixel := gsPixel + 1;
        col := col + 1;
      }
      row := row + 1;
      done := done + w;
    }
    assert data[..] == data[..done];
  }

  /** img_gs_histogram with the corrected size check. Too small a histogram
      is left alone; otherwise its `size` bins are cleared, then a non-
      grayscale image fails and a grayscale one has its pixels counted. */
  method Histogram(img: Image, hist: array<u32>, size: u32) returns (status: Status)
    requires img.Valid() && size <= hist.Length
    requires img.kind == ImgGs ==> img.comps == GsComponents
    modifies hist
    ensures status == Success <==> HistogramCheck(size) == Success && img.kind == ImgGs
    ensures HistogramCheck(size) == Failure ==> hist[..] == old(hist[..])
    ensures HistogramCheck(size) == Success ==>
              hist[size..] == old(hist[size..]) &&
              (forall i :: 256 <= i < size ==> hist[i] == 0) &&
              hist[..256] == if img.kind == ImgGs then Bins(img.data[..]) else Bins([])
  {
    status := HistogramCheck(size);
    if status == Failure {
      return;
    }
    var i := 0;
    while i < size
      invariant i <= size
      invariant forall k :: 0 <= k < i ==> hist[k] == 0
      invariant hist[size..] == old(hist[size..])
    {
      hist[i] := 0;
      i := i + 1;
    }
    assert hist[..256] == Bins([]);
    if img.kind != ImgGs {
      return Failure;
    }
    GsShapeBlock(img);
    ghost var cleared := hist[..];
    CountPixels(hist, img.data, img.rows, img.width, img.height);
    assert forall k :: 256 <= k < hist.Length ==> hist[k] == hist[256..][k - 256] == cleared[k];
  }

  // ---------------------------------------------------------------------
  // img_gs_max_min

  /** WG_MAX / WG_MIN folded over the pixels, from (GS_PIXEL_MIN,
      GS_PIXEL_MAX). */
  function MaxMin(s: seq<byte>): (r: (byte, byte))
    ensures s == [] ==> r == (GsPixelMin, GsPixelMax)
    decreases |s|
  {
    if s == [] then (GsPixelMin, GsPixelMax)
    else
      var m := MaxMin(s[..|s| - 1]);
      var p := s[|s| - 1];
      (if m.0 > p then m.0 else p, if m.1 < p then m.1 else p)
  }

  /** The maximum is at least and the minimum at most every pixel. */
  lemma {:induction false} MaxMinBounds(s: seq<byte>)
    ensures forall i :: 0 <= i < |s| ==> MaxMin(s).1 <= s[i] <= MaxMin(s).0
    decreases |s|
  {
    if s != [] {
      var p := s[..|s| - 1];
      MaxMinBounds(p);
      assert forall i :: 0 <= i < |s| - 1 ==> s[i] == p[i];
    }
  }

  /** In a non-empty image both the maximum and the minimum are pixel
      values. */
  lemma {:induction false} MaxMinAttained(s: seq<byte>)
    requires s != []
    ensures exists i :: 0 <= i < |s| && s[i] == MaxMin(s).0
    ensures exists j :: 0 <= j < |s| && s[j] == MaxMin(s).1
    decreases |s|
  {
    var p := s[..|s| - 1];
    var last := |s| - 1;
    if p == [] {
      assert s[last] == MaxMin(s).0 && s[last] == MaxMin(s).1;
    } else {
      MaxMinAttained(p);
      var i :| 0 <= i < |p| && p[i] == MaxMin(p).0;
      var j :| 0 <= j < |p| && p[j] == MaxMin(p).1;
      assert s[i] == p[i] && s[j] == p[j];
      if MaxMin(s).0 == s[last] {
        assert s[last] == MaxMin(s).0;
      } else {
        assert s[i] == MaxMin(s).0;
      }
      if MaxMin(s).1 == s[last] {
        assert s[last] == MaxMin(s).1;
      } else {
        assert s[j] == MaxMin(s).1;
      }
    }
  }

  /** One more pixel folds into the running maximum and minimum. */
  lemma MaxMinStep(s: seq<byte>, k: nat)
    requires k < |s|
    ensures MaxMin(s[..k + 1]).0 == if MaxMin(s[..k]).0 > s[k] then MaxMin(s[..k]).0 else s[k]
    ensures MaxMin(s[..k + 1]).1 == if MaxMin(s[..k]).1 < s[k] then MaxMin(s[..k]).1 else s[k]
  {
    assert s[..k + 1][..k] == s[..k];
  }

  /** The pixel walk of img_gs_max_min. */
  method ScanMaxMin(data: array<byte>, rows: seq<nat>, w: nat, h: nat) returns (maxVal: byte, minVal: byte)
    requires data.Length == h * w && rows == RowStarts(h, w)
    ensures (maxVal, minVal) == MaxMin(data[..])
  {
    maxVal, minVal := GsPixelMin, GsPixelMax;
    var row := 0;
    ghost var done: nat := 0;
    while row < h
      invariant row <= h && done == row * w && done <= h * w
      invariant maxVal == MaxMin(data[..done]).0 && minVal == MaxMin(data[..done]).1
    {
      MulMono(row + 1, h, w);
      assert (row + 1) * w == done + w;
      var gsPixel := rows[row];
      var col := 0;
      while col < w
        invariant col <= w && gsPixel == done + col
        invariant maxVal == MaxMin(data[..gsPixel]).0 && minVal == MaxMin(data[..gsPixel]).1
      {
        MaxMinStep(data[..], gsPixel);
        var p := data[gsPixel];
        maxVal := if maxVal > p then maxVal else p;
        minVal := if minVal < p then minVal else p;
        gsPixel := gsPixel + 1;
        col := col + 1;
      }
      row := row + 1;
      done := done + w;
    }
    assert data[..] == data[..done];
  }

  /** img_gs_max_min: a grayscale image gives its largest and smallest
      pixel; any other image fails and leaves the caller's values. */
  method GsMaxMin(img: Image, max0: byte, min0: byte) returns (status: Status, gsMax: byte, gsMin: byte)
    requires img.Valid()
    requires img.kind == ImgGs ==> img.comps == GsComponents
    ensures img.kind != ImgGs ==> status == Failure && gsMax == max0 && gsMin == min0
    ensures img.kind == ImgGs ==> status == Success && (gsMax, gsMin) == MaxMin(img.data[..])
  {
    if img.kind != ImgGs {
      return Failure, max0, min0;
    }
    GsShapeBlock(img);
    gsMax, gsMin := ScanMaxMin(img.data, img.rows, img.width, img.height);
    status := Success;
  }

  // ---------------------------------------------------------------------
  // img_gs_normalize

  /** FF_FLOAT: the value as a wg_uint32, shifted left by 8 bits. */
  function FfFloat(v: int): u32
  {
    Wrap32(Wrap32(v) * 256)
  }

  /** FF_INT */
  function FfInt(v: u32): u32
  {
    v / 256
  }

  /** The new value of one pixel, in the wg_uint arithmetic of the C code,
      stored back into a gray_pixel. */
  function NormPixel(p: byte, gsMin: byte, gsRange: u32, newRange: u32, newMin: byte): byte
    requires gsRange != 0
  {
    Wrap32(FfInt(Wrap32(FfFloat(p as int - gsMin as int) * newRange) / gsRange) + newMin) % 256
  }

  function NormAll(s: seq<byte>, gsMin: byte, gsRange: u32, newRange: u32, newMin: byte): (r: seq<byte>)
    requires gsRange != 0
    ensures |r| == |s|
    decreases |s|
  {
    if s == [] then []
    else NormAll(s[..|s| - 1], gsMin, gsRange, newRange, newMin) + [NormPixel(s[|s| - 1], gsMin, gsRange, newRange, newMin)]
  }

  /** The pixels after img_gs_normalize: when the image has a range, each
      pixel is rescaled; otherwise nothing changes. */
  function Normalized(s: seq<byte>, newMax: byte, newMin: byte): (r: seq<byte>)
    ensures |r| == |s|
  {
    var m := MaxMin(s);
    var gsRange := FfFloat(m.0 as int - m.1 as int);
    if gsRange == 0 then s else NormAll(s, m.1, gsRange, FfFloat(newMax as int - newMin as int), newMin)
  }

  /** The rescaling walk of img_gs_normalize. */
  method NormalizeRows(data: array<byte>, rows: seq<nat>, w: nat, h: nat,
                       gsMin: byte, gsRange: u32, newRange: u32, newMin: byte)
    requires data.Length == h * w && rows == RowStarts(h, w) && gsRange != 0
    modifies data
    ensures data[..] == NormAll(old(data[..]), gsMin, gsRange, newRange, newMin)
  {
    var row := 0;
    ghost var done: nat := 0;
    while row < h
      invariant row <= h && done == row * w && done <= h * w
      invariant forall i :: 0 <= i < done ==> data[i] == NormPixel(old(data[i]), gsMin, gsRange, newRange, newMin)
      invariant forall i :: done <= i < data.Length ==> data[i] == old(data[i])
    {
      MulMono(row + 1, h, w);
      assert (row + 1) * w == done + w;
      var gsPixel := rows[row];
      var col := 0;
      while col < w
        invariant col <= w && gsPixel == done + col
        invariant forall i :: 0 <= i < gsPixel ==> data[i] == NormPixel(old(data[i]), gsMin, gsRange, newRange, newMin)
        invariant forall i :: gsPixel <= i < data.Length ==> data[i] == old(data[i])
      {
        data[gsPixel] := NormPixel(data[gsPixel], gsMin, gsRange, newRange, newMin);
        gsPixel := gsPixel + 1;
        col := col + 1;
      }
      row := row + 1;
      done := done + w;
    }
    ghost var target := NormAll(old(data[..]), gsMin, gsRange, newRange, newMin);
    forall i | 0 <= i < data.Length
      ensures data[i] == target[i]
    {
      NormAllAt(old(data[..]), gsMin, gsRange, newRange, newMin, i);
    }
    assert data[..] == target;
  }

  /** img_gs_normalize: a grayscale image is rescaled from its own range
      [min, max] to [newMin, newMax]; any other image fails untouched. */
  method Normalize(img: Image, newMax: byte, newMin: byte) returns (status: Status)
    requires img.Valid()
    requires img.kind == ImgGs ==> img.comps == GsComponents
    modifies img.data
    ensures img.kind != ImgGs ==> status == Failure && img.data[..] == old(img.data[..])
    ensures img.kind == ImgGs ==> status == Success && img.data[..] == Normalized(old(img.data[..]), newMax, newMin)
  {
    if img.kind != ImgGs {
      return Failure;
    }
    GsShapeBlock(img);
    var found, gsMax, gsMin := GsMaxMin(img, 0, 0);
    var gsRange := FfFloat(gsMax as int - gsMin as int);
    var newRange := FfFloat(newMax as int - newMin as int);
    if gsRange != 0 {
      NormalizeRows(img.data, img.rows, img.width, img.height, gsMin, gsRange, newRange, newMin);
    }
    status := Success;
  }

  /** A dividend of at most g * n gives a quotient of at most n. */
  lemma DivBound(x: nat, g: nat, n: nat)
    requires g > 0 && x <= g * n
    ensures x / g <= n
  {
    var q := x / g;
    assert q * g <= x;
    if q > n {
      MulMono(n + 1, q, g);
      assert false;
    }
  }

  lemma DivExact(g: nat, n: nat)
    requires g > 0
    ensures (g * n) / g == n
  {
    var x := g * n;
    var q := x / g;
    DivBound(x, g, n);
    assert x < (q + 1) * g;
    if q < n {
      MulMono(q + 1, n, g);
      assert false;
    }
  }

  lemma ProductFits(a: nat, nr: nat)
    requires a <= 65280 && nr <= 65280
    ensures a * nr < U32
  {
    MulMono(a, 65280, nr);
    MulMono(nr, 65280, 65280);
  }

  /** The rescaled offset a * nr / g of a pixel a <= g above the minimum:
      the product fits a wg_uint and the quotient stays within the new
      range nr, 0 for the minimum and nr for the maximum. */
  lemma ScaledOffset(a: nat, g: nat, nr: nat) returns (q: nat)
    requires 0 < g && a <= g <= 65280 && nr <= 65280
    ensures Wrap32(a * nr) / g == q
    ensures q <= nr && (a == 0 ==> q == 0) && (a == g ==> q == nr)
  {
    ProductFits(a, nr);
    var prod := a * nr;
    assert Wrap32(prod) == prod;
    q := prod / g;
    MulMono(a, g, nr);
    DivBound(prod, g, nr);
    if a == g {
      DivExact(g, nr);
    }
  }

  lemma FfFloatByte(v: int)
    requires 0 <= v < 256
    ensures FfFloat(v) == v * 256
  {
  }

  /** One pixel between the old minimum and maximum is mapped into
      [newMin, newMax], the old minimum to newMin and the old maximum to
      newMax. No step of the wg_uint arithmetic wraps. */
  lemma NormPixelRange(p: byte, gsMin: byte, gsMax: byte, newMax: byte, newMin: byte)
    requires gsMin <= p <= gsMax && gsMin < gsMax && newMin <= newMax
    ensures FfFloat(gsMax as int - gsMin as int) == (gsMax - gsMin) * 256
    ensures var v := NormPixel(p, gsMin, FfFloat(gsMax as int - gsMin as int), FfFloat(newMax as int - newMin as int), newMin);
            newMin <= v <= newMax && (p == gsMin ==> v == newMin) && (p == gsMax ==> v == newMax)
  {
    var d := newMax - newMin;
    var a := (p - gsMin) * 256;
    var g := (gsMax - gsMin) * 256;
    var nr := d * 256;
    FfFloatByte(p - gsMin);
    FfFloatByte(gsMax - gsMin);
    FfFloatByte(d);
    var q := ScaledOffset(a, g, nr);
    assert q / 256 <= d by {
      DivBound(q, 256, d);
    }
    assert p == gsMax ==> q / 256 == d by {
      if p == gsMax {
        DivExact(256, d);
      }
    }
    NormPixelValue(p, gsMin, g, nr, newMin, q);
  }

  /** The stored value when the rescaled offset q is known and q / 256
      added to newMin still fits a gray_pixel. */
  lemma NormPixelValue(p: byte, gsMin: byte, g: u32, nr: u32, newMin: byte, q: nat)
    requires g != 0 && Wrap32(FfFloat(p as int - gsMin as int) * nr) / g == q && q / 256 + newMin < 256
    ensures NormPixel(p, gsMin, g, nr, newMin) == q / 256 + newMin
  {
  }

  /** Normalising an image with a range maps every pixel into
      [newMin, newMax], its darkest pixels to newMin and its brightest to
      newMax. */
  lemma NormAllRange(s: seq<byte>, newMax: byte, newMin: byte)
    requires newMin <= newMax && MaxMin(s).0 != MaxMin(s).1 && s != []
    ensures FfFloat(MaxMin(s).0 as int - MaxMin(s).1 as int) != 0
    ensures var r := NormAll(s, MaxMin(s).1, FfFloat(MaxMin(s).0 as int - MaxMin(s).1 as int), FfFloat(newMax as int - newMin as int), newMin);
            forall i :: 0 <= i < |s| ==>
              newMin <= r[i] <= newMax &&
              (s[i] == MaxMin(s).1 ==> r[i] == newMin) &&
              (s[i] == MaxMin(s).0 ==> r[i] == newMax)
  {
    var m := MaxMin(s);
    MaxMinBounds(s);
    assert m.1 <= s[0] <= m.0;
    NormPixelRange(m.1, m.1, m.0, newMax, newMin);
    var gsRange := FfFloat(m.0 as int - m.1 as int);
    var newRange := FfFloat(newMax as int - newMin as int);
    var r := NormAll(s, m.1, gsRange, newRange, newMin);
    forall i | 0 <= i < |s|
      ensures newMin <= r[i] <= newMax && (s[i] == m.1 ==> r[i] == newMin) && (s[i] == m.0 ==> r[i] == newMax)
    {
      NormAllAt(s, m.1, gsRange, newRange, newMin, i);
      NormPixelRange(s[i], m.1, m.0, newMax, newMin);
    }
  }

  lemma NormalizeRange(s: seq<byte>, newMax: byte, newMin: byte)
    requires newMin <= newMax && MaxMin(s).0 != MaxMin(s).1
    ensures var r := Normalized(s, newMax, newMin);
            forall i :: 0 <= i < |s| ==>
              newMin <= r[i] <= newMax &&
              (s[i] == MaxMin(s).1 ==> r[i] == newMin) &&
              (s[i] == MaxMin(s).0 ==> r[i] == newMax)
  {
    if s != [] {
      NormAllRange(s, newMax, newMin);
      NormalizedHasRange(s, newMax, newMin);
    }
  }

  lemma NormalizedHasRange(s: seq<byte>, newMax: byte, newMin: byte)
    requires FfFloat(MaxMin(s).0 as int - MaxMin(s).1 as int) != 0
    ensures Normalized(s, newMax, newMin) ==
              NormAll(s, MaxMin(s).1, FfFloat(MaxMin(s).0 as int - MaxMin(s).1 as int), FfFloat(newMax as int - newMin as int), newMin)
  {
  }

  lemma {:induction false} NormAllAt(s: seq<byte>, gsMin: byte, gsRange: u32, newRange: u32, newMin: byte, i: nat)
    requires gsRange != 0 && i < |s|
    ensures NormAll(s, gsMin, gsRange, newRange, newMin)[i] == NormPixel(s[i], gsMin, gsRange, newRange, newMin)
    decreases |s|
  {
    if i < |s| - 1 {
      NormAllAt(s[..|s| - 1], gsMin, gsRange, newRange, newMin, i);
    }
  }

  /** An image whose pixels are all equal is left unchanged. */
  lemma NormalizeUniform(s: seq<byte>, newMax: byte, newMin: byte)
    requires forall i :: 0 <= i < |s| ==> s[i] == s[0]
    ensures Normalized(s, newMax, newMin) == s
  {
    if s != [] {
      var m := MaxMin(s);
      MaxMinAttained(s);
      var i :| 0 <= i < |s| && s[i] == m.0;
      var j :| 0 <= j < |s| && s[j] == m.1;
      assert m.0 == m.1;
    }
  }

  // ---------------------------------------------------------------------
  // img_gs_sub

  /** The absolute difference of two pixel sequences, position by position. */
  function Diff(a: seq<byte>, b: seq<byte>): (r: seq<byte>)
    requires |a| == |b|
    ensures |r| == |a|
  {
    seq(|a|, i requires 0 <= i < |a| => Abs(a[i] as int - b[i] as int))
  }

  /** The walk of img_gs_sub: row r of the first image against row r of the
      second, over the first image's width. */
  method DiffRows(a: array<byte>, aRows: seq<nat>, w: nat, h: nat, b: array<byte>, bRows: seq<nat>, w2: nat, h2: nat)
    requires a != b && a.Length == h * w && aRows == RowStarts(h, w)
    requires b.Length == h2 * w2 && bRows == RowStarts(h2, w2) && w <= w2 && h <= h2
    modifies a
    ensures CropFits(b.Length, w2, 0, 0, w, h)
    ensures a[..] == Diff(old(a[..]), Crop(b[..], w2, 0, 0, w, h))
  {
    MulMono(h, h2, w2);
    ghost var cut := Crop(b[..], w2, 0, 0, w, h);
    var row := 0;
    ghost var done: nat := 0;
    while row < h
      invariant row <= h && done == row * w && done <= h * w
      invariant forall i :: 0 <= i < done ==> a[i] == Abs(old(a[i]) as int - cut[i] as int)
      invariant forall i :: done <= i < a.Length ==> a[i] == old(a[i])
    {
      MulMono(row + 1, h, w);
      MulMono(row + 1, h2, w2);
      assert (row + 1) * w == done + w;
      assert (row + 1) * w2 == row * w2 + w2;
      var pixel1 := aRows[row];
      var pixel2 := bRows[row];
      var col := 0;
      while col < w
        invariant col <= w && pixel1 == done + col && pixel2 == row * w2 + col
        invariant forall i :: 0 <= i < pixel1 ==> a[i] == Abs(old(a[i]) as int - cut[i] as int)
        invariant forall i :: pixel1 <= i < a.Length ==> a[i] == old(a[i])
      {
        CropAt(b[..], w2, 0, 0, w, h, row, col);
        a[pixel1] := Abs(a[pixel1] as int - b[pixel2] as int);
        pixel1 := pixel1 + 1;
        pixel2 := pixel2 + 1;
        col := col + 1;
      }
      row := row + 1;
      done := done + w;
    }
    assert a[..] == Diff(old(a[..]), cut);
  }

  /** img_gs_sub: when both images are grayscale, each pixel of the first
      becomes its absolute difference with the pixel at the same row and
      column of the second; otherwise it fails and nothing changes. */
  method Sub(img1: Image, img2: Image) returns (status: Status)
    requires img1.Valid() && img2.Valid() && img1.data != img2.data
    requires img1.kind == ImgGs ==> img1.comps == GsComponents
    requires img2.kind == ImgGs ==> img2.comps == GsComponents
    requires img1.kind == ImgGs && img2.kind == ImgGs ==> img1.width <= img2.width && img1.height <= img2.height
    modifies img1.data
    ensures status == Success <==> img1.kind == ImgGs && img2.kind == ImgGs
    ensures status == Failure ==> img1.data[..] == old(img1.data[..])
    ensures status == Success ==>
              CropFits(img2.data.Length, img2.width, 0, 0, img1.width, img1.height) &&
              img1.data[..] == Diff(old(img1.data[..]), Crop(img2.data[..], img2.width, 0, 0, img1.width, img1.height))
  {
    if img1.kind != ImgGs || img2.kind != ImgGs {
      return Failure;
    }
    GsShapeBlock(img1);
    GsShapeBlock(img2);
    DiffRows(img1.data, img1.rows, img1.width, img1.height, img2.data, img2.rows, img2.width, img2.height);
    status := Success;
  }

  /** For two images of the same size the second image is read whole. */
  lemma SubSameSize(a: seq<byte>, b: seq<byte>, w: nat, h: nat)
    requires |a| == h * w && |b| == h * w
    ensures CropFits(|b|, w, 0, 0, w, h)
    ensures Diff(a, Crop(b, w, 0, 0, w, h)) == Diff(a, b)
  {
    CropWhole(b, w, h);
    assert b[..h * w] == b;
  }

  // ---------------------------------------------------------------------
  // img_gs_draw_pixel

  /** The guard of img_gs_draw_pixel as written: x and y are wg_int and are
      converted to wg_uint for the comparison with width and height. */
  predicate DrawGuard(x: i32, y: i32, width: u32, height: u32)
  {
    Wrap32(x) < width && Wrap32(y) < height && x >= 0 && y >= 0
  }

  /** img_gs_draw_pixel, with the colour argument as a parameter. The
      pixel (y, x) of a grayscale image receives the colour as a
      gray_pixel when it lies inside the image; nothing else changes. */
  method DrawPixel(img: Image, y: i32, x: i32, color: u32) returns (status: Status)
    requires img.Valid()
    requires img.kind == ImgGs ==> img.comps == GsComponents
    modifies img.data
    ensures status == Success <==> img.kind == ImgGs
    ensures img.kind == ImgGs && 0 <= x < img.width && 0 <= y < img.height ==>
              y * img.width + x < img.data.Length &&
              forall i :: 0 <= i < img.data.Length ==>
                img.data[i] == if i == y * img.width + x then color % 256 else old(img.data[i])
    ensures !(img.kind == ImgGs && 0 <= x < img.width && 0 <= y < img.height) ==>
              img.data[..] == old(img.data[..])
  {
    if img.kind != ImgGs {
      return Failure;
    }
    var value := color % 256;
    if DrawGuard(x, y, img.width, img.height) {
      GsShapeBlock(img);
      var pixel := img.GetPixel(y, x);
      img.data[pixel.value] := value;
    }
    status := Success;
  }
}
