/** The integer pixel operations of the edge and feature engine
    (ef_engine.c): thresholding, the circle accumulator's maximum and its
    rescaling into a grayscale image, the 5x5 mean filter and hysteresis
    thresholding. Grayscale images are one byte per pixel, so a pixel at
    row y and column x sits at offset y * width + x of the block. */
module EfEngine {
  import opened CTypes
  import opened Image
  import opened ImageGs

  // ---------------------------------------------------------------------
  // ef_threshold

  /** The value ef_threshold gives a pixel: white from the threshold up,
      black below it. */
  function ThresholdPixel(p: byte, value: byte): (q: byte)
    ensures q == 255 || q == 0
    ensures q == 255 <==> p >= value
  {
    if p >= value then 255 else 0
  }

  function Thresholded(s: seq<byte>, value: byte): (r: seq<byte>)
    ensures |r| == |s|
  {
    seq(|s|, i requires 0 <= i < |s| => ThresholdPixel(s[i], value))
  }

  /** The result is black and white, white exactly where the input reached
      the threshold. */
  lemma ThresholdedBinary(s: seq<byte>, value: byte)
    ensures forall i :: 0 <= i < |s| ==>
              (Thresholded(s, value)[i] == 255 <==> s[i] >= value) &&
              (Thresholded(s, value)[i] == 255 || Thresholded(s, value)[i] == 0)
  {
  }

  /** Thresholding a thresholded image again changes nothing. */
  lemma ThresholdedIdempotent(s: seq<byte>, value: byte)
    ensures Thresholded(Thresholded(s, value), value) == Thresholded(s, value)
  {
  }

  /** The row and column walk of ef_threshold, in place. */
  method ThresholdRows(data: array<byte>, rows: seq<nat>, w: nat, h: nat, value: byte)
    requires data.Length == h * w && rows == RowStarts(h, w)
    modifies data
    ensures data[..] == Thresholded(old(data[..]), value)
  {
    var row := 0;
    ghost var done: nat := 0;
    while row < h
      invariant row <= h && done == row * w && done <= h * w
      invariant forall i :: 0 <= i < done ==> data[i] == ThresholdPixel(old(data[i]), value)
      invariant forall i :: done <= i < data.Length ==> data[i] == old(data[i])
    {
      MulMono(row + 1, h, w);
      assert (row + 1) * w == done + w;
      var gsPixel := rows[row];
      var col := 0;
      while col < w
        invariant col <= w && gsPixel == done + col
        invariant forall i :: 0 <= i < gsPixel ==> data[i] == ThresholdPixel(old(data[i]), value)
        invariant forall i :: gsPixel <= i < data.Length ==> data[i] == old(data[i])
      {
        data[gsPixel] := ThresholdPixel(data[gsPixel], value);
        gsPixel := gsPixel + 1;
        col := col + 1;
      }
      row := row + 1;
      done := done + w;
    }
  }

  /** ef_threshold: a grayscale image is thresholded in place; any other
      image is rejected untouched. */
  method Threshold(img: Image, value: byte) returns (status: Status)
    requires img.Valid()
    requires img.kind == ImgGs ==> img.comps == GsComponents
    modifies img.data
    ensures img.kind != ImgGs ==> status == Failure && img.data[..] == old(img.data[..])
    ensures img.kind == ImgGs ==> status == Success && img.data[..] == Thresholded(old(img.data[..]), value)
  {
    if img.kind != ImgGs {
      return Failure;
    }
    GsShapeBlock(img);
    ThresholdRows(img.data, img.rows, img.width, img.height, value);
    status := Success;
  }

  // ---------------------------------------------------------------------
  // The circle accumulator

  /** An IMG_CIRCLE_ACC image: `height` rows of `width` wg_uint vote cells.
      The cells are kept as words rather than as the four bytes each
      occupies in the image block. */
  class Accumulator {
    var kind: ImgType
    var width: u32
    var height: u32
    /** the vote cells, row after row */
    var votes: array<u32>

    ghost predicate Valid()
      reads this
    {
      votes.Length == height * width
    }

    /** The zeroed accumulator ef_detect_circle fills for an image of the
        given size. */
    constructor (w: u32, h: u32)
      ensures Valid() && fresh(votes) && kind == ImgCircleAcc && width == w && height == h
      ensures forall i :: 0 <= i < votes.Length ==> votes[i] == 0
    {
      kind := ImgCircleAcc;
      width := w;
      height := h;
      votes := new u32[h * w](_ => 0);
    }
  }

  /** WG_MAX folded over the cells, from 0. */
  function MaxVotes(s: seq<u32>): (m: u32)
    decreases |s|
  {
    if s == [] then 0
    else
      var m := MaxVotes(s[..|s| - 1]);
      if m > s[|s| - 1] then m else s[|s| - 1]
  }

  /** The fold is the largest cell, or 0 when there is none. */
  lemma {:induction false} MaxVotesIsMax(s: seq<u32>)
    ensures forall i :: 0 <= i < |s| ==> s[i] <= MaxVotes(s)
    ensures s == [] ==> MaxVotes(s) == 0
    ensures s != [] ==> exists i :: 0 <= i < |s| && s[i] == MaxVotes(s)
    decreases |s|
  {
    if s != [] {
      var p := s[..|s| - 1];
      MaxVotesIsMax(p);
      assert forall i :: 0 <= i < |p| ==> s[i] == p[i];
      if MaxVotes(s) == s[|s| - 1] {
        assert s[|s| - 1] == MaxVotes(s);
      } else {
        var i :| 0 <= i < |p| && p[i] == MaxVotes(p);
        assert s[i] == MaxVotes(s);
      }
    }
  }

  lemma MaxVotesStep(s: seq<u32>, k: nat)
    requires k < |s|
    ensures MaxVotes(s[..k + 1]) == if MaxVotes(s[..k]) > s[k] then MaxVotes(s[..k]) else s[k]
  {
    assert s[..k + 1][..k] == s[..k];
  }

  /** After the first n cells, m is the running maximum and pos the first
      cell holding it; while m is 0 every cell seen was 0. */
  ghost predicate FirstMax(s: seq<u32>, n: nat, pos: nat, m: u32)
    requires n <= |s|
  {
    m == MaxVotes(s[..n]) &&
    (m == 0 ==> forall i :: 0 <= i < n ==> s[i] == 0) &&
    (m > 0 ==> pos < n && s[pos] == m && forall i :: 0 <= i < pos ==> s[i] < m)
  }

  /** The strict comparison of ef_acc_get_max moves the position only to
      a cell that beats the maximum so far. */
  lemma FirstMaxStep(s: seq<u32>, n: nat, pos: nat, m: u32)
    requires n < |s| && FirstMax(s, n, pos, m)
    ensures s[n] > m ==> FirstMax(s, n + 1, n, s[n])
    ensures s[n] <= m ==> FirstMax(s, n + 1, pos, m)
  {
    MaxVotesStep(s, n);
    MaxVotesIsMax(s[..n]);
    assert forall i :: 0 <= i < n ==> s[..n][i] == s[i];
  }

  lemma FirstMaxWhole(s: seq<u32>, pos: nat, m: u32)
    requires FirstMax(s, |s|, pos, m)
    ensures m == MaxVotes(s)
    ensures m > 0 ==> pos < |s| && s[pos] == m && forall i :: 0 <= i < pos ==> s[i] < m
  {
    assert s[..|s|] == s;
  }

  /** m is the largest of the cells of a `w`-wide block of `h` rows, and
      (y, x) is the first cell holding it in row-major order, or (0, 0)
      when m is 0. */
  predicate IsFirstMax(s: seq<u32>, w: nat, h: nat, y: nat, x: nat, m: u32)
  {
    m == MaxVotes(s) &&
    (m == 0 ==> y == 0 && x == 0) &&
    (m > 0 ==> y < h && x < w && y * w + x < |s| && s[y * w + x] == m &&
               forall i :: 0 <= i < y * w + x ==> s[i] < m)
  }

  lemma CellInBlock(w: nat, h: nat, y: nat, x: nat)
    requires y < h && x < w
    ensures y * w + x < h * w
  {
    MulMono(y + 1, h, w);
  }

  /** The running-maximum walk of ef_acc_get_max: the first cell, in row-
      major order, holding the largest vote, or (0, 0) with 0 votes when
      every cell is zero. */
  method ScanAccMax(votes: array<u32>, w: nat, h: nat) returns (y: nat, x: nat, maxValue: u32)
    requires votes.Length == h * w
    ensures IsFirstMax(votes[..], w, h, y, x, maxValue)
  {
    y, x, maxValue := 0, 0, 0;
    ghost var pos: nat := 0;
    ghost var yStart: nat := 0;
    var row := 0;
    var rowStart: nat := 0;  // the offset img_get_row gives
    assert votes[..0] == [];
    while row < h
      invariant row <= h && rowStart == row * w && rowStart <= h * w
      invariant FirstMax(votes[..], rowStart, pos, maxValue)
      invariant maxValue == 0 ==> y == 0 && x == 0
      invariant maxValue > 0 ==> y < row && x < w && pos == yStart + x && yStart == y * w
    {
      MulMono(row + 1, h, w);
      assert (row + 1) * w == rowStart + w;
      var accPixel := rowStart;
      var col := 0;
      while col < w
        invariant col <= w && accPixel == rowStart + col
        invariant FirstMax(votes[..], accPixel, pos, maxValue)
        invariant maxValue == 0 ==> y == 0 && x == 0
        invariant maxValue > 0 ==> y <= row && x < w && pos == yStart + x && yStart == y * w
      {
        FirstMaxStep(votes[..], accPixel, pos, maxValue);
        if votes[accPixel] > maxValue {
          maxValue := votes[accPixel];
          x := col;
          y := row;
          pos := accPixel;
          yStart := rowStart;
        }
        accPixel := accPixel + 1;
        col := col + 1;
      }
      row := row + 1;
      rowStart := rowStart + w;
    }
    FirstMaxWhole(votes[..], pos, maxValue);
    if maxValue > 0 {
      CellInBlock(w, h, y, x);
    }
  }

  /** ef_acc_get_max: a non-accumulator image fails and leaves the caller's
      row, column and vote values as they were. */
  method AccGetMax(acc: Accumulator, row0: u32, col0: u32, votes0: u32)
    returns (status: Status, row: u32, col: u32, votes: u32)
    requires acc.Valid()
    ensures acc.kind != ImgCircleAcc ==> status == Failure && row == row0 && col == col0 && votes == votes0
    ensures acc.kind == ImgCircleAcc ==>
              status == Success && IsFirstMax(acc.votes[..], acc.width, acc.height, row, col, votes)
  {
    if acc.kind != ImgCircleAcc {
      return Failure, row0, col0, votes0;
    }
    var y, x, m := ScanAccMax(acc.votes, acc.width, acc.height);
    return Success, y, x, m;
  }

  /** The gray level ef_acc_2_gs gives a cell: GS_PIXEL_MAX * votes / max.
      GS_PIXEL_MAX is a size_t, so on an LP64 target, where size_t has 64
      bits, the product does not wrap for 32-bit votes. */
  function ScaledVote(v: u32, m: u32): (g: byte)
    requires 0 < m && v <= m
    ensures g == 255 <==> v == m
    ensures v == 0 ==> g == 0
  {
    ScaledBounds(v, m);
    255 * v / m
  }

  lemma ScaledBounds(v: nat, m: nat)
    requires 0 < m && v <= m
    ensures 255 * v / m <= 255
    ensures 255 * v / m == 255 <==> v == m
  {
    var q := 255 * v / m;
    LessMul(q, 256, m);
    if v < m {
      LessMul(q, 255, m);
    } else {
      LessMul(255, q + 1, m);
    }
  }

  /** a <= b ==> a * c <= b * c, as an implication. */
  lemma MulMonoWhen(a: nat, b: nat, c: nat)
    ensures a <= b ==> a * c <= b * c
  {
    if a <= b {
      MulMono(a, b, c);
    }
  }

  lemma LessMul(x: nat, y: nat, m: nat)
    requires x * m < y * m
    ensures x < y
  {
    MulMonoWhen(y, x, m);
  }

  /** A larger vote never maps to a darker gray level. */
  lemma ScaledVoteMono(u: u32, v: u32, m: u32)
    requires 0 < m && u <= v <= m
    ensures ScaledVote(u, m) <= ScaledVote(v, m)
  {
    DivMono(255 * u, 255 * v, m);
  }

  lemma DivMono(a: nat, b: nat, m: nat)
    requires 0 < m && a <= b
    ensures a / m <= b / m
  {
    LessMul(a / m, b / m + 1, m);
  }

  /** The grayscale picture ef_acc_2_gs draws of the cells: all black when
      the largest vote is zero. */
  function ScaledVotes(s: seq<u32>): (g: seq<byte>)
    ensures |g| == |s|
  {
    var m := MaxVotes(s);
    MaxVotesIsMax(s);
    seq(|s|, i requires 0 <= i < |s| => if m == 0 then 0 else ScaledVote(s[i], m))
  }

  /** The loudest cells come out white, empty cells black, and the order of
      the votes is kept. */
  lemma ScaledVotesMeaning(s: seq<u32>)
    ensures forall i :: 0 <= i < |s| ==> (ScaledVotes(s)[i] == 255 <==> s[i] == MaxVotes(s) && s[i] > 0)
    ensures forall i :: 0 <= i < |s| && s[i] == 0 ==> ScaledVotes(s)[i] == 0
    ensures forall i, j :: 0 <= i < |s| && 0 <= j < |s| && s[i] <= s[j] ==> ScaledVotes(s)[i] <= ScaledVotes(s)[j]
  {
    MaxVotesIsMax(s);
    forall i, j | 0 <= i < |s| && 0 <= j < |s| && s[i] <= s[j]
      ensures ScaledVotes(s)[i] <= ScaledVotes(s)[j]
    {
      if MaxVotes(s) > 0 {
        ScaledVoteMono(s[i], s[j], MaxVotes(s));
      }
    }
  }

  /** The rescaling walk of ef_acc_2_gs over the filled grayscale block. */
  method ScaleRows(gs: array<byte>, votes: array<u32>, w: nat, h: nat, maxVal: u32)
    requires gs.Length == h * w && votes.Length == h * w
    requires maxVal == MaxVotes(votes[..]) && maxVal != 0
    modifies gs
    ensures gs[..] == ScaledVotes(votes[..])
  {
    MaxVotesIsMax(votes[..]);
    var row := 0;
    var rowStart: nat := 0;  // the offset img_get_row gives
    while row < h
      invariant row <= h && rowStart == row * w && rowStart <= h * w
      invariant forall i :: 0 <= i < rowStart ==> gs[i] == ScaledVote(votes[i], maxVal)
    {
      MulMono(row + 1, h, w);
      assert (row + 1) * w == rowStart + w;
      var accPixel := rowStart;
      var gsPixel := rowStart;
      var col := 0;
      while col < w
        invariant col <= w && gsPixel == rowStart + col && accPixel == gsPixel
        invariant forall i :: 0 <= i < gsPixel ==> gs[i] == ScaledVote(votes[i], maxVal)
      {
        gs[gsPixel] := ScaledVote(votes[accPixel], maxVal);
        gsPixel := gsPixel + 1;
        accPixel := accPixel + 1;
        col := col + 1;
      }
      row := row + 1;
      rowStart := rowStart + w;
    }
  }

  /** The WG_MAX walk of ef_acc_2_gs. */
  method AccMax(votes: array<u32>, w: nat, h: nat) returns (maxVal: u32)
    requires votes.Length == h * w
    ensures maxVal == MaxVotes(votes[..])
  {
    maxVal := 0;
    var row := 0;
    var rowStart: nat := 0;  // the offset img_get_row gives
    while row < h
      invariant row <= h && rowStart == row * w && rowStart <= h * w
      invariant maxVal == MaxVotes(votes[..rowStart])
    {
      MulMono(row + 1, h, w);
      assert (row + 1) * w == rowStart + w;
      var accPixel := rowStart;
      var col := 0;
      while col < w
        invariant col <= w && accPixel == rowStart + col
        invariant maxVal == MaxVotes(votes[..accPixel])
      {
        MaxVotesStep(votes[..], accPixel);
        maxVal := if maxVal > votes[accPixel] then maxVal else votes[accPixel];
        accPixel := accPixel + 1;
        col := col + 1;
      }
      row := row + 1;
      rowStart := rowStart + w;
    }
    assert votes[..] == votes[..rowStart];
  }

  /** ef_acc_2_gs: an accumulator is drawn into a newly filled grayscale
      image of its size (the allocation outcomes are inputs); any other
      image, or a failed fill, leaves the target alone. */
  method Acc2Gs(acc: Accumulator, accGs: Image, rowsOk: bool, dataOk: bool) returns (status: Status)
    requires acc.Valid()
    modifies accGs
    ensures acc.kind != ImgCircleAcc ==> status == Failure
    ensures acc.kind == ImgCircleAcc ==> status == FillStatus(rowsOk, dataOk)
    ensures status == Failure ==> unchanged(accGs)
    ensures status == Success ==>
              GsShape(accGs) && fresh(accGs.data) && accGs.kind == ImgGs &&
              accGs.width == acc.width && accGs.height == acc.height &&
              accGs.data[..] == ScaledVotes(acc.votes[..])
  {
    if acc.kind != ImgCircleAcc {
      return Failure;
    }
    var width := acc.width;
    var height := acc.height;
    status := accGs.Fill(width, height, GsComponents, ImgGs, rowsOk, dataOk);
    if status != Success {
      return Failure;
    }
    var maxVal := AccMax(acc.votes, width, height);
    if maxVal != 0 {
      ScaleRows(accGs.data, acc.votes, width, height, maxVal);
    } else {
      assert accGs.data[..] == ScaledVotes(acc.votes[..]);
    }
  }

  // ---------------------------------------------------------------------
  // ef_smooth

  /** Five neighbouring pixels of one row, from offset p. */
  function Row5(s: seq<byte>, p: nat): (n: nat)
    requires p + 5 <= |s|
    ensures n <= 5 * 255
  {
    s[p] as int + s[p + 1] + s[p + 2] + s[p + 3] + s[p + 4]
  }

  /** The 25 pixels of the 5x5 window whose top-left pixel is at offset p
      of a block whose rows lie rd bytes apart. */
  function Window(s: seq<byte>, p: nat, rd: nat): (n: nat)
    requires p + 4 * rd + 5 <= |s|
    ensures n <= 25 * 255
  {
    Row5(s, p) + Row5(s, p + rd) + Row5(s, p + 2 * rd) + Row5(s, p + 3 * rd) + Row5(s, p + 4 * rd)
  }

  /** The integer mean of 25 pixels, which fits a pixel again. */
  function Mean25(n: nat): (v: byte)
    requires n <= 25 * 255
  {
    n / 25
  }

  /** A window of pixels between lo and hi has its mean between them. */
  lemma WindowRange(s: seq<byte>, p: nat, rd: nat, lo: nat, hi: nat)
    requires p + 4 * rd + 5 <= |s| && forall i :: 0 <= i < |s| ==> lo <= s[i] <= hi
    ensures lo <= Mean25(Window(s, p, rd)) <= hi
  {
    Row5Range(s, p, lo, hi);
    Row5Range(s, p + rd, lo, hi);
    Row5Range(s, p + 2 * rd, lo, hi);
    Row5Range(s, p + 3 * rd, lo, hi);
    Row5Range(s, p + 4 * rd, lo, hi);
    DivMono(25 * lo, Window(s, p, rd), 25);
    DivMono(Window(s, p, rd), 25 * hi, 25);
  }

  lemma WindowFits(len: nat, w: nat, r: nat, c: nat)
    requires c + 4 < w && (r + 5) * w <= len
    ensures r * w + c + 4 * w + 5 <= len
  {
    assert (r + 5) * w == r * w + 5 * w;
  }

  /** Output pixel (r, c) of ef_smooth. */
  function SmoothPixel(s: seq<byte>, w: nat, r: nat, c: nat): byte
    requires c + 4 < w && (r + 5) * w <= |s|
  {
    WindowFits(|s|, w, r, c);
    Mean25(Window(s, r * w + c, w))
  }

  /** Output row r of ef_smooth over a grayscale block `w` pixels wide:
      the integer mean of each 5x5 window along source rows r .. r+4. */
  function SmoothRow(s: seq<byte>, w: nat, r: nat): (o: seq<byte>)
    requires 4 <= w && (r + 5) * w <= |s|
    ensures |o| == w - 4
  {
    seq(w - 4, c requires 0 <= c < w - 4 => SmoothPixel(s, w, r, c))
  }

  lemma RowsFit(len: nat, w: nat, n: nat)
    requires n > 0 && (n + 4) * w <= len
    ensures (n - 1 + 5) * w <= len && (n - 1 + 4) * w <= len
  {
    MulMono(n - 1 + 4, n + 4, w);
  }

  /** The first n output rows of ef_smooth, row after row. */
  function SmoothRows(s: seq<byte>, w: nat, n: nat): (o: seq<byte>)
    requires 4 <= w && (n + 4) * w <= |s|
    ensures |o| == n * (w - 4)
    decreases n
  {
    if n == 0 then []
    else
      RowsFit(|s|, w, n);
      assert n * (w - 4) == (n - 1) * (w - 4) + (w - 4);
      SmoothRows(s, w, n - 1) + SmoothRow(s, w, n - 1)
  }

  /** Output pixel (r, c) is the mean of the window whose top-left pixel is
      source pixel (r, c). */
  lemma {:induction false} SmoothAt(s: seq<byte>, w: nat, n: nat, r: nat, c: nat)
    requires 4 <= w && (n + 4) * w <= |s| && r < n && c < w - 4
    ensures r * (w - 4) + c < n * (w - 4) && r * w + c + 4 * w + 5 <= |s|
    ensures SmoothRows(s, w, n)[r * (w - 4) + c] == Mean25(Window(s, r * w + c, w))
    decreases n
  {
    RowsFit(|s|, w, n);
    MulMono(r + 5, n + 4, w);
    WindowFits(|s|, w, r, c);
    MulMono(r + 1, n, w - 4);
    if r < n - 1 {
      SmoothAt(s, w, n - 1, r, c);
    } else {
      assert SmoothRows(s, w, n)[r * (w - 4) + c] == SmoothRow(s, w, r)[c];
    }
  }

  /** Row r of a window bounded pixel by pixel. */
  lemma Row5Range(s: seq<byte>, p: nat, lo: nat, hi: nat)
    requires p + 5 <= |s| && forall i :: 0 <= i < |s| ==> lo <= s[i] <= hi
    ensures 5 * lo <= Row5(s, p) <= 5 * hi
  {
  }

  /** Each output pixel lies between the darkest and the brightest source
      pixel: a window mean never leaves the range of the pixels averaged. */
  lemma {:induction false} SmoothRange(s: seq<byte>, w: nat, n: nat, lo: nat, hi: nat)
    requires 4 <= w && (n + 4) * w <= |s|
    requires forall i :: 0 <= i < |s| ==> lo <= s[i] <= hi
    ensures forall k :: 0 <= k < n * (w - 4) ==> lo <= SmoothRows(s, w, n)[k] <= hi
    decreases n
  {
    if n > 0 {
      RowsFit(|s|, w, n);
      SmoothRange(s, w, n - 1, lo, hi);
      var prev := SmoothRows(s, w, n - 1);
      var last := SmoothRow(s, w, n - 1);
      forall c | 0 <= c < w - 4
        ensures lo <= last[c] <= hi
      {
        WindowFits(|s|, w, n - 1, c);
        WindowRange(s, (n - 1) * w + c, w, lo, hi);
      }
      assert SmoothRows(s, w, n) == prev + last;
    }
  }

  lemma SmoothRowsNext(s: seq<byte>, w: nat, n: nat)
    requires 4 <= w && (n + 5) * w <= |s|
    ensures SmoothRows(s, w, n + 1) == SmoothRows(s, w, n) + SmoothRow(s, w, n)
  {
  }

  lemma SmoothRowAt(s: seq<byte>, w: nat, r: nat, c: nat, p: nat)
    requires 4 <= w && (r + 5) * w <= |s| && c < w - 4 && p == r * w + c
    ensures p + 4 * w + 5 <= |s|
    ensures SmoothRow(s, w, r)[c] == Mean25(Window(s, p, w))
  {
    WindowFits(|s|, w, r, c);
  }

  /** A uniform image smooths to the same uniform level. */
  lemma SmoothUniform(s: seq<byte>, w: nat, n: nat, v: byte)
    requires 4 <= w && (n + 4) * w <= |s|
    requires forall i :: 0 <= i < |s| ==> s[i] == v
    ensures forall k :: 0 <= k < n * (w - 4) ==> SmoothRows(s, w, n)[k] == v
  {
    SmoothRange(s, w, n, v, v);
  }

  /** The 5x5 walk of ef_smooth, from a block `w` pixels wide into one
      `w - 4` pixels wide. */
  method SmoothWalk(dst: array<byte>, dstRows: seq<nat>, src: array<byte>, srcRows: seq<nat>,
                    rd: nat, w: nat, h: nat)
    requires dst != src && 4 <= w && 4 <= h && rd == w
    requires src.Length == h * w && srcRows == RowStarts(h, w)
    requires dst.Length == (h - 4) * (w - 4) && dstRows == RowStarts(h - 4, w - 4)
    modifies dst
    ensures dst[..] == SmoothRows(src[..], w, h - 4)
  {
    hide SmoothRows, SmoothRow, Window;
    var row := 0;
    ghost var srcStart: nat := 0;
    ghost var dstStart: nat := 0;
    while row < h - 4
      invariant row <= h - 4 && srcStart == row * w && dstStart == row * (w - 4)
      invariant dstStart <= dst.Length
      invariant dst[..dstStart] == SmoothRows(src[..], w, row)
    {
      MulMono(row + 5, h, w);
      MulMono(row + 1, h - 4, w - 4);
      assert (row + 1) * (w - 4) == dstStart + (w - 4);
      assert (row + 1) * w == srcStart + w;
      ghost var before := dst[..dstStart];
      var gsPixel := srcRows[row];
      var gsNewPixel := dstRows[row];
      var col := 0;
      while col < w - 4
        invariant col <= w - 4 && gsPixel == srcStart + col && gsNewPixel == dstStart + col
        invariant dst[..gsNewPixel] == before + SmoothRow(src[..], w, row)[..col]
      {
        SmoothRowAt(src[..], w, row, col, gsPixel);
        dst[gsNewPixel] := Mean25(Window(src[..], gsPixel, rd));
        assert dst[..gsNewPixel + 1] == dst[..gsNewPixel] + [dst[gsNewPixel]];
        assert SmoothRow(src[..], w, row)[..col + 1] == SmoothRow(src[..], w, row)[..col] + [SmoothRow(src[..], w, row)[col]];
        gsPixel := gsPixel + 1;
        gsNewPixel := gsNewPixel + 1;
        col := col + 1;
      }
      assert SmoothRow(src[..], w, row)[..w - 4] == SmoothRow(src[..], w, row);
      SmoothRowsNext(src[..], w, row);
      row := row + 1;
      srcStart := srcStart + w;
      dstStart := dstStart + (w - 4);
    }
    assert dst[..] == dst[..dstStart];
  }

  /** ef_smooth: a grayscale image of at least 4x4 pixels is averaged into
      a new (w-4)x(h-4) grayscale image; any other image is rejected. The
      new image's fill is taken to succeed, since the source does not look
      at its status. */
  method Smooth(img: Image, newImg: Image) returns (status: Status)
    requires img.Valid() && img != newImg
    requires img.kind == ImgGs ==> img.comps == GsComponents && 4 <= img.width && 4 <= img.height
    modifies newImg
    ensures img.kind != ImgGs ==> status == Failure && unchanged(newImg)
    ensures img.kind == ImgGs ==>
              status == Success && GsShape(newImg) && fresh(newImg.data) && newImg.kind == ImgGs &&
              newImg.width == img.width - 4 && newImg.height == img.height - 4 &&
              newImg.data[..] == SmoothRows(img.data[..], img.width, img.height - 4)
  {
    if img.kind != ImgGs {
      return Failure;
    }
    GsShapeBlock(img);
    var width := img.width;
    var height := img.height;
    var filled := newImg.Fill(width - 4, height - 4, GsComponents, ImgGs, true, true);
    GsShapeBlock(newImg);
    SmoothWalk(newImg.data, newImg.rows, img.data, img.rows, img.rowDistance, width, height);
    status := Success;
  }

  // ---------------------------------------------------------------------
  // ef_hyst_thr and hist_connect

  /** hist_check: at least one pixel from the top and left borders and two
      from the bottom and right ones (for images of at least 2x2 pixels,
      where the unsigned `width - 2` and `height - 2` do not wrap). */
  predicate InCheck(w: nat, h: nat, y: int, x: int)
  {
    1 <= x < w - 2 && 1 <= y < h - 2
  }

  /** The offset of pixel (y, x) in a grayscale block. */
  function Off(w: nat, h: nat, y: nat, x: nat): (i: nat)
    requires y < h && x < w
    ensures i < h * w
  {
    MulMono(y + 1, h, w);
    y * w + x
  }

  /** The offsets of the pixels hist_check admits. */
  ghost function Interior(w: nat, h: nat): set<nat>
  {
    set y: nat, x: nat | y < h && x < w && InCheck(w, h, y, x) :: Off(w, h, y, x)
  }

  lemma InInterior(w: nat, h: nat, y: nat, x: nat)
    requires y < h && x < w && InCheck(w, h, y, x)
    ensures Off(w, h, y, x) in Interior(w, h)
  {
  }

  /** The pixels ef_hyst_thr as written tests against the upper threshold:
      those one column left of a position hist_check admits. */
  ghost function SeedsAsWritten(w: nat, h: nat): (r: set<nat>)
    ensures forall y: nat, x: nat :: InCheck(w, h, y, x) ==> Off(w, h, y, x - 1) in r
  {
    set y: nat, x: nat | y < h && x < w && InCheck(w, h, y, x + 1) :: Off(w, h, y, x)
  }

  /** (y, x) is one of the nine pixels around (row, col), itself included. */
  predicate NearBy(row: nat, col: nat, y: nat, x: nat)
  {
    row - 1 <= y <= row + 1 && col - 1 <= x <= col + 1
  }

  /** t differs from s only by pixels turned white. */
  ghost predicate Whitened(s: seq<byte>, t: seq<byte>)
  {
    |s| == |t| && forall i :: 0 <= i < |s| ==> t[i] == s[i] || t[i] == 255
  }

  /** The number of pixels that are not white; every write of the
      hysteresis pass lowers it, which bounds hist_connect's recursion. */
  function NonWhite(s: seq<byte>): (n: nat)
    ensures n <= |s|
    decreases |s|
  {
    if s == [] then 0 else NonWhite(s[..|s| - 1]) + (if s[|s| - 1] == 255 then 0 else 1)
  }

  lemma {:induction false} NonWhiteMono(s: seq<byte>, t: seq<byte>)
    requires Whitened(s, t)
    ensures NonWhite(t) <= NonWhite(s)
    decreases |s|
  {
    if s != [] {
      var n := |s| - 1;
      assert Whitened(s[..n], t[..n]);
      NonWhiteMono(s[..n], t[..n]);
    }
  }

  lemma {:induction false} NonWhiteWhiten(s: seq<byte>, p: nat)
    requires p < |s| && s[p] != 255
    ensures NonWhite(s[p := 255]) == NonWhite(s) - 1
    decreases |s|
  {
    var n := |s| - 1;
    var t := s[p := 255];
    if p == n {
      assert t[..n] == s[..n];
    } else {
      assert t[..n] == s[..n][p := 255];
      NonWhiteWhiten(s[..n], p);
    }
  }

  /** Every neighbour of (r, c) that hist_check admits and that is at
      least `low` in `before` is white in `after`. */
  ghost predicate Grown(w: nat, h: nat, low: u32, before: seq<byte>, after: seq<byte>, r: nat, c: nat)
  {
    |before| == h * w && |after| == h * w &&
    forall y: nat, x: nat :: NearBy(r, c, y, x) && InCheck(w, h, y, x) && before[Off(w, h, y, x)] >= low ==>
      after[Off(w, h, y, x)] == 255
  }

  /** Every pixel that changed from `before` to `after` has been grown
      from: the closure hist_connect's recursion builds. */
  ghost predicate Closed(w: nat, h: nat, low: u32, before: seq<byte>, after: seq<byte>)
  {
    |before| == h * w && |after| == h * w &&
    forall r: nat, c: nat :: r < h && c < w && after[Off(w, h, r, c)] != before[Off(w, h, r, c)] ==>
      Grown(w, h, low, before, after, r, c)
  }

  lemma ClosedUnchanged(w: nat, h: nat, low: u32, s: seq<byte>)
    requires |s| == h * w
    ensures Closed(w, h, low, s, s)
  {
  }

  /** hist_connect's own neighbourhood clause, as Grown. */
  lemma NeighboursGrown(w: nat, h: nat, low: u32, s: seq<byte>, t: seq<byte>, r: nat, c: nat)
    requires |s| == h * w && |t| == h * w
    requires forall y: nat, x: nat :: NearBy(r, c, y, x) && InCheck(w, h, y, x) ==>
               (s[Off(w, h, y, x)] >= low ==> t[Off(w, h, y, x)] == 255)
    ensures Grown(w, h, low, s, t, r, c)
  {
  }

  lemma OffInjective(w: nat, h: nat, y: nat, x: nat, y2: nat, x2: nat)
    requires y < h && x < w && y2 < h && x2 < w
    requires Off(w, h, y, x) == Off(w, h, y2, x2)
    ensures y == y2 && x == x2
  {
    if y < y2 {
      assert (y + 1) * w == y * w + w;
      MulMono(y + 1, y2, w);
    } else if y2 < y {
      assert (y2 + 1) * w == y2 * w + w;
      MulMono(y2 + 1, y, w);
    }
  }

  /** Growth seen from a later state still holds from an earlier one:
      a neighbour at least `low` earlier is either still that value or
      already white at the later state. */
  lemma GrownThrough(w: nat, h: nat, low: u32, s0: seq<byte>, s1: seq<byte>, s2: seq<byte>, r: nat, c: nat)
    requires |s0| == h * w && Whitened(s0, s1) && Whitened(s1, s2)
    requires Grown(w, h, low, s1, s2, r, c)
    ensures Grown(w, h, low, s0, s2, r, c)
  {
  }

  /** Growth is kept by further whitening. */
  lemma GrownLater(w: nat, h: nat, low: u32, s0: seq<byte>, s1: seq<byte>, s2: seq<byte>, r: nat, c: nat)
    requires Whitened(s1, s2) && Grown(w, h, low, s0, s1, r, c)
    ensures Grown(w, h, low, s0, s2, r, c)
  {
  }

  /** Two closed whitening steps make one closed step. */
  lemma ClosedCompose(w: nat, h: nat, low: u32, s0: seq<byte>, s1: seq<byte>, s2: seq<byte>)
    requires Whitened(s0, s1) && Whitened(s1, s2)
    requires Closed(w, h, low, s0, s1) && Closed(w, h, low, s1, s2)
    ensures Closed(w, h, low, s0, s2)
  {
    forall r: nat, c: nat | r < h && c < w && s2[Off(w, h, r, c)] != s0[Off(w, h, r, c)]
      ensures Grown(w, h, low, s0, s2, r, c)
    {
      if s1[Off(w, h, r, c)] != s0[Off(w, h, r, c)] {
        GrownLater(w, h, low, s0, s1, s2, r, c);
      } else {
        GrownThrough(w, h, low, s0, s1, s2, r, c);
      }
    }
  }

  /** Whitening pixel (r, c) and then growing from it, by a closed step,
      is a closed step. */
  lemma ClosedWhiten(w: nat, h: nat, low: u32, s0: seq<byte>, s2: seq<byte>, r: nat, c: nat)
    requires |s0| == h * w && r < h && c < w
    requires Whitened(s0[Off(w, h, r, c) := 255], s2)
    requires Grown(w, h, low, s0[Off(w, h, r, c) := 255], s2, r, c)
    requires Closed(w, h, low, s0[Off(w, h, r, c) := 255], s2)
    ensures Whitened(s0, s2) && Closed(w, h, low, s0, s2)
  {
    var s1 := s0[Off(w, h, r, c) := 255];
    assert Whitened(s0, s1);
    forall r2: nat, c2: nat | r2 < h && c2 < w && s2[Off(w, h, r2, c2)] != s0[Off(w, h, r2, c2)]
      ensures Grown(w, h, low, s0, s2, r2, c2)
    {
      if r2 == r && c2 == c {
        GrownThrough(w, h, low, s0, s1, s2, r, c);
      } else {
        if Off(w, h, r2, c2) == Off(w, h, r, c) {
          OffInjective(w, h, r2, c2, r, c);
        }
        GrownThrough(w, h, low, s0, s1, s2, r2, c2);
      }
    }
  }

  /** A path of pixels, each after the first an 8-neighbour of the one
      before that hist_check admits and that is at least `low` and not
      white in `s`. */
  ghost predicate LowChain(w: nat, h: nat, low: u32, s: seq<byte>, path: seq<(nat, nat)>)
  {
    |s| == h * w && |path| >= 1 && path[0].0 < h && path[0].1 < w &&
    forall k :: 1 <= k < |path| ==>
      NearBy(path[k - 1].0, path[k - 1].1, path[k].0, path[k].1) && InCheck(w, h, path[k].0, path[k].1) &&
      s[Off(w, h, path[k].0, path[k].1)] >= low && s[Off(w, h, path[k].0, path[k].1)] != 255
  }

  /** In a closed whitening, a path at least `low` that starts at a
      changed pixel is white all along. */
  lemma {:induction false} ClosedReachesChain(w: nat, h: nat, low: u32, s: seq<byte>, t: seq<byte>, path: seq<(nat, nat)>)
    requires Whitened(s, t) && Closed(w, h, low, s, t) && LowChain(w, h, low, s, path)
    requires t[Off(w, h, path[0].0, path[0].1)] != s[Off(w, h, path[0].0, path[0].1)]
    ensures forall k :: 0 <= k < |path| ==> t[Off(w, h, path[k].0, path[k].1)] == 255
    decreases |path|
  {
    if |path| > 1 {
      var n := |path| - 1;
      var prefix := path[..n];
      assert LowChain(w, h, low, s, prefix) by {
        forall k | 1 <= k < |prefix|
          ensures NearBy(prefix[k - 1].0, prefix[k - 1].1, prefix[k].0, prefix[k].1)
        {
          assert prefix[k] == path[k] && prefix[k - 1] == path[k - 1];
        }
      }
      ClosedReachesChain(w, h, low, s, t, prefix);
      var (r, c) := path[n - 1];
      assert t[Off(w, h, r, c)] == 255 by {
        assert prefix[n - 1] == path[n - 1];
      }
      assert n - 1 >= 1 ==> s[Off(w, h, r, c)] != 255;
      assert Grown(w, h, low, s, t, r, c);
      forall k | 0 <= k < |path|
        ensures t[Off(w, h, path[k].0, path[k].1)] == 255
      {
        if k < n {
          assert prefix[k] == path[k];
        }
      }
    }
  }

  /** hist_connect: every neighbour of (row, col) admitted by hist_check
      that is at least `low` and not yet white is turned white and grown
      from in turn. */
  method HistConnect(a: array<byte>, w: nat, h: nat, row: nat, col: nat, low: u32)
    requires a.Length == h * w && InCheck(w, h, row, col)
    modifies a
    ensures Whitened(old(a[..]), a[..])
    ensures forall i :: 0 <= i < a.Length && a[i] != old(a[i]) ==> i in Interior(w, h) && old(a[i]) >= low
    ensures forall y: nat, x: nat :: NearBy(row, col, y, x) && InCheck(w, h, y, x) ==>
              (old(a[Off(w, h, y, x)]) >= low ==> a[Off(w, h, y, x)] == 255)
    ensures Closed(w, h, low, old(a[..]), a[..])
    decreases NonWhite(a[..])
  {
    hide Closed, Grown, Interior;
    ghost var entry := a[..];
    ClosedUnchanged(w, h, low, entry);
    var x1 := col - 1;
    while x1 <= col + 1
      invariant col - 1 <= x1 <= col + 2
      invariant Whitened(entry, a[..])
      invariant forall i :: 0 <= i < a.Length && a[i] != entry[i] ==> i in Interior(w, h) && entry[i] >= low
      invariant forall y: nat, x: nat :: NearBy(row, col, y, x) && x < x1 && InCheck(w, h, y, x) ==>
                  (entry[Off(w, h, y, x)] >= low ==> a[Off(w, h, y, x)] == 255)
      invariant Closed(w, h, low, entry, a[..])
    {
      var y1 := row - 1;
      while y1 <= row + 1
        invariant row - 1 <= y1 <= row + 2
        invariant Whitened(entry, a[..])
        invariant forall i :: 0 <= i < a.Length && a[i] != entry[i] ==> i in Interior(w, h) && entry[i] >= low
        invariant forall y: nat, x: nat :: NearBy(row, col, y, x) && (x < x1 || (x == x1 && y < y1)) && InCheck(w, h, y, x) ==>
                    (entry[Off(w, h, y, x)] >= low ==> a[Off(w, h, y, x)] == 255)
        invariant Closed(w, h, low, entry, a[..])
      {
        var p := Off(w, h, y1, x1);  // img_get_pixel(img, y1, x1)
        var pix := a[p];
        if pix >= low && pix != 255 && InCheck(w, h, y1, x1) {
          ghost var before := a[..];
          NonWhiteMono(entry, a[..]);
          NonWhiteWhiten(a[..], p);
          a[p] := 255;
          assert a[..] == before[p := 255];
          InInterior(w, h, y1, x1);
          HistConnect(a, w, h, y1, x1, low);
          NeighboursGrown(w, h, low, before[p := 255], a[..], y1, x1);
          ClosedWhiten(w, h, low, before, a[..], y1, x1);
          ClosedCompose(w, h, low, entry, before, a[..]);
        }
        y1 := y1 + 1;
      }
      x1 := x1 + 1;
    }
  }

  /** The pass of ef_hyst_thr with the tested pixel corrected to (row, col):
      each interior pixel at least `upp` and not yet white is turned white
      and grown from with hist_connect. */
  method HystRows(a: array<byte>, w: nat, h: nat, upp: u32, low: u32)
    requires a.Length == h * w && 2 <= w && 2 <= h
    modifies a
    ensures Whitened(old(a[..]), a[..])
    ensures forall i :: 0 <= i < a.Length && a[i] != old(a[i]) ==>
              i in Interior(w, h) && (old(a[i]) >= upp || old(a[i]) >= low)
    ensures forall y: nat, x: nat :: InCheck(w, h, y, x) ==>
              (old(a[Off(w, h, y, x)]) >= upp ==> a[Off(w, h, y, x)] == 255)
    ensures Closed(w, h, low, old(a[..]), a[..])
  {
    hide Closed, Grown, Interior;
    ghost var entry := a[..];
    ClosedUnchanged(w, h, low, entry);
    var row := 1;
    while row < h - 2
      invariant 1 <= row && (row <= h - 2 || h == 2)
      invariant Whitened(entry, a[..])
      invariant forall i :: 0 <= i < a.Length && a[i] != entry[i] ==>
                  i in Interior(w, h) && (entry[i] >= upp || entry[i] >= low)
      invariant forall y: nat, x: nat :: y < row && InCheck(w, h, y, x) ==>
                  (entry[Off(w, h, y, x)] >= upp ==> a[Off(w, h, y, x)] == 255)
      invariant Closed(w, h, low, entry, a[..])
    {
      var col := 1;
      while col < w - 2
        invariant 1 <= col && (col <= w - 2 || w == 2)
        invariant Whitened(entry, a[..])
        invariant forall i :: 0 <= i < a.Length && a[i] != entry[i] ==>
                    i in Interior(w, h) && (entry[i] >= upp || entry[i] >= low)
        invariant forall y: nat, x: nat :: (y < row || (y == row && x < col)) && InCheck(w, h, y, x) ==>
                    (entry[Off(w, h, y, x)] >= upp ==> a[Off(w, h, y, x)] == 255)
        invariant Closed(w, h, low, entry, a[..])
      {
        var gsPixel := Off(w, h, row, col);
        var pix := a[gsPixel];
        if pix >= upp && pix != 255 {
          ghost var before := a[..];
          a[gsPixel] := 255;
          assert a[..] == before[gsPixel := 255];
          InInterior(w, h, row, col);
          HistConnect(a, w, h, row, col, low);
          NeighboursGrown(w, h, low, before[gsPixel := 255], a[..], row, col);
          ClosedWhiten(w, h, low, before, a[..], row, col);
          ClosedCompose(w, h, low, entry, before, a[..]);
        }
        col := col + 1;
      }
      row := row + 1;
    }
  }

  /** What the corrected pass promises, for any image that satisfies
      HystRows's postcondition: a pixel joined to a seed (a pixel admitted
      by hist_check, at least `upp` and not yet white) by a path of
      admitted 8-neighbours at least `low` and not yet white ends white,
      together with the whole path. */
  lemma HystGrowsFromSeeds(w: nat, h: nat, upp: u32, low: u32, s: seq<byte>, t: seq<byte>, path: seq<(nat, nat)>)
    requires Whitened(s, t) && Closed(w, h, low, s, t)
    requires forall y: nat, x: nat :: InCheck(w, h, y, x) ==> (s[Off(w, h, y, x)] >= upp ==> t[Off(w, h, y, x)] == 255)
    requires LowChain(w, h, low, s, path) && InCheck(w, h, path[0].0, path[0].1)
    requires s[Off(w, h, path[0].0, path[0].1)] >= upp && s[Off(w, h, path[0].0, path[0].1)] != 255
    ensures forall k :: 0 <= k < |path| ==> t[Off(w, h, path[k].0, path[k].1)] == 255
  {
    ClosedReachesChain(w, h, low, s, t, path);
  }

  /** The pass of ef_hyst_thr as written: the row pointer starts at column
      0 while the column counter starts at 1, so the pixel tested and
      whitened is (row, col - 1), and it is hist_connect(row, col) that
      follows. */
  method HystRowsAsWritten(a: array<byte>, w: nat, h: nat, upp: u32, low: u32)
    requires a.Length == h * w && 2 <= w && 2 <= h
    modifies a
    ensures Whitened(old(a[..]), a[..])
    ensures forall i :: 0 <= i < a.Length && a[i] != old(a[i]) ==>
              (i in Interior(w, h) && old(a[i]) >= low) || (i in SeedsAsWritten(w, h) && old(a[i]) >= upp)
    ensures forall y: nat, x: nat :: InCheck(w, h, y, x + 1) ==>
              (old(a[Off(w, h, y, x)]) >= upp ==> a[Off(w, h, y, x)] == 255)
  {
    hide Closed, Grown, Interior;
    ghost var entry := a[..];
    var row := 1;
    while row < h - 2
      invariant 1 <= row && (row <= h - 2 || h == 2)
      invariant Whitened(entry, a[..])
      invariant forall i :: 0 <= i < a.Length && a[i] != entry[i] ==>
                  (i in Interior(w, h) && entry[i] >= low) || (i in SeedsAsWritten(w, h) && entry[i] >= upp)
      invariant forall y: nat, x: nat :: y < row && InCheck(w, h, y, x + 1) ==>
                  (entry[Off(w, h, y, x)] >= upp ==> a[Off(w, h, y, x)] == 255)
    {
      var gsPixel := Off(w, h, row, 0);  // img_get_row(img, row)
      var col := 1;
      while col < w - 2
        invariant 1 <= col && (col <= w - 2 || w == 2) && gsPixel == row * w + col - 1
        invariant Whitened(entry, a[..])
        invariant forall i :: 0 <= i < a.Length && a[i] != entry[i] ==>
                    (i in Interior(w, h) && entry[i] >= low) || (i in SeedsAsWritten(w, h) && entry[i] >= upp)
        invariant forall y: nat, x: nat :: (y < row || (y == row && x + 1 < col)) && InCheck(w, h, y, x + 1) ==>
                    (entry[Off(w, h, y, x)] >= upp ==> a[Off(w, h, y, x)] == 255)
      {
        assert gsPixel == Off(w, h, row, col - 1);
        var pix := a[gsPixel];
        if pix >= upp && pix != 255 {
          a[gsPixel] := 255;
          assert gsPixel in SeedsAsWritten(w, h);
          HistConnect(a, w, h, row, col, low);
        }
        col := col + 1;
        gsPixel := gsPixel + 1;
      }
      row := row + 1;
    }
  }

  /** ef_hyst_thr, with the tested pixel corrected: a grayscale image of at
      least 2x2 pixels goes through the hysteresis pass in place; any other
      image is rejected untouched. */
  method HystThr(img: Image, upp: u32, low: u32) returns (status: Status)
    requires img.Valid()
    requires img.kind == ImgGs ==> img.comps == GsComponents && 2 <= img.width && 2 <= img.height
    modifies img.data
    ensures img.kind != ImgGs ==> status == Failure && img.data[..] == old(img.data[..])
    ensures img.kind == ImgGs ==> status == Success && Whitened(old(img.data[..]), img.data[..])
    ensures img.kind == ImgGs ==>
              forall i :: 0 <= i < img.data.Length && img.data[i] != old(img.data[i]) ==>
                i in Interior(img.width, img.height) && (old(img.data[i]) >= upp || old(img.data[i]) >= low)
    ensures img.kind == ImgGs ==>
              forall y: nat, x: nat :: InCheck(img.width, img.height, y, x) ==>
                (old(img.data[Off(img.width, img.height, y, x)]) >= upp ==>
                   img.data[Off(img.width, img.height, y, x)] == 255)
    ensures img.kind == ImgGs ==> Closed(img.width, img.height, low, old(img.data[..]), img.data[..])
  {
    if img.kind != ImgGs {
      return Failure;
    }
    GsShapeBlock(img);
    HystRows(img.data, img.width, img.height, upp, low);
    status := Success;
  }

  /** On a 4x4 image hist_check admits only pixel (1, 1), at offset 5, but
      the pass as written tests only pixel (1, 0), at offset 4, which lies
      on the border. */
  lemma SeedsAsWrittenOfFour()
    ensures Interior(4, 4) == {5}
    ensures SeedsAsWritten(4, 4) == {4}
  {
    assert Off(4, 4, 1, 1) == 5 && Off(4, 4, 1, 0) == 4;
    assert 5 in Interior(4, 4);
    assert 4 in SeedsAsWritten(4, 4);
  }

  /** A 4x4 image whose interior pixel (1, 1) is 150 and whose other pixels
      are black, with upp = 100 and low = 200: the pass as written leaves
      the pixel at 150. */
  method HystAsWrittenMissesSeed() returns (v: byte)
    ensures v == 150
  {
    var a := new byte[16](i => if i == 5 then 150 else 0);
    SeedsAsWrittenOfFour();
    HystRowsAsWritten(a, 4, 4, 100, 200);
    v := a[5];
  }

  /** The same image under the corrected pass: the pixel turns white. */
  method HystSeedsInterior() returns (v: byte)
    ensures v == 255
  {
    var a := new byte[16](i => if i == 5 then 150 else 0);
    assert a[Off(4, 4, 1, 1)] == 150;
    HystRows(a, 4, 4, 100, 200);
    v := a[Off(4, 4, 1, 1)];
  }
}
