/** The image descriptor (img.c, img.h). An image is one zeroed block of
    bytes holding `height` rows of `row_distance` bytes each, plus an array
    of row start pointers. The model keeps the block as an array of bytes,
    and each pointer as an offset into it. */
module Image {
  import opened CTypes

  /** img_type, plus IMG_CIRCLE_ACC (IMG_USER + 1), the circle accumulator's
      type tag defined beside the edge engine */
  datatype ImgType = ImgInvalid | ImgRgb | ImgBgrx | ImgYuyv | ImgHsv | ImgGs | ImgUser | ImgCircleAcc

  /** The row offsets that img_fill writes: each row one row size after
      the previous one. */
  function RowStarts(h: nat, rowSize: nat): (r: seq<nat>)
    ensures |r| == h
  {
    seq(h, i requires 0 <= i < h => i * rowSize)
  }

  lemma MulMono(a: nat, b: nat, c: nat)
    requires a <= b
    ensures a * c <= b * c
  {
  }

  /** The arithmetic behind img_get_subimage's copy: a `w`-pixel window of
      `c` components at column `x` fits inside a flat `sw * sc`-byte row,
      and `h` such rows from row `y` fit inside the source block. */
  lemma SubimageArith(w: nat, c: nat, rd: nat, sw: nat, sc: nat, srd: nat, sh: nat, slen: nat,
                      x: nat, y: nat, h: nat)
    requires rd == Wrap32(w * c) && srd == Wrap32(sw * sc) && slen == sh * srd
    requires sw * sc < U32 && c <= sc && x + w <= sw && y + h <= sh
    ensures w * c < U32 && rd == w * c && srd == sw * sc
    ensures c * x < U32 && c * x + rd <= srd
    ensures CropFits(slen, srd, y, c * x, rd, h)
  {
    MulMono(x + w, sw, c);
    MulMono(c, sc, sw);
    assert (x + w) * c == c * x + w * c;
    MulMono(y + h, sh, sw * sc);
  }

  /** The status img_fill returns, as written: only the row array's
      allocation is checked. */
  function FillStatusAsWritten(rowsOk: bool, dataOk: bool): (s: Status)
    ensures s == FillStatus(rowsOk, true)
  {
    if !rowsOk then Failure else Success
  }

  /** The status img_fill is meant to return: both allocations checked. */
  function FillStatus(rowsOk: bool, dataOk: bool): (s: Status)
    ensures s == Success <==> rowsOk && dataOk
  {
    if !rowsOk then Failure else if !dataOk then Failure else Success
  }

  /** When the pixel block cannot be allocated but the row array can, the
      source reports success for an image without pixels. */
  lemma FillAsWrittenIgnoresDataAllocation()
    ensures FillStatusAsWritten(true, false) == Success
    ensures FillStatus(true, false) == Failure
  {
  }

  /** The range check of img_get_subimage, as written: the sums x + width
      and y + height are wg_uint and wrap. */
  function SubimageCheckAsWritten(srcWidth: u32, srcHeight: u32, width: u32, height: u32, x: u32, y: u32): (s: Status)
    ensures s == Success ==> width <= srcWidth
    ensures s == Success && x + width < U32 && y + height < U32 ==> x + width <= srcWidth && y + height <= srcHeight
  {
    if width > srcWidth then Failure
    else if Wrap32(x + width) > srcWidth then Failure
    else if Wrap32(y + height) > srcHeight then Failure
    else Success
  }

  /** The range check img_get_subimage is meant to perform. */
  function SubimageCheck(srcWidth: u32, srcHeight: u32, width: u32, height: u32, x: u32, y: u32): (s: Status)
    ensures s == Success <==> x + width <= srcWidth && y + height <= srcHeight
  {
    if width > srcWidth || x + width > srcWidth || y + height > srcHeight then Failure else Success
  }

  /** A column offset near 2^32 wraps the sum past the check: a 1x1
      sub-image at x = 0xFFFFFFFF of a 1x1 image is accepted. Without
      wrap-around the two checks agree. */
  lemma SubimageCheckAsWrittenWraps()
    ensures SubimageCheckAsWritten(1, 1, 1, 1, 0xFFFF_FFFF, 0) == Success
    ensures SubimageCheck(1, 1, 1, 1, 0xFFFF_FFFF, 0) == Failure
  {
  }

  lemma SubimageChecksAgree(srcWidth: u32, srcHeight: u32, width: u32, height: u32, x: u32, y: u32)
    requires x + width < U32 && y + height < U32
    ensures SubimageCheckAsWritten(srcWidth, srcHeight, width, height, x, y) ==
            SubimageCheck(srcWidth, srcHeight, width, height, x, y)
  {
  }

  // ---------------------------------------------------------------------
  // Sub-image bytes

  /** The rectangle can be cut from a block of `len` bytes with rows of
      `srcRow` bytes. */
  predicate CropFits(len: nat, srcRow: nat, y: nat, xOff: nat, rowBytes: nat, h: nat)
  {
    xOff + rowBytes <= srcRow && (y + h) * srcRow <= len
  }

  lemma CropFitsRow(len: nat, srcRow: nat, y: nat, xOff: nat, rowBytes: nat, h: nat, r: nat)
    requires CropFits(len, srcRow, y, xOff, rowBytes, h) && r < h
    ensures (y + r) * srcRow + xOff + rowBytes <= len
    ensures CropFits(len, srcRow, y, xOff, rowBytes, r)
  {
    MulMono(y + r + 1, y + h, srcRow);
    MulMono(y + r, y + h, srcRow);
  }

  /** The bytes of rows y .. y+h-1, columns xOff .. xOff+rowBytes-1 of a
      block with rows of `srcRow` bytes, row after row. */
  function Crop(src: seq<byte>, srcRow: nat, y: nat, xOff: nat, rowBytes: nat, h: nat): (r: seq<byte>)
    requires CropFits(|src|, srcRow, y, xOff, rowBytes, h)
    ensures |r| == h * rowBytes
    decreases h
  {
    if h == 0 then []
    else
      CropFitsRow(|src|, srcRow, y, xOff, rowBytes, h, h - 1);
      var start := (y + h - 1) * srcRow + xOff;
      Crop(src, srcRow, y, xOff, rowBytes, h - 1) + src[start..start + rowBytes]
  }

  lemma CropFitsNext(len: nat, srcRow: nat, y: nat, xOff: nat, rowBytes: nat, h: nat, r: nat)
    requires CropFits(len, srcRow, y, xOff, rowBytes, h) && r < h
    ensures CropFits(len, srcRow, y, xOff, rowBytes, r + 1)
  {
    MulMono(y + r + 1, y + h, srcRow);
  }

  lemma CropStep(src: seq<byte>, srcRow: nat, y: nat, xOff: nat, rowBytes: nat, i: nat)
    requires CropFits(|src|, srcRow, y, xOff, rowBytes, i + 1)
    ensures CropFits(|src|, srcRow, y, xOff, rowBytes, i)
    ensures (y + i) * srcRow + xOff + rowBytes <= |src|
    ensures Crop(src, srcRow, y, xOff, rowBytes, i + 1) ==
            Crop(src, srcRow, y, xOff, rowBytes, i) + src[(y + i) * srcRow + xOff..(y + i) * srcRow + xOff + rowBytes]
  {
    CropFitsRow(|src|, srcRow, y, xOff, rowBytes, i + 1, i);
  }

  /** After copying n bytes to offset `off`, the prefix up to off + n is
      the old prefix followed by the copied bytes. */
  lemma CopiedRowExtends(before: seq<byte>, after: seq<byte>, src: seq<byte>, off: nat, srcOff: nat, n: nat)
    requires off + n <= |before| && srcOff + n <= |src|
    requires after == before[..off] + src[srcOff..srcOff + n] + before[off + n..]
    ensures after[..off + n] == before[..off] + src[srcOff..srcOff + n]
  {
  }

  /** Byte c of row r of the cut is byte xOff + c of source row y + r. */
  lemma {:induction false} CropAt(src: seq<byte>, srcRow: nat, y: nat, xOff: nat, rowBytes: nat, h: nat, r: nat, c: nat)
    requires CropFits(|src|, srcRow, y, xOff, rowBytes, h)
    requires r < h && c < rowBytes
    ensures (y + r) * srcRow + xOff + c < |src| && r * rowBytes + c < h * rowBytes
    ensures Crop(src, srcRow, y, xOff, rowBytes, h)[r * rowBytes + c] == src[(y + r) * srcRow + xOff + c]
    decreases h, 1
  {
    if r + 1 == h {
      CropLastRow(src, srcRow, y, xOff, rowBytes, h, r, c);
    } else {
      CropAtEarlierRow(src, srcRow, y, xOff, rowBytes, h, r, c);
    }
  }

  lemma {:induction false} CropAtEarlierRow(src: seq<byte>, srcRow: nat, y: nat, xOff: nat, rowBytes: nat, h: nat, r: nat, c: nat)
    requires CropFits(|src|, srcRow, y, xOff, rowBytes, h)
    requires r + 1 < h && c < rowBytes
    ensures (y + r) * srcRow + xOff + c < |src| && r * rowBytes + c < h * rowBytes
    ensures Crop(src, srcRow, y, xOff, rowBytes, h)[r * rowBytes + c] == src[(y + r) * srcRow + xOff + c]
    decreases h, 0
  {
    hide Crop;
    CropFitsRow(|src|, srcRow, y, xOff, rowBytes, h, h - 1);
    CropAt(src, srcRow, y, xOff, rowBytes, h - 1, r, c);
    CropKeepsPrefix(src, srcRow, y, xOff, rowBytes, h, r * rowBytes + c);
  }

  lemma MulSucc(a: nat, b: nat)
    ensures (a + 1) * b == a * b + b
  {
  }

  /** The last row of the cut is the last source row's slice. */
  lemma CropLastRow(src: seq<byte>, srcRow: nat, y: nat, xOff: nat, rowBytes: nat, h: nat, r: nat, c: nat)
    requires CropFits(|src|, srcRow, y, xOff, rowBytes, h)
    requires r + 1 == h && c < rowBytes
    ensures (y + r) * srcRow + xOff + c < |src| && r * rowBytes + c < h * rowBytes
    ensures Crop(src, srcRow, y, xOff, rowBytes, h)[r * rowBytes + c] == src[(y + r) * srcRow + xOff + c]
  {
    hide Crop;
    CropFitsRow(|src|, srcRow, y, xOff, rowBytes, h, r);
    CropStep(src, srcRow, y, xOff, rowBytes, r);
    MulSucc(r, rowBytes);
  }

  /** Cutting one more row keeps the bytes already cut. */
  lemma CropKeepsPrefix(src: seq<byte>, srcRow: nat, y: nat, xOff: nat, rowBytes: nat, h: nat, k: nat)
    requires CropFits(|src|, srcRow, y, xOff, rowBytes, h)
    requires 0 < h && k < (h - 1) * rowBytes
    ensures CropFits(|src|, srcRow, y, xOff, rowBytes, h - 1)
    ensures k < h * rowBytes
    ensures Crop(src, srcRow, y, xOff, rowBytes, h)[k] == Crop(src, srcRow, y, xOff, rowBytes, h - 1)[k]
  {
    hide Crop;
    CropStep(src, srcRow, y, xOff, rowBytes, h - 1);
    MulSucc(h - 1, rowBytes);
  }

  /** Cutting all rows at full width gives the block back. */
  lemma {:induction false} CropWhole(src: seq<byte>, srcRow: nat, h: nat)
    requires h * srcRow <= |src|
    ensures Crop(src, srcRow, 0, 0, srcRow, h) == src[..h * srcRow]
    decreases h
  {
    if h > 0 {
      MulMono(h - 1, h, srcRow);
      CropWhole(src, srcRow, h - 1);
      assert src[..h * srcRow] == src[..(h - 1) * srcRow] + src[(h - 1) * srcRow..(h - 1) * srcRow + srcRow];
    }
  }

  /** fast_memcpy (the C variant: memcpy) of n bytes between two distinct
      blocks. */
  method FastMemcpy(dest: array<byte>, destOff: nat, src: array<byte>, srcOff: nat, n: nat)
    requires dest != src
    requires destOff + n <= dest.Length && srcOff + n <= src.Length
    modifies dest
    ensures dest[..] == old(dest[..destOff]) + src[srcOff..srcOff + n] + old(dest[destOff + n..])
  {
    var k := 0;
    while k < n
      invariant 0 <= k <= n
      invariant dest[..destOff] == old(dest[..destOff])
      invariant dest[destOff..destOff + k] == src[srcOff..srcOff + k]
      invariant dest[destOff + k..] == old(dest[destOff + k..])
    {
      dest[destOff + k] := src[srcOff + k];
      assert dest[destOff..destOff + k + 1] == dest[destOff..destOff + k] + [dest[destOff + k]];
      k := k + 1;
    }
    assert dest[..] == dest[..destOff] + dest[destOff..destOff + n] + dest[destOff + n..];
  }

  /** The row loop of img_get_subimage: row r of the destination block
      receives `rowBytes` bytes from source row y + r, starting xOff bytes
      into it. */
  method CopyRect(dest: array<byte>, destRows: seq<nat>, src: array<byte>, srcRows: seq<nat>, srcRow: nat,
                  y: nat, xOff: nat, rowBytes: nat, h: nat)
    requires dest != src
    requires CropFits(src.Length, srcRow, y, xOff, rowBytes, h)
    requires dest.Length == h * rowBytes && destRows == RowStarts(h, rowBytes)
    requires |srcRows| >= y + h && forall k :: 0 <= k < |srcRows| ==> srcRows[k] == k * srcRow
    modifies dest
    ensures dest[..] == Crop(src[..], srcRow, y, xOff, rowBytes, h)
  {
    var rowIndex: nat := 0;
    ghost var done: nat := 0;
    while rowIndex < h
      invariant rowIndex <= h
      invariant done == rowIndex * rowBytes && done <= dest.Length
      invariant dest[..done] == Crop(src[..], srcRow, y, xOff, rowBytes, rowIndex)
    {
      CropFitsNext(src.Length, srcRow, y, xOff, rowBytes, h, rowIndex);
      CropStep(src[..], srcRow, y, xOff, rowBytes, rowIndex);
      MulMono(rowIndex + 1, h, rowBytes);
      assert (rowIndex + 1) * rowBytes == done + rowBytes;
      var destOff := destRows[rowIndex];
      var srcOff := srcRows[y + rowIndex] + xOff;
      ghost var before := dest[..];
      FastMemcpy(dest, destOff, src, srcOff, rowBytes);
      CopiedRowExtends(before, dest[..], src[..], destOff, srcOff, rowBytes);
      rowIndex := rowIndex + 1;
      done := done + rowBytes;
    }
    assert dest[..] == dest[..done];
  }

  // ---------------------------------------------------------------------
  // Wg_image

  class Image {
    var kind: ImgType
    /** image: the pixel block */
    var data: array<byte>
    /** rows: the offset of each row's first byte in the block */
    var rows: seq<nat>
    var size: int
    var width: u32
    var height: u32
    var rowDistance: u32
    var comps: u32

    /** The layout img_fill establishes. */
    ghost predicate Valid()
      reads this
    {
      rowDistance == Wrap32(width * comps) &&
      data.Length == height * rowDistance &&
      size == Wrap32(height * rowDistance) &&
      rows == RowStarts(height, rowDistance)
    }

    /** The row size fits a wg_uint, so rows are exactly width * comps
        bytes long. */
    predicate Flat()
      reads this
    {
      width * comps < U32
    }

    /** A zeroed descriptor, `Wg_image img = {0}`. */
    constructor ()
      ensures Valid() && Flat() && fresh(data)
      ensures kind == ImgInvalid && width == 0 && height == 0 && comps == 0 && rows == []
    {
      kind := ImgInvalid;
      data := new byte[0];
      rows := [];
      size := 0;
      width := 0;
      height := 0;
      rowDistance := 0;
      comps := 0;
    }

    /** img_fill, with the allocation outcomes of the row array and of the
        pixel block as inputs, and with the pixel block's allocation
        checked. The new rows are zeroed. */
    method Fill(w: u32, h: u32, compNum: u32, t: ImgType, rowsOk: bool, dataOk: bool) returns (status: Status)
      modifies this
      ensures status == FillStatus(rowsOk, dataOk)
      ensures status == Failure ==> unchanged(this)
      ensures status == Success ==>
                Valid() && fresh(data) &&
                width == w && height == h && comps == compNum && kind == t &&
                rowDistance == Wrap32(w * compNum) && size == Wrap32(h * rowDistance) &&
                forall i :: 0 <= i < data.Length ==> data[i] == 0
    {
      if !rowsOk {
        return Failure;
      }
      var rowSize := Wrap32(w * compNum);
      if !dataOk {
        return Failure;
      }
      var rawData := new byte[h * rowSize](_ => 0);
      // the first row pointer is stored unconditionally; for a zero height
      // it lands past the zero-length row array
      var rowArray: seq<nat> := [0];
      var i := 1;
      while i < h
        invariant 1 <= i && |rowArray| == i
        invariant i <= h || h == 0
        invariant forall k :: 0 <= k < i ==> rowArray[k] == k * rowSize
      {
        rowArray := rowArray + [rowArray[i - 1] + rowSize];
        i := i + 1;
      }
      data := rawData;
      width := w;
      height := h;
      size := Wrap32(h * rowSize);
      comps := compNum;
      rows := rowArray[..h];
      rowDistance := rowSize;
      kind := t;
      status := Success;
    }

    /** img_cleanup: the row array and the block are released and the
        whole descriptor is zeroed. */
    method Cleanup() returns (status: Status)
      modifies this
      ensures Valid() && fresh(data) && data.Length == 0
      ensures kind == ImgInvalid && rows == [] && size == 0 && width == 0 && height == 0
      ensures rowDistance == 0 && comps == 0
      ensures status == Success
    {
      data := new byte[0];
      rows := [];
      kind := ImgInvalid;
      size := 0;
      width := 0;
      height := 0;
      rowDistance := 0;
      comps := 0;
      status := Success;
    }

    /** img_get_row */
    function GetRow(rowNum: u32): (r: Option<nat>)
      reads this
      requires Valid()
      ensures r.Some? <==> rowNum < height
      ensures r.Some? ==> r.value == rowNum * rowDistance && r.value + rowDistance <= data.Length
    {
      if rowNum >= height then None
      else
        MulMono(rowNum + 1, height, rowDistance);
        Some(rows[rowNum])
    }

    /** img_get_pixel: the offset of the pixel's first component. */
    function GetPixel(row: u32, col: u32): (r: Option<nat>)
      reads this
      requires Valid()
      ensures r.Some? <==> row < height && col < width
      ensures r.Some? && Flat() ==> r.value == row * rowDistance + col * comps
      ensures r.Some? && Flat() ==> r.value + comps <= data.Length
    {
      if row >= height then None
      else if col >= width then None
      else
        PixelInBlock(row, col);
        Some(rows[row] + Wrap32(col * comps))
    }

    lemma PixelInBlock(row: nat, col: nat)
      requires Valid() && row < height && col < width
      ensures Flat() ==> col * comps < U32 && row * rowDistance + col * comps + comps <= data.Length
    {
      if Flat() {
        MulMono(col + 1, width, comps);
        MulMono(row + 1, height, rowDistance);
      }
    }

    /** img_get_data: the block, the number of pixels (width * height as a
        wg_uint) and the bytes per pixel. */
    function GetData(): (r: (array<byte>, u32, u32))
      reads this
      requires Valid()
      ensures r.0 == data && r.2 == comps
      ensures width * height < U32 ==> r.1 == width * height
      ensures (r.1 - width * height) % U32 == 0
      ensures Flat() && width * height < U32 ==> r.1 * r.2 == data.Length
    {
      (data, Wrap32(width * height), comps)
    }

    /** img_get_subimage on this (the destination, already filled): copy
        the rectangle at (x, y) of the destination's size out of `src`,
        row by row, using the destination's bytes per pixel; with the range
        check done without wrap-around. */
    method GetSubimage(src: Image, x: u32, y: u32) returns (status: Status)
      requires Valid() && src.Valid() && src != this && src.data != data
      requires src.Flat() && comps <= src.comps
      modifies data
      ensures status == SubimageCheck(src.width, src.height, width, height, x, y)
      ensures status == Failure ==> data[..] == old(data[..])
      ensures status == Success ==>
                Flat() && comps * x + rowDistance <= src.rowDistance &&
                CropFits(src.data.Length, src.rowDistance, y, comps * x, rowDistance, height) &&
                data[..] == Crop(src.data[..], src.rowDistance, y, comps * x, rowDistance, height)
    {
      status := SubimageCheck(src.width, src.height, width, height, x, y);
      if status == Failure {
        return;
      }
      SubimageFits(src, x, y);
      var rowBytes := Wrap32(width * comps);
      var xOff := Wrap32(comps * x);
      assert rowBytes == rowDistance && xOff == comps * x;
      assert forall k :: 0 <= k < |src.rows| ==> src.rows[k] == k * src.rowDistance;
      CopyRect(data, rows, src.data, src.rows, src.rowDistance, y, xOff, rowBytes, height);
    }

    lemma SubimageFits(src: Image, x: u32, y: u32)
      requires Valid() && src.Valid() && src.Flat() && comps <= src.comps
      requires x + width <= src.width && y + height <= src.height
      ensures Flat() && rowDistance == width * comps && src.rowDistance == src.width * src.comps
      ensures comps * x < U32 && comps * x + rowDistance <= src.rowDistance
      ensures CropFits(src.data.Length, src.rowDistance, y, comps * x, rowDistance, height)
    {
      SubimageArith(width, comps, rowDistance, src.width, src.comps, src.rowDistance, src.height,
                    src.data.Length, x, y, height);
    }

    /** img_copy: fill this with the size and type of `src` (its status is
        ignored), then copy the whole of `src` into it. */
    method Copy(src: Image, rowsOk: bool, dataOk: bool) returns (status: Status)
      requires Valid() && src.Valid() && src != this && src.Flat()
      requires !(rowsOk && dataOk) ==> src.data != data && comps <= src.comps
      modifies this, data
      ensures Valid()
      ensures rowsOk && dataOk ==>
                status == Success &&
                width == src.width && height == src.height && comps == src.comps && kind == src.kind &&
                data[..] == src.data[..]
      ensures !(rowsOk && dataOk) ==>
                status == SubimageCheck(src.width, src.height, old(width), old(height), 0, 0) &&
                width == old(width) && height == old(height) && comps == old(comps) && kind == old(kind)
    {
      var filled := Fill(src.width, src.height, src.comps, src.kind, rowsOk, dataOk);
      status := GetSubimage(src, 0, 0);
      if filled == Success {
        CropWhole(src.data[..], src.rowDistance, src.height);
        assert src.data[..src.height * src.rowDistance] == src.data[..];
      }
    }
  }

  // ---------------------------------------------------------------------
  // Img_iterator

  /** The fields of an Img_iterator. `row` is the index of the row pointer
      `next_row` reads next, `col` the current column pointer (None for
      NULL). The counters are taken as unbounded. */
  datatype IterValue = IterValue(width: nat, height: nat, rowDistance: nat, comps: nat,
                                 rows: seq<nat>, row: nat, col: Option<nat>, colIndex: nat, rowIndex: nat)

  /** The row pointer advances only while rows remain. */
  predicate IterWellFormed(v: IterValue)
  {
    |v.rows| == v.height && v.row == (if v.rowIndex <= v.height then v.rowIndex else v.height)
  }

  /** img_get_iterator */
  function IterInit(width: nat, height: nat, rowDistance: nat, comps: nat, rows: seq<nat>): (v: IterValue)
    requires |rows| == height
    ensures IterWellFormed(v)
  {
    IterValue(width, height, rowDistance, comps, rows, 0, None, 0, 0)
  }

  /** img_iterator_has_next_row */
  predicate HasNextRow(v: IterValue)
  {
    v.rowIndex < v.height
  }

  /** img_iterator_has_next_col */
  predicate HasNextCol(v: IterValue)
  {
    v.colIndex < v.width
  }

  /** img_iterator_next_row: the new iterator and the returned row. */
  function NextRow(v: IterValue): (r: (IterValue, Option<nat>))
    requires IterWellFormed(v)
    ensures IterWellFormed(r.0) && r.0.colIndex == 0 && r.1 == r.0.col
    ensures r.1.Some? <==> HasNextRow(v)
  {
    if v.rowIndex < v.height then
      var w := v.(colIndex := 0, col := Some(v.rows[v.row]), row := v.row + 1, rowIndex := v.rowIndex + 1);
      (w, w.col)
    else
      var w := v.(colIndex := 0, col := None, rowIndex := v.rowIndex + 1);
      (w, w.col)
  }

  /** img_iterator_next_col: the new iterator and the returned column. */
  function NextCol(v: IterValue): (r: (IterValue, Option<nat>))
    ensures r.1.Some? <==> HasNextCol(v) && v.col.Some?
    ensures r.0.colIndex == v.colIndex + 1
  {
    var w := v.(col := if v.col.Some? then Some(v.col.value + v.comps) else None, colIndex := v.colIndex + 1);
    (w, if v.colIndex < v.width then v.col else None)
  }

  /** n calls of next_col, with their results. */
  function NextCols(v: IterValue, n: nat): (r: (IterValue, seq<Option<nat>>))
    ensures |r.1| == n
    decreases n
  {
    if n == 0 then (v, [])
    else
      var s := NextCol(v);
      var rest := NextCols(s.0, n - 1);
      (rest.0, [s.1] + rest.1)
  }

  /** n calls of next_row, with their results. */
  function NextRows(v: IterValue, n: nat): (r: (IterValue, seq<Option<nat>>))
    requires IterWellFormed(v)
    ensures IterWellFormed(r.0) && |r.1| == n
    decreases n
  {
    if n == 0 then (v, [])
    else
      var s := NextRow(v);
      var rest := NextRows(s.0, n - 1);
      (rest.0, [s.1] + rest.1)
  }

  /** Along a row that starts at `start`, call j of next_col returns the
      pixel at start + j * comps for the first `width` calls, then NULL. */
  lemma {:induction false} ColumnScan(v: IterValue, start: nat, n: nat)
    requires v.col == Some(start + v.colIndex * v.comps)
    ensures forall j :: 0 <= j < n ==>
              NextCols(v, n).1[j] == (if v.colIndex + j < v.width then Some(start + (v.colIndex + j) * v.comps) else None)
    ensures NextCols(v, n).0.colIndex == v.colIndex + n
    decreases n
  {
    if n > 0 {
      var s := NextCol(v);
      assert s.0.col == Some(start + (v.colIndex + 1) * v.comps);
      ColumnScan(s.0, start, n - 1);
    }
  }

  /** From a fresh iterator, call k of next_row returns the start of row k
      while k < height, and NULL afterwards; each call restarts the
      column counter. */
  lemma {:induction false} RowScan(v: IterValue, n: nat)
    requires IterWellFormed(v)
    ensures forall k :: 0 <= k < n ==>
              NextRows(v, n).1[k] == (if v.rowIndex + k < v.height then Some(v.rows[v.rowIndex + k]) else None)
    ensures NextRows(v, n).0.rowIndex == v.rowIndex + n
    ensures n > 0 ==> NextRows(v, n).0.colIndex == 0
    decreases n
  {
    if n > 0 {
      var s := NextRow(v);
      RowScan(s.0, n - 1);
    }
  }

  /** The iterator over an image row by row and pixel by pixel. */
  class ImgIterator {
    var width: nat
    var height: nat
    var rowDistance: nat
    var comps: nat
    var rows: seq<nat>
    var row: nat
    var col: Option<nat>
    var colIndex: nat
    var rowIndex: nat

    function Value(): IterValue
      reads this
    {
      IterValue(width, height, rowDistance, comps, rows, row, col, colIndex, rowIndex)
    }

    /** img_get_iterator */
    constructor (img: Image)
      requires img.Valid()
      ensures Value() == IterInit(img.width, img.height, img.rowDistance, img.comps, img.rows)
    {
      colIndex := 0;
      rowIndex := 0;
      rows := img.rows;
      row := 0;
      col := None;
      width := img.width;
      height := img.height;
      rowDistance := img.rowDistance;
      comps := img.comps;
    }

    /** img_iterator_next_row */
    method NextRowStep() returns (r: Option<nat>)
      requires IterWellFormed(Value())
      modifies this
      ensures Value() == NextRow(old(Value())).0 && r == NextRow(old(Value())).1
    {
      colIndex := 0;
      if rowIndex < height {
        col := Some(rows[row]);
        row := row + 1;
      } else {
        col := None;
      }
      rowIndex := rowIndex + 1;
      r := col;
    }

    /** img_iterator_next_col */
    method NextColStep() returns (r: Option<nat>)
      modifies this
      ensures Value() == NextCol(old(Value())).0 && r == NextCol(old(Value())).1
    {
      var oldCol := col;
      col := if col.Some? then Some(col.value + comps) else None;
      r := if colIndex < width then oldCol else None;
      colIndex := colIndex + 1;
    }
  }
}
