/** Choosing the capture format and its decompressor (cam_format_selector.c).
    The driver call that sets a format, cam_output_format_set, is a
    parameter: a function from the requested format to the status and the
    format the driver writes back. */
module FormatSelector {
  import opened CTypes
  import opened CamTypes

  /** v4l2_fourcc(a, b, c, d) = a | b << 8 | c << 16 | d << 24 */
  function Fourcc(a: byte, b: byte, c: byte, d: byte): (code: u32)
    ensures code % 256 == a && code / 256 % 256 == b
    ensures code / 65536 % 256 == c && code / 16777216 == d
  {
    FourccBytes(a, b, c, d);
    a + 256 * b + 65536 * c + 16777216 * d
  }

  lemma FourccBytes(a: byte, b: byte, c: byte, d: byte)
    ensures var code := a + 256 * b + 65536 * c + 16777216 * d;
            code < U32 && code % 256 == a && code / 256 % 256 == b &&
            code / 65536 % 256 == c && code / 16777216 == d
  {
    var code := a + 256 * b + 65536 * c + 16777216 * d;
    var q1 := b + 256 * c + 65536 * d;
    var q2 := c + 256 * d;
    assert code == a + 256 * q1 && q1 == b + 256 * q2;
    assert code / 256 == q1 && q1 / 256 == q2;
    assert code == (a + 256 * b) + 65536 * q2;
    assert code / 65536 == q2;
    assert code == (a + 256 * b + 65536 * c) + 16777216 * d;
  }

  /** The codes of "YUYV", "MJPG" and "JPEG". */
  const FourccYuyv: u32 := 0x5659_5559
  const FourccMjpg: u32 := 0x4750_4a4d
  const FourccJpeg: u32 := 0x4745_504a

  lemma FourccCodes()
    ensures FourccYuyv == Fourcc('Y' as byte, 'U' as byte, 'Y' as byte, 'V' as byte)
    ensures FourccMjpg == Fourcc('M' as byte, 'J' as byte, 'P' as byte, 'G' as byte)
    ensures FourccJpeg == Fourcc('J' as byte, 'P' as byte, 'E' as byte, 'G' as byte)
  {
  }

  /** Fmt_decomp */
  datatype FmtDecomp = FmtDecomp(pixelformat: u32, decompressor: Decompressor)

  /** supported_formats, in the order they are tried. */
  const SupportedFormats: seq<FmtDecomp> :=
    [FmtDecomp(FourccYuyv, YuyvToRgb24),
     FmtDecomp(FourccMjpg, JpegDecompress),
     FmtDecomp(FourccJpeg, JpegDecompress)]

  predicate Supported(pixelformat: u32)
  {
    pixelformat == FourccYuyv || pixelformat == FourccMjpg || pixelformat == FourccJpeg
  }

  /** The index at which the table search stops: the first entry with the
      code, or the table length when there is none. */
  function FirstMatch(pixelformat: u32): (i: nat)
    ensures i <= |SupportedFormats|
    ensures forall j :: 0 <= j < i ==> SupportedFormats[j].pixelformat != pixelformat
    ensures i < |SupportedFormats| ==> SupportedFormats[i].pixelformat == pixelformat
  {
    if FourccYuyv == pixelformat then 0
    else if FourccMjpg == pixelformat then 1
    else if FourccJpeg == pixelformat then 2
    else 3
  }

  /** cam_get_decompressor: the decompressor of the first entry with the
      code; CAM_FAILURE, leaving the caller's decompressor alone, when the
      code is not in the table. */
  method GetDecompressor(pixelformat: u32, decomp0: Option<Decompressor>)
    returns (status: CamStatus, decomp: Option<Decompressor>)
    ensures status == CamSuccess <==> Supported(pixelformat)
    ensures status != CamSuccess ==> status == CamFailure && decomp == decomp0
    ensures pixelformat == FourccYuyv ==> decomp == Some(YuyvToRgb24)
    ensures pixelformat == FourccMjpg || pixelformat == FourccJpeg ==> decomp == Some(JpegDecompress)
    ensures status == CamSuccess ==> decomp == Some(SupportedFormats[FirstMatch(pixelformat)].decompressor)
  {
    status := CamFailure;
    decomp := decomp0;
    var index := 0;
    while index < |SupportedFormats| && pixelformat != SupportedFormats[index].pixelformat
      invariant 0 <= index <= |SupportedFormats|
      invariant forall j :: 0 <= j < index ==> SupportedFormats[j].pixelformat != pixelformat
    {
      index := index + 1;
    }
    if index == |SupportedFormats| {
      assert SupportedFormats[0].pixelformat != pixelformat && SupportedFormats[1].pixelformat != pixelformat;
      assert SupportedFormats[2].pixelformat != pixelformat;
    }
    if |SupportedFormats| > index {
      decomp := Some(SupportedFormats[index].decompressor);
      status := CamSuccess;
    }
  }

  /** cam_is_format_supported */
  method IsFormatSupported(pixelformat: u32) returns (b: bool)
    ensures b <==> Supported(pixelformat)
    ensures b <==> exists i :: 0 <= i < |SupportedFormats| && SupportedFormats[i].pixelformat == pixelformat
  {
    var status, _ := GetDecompressor(pixelformat, None);
    b := status == CamSuccess;
    if b {
      assert SupportedFormats[FirstMatch(pixelformat)].pixelformat == pixelformat;
    }
  }

  /** What cam_output_format_set reports and what it leaves in the format
      it was handed. */
  datatype SetReply = SetReply(status: CamStatus, format: PixFormat)

  /** The outcome of trying table entry i from the camera's format: the
      driver's status, overridden by CAM_INVAL when the driver wrote back a
      different pixel format. */
  function Verdict(fmt: PixFormat, setFormat: PixFormat -> SetReply, i: nat): CamStatus
    requires i < |SupportedFormats|
  {
    var reply := setFormat(fmt.(pixelformat := SupportedFormats[i].pixelformat));
    if reply.format.pixelformat != SupportedFormats[i].pixelformat then CamInval else reply.status
  }

  /** The first entry, from `from` on, whose verdict ends the search; the
      table length when every verdict is CAM_INVAL. */
  function FirstDecisive(fmt: PixFormat, setFormat: PixFormat -> SetReply, from: nat): (k: nat)
    requires from <= |SupportedFormats|
    ensures from <= k <= |SupportedFormats|
    ensures forall j :: from <= j < k ==> Verdict(fmt, setFormat, j) == CamInval
    ensures k < |SupportedFormats| ==> Verdict(fmt, setFormat, k) != CamInval
    decreases |SupportedFormats| - from
  {
    if from == |SupportedFormats| then from
    else if Verdict(fmt, setFormat, from) != CamInval then from
    else FirstDecisive(fmt, setFormat, from + 1)
  }

  /** The status cam_select_decompressor ends with: CAM_SUCCESS or
      CAM_BUSY when that is the first decisive verdict, CAM_FAILURE for any
      other verdict and for an exhausted table. */
  function SelectionStatus(fmt: PixFormat, setFormat: PixFormat -> SetReply): (status: CamStatus)
    ensures status == CamSuccess || status == CamBusy || status == CamFailure
  {
    var k := FirstDecisive(fmt, setFormat, 0);
    if k == |SupportedFormats| then CamFailure
    else if Verdict(fmt, setFormat, k) == CamSuccess then CamSuccess
    else if Verdict(fmt, setFormat, k) == CamBusy then CamBusy
    else CamFailure
  }

  /** The format the driver wrote back for the selected entry. */
  function SelectedFormat(fmt: PixFormat, setFormat: PixFormat -> SetReply): PixFormat
    requires SelectionStatus(fmt, setFormat) == CamSuccess
  {
    setFormat(fmt.(pixelformat := SupportedFormats[FirstDecisive(fmt, setFormat, 0)].pixelformat)).format
  }

  function SelectedDecompressor(fmt: PixFormat, setFormat: PixFormat -> SetReply): Decompressor
    requires SelectionStatus(fmt, setFormat) == CamSuccess
  {
    SupportedFormats[FirstDecisive(fmt, setFormat, 0)].decompressor
  }

  /** cam_select_decompressor: the formats are tried in table order; the
      first that the driver accepts unchanged is stored with its
      decompressor; CAM_BUSY stops the search at once; any other status
      ends it with CAM_FAILURE, and so does an exhausted table. Only
      success changes the camera. */
  method SelectDecompressor(cam: Camera, setFormat: PixFormat -> SetReply) returns (status: CamStatus)
    modifies cam
    ensures status == SelectionStatus(old(cam.fmt), setFormat)
    ensures status == CamSuccess ==>
              cam.fmt == SelectedFormat(old(cam.fmt), setFormat) &&
              cam.dcomp == Some(SelectedDecompressor(old(cam.fmt), setFormat)) &&
              cam.mode == old(cam.mode) && cam.state == old(cam.state) && cam.devPath == old(cam.devPath) &&
              cam.fdCam == old(cam.fdCam) && cam.ops == old(cam.ops)
    ensures status != CamSuccess ==> unchanged(cam)
  {
    var index := 0;
    while index < |SupportedFormats|
      invariant 0 <= index <= |SupportedFormats|
      invariant FirstDecisive(cam.fmt, setFormat, 0) == FirstDecisive(cam.fmt, setFormat, index)
      invariant unchanged(cam)
    {
      var format := cam.fmt;
      format := format.(pixelformat := SupportedFormats[index].pixelformat);
      var reply := setFormat(format);
      status := reply.status;
      format := reply.format;
      if format.pixelformat != SupportedFormats[index].pixelformat {
        status := CamInval;
      }
      match status {
        case CamBusy =>
          return status;
        case CamInval =>
        case CamSuccess =>
          cam.fmt := format;
          cam.dcomp := Some(SupportedFormats[index].decompressor);
          return CamSuccess;
        case _ =>
          return CamFailure;
      }
      index := index + 1;
    }
    return CamFailure;
  }

  /** After a successful selection the stored format is a supported one, it
      is the format that was asked for, and the stored decompressor is the
      one cam_get_decompressor gives for it. Every format tried before it
      was refused with CAM_INVAL or echoed differently. */
  lemma SelectionConsistent(fmt: PixFormat, setFormat: PixFormat -> SetReply)
    requires SelectionStatus(fmt, setFormat) == CamSuccess
    ensures var stored := SelectedFormat(fmt, setFormat);
            Supported(stored.pixelformat) &&
            SupportedFormats[FirstMatch(stored.pixelformat)].decompressor == SelectedDecompressor(fmt, setFormat)
    ensures setFormat(fmt.(pixelformat := SelectedFormat(fmt, setFormat).pixelformat)).status == CamSuccess
    ensures forall j :: 0 <= j < FirstMatch(SelectedFormat(fmt, setFormat).pixelformat) ==> Verdict(fmt, setFormat, j) == CamInval
  {
  }

  /** A driver that accepts YUYV unchanged gets YUYV with the YUYV
      decompressor, whatever it would say about the other formats. */
  lemma YuyvPreferred(fmt: PixFormat, setFormat: PixFormat -> SetReply)
    requires setFormat(fmt.(pixelformat := FourccYuyv)) == SetReply(CamSuccess, fmt.(pixelformat := FourccYuyv))
    ensures SelectionStatus(fmt, setFormat) == CamSuccess
    ensures SelectedFormat(fmt, setFormat).pixelformat == FourccYuyv
    ensures SelectedDecompressor(fmt, setFormat) == YuyvToRgb24
  {
  }

  /** cam_select_user_decompressor: the camera changes only when the code
      is in the table and the driver accepts the format; an unknown code
      gives CAM_FAILURE without asking the driver, otherwise the driver's
      status is returned. Unlike the automatic selection, the format the
      driver writes back is stored without comparing it. */
  method SelectUserDecompressor(cam: Camera, pixelformat: u32, setFormat: PixFormat -> SetReply)
    returns (status: CamStatus)
    modifies cam
    ensures !Supported(pixelformat) ==> status == CamFailure && unchanged(cam)
    ensures Supported(pixelformat) ==>
              var reply := setFormat(old(cam.fmt).(pixelformat := pixelformat));
              status == reply.status &&
              if status == CamSuccess then
                cam.fmt == reply.format &&
                cam.dcomp == Some(SupportedFormats[FirstMatch(pixelformat)].decompressor) &&
                cam.mode == old(cam.mode) && cam.state == old(cam.state) && cam.devPath == old(cam.devPath) &&
                cam.fdCam == old(cam.fdCam) && cam.ops == old(cam.ops)
              else unchanged(cam)
  {
    var decomp;
    status, decomp := GetDecompressor(pixelformat, None);
    if CamSuccess == status {
      var format := cam.fmt;
      format := format.(pixelformat := pixelformat);
      var reply := setFormat(format);
      status := reply.status;
      format := reply.format;
      if CamSuccess == status {
        cam.fmt := format;
        cam.dcomp := decomp;
      }
    }
  }
}
