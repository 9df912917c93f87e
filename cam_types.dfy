/** The camera vocabulary of cam.h and cam_frame.h: the status codes the
    camera layer returns, its modes and states, and the two records the
    camera functions update in place, the camera and the frame. */
module CamTypes {
  import opened CTypes

  /** cam_status: CAM_SUCCESS, CAM_FAILURE, CAM_BUSY, CAM_INVAL, CAM_IO,
      CAM_TIMEOUT, CAM_NO_SUPPORT. */
  datatype CamStatus = CamSuccess | CamFailure | CamBusy | CamInval | CamIo | CamTimeout | CamNoSupport

  /** CAM_MODE; CAM_MODE_INVALID lets the driver choose. */
  datatype CamMode = ModeInvalid | ModeStreaming | ModeReadWrite | ModeUnknown

  /** cam_state */
  datatype CamState = StateUninit | StateStop | StateStart

  /** WG_FRAME_STATE */
  datatype FrameState = FrameInvalid | FrameEmpty | FrameFull

  /** The decompressor functions a camera can be given. */
  datatype Decompressor = YuyvToRgb24 | JpegDecompress

  /** The callback table in cam_ops. Both mode initialisers fill every
      callback, so a table is either empty (all NULL, as after cam_init)
      or the complete table of one mode. */
  datatype OpsKind = NoOps | StreamingOps | ReadWriteOps

  /** The part of struct v4l2_format the camera layer reads and writes. */
  datatype PixFormat = PixFormat(pixelformat: u32, width: u32, height: u32)

  /** The format cam_output_format_get leaves when VIDIOC_G_FMT fails: it
      zeroes the descriptor first (the buffer type is not modelled). */
  const ZeroFormat := PixFormat(0, 0, 0)

  /** DEV_PATH_MAX */
  const DevPathMax: nat := 64

  /** ENABLE_DECOMPRESSOR = 1 << 0, tested with IS_FLAG_SET. */
  predicate DecompressorFlag(flags: u32)
  {
    flags % 2 == 1
  }

  /** Wg_camera: the fields the camera functions read and update. */
  class Camera {
    var mode: CamMode
    var state: CamState
    var devPath: string
    var fdCam: int
    var fmt: PixFormat
    var ops: OpsKind
    var dcomp: Option<Decompressor>

    /** Camera memory as the caller hands it to cam_init: all zero. */
    constructor ()
      ensures mode == ModeInvalid && state == StateUninit && devPath == [] && fdCam == 0
      ensures fmt == PixFormat(0, 0, 0) && ops == NoOps && dcomp == None
    {
      mode := ModeInvalid;
      state := StateUninit;
      devPath := [];
      fdCam := 0;
      fmt := PixFormat(0, 0, 0);
      ops := NoOps;
      dcomp := None;
    }
  }

  /** Wg_frame: only its state takes part in the camera functions' logic. */
  class Frame {
    var state: FrameState

    constructor ()
      ensures state == FrameInvalid
    {
      state := FrameInvalid;
    }
  }
}
