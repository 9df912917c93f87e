/** The camera life cycle and frame handling of cam.c. The device (stat,
    open, the capability and format queries, the mode callbacks) is a
    parameter: a `Device` value says how the device answers, and the
    callbacks' statuses are parameters of the functions that call them. */
module Camera {
  import opened CTypes
  import opened CamTypes
  import opened FormatSelector

  /** The capability bits select_mode consults. */
  datatype Caps = Caps(videoCapture: bool, streaming: bool, readWrite: bool)

  /** How the device answers cam_open's calls. The answers do not change
      from one attempt to the next. */
  datatype Device = Device(
    present: bool,             // stat succeeds and names a character device
    openOk: bool,              // open(2) returns a descriptor
    fd: nat,                   // the descriptor open(2) returns
    capOk: bool,               // cam_cap_get
    caps: Caps,
    format: Option<PixFormat>, // cam_output_format_get; None when VIDIOC_G_FMT fails
    streamingOpen: CamStatus,  // the streaming table's open callback
    readWriteOpen: CamStatus,  // the read/write table's open callback
    descList: CamStatus,       // cam_output_format_description_list (WGDEBUG)
    setFormat: PixFormat -> SetReply)

  /** cam_init: the descriptor is zeroed, then mode INVALID, state UNINIT,
      the first DEV_PATH_MAX characters of the path and no descriptor. */
  method Init(cam: Camera, devPath: string) returns (status: CamStatus)
    modifies cam
    ensures status == CamSuccess
    ensures cam.mode == ModeInvalid && cam.state == StateUninit && cam.fdCam == -1
    ensures cam.devPath == devPath[..if |devPath| < DevPathMax then |devPath| else DevPathMax]
    ensures cam.fmt == PixFormat(0, 0, 0) && cam.ops == NoOps && cam.dcomp == None
  {
    cam.fmt := PixFormat(0, 0, 0);
    cam.ops := NoOps;
    cam.dcomp := None;
    cam.mode := ModeInvalid;
    cam.state := StateUninit;
    cam.devPath := devPath[..if |devPath| < DevPathMax then |devPath| else DevPathMax];
    cam.fdCam := -1;
    return CamSuccess;
  }

  /** get_fallback_mode: every mode falls back to read/write or UNKNOWN,
      strictly down the preference order, except UNKNOWN itself. */
  function FallbackMode(mode: CamMode): (r: CamMode)
    ensures r == ModeReadWrite || r == ModeUnknown
    ensures mode != ModeUnknown ==> Rank(r) < Rank(mode)
  {
    match mode
    case ModeInvalid => ModeReadWrite
    case ModeStreaming => ModeReadWrite
    case ModeReadWrite => ModeUnknown
    case ModeUnknown => ModeUnknown
  }

  /** Every mode falls back to UNKNOWN within two steps, and UNKNOWN is the
      only mode that is its own fallback. */
  lemma FallbackChainEnds(mode: CamMode)
    ensures FallbackMode(FallbackMode(mode)) == ModeUnknown
    ensures FallbackMode(mode) == mode <==> mode == ModeUnknown
  {
  }

  /** The steps left before a mode falls back to UNKNOWN. */
  function Rank(mode: CamMode): nat
  {
    match mode
    case ModeInvalid => 2
    case ModeStreaming => 2
    case ModeReadWrite => 1
    case ModeUnknown => 0
  }

  /** MODE_STREAM and MODE_READWRITE: INVALID admits both. */
  predicate AdmitsStream(mode: CamMode) { mode == ModeStreaming || mode == ModeInvalid }
  predicate AdmitsReadWrite(mode: CamMode) { mode == ModeReadWrite || mode == ModeInvalid }

  datatype ModeChoice = ModeChoice(status: CamStatus, ops: OpsKind)

  /** select_mode: streaming when the device streams and the mode admits
      it, otherwise read/write when the device and the mode admit that,
      otherwise CAM_NO_SUPPORT with the callback table left as it was. The
      two initialisers always succeed and fill their callback table. */
  function SelectMode(caps: Caps, mode: CamMode, ops: OpsKind): (c: ModeChoice)
    ensures c.status == CamSuccess <==>
              caps.videoCapture && ((caps.streaming && AdmitsStream(mode)) || (caps.readWrite && AdmitsReadWrite(mode)))
    ensures c.status != CamSuccess ==> c.status == CamNoSupport && c.ops == ops
    ensures c.status == CamSuccess && caps.streaming && AdmitsStream(mode) ==> c.ops == StreamingOps
    ensures c.status == CamSuccess && !(caps.streaming && AdmitsStream(mode)) ==> c.ops == ReadWriteOps
  {
    if caps.videoCapture then
      if caps.streaming && AdmitsStream(mode) then ModeChoice(CamSuccess, StreamingOps)
      else if caps.readWrite && AdmitsReadWrite(mode) then ModeChoice(CamSuccess, ReadWriteOps)
      else ModeChoice(CamNoSupport, ops)
    else ModeChoice(CamNoSupport, ops)
  }

  /** The open callback of the installed table. */
  function OpsOpen(dev: Device, ops: OpsKind): CamStatus
    requires ops != NoOps
  {
    if ops == StreamingOps then dev.streamingOpen else dev.readWriteOpen
  }

  /** One pass of cam_open's do-while body: it gives up, or the installed
      table opened the device, or it closes the device and goes on with
      the fallback mode. `ops` is the table installed when the pass ends. */
  datatype Step = Abort(ops: OpsKind) | Opened(ops: OpsKind) | Retry(ops: OpsKind, next: CamMode)

  function Attempt(dev: Device, mode: CamMode, ops: OpsKind): (s: Step)
    requires mode != ModeUnknown || ops != NoOps
    ensures s.Retry? ==> s.next == FallbackMode(mode)
    ensures s.ops == (if dev.openOk && dev.capOk && dev.format.Some? && mode != ModeUnknown
                      then SelectMode(dev.caps, mode, ops).ops else ops)
    ensures s.Opened? || s.Retry? ==> s.ops != NoOps
  {
    if !dev.openOk || !dev.capOk || dev.format.None? then Abort(ops)
    else
      var choice := if mode != ModeUnknown then SelectMode(dev.caps, mode, ops) else ModeChoice(CamSuccess, ops);
      if choice.status != CamSuccess then Abort(choice.ops)
      else if OpsOpen(dev, choice.ops) == CamSuccess then Opened(choice.ops)
      else Retry(choice.ops, FallbackMode(mode))
  }

  /** The state of cam_open's loop when it ends: whether the device was
      opened, and the callback table installed. */
  datatype OpenEnd = OpenEnd(isOpen: bool, ops: OpsKind)

  /** cam_open's loop as written: it retries with the fallback mode for as
      long as the open callback fails. `fuel` bounds the passes; None means
      the loop is still running when the fuel is spent. */
  function OpenLoopAsWritten(dev: Device, mode: CamMode, ops: OpsKind, fuel: nat): (r: Option<OpenEnd>)
    requires mode != ModeUnknown || ops != NoOps
    ensures r.Some? && r.value.isOpen ==> r.value.ops != NoOps
    decreases fuel
  {
    if fuel == 0 then None
    else
      match Attempt(dev, mode, ops)
      case Abort(o) => Some(OpenEnd(false, o))
      case Opened(o) => Some(OpenEnd(true, o))
      case Retry(o, next) => OpenLoopAsWritten(dev, next, o, fuel - 1)
  }

  /** A device that answers every query but whose open callbacks both fail. */
  predicate NeverOpens(dev: Device)
  {
    dev.openOk && dev.capOk && dev.format.Some? && dev.caps.videoCapture && dev.caps.readWrite &&
    dev.streamingOpen != CamSuccess && dev.readWriteOpen != CamSuccess
  }

  /** A pass at UNKNOWN after a failed open meets the same answers and the
      same failing table, so the loop as written never ends from there. */
  lemma {:induction false} StuckAtUnknown(dev: Device, ops: OpsKind, fuel: nat)
    requires ops != NoOps && dev.openOk && dev.capOk && dev.format.Some?
    requires OpsOpen(dev, ops) != CamSuccess
    ensures OpenLoopAsWritten(dev, ModeUnknown, ops, fuel) == None
    decreases fuel
  {
    if fuel > 0 {
      assert Attempt(dev, ModeUnknown, ops) == Retry(ops, ModeUnknown);
      StuckAtUnknown(dev, ops, fuel - 1);
    }
  }

  /** cam_open as written never returns for such a device, however many
      passes are allowed. */
  lemma AsWrittenOpenNeverReturns(dev: Device, fuel: nat)
    requires NeverOpens(dev)
    ensures OpenLoopAsWritten(dev, ModeInvalid, NoOps, fuel) == None
  {
    if fuel >= 2 {
      var first := Attempt(dev, ModeInvalid, NoOps);
      assert first.Retry? && first.next == ModeReadWrite;
      var second := Attempt(dev, ModeReadWrite, first.ops);
      assert second == Retry(ReadWriteOps, ModeUnknown);
      StuckAtUnknown(dev, ReadWriteOps, fuel - 2);
    }
  }

  /** cam_open's loop with the fallback chain ending as intended: when a
      failed open would fall back to UNKNOWN, the loop gives up. */
  function OpenLoop(dev: Device, mode: CamMode, ops: OpsKind): (e: OpenEnd)
    requires mode != ModeUnknown
    ensures e.isOpen ==> e.ops != NoOps
    decreases Rank(mode)
  {
    match Attempt(dev, mode, ops)
    case Abort(o) => OpenEnd(false, o)
    case Opened(o) => OpenEnd(true, o)
    case Retry(o, next) => if next == ModeUnknown then OpenEnd(false, o) else OpenLoop(dev, next, o)
  }

  /** Whenever the loop as written ends, it ends as the corrected loop does:
      the two differ only where the fallback reaches UNKNOWN, and there the
      loop as written spins. */
  lemma {:induction false} AsWrittenEndsAsCorrected(dev: Device, mode: CamMode, ops: OpsKind, fuel: nat)
    requires mode != ModeUnknown
    ensures OpenLoopAsWritten(dev, mode, ops, fuel).Some? ==>
              OpenLoopAsWritten(dev, mode, ops, fuel).value == OpenLoop(dev, mode, ops)
    decreases fuel
  {
    if fuel > 0 {
      match Attempt(dev, mode, ops)
      case Abort(o) =>
      case Opened(o) =>
      case Retry(o, next) =>
        if next == ModeUnknown {
          StuckAtUnknown(dev, o, fuel - 1);
        } else {
          AsWrittenEndsAsCorrected(dev, next, o, fuel - 1);
        }
    }
  }

  /** The device that makes the loop as written spin is given up on. */
  lemma OpenLoopGivesUp(dev: Device)
    requires NeverOpens(dev)
    ensures !OpenLoop(dev, ModeInvalid, NoOps).isOpen
  {
    assert Attempt(dev, ModeInvalid, NoOps).Retry?;
  }

  /** Streaming is preferred, read/write is the fallback: from INVALID or
      STREAMING, a streaming device whose streaming table opens ends in
      streaming; if that table fails but the read/write one opens, the
      loop ends in read/write. */
  lemma OpenLoopPreference(dev: Device, mode: CamMode, ops: OpsKind)
    requires mode == ModeInvalid || mode == ModeStreaming
    requires dev.openOk && dev.capOk && dev.format.Some? && dev.caps.videoCapture && dev.caps.streaming
    ensures dev.streamingOpen == CamSuccess ==> OpenLoop(dev, mode, ops) == OpenEnd(true, StreamingOps)
    ensures dev.streamingOpen != CamSuccess && dev.caps.readWrite && dev.readWriteOpen == CamSuccess ==>
              OpenLoop(dev, mode, ops) == OpenEnd(true, ReadWriteOps)
  {
    if dev.streamingOpen != CamSuccess {
      assert Attempt(dev, mode, ops) == Retry(StreamingOps, ModeReadWrite);
    }
  }

  /** The fields cam_open leaves as they were. */
  twostate predicate KeepsIdentity(cam: Camera)
    reads cam
  {
    cam.mode == old(cam.mode) && cam.devPath == old(cam.devPath)
  }

  /** The do-while loop of cam_open, from opening the device to the open
      callback, with the fallback chain ending in failure. */
  method OpenPasses(cam: Camera, mode: CamMode, dev: Device) returns (isOpen: bool)
    requires mode != ModeUnknown
    modifies cam
    ensures isOpen == OpenLoop(dev, mode, old(cam.ops)).isOpen && cam.ops == OpenLoop(dev, mode, old(cam.ops)).ops
    ensures KeepsIdentity(cam) && cam.state == old(cam.state) && cam.dcomp == old(cam.dcomp)
    ensures cam.fmt == (if dev.openOk && dev.capOk then (if dev.format.Some? then dev.format.value else ZeroFormat)
                        else old(cam.fmt))
    ensures cam.fdCam == (if isOpen then dev.fd else -1)
  {
    var m := mode;
    while true
      invariant m != ModeUnknown
      invariant OpenLoop(dev, m, cam.ops) == OpenLoop(dev, mode, old(cam.ops))
      invariant KeepsIdentity(cam) && cam.state == old(cam.state) && cam.dcomp == old(cam.dcomp)
      invariant cam.fmt == old(cam.fmt) || (dev.openOk && dev.capOk && dev.format.Some? && cam.fmt == dev.format.value)
      invariant m != mode ==> dev.openOk && dev.capOk && dev.format.Some? && cam.fmt == dev.format.value
      decreases Rank(m)
    {
      if !dev.openOk {
        cam.fdCam := -1;
        return false;
      }
      cam.fdCam := dev.fd;
      if !dev.capOk {
        cam.fdCam := -1;
        return false;
      }
      if dev.format.None? {
        cam.fmt := ZeroFormat;
        cam.fdCam := -1;
        return false;
      }
      cam.fmt := dev.format.value;
      var choice := SelectMode(dev.caps, m, cam.ops);
      cam.ops := choice.ops;
      if CamSuccess != choice.status {
        cam.fdCam := -1;
        return false;
      }
      if OpsOpen(dev, cam.ops) == CamSuccess {
        return true;
      }
      cam.fdCam := -1;
      var next := FallbackMode(m);
      if next == ModeUnknown {
        return false;
      }
      m := next;
    }
  }

  /** cam_open: only an UNINIT camera is opened. Each pass opens the device,
      reads its capabilities and format, selects the mode and calls the
      table's open callback; a failed callback closes the device and the
      next pass uses the fallback mode. A failure leaves the descriptor at
      -1 and the state UNINIT. In the debugging build the format
      descriptions are then listed; when that fails the descriptor goes
      back to -1 and its status is returned with the state still UNINIT.
      Otherwise the decompressor is
      selected when ENABLE_DECOMPRESSOR is set (its failure closes the
      descriptor again) and the state becomes STOP either way. Callers pass
      INVALID, STREAMING or READWRITE. */
  method Open(cam: Camera, mode: CamMode, flags: u32, dev: Device) returns (status: CamStatus)
    requires mode != ModeUnknown
    modifies cam
    ensures old(cam.state) != StateUninit || !dev.present ==> status == CamFailure && unchanged(cam)
    ensures old(cam.state) == StateUninit && dev.present ==>
              KeepsIdentity(cam) && cam.ops == OpenLoop(dev, mode, old(cam.ops)).ops
    ensures old(cam.state) == StateUninit && dev.present && !OpenLoop(dev, mode, old(cam.ops)).isOpen ==>
              status == CamFailure && cam.fdCam == -1 && cam.state == StateUninit && cam.dcomp == old(cam.dcomp) &&
              cam.fmt == (if dev.openOk && dev.capOk then (if dev.format.Some? then dev.format.value else ZeroFormat)
                          else old(cam.fmt))
    ensures old(cam.state) == StateUninit && dev.present && OpenLoop(dev, mode, old(cam.ops)).isOpen &&
            dev.descList != CamSuccess ==>
              status == dev.descList && cam.fdCam == -1 && cam.state == StateUninit && dev.format.Some? &&
              cam.fmt == dev.format.value && cam.dcomp == old(cam.dcomp)
    ensures old(cam.state) == StateUninit && dev.present && OpenLoop(dev, mode, old(cam.ops)).isOpen &&
            dev.descList == CamSuccess ==>
              cam.state == StateStop && dev.format.Some? &&
              status == (if DecompressorFlag(flags) then SelectionStatus(dev.format.value, dev.setFormat) else CamSuccess) &&
              cam.fdCam == (if status == CamSuccess then dev.fd else -1) &&
              if DecompressorFlag(flags) && status == CamSuccess then
                cam.fmt == SelectedFormat(dev.format.value, dev.setFormat) &&
                cam.dcomp == Some(SelectedDecompressor(dev.format.value, dev.setFormat))
              else
                cam.fmt == dev.format.value && cam.dcomp == old(cam.dcomp)
  {
    if StateUninit != cam.state {
      return CamFailure;
    }
    if !dev.present {
      return CamFailure;
    }
    var isOpen := OpenPasses(cam, mode, dev);
    if !isOpen {
      return CamFailure;
    }
    if CamSuccess != dev.descList {
      cam.fdCam := -1;
      return dev.descList;
    }
    status := CamSuccess;
    if DecompressorFlag(flags) {
      status := SelectDecompressor(cam, dev.setFormat);
      if CamSuccess != status {
        cam.fdCam := -1;
      }
    }
    cam.state := StateStop;
  }

  /** cam_close: a camera without a descriptor, or one still UNINIT, is
      not closed. A started camera is stopped first (its stop callback's
      status is ignored); the device is closed and the state becomes
      UNINIT. The descriptor field keeps its old value. */
  method Close(cam: Camera, stopResult: CamStatus) returns (status: CamStatus)
    modifies cam
    ensures old(cam.fdCam) == -1 || old(cam.state) == StateUninit ==> status == CamFailure && unchanged(cam)
    ensures old(cam.fdCam) != -1 && old(cam.state) != StateUninit ==>
              status == CamSuccess && cam.state == StateUninit &&
              cam.fdCam == old(cam.fdCam) && cam.ops == old(cam.ops) && cam.mode == old(cam.mode) &&
              cam.fmt == old(cam.fmt) && cam.dcomp == old(cam.dcomp) && cam.devPath == old(cam.devPath)
  {
    status := CamFailure;
    if !(cam.fdCam != -1) {
      return CamFailure;
    }
    match cam.state {
      case StateStart =>
        var _ := Stop(cam, stopResult);
        cam.state := StateUninit;
        status := CamSuccess;
      case StateStop =>
        cam.state := StateUninit;
        status := CamSuccess;
      case StateUninit =>
        return CamFailure;
    }
  }

  /** cam_start: only a STOP camera starts. With a start callback the state
      becomes START whatever the callback returns, and its status is
      returned; without one the result is CAM_FAILURE. */
  method Start(cam: Camera, startResult: CamStatus) returns (status: CamStatus)
    modifies cam
    ensures old(cam.state) != StateStop || cam.ops == NoOps ==> status == CamFailure && unchanged(cam)
    ensures old(cam.state) == StateStop && cam.ops != NoOps ==>
              status == startResult && cam.state == StateStart &&
              cam.fdCam == old(cam.fdCam) && cam.ops == old(cam.ops) && cam.mode == old(cam.mode) &&
              cam.fmt == old(cam.fmt) && cam.dcomp == old(cam.dcomp) && cam.devPath == old(cam.devPath)
  {
    status := CamFailure;
    if StateStop != cam.state {
      return CamFailure;
    }
    if cam.ops != NoOps {
      status := startResult;
      cam.state := StateStart;
    }
  }

  /** cam_stop: with a stop callback the state becomes STOP, from whatever
      state, and the callback's status is returned. */
  method Stop(cam: Camera, stopResult: CamStatus) returns (status: CamStatus)
    modifies cam
    ensures cam.ops == NoOps ==> status == CamFailure && unchanged(cam)
    ensures cam.ops != NoOps ==>
              status == stopResult && cam.state == StateStop &&
              cam.fdCam == old(cam.fdCam) && cam.ops == old(cam.ops) && cam.mode == old(cam.mode) &&
              cam.fmt == old(cam.fmt) && cam.dcomp == old(cam.dcomp) && cam.devPath == old(cam.devPath)
  {
    status := CamFailure;
    if cam.ops != NoOps {
      cam.state := StateStop;
      status := stopResult;
    }
  }

  /** Starting and then stopping a camera brings it back to STOP. */
  method StartStop(cam: Camera, startResult: CamStatus, stopResult: CamStatus) returns (s1: CamStatus, s2: CamStatus)
    requires cam.state == StateStop && cam.ops != NoOps
    modifies cam
    ensures s1 == startResult && s2 == stopResult && cam.state == StateStop
    ensures cam.fdCam == old(cam.fdCam) && cam.ops == old(cam.ops) && cam.fmt == old(cam.fmt)
  {
    s1 := Start(cam, startResult);
    s2 := Stop(cam, stopResult);
  }

  /** cam_read: only an EMPTY or INVALID frame is read into, by the read
      callback; it becomes FULL exactly when the callback succeeds. */
  method Read(cam: Camera, frame: Frame, readResult: CamStatus) returns (status: CamStatus)
    modifies frame
    ensures old(frame.state) == FrameFull || cam.ops == NoOps ==> status == CamFailure && unchanged(frame)
    ensures old(frame.state) != FrameFull && cam.ops != NoOps ==>
              status == readResult &&
              frame.state == (if readResult == CamSuccess then FrameFull else old(frame.state))
  {
    status := CamFailure;
    match frame.state {
      case FrameEmpty =>
        if cam.ops != NoOps {
          status := readResult;
          if CamSuccess == status {
            frame.state := FrameFull;
          }
        }
      case FrameInvalid =>
        if cam.ops != NoOps {
          status := readResult;
          if CamSuccess == status {
            frame.state := FrameFull;
          }
        }
      case FrameFull =>
    }
  }

  /** cam_discard_frame as written: the FULL case falls through into the
      EMPTY case, which sets CAM_SUCCESS over whatever the empty_frame
      callback returned. */
  method DiscardFrameAsWritten(cam: Camera, frame: Frame, emptyResult: CamStatus) returns (status: CamStatus)
    modifies frame
    ensures old(frame.state) == FrameInvalid ==> status == CamFailure && unchanged(frame)
    ensures old(frame.state) != FrameInvalid ==> status == CamSuccess
    ensures frame.state == (if old(frame.state) == FrameFull && cam.ops != NoOps && emptyResult == CamSuccess
                            then FrameEmpty else old(frame.state))
  {
    status := CamFailure;
    match frame.state {
      case FrameFull =>
        if cam.ops != NoOps {
          status := emptyResult;
          if CamSuccess == status {
            frame.state := FrameEmpty;
          }
        }
        status := CamSuccess;
      case FrameEmpty =>
        status := CamSuccess;
      case FrameInvalid =>
    }
  }

  /** A full frame whose empty_frame callback fails is reported as
      discarded although it is still FULL. */
  method DiscardFailureReportedAsSuccess() returns (status: CamStatus, state: FrameState)
    ensures status == CamSuccess && state == FrameFull
  {
    var cam := new Camera();
    cam.ops := StreamingOps;
    var frame := new Frame();
    frame.state := FrameFull;
    status := DiscardFrameAsWritten(cam, frame, CamIo);
    state := frame.state;
  }

  /** cam_discard_frame with the FULL case ended by a break: success now
      means the frame is EMPTY. */
  method DiscardFrame(cam: Camera, frame: Frame, emptyResult: CamStatus) returns (status: CamStatus)
    modifies frame
    ensures status == CamSuccess ==> frame.state == FrameEmpty
    ensures old(frame.state) == FrameEmpty ==> status == CamSuccess && unchanged(frame)
    ensures old(frame.state) == FrameInvalid || (old(frame.state) == FrameFull && cam.ops == NoOps) ==>
              status == CamFailure && unchanged(frame)
    ensures old(frame.state) == FrameFull && cam.ops != NoOps ==>
              status == emptyResult && frame.state == (if emptyResult == CamSuccess then FrameEmpty else FrameFull)
  {
    status := CamFailure;
    match frame.state {
      case FrameFull =>
        if cam.ops != NoOps {
          status := emptyResult;
          if CamSuccess == status {
            frame.state := FrameEmpty;
          }
        }
      case FrameEmpty =>
        status := CamSuccess;
      case FrameInvalid =>
    }
  }

  /** The same failing callback is reported by the corrected discard. */
  method DiscardFailureReported() returns (status: CamStatus, state: FrameState)
    ensures status == CamIo && state == FrameFull
  {
    var cam := new Camera();
    cam.ops := StreamingOps;
    var frame := new Frame();
    frame.state := FrameFull;
    status := DiscardFrame(cam, frame, CamIo);
    state := frame.state;
  }

  /** cam_free_frame: only an EMPTY or FULL frame is freed. It is discarded
      first (the status of that is ignored); a cleanup callback that
      succeeds then zeroes the frame, leaving it INVALID. */
  method FreeFrame(cam: Camera, frame: Frame, emptyResult: CamStatus, cleanupResult: CamStatus)
    returns (status: CamStatus)
    modifies frame
    ensures old(frame.state) == FrameInvalid ==> status == CamFailure && unchanged(frame)
    ensures old(frame.state) != FrameInvalid && cam.ops == NoOps ==> status == CamFailure && frame.state == old(frame.state)
    ensures old(frame.state) != FrameInvalid && cam.ops != NoOps ==>
              status == cleanupResult &&
              frame.state == (if cleanupResult == CamSuccess then FrameInvalid
                              else if emptyResult == CamSuccess then FrameEmpty else old(frame.state))
  {
    status := CamFailure;
    match frame.state {
      case FrameEmpty =>
        var _ := DiscardFrame(cam, frame, emptyResult);
      case FrameFull =>
        var _ := DiscardFrame(cam, frame, emptyResult);
      case FrameInvalid =>
        return CamFailure;
    }
    if cam.ops != NoOps {
      status := cleanupResult;
      if CamSuccess == status {
        frame.state := FrameInvalid;
      }
    }
  }
}
