/** The collision detector of a pane (collision_detect.c). Ball positions
    are pushed into a ring buffer of 32 points; after a pipeline of five
    points is filled, every new point triggers a search over the last five
    for a reversal of the horizontal motion, and a reversal reports the
    turning point to the hit callback once. */
module CollisionDetect {
  import opened CTypes
  import opened GuiPrim

  /** CD_POSITION_NUM */
  const PositionNum: nat := 32
  /** CD_PIPELINE_SIZE */
  const PipelineSize: nat := 5
  /** HIT_COUNT_NUM */
  const HitCountNum: nat := 2

  /** CD_STATE */
  datatype CdState = Invalid | Init | FillPipeline | Start | Stop | HitRecorded

  /** Cd_orientation */
  datatype Orientation = PaneLeft | PaneRight

  /** Cd_pane: the corners of the pane and its side. */
  datatype Pane = Pane(v1: Point2d, v2: Point2d, v3: Point2d, v4: Point2d, orientation: Orientation)

  /** is_valid_point: each coordinate, converted to wg_uint, differs from
      (wg_uint)-1. */
  predicate IsValidPoint(p: Point2d)
  {
    Wrap32(p.x) != U32 - 1 && Wrap32(p.y) != U32 - 1
  }

  /** A point is valid iff neither coordinate is -1. */
  lemma IsValidPointIff(p: Point2d)
    ensures IsValidPoint(p) <==> p.x != -1 && p.y != -1
  {
    if p.x < 0 { assert Wrap32(p.x) == p.x + U32; }
    if p.y < 0 { assert Wrap32(p.y) == p.y + U32; }
  }

  /** WG_SIGN: 1 for a positive value, -1 otherwise (zero counts as
      negative). */
  function Sign(d: int): int
  {
    if d > 0 then 1 else -1
  }

  // ---------------------------------------------------------------------
  // Ring-buffer arithmetic of is_hit_detected

  /** C's `%` on a non-negative divisor: the remainder takes the sign of
      the dividend. */
  function CRem(a: int, b: nat): int
    requires b > 0
  {
    if a >= 0 then a % b else -((-a) % b)
  }

  /** The first slot of the window as the source computes it:
      position_index - CD_PIPELINE_SIZE, and CD_POSITION_NUM - i when that
      is negative. */
  function StartIndexAsWritten(index: nat): (r: int)
    requires index < PositionNum
    ensures 0 <= r < PositionNum <==> index >= PipelineSize
    ensures index >= PipelineSize ==> r == StartIndex(index)
  {
    var i := index - PipelineSize;
    if i < 0 then PositionNum - i else i
  }

  /** `(i + 1) % CD_POSITION_NUM` for a slot i of the ring. */
  function Next(i: nat): (r: nat)
    requires i < PositionNum
    ensures r < PositionNum
    ensures r == (i + 1) % PositionNum
  {
    if i + 1 == PositionNum then 0 else i + 1
  }

  /** The slot m places after `start`. */
  function Slot(start: nat, m: nat): (r: nat)
    requires start < PositionNum && m < PositionNum
    ensures r < PositionNum
    ensures r == (start + m) % PositionNum
  {
    if start + m < PositionNum then start + m else start + m - PositionNum
  }

  /** The slot five places before `index` in the ring. */
  function StartIndex(index: nat): (r: nat)
    requires index < PositionNum
    ensures r < PositionNum
    ensures Slot(r, PipelineSize) == index
  {
    if index >= PipelineSize then index - PipelineSize else index + PositionNum - PipelineSize
  }

  /** When the newest point sits in one of the first five slots, the
      source's start slot lies beyond the 32-slot buffer (slot 37 when the
      index has wrapped to 0); elsewhere it agrees with the ring
      arithmetic. */
  lemma StartIndexAsWrittenOutOfRange(index: nat)
    requires index < PositionNum
    ensures index < PipelineSize ==> StartIndexAsWritten(index) >= PositionNum
    ensures index < PipelineSize ==> StartIndexAsWritten(index) == StartIndex(index) + 2 * (PipelineSize - index)
    ensures index >= PipelineSize ==> StartIndexAsWritten(index) == StartIndex(index)
  {
  }

  /** The reported slot as the source computes it: i -= HIT_COUNT_NUM,
      then i % CD_POSITION_NUM stored into a wg_uint. */
  function HitIndexAsWritten(i: nat): (r: u32)
    ensures HitCountNum <= i < PositionNum ==> r == HitIndex(i)
    ensures i < HitCountNum ==> r >= PositionNum
  {
    Wrap32(CRem(i - HitCountNum, PositionNum))
  }

  /** The slot two places before `i` in the ring. */
  function HitIndex(i: nat): (r: nat)
    requires i < PositionNum
    ensures r < PositionNum
    ensures Slot(r, HitCountNum) == i
  {
    if i >= HitCountNum then i - HitCountNum else i + PositionNum - HitCountNum
  }

  /** A reversal found while the ring index is at slot 0 or 1 makes the
      source report slot 0xFFFFFFFE or 0xFFFFFFFF; elsewhere it agrees with
      the ring arithmetic. */
  lemma HitIndexAsWrittenOutOfRange(i: nat)
    requires i < PositionNum
    ensures i < HitCountNum ==> HitIndexAsWritten(i) >= PositionNum
    ensures i < HitCountNum ==> HitIndexAsWritten(i) == U32 - HitCountNum + i
    ensures i >= HitCountNum ==> HitIndexAsWritten(i) == HitIndex(i)
  {
  }

  // ---------------------------------------------------------------------
  // The reversal the detector looks for

  /** The x coordinates of the five newest points, oldest first, when the
      newest point went into the slot before `index`. */
  function Window(position: seq<Point2d>, index: nat): (w: seq<int>)
    requires |position| == PositionNum && index < PositionNum
    ensures |w| == PipelineSize
  {
    seq(PipelineSize, m requires 0 <= m < PipelineSize => position[Slot(StartIndex(index), m)].x)
  }

  /** Step m of the window (from point m-1 to point m) goes against the
      direction of the first step. */
  predicate Rev(w: seq<int>, m: nat)
    requires |w| == PipelineSize && 2 <= m < PipelineSize
  {
    Sign(w[m] - w[m - 1]) != Sign(w[1] - w[0])
  }

  /** The turning point of the window: the first point after which two
      consecutive steps go against the initial direction. */
  function Reversal(w: seq<int>): (r: Option<nat>)
    requires |w| == PipelineSize
    ensures r.Some? ==> r.value == 1 || r.value == 2
  {
    if Rev(w, 2) && Rev(w, 3) then Some(1)
    else if Rev(w, 3) && Rev(w, 4) then Some(2)
    else None
  }

  /** A reported point is a turning point: the motion reached it in the
      initial direction and left it against that direction for two steps;
      and the first such point is the one reported. */
  lemma ReversalIsTurn(w: seq<int>, j: nat)
    requires |w| == PipelineSize && 1 <= j <= 2
    ensures Reversal(w) == Some(j) <==>
              (Sign(w[j] - w[j - 1]) == Sign(w[1] - w[0]) &&
               Sign(w[j + 1] - w[j]) != Sign(w[1] - w[0]) &&
               Sign(w[j + 2] - w[j + 1]) != Sign(w[1] - w[0]) &&
               (j == 2 ==> Reversal(w) != Some(1)))
  {
  }

  /** A window whose steps all go the same way holds no reversal. */
  lemma MonotoneNoReversal(w: seq<int>)
    requires |w| == PipelineSize
    requires forall m :: 1 <= m < PipelineSize ==> Sign(w[m] - w[m - 1]) == Sign(w[1] - w[0])
    ensures Reversal(w).None?
  {
    assert !Rev(w, 3);
    assert !Rev(w, 2);
  }

  // ---------------------------------------------------------------------
  // The detector as a value

  /** The part of Cd_instance that cd_add_position reads and writes, and the
      points reported to the hit callback so far. */
  datatype DetectorValue = DetectorValue(state: CdState, position: seq<Point2d>, index: nat, reported: seq<Point2d>)

  predicate WellFormed(d: DetectorValue)
  {
    |d.position| == PositionNum && d.index < PositionNum
  }

  /** cd_add_position on the value of the detector. */
  function Add(d: DetectorValue, p: Point2d): (r: DetectorValue)
    requires WellFormed(d)
    ensures WellFormed(r)
    ensures !IsValidPoint(p) && d.state != Start ==> r.position == d.position && r.index == d.index
    ensures |d.reported| <= |r.reported| <= |d.reported| + 1 && r.reported[..|d.reported|] == d.reported
  {
    match d.state
    case Init | Stop =>
      if IsValidPoint(p) then d.(state := FillPipeline, position := d.position[0 := p], index := 1) else d
    case FillPipeline =>
      if IsValidPoint(p) then
        var idx := Next(d.index);
        d.(position := d.position[d.index := p], index := idx,
           state := if idx >= PipelineSize then Start else FillPipeline)
      else d
    case Start =>
      if IsValidPoint(p) then
        var pos := d.position[d.index := p];
        var idx := Next(d.index);
        var rv := Reversal(Window(pos, idx));
        if rv.Some? then
          DetectorValue(HitRecorded, pos, idx, d.reported + [pos[Slot(StartIndex(idx), rv.value)]])
        else d.(position := pos, index := idx)
      else d.(state := Stop, index := 0)
    case HitRecorded =>
      if !IsValidPoint(p) then d.(state := Stop) else d
    case Invalid =>
      d
  }

  /** Adding the points one after the other. */
  function AddAll(d: DetectorValue, ps: seq<Point2d>): (r: DetectorValue)
    requires WellFormed(d)
    ensures WellFormed(r)
    decreases |ps|
  {
    if ps == [] then d else AddAll(Add(d, ps[0]), ps[1..])
  }

  /** From INIT or STOP, five valid points fill the pipeline: the detector
      reaches START with the points in slots 0..4 and the index at 5, and
      reports nothing. */
  lemma FiveValidPointsStart(d: DetectorValue, ps: seq<Point2d>)
    requires WellFormed(d) && (d.state == Init || d.state == Stop)
    requires |ps| == PipelineSize && forall k :: 0 <= k < |ps| ==> IsValidPoint(ps[k])
    ensures AddAll(d, ps).state == Start
    ensures AddAll(d, ps).index == PipelineSize
    ensures AddAll(d, ps).position[..PipelineSize] == ps
    ensures AddAll(d, ps).reported == d.reported
  {
    var d1 := Add(d, ps[0]);
    var d2 := Add(d1, ps[1]);
    var d3 := Add(d2, ps[2]);
    var d4 := Add(d3, ps[3]);
    var d5 := Add(d4, ps[4]);
    var t1 := ps[1..];
    var t2 := t1[1..];
    var t3 := t2[1..];
    var t4 := t3[1..];
    assert t1[0] == ps[1] && t2[0] == ps[2] && t3[0] == ps[3] && t4[0] == ps[4];
    assert t4[1..] == [];
    assert AddAll(d4, t4) == d5;
    assert AddAll(d, ps) == AddAll(d1, t1) == AddAll(d2, t2) == AddAll(d3, t3) == AddAll(d4, t4);
    assert d5.position[..5] == ps;
    assert d5.state == Start && d5.index == 5;
  }

  /** An invalid point is ignored in INIT, STOP and FILL_PIPELINE, and
      leaves a START or HIT_RECORDED detector in STOP; only START also
      clears the index. */
  lemma InvalidPointEffect(d: DetectorValue, p: Point2d)
    requires WellFormed(d) && !IsValidPoint(p)
    ensures d.state in {Init, Stop, FillPipeline, Invalid} ==> Add(d, p) == d
    ensures d.state == Start ==> Add(d, p) == d.(state := Stop, index := 0)
    ensures d.state == HitRecorded ==> Add(d, p) == d.(state := Stop)
  {
  }

  /** A valid point in INIT or STOP starts a new pipeline with that point
      in slot 0; in HIT_RECORDED a valid point changes nothing. */
  lemma ValidPointEffect(d: DetectorValue, p: Point2d)
    requires WellFormed(d) && IsValidPoint(p)
    ensures d.state in {Init, Stop} ==>
              Add(d, p).state == FillPipeline && Add(d, p).index == 1 && Add(d, p).position[0] == p
    ensures d.state == HitRecorded ==> Add(d, p) == d
  {
  }

  /** In START a valid point is stored at the index, the index advances
      around the ring, and a hit is reported exactly when the window of
      the five newest points holds a reversal; the reported point is the
      turning point. */
  lemma StartStep(d: DetectorValue, p: Point2d)
    requires WellFormed(d) && d.state == Start && IsValidPoint(p)
    ensures Add(d, p).position[d.index] == p
    ensures Add(d, p).index == Next(d.index)
    ensures Add(d, p).state == HitRecorded <==> Reversal(Window(Add(d, p).position, Add(d, p).index)).Some?
    ensures Add(d, p).state == HitRecorded ==>
              Add(d, p).reported[|d.reported|].x == Window(Add(d, p).position, Add(d, p).index)[Reversal(Window(Add(d, p).position, Add(d, p).index)).value]
    ensures Add(d, p).state != HitRecorded ==> Add(d, p).state == Start && Add(d, p).reported == d.reported
  {
  }

  /** Once a hit is recorded, no further hit is reported until an invalid
      point stops the detector. */
  lemma {:induction false} HitRecordedReportsOnce(d: DetectorValue, ps: seq<Point2d>)
    requires WellFormed(d) && d.state == HitRecorded
    requires forall k :: 0 <= k < |ps| ==> IsValidPoint(ps[k])
    ensures AddAll(d, ps) == d
    decreases |ps|
  {
    if ps != [] {
      HitRecordedReportsOnce(Add(d, ps[0]), ps[1..]);
    }
  }

  // ---------------------------------------------------------------------
  // The detector in place

  /** Cd_instance */
  class Detector {
    var paneDimention: Pane
    var hasCallback: bool
    var reported: seq<Point2d>
    var state: CdState
    const position: array<Point2d>
    var positionIndex: nat

    predicate Valid()
      reads this
    {
      position.Length == PositionNum && positionIndex < PositionNum
    }

    function Value(): DetectorValue
      reads this, position
    {
      DetectorValue(state, position[..], positionIndex, reported)
    }

    /** A fresh, not yet defined instance. */
    constructor ()
      ensures Valid() && fresh(position)
      ensures state == Invalid && !hasCallback && reported == []
    {
      paneDimention := Pane(Point2d(0, 0), Point2d(0, 0), Point2d(0, 0), Point2d(0, 0), PaneLeft);
      hasCallback := false;
      reported := [];
      state := Invalid;
      position := new Point2d[PositionNum](_ => Point2d(0, 0));
      positionIndex := 0;
    }

    /** cd_define_pane */
    method DefinePane(paneDim: Pane)
      requires Valid()
      modifies this
      ensures Valid()
      ensures paneDimention == paneDim && state == Init && !hasCallback && positionIndex == 0
      ensures reported == old(reported)
    {
      paneDimention := paneDim;
      state := Init;
      hasCallback := false;
      positionIndex := 0;
    }

    /** cd_reset_pane */
    method ResetPane()
      requires Valid()
      modifies this
      ensures Valid()
      ensures positionIndex == 0 && state == Stop
      ensures paneDimention == old(paneDimention) && hasCallback == old(hasCallback) && reported == old(reported)
    {
      positionIndex := 0;
      state := Stop;
    }

    /** cd_set_hit_callback */
    method SetHitCallback()
      modifies this
      ensures hasCallback
      ensures state == old(state) && positionIndex == old(positionIndex) && reported == old(reported)
      ensures paneDimention == old(paneDimention)
    {
      hasCallback := true;
    }

    /** is_hit_detected, with the slots taken around the ring. */
    method IsHitDetected() returns (hit: bool, hitIndex: nat)
      requires Valid()
      ensures hit == Reversal(Window(position[..], positionIndex)).Some?
      ensures hit ==> hitIndex == Slot(StartIndex(positionIndex), Reversal(Window(position[..], positionIndex)).value)
    {
      ghost var w := Window(position[..], positionIndex);
      var i := StartIndex(positionIndex);
      ghost var start := i;
      var xPos := position[i].x;
      NextSlot(start, 0);
      i := Next(i);
      var dx0 := position[i].x - xPos;
      xPos := position[i].x;
      NextSlot(start, 1);
      i := Next(i);
      var hitCount: nat := 0;
      ghost var k: nat := 2;
      hit := false;
      hitIndex := 0;
      while i != positionIndex
        invariant 2 <= k <= PipelineSize
        invariant i == Slot(start, k)
        invariant Sign(dx0) == Sign(w[1] - w[0])
        invariant xPos == w[k - 1]
        invariant k == 2 ==> hitCount == 0
        invariant k >= 3 ==> hitCount == (if Rev(w, k - 1) then 1 else 0)
        invariant k >= 4 ==> !(Rev(w, 2) && Rev(w, 3))
        invariant k == PipelineSize ==> !(Rev(w, 3) && Rev(w, 4))
        decreases PipelineSize - k
      {
        RingReachesIndex(positionIndex, k);
        assert position[i].x == w[k];
        var dx1 := position[i].x - xPos;
        if Sign(dx0) != Sign(dx1) {
          hitCount := hitCount + 1;
          if hitCount >= HitCountNum {
            assert Reversal(w) == Some(k - HitCountNum);
            HitIndexOfRing(start, k);
            hitIndex := HitIndex(i);
            hit := true;
            return;
          }
        } else {
          hitCount := if hitCount == 0 then 0 else hitCount - 1;
          dx0 := dx1;
        }
        xPos := position[i].x;
        NextSlot(start, k);
        i := Next(i);
        k := k + 1;
      }
      RingReachesIndex(positionIndex, k);
    }

    /** cd_add_position. It always returns WG_SUCCESS. */
    method AddPosition(p: Point2d) returns (status: Status)
      requires Valid() && hasCallback
      modifies this, position
      ensures Valid()
      ensures Value() == Add(old(Value()), p)
      ensures paneDimention == old(paneDimention) && hasCallback == old(hasCallback)
      ensures status == Success
    {
      status := Success;
      match state
      case Init | Stop =>
        if IsValidPoint(p) {
          positionIndex := 0;
          state := FillPipeline;
          position[positionIndex] := p;
          positionIndex := Next(positionIndex);
        }
      case FillPipeline =>
        if IsValidPoint(p) {
          position[positionIndex] := p;
          positionIndex := Next(positionIndex);
          if positionIndex >= PipelineSize {
            state := Start;
          }
        }
      case Start =>
        if IsValidPoint(p) {
          position[positionIndex] := p;
          positionIndex := Next(positionIndex);
          var hit, hitIndex := IsHitDetected();
          if hit {
            reported := reported + [position[hitIndex]];
            state := HitRecorded;
          }
        } else {
          state := Stop;
          positionIndex := 0;
        }
      case HitRecorded =>
        if !IsValidPoint(p) {
          state := Stop;
        }
      case Invalid =>
    }
  }

  /** Two slots back from slot `start + k` is slot `start + k - 2`. */
  lemma HitIndexOfRing(start: nat, k: nat)
    requires start < PositionNum && 2 <= k <= PipelineSize
    ensures HitIndex(Slot(start, k)) == Slot(start, k - HitCountNum)
  {
  }

  /** One step forward from slot `start + k` is slot `start + k + 1`. */
  lemma NextSlot(start: nat, k: nat)
    requires start < PositionNum && k + 1 < PositionNum
    ensures Next(Slot(start, k)) == Slot(start, k + 1)
  {
  }

  /** Walking forward from the start slot, the index is reached after
      exactly five steps. */
  lemma RingReachesIndex(index: nat, k: nat)
    requires index < PositionNum && k <= PipelineSize
    ensures Slot(StartIndex(index), k) == index <==> k == PipelineSize
  {
  }
}
