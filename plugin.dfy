/** The application state machine of the webcam plugin (wg_plugin.c):
    go_to_state answers whether a move from the current state to a new one
    is allowed; it never changes the state itself. */
module Plugin {
  datatype WebcamState = Uninitialized | Callibrate | Start | Stop | GetColor | GetPane

  /** go_to_state(camera, new_state), with camera->state as `current`. */
  function GoToState(current: WebcamState, next: WebcamState): (ok: bool)
    ensures current == Uninitialized ==> (ok <==> next == Callibrate)
    ensures current == Callibrate ==> (ok <==> next in {Callibrate, Start, GetColor})
    ensures current == Start ==> (ok <==> next == Stop)
    ensures current == Stop ==> (ok <==> next in {Start, Callibrate})
    ensures current == GetColor ==> (ok <==> next in {GetPane, Callibrate})
    ensures current == GetPane ==> (ok <==> next == Callibrate)
  {
    match current
    case Uninitialized => next.Callibrate?
    case Callibrate => next.Callibrate? || next.Start? || next.GetColor?
    case Start => next.Stop?
    case Stop => next.Start? || next.Callibrate?
    case GetColor => next.GetPane? || next.Callibrate?
    case GetPane => next.Callibrate?
  }

  /** A run of the machine: every consecutive pair is an allowed move. */
  predicate IsRun(path: seq<WebcamState>)
  {
    forall i :: 0 <= i < |path| - 1 ==> GoToState(path[i], path[i + 1])
  }

  /** No move ever leads back to UNINITIALIZED. */
  lemma NeverBackToUninitialized(current: WebcamState)
    ensures !GoToState(current, Uninitialized)
  {
  }

  /** Capturing can only be entered from CALLIBRATE or STOP, and the pane
      only after a colour was picked. */
  lemma EntryPoints(current: WebcamState)
    ensures GoToState(current, Start) ==> current in {Callibrate, Stop}
    ensures GoToState(current, GetPane) ==> current == GetColor
    ensures GoToState(current, GetColor) ==> current == Callibrate
  {
  }

  /** Every run that starts UNINITIALIZED and reaches START has passed
      through CALLIBRATE before it. */
  lemma {:induction false} StartNeedsCallibrate(path: seq<WebcamState>, j: nat)
    requires IsRun(path) && |path| > 0 && path[0] == Uninitialized
    requires j < |path| && path[j] != Uninitialized
    ensures exists i :: 0 < i <= j && path[i] == Callibrate
  {
    if path[j - 1] == Uninitialized {
      assert GoToState(path[j - 1], path[j]);
    } else {
      StartNeedsCallibrate(path, j - 1);
    }
  }

  /** From every state CALLIBRATE is at most two moves away. */
  lemma CallibrateReachable(current: WebcamState)
    ensures GoToState(current, Callibrate) || (GoToState(current, Stop) && GoToState(Stop, Callibrate))
  {
  }
}
