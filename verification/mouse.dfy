/** The synthetic input `ClickAt` produces: the cursor is moved to the click
    point, then one button is pressed and released. The operating system
    calls become events of a trace. */
module Mouse {

  datatype Button = Left | Right

  datatype MouseEvent =
    | MoveTo(x: int, y: int)   // Cursor.Position = new Point(x, y)
    | Down(button: Button)     // MOUSEEVENTF_LEFTDOWN or MOUSEEVENTF_RIGHTDOWN
    | Up(button: Button)       // MOUSEEVENTF_LEFTUP or MOUSEEVENTF_RIGHTUP

  /** The `mouse_event` flag each press or release sends. */
  function EventFlag(e: MouseEvent): (flag: nat)
    requires !e.MoveTo?
    ensures flag in {0x0002, 0x0004, 0x0008, 0x0010}
  {
    match e
    case Down(Left) => 0x0002
    case Up(Left) => 0x0004
    case Down(Right) => 0x0008
    case Up(Right) => 0x0010
  }

  /** A trace made of whole clicks: each a cursor move followed by a press
      and a release of one same button, so no button is ever left down. */
  predicate IsClickTrace(t: seq<MouseEvent>) {
    |t| == 0
    || (|t| >= 3 && t[0].MoveTo? && t[1].Down? && t[2] == Up(t[1].button) && IsClickTrace(t[3..]))
  }

  /** The buttons a trace presses or releases. */
  function ButtonsUsed(t: seq<MouseEvent>): set<Button> {
    set i | 0 <= i < |t| && !t[i].MoveTo? :: t[i].button
  }

  function ButtonFor(rightClick: bool): Button {
    if rightClick then Right else Left
  }

  /** `ClickAt(x, y, rightClick)`: one whole click at `(x, y)` with the chosen
      button, and nothing of the other button. */
  function ClickAt(x: int, y: int, rightClick: bool): (r: seq<MouseEvent>)
    ensures IsClickTrace(r) && |r| == 3
    ensures r[0] == MoveTo(x, y)
    ensures ButtonsUsed(r) == {ButtonFor(rightClick)}
    ensures EventFlag(r[1]) == (if rightClick then 0x0008 else 0x0002)
    ensures EventFlag(r[2]) == (if rightClick then 0x0010 else 0x0004)
  {
    var b := ButtonFor(rightClick);
    var r := [MoveTo(x, y), Down(b), Up(b)];
    assert r[1].button == b;
    r
  }

  /** Whole-click traces compose. */
  lemma {:induction false} ClickTraceConcat(a: seq<MouseEvent>, b: seq<MouseEvent>)
    requires IsClickTrace(a) && IsClickTrace(b)
    ensures IsClickTrace(a + b)
    decreases |a|
  {
    if |a| > 0 {
      ClickTraceConcat(a[3..], b);
      assert (a + b)[3..] == a[3..] + b;
      assert (a + b)[0] == a[0] && (a + b)[1] == a[1] && (a + b)[2] == a[2];
    } else {
      assert a + b == b;
    }
  }

  /** In a whole-click trace every press is followed at once by the release
      of the same button. */
  lemma {:induction false} PressIsReleased(t: seq<MouseEvent>, i: nat)
    requires IsClickTrace(t) && i < |t| && t[i].Down?
    ensures i + 1 < |t| && t[i + 1] == Up(t[i].button)
    decreases |t|
  {
    if i >= 3 {
      PressIsReleased(t[3..], i - 3);
    }
  }
}
