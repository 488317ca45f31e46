/** Whole gestures run through the recogniser, start to finish. */
module Scenarios {
  import opened Gesture

  /** With row `a` open, a right drag of row `b` from x = 100 to x = 180
      (80 px, past the 55 px threshold) closes `a` and leaves `b` as the one
      revealed row, at the panel width. */
  method RevealClosesOther() returns (a: Row, b: Row, g: Recognizer)
    ensures g.revealed == b && b.offset == Px(REVEAL_WIDTH)
    ensures a.offset == Px(0) && a != b
  {
    a := new Row("a");
    b := new Row("b");
    g := new Recognizer();
    g.TouchStart(a, 100, 50);
    g.TouchMove(a, 180, 50);
    var act := g.TouchEnd(a, 180);
    assert g.revealed == a;
    g.TouchStart(b, 100, 80);
    g.TouchMove(b, 180, 80);
    act := g.TouchEnd(b, 180);
  }

  /** On an idle row, a left drag of 80 px opens the row's note; the click
      the browser sends after the touch is swallowed. */
  method SwipeLeftOpens() returns (r: Row, onRelease: Action, clicked: Action)
    ensures onRelease == Select("n1") && r.offset == OffScreenLeft
    ensures clicked == NoAction && !r.hasSwiped
  {
    r := new Row("n1");
    var g := new Recognizer();
    g.TouchStart(r, 100, 40);
    g.TouchMove(r, 20, 40);
    onRelease := g.TouchEnd(r, 20);
    clicked := g.Click(r);
  }

  /** A mostly vertical move is a scroll: no drag starts, the release does
      nothing, and a following click opens the note. */
  method VerticalMoveScrolls() returns (r: Row, released: Action, clicked: Action)
    ensures !r.isDragging && r.offset == Px(0)
    ensures released == NoAction && clicked == Select("n2")
  {
    r := new Row("n2");
    var g := new Recognizer();
    g.TouchStart(r, 100, 40);
    g.TouchMove(r, 104, 70);
    released := g.TouchEnd(r, 104);
    clicked := g.Click(r);
  }

  /** A drag cancelled by the browser is never released: the open row is
      left at 100 px. The touch events of a later tap leave it there
      (`afterTouch`); the tap's click then closes it. */
  method CancelledDragLeavesRowHalfOpen() returns (r: Row, g: Recognizer, afterTouch: Shift, clicked: Action)
    ensures afterTouch == Px(100)
    ensures clicked == NoAction && g.revealed == null && r.offset == Px(0)
  {
    r := new Row("n3");
    g := new Recognizer();
    g.TouchStart(r, 100, 40);
    g.TouchMove(r, 180, 40);
    var act := g.TouchEnd(r, 180);
    assert g.revealed == r;
    g.TouchStart(r, 200, 40);
    g.TouchMove(r, 160, 40);
    g.TouchCancel(r);
    g.TouchStart(r, 150, 40);
    act := g.TouchEnd(r, 150);
    assert g.revealed == r;
    afterTouch := r.offset;
    clicked := g.Click(r);
  }

  /** A right drag of row `a` past the panel width, cancelled by the browser,
      leaves `a` showing its panel at 140 px without being the open row: when
      row `b` is then swiped open, two panels show. */
  method CancelledRightDragLeavesSecondPanel() returns (a: Row, b: Row, g: Recognizer)
    ensures g.revealed == b && b.offset == Px(REVEAL_WIDTH)
    ensures a != b && a.offset == Px(REVEAL_WIDTH)
  {
    a := new Row("a");
    b := new Row("b");
    g := new Recognizer();
    g.TouchStart(a, 100, 50);
    g.TouchMove(a, 300, 50);
    g.TouchCancel(a);
    assert g.revealed == null;
    g.TouchStart(b, 100, 80);
    g.TouchMove(b, 180, 80);
    var act := g.TouchEnd(b, 180);
  }

  /** The same cancelled drag survives a touch outside the list: no closer
      reaches a row that is not the open one. */
  method CancelledRightDragSurvivesOutsideTouch() returns (a: Row, g: Recognizer)
    ensures g.revealed == null && a.offset == Px(REVEAL_WIDTH)
  {
    a := new Row("a");
    g := new Recognizer();
    g.TouchStart(a, 100, 50);
    g.TouchMove(a, 300, 50);
    g.TouchCancel(a);
    g.DocumentTouchStart(false);
  }
}
