/** The swipe recogniser that `attachSwipeHandlers` wires onto every list row,
    with the page-wide `revealedItem` and `closeRevealedActions`. A row's
    `translateX` is the integer offset `Px(x)`, or `OffScreenLeft` for the
    `-110%` a row slides to before its note opens; opening a note is the
    `Select` action returned to the caller instead of a timer. */
module Gesture {

  /** Width of the pin/delete panel a right swipe uncovers. */
  const REVEAL_WIDTH: int := 140
  /** Distance a release must pass to commit a swipe. */
  const SWIPE_THRESHOLD: int := 55
  /** Movement below this on both axes is not yet a drag. */
  const DEAD_ZONE: int := 6
  /** How far an idle row follows a leftward drag. */
  const PEEK_CAP: int := -90

  /** `swipeDir`: null until a drag starts, then fixed. */
  datatype Dir = Unset | Left | Right

  /** The content's `translateX`. */
  datatype Shift = Px(x: int) | OffScreenLeft

  /** What a handler asks the application to do: nothing, or `selectNote(id)`. */
  datatype Action = NoAction | Select(id: string)

  function Abs(x: int): nat
  {
    if x < 0 then -x else x
  }

  function Max(a: int, b: int): int
  {
    if a < b then b else a
  }

  function Min(a: int, b: int): int
  {
    if a < b then a else b
  }

  /** The test a move passes before a drag begins: out of the dead zone on
      some axis, and not more vertical than horizontal. */
  function StartsDrag(dx: int, dy: int): (starts: bool)
    ensures starts <==> Abs(dx) >= DEAD_ZONE && Abs(dy) <= Abs(dx)
  {
    if Abs(dx) < DEAD_ZONE && Abs(dy) < DEAD_ZONE then false
    else if Abs(dy) > Abs(dx) then false
    else true
  }

  /** The offset a move sets once the row is dragging. A right drag starts
      from 0, or from the panel width when the row is revealed, and stays
      inside the panel; a left drag of a revealed row never passes 0; a left
      drag of an idle row never passes the peek cap. Inside those bounds the
      row follows the finger. */
  function DragOffset(dir: Dir, isRevealed: bool, dx: int): (x: int)
    ensures dir == Right ==> 0 <= x <= REVEAL_WIDTH
    ensures dir == Right ==> var want := (if isRevealed then REVEAL_WIDTH else 0) + dx;
                             (0 <= want <= REVEAL_WIDTH ==> x == want) &&
                             (want < 0 ==> x == 0) && (want > REVEAL_WIDTH ==> x == REVEAL_WIDTH)
    ensures dir != Right && isRevealed ==>
              x >= 0 && (REVEAL_WIDTH + dx >= 0 ==> x == REVEAL_WIDTH + dx) && (REVEAL_WIDTH + dx < 0 ==> x == 0)
    ensures dir != Right && !isRevealed ==>
              x >= PEEK_CAP && (dx >= PEEK_CAP ==> x == dx) && (dx < PEEK_CAP ==> x == PEEK_CAP)
  {
    var baseX := if isRevealed then REVEAL_WIDTH else 0;
    if dir == Right then Max(0, Min(REVEAL_WIDTH, baseX + dx))
    else if isRevealed then Max(0, REVEAL_WIDTH + dx)
    else Max(PEEK_CAP, dx)
  }

  /** One list row: the variables its handlers close over, its `_hasSwiped`
      flag and what the handlers write into its style. */
  class Row {
    const noteId: string
    var startX: int
    var startY: int
    var isDragging: bool
    var swipeDir: Dir
    var hasSwiped: bool
    var offset: Shift
    var actionsVisible: bool
    /** A contact is in progress: between `touchstart` and its `touchend`
        or `touchcancel`. */
    ghost var touching: bool
    /** A drag of this row was cancelled and no release has placed the row
        since: it sits wherever the finger left it. */
    ghost var interrupted: bool

    /** The direction is set exactly while a drag is on. */
    ghost predicate Valid()
      reads this
    {
      isDragging <==> swipeDir != Unset
    }

    /** A row as `renderList` creates it. */
    constructor (noteId: string)
      ensures this.noteId == noteId && Valid()
      ensures startX == 0 && startY == 0 && !isDragging && swipeDir == Unset
      ensures !hasSwiped && offset == Px(0) && actionsVisible && !touching && !interrupted
    {
      this.noteId := noteId;
      startX, startY := 0, 0;
      isDragging, swipeDir := false, Unset;
      hasSwiped := false;
      offset := Px(0);
      actionsVisible := true;
      touching := false;
      interrupted := false;
    }
  }

  /** The page-wide part of the recogniser: the row whose panel is open. */
  class Recognizer {
    var revealed: Row?

    /** The revealed row rests at the panel width unless a finger is dragging
        it or a cancelled drag left it where it was. */
    ghost predicate Valid()
      reads this, revealed
    {
      revealed != null && !(revealed.touching && revealed.isDragging) && !revealed.interrupted ==>
        revealed.offset == Px(REVEAL_WIDTH)
    }

    /** The open row, as a set for frames. */
    function Open(): set<Row>
      reads this
    {
      if revealed == null then {} else {revealed}
    }

    constructor ()
      ensures revealed == null && Valid()
    {
      revealed := null;
    }

    /** `closeRevealedActions`: the open row slides back to 0 and no row is open. */
    method CloseRevealed()
      modifies this`revealed, Open()`offset
      ensures revealed == null && Valid()
      ensures old(revealed) != null ==> old(revealed).offset == Px(0)
    {
      if revealed != null {
        revealed.offset := Px(0);
        revealed := null;
      }
    }

    /** The document's `touchstart`: a touch outside the list closes the open row. */
    method DocumentTouchStart(insideList: bool)
      requires Valid()
      modifies this`revealed, Open()`offset
      ensures Valid()
      ensures insideList ==> revealed == old(revealed) && (old(revealed) != null ==> old(revealed).offset == old(revealed.offset))
      ensures !insideList ==> revealed == null && (old(revealed) != null ==> old(revealed).offset == Px(0))
    {
      if revealed != null && !insideList {
        CloseRevealed();
      }
    }

    /** `touchstart` on row `r`: another open row is closed first, then the
        start point is recorded and the gesture state is reset. */
    method TouchStart(r: Row, x: int, y: int)
      requires Valid() && !r.touching
      modifies this`revealed, Open()`offset, r
      ensures Valid() && r.Valid()
      ensures revealed == if old(revealed) == r then r else null
      ensures old(revealed) != null && old(revealed) != r ==> old(revealed).offset == Px(0)
      ensures r.startX == x && r.startY == y && !r.isDragging && r.swipeDir == Unset && !r.hasSwiped && r.touching
      ensures r.offset == old(r.offset) && r.actionsVisible == old(r.actionsVisible)
      ensures r.interrupted == old(r.interrupted)
    {
      if revealed != null && revealed != r {
        CloseRevealed();
      }
      r.startX, r.startY := x, y;
      r.isDragging, r.swipeDir := false, Unset;
      r.hasSwiped := false;
      r.touching := true;
    }

    /** `touchmove` on row `r`. Before a drag the move is ignored unless it
        starts one; the direction is fixed when it does and kept after. */
    method TouchMove(r: Row, x: int, y: int)
      requires Valid() && r.Valid() && r.touching
      modifies r`isDragging, r`swipeDir, r`offset, r`actionsVisible
      ensures Valid() && r.Valid()
      ensures var dx, dy := x - r.startX, y - r.startY;
              !old(r.isDragging) && !StartsDrag(dx, dy) ==>
                !r.isDragging && r.offset == old(r.offset) && r.actionsVisible == old(r.actionsVisible)
      ensures var dx, dy := x - r.startX, y - r.startY;
              !old(r.isDragging) && StartsDrag(dx, dy) ==>
                r.isDragging && r.swipeDir == (if dx > 0 then Right else Left) &&
                r.actionsVisible == (r.swipeDir == Right && old(r.actionsVisible))
      ensures old(r.isDragging) ==> r.isDragging && r.swipeDir == old(r.swipeDir) && r.actionsVisible == old(r.actionsVisible)
      ensures r.isDragging ==> r.offset == Px(DragOffset(r.swipeDir, revealed == r, x - r.startX))
    {
      var dx, dy := x - r.startX, y - r.startY;
      if !r.isDragging {
        if Abs(dx) < DEAD_ZONE && Abs(dy) < DEAD_ZONE {
          return;
        }
        if Abs(dy) > Abs(dx) {
          return;
        }
        r.isDragging := true;
        r.swipeDir := if dx > 0 then Right else Left;
        if r.swipeDir == Left {
          r.actionsVisible := false;
        }
      }
      var isRevealed := revealed == r;
      var baseX := if isRevealed then REVEAL_WIDTH else 0;
      if r.swipeDir == Right {
        r.offset := Px(Max(0, Min(REVEAL_WIDTH, baseX + dx)));
      } else if isRevealed {
        r.offset := Px(Max(0, REVEAL_WIDTH + dx));
      } else {
        r.offset := Px(Max(PEEK_CAP, dx));
      }
    }

    /** `touchend` on row `r`, released at `x`. A right release past the
        threshold opens the panel; a left release past it closes an open
        panel or, on an idle row, opens the note. Short releases snap back. */
    method TouchEnd(r: Row, x: int) returns (act: Action)
      requires Valid() && r.Valid() && r.touching
      modifies this`revealed, r`hasSwiped, r`offset, r`actionsVisible, r`touching, r`interrupted
      ensures Valid() && r.Valid() && !r.touching
      ensures r.interrupted == (old(r.interrupted) && !old(r.isDragging))
      ensures !old(r.isDragging) ==>
                act == NoAction && revealed == old(revealed) && r.offset == old(r.offset) &&
                r.actionsVisible && r.hasSwiped == old(r.hasSwiped)
      ensures old(r.isDragging) ==> (r.offset == Px(REVEAL_WIDTH) <==> revealed == r)
      ensures revealed == old(revealed) || revealed == r || (revealed == null && old(revealed) == r)
      ensures var dx := x - r.startX;
              r.isDragging && r.swipeDir == Right ==>
                act == NoAction && r.actionsVisible && r.hasSwiped == old(r.hasSwiped) &&
                (dx > SWIPE_THRESHOLD ==> revealed == r && r.offset == Px(REVEAL_WIDTH)) &&
                (dx <= SWIPE_THRESHOLD ==>
                   revealed == old(revealed) && r.offset == if old(revealed) == r then Px(REVEAL_WIDTH) else Px(0))
      ensures var dx := x - r.startX;
              r.isDragging && r.swipeDir == Left && old(revealed) == r ==>
                act == NoAction && r.actionsVisible && r.hasSwiped == old(r.hasSwiped) &&
                (dx < -SWIPE_THRESHOLD ==> revealed == null && r.offset == Px(0)) &&
                (dx >= -SWIPE_THRESHOLD ==> revealed == r && r.offset == Px(REVEAL_WIDTH))
      ensures var dx := x - r.startX;
              r.isDragging && r.swipeDir == Left && old(revealed) != r ==>
                revealed == old(revealed) &&
                (dx < -SWIPE_THRESHOLD ==>
                   act == Select(r.noteId) && r.hasSwiped && r.offset == OffScreenLeft &&
                   r.actionsVisible == old(r.actionsVisible)) &&
                (dx >= -SWIPE_THRESHOLD ==>
                   act == NoAction && r.offset == Px(0) && r.actionsVisible && r.hasSwiped == old(r.hasSwiped))
    {
      r.touching := false;
      act := NoAction;
      if !r.isDragging {
        r.actionsVisible := true;
        return;
      }
      r.interrupted := false;
      var dx := x - r.startX;
      var isRevealed := revealed == r;
      if r.swipeDir == Right {
        r.actionsVisible := true;
        if dx > SWIPE_THRESHOLD {
          r.offset := Px(REVEAL_WIDTH);
          revealed := r;
        } else if isRevealed {
          r.offset := Px(REVEAL_WIDTH);
        } else {
          r.offset := Px(0);
        }
      } else {
        if isRevealed {
          r.actionsVisible := true;
          if dx < -SWIPE_THRESHOLD {
            r.offset := Px(0);
            revealed := null;
          } else {
            r.offset := Px(REVEAL_WIDTH);
          }
        } else if dx < -SWIPE_THRESHOLD {
          r.hasSwiped := true;
          r.offset := OffScreenLeft;
          act := Select(r.noteId);
        } else {
          r.actionsVisible := true;
          r.offset := Px(0);
        }
      }
    }

    /** The browser's `touchcancel` on row `r`. The rows listen for no such
        event, so nothing the page sees changes: only the contact ends, and a
        drag cut off this way leaves the row where the finger left it, with
        `isDragging` still set, until a later release places it. */
    method TouchCancel(r: Row)
      requires Valid() && r.touching
      modifies r`touching, r`interrupted
      ensures Valid() && !r.touching
      ensures r.interrupted == (old(r.interrupted) || r.isDragging)
    {
      r.touching := false;
      r.interrupted := r.interrupted || r.isDragging;
    }

    /** A click on row `r`'s content: the click that follows a swipe-to-open
        is swallowed, a click on the open row closes it, any other click
        opens the row's note. */
    method Click(r: Row) returns (act: Action)
      requires Valid()
      modifies r`hasSwiped, this`revealed, Open()`offset
      ensures Valid() && !r.hasSwiped
      ensures old(r.hasSwiped) ==>
                act == NoAction && revealed == old(revealed) &&
                (revealed != null ==> revealed.offset == old(revealed.offset))
      ensures !old(r.hasSwiped) && old(revealed) == r ==> act == NoAction && revealed == null && r.offset == Px(0)
      ensures !old(r.hasSwiped) && old(revealed) != r ==>
                act == Select(r.noteId) && revealed == old(revealed) &&
                (revealed != null ==> revealed.offset == old(revealed.offset))
    {
      if r.hasSwiped {
        r.hasSwiped := false;
        return NoAction;
      }
      if revealed == r {
        CloseRevealed();
        return NoAction;
      }
      act := Select(r.noteId);
    }
  }
}
