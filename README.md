# NoteTaker core in Dafny

A model of the state logic of NoteTaker's `app.js`, a browser-local note-taking app. It covers three parts:

- **The note store and application state.** This is the `notes` array, `activeId`, and the swipe recogniser that holds `revealedItem`. The commands are create, select, pin, the two delete paths and the autosave commit.
- **The list presenter.** `renderList` filters notes with a case-insensitive search on title or body. It sorts them pinned first, then newest first. It derives each row's title ("Untitled" when empty), a 60-character one-line preview, and the pin label.
- **The per-row swipe recogniser.** It has a dead zone and a direction lock. A right swipe opens a 140 px action panel. A left swipe opens the note, or closes an open panel. At most one row is the open row at a time. A drag the browser cancels can leave another row showing its panel (see below). The swipe flag swallows the click that follows a swipe-to-open.

The small helpers `escapeHtml` and `hexToRgb` are modelled too.

Files, one module each:

- `notes.dfy` (`Notes`): the `Note` record, `find` by id, `filter` by id, the fallback active id.
- `text.dfy` (`Text`): lower-casing, `includes`, `replace(/c/g, …)`, `escapeHtml` and the browser's decoding of its entities.
- `presenter.dfy` (`Presenter`): filter, comparator, sort, rows.
- `color.dfy` (`Color`): `hexToRgb` and the `#rrggbb` form a colour input produces.
- `gesture.dfy` (`Gesture`): the `Row` class (the handlers' closure variables and the row's offset) and the `Recognizer` class (`revealedItem` and the touch and click handlers).
- `app.dfy` (`Application`): the `App` class with the store commands.
- `scenarios.dfy` (`Scenarios`): complete gestures run through the recogniser.

Outside effects become parameters:

- a fresh id and the current time are passed to `CreateNote` and `CommitAutosave`;
- the answer to the confirm dialog is passed to `DeleteNote`;
- the parsed stored notes are passed to the constructor;
- the editor's title and body buffers are passed to `CommitAutosave`;
- opening a note is returned as a `Select(id)` action rather than run by a timer.

Some behaviour of the code a reader may not expect; the model follows the code:

- **Vertical moves.** The "vertical move, ignore" test in `touchmove` runs on every move until a drag starts. It is not decided once at the dead-zone exit. So a gesture that began vertically can still become a drag (`app.js:302-306`).
- **Autosave target.** The autosave commit writes to whichever note is active when the timer fires (`activeNote()` at `app.js:518`). It does not write to the note being edited when the timer was armed.
- **Header delete guard.** The header delete returns early when `activeId` is falsy. The empty string counts as falsy, as well as null (`app.js:504`).
- **Swipe delete.** The swipe delete clears `revealedItem` without sliding the row back, because the list is rebuilt (`app.js:495`).
- **Cancelled touches.** The rows listen for `touchstart`, `touchmove` and `touchend` only (`app.js:288-369`). A drag the browser cancels is never released: the row stays where the finger left it, and it can be the open row at an offset other than 140. A cancelled right drag past 140 px leaves a row that is not the open row showing its panel at 140. No closer reaches that row, because the other row's `touchstart`, the touch outside the list and the scroll listener all act on `revealedItem` only. The panel stays until the next re-render. `Gesture.Recognizer.TouchCancel` and three scenarios show this: `Scenarios.CancelledDragLeavesRowHalfOpen`, `Scenarios.CancelledRightDragLeavesSecondPanel` and `Scenarios.CancelledRightDragSurvivesOutsideTouch`.

## Model

| member | source | states |
|---|---|---|
| Notes.FindIndex | app.js:469 | The first index whose note has the id, with no earlier match; none exactly when no note has the id (`notes.find`). |
| Notes.RemoveId | app.js:489 | A note is kept iff its id differs; no note with the id remains; the result is a subsequence of the store (order kept). |
| Notes.RemoveIdCounts | app.js:489 | Every note with another id is kept as many times as it is stored, and no note with the id is kept. |
| Notes.RemoveIdKeepsUnique | app.js:506 | Deleting by id keeps the store's ids unique. |
| Notes.FirstId | app.js:491 | The fallback active id is none exactly for an empty store, and otherwise the id `find` resolves to the first note. |
| Text.Lower | app.js:374 | Lower-casing keeps the length and folds each character independently. |
| Text.Includes | app.js:377-378 | `includes` holds iff the needle occurs at some position of the haystack (the empty needle always does). |
| Text.ReplaceAll | app.js:257 | `replace(/c/g, rep)` leaves no `c` when `rep` holds none, and every character of the result comes from the input (other than `c`) or from `rep`. |
| Text.EscapeHtml | app.js:256-258 | The escaped text holds no `<` and no `>`. |
| Text.ReplaceAllByChar | app.js:398 | A one-character replacement keeps every position: the replaced character reads as the new one, every other is kept. |
| Text.EscapeHtmlPerChar | app.js:256-258 | The three passes, `&` first, escape each character exactly once. `&lt;` and `&gt;` are never escaped again. |
| Text.EscapeRoundTrip | app.js:256-258 | Decoding the entities in the escaped text gives back the original text. |
| Text.EscapeEmpty | app.js:397 | Escaping gives the empty string exactly for the empty string, so the `\|\| 'Untitled'` fallback tests for an empty title. |
| Presenter.Matches | app.js:376-379 | The filter callback holds iff the query occurs at some position of the lower-cased title or of the lower-cased body; the empty query matches every note. |
| Presenter.Filter | app.js:375-379 | A note is kept iff it is stored and the lower-cased query occurs in its lower-cased title or body; the result is a subsequence of the store. |
| Presenter.FilterCounts | app.js:375-379 | Every matching note is kept as many times as it is stored, and no other note is kept. |
| Presenter.FilterEmptyQuery | app.js:374-379 | The empty query keeps every note, in stored order. |
| Presenter.FilterKeepsVerbatimMatch | app.js:374-379 | A note whose title or body holds the query verbatim is kept, whatever the case. |
| Presenter.Compare | app.js:380-384 | The comparator lets `a` stay above `b` iff `Ordered(a, b)`: `a` is pinned or `b` is not, and at equal pin status `a` is no older. A positive result puts `b` first only when `b` may precede `a`. |
| Presenter.Insert | app.js:380-384 | Insertion adds exactly one copy of the note and keeps a sorted list sorted. |
| Presenter.SortNotes | app.js:380-384 | The sort's result is a permutation of its input. No unpinned note is above a pinned one. Among notes of the same status, `updatedAt` does not increase. |
| Presenter.View | app.js:373-384 | The listed notes are exactly the matching stored notes, with multiplicity, sorted as above. |
| Presenter.Preview | app.js:398 | The preview is the first 60 characters (fewer if the body is shorter) with each newline turned into a space, and holds no newline. |
| Presenter.RowTitle | app.js:397 | An empty title shows "Untitled"; any other title shows text that decodes back to the title. |
| Presenter.RowOf | app.js:389-398 | A row carries the note's id and pin flag, and the label "Unpin" for a pinned note, "Pin" otherwise. Its title and preview decode to the title (or "Untitled") and to the preview. It is marked active iff its id is `activeId`. |
| Presenter.Rows | app.js:387-423 | There is one row per note of the view, in the view's order, and row i is `RowOf` the view's note i. |
| Presenter.RenderList | app.js:373-423 | There is one row per matching note. Pinned rows come above unpinned ones. Every row is a matching stored note, and every matching stored note has a row. Row by row, the rows are `RowOf` of a sorted permutation of the matching notes, so within a pin group they run newest first and each row carries its note's title, preview, pin label and active flag. |
| Presenter.EmptyQueryShowsAll | app.js:374-379 | An empty search box lists every stored note. |
| Color.ParseHex | app.js:96 | `parseInt(_, 16)` of k digits is below 16^k. |
| Color.StripHash | app.js:94 | A string without `#` is unchanged; with one, exactly one character goes, and a leading `#` is the one removed. |
| Color.StripHashRemovesFirst | app.js:94 | The removed `#` is the first one: the text before it and the text after it are kept. |
| Color.Expand | app.js:95 | A three-digit form doubles each digit; other lengths are unchanged. |
| Color.HexToRgb | app.js:93-98 | Each channel is an 8-bit value. |
| Color.HexToRgbSixDigits | app.js:93-98 | For `#rrggbb`, each channel is the value of its two digits. |
| Color.HexToRgbThreeDigits | app.js:95-97 | For `#rgb`, each channel is its digit times 17. |
| Color.RgbRoundTrip | app.js:93-98 | The `#rrggbb` a colour input writes for three channels reads back as those channels. |
| Gesture.StartsDrag | app.js:302-306 | A drag starts iff \|dx\| ≥ 6 and \|dy\| ≤ \|dx\|. No drag starts inside the dead zone or when the move is more vertical than horizontal. |
| Gesture.DragOffset | app.js:314-326 | A right drag stays in [0, 140] from base 0 or 140. A left drag of a revealed row stays ≥ 0. A left drag of an idle row stays ≥ -90. Inside these bounds the row follows the finger exactly; past a bound it sits at the bound (0, -90 or 140). |
| Gesture.Row.constructor | app.js:286 | A fresh row is idle: no drag, no direction, not swiped, offset 0. |
| Gesture.Recognizer.constructor | app.js:23 | At start no row is open, and the invariant holds. |
| Gesture.Recognizer.CloseRevealed | app.js:277-283 | The open row slides to 0 and no row is open. |
| Gesture.Recognizer.DocumentTouchStart | app.js:582-585 | A touch outside the list closes the open row; one inside changes nothing. |
| Gesture.Recognizer.TouchStart | app.js:288-296 | Another open row is slid to 0 and closed. Afterwards the open row is this row if it was open already, and none otherwise. The start point is recorded and the drag state, direction and swipe flag are reset; the row's offset and actions are unchanged. |
| Gesture.Recognizer.TouchMove | app.js:298-328 | Before a drag starts, a move that fails `StartsDrag` changes nothing. A drag starts right if dx > 0, else left, and a left drag hides the actions. Once dragging, the direction never changes. The offset is `DragOffset`. |
| Gesture.Recognizer.TouchEnd | app.js:330-369 | Without a drag nothing changes. After a drag, the row rests at 140 iff it is the open row. The release cases are: a right release past 55 opens this row; a short one re-snaps an open row or returns to 0; a left release past 55 closes an open row or opens the note and sets the swipe flag; a short one snaps back. The recogniser's invariant (the open row rests at 140 unless it is being dragged or a cancelled drag left it) is kept, and a release after a drag clears the cancelled mark. |
| Gesture.Recognizer.TouchCancel | app.js:288-369 | No handler runs, so only the contact ends. A drag cut off this way is marked as left in place, and the recogniser's invariant still holds. |
| Gesture.Recognizer.Click | app.js:405-409 | A pending swipe flag is consumed with no action. Otherwise a click on the open row closes it. Otherwise it selects the row's note. |
| Scenarios.RevealClosesOther | app.js:288-349 | With row `a` open, an 80 px right drag of row `b` closes `a` and leaves `b` as the one open row, at 140. |
| Scenarios.SwipeLeftOpens | app.js:350-367 | An 80 px left drag of an idle row opens its note, and the next click is swallowed. |
| Scenarios.VerticalMoveScrolls | app.js:298-335 | A mostly vertical move starts no drag, the release does nothing, and the next click opens the note. |
| Scenarios.CancelledDragLeavesRowHalfOpen | app.js:314-409 | An open row dragged 40 px left and then cancelled is left at 100 px. The touch events of a later tap leave it at 100 px; the tap's click then closes it to 0 with no action. |
| Scenarios.CancelledRightDragLeavesSecondPanel | app.js:288-349 | Row `a` is dragged 200 px right and cancelled, then row `b` is swiped open. Both rows then show their panels at 140, and `b` is the open row. |
| Scenarios.CancelledRightDragSurvivesOutsideTouch | app.js:314-328 | The same cancelled drag, followed by a touch outside the list, leaves no open row while `a` still shows its panel at 140. |
| Application.App.constructor | app.js:52-55 | Missing or malformed stored data gives an empty store. The first stored note becomes active. The active id resolves. |
| Application.App.SelectNote | app.js:447-448 | The note becomes active; the active id resolves iff the note exists. |
| Application.App.CreateNote | app.js:458-462 | A blank, unpinned note with the given id and time is prepended and made active. Ids stay unique iff the new id was not in use. |
| Application.App.PinNote | app.js:468-475 | Only the first note with the id has its pin flipped, and the open row slides to 0 and closes. An unknown id is a no-op: the store, the open row and its offset are unchanged. Ids and the active id are unchanged. |
| Application.App.DeleteNoteById | app.js:488-499 | Exactly the notes with the id are removed, the rest in order. A deleted active note falls back to the first remaining note or none. No row is open. Unique ids and a resolving active id are kept. |
| Application.App.DeleteNote | app.js:503-513 | With an active id and confirmation, the active note is removed and the first remaining note or none becomes active. With no active id, or a declined prompt, nothing changes. |
| Application.App.CommitAutosave | app.js:515-527 | Only the active note's title, body and `updatedAt` change. Its id and pin are kept. With no active note (or one that no longer exists) nothing changes. |

## Left out

- Persistence is not modelled. This covers `load`, `save`, `loadSettings`, `saveSettings`, JSON encoding and `localStorage`. The constructor takes the parsed stored notes, with `None` for missing or malformed data. Writes are not modelled.
- Theming is presentation only and not modelled. This covers `applyTheme`, the theme catalogue, the settings panel, the colour inputs and the welcome screen. Of this, only `hexToRgb` is modelled.
- `isDarkTheme`, `drawStars` and `updateOverlay` are not modelled. They are floating-point luminance and `Math.random` drawing.
- `uid` is not modelled: ids are parameters. `formatDate` is not modelled because it uses locale and clock: rows carry no date label, and the "Saved …" label is left out.
- Timers are not modelled. The 400 ms autosave debounce and its cancel-and-restart are replaced by `CommitAutosave` as an immediate command. The 220 ms delay before opening a swiped note is replaced by the `Select` action. The 420 ms delete animation and the 260 ms re-render delay are dropped.
- `renderEditor`, focus handling, the `show-editor` class and the back button are not modelled; they only change the DOM.
- The keyboard shortcut and the list's scroll listener are not modelled separately. They only call modelled commands: the shortcut calls `CreateNote` and the scroll listener calls `CloseRevealed`.
- The resize listener is not modelled. It resizes the star canvas and calls `drawStars`, which is left out above.
- Re-rendering is not modelled. Every `renderList` (`app.js:454`, `474`, `497`, `510`, `525`, `579`) replaces every row with a fresh one. The fresh row has new closure variables, offset 0 and no `_hasSwiped`. `revealedItem` keeps pointing at the detached old row. The model keeps its `Row` objects, and the open row's offset, across `SelectNote`, `PinNote`, `CommitAutosave` and searches. A fresh row is `Gesture.Row.constructor`, and the caller decides when rows are replaced. For example, the click swallowed in `Scenarios.SwipeLeftOpens` is swallowed in the app only until the next re-render.
- CSS transitions are not modelled, and `revealedItem`'s `{li, content}` pair is a `Row` reference.
- Presenter.Preview: counts Unicode code points, while `slice(0, 60)` counts UTF-16 code units. A body of 60 emoji previews as 30 in the app but all 60 in the model. A cut that falls inside a surrogate pair, which leaves a lone surrogate in the app, is not modelled.
- Text.Lower: folds only ASCII `A`-`Z`, while JavaScript's `toLowerCase` folds all of Unicode.
- Color.HexToRgb: is defined only for one to seven hex digits after the `#`. It does not model `parseInt`'s leading-whitespace, sign and `0x` handling, its prefix parsing of non-hex text, or the 32-bit wrap of `>>` for eight or more digits.
- Presenter.SortNotes: states the order and the permutation but not stability. Notes that compare equal keep their input order in this insertion sort, as a stable `Array.prototype.sort` keeps them, but that is not proved.
- Gesture.Recognizer.TouchStart: requires that no contact is in progress on the row, which models a single contact point; multi-touch is not modelled. A contact ends with `TouchEnd` or `TouchCancel`. TouchMove, TouchEnd and TouchCancel require a contact in progress, which is the browser's event order.
- Gesture.Recognizer.TouchEnd: the invariant covers the open row only. After completed gestures, `TouchStart` closes any other open row (`Scenarios.RevealClosesOther`). A cancelled right drag, however, can leave a row that is not the open row at up to 140, and no closer reaches it (`Scenarios.CancelledRightDragLeavesSecondPanel`). So no invariant over all rows is stated.
- Touch coordinates and offsets are integers here, while `clientX`, `clientY` and `translateX` are fractional CSS pixels in the browser.
