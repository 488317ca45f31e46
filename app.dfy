/** The application state of `app.js`: the `notes` array, `activeId`, and the
    recogniser that holds `revealedItem`, with the commands that change them.
    Persistence writes, re-rendering and animation delays are left to the
    caller; each command here is the state change its handler makes. */
module Application {
  import opened Notes
  import Gesture

  class App {
    var notes: seq<Note>
    var activeId: Option<string>
    const gestures: Gesture.Recognizer

    /** Ids are unique across the store. */
    ghost predicate Valid()
      reads this
    {
      UniqueIds(notes)
    }

    /** The active id is null or names a stored note. */
    ghost predicate ActiveResolves()
      reads this
    {
      Resolves(notes, activeId)
    }

    /** Start-up: `load()` then the first stored note becomes active. Stored
        data that is missing or does not parse arrives as `None` and yields
        an empty store. */
    constructor (stored: Option<seq<Note>>)
      ensures notes == (if stored.Some? then stored.value else [])
      ensures activeId == FirstId(notes)
      ensures ActiveResolves()
      ensures fresh(gestures) && gestures.revealed == null && gestures.Valid()
    {
      var loaded := if stored.Some? then stored.value else [];
      notes := loaded;
      activeId := if |loaded| > 0 then Some(loaded[0].id) else None;
      gestures := new Gesture.Recognizer();
    }

    /** `selectNote(id)`: the note becomes active; the id is not checked. */
    method SelectNote(id: string)
      modifies this`activeId
      ensures activeId == Some(id)
      ensures ActiveResolves() <==> HasId(notes, id)
    {
      activeId := Some(id);
    }

    /** `createNote`: a blank note with the fresh id and the current time goes
        in front and becomes active. Ids stay unique exactly when the new id
        is not in use. */
    method CreateNote(id: string, now: int)
      modifies this`notes, this`activeId
      ensures notes == [Note(id, "", "", false, now)] + old(notes)
      ensures activeId == Some(id) && ActiveResolves()
      ensures Valid() <==> old(Valid()) && !old(HasId(notes, id))
    {
      notes := [Note(id, "", "", false, now)] + notes;
      activeId := Some(id);
      assert notes[0].id == id;
      if !old(Valid()) {
        var i, j :| 0 <= i < j < |old(notes)| && old(notes)[i].id == old(notes)[j].id;
        assert notes[i + 1].id == notes[j + 1].id;
      } else if old(HasId(notes, id)) {
        var j :| 0 <= j < |old(notes)| && old(notes)[j].id == id;
        assert notes[j + 1].id == id;
      }
    }

    /** `pinNote(id)`: the first note with the id has its pin flipped and the
        open row closes; an unknown id changes nothing. */
    method PinNote(id: string)
      modifies this`notes, gestures`revealed, gestures.Open()`offset
      ensures activeId == old(activeId)
      ensures FindIndex(old(notes), id).None? ==> notes == old(notes) && gestures.revealed == old(gestures.revealed)
      ensures FindIndex(old(notes), id).Some? ==>
                var k := FindIndex(old(notes), id).value;
                notes == old(notes)[k := old(notes)[k].(pinned := !old(notes)[k].pinned)] &&
                gestures.revealed == null
      ensures old(gestures.revealed) != null ==>
                old(gestures.revealed).offset ==
                  if FindIndex(old(notes), id).Some? then Gesture.Px(0) else old(gestures.revealed.offset)
      ensures Valid() == old(Valid()) && ActiveResolves() == old(ActiveResolves())
    {
      var found := FindIndex(notes, id);
      if found.None? {
        return;
      }
      var k := found.value;
      notes := notes[k := notes[k].(pinned := !notes[k].pinned)];
      gestures.CloseRevealed();
      assert forall i :: 0 <= i < |notes| ==> notes[i].id == old(notes)[i].id;
    }

    /** `deleteNoteById(id)`, the swipe action: every note with the id goes,
        the rest keep their order; the active note, if deleted, falls back to
        the first remaining one or to none; no row stays open. */
    method DeleteNoteById(id: string)
      modifies this`notes, this`activeId, gestures`revealed
      ensures notes == RemoveId(old(notes), id)
      ensures activeId == if old(activeId) == Some(id) then FirstId(notes) else old(activeId)
      ensures gestures.revealed == null
      ensures old(Valid()) ==> Valid()
      ensures old(ActiveResolves()) ==> ActiveResolves()
    {
      if Valid() {
        RemoveIdKeepsUnique(notes, id);
      }
      ghost var wasResolved := ActiveResolves();
      notes := RemoveId(notes, id);
      if activeId == Some(id) {
        activeId := if |notes| > 0 then Some(notes[0].id) else None;
      } else if wasResolved && activeId.Some? {
        var i :| 0 <= i < |old(notes)| && old(notes)[i].id == activeId.value;
        assert old(notes)[i] in notes;
      }
      gestures.revealed := null;
    }

    /** `deleteNote()`, the header button: with an active note and the user's
        confirmation, the active note goes and the first remaining note, or
        none, becomes active. An empty or missing active id, or a declined
        prompt, changes nothing. */
    method DeleteNote(confirmed: bool)
      modifies this`notes, this`activeId
      ensures old(activeId).None? || old(activeId) == Some("") || !confirmed ==>
                notes == old(notes) && activeId == old(activeId)
      ensures old(activeId).Some? && old(activeId) != Some("") && confirmed ==>
                notes == RemoveId(old(notes), old(activeId).value) && activeId == FirstId(notes)
      ensures old(ActiveResolves()) ==> ActiveResolves()
      ensures old(Valid()) ==> Valid()
    {
      if activeId.None? || activeId.value == "" {
        return;
      }
      if !confirmed {
        return;
      }
      if Valid() {
        RemoveIdKeepsUnique(notes, activeId.value);
      }
      notes := RemoveId(notes, activeId.value);
      activeId := if |notes| > 0 then Some(notes[0].id) else None;
    }

    /** The body of the autosave timer: the active note takes the editor's
        title and body and the commit time; nothing else changes, and with
        no active note nothing changes at all. */
    method CommitAutosave(title: string, body: string, now: int)
      modifies this`notes
      ensures activeId.None? || FindIndex(old(notes), activeId.value).None? ==> notes == old(notes)
      ensures activeId.Some? && FindIndex(old(notes), activeId.value).Some? ==>
                var k := FindIndex(old(notes), activeId.value).value;
                notes == old(notes)[k := Note(old(notes)[k].id, title, body, old(notes)[k].pinned, now)]
      ensures Valid() == old(Valid()) && ActiveResolves() == old(ActiveResolves())
    {
      if activeId.None? {
        return;
      }
      var found := FindIndex(notes, activeId.value);
      if found.None? {
        return;
      }
      var k := found.value;
      notes := notes[k := notes[k].(title := title, body := body, updatedAt := now)];
      assert forall i :: 0 <= i < |notes| ==> notes[i].id == old(notes)[i].id;
    }
  }
}
