/** The note record and the sequence operations the store is built from:
    finding a note by id, removing every note with an id, and the first
    remaining id used as the fallback active note. */
module Notes {

  datatype Option<T> = None | Some(value: T)

  /** One entry of the `notes` array. `pinned` is false when the stored
      record lacks it; `updatedAt` is milliseconds since the epoch. */
  datatype Note = Note(id: string, title: string, body: string, pinned: bool, updatedAt: int)

  /** No two notes of the store share an id. */
  predicate UniqueIds(notes: seq<Note>)
  {
    forall i, j :: 0 <= i < j < |notes| ==> notes[i].id != notes[j].id
  }

  /** Some note of the store has the id. */
  predicate HasId(notes: seq<Note>, id: string)
  {
    exists i :: 0 <= i < |notes| && notes[i].id == id
  }

  /** `xs` is `ys` with some elements dropped and the rest kept in order. */
  predicate IsSubsequence<T(==)>(xs: seq<T>, ys: seq<T>)
    decreases |ys|
  {
    if |xs| == 0 then true
    else if |ys| == 0 then false
    else if xs[0] == ys[0] then IsSubsequence(xs[1..], ys[1..])
    else IsSubsequence(xs, ys[1..])
  }

  /** The position of the note `notes.find(n => n.id === id)` returns:
      the first one with that id, or none. */
  function FindIndex(notes: seq<Note>, id: string): (r: Option<nat>)
    ensures r.None? <==> !HasId(notes, id)
    ensures r.Some? ==> r.value < |notes| && notes[r.value].id == id
    ensures r.Some? ==> forall i :: 0 <= i < r.value ==> notes[i].id != id
  {
    if |notes| == 0 then None
    else if notes[0].id == id then Some(0)
    else
      match FindIndex(notes[1..], id)
      case None =>
        assert forall i :: 1 <= i < |notes| ==> notes[i] == notes[1..][i - 1];
        None
      case Some(k) => Some(k + 1)
  }

  /** `notes.filter(n => n.id !== id)`: every note with the id is gone,
      every other note is kept, in its order. */
  function RemoveId(notes: seq<Note>, id: string): (r: seq<Note>)
    ensures forall n :: n in r <==> n in notes && n.id != id
    ensures !HasId(r, id)
    ensures |r| <= |notes|
    ensures IsSubsequence(r, notes)
  {
    if |notes| == 0 then []
    else if notes[0].id == id then RemoveId(notes[1..], id)
    else [notes[0]] + RemoveId(notes[1..], id)
  }

  /** Each note with another id is kept as often as it is stored; notes with
      the id are all gone. */
  lemma {:induction false} RemoveIdCounts(notes: seq<Note>, id: string)
    ensures forall n :: multiset(RemoveId(notes, id))[n] == if n.id != id then multiset(notes)[n] else 0
  {
    if |notes| > 0 {
      RemoveIdCounts(notes[1..], id);
      assert notes == [notes[0]] + notes[1..];
    }
  }

  /** A store whose ids were unique keeps them unique once an id is removed. */
  lemma {:induction false} RemoveIdKeepsUnique(notes: seq<Note>, id: string)
    requires UniqueIds(notes)
    ensures UniqueIds(RemoveId(notes, id))
  {
    if |notes| > 0 {
      var rest := RemoveId(notes[1..], id);
      RemoveIdKeepsUnique(notes[1..], id);
      if notes[0].id != id {
        forall j | 0 <= j < |rest|
          ensures notes[0].id != rest[j].id
        {
          assert rest[j] in notes[1..];
          var k :| 0 <= k < |notes[1..]| && notes[1..][k] == rest[j];
          assert notes[k + 1] == rest[j];
        }
      }
    }
  }

  /** `notes.length ? notes[0].id : null`: the note that becomes active when
      the active one is deleted. */
  function FirstId(notes: seq<Note>): (r: Option<string>)
    ensures r.None? <==> |notes| == 0
    ensures r.Some? ==> HasId(notes, r.value) && FindIndex(notes, r.value) == Some(0)
  {
    if |notes| == 0 then None else Some(notes[0].id)
  }

  /** The active id names a note of the store, or there is no active note. */
  predicate Resolves(notes: seq<Note>, activeId: Option<string>)
  {
    activeId.None? || HasId(notes, activeId.value)
  }
}
