/** `renderList` without the DOM: the search filter, the pinned-first,
    newest-first sort, and the text each row of the list shows. */
module Presenter {
  import opened Notes
  import opened Text

  /** The filter callback: the lower-cased query `q` occurs in the
      lower-cased title or in the lower-cased body. */
  function Matches(n: Note, q: string): (b: bool)
    ensures b <==> (exists i: nat :: OccursAt(Lower(n.title), q, i)) || (exists i: nat :: OccursAt(Lower(n.body), q, i))
    ensures q == "" ==> b
  {
    IncludesLowered(n.title, q);
    IncludesLowered(n.body, q);
    assert q == "" ==> OccursAt(Lower(n.title), q, 0);
    Includes(Lower(n.title), q) || Includes(Lower(n.body), q)
  }

  /** `includes` on a lower-cased field, stated where the lowered text is built. */
  lemma IncludesLowered(field: string, q: string)
    ensures Includes(Lower(field), q) <==> exists i: nat :: OccursAt(Lower(field), q, i)
  {
  }

  /** `notes.filter(...)` with the callback above. */
  function Filter(notes: seq<Note>, q: string): (r: seq<Note>)
    ensures forall n :: n in r <==> n in notes && Matches(n, q)
    ensures IsSubsequence(r, notes)
  {
    if |notes| == 0 then []
    else if Matches(notes[0], q) then [notes[0]] + Filter(notes[1..], q)
    else Filter(notes[1..], q)
  }

  /** Each matching note is kept as often as it is stored; the others are all gone. */
  lemma {:induction false} FilterCounts(notes: seq<Note>, q: string)
    ensures forall n :: multiset(Filter(notes, q))[n] == if Matches(n, q) then multiset(notes)[n] else 0
  {
    if |notes| > 0 {
      FilterCounts(notes[1..], q);
      assert notes == [notes[0]] + notes[1..];
    }
  }

  /** The empty query keeps every note, in its order. */
  lemma {:induction false} FilterEmptyQuery(notes: seq<Note>)
    ensures Filter(notes, "") == notes
  {
    if |notes| > 0 {
      assert OccursAt(Lower(notes[0].title), "", 0);
      FilterEmptyQuery(notes[1..]);
      assert notes == [notes[0]] + notes[1..];
    }
  }

  /** A note whose title or body holds the query verbatim is kept, whatever
      the case of either: matching is insensitive to case. */
  lemma FilterKeepsVerbatimMatch(notes: seq<Note>, n: Note, query: string)
    requires n in notes
    requires Includes(n.title, query) || Includes(n.body, query)
    ensures n in Filter(notes, Lower(query))
  {
    if Includes(n.title, query) {
      var i: nat :| OccursAt(n.title, query, i);
      LowerOccurs(n.title, query, i);
    } else {
      var i: nat :| OccursAt(n.body, query, i);
      LowerOccurs(n.body, query, i);
    }
  }

  /** The comparator handed to `sort`: negative puts `a` first. It lets `a`
      stay above `b` exactly when `Ordered(a, b)`, and it puts `b` first only
      when `b` may precede `a`. */
  function Compare(a: Note, b: Note): (c: int)
    ensures c <= 0 <==> Ordered(a, b)
    ensures c > 0 ==> Ordered(b, a)
  {
    if a.pinned && !b.pinned then -1
    else if !a.pinned && b.pinned then 1
    else b.updatedAt - a.updatedAt
  }

  /** `a` may be listed above `b`: a pinned note is never below an unpinned
      one, and among notes of the same status the newer one is higher. */
  predicate Ordered(a: Note, b: Note)
  {
    (b.pinned ==> a.pinned) && (a.pinned == b.pinned ==> a.updatedAt >= b.updatedAt)
  }

  predicate Sorted(s: seq<Note>)
  {
    forall i, j :: 0 <= i < j < |s| ==> Ordered(s[i], s[j])
  }

  lemma OrderedTransitive(a: Note, b: Note, c: Note)
    requires Ordered(a, b) && Ordered(b, c)
    ensures Ordered(a, c)
  {
  }

  /** A note may go on top of a sorted list whose head it may precede. */
  lemma {:induction false} SortedCons(y: Note, s: seq<Note>)
    requires Sorted(s)
    requires forall j :: 0 <= j < |s| ==> Ordered(y, s[j])
    ensures Sorted([y] + s)
  {
    forall i, j | 0 <= i < j < |[y] + s|
      ensures Ordered(([y] + s)[i], ([y] + s)[j])
    {
      assert ([y] + s)[j] == s[j - 1];
      if i > 0 {
        assert ([y] + s)[i] == s[i - 1];
      }
    }
  }

  /** Inserts `x` above the first note it may precede. */
  function Insert(x: Note, s: seq<Note>): (r: seq<Note>)
    ensures multiset(r) == multiset(s) + multiset{x}
    ensures Sorted(s) ==> Sorted(r)
  {
    if s == [] then [x]
    else if Compare(x, s[0]) <= 0 then
      assert Sorted(s) ==> Sorted([x] + s) by {
        if Sorted(s) {
          forall j | 0 <= j < |s|
            ensures Ordered(x, s[j])
          {
            if j > 0 {
              OrderedTransitive(x, s[0], s[j]);
            }
          }
          SortedCons(x, s);
        }
      }
      [x] + s
    else
      var rest := Insert(x, s[1..]);
      assert s == [s[0]] + s[1..];
      assert Sorted(s) ==> Sorted([s[0]] + rest) by {
        if Sorted(s) {
          forall j | 0 <= j < |rest|
            ensures Ordered(s[0], rest[j])
          {
            assert rest[j] in multiset(rest);
            if rest[j] != x {
              assert rest[j] in multiset(s[1..]);
              var k :| 0 <= k < |s[1..]| && s[1..][k] == rest[j];
              assert s[k + 1] == rest[j];
            }
          }
          SortedCons(s[0], rest);
        }
      }
      [s[0]] + rest
  }

  /** `Array.prototype.sort` with `Compare`, as an insertion sort that keeps
      notes comparing equal in their original order. */
  function SortNotes(xs: seq<Note>): (r: seq<Note>)
    ensures Sorted(r)
    ensures multiset(r) == multiset(xs)
  {
    if xs == [] then []
    else
      assert xs == [xs[0]] + xs[1..];
      Insert(xs[0], SortNotes(xs[1..]))
  }

  /** The notes the list shows, in the order it shows them: exactly the
      matching notes, each as often as it is stored, pinned first and then
      newest first. */
  function View(notes: seq<Note>, query: string): (v: seq<Note>)
    ensures Sorted(v)
    ensures multiset(v) == multiset(Filter(notes, Lower(query)))
    ensures forall n :: n in v <==> n in notes && Matches(n, Lower(query))
  {
    var v := SortNotes(Filter(notes, Lower(query)));
    assert forall n :: n in v <==> n in multiset(v);
    v
  }

  /** `body.slice(0, 60).replace(/\n/g, ' ')`. */
  function Preview(body: string): (p: string)
    ensures |p| == if |body| < 60 then |body| else 60
    ensures forall i :: 0 <= i < |p| ==> p[i] == if body[i] == '\n' then ' ' else body[i]
    ensures '\n' !in p
  {
    var head := if |body| < 60 then body else body[..60];
    ReplaceAllByChar(head, '\n', ' ');
    ReplaceAll(head, '\n', " ")
  }

  /** `escapeHtml(title) || 'Untitled'`. */
  function RowTitle(title: string): (r: string)
    ensures title == "" ==> r == "Untitled"
    ensures title != "" ==> UnescapeHtml(r) == title
  {
    var e := EscapeHtml(title);
    EscapeEmpty(title);
    EscapeRoundTrip(title);
    if e == "" then "Untitled" else e
  }

  /** What one list item (`li`) carries. */
  datatype Item = Item(id: string, title: string, preview: string, pinned: bool, pinLabel: string, active: bool)

  function RowOf(n: Note, activeId: Option<string>): (r: Item)
    ensures r.id == n.id && r.pinned == n.pinned
    ensures n.title == "" ==> r.title == "Untitled"
    ensures n.title != "" ==> UnescapeHtml(r.title) == n.title
    ensures UnescapeHtml(r.preview) == Preview(n.body)
    ensures r.pinLabel == if n.pinned then "Unpin" else "Pin"
    ensures r.active <==> activeId == Some(n.id)
  {
    EscapeRoundTrip(Preview(n.body));
    Item(n.id, RowTitle(n.title), EscapeHtml(Preview(n.body)),
        n.pinned, if n.pinned then "Unpin" else "Pin", activeId == Some(n.id))
  }

  /** One row per note of the view, in the view's order. */
  function Rows(v: seq<Note>, activeId: Option<string>): (rows: seq<Item>)
    ensures |rows| == |v|
    ensures forall i :: 0 <= i < |v| ==> rows[i] == RowOf(v[i], activeId)
    ensures ShowsView(v, rows)
  {
    seq(|v|, i requires 0 <= i < |v| => RowOf(v[i], activeId))
  }

  /** The rows `renderList` builds: one per matching note, pinned rows above
      unpinned ones, and a row for every matching note; row by row they are
      the rows of the matching notes in sorted order, so within a pin group
      they run newest first. */
  function RenderList(notes: seq<Note>, query: string, activeId: Option<string>): (rows: seq<Item>)
    ensures |rows| == |Filter(notes, Lower(query))|
    ensures forall i, j :: 0 <= i < j < |rows| && rows[j].pinned ==> rows[i].pinned
    ensures forall i :: 0 <= i < |rows| ==> exists n :: n in notes && Matches(n, Lower(query)) && n.id == rows[i].id
    ensures forall n :: n in notes && Matches(n, Lower(query)) ==> exists i :: 0 <= i < |rows| && rows[i].id == n.id
    ensures exists v :: Sorted(v) && multiset(v) == multiset(Filter(notes, Lower(query))) && rows == Rows(v, activeId)
  {
    var rows := Rows(View(notes, query), activeId);
    RowsOfView(notes, query, activeId, rows);
    rows
  }

  /** What the rows of the view show, gathered from the lemmas below. */
  lemma RowsOfView(notes: seq<Note>, query: string, activeId: Option<string>, rows: seq<Item>)
    requires rows == Rows(View(notes, query), activeId)
    ensures |rows| == |Filter(notes, Lower(query))|
    ensures forall i, j :: 0 <= i < j < |rows| && rows[j].pinned ==> rows[i].pinned
    ensures forall i :: 0 <= i < |rows| ==> exists n :: n in notes && Matches(n, Lower(query)) && n.id == rows[i].id
    ensures forall n :: n in notes && Matches(n, Lower(query)) ==> exists i :: 0 <= i < |rows| && rows[i].id == n.id
    ensures exists v :: Sorted(v) && multiset(v) == multiset(Filter(notes, Lower(query))) && rows == Rows(v, activeId)
  {
    var v := View(notes, query);
    RowsCount(notes, query, v, rows);
    RowsPinnedFirst(notes, query, v, rows);
    RowsMatch(notes, query, v, rows);
    RowsComplete(notes, query, v, rows);
  }

  /** The hypothesis shared by the four lemmas below: `rows` shows the view. */
  predicate ShowsView(v: seq<Note>, rows: seq<Item>)
  {
    |rows| == |v| && forall i :: 0 <= i < |v| ==> rows[i].id == v[i].id && rows[i].pinned == v[i].pinned
  }

  lemma RowsCount(notes: seq<Note>, query: string, v: seq<Note>, rows: seq<Item>)
    requires v == View(notes, query) && ShowsView(v, rows)
    ensures |rows| == |Filter(notes, Lower(query))|
  {
    var f := Filter(notes, Lower(query));
    assert multiset(v) == multiset(f);
    assert |multiset(v)| == |v| && |multiset(f)| == |f|;
  }

  lemma RowsPinnedFirst(notes: seq<Note>, query: string, v: seq<Note>, rows: seq<Item>)
    requires v == View(notes, query) && ShowsView(v, rows)
    ensures forall i, j :: 0 <= i < j < |rows| && rows[j].pinned ==> rows[i].pinned
  {
    forall i, j | 0 <= i < j < |rows| && rows[j].pinned
      ensures rows[i].pinned
    {
      assert Ordered(v[i], v[j]);
    }
  }

  lemma RowsMatch(notes: seq<Note>, query: string, v: seq<Note>, rows: seq<Item>)
    requires v == View(notes, query) && ShowsView(v, rows)
    ensures forall i :: 0 <= i < |rows| ==> exists n :: n in notes && Matches(n, Lower(query)) && n.id == rows[i].id
  {
    forall i | 0 <= i < |rows|
      ensures exists n :: n in notes && Matches(n, Lower(query)) && n.id == rows[i].id
    {
      assert v[i] in v;
      assert v[i] in notes && Matches(v[i], Lower(query));
    }
  }

  lemma RowsComplete(notes: seq<Note>, query: string, v: seq<Note>, rows: seq<Item>)
    requires v == View(notes, query) && ShowsView(v, rows)
    ensures forall n :: n in notes && Matches(n, Lower(query)) ==> exists i :: 0 <= i < |rows| && rows[i].id == n.id
  {
    forall n | n in notes && Matches(n, Lower(query))
      ensures exists i :: 0 <= i < |rows| && rows[i].id == n.id
    {
      assert n in v;
      var i :| 0 <= i < |v| && v[i] == n;
      assert rows[i].id == n.id;
    }
  }

  /** With an empty search box every stored note gets a row. */
  lemma EmptyQueryShowsAll(notes: seq<Note>, activeId: Option<string>)
    ensures |RenderList(notes, "", activeId)| == |notes|
  {
    FilterEmptyQuery(notes);
  }
}
