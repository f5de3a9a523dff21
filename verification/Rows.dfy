/** Printing on one row of the terminal: a text that fits the row stays on it, stands in its
    columns, and leaves the rest alone. */
module Rows {
  import opened Utf8
  import opened Graphemes
  import opened Terminal

  /** On a row, character `k` of a text that starts in column `p` stands in its column. */
  predicate StandsAt(t: Tables, ink: map<(int, nat), Ink>, prompt: bool, row: int, w: seq<CodePoint>, k: nat, p: nat)
    requires k < |w|
  {
    var key := (row, p + Columns(t, w[..k]));
    key in ink && ink[key] == Mark(prompt, w[k])
  }

  predicate TakenBy(t: Tables, w: seq<CodePoint>, p: nat, c: nat) {
    exists k: nat :: k < |w| && Width(t, w[k]) > 0 && c == p + Columns(t, w[..k])
  }

  /** There is room on the terminal's row for a text of this width. */
  predicate Room(t: Tables, term: Term, cs: seq<CodePoint>, cols: nat) {
    Columns(t, cs) == 0 || (!term.waiting && term.col < cols && term.col + Columns(t, cs) <= cols)
  }

  /** Printing a text that fits the row stays on it. */
  lemma {:induction false} PutOnRow(t: Tables, term: Term, prompt: bool, values: seq<nat>, cs: seq<CodePoint>,
      cols: nat)
    requires Room(t, term, cs, cols)
    requires |values| == |cs| && forall i :: 0 <= i < |cs| ==> values[i] == cs[i]
    ensures var after := Put(t, term, prompt, values, cols);
            && after.row == term.row
            && (Columns(t, cs) == 0 ==> after == term)
            && (Columns(t, cs) > 0 ==>
                  if term.col + Columns(t, cs) < cols then !after.waiting && after.col == term.col + Columns(t, cs)
                  else after.waiting && after.col == cols - 1)
    decreases |cs|
  {
    if cs != [] {
      PutOnRow(t, PutOne(term, Mark(prompt, cs[0]), Width(t, cs[0]), cols), prompt, values[1..], cs[1..], cols);
    }
  }

  /** Other rows and earlier columns are as they were. */
  ghost predicate Untouched(was: map<(int, nat), Ink>, ink: map<(int, nat), Ink>, row: int, col: nat) {
    forall k :: (k in was || k in ink) && (k.0 != row || k.1 < col) ==> k in was && k in ink && ink[k] == was[k]
  }

  /** It changes nothing before it or on other rows. */
  lemma {:induction false} PutRowKeeps(t: Tables, term: Term, prompt: bool, values: seq<nat>, cs: seq<CodePoint>,
      cols: nat)
    requires Room(t, term, cs, cols)
    requires |values| == |cs| && forall i :: 0 <= i < |cs| ==> values[i] == cs[i]
    ensures Untouched(term.ink, Put(t, term, prompt, values, cols).ink, term.row, term.col)
    decreases |cs|
  {
    if cs != [] {
      var next := PutOne(term, Mark(prompt, cs[0]), Width(t, cs[0]), cols);
      RoomBehind(t, term, prompt, cs, cols);
      PutOnRow(t, next, prompt, values[1..], cs[1..], cols);
      PutRowKeeps(t, next, prompt, values[1..], cs[1..], cols);
    }
  }

  /** It puts every character into its column. */
  lemma {:induction false} PutRowStands(t: Tables, term: Term, prompt: bool, values: seq<nat>, cs: seq<CodePoint>,
      cols: nat)
    requires Room(t, term, cs, cols)
    requires |values| == |cs| && forall i :: 0 <= i < |cs| ==> values[i] == cs[i]
    ensures var after := Put(t, term, prompt, values, cols).ink;
            forall k: nat :: k < |cs| && Width(t, cs[k]) > 0 ==> StandsAt(t, after, prompt, term.row, cs, k, term.col)
    decreases |cs|
  {
    hide Put, PutOne, Columns, StandsAt, Room, Untouched, Width;
    if cs != [] {
      var rest := cs[1..];
      var next := PutOne(term, Mark(prompt, cs[0]), Width(t, cs[0]), cols);
      var after := Put(t, next, prompt, values[1..], cols).ink;
      PutStep(t, term, prompt, values, cols);
      RoomBehind(t, term, prompt, cs, cols);
      PutRowStands(t, next, prompt, values[1..], rest, cols);
      FirstStands(t, term, prompt, values, cs, cols);
      forall k: nat | 0 < k < |cs| && Width(t, cs[k]) > 0
        ensures StandsAt(t, after, prompt, term.row, cs, k, term.col)
      {
        assert StandsAt(t, after, prompt, next.row, rest, k - 1, next.col) && rest[k - 1] == cs[k];
        SomeWidth(t, rest, k - 1);
        StandsLater(t, after, prompt, term.row, cs, k, term.col);
      }
    }
  }

  lemma PutStep(t: Tables, term: Term, prompt: bool, values: seq<nat>, cols: nat)
    requires values != []
    ensures Put(t, term, prompt, values, cols)
            == Put(t, PutOne(term, Mark(prompt, values[0]), Width(t, values[0]), cols), prompt, values[1..], cols)
  {
  }

  /** The first character stays where it is put. */
  lemma FirstStands(t: Tables, term: Term, prompt: bool, values: seq<nat>, cs: seq<CodePoint>, cols: nat)
    requires Room(t, term, cs, cols) && cs != []
    requires |values| == |cs| && forall i :: 0 <= i < |cs| ==> values[i] == cs[i]
    ensures Width(t, cs[0]) > 0 ==>
              StandsAt(t, Put(t, term, prompt, values, cols).ink, prompt, term.row, cs, 0, term.col)
  {
    hide Put, PutOne, Columns, StandsAt, Room, Width;
    var next := PutOne(term, Mark(prompt, cs[0]), Width(t, cs[0]), cols);
    var after := Put(t, next, prompt, values[1..], cols).ink;
    PutStep(t, term, prompt, values, cols);
    RoomBehind(t, term, prompt, cs, cols);
    PutOnRow(t, next, prompt, values[1..], cs[1..], cols);
    PutRowKeeps(t, next, prompt, values[1..], cs[1..], cols);
    if Width(t, cs[0]) > 0 {
      StandsFirst(t, after, prompt, term.row, cs, term.col);
    }
  }

  /** It leaves nothing else between its ends. */
  lemma {:induction false} PutRowTaken(t: Tables, term: Term, prompt: bool, values: seq<nat>, cs: seq<CodePoint>,
      cols: nat, c: nat)
    requires Room(t, term, cs, cols)
    requires |values| == |cs| && forall i :: 0 <= i < |cs| ==> values[i] == cs[i]
    requires (term.row, c) in Put(t, term, prompt, values, cols).ink && term.col <= c < term.col + Columns(t, cs)
    ensures TakenBy(t, cs, term.col, c)
    decreases |cs|
  {
    hide Put, PutOne, Columns, TakenBy, Room, Width;
    SomeColumns(t, cs);
    var w, rest := Width(t, cs[0]), cs[1..];
    var next := PutOne(term, Mark(prompt, cs[0]), w, cols);
    PutStep(t, term, prompt, values, cols);
    RoomBehind(t, term, prompt, cs, cols);
    PutOnRow(t, next, prompt, values[1..], rest, cols);
    PutRowKeeps(t, next, prompt, values[1..], rest, cols);
    WidthIs(t, cs[0]);
    if w > 0 && c == term.col {
      TakenFirst(t, cs, term.col);
    } else {
      assert !(w == 2 && c == term.col + 1);
      PutRowTaken(t, next, prompt, values[1..], rest, cols, c);
      TakenLater(t, cs, term.col, c);
    }
  }

  lemma WidthIs(t: Tables, c: nat)
    ensures Width(t, c) <= 2
  {
  }

  /** Behind the first character there is room for the rest, in the column after it unless
      nothing more is to come. */
  lemma RoomBehind(t: Tables, term: Term, prompt: bool, cs: seq<CodePoint>, cols: nat)
    requires cs != [] && Room(t, term, cs, cols)
    ensures var w := Width(t, cs[0]);
            var next := PutOne(term, Mark(prompt, cs[0]), w, cols);
            && Room(t, next, cs[1..], cols)
            && Columns(t, cs) == w + Columns(t, cs[1..])
            && next.row == term.row && (w == 0 ==> next == term)
            && (Columns(t, cs[1..]) > 0 ==> next.col == term.col + w)
            && (w > 0 ==> (term.row, term.col) in next.ink && next.ink[(term.row, term.col)] == Mark(prompt, cs[0]))
            && (w > 0 ==> next.col >= term.col && (next.col > term.col || Columns(t, cs[1..]) == 0))
            && Untouched(term.ink, next.ink, term.row, term.col)
            && (w == 2 ==> (term.row, term.col + 1) !in next.ink)
  {
    WidthIs(t, cs[0]);
    if Width(t, cs[0]) > 0 { InkBehind(term, Mark(prompt, cs[0]), Width(t, cs[0]), cols); }
    hide Untouched;
    SameInk(term.ink, term.row, term.col);
  }

  lemma SameInk(ink: map<(int, nat), Ink>, row: int, col: nat)
    ensures Untouched(ink, ink, row, col)
  {
  }

  /** What one character changes on its row. */
  lemma InkBehind(term: Term, x: Ink, w: nat, cols: nat)
    requires 0 < w <= 2 && !term.waiting && term.col + w <= cols
    ensures var next := PutOne(term, x, w, cols);
            && (term.row, term.col) in next.ink && next.ink[(term.row, term.col)] == x
            && Untouched(term.ink, next.ink, term.row, term.col)
            && (w == 2 ==> (term.row, term.col + 1) !in next.ink)
  {
  }

  lemma SomeWidth(t: Tables, cs: seq<CodePoint>, k: nat)
    requires k < |cs| && Width(t, cs[k]) > 0
    ensures Columns(t, cs) > 0
  {
    ColumnsOfMarks(t, cs);
    assert cs[k] !in t.combining;
  }

  lemma StandsFirst(t: Tables, ink: map<(int, nat), Ink>, prompt: bool, row: int, cs: seq<CodePoint>, p: nat)
    requires cs != [] && (row, p) in ink && ink[(row, p)] == Mark(prompt, cs[0])
    ensures StandsAt(t, ink, prompt, row, cs, 0, p)
  {
  }

  lemma StandsLater(t: Tables, ink: map<(int, nat), Ink>, prompt: bool, row: int, cs: seq<CodePoint>, k: nat, p: nat)
    requires 0 < k < |cs| && StandsAt(t, ink, prompt, row, cs[1..], k - 1, p + Width(t, cs[0]))
    ensures StandsAt(t, ink, prompt, row, cs, k, p)
  {
    ColumnsOfNext(t, cs, k);
  }

  lemma TakenFirst(t: Tables, cs: seq<CodePoint>, p: nat)
    requires cs != [] && Width(t, cs[0]) > 0
    ensures TakenBy(t, cs, p, p)
  {
    assert p == p + Columns(t, cs[..0]);
  }

  lemma TakenLater(t: Tables, cs: seq<CodePoint>, p: nat, c: nat)
    requires cs != [] && TakenBy(t, cs[1..], p + Width(t, cs[0]), c)
    ensures TakenBy(t, cs, p, c)
  {
    var k: nat :| k < |cs[1..]| && Width(t, cs[1..][k]) > 0 && c == p + Width(t, cs[0]) + Columns(t, cs[1..][..k]);
    ColumnsOfNext(t, cs, k + 1);
    assert cs[k + 1] == cs[1..][k] && c == p + Columns(t, cs[..k + 1]);
  }

  lemma ColumnsOfNext(t: Tables, cs: seq<CodePoint>, k: nat)
    requires 0 < k <= |cs|
    ensures Columns(t, cs[..k]) == Width(t, cs[0]) + Columns(t, cs[1..][..k - 1])
  {
    assert cs[..k][1..] == cs[1..][..k - 1];
  }

  lemma ColumnsBefore(t: Tables, cs: seq<CodePoint>, k: nat)
    requires k < |cs|
    ensures Columns(t, cs[..k]) + Width(t, cs[k]) <= Columns(t, cs)
  {
    assert cs == cs[..k] + cs[k..];
    ColumnsAdd(t, cs[..k], cs[k..]);
  }

  lemma LineErased(t: Tables, term: Term, cols: nat)
    ensures var erased := Do(t, term, EraseLine, cols);
            && erased.row == term.row && erased.col == term.col
            && Untouched(term.ink, erased.ink, term.row, term.col)
            && forall c: nat :: (term.row, c) in erased.ink ==> c < term.col && (term.row, c) in term.ink
  {
  }

  lemma StandsStill(t: Tables, was: map<(int, nat), Ink>, ink: map<(int, nat), Ink>, col: nat,
      prompt: bool, w: seq<CodePoint>, k: nat, p: nat)
    requires k < |w| && StandsAt(t, was, prompt, 0, w, k, p)
    requires Untouched(was, ink, 0, col) && p + Columns(t, w[..k]) < col
    ensures StandsAt(t, ink, prompt, 0, w, k, p)
  {
    hide Columns;
  }

  lemma SomeColumns(t: Tables, cs: seq<CodePoint>)
    ensures Columns(t, cs) > 0 ==> cs != []
  {
  }
}
