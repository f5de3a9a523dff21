/** The terminal both refreshes talk to: where its cursor goes, and what stands in its cells. */
module Terminal {
  import opened Bits
  import opened Utf8
  import opened Graphemes
  import opened MultiLine

  /** What a refresh sends. */
  datatype Op = Down(n: nat) | Up(n: nat) | Return | EraseLine | NewLine | Right(n: nat)
    | Prompt(bytes: seq<Byte>) | Print(bytes: seq<Byte>)

  datatype Ink = OfPrompt(c: nat) | OfText(c: nat)

  function Mark(prompt: bool, c: nat): Ink {
    if prompt then OfPrompt(c) else OfText(c)
  }

  /** Rows count from the first row of the edited text. A character that fills the last column
      leaves the cursor on it, waiting to wrap. `ink` is what the cells hold; a wide character
      stands in its first cell and blanks its second. */
  datatype Term = Term(row: int, col: nat, waiting: bool, ink: map<(int, nat), Ink>)

  /** The values in an encoded text. */
  function DecodeAll(s: seq<Byte>): seq<nat> {
    var d := CharToCodePoint(s);
    if d.0 == 0 || d.0 > |s| then [] else [d.1] + DecodeAll(s[d.0..])
  }

  lemma {:induction false} DecodeAllEncoded(cs: seq<CodePoint>)
    ensures |DecodeAll(Encode(cs))| == |cs|
    ensures forall i :: 0 <= i < |cs| ==> DecodeAll(Encode(cs))[i] == cs[i]
  {
    hide CharToCodePoint, EncodeOne;
    if cs == [] {
      assert CharToCodePoint([]).0 == 0 by { DecodeNothing(); }
    } else {
      DecodeEncoded(cs[0], Encode(cs[1..]));
      DecodeAllEncoded(cs[1..]);
      assert Encode(cs)[|EncodeOne(cs[0])|..] == Encode(cs[1..]);
    }
  }

  /** The values of the characters in a prompt: terminal escapes, which colour it, put nothing
      into a cell. */
  function Glyphs(s: seq<Byte>): seq<nat> {
    var n, d := AnsiEscapeLen(s), CharToCodePoint(s);
    if n > 0 then Glyphs(s[n..])
    else if d.0 == 0 || d.0 > |s| then []
    else [d.1] + Glyphs(s[d.0..])
  }

  /** A terminal shows the characters of a prompt, in order, and nothing else. */
  lemma {:induction false} GlyphsOfPrompt(ps: seq<Piece>)
    requires GoodPieces(ps)
    ensures |Glyphs(Render(ps))| == |Letters(ps)|
    ensures forall i :: 0 <= i < |Letters(ps)| ==> Glyphs(Render(ps))[i] == Letters(ps)[i]
  {
    hide CharToCodePoint, AnsiEscapeLen, GoodPieces, Render, Letters, Bytes, Glyphs;
    PieceStep(ps);
    GlyphsStep(Render(ps));
    if ps == [] {
      DecodeNothing();
    } else {
      PieceScan(ps[0], Render(ps[1..]));
      GlyphsOfPrompt(ps[1..]);
      assert Render(ps)[|Bytes(ps[0])|..] == Render(ps[1..]);
    }
  }

  lemma GlyphsStep(s: seq<Byte>)
    ensures var n, d := AnsiEscapeLen(s), CharToCodePoint(s);
            Glyphs(s) == if n > 0 then Glyphs(s[n..])
                         else if d.0 == 0 || d.0 > |s| then [] else [d.1] + Glyphs(s[d.0..])
  {
  }

  lemma DecodeNothing()
    ensures CharToCodePoint([]) == (0, 0) && AnsiEscapeLen([]) == 0
  {
  }

  /** A waiting cursor, or a wide character that does not fit, goes to the next row. */
  function Wrapped(term: Term, w: nat, cols: nat): Term {
    if term.waiting || term.col + w > cols then term.(row := term.row + 1, col := 0, waiting := false) else term
  }

  function PutOne(term: Term, x: Ink, w: nat, cols: nat): Term {
    if w == 0 then term
    else
      var at := Wrapped(term, w, cols);
      var left := if w == 2 then at.ink - {(at.row, at.col + 1)} else at.ink;
      var inked := at.(ink := left[(at.row, at.col) := x]);
      if at.col + w >= cols then inked.(col := if cols == 0 then 0 else cols - 1, waiting := true)
      else inked.(col := at.col + w)
  }

  function Put(t: Tables, term: Term, prompt: bool, values: seq<nat>, cols: nat): Term
    decreases |values|
  {
    if values == [] then term
    else Put(t, PutOne(term, Mark(prompt, values[0]), Width(t, values[0]), cols), prompt, values[1..], cols)
  }

  /** Moving by a count of 0 moves by 1. */
  function Count(n: nat): nat {
    if n == 0 then 1 else n
  }

  function Clip(col: nat, cols: nat): nat {
    if col < cols then col else if cols == 0 then 0 else cols - 1
  }

  /** One operation. */
  function Do(t: Tables, term: Term, op: Op, cols: nat): Term {
    match op
    case Down(n) => term.(row := term.row + Count(n), waiting := false)
    case Up(n) => term.(row := term.row - Count(n), waiting := false)
    case Return => term.(col := 0, waiting := false)
    case EraseLine =>
      term.(ink := map k | k in term.ink && (k.0 != term.row || k.1 < term.col) :: term.ink[k])
    case NewLine => term.(row := term.row + 1, waiting := false)
    case Right(n) => term.(col := Clip(term.col + Count(n), cols), waiting := false)
    case Prompt(bytes) => Put(t, term, true, Glyphs(bytes), cols)
    case Print(bytes) => Put(t, term, false, DecodeAll(bytes), cols)
  }

  function DoAll(t: Tables, term: Term, ops: seq<Op>, cols: nat): Term {
    if ops == [] then term
    else Do(t, DoAll(t, term, ops[..|ops| - 1], cols), ops[|ops| - 1], cols)
  }

  lemma NoOps(t: Tables, term: Term, cols: nat)
    ensures DoAll(t, term, [], cols) == term
  {
  }

  lemma DoLast(t: Tables, term: Term, ops: seq<Op>, op: Op, cols: nat)
    ensures DoAll(t, term, ops + [op], cols) == Do(t, DoAll(t, term, ops, cols), op, cols)
  {
    assert (ops + [op])[..|ops|] == ops;
  }

  // ---------- printing follows the layout

  /** The next free cell of the terminal. */
  predicate At(term: Term, c: Cell, cols: nat) {
    if term.waiting then c == Cell(c.row, 0) && term.row + 1 == c.row && term.col == cols - 1
    else term.row == c.row && term.col == c.col && c.col < cols
  }

  /** Printing a text moves the terminal as the layout says. */
  lemma {:induction false} PutFollowsCells(t: Tables, term: Term, prompt: bool, values: seq<nat>,
      cs: seq<CodePoint>, cols: nat, at: Cell)
    requires cols >= 2 && At(term, at, cols) && at.col < cols
    requires |values| == |cs| && forall i :: 0 <= i < |cs| ==> values[i] == cs[i]
    ensures var after := Put(t, term, prompt, values, cols);
            && At(after, CellOf(t, cs, |cs|, cols, at), cols)
            && (Columns(t, cs) == 0 ==> after == term)
            && (Columns(t, cs) > 0 ==> (after.waiting <==> CellOf(t, cs, |cs|, cols, at).col == 0))
    decreases |cs|
  {
    if cs != [] {
      var w := Width(t, cs[0]);
      var next := PutOne(term, Mark(prompt, cs[0]), w, cols);
      PutFollowsCells(t, next, prompt, values[1..], cs[1..], cols, Behind(at, w, cols));
    }
  }

  function Key(c: Cell): (int, nat) {
    (c.row, c.col)
  }

  /** The cell lies before `at`, reading row by row. */
  predicate Before(k: (int, nat), at: Cell) {
    k.0 < at.row || (k.0 == at.row && k.1 < at.col)
  }

  /** Character `k` of a text that starts at `at` stands in the cell of the layout. */
  predicate Stands(t: Tables, ink: map<(int, nat), Ink>, prompt: bool, cs: seq<CodePoint>, k: nat, cols: nat, at: Cell)
    requires k < |cs|
  {
    var key := Key(CellOf(t, cs, k, cols, at));
    key in ink && ink[key] == Mark(prompt, cs[k])
  }

  /** The cell is that of a character with width. */
  predicate Covered(t: Tables, key: (int, nat), cs: seq<CodePoint>, cols: nat, at: Cell) {
    exists k: nat :: k < |cs| && Width(t, cs[k]) > 0 && key == Key(CellOf(t, cs, k, cols, at))
  }

  lemma CoveredLater(t: Tables, key: (int, nat), cs: seq<CodePoint>, cols: nat, at: Cell)
    requires cs != [] && Covered(t, key, cs[1..], cols, Behind(at, Width(t, cs[0]), cols))
    ensures Covered(t, key, cs, cols, at)
  {
    var k: nat :| k < |cs[1..]| && Width(t, cs[1..][k]) > 0
                  && key == Key(CellOf(t, cs[1..], k, cols, Behind(at, Width(t, cs[0]), cols)));
    assert key == Key(CellOf(t, cs, k + 1, cols, at)) && cs[k + 1] == cs[1..][k];
  }

  /** One character changes no cell before the free one, and stands before the next. */
  lemma OneInked(term: Term, x: Ink, w: nat, cols: nat, at: Cell)
    requires cols >= 2 && At(term, at, cols) && at.col < cols && w <= 2
    ensures var next, at' := PutOne(term, x, w, cols), Behind(at, w, cols);
            && At(next, at', cols) && at'.col < cols
            && (forall k :: Before(k, at) ==>
                  Before(k, at') && (k in term.ink ==> k in next.ink && next.ink[k] == term.ink[k]))
            && (w > 0 ==> var here := Key(Placed(at, w, cols));
                  Before(here, at') && here in next.ink && next.ink[here] == x)
            && forall k :: k in next.ink ==>
                 (k in term.ink && next.ink[k] == term.ink[k]) || (w > 0 && k == Key(Placed(at, w, cols)))
  {
  }

  /** Printing changes no cell before the free one. */
  lemma {:induction false} PutKeepsBefore(t: Tables, term: Term, prompt: bool, values: seq<nat>,
      cs: seq<CodePoint>, cols: nat, at: Cell)
    requires cols >= 2 && At(term, at, cols) && at.col < cols
    requires |values| == |cs| && forall i :: 0 <= i < |cs| ==> values[i] == cs[i]
    ensures var after := Put(t, term, prompt, values, cols).ink;
            forall k :: k in term.ink && Before(k, at) ==> k in after && after[k] == term.ink[k]
    decreases |cs|
  {
    hide PutOne, Before, At, Behind;
    if cs != [] {
      var w := Width(t, cs[0]);
      OneInked(term, Mark(prompt, cs[0]), w, cols, at);
      var next := PutOne(term, Mark(prompt, cs[0]), w, cols);
      PutKeepsBefore(t, next, prompt, values[1..], cs[1..], cols, Behind(at, w, cols));
    }
  }

  /** Printing puts every character with width into its cell, and changes no other cell. */
  lemma {:induction false} PutInks(t: Tables, term: Term, prompt: bool, values: seq<nat>, cs: seq<CodePoint>,
      cols: nat, at: Cell)
    requires cols >= 2 && At(term, at, cols) && at.col < cols
    requires |values| == |cs| && forall i :: 0 <= i < |cs| ==> values[i] == cs[i]
    ensures var after := Put(t, term, prompt, values, cols).ink;
            && (forall k: nat :: k < |cs| && Width(t, cs[k]) > 0 ==> Stands(t, after, prompt, cs, k, cols, at))
            && forall k :: k in after ==>
                 (k in term.ink && after[k] == term.ink[k]) || Covered(t, k, cs, cols, at)
    decreases |cs|
  {
    hide PutOne, Before, At, Behind, Covered;
    if cs != [] {
      var w := Width(t, cs[0]);
      var next, rest := PutOne(term, Mark(prompt, cs[0]), w, cols), cs[1..];
      var at' := Behind(at, w, cols);
      OneInked(term, Mark(prompt, cs[0]), w, cols, at);
      PutKeepsBefore(t, next, prompt, values[1..], rest, cols, at');
      PutInks(t, next, prompt, values[1..], rest, cols, at');
      var after := Put(t, next, prompt, values[1..], cols).ink;
      forall k: nat | k < |cs| && Width(t, cs[k]) > 0 ensures Stands(t, after, prompt, cs, k, cols, at) {
        if k > 0 { assert Stands(t, after, prompt, rest, k - 1, cols, at'); }
      }
      forall k | k in after ensures (k in term.ink && after[k] == term.ink[k]) || Covered(t, k, cs, cols, at) {
        if Covered(t, k, rest, cols, at') {
          CoveredLater(t, k, cs, cols, at);
        } else if w > 0 && k == Key(Placed(at, w, cols)) {
          CoveredFirst(t, cs, cols, at);
        }
      }
    }
  }

  lemma CoveredFirst(t: Tables, cs: seq<CodePoint>, cols: nat, at: Cell)
    requires cs != [] && Width(t, cs[0]) > 0
    ensures Covered(t, Key(Placed(at, Width(t, cs[0]), cols)), cs, cols, at)
  {
    assert Key(Placed(at, Width(t, cs[0]), cols)) == Key(CellOf(t, cs, 0, cols, at));
  }

  // ---------- the rows a text takes

  /** How many rows the terminal has used when the next free cell is `end`. */
  function RowsTo(end: Cell): nat {
    if end.col == 0 then end.row else end.row + 1
  }

  /** The characters of the prompt, from the top left, and those of the text behind it are on the
      screen, each in its cell, and nothing else. */
  ghost predicate Screenful(t: Tables, ink: map<(int, nat), Ink>, prompt: seq<CodePoint>, cs: seq<CodePoint>,
      cols: nat)
  {
    var top, start := Cell(0, 0), Cell(0, Columns(t, prompt));
    && (forall k: nat :: k < |prompt| && Width(t, prompt[k]) > 0 ==> Stands(t, ink, true, prompt, k, cols, top))
    && (forall k: nat :: k < |cs| && Width(t, cs[k]) > 0 ==> Stands(t, ink, false, cs, k, cols, start))
    && forall key :: key in ink ==> Covered(t, key, prompt, cols, top) || Covered(t, key, cs, cols, start)
  }

  /** A text that ends before the last column stays on its row. */
  lemma {:induction false} StaysOnRow(t: Tables, cs: seq<CodePoint>, cols: nat, at: Cell)
    requires at.col + Columns(t, cs) < cols
    ensures CellOf(t, cs, |cs|, cols, at) == Cell(at.row, at.col + Columns(t, cs))
    decreases |cs|
  {
    if cs != [] {
      StaysOnRow(t, cs[1..], cols, Behind(at, Width(t, cs[0]), cols));
    }
  }

  ghost predicate Inked(ink: map<(int, nat), Ink>, row: int) {
    exists c: nat :: (row, c) in ink
  }

  /** Every character with width stands on a row from the first to the last the text takes. */
  lemma {:induction false} CellsWithin(t: Tables, cs: seq<CodePoint>, k: nat, cols: nat, at: Cell)
    requires k < |cs| && cols >= 2 && at.col < cols && Width(t, cs[k]) > 0
    ensures var c, end := CellOf(t, cs, k, cols, at), CellOf(t, cs, |cs|, cols, at);
            at.row <= c.row < RowsTo(end) && (c.row == at.row ==> c.col >= at.col)
    decreases |cs|
  {
    var next := Behind(at, Width(t, cs[0]), cols);
    CellsAdvance(t, cs[1..], cols, next);
    if k > 0 { CellsWithin(t, cs[1..], k - 1, cols, next); }
  }

  /** Every one of these rows has such a character, unless it is the rest of a row already
      begun. */
  lemma {:induction false} RowsFilled(t: Tables, cs: seq<CodePoint>, cols: nat, at: Cell, row: nat) returns (k: nat)
    requires cols >= 2 && at.col < cols
    requires at.row <= row < RowsTo(CellOf(t, cs, |cs|, cols, at)) && (row == at.row ==> at.col == 0)
    ensures k < |cs| && Width(t, cs[k]) > 0 && CellOf(t, cs, k, cols, at).row == row
    decreases |cs|
  {
    var w := Width(t, cs[0]);
    var here, next := Placed(at, w, cols), Behind(at, w, cols);
    if w > 0 && here.row == row {
      k := 0;
    } else {
      k := RowsFilled(t, cs[1..], cols, next, row);
      k := k + 1;
    }
  }

  /** The rows with something on them are exactly the rows the layout counts. */
  lemma ScreenRows(t: Tables, ink: map<(int, nat), Ink>, prompt: seq<CodePoint>, cs: seq<CodePoint>, cols: nat,
      row: int)
    requires cols >= 2 && Columns(t, prompt) < cols && Screenful(t, ink, prompt, cs, cols)
    ensures Inked(ink, row) <==> 0 <= row < RowsTo(CellOf(t, cs, |cs|, cols, Cell(0, Columns(t, prompt))))
  {
    hide CellOf, Columns, Width;
    var top, at := Cell(0, 0), Cell(0, Columns(t, prompt));
    var end := CellOf(t, cs, |cs|, cols, at);
    CellsAdvance(t, cs, cols, at);
    StaysOnRow(t, prompt, cols, top);
    if Inked(ink, row) {
      var c: nat :| (row, c) in ink;
      if Covered(t, (row, c), prompt, cols, top) {
        var k: nat :| k < |prompt| && Width(t, prompt[k]) > 0 && (row, c) == Key(CellOf(t, prompt, k, cols, top));
        CellsWithin(t, prompt, k, cols, top);
      } else {
        var k: nat :| k < |cs| && Width(t, cs[k]) > 0 && (row, c) == Key(CellOf(t, cs, k, cols, at));
        CellsWithin(t, cs, k, cols, at);
      }
    }
    if 0 <= row < RowsTo(end) {
      if row == 0 && at.col > 0 {
        var k := RowsFilled(t, prompt, cols, top, row);
        assert Stands(t, ink, true, prompt, k, cols, top);
      } else {
        var k := RowsFilled(t, cs, cols, at, row);
        assert Stands(t, ink, false, cs, k, cols, at);
      }
    }
  }

  /** A text only moves on, and by nothing only if it has no width. */
  lemma {:induction false} CellsAdvance(t: Tables, cs: seq<CodePoint>, cols: nat, at: Cell)
    requires cols >= 2 && at.col < cols
    ensures var end := CellOf(t, cs, |cs|, cols, at);
            end.row > at.row || (end.row == at.row && end.col >= at.col)
    ensures Columns(t, cs) == 0 ==> CellOf(t, cs, |cs|, cols, at) == at
    ensures var end := CellOf(t, cs, |cs|, cols, at);
            Columns(t, cs) > 0 ==> end.row > at.row || end.col > at.col
    decreases |cs|
  {
    if cs != [] {
      CellsAdvance(t, cs[1..], cols, Behind(at, Width(t, cs[0]), cols));
    }
  }
}
