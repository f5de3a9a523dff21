/** The multi-line refresh against a terminal: the sequence it sends clears all that was there
    before, redraws, and leaves the terminal's cursor on the cell of the editor's cursor. */
module Refresh {
  import opened Bits
  import opened Utf8
  import opened Graphemes
  import opened MultiLine
  import opened Terminal

  /** A character with width at the cursor is printed on the cursor's row or before the
      last row the text touches. */
  lemma {:induction false} CursorRowPrinted(t: Tables, cs: seq<CodePoint>, k: nat, cols: nat, at: Cell)
    requires k < |cs| && cols >= 2 && at.col < cols && Width(t, cs[k]) > 0
    ensures var c, end := CellOf(t, cs, k, cols, at), CellOf(t, cs, |cs|, cols, at);
            end.row > c.row || (end.row == c.row && end.col > c.col)
    decreases |cs|
  {
    var next := Behind(at, Width(t, cs[0]), cols);
    if k > 0 {
      CursorRowPrinted(t, cs[1..], k - 1, cols, next);
    } else {
      CellsAdvance(t, cs[1..], cols, next);
    }
  }

  /** Something is on the screen, unless the text is empty: only a text of combining
      characters alone after an empty prompt is not. */
  predicate Visible(t: Tables, cs: seq<CodePoint>, cur: nat, p: nat) {
    cs == [] || cur < |cs| || p + Columns(t, cs) > 0
  }

  /** A cursor behind a text that fills its last row takes one row more. */
  function ExtraRow(cur: nat, size: nat, c: Cell): nat {
    if cur != 0 && cur == size && c.col == 0 then 1 else 0
  }

  /** Where the moves after the text lead: `now` is the terminal after drawing, `rows` the
      editor's row count. */
  lemma Landing(t: Tables, cs: seq<CodePoint>, cur: nat, cols: nat, p: nat, now: Term)
    requires cur <= |cs| && Boundary(t, cs, cur) && cols >= 2 && p < cols
    requires var end := CellOf(t, cs, |cs|, cols, Cell(0, p));
             && At(now, end, cols)
             && (Columns(t, cs) == 0 ==> !now.waiting && end == Cell(0, p))
             && (Columns(t, cs) > 0 ==> (now.waiting <==> end.col == 0))
    ensures var c, end := CellOf(t, cs, cur, cols, Cell(0, p)), CellOf(t, cs, |cs|, cols, Cell(0, p));
            var extra := ExtraRow(cur, |cs|, c);
            var rows := RowsTo(end) + extra;
            && now.row + extra - (if rows > c.row + 1 then rows - (c.row + 1) else 0)
               == c.row + (if Visible(t, cs, cur, p) then 0 else 1)
            && (c.row < rows || (rows == 0 && c.row == 0))
  {
    hide CellOf, Columns;
    CellInRow(t, cs, cur, cols, Cell(0, p));
    if cur < |cs| {
      CursorInRows(t, cs, cur, cols, Cell(0, p));
    } else if cs == [] {
      NoColumns(t);
    }
  }

  lemma NoColumns(t: Tables)
    ensures Columns(t, []) == 0
  {
  }

  class Screen {
    const t: Tables
    const cols: nat
    const prompt: seq<Byte>
    ghost const pieces: seq<Piece>
    var oldcolpos: nat
    var maxrows: nat

    constructor (t: Tables, cols: nat, prompt: seq<Byte>, ghost pieces: seq<Piece>)
      ensures this.t == t && this.cols == cols && this.prompt == prompt && this.pieces == pieces
      ensures oldcolpos == 0 && maxrows == 0
    {
      this.t, this.cols, this.prompt, this.pieces := t, cols, prompt, pieces;
      oldcolpos, maxrows := 0, 0;
    }

    ghost predicate Valid() {
      cols >= 2 && prompt == Render(pieces) && GoodPieces(pieces) && Columns(t, Letters(pieces)) < cols
    }

    ghost function P(): nat {
      Columns(t, Letters(pieces))
    }

    /** The terminal's cursor is on the row the editor remembers, and that row and all that is
        on the screen are within the rows the editor counts. */
    ghost predicate Anchored(term: Term)
      reads this
      requires cols > 0
    {
      && !term.waiting && term.row == (P() + oldcolpos) / cols
      && (term.row < maxrows || (maxrows == 0 && term.row == 0))
      && WithinRows(term, maxrows)
    }

    /** The first half: down to the last row used, then clear every row on the way up. If
        those were all the rows with something on them, the screen is blank afterwards. */
    method ClearRows(rpos: nat, oldRows: nat, ghost term: Term) returns (ops: seq<Op>)
      requires !term.waiting && term.row == rpos - 1 >= 0
      requires rpos <= oldRows || (oldRows == 0 && rpos == 1)
      requires WithinRows(term, oldRows)
      ensures DoAll(t, term, ops, cols) == Term(0, 0, false, map[])
    {
      hide P;
      ghost var p := P();
      ghost var now := term;
      ops := [];
      assert DoAll(t, term, ops, cols) == term;
      hide DoAll;
      if oldRows > rpos {
        DoLast(t, term, ops, Down(oldRows - rpos), cols);
        ops := ops + [Down(oldRows - rpos)];
        now := Do(t, now, Down(oldRows - rpos), cols);
      }
      ghost var top := if oldRows == 0 then 0 else oldRows - 1;
      var j := 0;
      while j < oldRows - 1
        invariant 0 <= j <= top && now == DoAll(t, term, ops, cols)
        invariant now.row == top - j && !now.waiting
        invariant forall k :: k in now.ink ==> 0 <= k.0 <= top - j
        decreases oldRows - j
      {
        ops, now := ClearRow(ops, term, now);
        DoLast(t, term, ops, Up(1), cols);
        ops := ops + [Up(1)];
        now := Do(t, now, Up(1), cols);
        j := j + 1;
      }
      ops, now := ClearRow(ops, term, now);
    }

    method ClearRow(ops: seq<Op>, ghost term: Term, ghost now: Term) returns (more: seq<Op>, ghost next: Term)
      requires now == DoAll(t, term, ops, cols)
      ensures more == ops + [Return, EraseLine] && next == DoAll(t, term, more, cols)
      ensures next.row == now.row && next.col == 0 && !next.waiting
      ensures forall k :: k in next.ink <==> k in now.ink && k.0 != now.row
    {
      hide DoAll, P;
      DoLast(t, term, ops, Return, cols);
      DoLast(t, term, ops + [Return], EraseLine, cols);
      more := ops + [Return] + [EraseLine];
      next := Do(t, now.(col := 0, waiting := false), EraseLine, cols);
    }

    /** Prompt and text, from the top left of a blank screen. */
    method Draw(ops: seq<Op>, buf: seq<Byte>, ghost cs: seq<CodePoint>, ghost term: Term) returns (more: seq<Op>)
      requires Valid() && buf == Encode(cs)
      requires DoAll(t, term, ops, cols) == Term(0, 0, false, map[])
      ensures var after := DoAll(t, term, more, cols);
              var end := CellOf(t, cs, |cs|, cols, Cell(0, P()));
              && Screenful(t, after.ink, Letters(pieces), cs, cols) && At(after, end, cols) && end.col < cols
              && (Columns(t, cs) == 0 ==> !after.waiting && end == Cell(0, P()))
              && (Columns(t, cs) > 0 ==> (after.waiting <==> end.col == 0))
    {
      hide Letters, CellOf, Columns, DoAll, Put, DecodeAll, Encode, Render, GoodPieces, Glyphs, Screenful, P;
      ghost var now := DoAll(t, term, ops, cols);
      DoLast(t, term, ops, Prompt(prompt), cols);
      DoLast(t, term, ops + [Prompt(prompt)], Print(buf), cols);
      ValidPrompt();
      Drawn(t, now, prompt, pieces, buf, cs, cols);
      more := ops + [Prompt(prompt)] + [Print(buf)];
    }

    lemma ValidPrompt()
      requires Valid()
      ensures P() == Columns(t, Letters(pieces)) < cols && cols >= 2 && prompt == Render(pieces) && GoodPieces(pieces)
    {
    }

    /** The second half: from behind the text to the cursor's cell. */
    method MoveToCell(ops: seq<Op>, rows: nat, rpos2: nat, col: nat, ghost term: Term) returns (more: seq<Op>)
      requires col < cols
      ensures var now, after := DoAll(t, term, ops, cols), DoAll(t, term, more, cols);
              && after.row == now.row - (if rows > rpos2 then rows - rpos2 else 0)
              && after.col == col && !after.waiting && after.ink == now.ink
    {
      hide P, DoAll;
      more := ops;
      if rows > rpos2 {
        DoLast(t, term, more, Up(rows - rpos2), cols);
        more := more + [Up(rows - rpos2)];
      }
      DoLast(t, term, more, Return, cols);
      more := more + [Return];
      if col != 0 {
        DoLast(t, term, more, Right(col), cols);
        more := more + [Right(col)];
      }
    }

    /** The refresh. Afterwards the screen holds the prompt and the text, each character in its
        cell, and nothing else; the editor's row count is the most rows any text has taken, the
        one for a cursor behind a full last row included; and the terminal's cursor is on the
        cell of the editor's cursor exactly when something is visible, and one row below it
        otherwise. What the next refresh relies on holds again. */
    method RefreshMultiLine(buf: seq<Byte>, pos: nat, ghost cs: seq<CodePoint>, ghost cur: nat, ghost term: Term)
        returns (ops: seq<Op>)
      requires Valid() && Anchored(term)
      requires buf == Encode(cs) && cur <= |cs| && pos == |Encode(cs[..cur])|
      requires Boundary(t, cs, cur)
      requires Sound(t, cs, cur, cols, P()) && Sound(t, cs, |cs|, cols, P())
      modifies this
      ensures var after := DoAll(t, term, ops, cols);
              var c := CellOf(t, cs, cur, cols, Cell(0, P()));
              && after.row == c.row + (if Visible(t, cs, cur, P()) then 0 else 1)
              && after.col == c.col && !after.waiting
              && Screenful(t, after.ink, Letters(pieces), cs, cols)
              && (Visible(t, cs, cur, P()) ==> Anchored(after))
      ensures var c, end := CellOf(t, cs, cur, cols, Cell(0, P())), CellOf(t, cs, |cs|, cols, Cell(0, P()));
              var rows := RowsTo(end) + ExtraRow(cur, |cs|, c);
              maxrows == if rows > old(maxrows) then rows else old(maxrows)
    {
      hide Letters, CellOf, Columns, DoAll, Encode, Render, GoodPieces, Walk, Sound, Visible, Linear, Screenful,
        WithinRows, RowsTo;
      assert prompt[..|prompt|] == prompt && buf[..|buf|] == buf && cs[..|cs|] == cs;
      var pcolwid := UnicodeColumnPos(t, prompt, |prompt|, pieces);
      var colpos := UnicodeColumnPosForMultiLine(t, buf, |buf|, |buf|, cols, pcolwid, cs, |cs|);
      var rows := (pcolwid + colpos + cols - 1) / cols;
      var rpos := (pcolwid + oldcolpos + cols) / cols;
      var oldRows := maxrows;
      RowCount(t, cs, cols, pcolwid);
      RowAbove(pcolwid + oldcolpos, cols);
      if rows > maxrows { maxrows := rows; }
      ops := ClearRows(rpos, oldRows, term);
      ops := Draw(ops, buf, cs, term);
      ScreenWithin(t, DoAll(t, term, ops, cols), Letters(pieces), cs, cols);
      ops := PlaceCursor(ops, buf, pos, pcolwid, rows, cs, cur, term);
    }

    /** The last part: from behind the text to the cursor's cell, on a new row if the text has
        filled its last one and the cursor is behind it. */
    method PlaceCursor(ops: seq<Op>, buf: seq<Byte>, pos: nat, pcolwid: nat, drawn: nat, ghost cs: seq<CodePoint>,
        ghost cur: nat, ghost term: Term) returns (more: seq<Op>)
      requires Valid() && pcolwid == P()
      requires buf == Encode(cs) && cur <= |cs| && pos == |Encode(cs[..cur])|
      requires Boundary(t, cs, cur) && Sound(t, cs, cur, cols, P())
      requires var now, end := DoAll(t, term, ops, cols), CellOf(t, cs, |cs|, cols, Cell(0, P()));
               && At(now, end, cols) && drawn == RowsTo(end) && maxrows >= drawn && WithinRows(now, maxrows)
               && (Columns(t, cs) == 0 ==> !now.waiting && end == Cell(0, P()))
               && (Columns(t, cs) > 0 ==> (now.waiting <==> end.col == 0))
      modifies this
      ensures var before, after := DoAll(t, term, ops, cols), DoAll(t, term, more, cols);
              var c := CellOf(t, cs, cur, cols, Cell(0, P()));
              && after.row == c.row + (if Visible(t, cs, cur, P()) then 0 else 1)
              && after.col == c.col && !after.waiting
              && after.ink == before.ink
              && (Visible(t, cs, cur, P()) ==> Anchored(after))
      ensures var c := CellOf(t, cs, cur, cols, Cell(0, P()));
              var rows := drawn + ExtraRow(cur, |cs|, c);
              maxrows == if rows > old(maxrows) then rows else old(maxrows)
    {
      hide Letters, CellOf, Columns, DoAll, Encode, Render, GoodPieces, Walk, Sound, Visible, Linear, WithinRows,
        RowsTo;
      assert buf[..|buf|] == buf;
      more := ops;
      var rows := drawn;
      ghost var c := CellOf(t, cs, cur, cols, Cell(0, pcolwid));
      LayoutExact(t, cs, cur, cols, pcolwid);
      LinearRowAfter(c, cols);
      LinearParts(c, cols);
      Landing(t, cs, cur, cols, pcolwid, DoAll(t, term, ops, cols));
      CursorBytes(cs, cur);
      var colpos2 := UnicodeColumnPosForMultiLine(t, buf, |buf|, pos, cols, pcolwid, cs, cur);
      var atEnd := pos != 0 && pos == |buf| && (colpos2 + pcolwid) % cols == 0;
      if atEnd {
        DoLast(t, term, more, NewLine, cols);
        DoLast(t, term, more + [NewLine], Return, cols);
        more := more + [NewLine] + [Return];
        rows := rows + 1;
        if rows > maxrows { maxrows := rows; }
      }
      WithinMore(DoAll(t, term, ops, cols), old(maxrows), maxrows);
      var rpos2 := (pcolwid + colpos2 + cols) / cols;
      var col := (pcolwid + colpos2) % cols;
      more := MoveToCell(more, rows, rpos2, col, term);
      oldcolpos := colpos2;
      WithinSame(DoAll(t, term, ops, cols), DoAll(t, term, more, cols), maxrows);
    }
  }

  /** The prompt, printed on a blank screen, and the text behind it. */
  lemma Drawn(t: Tables, blank: Term, prompt: seq<Byte>, pieces: seq<Piece>, buf: seq<Byte>, cs: seq<CodePoint>,
      cols: nat)
    requires blank == Term(0, 0, false, map[]) && cols >= 2 && buf == Encode(cs)
    requires prompt == Render(pieces) && GoodPieces(pieces) && Columns(t, Letters(pieces)) < cols
    ensures var after := Do(t, Do(t, blank, Prompt(prompt), cols), Print(buf), cols);
            var letters := Letters(pieces);
            var start := Cell(0, Columns(t, letters));
            var end := CellOf(t, cs, |cs|, cols, start);
            && Screenful(t, after.ink, letters, cs, cols) && At(after, end, cols) && end.col < cols
            && (Columns(t, cs) == 0 ==> !after.waiting && end == start)
            && (Columns(t, cs) > 0 ==> (after.waiting <==> end.col == 0))
  {
    hide Put, Columns, CellOf, Glyphs, GoodPieces, Render, Letters, DecodeAll, Encode, Stands, Covered, Before,
      Screenful;
    var letters, glyphs, values := Letters(pieces), Glyphs(prompt), DecodeAll(buf);
    var top, start := Cell(0, 0), Cell(0, Columns(t, letters));
    var at := Put(t, blank, true, glyphs, cols);
    GlyphsOfPrompt(pieces);
    DecodeAllEncoded(cs);
    StaysOnRow(t, letters, cols, top);
    PutFollowsCells(t, blank, true, glyphs, letters, cols, top);
    PutInks(t, blank, true, glyphs, letters, cols, top);
    PutFollowsCells(t, at, false, values, cs, cols, start);
    PutKeepsBefore(t, at, false, values, cs, cols, start);
    PutInks(t, at, false, values, cs, cols, start);
    CellsAdvance(t, cs, cols, start);
    CellInRow(t, cs, |cs|, cols, start);
    BothDrawn(t, at.ink, Put(t, at, false, values, cols).ink, letters, cs, cols);
  }

  lemma BothDrawn(t: Tables, at: map<(int, nat), Ink>, after: map<(int, nat), Ink>, letters: seq<CodePoint>,
      cs: seq<CodePoint>, cols: nat)
    requires cols >= 2 && Columns(t, letters) < cols
    requires forall k: nat :: k < |letters| && Width(t, letters[k]) > 0 ==>
               Stands(t, at, true, letters, k, cols, Cell(0, 0))
    requires forall key :: key in at ==> Covered(t, key, letters, cols, Cell(0, 0))
    requires var start := Cell(0, Columns(t, letters));
             && (forall k: nat :: k < |cs| && Width(t, cs[k]) > 0 ==> Stands(t, after, false, cs, k, cols, start))
             && (forall key :: key in at && Before(key, start) ==> key in after && after[key] == at[key])
             && forall key :: key in after ==>
                  (key in at && after[key] == at[key]) || Covered(t, key, cs, cols, start)
    ensures Screenful(t, after, letters, cs, cols)
  {
    hide Columns, CellOf, Covered, Width;
    forall k: nat | k < |letters| && Width(t, letters[k]) > 0
      ensures Stands(t, after, true, letters, k, cols, Cell(0, 0))
    {
      StaysOnRow(t, letters, cols, Cell(0, 0));
      CursorRowPrinted(t, letters, k, cols, Cell(0, 0));
      assert Stands(t, at, true, letters, k, cols, Cell(0, 0));
    }
  }

  /** The row arithmetic of the refresh, over the whole text, counts the rows it takes. */
  lemma RowCount(t: Tables, cs: seq<CodePoint>, cols: nat, p: nat)
    requires cols >= 2 && p < cols && Sound(t, cs, |cs|, cols, p)
    ensures var end := CellOf(t, cs, |cs|, cols, Cell(0, p));
            end.col < cols && (p + Walk(t, cs, |cs|, cols, p) + cols - 1) / cols == RowsTo(end)
  {
    hide CellOf, Walk, Linear, Sound;
    LayoutExact(t, cs, |cs|, cols, p);
    LinearRowAfter(CellOf(t, cs, |cs|, cols, Cell(0, p)), cols);
  }

  lemma WithinMore(term: Term, rows: nat, more: nat)
    requires WithinRows(term, rows) && rows <= more
    ensures WithinRows(term, more)
  {
  }

  lemma WithinSame(term: Term, other: Term, rows: nat)
    requires WithinRows(term, rows) && other.ink == term.ink
    ensures WithinRows(other, rows)
  {
  }

  /** All that is on the screen is on the first `rows` rows, or on the very first. */
  predicate WithinRows(term: Term, rows: nat) {
    forall k :: k in term.ink ==> k.0 == 0 || 0 < k.0 < rows
  }

  lemma ScreenWithin(t: Tables, term: Term, prompt: seq<CodePoint>, cs: seq<CodePoint>, cols: nat)
    requires cols >= 2 && Columns(t, prompt) < cols && Screenful(t, term.ink, prompt, cs, cols)
    ensures var end := CellOf(t, cs, |cs|, cols, Cell(0, Columns(t, prompt)));
            forall rows :: rows >= RowsTo(end) ==> WithinRows(term, rows)
  {
    hide CellOf, Screenful, Columns;
    var end := CellOf(t, cs, |cs|, cols, Cell(0, Columns(t, prompt)));
    forall k | k in term.ink ensures k.0 == 0 || 0 < k.0 < RowsTo(end) {
      assert (k.0, k.1) in term.ink;
      ScreenRows(t, term.ink, prompt, cs, cols, k.0);
    }
  }

  /** The smallest failure: after an empty prompt, one combining mark with the cursor behind it.
      The refresh starts a new row, and the cursor ends one row below its cell. */
  method InvisibleFails(cols: nat) returns (ops: seq<Op>)
    requires cols >= 2
    ensures var t := Tables({0x301}, {});
            && CellOf(t, [0x301], 1, cols, Cell(0, 0)) == Cell(0, 0)
            && DoAll(t, Term(0, 0, false, map[]), ops, cols).row == 1
  {
    var t := Tables({0x301}, {});
    var mark: seq<CodePoint> := [0x301];
    ghost var blank := Term(0, 0, false, map[]);
    assert Render([]) == [] && Letters([]) == [] && Columns(t, []) == 0;
    var screen := new Screen(t, cols, [], []);
    MarkAlone(t, mark, cols);
    hide DoAll, CellOf, Encode, Screenful, Stumbles, Columns, Letters, Render;
    assert mark[..1] == mark;
    ops := screen.RefreshMultiLine(Encode(mark), |Encode(mark)|, mark, 1, blank);
  }

  lemma MarkAlone(t: Tables, mark: seq<CodePoint>, cols: nat)
    requires t == Tables({0x301}, {}) && mark == [0x301] && cols >= 2
    ensures Columns(t, mark) == 0 && CellOf(t, mark, 1, cols, Cell(0, 0)) == Cell(0, 0)
    ensures Sound(t, mark, 1, cols, 0) && Boundary(t, mark, 1)
    ensures 0 / cols == 0
  {
    assert mark[1..] == [];
  }

  lemma RowAbove(n: nat, cols: nat)
    requires cols > 0
    ensures (n + cols) / cols == n / cols + 1
  {
    DivModUnique(n + cols, cols, n / cols + 1, n % cols);
  }

  lemma CursorBytes(cs: seq<CodePoint>, cur: nat)
    requires cur <= |cs|
    ensures |Encode(cs[..cur])| == 0 <==> cur == 0
    ensures |Encode(cs[..cur])| == |Encode(cs)| <==> cur == |cs|
  {
    hide Encode;
    NonemptyEncoding(cs[..cur]);
    EncodeSplit(cs, cur);
    NonemptyEncoding(cs[cur..]);
    if cur == |cs| { assert cs[..cur] == cs; }
  }

  /** Before the end of the text, a cursor on a boundary is on a row the text touches. */
  lemma CursorInRows(t: Tables, cs: seq<CodePoint>, cur: nat, cols: nat, at: Cell)
    requires cur < |cs| && Boundary(t, cs, cur) && cols >= 2 && at.col < cols
    ensures var c, end := CellOf(t, cs, cur, cols, at), CellOf(t, cs, |cs|, cols, at);
            && (Columns(t, cs) > 0 ==> end.row > c.row || (end.row == c.row && end.col > c.col))
            && (Columns(t, cs) == 0 ==> c == end == at)
  {
    CellsAdvance(t, cs, cols, at);
    ColumnsOfMarks(t, cs);
    if Width(t, cs[cur]) > 0 {
      CursorRowPrinted(t, cs, cur, cols, at);
      assert cs[cur] !in t.combining;
    } else {
      assert cur == 0;
    }
  }

  lemma {:induction false} CellInRow(t: Tables, cs: seq<CodePoint>, k: nat, cols: nat, at: Cell)
    requires k <= |cs| && cols >= 2 && at.col < cols
    ensures CellOf(t, cs, k, cols, at).col < cols
    decreases |cs|
  {
    if cs != [] && k > 0 {
      CellInRow(t, cs[1..], k - 1, cols, Behind(at, Width(t, cs[0]), cols));
    }
  }
}