/** The multi-line refresh: where characters fall on a terminal of a given width, and how the
    editor moves the cursor there without asking the terminal. */
module MultiLine {
  import opened Bits
  import opened Utf8
  import opened Graphemes

  // ---------- the terminal's own layout: cell by cell, wide characters wrapped whole

  datatype Cell = Cell(row: nat, col: nat)

  /** Where a character of width `w` goes when the next free cell is `at`. */
  function Placed(at: Cell, w: nat, cols: nat): Cell {
    if at.col + w > cols then Cell(at.row + 1, 0) else at
  }

  /** The next free cell after it. */
  function Behind(at: Cell, w: nat, cols: nat): Cell {
    var p := Placed(at, w, cols);
    if p.col + w == cols then Cell(p.row + 1, 0) else Cell(p.row, p.col + w)
  }

  /** The cell of the character `k` places into `cs`, or the free cell after the text. */
  function CellOf(t: Tables, cs: seq<CodePoint>, k: nat, cols: nat, at: Cell): Cell
    requires k <= |cs|
  {
    if cs == [] then at
    else if k == 0 then Placed(at, Width(t, cs[0]), cols)
    else CellOf(t, cs[1..], k - 1, cols, Behind(at, Width(t, cs[0]), cols))
  }

  function Linear(c: Cell, cols: nat): nat {
    c.row * cols + c.col
  }

  lemma LinearNextRow(row: nat, cols: nat)
    ensures Linear(Cell(row + 1, 0), cols) == row * cols + cols
  {
    assert (row + 1) * cols == row * cols + cols;
  }

  lemma LinearParts(c: Cell, cols: nat)
    requires c.col < cols
    ensures Linear(c, cols) / cols == c.row && Linear(c, cols) % cols == c.col
  {
    DivModUnique(Linear(c, cols), cols, c.row, c.col);
  }

  lemma LinearRowAfter(c: Cell, cols: nat)
    requires c.col < cols
    ensures (Linear(c, cols) + cols) / cols == c.row + 1
    ensures (Linear(c, cols) + cols - 1) / cols == if c.col == 0 then c.row else c.row + 1
  {
    LinearNextRow(c.row, cols);
    DivModUnique(Linear(c, cols) + cols, cols, c.row + 1, c.col);
    if c.col == 0 {
      DivModUnique(Linear(c, cols) + cols - 1, cols, c.row, cols - 1);
    } else {
      DivModUnique(Linear(c, cols) + cols - 1, cols, c.row + 1, c.col - 1);
    }
  }

  // ---------- the editor's layout

  /** The running count of the editor: columns and padding up to the cursor, starting in
      column `colwid`. */
  function Walk(t: Tables, cs: seq<CodePoint>, k: nat, cols: nat, colwid: nat): nat
    requires k <= |cs|
  {
    if cs == [] then 0
    else
      var wid := Width(t, cs[0]);
      var pad := if colwid + wid > cols then colwid + wid - cols else 0;
      if k == 0 then pad
      else pad + wid + Walk(t, cs[1..], k - 1, cols, NextWid(colwid, wid, cols))
  }

  function NextWid(colwid: nat, wid: nat, cols: nat): nat {
    if colwid + wid > cols then wid else if colwid + wid == cols then 0 else colwid + wid
  }

  /** On at least three columns the count is the terminal's cell, for every text. */
  lemma {:induction false} WalkIsCell(t: Tables, cs: seq<CodePoint>, k: nat, cols: nat, at: Cell)
    requires k <= |cs| && cols >= 3 && at.col < cols
    ensures CellOf(t, cs, k, cols, at).col < cols
    ensures Linear(at, cols) + Walk(t, cs, k, cols, at.col) == Linear(CellOf(t, cs, k, cols, at), cols)
    decreases |cs|
  {
    if cs != [] {
      LinearNextRow(at.row, cols);
      if k > 0 {
        var next := Behind(at, Width(t, cs[0]), cols);
        LinearNextRow(at.row + 1, cols);
        WalkIsCell(t, cs[1..], k - 1, cols, next);
      }
    }
  }

  /** On two columns: a wide character pushed to the next row fills it, and the count stumbles
      if a character with width comes right after it, up to the cursor. */
  predicate Stumbles(t: Tables, cs: seq<CodePoint>, k: nat, col: nat)
    requires k <= |cs|
  {
    cs != [] && k > 0 &&
    ((col == 1 && Width(t, cs[0]) == 2 && |cs| > 1 && Width(t, cs[1]) > 0)
     || Stumbles(t, cs[1..], k - 1, Behind(Cell(0, col), Width(t, cs[0]), 2).col))
  }

  /** A column count that should have been reset only ever adds. */
  lemma {:induction false} StumbledWalk(t: Tables, cs: seq<CodePoint>, k: nat)
    requires k <= |cs|
    ensures Walk(t, cs, k, 2, 2) >= Walk(t, cs, k, 2, 0)
    ensures Walk(t, cs, k, 2, 2) == Walk(t, cs, k, 2, 0) <==> cs == [] || Width(t, cs[0]) == 0
    decreases |cs|
  {
    if cs != [] && k > 0 {
      StumbledWalk(t, cs[1..], k - 1);
    }
  }

  /** On two columns the count is the terminal's cell exactly for texts without a stumble. */
  lemma {:induction false} WalkOnTwoColumns(t: Tables, cs: seq<CodePoint>, k: nat, at: Cell)
    requires k <= |cs| && at.col < 2
    ensures CellOf(t, cs, k, 2, at).col < 2
    ensures Linear(at, 2) + Walk(t, cs, k, 2, at.col) >= Linear(CellOf(t, cs, k, 2, at), 2)
    ensures Linear(at, 2) + Walk(t, cs, k, 2, at.col) == Linear(CellOf(t, cs, k, 2, at), 2)
            <==> !Stumbles(t, cs, k, at.col)
    decreases |cs|
  {
    if cs != [] && k > 0 {
      var next := Behind(at, Width(t, cs[0]), 2);
      WalkOnTwoColumns(t, cs[1..], k - 1, next);
      StumbledWalk(t, cs[1..], k - 1);
    }
  }

  /** The layout is right. */
  predicate Sound(t: Tables, cs: seq<CodePoint>, k: nat, cols: nat, ini: nat)
    requires k <= |cs|
  {
    cols >= 3 || (cols == 2 && !Stumbles(t, cs, k, ini))
  }

  /** For every width from two columns on and every prompt narrower than the terminal, the
      editor's count is the terminal's cell if and only if the layout is sound. */
  lemma LayoutExact(t: Tables, cs: seq<CodePoint>, k: nat, cols: nat, ini: nat)
    requires k <= |cs| && cols >= 2 && ini < cols
    ensures CellOf(t, cs, k, cols, Cell(0, ini)).col < cols
    ensures ini + Walk(t, cs, k, cols, ini) == Linear(CellOf(t, cs, k, cols, Cell(0, ini)), cols)
            <==> Sound(t, cs, k, cols, ini)
  {
    hide Walk, CellOf, Stumbles;
    if cols >= 3 {
      WalkIsCell(t, cs, k, cols, Cell(0, ini));
    } else {
      WalkOnTwoColumns(t, cs, k, Cell(0, ini));
    }
  }

  /** The smallest failure: on two columns, after a one-column prompt, a wide character and
      any other; the cursor is put one cell too far. */
  lemma TwoColumnsFail()
    ensures var t := Tables({}, {0x3042});
            var cs := [0x3042, 0x61];
            && 1 + Walk(t, cs, 2, 2, 1) == 6
            && Linear(CellOf(t, cs, 2, 2, Cell(0, 1)), 2) == 5
  {
  }

  /** The loop. */
  method UnicodeColumnPosForMultiLine(t: Tables, buf: seq<Byte>, bufLen: nat, pos: nat, cols: nat, iniPos: nat,
      ghost cs: seq<CodePoint>, ghost cur: nat)
      returns (ret: int)
    requires bufLen <= |buf| && buf[..bufLen] == Encode(cs)
    requires cur <= |cs| && pos == |Encode(cs[..cur])|
    ensures ret == Walk(t, cs, cur, cols, iniPos)
  {
    hide EncodeOne, CharToCodePoint, Encode, Walk;
    ret := 0;
    var colwid: nat, off: nat := iniPos, 0;
    ghost var k: nat, left: nat := 0, cur;
    assert cs[0..] == cs && cs[..0] == [];
    NonemptyEncoding([]);
    while off < bufLen
      invariant k + left == cur && off <= bufLen
      invariant off == |Encode(cs[..k])| && buf[off..bufLen] == Encode(cs[k..])
      invariant ret + Walk(t, cs[k..], left, cols, colwid) == Walk(t, cs, cur, cols, iniPos)
      decreases bufLen - off
    {
      NonemptyEncoding(cs[k..]);
      EncodedNext(cs, k);
      DecodeEncoded(cs[k], Encode(cs[k + 1..]));
      var d := CharToCodePoint(buf[off..bufLen]);
      var len, cp := d.0, d.1;
      var wid := 0;
      if cp !in t.combining {
        wid := if cp in t.wide then 2 else 1;
      }
      assert wid == Width(t, cs[k]);
      WalkStep(t, cs, k, left, cols, colwid);
      var dif := colwid + wid - cols;
      if dif > 0 {
        ret := ret + dif;
        colwid := wid;
      } else if dif == 0 {
        colwid := 0;
      } else {
        colwid := colwid + wid;
      }
      CursorReached(cs, k, cur);
      if off >= pos {
        return;
      }
      assert buf[off..bufLen][len..] == buf[off + len..bufLen];
      off, k, left := off + len, k + 1, left - 1;
      ret := ret + wid;
    }
    NonemptyEncoding(cs[k..]);
    WalkEnd(t, cols, colwid);
  }

  lemma WalkStep(t: Tables, cs: seq<CodePoint>, k: nat, left: nat, cols: nat, colwid: nat)
    requires k < |cs| && left <= |cs| - k
    ensures var wid := Width(t, cs[k]);
            var pad := if colwid + wid > cols then colwid + wid - cols else 0;
            Walk(t, cs[k..], left, cols, colwid)
            == if left == 0 then pad else pad + wid + Walk(t, cs[k + 1..], left - 1, cols, NextWid(colwid, wid, cols))
  {
    assert cs[k..][1..] == cs[k + 1..] && cs[k..][0] == cs[k];
  }

  lemma WalkEnd(t: Tables, cols: nat, colwid: nat)
    ensures Walk(t, [], 0, cols, colwid) == 0
  {
  }

  lemma CursorReached(cs: seq<CodePoint>, k: nat, cur: nat)
    requires k <= cur <= |cs|
    ensures |Encode(cs[..k])| >= |Encode(cs[..cur])| <==> k == cur
  {
    hide Encode;
    EncodeSplit(cs[..cur], k);
    assert cs[..cur][..k] == cs[..k];
    NonemptyEncoding(cs[..cur][k..]);
  }
}
