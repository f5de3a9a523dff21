/** What the debugger asks of the debugging information: the rows of one line table in
    address order, and the functions with their address ranges. */
module DebugInfo {
  import opened Machine
  import opened Options

  datatype Row = Row(address: Word, line: nat, endSequence: bool)
  datatype Function = Function(low: Word, high: Word, name: string)

  /** Row `i` describes the code from its own address up to the next row's. */
  predicate Covers(rows: seq<Row>, i: nat, a: Word) {
    i + 1 < |rows| && rows[i].address <= a < rows[i + 1].address && !rows[i].endSequence
  }

  function FindFrom(rows: seq<Row>, i: nat, a: Word): (r: Option<nat>)
    ensures r.Some? ==> r.value >= i && Covers(rows, r.value, a)
    ensures r.None? ==> forall j: nat :: i <= j ==> !Covers(rows, j, a)
    decreases |rows| - i
  {
    if i >= |rows| then None
    else if Covers(rows, i, a) then Some(i)
    else FindFrom(rows, i + 1, a)
  }

  function FindAddress(rows: seq<Row>, a: Word): (r: Option<nat>)
    ensures r.Some? ==> Covers(rows, r.value, a)
    ensures r.None? ==> forall j: nat :: !Covers(rows, j, a)
  {
    FindFrom(rows, 0, a)
  }

  /** The line an address belongs to, if the table knows it. */
  function LineAt(rows: seq<Row>, a: Word): Option<nat> {
    match FindAddress(rows, a)
    case None => None
    case Some(i) => Some(rows[i].line)
  }

  /** `a` is on line `n`: the first row that covers it has that line. */
  ghost predicate OnLine(rows: seq<Row>, a: Word, n: nat) {
    exists i: nat :: Covers(rows, i, a) && rows[i].line == n && forall j: nat :: j < i ==> !Covers(rows, j, a)
  }

  /** The lookup gives line `n` exactly for the addresses on line `n`, and nothing exactly for
      those that no row covers. In an ordered table one row at most covers an address, so being
      on a line is being covered by a row of that line. */
  lemma LineAtIs(rows: seq<Row>, a: Word)
    ensures forall n: nat :: LineAt(rows, a) == Some(n) <==> OnLine(rows, a, n)
    ensures LineAt(rows, a).None? <==> forall i: nat :: !Covers(rows, i, a)
    ensures Ordered(rows) ==>
              forall n: nat :: OnLine(rows, a, n) <==> exists i: nat :: Covers(rows, i, a) && rows[i].line == n
  {
    FirstFound(rows, 0, a);
    if Ordered(rows) {
      forall i: nat, j: nat | Covers(rows, i, a) && Covers(rows, j, a) ensures i == j {
        OneCovers(rows, i, j, a);
      }
    }
  }

  lemma OneCovers(rows: seq<Row>, i: nat, j: nat, a: Word)
    requires Ordered(rows) && Covers(rows, i, a) && Covers(rows, j, a)
    ensures i == j
  {
  }

  lemma {:induction false} FirstFound(rows: seq<Row>, i: nat, a: Word)
    ensures var r := FindFrom(rows, i, a); r.Some? ==> forall j: nat :: i <= j < r.value ==> !Covers(rows, j, a)
    decreases |rows| - i
  {
    if i < |rows| && !Covers(rows, i, a) {
      FirstFound(rows, i + 1, a);
    }
  }

  function FunctionAt(funcs: seq<Function>, a: Word): (r: Option<Function>)
    ensures r.Some? ==> r.value in funcs && r.value.low <= a < r.value.high
  {
    if funcs == [] then None
    else if funcs[0].low <= a < funcs[0].high then Some(funcs[0])
    else FunctionAt(funcs[1..], a)
  }

  /** Every function ends at or before the address of the table's last row. */
  predicate Terminated(rows: seq<Row>, funcs: seq<Function>) {
    forall f :: f in funcs ==> rows != [] && f.high <= rows[|rows| - 1].address
  }

  /** The addresses `next` breaks on: the rows from row `i` up to the function's end,
      other than the row execution stands on. */
  function RowStops(rows: seq<Row>, i: nat, end: Word, start: Word, load: Word): set<Word>
    decreases |rows| - i
  {
    if i >= |rows| || rows[i].address >= end then {}
    else RowStops(rows, i + 1, end, start, load)
         + (if rows[i].address == start then {} else {Plus(rows[i].address, load)})
  }

  predicate Ordered(rows: seq<Row>) {
    forall i, j :: 0 <= i < j < |rows| ==> rows[i].address <= rows[j].address
  }

  /** In an ordered table the stops are all the later rows below the function's end at
      another address than the current row's; repeated addresses add nothing. */
  lemma {:induction false} RowStopsAre(rows: seq<Row>, i: nat, end: Word, start: Word, load: Word, a: Word)
    requires Ordered(rows)
    ensures a in RowStops(rows, i, end, start, load)
            <==> exists j: nat :: i <= j < |rows| && rows[j].address < end && rows[j].address != start
                                  && a == Plus(rows[j].address, load)
    decreases |rows| - i
  {
    if i < |rows| && rows[i].address < end {
      RowStopsAre(rows, i + 1, end, start, load, a);
    }
  }
}
