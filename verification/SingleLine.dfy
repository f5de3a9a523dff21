/** The single-line refresh: which part of a long line is shown around the cursor. */
module SingleLine {
  import opened Bits
  import opened Utf8
  import opened Graphemes
  import opened Lines
  import opened Rows
  import opened Terminal

  /** A window `cs[d..e]` on the text: whole clusters around the cursor `cur`, with the cursor
      on the screen and the text within it, after a prompt of `p` columns. */
  predicate Window(t: Tables, cs: seq<CodePoint>, cur: nat, p: nat, cols: nat, d: nat, e: nat) {
    && d <= cur <= e <= |cs|
    && Boundary(t, cs, d) && Boundary(t, cs, e)
    && p + Columns(t, cs[d..cur]) < cols
    && p + Columns(t, cs[d..e]) <= cols
  }

  lemma ColumnsSlice(t: Tables, cs: seq<CodePoint>, i: nat, j: nat, k: nat)
    requires i <= j <= k <= |cs|
    ensures Columns(t, cs[i..k]) == Columns(t, cs[i..j]) + Columns(t, cs[j..k])
  {
    hide Columns;
    ColumnsAdd(t, cs[i..j], cs[j..k]);
    assert cs[i..k] == cs[i..j] + cs[j..k];
  }

  /** The first cluster of what is left of the text: it ends at or before any later
      boundary, and it is not empty. */
  lemma FirstCluster(t: Tables, cs: seq<CodePoint>, d: nat, cur: nat)
    requires d < cur <= |cs| && Boundary(t, cs, cur)
    ensures var n := ClusterLen(t, cs[d..]);
            && 0 < n && d + n <= cur && Boundary(t, cs, d + n)
            && forall i :: d < i < d + n ==> !Boundary(t, cs, i)
  {
    var tail := cs[d..];
    var n := ClusterLen(t, tail);
    assert forall i :: 1 <= i < |tail| ==> tail[1..][i - 1] == tail[i] == cs[d + i];
    assert cur < |cs| ==> tail[1..][cur - d - 1] == cs[cur];
  }

  /** The last cluster before `e`, when there is text with width after `cur`. */
  lemma LastCluster(t: Tables, cs: seq<CodePoint>, d: nat, cur: nat, e: nat)
    requires d <= cur <= e <= |cs| && Columns(t, cs[cur..e]) > 0
    ensures var n := PrevClusterLen(t, cs[d..e]);
            && 0 < n && cur <= e - n && Boundary(t, cs, e - n)
            && forall i :: e - n < i < e ==> !Boundary(t, cs, i)
  {
    var part := cs[d..e];
    var n := PrevClusterLen(t, part);
    ColumnsOfMarks(t, cs[cur..e]);
    var j :| 0 <= j < |cs[cur..e]| && cs[cur..e][j] !in t.combining;
    assert part[cur - d + j] == cs[cur + j] == cs[cur..e][j];
    assert forall i :: 0 <= i < |part| ==> part[i] == cs[d + i];
  }

  /** The first loop: drops clusters at the front until the cursor is on the screen. `buf`
      starts `d` characters into the text, and `pos` is the cursor in it. */
  method TrimFront(t: Tables, text: seq<Byte>, cursor: nat, pcolwid: nat, cols: nat, ghost cs: seq<CodePoint>,
      ghost cur: nat)
      returns (buf: seq<Byte>, pos: nat, ghost d: nat)
    requires pcolwid < cols && cur <= |cs| && text == Encode(cs) && cursor == |Encode(cs[..cur])|
    requires Plain(cs) && Boundary(t, cs, cur)
    ensures pos <= |buf| <= |text| && buf == text[|text| - |buf|..] && cursor - pos == |text| - |buf|
    ensures d <= cur && Boundary(t, cs, d) && InWindow(buf, pos, cs, d, cur)
    ensures pcolwid + Columns(t, cs[d..cur]) < cols
    ensures forall i :: 0 <= i < d && Boundary(t, cs, i) ==> pcolwid + Columns(t, cs[i..cur]) >= cols
  {
    hide Encode, Columns, ClusterLen;
    buf, pos, d := text, cursor, 0;
    assert cs[0..] == cs && cs[0..cur] == cs[..cur];
    EncodeSplit(cs, cur);
    var width := ColumnsOf(t, buf, pos, cs[d..cur]);
    while pcolwid + width >= cols
      invariant d <= cur && InWindow(buf, pos, cs, d, cur) && Boundary(t, cs, d)
      invariant |buf| <= |text| && buf == text[|text| - |buf|..] && cursor - pos == |text| - |buf|
      invariant width == Columns(t, cs[d..cur])
      invariant forall i :: 0 <= i < d && Boundary(t, cs, i) ==> pcolwid + Columns(t, cs[i..cur]) >= cols
      decreases cur - d
    {
      SomeColumns(t, cs[d..cur]);
      FirstCluster(t, cs, d, cur);
      ghost var n := ClusterLen(t, cs[d..]);
      assert buf[0..|buf|] == buf;
      var glen := UnicodeGraphemeLen(t, buf, |buf|, 0, cs[d..]);
      DropFront(cs, d, n, cur, buf);
      buf, pos, d := buf[glen..], pos - glen, d + n;
      width := ColumnsOf(t, buf, pos, cs[d..cur]);
    }
  }

  /** `buf` is the text from character `d` on, with character `cur` at byte `pos`. */
  predicate InWindow(buf: seq<Byte>, pos: nat, cs: seq<CodePoint>, d: nat, cur: nat) {
    && d <= cur <= |cs| && buf == Encode(cs[d..])
    && pos == |Encode(cs[d..cur])| && pos <= |buf| && buf[..pos] == Encode(cs[d..cur])
  }

  /** The second loop: drops clusters at the back until the text fits the screen. */
  method TrimBack(t: Tables, buf: seq<Byte>, pos: nat, pcolwid: nat, cols: nat, ghost cs: seq<CodePoint>,
      ghost d: nat, ghost cur: nat)
      returns (len: nat, ghost e: nat)
    requires d <= cur && InWindow(buf, pos, cs, d, cur) && Boundary(t, cs, cur) && Plain(cs)
    requires pcolwid + Columns(t, cs[d..cur]) < cols
    ensures cur <= e <= |cs| && Boundary(t, cs, e) && len <= |buf| && buf[..len] == Encode(cs[d..e])
    ensures pcolwid + Columns(t, cs[d..e]) <= cols
    ensures forall i :: e < i <= |cs| && Boundary(t, cs, i) ==> pcolwid + Columns(t, cs[d..i]) > cols
  {
    hide Encode, Columns, PrevClusterLen;
    len, e := |buf|, |cs|;
    assert cs[d..e] == cs[d..] && buf[..len] == buf;
    var width := ColumnsOf(t, buf, len, cs[d..e]);
    while pcolwid + width > cols
      invariant cur <= e <= |cs| && len <= |buf| && buf[..len] == Encode(cs[d..e])
      invariant width == Columns(t, cs[d..e]) && Boundary(t, cs, e)
      invariant forall i :: e < i <= |cs| && Boundary(t, cs, i) ==> pcolwid + Columns(t, cs[d..i]) > cols
      decreases e
    {
      ColumnsSlice(t, cs, d, cur, e);
      LastCluster(t, cs, d, cur, e);
      ghost var n := PrevClusterLen(t, cs[d..e]);
      var glen := UnicodePrevGraphemeLen(t, buf, len, cs[d..e]);
      DropBack(cs, d, e, n, cur, buf, len);
      len, e := len - glen, e - n;
      width := ColumnsOf(t, buf, len, cs[d..e]);
    }
  }

  /** The window that drops the fewest leading clusters and, given those, the fewest trailing
      ones. */
  ghost predicate BestWindow(t: Tables, cs: seq<CodePoint>, cur: nat, p: nat, cols: nat, d: nat, e: nat) {
    && Window(t, cs, cur, p, cols, d, e)
    && (forall i :: 0 <= i < d && Boundary(t, cs, i) ==> p + Columns(t, cs[i..cur]) >= cols)
    && (forall i :: e < i <= |cs| && Boundary(t, cs, i) ==> p + Columns(t, cs[d..i]) > cols)
  }

  /** The row of the terminal holds the characters of the prompt and after them those of the
      window `w`, each in its column, and nothing else; except that a window that fills the row
      leaves the last column blank. */
  ghost predicate LineShown(t: Tables, ink: map<(int, nat), Ink>, prompt: seq<CodePoint>, w: seq<CodePoint>, cols: nat)
  {
    var p := Columns(t, prompt);
    var full := p + Columns(t, w) >= cols;
    && (forall k: nat :: k < |prompt| && Width(t, prompt[k]) > 0 ==> StandsAt(t, ink, true, 0, prompt, k, 0))
    && (forall k: nat :: k < |w| && Width(t, w[k]) > 0 && !(full && p + Columns(t, w[..k]) == cols - 1) ==>
          StandsAt(t, ink, false, 0, w, k, p))
    && (forall c: nat :: (0, c) in ink ==> TakenBy(t, prompt, 0, c) || TakenBy(t, w, p, c))
    && (full ==> (0, cols - 1) !in ink)
  }

  /** Something is shown before the cursor, or it cannot move: the terminal has one column, or
      there is a prompt, or the last character with width before the cursor leaves a column. */
  predicate CursorReached(t: Tables, cs: seq<CodePoint>, cur: nat, p: nat, cols: nat)
    requires cur <= |cs|
  {
    var n := PrevClusterLen(t, cs[..cur]);
    cols == 1 || p > 0 || (n > 0 && Width(t, cs[cur - n]) < cols)
  }

  /** The best window has columns before the cursor, after an empty prompt, if and only if the
      last cluster before the cursor fits beside it. */
  lemma ReachedByWindow(t: Tables, cs: seq<CodePoint>, cur: nat, p: nat, cols: nat, d: nat, e: nat)
    requires BestWindow(t, cs, cur, p, cols, d, e) && p < cols
    ensures p + Columns(t, cs[d..cur]) > 0 || cols == 1 <==> CursorReached(t, cs, cur, p, cols)
  {
    hide PrevClusterLen, Columns;
    var left := cs[..cur];
    var n := PrevClusterLen(t, left);
    var k := cur - n;
    ColumnsOfMarks(t, cs[d..cur]);
    assert forall i :: 0 <= i < |cs[d..cur]| ==> cs[d..cur][i] == left[d + i];
    if n > 0 {
      assert left[k] == cs[k] && Boundary(t, cs, k);
      LastClusterColumns(t, cs, k, cur);
      if d <= k {
        assert cs[d..cur][k - d] == cs[k];
        ColumnsSlice(t, cs, d, k, cur);
      }
    }
  }

  /** A cluster is as wide as its first character. */
  lemma LastClusterColumns(t: Tables, cs: seq<CodePoint>, k: nat, cur: nat)
    requires k < cur <= |cs| && forall i :: k < i < cur ==> cs[i] in t.combining
    ensures Columns(t, cs[k..cur]) == Width(t, cs[k])
  {
    var cluster := cs[k..cur];
    ColumnsOfMarks(t, cluster[1..]);
    assert forall i :: 0 <= i < |cluster[1..]| ==> cluster[1..][i] == cs[k + 1 + i];
    assert Columns(t, cluster) == Width(t, cluster[0]) + Columns(t, cluster[1..]);
  }

  /** The terminal after the refresh shows the window: one row, the cursor in its column if and
      only if that can be reached; and the row holds just the prompt and the window. */
  ghost predicate Shows(t: Tables, before: Term, after: Term, prompt: seq<CodePoint>, cs: seq<CodePoint>, cur: nat,
      cols: nat, d: nat, e: nat)
    requires d <= cur <= e <= |cs|
  {
    var p := Columns(t, prompt);
    && after.row == 0 && !after.waiting
    && (after.col == p + Columns(t, cs[d..cur]) <==> CursorReached(t, cs, cur, p, cols))
    && LineShown(t, after.ink, prompt, cs[d..e], cols)
    && forall k :: k in before.ink && k.0 != 0 ==> k in after.ink && after.ink[k] == before.ink[k]
  }

  /** There is one best window. */
  lemma BestIsUnique(t: Tables, cs: seq<CodePoint>, cur: nat, p: nat, cols: nat, d: nat, e: nat, d': nat, e': nat)
    requires BestWindow(t, cs, cur, p, cols, d, e) && BestWindow(t, cs, cur, p, cols, d', e')
    ensures d == d' && e == e'
  {
    hide Columns;
  }

  /** What the refresh sends. */
  function Sent(prompt: seq<Byte>, shown: seq<Byte>, forward: nat): seq<Op> {
    [Return] + [Prompt(prompt)] + [Print(shown)] + [EraseLine] + [Return] + [Right(forward)]
  }

  /** The refresh shows the best window around the cursor. */
  method RefreshSingleLine(t: Tables, prompt: seq<Byte>, ghost pieces: seq<Piece>, text: seq<Byte>, cursor: nat,
      cols: nat, ghost l: Line, ghost term: Term) returns (ops: seq<Op>)
    requires prompt == Render(pieces) && GoodPieces(pieces) && Columns(t, Letters(pieces)) < cols
    requires text == Encode(Text(l)) && cursor == |Encode(l.left)|
    requires Plain(Text(l)) && Boundary(t, Text(l), |l.left|)
    requires term.row == 0
    ensures exists d: nat, e: nat ::
              var cs, cur, letters := Text(l), |l.left|, Letters(pieces);
              && BestWindow(t, cs, cur, Columns(t, letters), cols, d, e)
              && ops == Sent(prompt, Encode(cs[d..e]), Columns(t, letters) + Columns(t, cs[d..cur]))
              && Shows(t, term, DoAll(t, term, ops, cols), letters, cs, cur, cols, d, e)
  {
    hide Encode, Columns, Letters, Render, DoAll, Shows, Text, BestWindow, Sent, CursorReached;
    ghost var cs, cur := Text(l), |l.left|;
    assert cs[..cur] == l.left by { LeftPart(l); }
    assert prompt[..|prompt|] == prompt;
    var pcolwid := UnicodeColumnPos(t, prompt, |prompt|, pieces);
    var buf, pos, len;
    ghost var d, e;
    buf, pos, d := TrimFront(t, text, cursor, pcolwid, cols, cs, cur);
    len, e := TrimBack(t, buf, pos, pcolwid, cols, cs, d, cur);
    var forward := ColumnsOf(t, buf, pos, cs[d..cur]);
    ops := Sent(prompt, buf[..len], forward + pcolwid);
    IsBest(t, cs, cur, pcolwid, cols, d, e);
    SentShows(t, term, prompt, pieces, buf[..len], cs, cur, cols, d, e);
  }

  lemma IsBest(t: Tables, cs: seq<CodePoint>, cur: nat, p: nat, cols: nat, d: nat, e: nat)
    requires Window(t, cs, cur, p, cols, d, e)
    requires forall i :: 0 <= i < d && Boundary(t, cs, i) ==> p + Columns(t, cs[i..cur]) >= cols
    requires forall i :: e < i <= |cs| && Boundary(t, cs, i) ==> p + Columns(t, cs[d..i]) > cols
    ensures BestWindow(t, cs, cur, p, cols, d, e)
  {
    hide Columns, Boundary, Window;
  }

  lemma LeftPart(l: Line)
    ensures |l.left| <= |Text(l)| && Text(l)[..|l.left|] == l.left
  {
  }

  // ---------- on the terminal

  /** The prompt, printed from the first column of the first row. */
  lemma PromptShown(t: Tables, before: Term, prompt: seq<Byte>, pieces: seq<Piece>, cols: nat)
    requires before.row == 0 && before.col == 0 && !before.waiting
    requires prompt == Render(pieces) && GoodPieces(pieces) && Columns(t, Letters(pieces)) < cols
    ensures var at, letters := Do(t, before, Prompt(prompt), cols), Letters(pieces);
            var p := Columns(t, letters);
            && at.row == 0 && at.col == p && !at.waiting && Untouched(before.ink, at.ink, 0, 0)
            && (forall k: nat :: k < |letters| && Width(t, letters[k]) > 0 ==>
                  StandsAt(t, at.ink, true, 0, letters, k, 0))
            && forall c: nat :: (0, c) in at.ink && c < p ==> TakenBy(t, letters, 0, c)
  {
    hide Put, Columns, Width, StandsAt, TakenBy, Untouched, Glyphs, GoodPieces, Render, Letters;
    var letters, values := Letters(pieces), Glyphs(prompt);
    GlyphsOfPrompt(pieces);
    PutOnRow(t, before, true, values, letters, cols);
    PutRowKeeps(t, before, true, values, letters, cols);
    PutRowStands(t, before, true, values, letters, cols);
    forall c: nat | (0, c) in Put(t, before, true, values, cols).ink && c < Columns(t, letters)
      ensures TakenBy(t, letters, 0, c)
    {
      PutRowTaken(t, before, true, values, letters, cols, c);
    }
  }

  /** The window, printed behind it. */
  lemma TextShown(t: Tables, at: Term, shown: seq<Byte>, w: seq<CodePoint>, cols: nat)
    requires at.row == 0 && !at.waiting && at.col < cols && at.col + Columns(t, w) <= cols && shown == Encode(w)
    ensures var printed := Do(t, at, Print(shown), cols);
            && printed.row == 0 && Untouched(at.ink, printed.ink, 0, at.col)
            && printed.col == (if at.col + Columns(t, w) < cols then at.col + Columns(t, w) else cols - 1)
            && (forall k: nat :: k < |w| && Width(t, w[k]) > 0 ==> StandsAt(t, printed.ink, false, 0, w, k, at.col))
            && forall c: nat :: (0, c) in printed.ink && at.col <= c < at.col + Columns(t, w) ==>
                 TakenBy(t, w, at.col, c)
  {
    hide Put, Columns, Width, StandsAt, TakenBy, Untouched, DecodeAll, Encode;
    var values := DecodeAll(shown);
    DecodeAllEncoded(w);
    PutOnRow(t, at, false, values, w, cols);
    PutRowKeeps(t, at, false, values, w, cols);
    PutRowStands(t, at, false, values, w, cols);
    forall c: nat | (0, c) in Put(t, at, false, values, cols).ink && at.col <= c < at.col + Columns(t, w)
      ensures TakenBy(t, w, at.col, c)
    {
      PutRowTaken(t, at, false, values, w, cols, c);
    }
  }

  /** Printing prompt and window over what was on the row, and erasing what is to the right, shows
      just these. */
  lemma WindowShown(t: Tables, before: Term, prompt: seq<Byte>, pieces: seq<Piece>, shown: seq<Byte>,
      w: seq<CodePoint>, cols: nat)
    requires before.row == 0 && before.col == 0 && !before.waiting
    requires prompt == Render(pieces) && GoodPieces(pieces) && shown == Encode(w)
    requires Columns(t, Letters(pieces)) < cols && Columns(t, Letters(pieces)) + Columns(t, w) <= cols
    ensures var printed := Do(t, Do(t, before, Prompt(prompt), cols), Print(shown), cols);
            var erased := Do(t, printed, EraseLine, cols);
            && erased.row == 0 && LineShown(t, erased.ink, Letters(pieces), w, cols)
            && forall k :: k in before.ink && k.0 != 0 ==> k in erased.ink && erased.ink[k] == before.ink[k]
  {
    hide Put, Columns, Do, StandsAt, TakenBy, Width, LineShown, Letters, Render, GoodPieces, Encode;
    var at := Do(t, before, Prompt(prompt), cols);
    var printed := Do(t, at, Print(shown), cols);
    PromptShown(t, before, prompt, pieces, cols);
    TextShown(t, at, shown, w, cols);
    LineErased(t, printed, cols);
    LineAfterErase(t, at.ink, printed.ink, Do(t, printed, EraseLine, cols).ink, Letters(pieces), w, cols);
  }

  lemma LineAfterErase(t: Tables, at: map<(int, nat), Ink>, printed: map<(int, nat), Ink>,
      erased: map<(int, nat), Ink>, prompt: seq<CodePoint>, w: seq<CodePoint>, cols: nat)
    requires Columns(t, prompt) < cols && Columns(t, prompt) + Columns(t, w) <= cols
    requires forall k: nat :: k < |prompt| && Width(t, prompt[k]) > 0 ==> StandsAt(t, at, true, 0, prompt, k, 0)
    requires forall c: nat :: (0, c) in at && c < Columns(t, prompt) ==> TakenBy(t, prompt, 0, c)
    requires Untouched(at, printed, 0, Columns(t, prompt))
    requires var p := Columns(t, prompt);
             && (forall k: nat :: k < |w| && Width(t, w[k]) > 0 ==> StandsAt(t, printed, false, 0, w, k, p))
             && forall c: nat :: (0, c) in printed && p <= c < p + Columns(t, w) ==> TakenBy(t, w, p, c)
    requires var p := Columns(t, prompt);
             var end := if p + Columns(t, w) < cols then p + Columns(t, w) else cols - 1;
             Untouched(printed, erased, 0, end) && forall c: nat :: (0, c) in erased ==> c < end && (0, c) in printed
    ensures LineShown(t, erased, prompt, w, cols)
  {
    hide Columns, TakenBy, StandsAt, Width;
    var p := Columns(t, prompt);
    var full := p + Columns(t, w) >= cols;
    var end := if full then cols - 1 else p + Columns(t, w);
    forall k: nat | k < |prompt| && Width(t, prompt[k]) > 0 ensures StandsAt(t, erased, true, 0, prompt, k, 0) {
      ColumnsBefore(t, prompt, k);
      StandsStill(t, at, printed, p, true, prompt, k, 0);
      StandsStill(t, printed, erased, end, true, prompt, k, 0);
    }
    forall k: nat | k < |w| && Width(t, w[k]) > 0 && !(full && p + Columns(t, w[..k]) == cols - 1)
      ensures StandsAt(t, erased, false, 0, w, k, p)
    {
      ColumnsBefore(t, w, k);
      StandsStill(t, printed, erased, end, false, w, k, p);
    }
  }

  lemma SentShows(t: Tables, term: Term, prompt: seq<Byte>, pieces: seq<Piece>, shown: seq<Byte>, cs: seq<CodePoint>,
      cur: nat, cols: nat, d: nat, e: nat)
    requires prompt == Render(pieces) && GoodPieces(pieces) && Columns(t, Letters(pieces)) < cols
    requires BestWindow(t, cs, cur, Columns(t, Letters(pieces)), cols, d, e)
    requires term.row == 0 && shown == Encode(cs[d..e])
    ensures var ops := Sent(prompt, shown, Columns(t, Letters(pieces)) + Columns(t, cs[d..cur]));
            Shows(t, term, DoAll(t, term, ops, cols), Letters(pieces), cs, cur, cols, d, e)
  {
    hide DoAll, Encode, Columns, LineShown, CursorReached, BestWindow, Do, Clip, Count, Letters, Render, GoodPieces,
      Sent;
    var p := Columns(t, Letters(pieces));
    WithinBest(t, cs, cur, p, cols, d, e);
    ReachedByWindow(t, cs, cur, p, cols, d, e);
    var n := p + Columns(t, cs[d..cur]);
    WindowShown(t, term.(col := 0, waiting := false), prompt, pieces, shown, cs[d..e], cols);
    SentRuns(t, term, prompt, shown, n, cols);
    ClipReached(n, cols);
  }

  lemma WithinBest(t: Tables, cs: seq<CodePoint>, cur: nat, p: nat, cols: nat, d: nat, e: nat)
    requires BestWindow(t, cs, cur, p, cols, d, e)
    ensures d <= cur <= e <= |cs|
    ensures p + Columns(t, cs[d..cur]) < cols && p + Columns(t, cs[d..e]) <= cols
  {
    hide Columns, Boundary;
  }

  lemma ClipReached(n: nat, cols: nat)
    requires n < cols
    ensures Clip(Count(n), cols) == n <==> n > 0 || cols == 1
  {
  }

  /** What the refresh sends, run operation by operation. */
  lemma SentRuns(t: Tables, term: Term, prompt: seq<Byte>, shown: seq<Byte>, n: nat, cols: nat)
    ensures var before := term.(col := 0, waiting := false);
            var printed := Do(t, Do(t, before, Prompt(prompt), cols), Print(shown), cols);
            DoAll(t, term, Sent(prompt, shown, n), cols)
            == Do(t, printed, EraseLine, cols).(col := Clip(Count(n), cols), waiting := false)
  {
    hide DoAll, DecodeAll, Glyphs, Put;
    var first := [Return] + [Prompt(prompt)];
    NoOps(t, term, cols);
    assert [] + [Return] == [Return];
    DoLast(t, term, [], Return, cols);
    DoLast(t, term, [Return], Prompt(prompt), cols);
    DoLast(t, term, first, Print(shown), cols);
    DoLast(t, term, first + [Print(shown)], EraseLine, cols);
    DoLast(t, term, first + [Print(shown)] + [EraseLine], Return, cols);
    DoLast(t, term, first + [Print(shown)] + [EraseLine] + [Return], Right(n), cols);
  }

  /** The smallest failures: with nothing before the cursor after an empty prompt, and on two
      columns behind a wide character. The cursor ends one column too far. */
  lemma LeftEdgeFails(term: Term, cols: nat)
    requires term.row == 0 && cols >= 2
    ensures var t := Tables({}, {});
            && BestWindow(t, [], 0, 0, cols, 0, 0) && !CursorReached(t, [], 0, 0, cols)
            && DoAll(t, term, Sent([], Encode([]), 0), cols).col != 0
  {
    var t, none := Tables({}, {}), [];
    assert none[0..0] == none && none[..0] == none;
    assert BestWindow(t, none, 0, 0, cols, 0, 0);
    SentShows(t, term, [], [], Encode(none), none, 0, cols, 0, 0);
    hide DoAll;
  }

  lemma WideEdgeFails(term: Term)
    requires term.row == 0
    ensures var t, cs := Tables({}, {0x3042}), [0x3042];
            && BestWindow(t, cs, 1, 0, 2, 1, 1) && !CursorReached(t, cs, 1, 0, 2)
            && DoAll(t, term, Sent([], Encode([]), 0), 2).col != 0
  {
    var t := Tables({}, {0x3042});
    var cs: seq<CodePoint> := [0x3042];
    assert cs[0..1] == cs && cs[..1] == cs && cs[1..1] == [] && cs[1..] == [];
    assert Columns(t, cs) == 2;
    assert BestWindow(t, cs, 1, 0, 2, 1, 1);
    SentShows(t, term, [], [], Encode(cs[1..1]), cs, 1, 2, 1, 1);
    hide DoAll;
  }

  /** The column count of plain text. */
  method ColumnsOf(t: Tables, buf: seq<Byte>, len: nat, ghost cs: seq<CodePoint>) returns (width: nat)
    requires len <= |buf| && buf[..len] == Encode(cs) && Plain(cs)
    ensures width == Columns(t, cs)
  {
    CharsAre(cs);
    hide Render, Letters, Columns, Encode;
    width := UnicodeColumnPos(t, buf, len, Chars(cs));
  }

  /** Dropping `n` characters at the front of the window. */
  lemma DropFront(cs: seq<CodePoint>, d: nat, n: nat, cur: nat, buf: seq<Byte>)
    requires d + n <= cur <= |cs| && buf == Encode(cs[d..])
    ensures var g, pos := |Encode(cs[d..][..n])|, |Encode(cs[d..cur])|;
            && g <= pos <= |buf|
            && buf[g..] == Encode(cs[d + n..])
            && pos - g == |Encode(cs[d + n..cur])| <= |buf[g..]|
            && buf[g..][..pos - g] == Encode(cs[d + n..cur])
  {
    hide Encode;
    var tail, part := cs[d..], cs[d..cur];
    EncodeSplit(tail, n);
    assert tail[n..] == cs[d + n..];
    EncodeSplit(cs[d + n..], cur - d - n);
    assert cs[d + n..][..cur - d - n] == cs[d + n..cur];
    EncodeSplit(part, n);
    assert part[..n] == tail[..n] && part[n..] == cs[d + n..cur];
  }

  /** Dropping `n` characters at the back of the window. */
  lemma DropBack(cs: seq<CodePoint>, d: nat, e: nat, n: nat, cur: nat, buf: seq<Byte>, len: nat)
    requires d <= cur <= e - n && e <= |cs| && len <= |buf| && buf[..len] == Encode(cs[d..e])
    ensures var g := |Encode(cs[d..e][e - d - n..])|;
            && g <= len && buf[..len - g] == Encode(cs[d..e - n])
            && |Encode(cs[d..cur])| <= len - g
  {
    hide Encode;
    var part := cs[d..e];
    EncodeSplit(part, e - d - n);
    assert part[..e - d - n] == cs[d..e - n];
    EncodeSplit(cs[d..e - n], cur - d);
    assert cs[d..e - n][..cur - d] == cs[d..cur];
    assert buf[..len][..|Encode(cs[d..e - n])|] == buf[..|Encode(cs[d..e - n])|];
  }
}
