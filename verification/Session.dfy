/** The history list, and an editing session that browses it: the key loop of the editor. */
module Sessions {
  import opened Bits
  import opened Utf8
  import opened Graphemes
  import opened Lines
  import opened Editors

  type Entry = seq<Byte>

  // ---------- the list

  /** The lines that are not equal to the line kept before them. */
  function Distinct(kept: seq<Entry>, lines: seq<Entry>): seq<Entry>
    decreases |lines|
  {
    if lines == [] then kept
    else if kept != [] && kept[|kept| - 1] == lines[0] then Distinct(kept, lines[1..])
    else Distinct(kept + [lines[0]], lines[1..])
  }

  function AddOne(history: seq<Entry>, maxLen: nat, line: Entry): seq<Entry> {
    if maxLen == 0 || (history != [] && history[|history| - 1] == line) then history
    else (if |history| == maxLen then history[1..] else history) + [line]
  }

  method AddHistory(history: seq<Entry>, maxLen: nat, line: Entry) returns (longer: seq<Entry>, added: bool)
    ensures longer == AddOne(history, maxLen, line)
    ensures maxLen == 0 || (history != [] && history[|history| - 1] == line) ==> !added && longer == history
    ensures maxLen > 0 && (history != [] ==> history[|history| - 1] != line) ==>
              added && longer == (if |history| == maxLen then history[1..] else history) + [line]
  {
    longer := history;
    if maxLen == 0 {
      return history, false;
    }
    if history != [] && history[|history| - 1] == line {
      return history, false;
    }
    if |longer| == maxLen {
      longer := longer[1..];
    }
    longer := longer + [line];
    added := true;
  }

  function AddAll(history: seq<Entry>, maxLen: nat, lines: seq<Entry>): seq<Entry>
    decreases |lines|
  {
    if lines == [] then history else AddAll(AddOne(history, maxLen, lines[0]), maxLen, lines[1..])
  }

  /** Any run of additions keeps the latest distinct lines within the maximum length. */
  lemma {:induction false} AddAllKeepsLatest(all: seq<Entry>, maxLen: nat, lines: seq<Entry>, history: seq<Entry>)
    requires maxLen > 0 && history == all[if |all| <= maxLen then 0 else |all| - maxLen..]
    ensures var kept := Distinct(all, lines);
            AddAll(history, maxLen, lines) == kept[if |kept| <= maxLen then 0 else |kept| - maxLen..]
    ensures |AddAll(history, maxLen, lines)| <= maxLen
    decreases |lines|
  {
    if lines != [] {
      var kept := if all != [] && all[|all| - 1] == lines[0] then all else all + [lines[0]];
      AddAllKeepsLatest(kept, maxLen, lines[1..], AddOne(history, maxLen, lines[0]));
    }
  }

  /** Line `i` differs from the line given just before it. */
  predicate IsNew(lines: seq<Entry>, i: nat) {
    i < |lines| && (i > 0 ==> lines[i] != lines[i - 1])
  }

  /** `kept` are the lines at the places `at`, in order: exactly the new ones. */
  ghost predicate NewLines(lines: seq<Entry>, at: seq<nat>, kept: seq<Entry>) {
    && |kept| == |at|
    && (forall j, k :: 0 <= j < k < |at| ==> at[j] < at[k])
    && (forall j :: 0 <= j < |at| ==> at[j] < |lines| && kept[j] == lines[at[j]])
    && forall i: nat :: IsNew(lines, i) <==> i in at
  }

  /** Which lines are kept, in order: those that differ from the line given just before. */
  lemma {:induction false} DistinctAre(lines: seq<Entry>)
    ensures exists at :: NewLines(lines, at, Distinct([], lines))
    decreases |lines|
  {
    hide NewLines, Distinct;
    if lines == [] {
      NoLines();
    } else {
      var before, last := lines[..|lines| - 1], lines[|lines| - 1];
      assert before + [last] == lines;
      DistinctAre(before);
      var at :| NewLines(before, at, Distinct([], before));
      DistinctSnoc([], before, last);
      if before == [] { NoLines(); } else { DistinctEndsWithLast([], before); }
      OneMoreLine(before, at, Distinct([], before), last);
    }
  }

  lemma NoLines()
    ensures Distinct([], []) == [] && NewLines([], [], Distinct([], []))
  {
  }

  lemma OneMoreLine(lines: seq<Entry>, at: seq<nat>, kept: seq<Entry>, line: Entry)
    requires NewLines(lines, at, kept)
    ensures if lines != [] && lines[|lines| - 1] == line then NewLines(lines + [line], at, kept)
            else NewLines(lines + [line], at + [|lines|], kept + [line])
  {
    var more := lines + [line];
    forall i: nat ensures IsNew(more, i) <==> IsNew(lines, i) || (i == |lines| && IsNew(more, |lines|)) {
      if i < |lines| { assert more[i] == lines[i] && (i > 0 ==> more[i - 1] == lines[i - 1]); }
    }
  }

  /** One more line is kept if it differs from the last one kept. */
  lemma {:induction false} DistinctSnoc(kept: seq<Entry>, lines: seq<Entry>, line: Entry)
    ensures var all := Distinct(kept, lines);
            Distinct(kept, lines + [line]) == if all != [] && all[|all| - 1] == line then all else all + [line]
    decreases |lines|
  {
    var more := lines + [line];
    if lines == [] {
      assert more[1..] == [];
    } else {
      assert more[0] == lines[0] && more[1..] == lines[1..] + [line];
      DistinctSnoc(if kept != [] && kept[|kept| - 1] == lines[0] then kept else kept + [lines[0]], lines[1..], line);
    }
  }

  predicate NoRepeats(s: seq<Entry>) {
    forall i :: 0 < i < |s| ==> s[i] != s[i - 1]
  }

  /** No line is added equal to its predecessor. */
  lemma {:induction false} DistinctIsDistinct(kept: seq<Entry>, lines: seq<Entry>)
    requires NoRepeats(kept)
    ensures NoRepeats(Distinct(kept, lines))
    decreases |lines|
  {
    if lines != [] {
      var longer := if kept != [] && kept[|kept| - 1] == lines[0] then kept else kept + [lines[0]];
      assert NoRepeats(longer);
      hide NoRepeats;
      DistinctIsDistinct(longer, lines[1..]);
    }
  }

  /** The last line added is always the last one there. */
  lemma {:induction false} DistinctEndsWithLast(kept: seq<Entry>, lines: seq<Entry>)
    requires lines != []
    ensures var all := Distinct(kept, lines); all != [] && all[|all| - 1] == lines[|lines| - 1]
    decreases |lines|
  {
    var longer := if kept != [] && kept[|kept| - 1] == lines[0] then kept else kept + [lines[0]];
    assert longer[|longer| - 1] == lines[0];
    if |lines| == 1 {
      assert Distinct(longer, lines[1..]) == longer;
    } else {
      DistinctEndsWithLast(longer, lines[1..]);
    }
  }

  /** Lines without repetitions are all kept. */
  lemma {:induction false} DistinctKeepsDistinct(kept: seq<Entry>, lines: seq<Entry>)
    requires NoRepeats(kept + lines)
    ensures Distinct(kept, lines) == kept + lines
    decreases |lines|
  {
    if lines == [] {
      assert kept + lines == kept;
    } else {
      assert kept != [] ==> (kept + lines)[|kept|] != (kept + lines)[|kept| - 1];
      assert kept + [lines[0]] + lines[1..] == kept + lines;
      DistinctKeepsDistinct(kept + [lines[0]], lines[1..]);
    }
  }

  // ---------- the session

  datatype Key =
    | Type(c: CodePoint) | DeleteKey | BackspaceKey | LeftKey | RightKey | HomeKey | EndKey
    | CtrlU | CtrlK | CtrlW | CtrlT | Up | Down

  /** What the user sees as the history: every slot, with the live line in its own. The
      newest slot is the last; `index` counts back from it. */
  datatype Desk = Desk(slots: seq<seq<CodePoint>>, index: nat, line: Line)

  predicate DeskValid(d: Desk) {
    d.index < |d.slots| && d.slots[|d.slots| - 1 - d.index] == Text(d.line)
  }

  /** The live line replaced: only its own slot changes. */
  function WithLine(d: Desk, l: Line): (r: Desk)
    requires DeskValid(d)
    ensures DeskValid(r)
  {
    d.(line := l, slots := d.slots[|d.slots| - 1 - d.index := Text(l)])
  }

  /** Another slot looked at, cursor at its end: no slot changes. */
  function Browsed(d: Desk, index: nat): (r: Desk)
    requires DeskValid(d) && index < |d.slots|
    ensures DeskValid(r)
  {
    d.(index := index, line := Line(d.slots[|d.slots| - 1 - index], []))
  }

  function ByteCount(cs: seq<CodePoint>): nat {
    |Encode(cs)|
  }

  predicate AsciiCut(l: Line) {
    l.left == [] || l.right == [] || (l.left[|l.left| - 1] < 0x80 && l.right[0] < 0x80)
  }

  /** What a key other than up and down makes of the live line. */
  function Edited(t: Tables, buflen: nat, l: Line, key: Key): Line {
    match key
    case Type(c) => if ByteCount(Text(l)) < buflen then Insert(l, c) else l
    case DeleteKey => Delete(t, l)
    case BackspaceKey => Backspace(t, l)
    case LeftKey => MoveLeft(t, l)
    case RightKey => MoveRight(t, l)
    case HomeKey => Line([], Text(l))
    case EndKey => Line(Text(l), [])
    case CtrlU => Line([], [])
    case CtrlK => Line(l.left, [])
    case CtrlW => DeletePrevWord(l)
    case CtrlT => if l.left == [] || l.right == [] then l else SwapChars(l)
    case Up | Down => l
  }

  /** Behind `k` stands the last cluster of `cs`: its last base character and the marks after it;
      nothing if there is no base character. */
  predicate LastCluster(t: Tables, cs: seq<CodePoint>, k: nat) {
    && k <= |cs| && (forall i :: k < i < |cs| ==> cs[i] in t.combining)
    && (if k < |cs| then cs[k] !in t.combining else forall i :: 0 <= i < |cs| ==> cs[i] in t.combining)
  }

  /** Before `n` stands the first cluster of `cs`: a character and the marks after it. */
  predicate FirstCluster(t: Tables, cs: seq<CodePoint>, n: nat) {
    && n <= |cs| && (cs != [] ==> n > 0) && (forall i :: 1 <= i < n ==> cs[i] in t.combining)
    && (n < |cs| ==> cs[n] !in t.combining)
  }

  /** Behind `k` stands a whole word, and behind it only spaces from `n` on. */
  predicate LastWord(cs: seq<CodePoint>, k: nat, n: nat) {
    && k <= n <= |cs|
    && (forall i :: n <= i < |cs| ==> cs[i] == SPACE) && (n > 0 ==> cs[n - 1] != SPACE)
    && (forall i :: k <= i < n ==> cs[i] != SPACE) && (k > 0 ==> cs[k - 1] == SPACE)
  }

  /** The two characters around the cursor have changed places, and the cursor stands behind
      them, or still between them if they end the line; at an end of the line nothing happens. */
  predicate SwapsAround(l: Line, m: Line) {
    if l.left == [] || l.right == [] then m == l
    else
      var rest, a, b := l.left[..|l.left| - 1], l.left[|l.left| - 1], l.right[0];
      m == if |l.right| == 1 then Line(rest + [b], [a]) else Line(rest + [b, a], l.right[1..])
  }

  /** What the keys do, on the characters before and behind the cursor. */
  lemma KeysEdit(t: Tables, buflen: nat, l: Line, key: Key)
    ensures var m := Edited(t, buflen, l, key);
            && (key.Type? ==> m == if ByteCount(l.left + l.right) < buflen then Line(l.left + [key.c], l.right) else l)
            && (key.HomeKey? ==> m == Line([], l.left + l.right))
            && (key.EndKey? ==> m == Line(l.left + l.right, []))
            && (key.CtrlU? ==> m == Line([], []))
            && (key.CtrlK? ==> m == Line(l.left, []))
  {
    hide ByteCount;
  }

  lemma MovesCross(t: Tables, buflen: nat, l: Line, key: Key)
    ensures var m := Edited(t, buflen, l, key);
            && (key.LeftKey? || key.RightKey? ==> m.left + m.right == l.left + l.right)
            && (key.LeftKey? ==> m.left <= l.left && LastCluster(t, l.left, |m.left|))
            && (key.RightKey? ==> l.left <= m.left && FirstCluster(t, l.right, |m.left| - |l.left|))
            && (key.BackspaceKey? ==>
                  m.right == l.right && m.left <= l.left && LastCluster(t, l.left, |m.left|))
            && (key.DeleteKey? ==>
                  m.left == l.left && |m.right| <= |l.right|
                  && m.right == l.right[|l.right| - |m.right|..]
                  && FirstCluster(t, l.right, |l.right| - |m.right|))
  {
    hide ByteCount, Encode;
  }

  lemma WordAndSwap(t: Tables, buflen: nat, l: Line, key: Key)
    ensures var m := Edited(t, buflen, l, key);
            && (key.CtrlW? ==>
                  m.right == l.right && m.left <= l.left && exists n :: LastWord(l.left, |m.left|, n))
            && (key.CtrlT? ==> SwapsAround(l, m))
  {
    if key.CtrlW? {
      assert LastWord(l.left, |Edited(t, buflen, l, key).left|, Trimmed(l.left, true));
    }
  }

  function Press(t: Tables, buflen: nat, d: Desk, key: Key): (r: Desk)
    requires DeskValid(d)
    ensures DeskValid(r) && |r.slots| == |d.slots|
  {
    match key
    case Up => if d.index + 1 < |d.slots| then Browsed(d, d.index + 1) else d
    case Down => if d.index > 0 then Browsed(d, d.index - 1) else d
    case _ => WithLine(d, Edited(t, buflen, d.line, key))
  }

  lemma BrowsePressed(t: Tables, buflen: nat, d: Desk, up: bool)
    requires DeskValid(d)
    ensures var index := d.index + if up then 1 else -1;
            Press(t, buflen, d, if up then Up else Down) == if 0 <= index < |d.slots| then Browsed(d, index) else d
  {
  }

  lemma BrowsedFields(t: Tables, buflen: nat, d: Desk, key: Key)
    requires DeskValid(d) && (key.Up? || key.Down?)
    ensures var r, index := Press(t, buflen, d, key), d.index + if key.Up? then 1 else -1;
            && r == Press(t, buflen, d, if key.Up? then Up else Down) && r.slots == d.slots
            && if 0 <= index < |d.slots| then r.index == index && r.line == Line(d.slots[|d.slots| - 1 - index], [])
               else r == d
  {
  }

  /** Part of a line, or two such parts. */
  lemma NulFreeParts(a: seq<CodePoint>, b: seq<CodePoint>)
    ensures NulFree([]) && (NulFree(a + b) <==> NulFree(a) && NulFree(b))
    ensures forall n :: 0 <= n <= |a| && NulFree(a) ==> NulFree(a[..n]) && NulFree(a[n..])
  {
    if NulFree(a + b) {
      assert forall i :: 0 <= i < |a| ==> a[i] == (a + b)[i];
      assert forall i :: 0 <= i < |b| ==> b[i] == (a + b)[|a| + i];
    }
  }

  /** Editing makes up no characters. */
  lemma EditedNulFree(t: Tables, buflen: nat, l: Line, key: Key)
    requires NulFree(Text(l)) && (key.Type? ==> key.c != 0)
    ensures NulFree(Text(Edited(t, buflen, l, key)))
  {
    hide NulFree, ClusterLen, PrevClusterLen, Trimmed, Encode, MoveLeft, MoveRight;
    var m := Edited(t, buflen, l, key);
    MovesKeepText(t, l);
    NulFreeParts(l.left, l.right);
    NulFreeParts(l.right, []);
    NulFreeParts(l.left, []);
    NulFreeParts(m.left, m.right);
    match key {
      case Type(c) => TypedNulFree(l, c);
      case CtrlW => NulFreeParts(l.left[..Trimmed(l.left, true)], []);
      case CtrlT => if l.left != [] && l.right != [] { SwappedNulFree(l); }
      case LeftKey | RightKey | Up | Down => assert Text(m) == Text(l);
      case HomeKey | EndKey | CtrlU | CtrlK =>
      case DeleteKey => assert m.left == l.left;
      case BackspaceKey => assert m.right == l.right;
    }
  }

  lemma TypedNulFree(l: Line, c: CodePoint)
    requires NulFree(l.left) && c != 0
    ensures NulFree(Insert(l, c).left)
  {
  }

  lemma SwappedNulFree(l: Line)
    requires NulFree(l.left) && NulFree(l.right) && l.left != [] && l.right != []
    ensures NulFree(SwapChars(l).left) && NulFree(SwapChars(l).right)
  {
  }

  /** The cursor lies between two clusters, or at an end of the line. */
  predicate OnBoundary(t: Tables, l: Line) {
    l.left == [] || l.right == [] || l.right[0] !in t.combining
  }

  lemma OnBoundaryIs(t: Tables, l: Line)
    ensures |l.left| <= |Text(l)| && (OnBoundary(t, l) <==> Boundary(t, Text(l), |l.left|))
  {
  }

  /** When a key that is pressed on a boundary ends on one, which is what the refreshes need:
      typing, unless it is before a leading mark; Ctrl-T, unless it steps in front of a mark,
      its own or that of the character it steps over; and every other key. */
  lemma BoundaryKept(t: Tables, buflen: nat, l: Line, key: Key)
    requires OnBoundary(t, l)
    ensures OnBoundary(t, Edited(t, buflen, l, key))
            <==> match key
                 case Type(_) =>
                   ByteCount(Text(l)) >= buflen || l.right == [] || l.right[0] !in t.combining
                 case CtrlT =>
                   l.left == [] || l.right == []
                   || (if |l.right| == 1 then l.left[|l.left| - 1] else l.right[1]) !in t.combining
                 case _ => true
  {
    hide Trimmed, PrevClusterLen, Encode;
    match key {
      case DeleteKey =>
        var n := ClusterLen(t, l.right);
        if n < |l.right| { assert n > 0 && l.right[n] == l.right[1..][n - 1]; }
      case LeftKey | RightKey =>
        OnBoundaryIs(t, l);
        MovesEndOnBoundary(t, l);
        MovesKeepText(t, l);
        OnBoundaryIs(t, MoveLeft(t, l));
        OnBoundaryIs(t, MoveRight(t, l));
      case _ =>
    }
  }

  function PressAll(t: Tables, buflen: nat, d: Desk, keys: seq<Key>): (r: Desk)
    requires DeskValid(d)
    ensures DeskValid(r) && |r.slots| == |d.slots|
  {
    if keys == [] then d
    else Press(t, buflen, PressAll(t, buflen, d, keys[..|keys| - 1]), keys[|keys| - 1])
  }

  /** What the editor takes for granted about a key: typed characters are not NUL and fit
      if a byte is free, and Ctrl-T is pressed between single-byte characters. */
  predicate Fits(buflen: nat, d: Desk, key: Key) {
    && (key.Type? ==>
          key.c != 0
          && (ByteCount(Text(d.line)) < buflen ==> ByteCount(Text(d.line)) + |EncodeOne(key.c)| <= buflen))
    && (key.CtrlT? ==> AsciiCut(d.line))
  }

  ghost predicate FitsAll(t: Tables, buflen: nat, d: Desk, keys: seq<Key>)
    requires DeskValid(d)
  {
    forall i :: 0 <= i < |keys| ==> Fits(buflen, PressAll(t, buflen, d, keys[..i]), keys[i])
  }

  lemma NoKeys(t: Tables, buflen: nat, d: Desk, keys: seq<Key>)
    requires DeskValid(d)
    ensures PressAll(t, buflen, d, keys[..0]) == d && keys[..|keys|] == keys
  {
  }

  lemma OneMoreKey(t: Tables, buflen: nat, d: Desk, keys: seq<Key>, i: nat)
    requires DeskValid(d) && FitsAll(t, buflen, d, keys) && i < |keys|
    ensures Fits(buflen, PressAll(t, buflen, d, keys[..i]), keys[i])
    ensures PressAll(t, buflen, d, keys[..i + 1]) == Press(t, buflen, PressAll(t, buflen, d, keys[..i]), keys[i])
  {
    hide Fits, Press, DeskValid;
    assert keys[..i + 1][..i] == keys[..i] && keys[..i + 1][i] == keys[i];
  }

  predicate NulFree(cs: seq<CodePoint>) {
    forall i :: 0 <= i < |cs| ==> cs[i] != 0
  }

  /** Browsing there and back, over any distance and at both ends of the list, shows every
      slot unchanged: no edit is lost. */
  lemma {:induction false} BrowsingLosesNothing(t: Tables, buflen: nat, d: Desk, keys: seq<Key>)
    requires DeskValid(d) && forall i :: 0 <= i < |keys| ==> keys[i] == Up || keys[i] == Down
    ensures PressAll(t, buflen, d, keys).slots == d.slots
  {
    if keys != [] {
      BrowsingLosesNothing(t, buflen, d, keys[..|keys| - 1]);
    }
  }

  function CString(s: seq<Byte>): seq<Byte> {
    if s == [] || s[0] == 0 then [] else [s[0]] + CString(s[1..])
  }

  lemma {:induction false} CStringStops(s: seq<Byte>, n: nat)
    requires n < |s| && s[n] == 0 && forall i :: 0 <= i < n ==> s[i] != 0
    ensures CString(s) == s[..n]
  {
    if n > 0 {
      CStringStops(s[1..], n - 1);
      assert s[..n] == [s[0]] + s[1..][..n - 1];
    }
  }

  lemma {:induction false} NulFreeBytes(cs: seq<CodePoint>)
    requires NulFree(cs)
    ensures forall i :: 0 <= i < |Encode(cs)| ==> Encode(cs)[i] != 0
  {
    if cs != [] {
      NulFreeBytes(cs[1..]);
      assert forall i :: 0 <= i < |EncodeOne(cs[0])| ==> EncodeOne(cs[0])[i] != 0;
    }
  }

  /** A stored line written to the front of the buffer. */
  lemma LoadedHolds(s: seq<Byte>, entry: seq<Byte>, cs: seq<CodePoint>)
    requires entry == Encode(cs) && |entry| < |s|
    ensures Holds(Splice(s, 0, entry + [NUL]), |entry|, |entry|, Line(cs, []))
  {
    hide Encode;
    NonemptyEncoding([]);
    var r := Splice(s, 0, entry + [NUL]);
    assert r[..|entry|] == entry && r[|entry|] == NUL;
  }

  class Session {
    const editor: LineState
    var history: seq<Entry>
    var historyIndex: int
    ghost var slots: seq<seq<CodePoint>>

    /** The stored history is the slots the user sees, except that the slot being edited may
        hold an older line; every slot can be loaded into the buffer. */
    ghost predicate Valid()
      reads this, editor, editor.buf
    {
      && editor.Valid() && 0 <= historyIndex < |history| && |slots| == |history|
      && DeskValid(Seen())
      && (forall i :: 0 <= i < |slots| ==> NulFree(slots[i]) && ByteCount(slots[i]) <= editor.buflen)
      && forall i :: 0 <= i < |slots| && i != |slots| - 1 - historyIndex ==> history[i] == Encode(slots[i])
    }

    ghost function Seen(): Desk
      reads this, editor
    {
      Desk(slots, if historyIndex >= 0 then historyIndex else 0, editor.line)
    }

    /** The stored history with the current slot replaced by the line in the buffer. */
    ghost function Live(): seq<Entry>
      reads this, editor.buf
    {
      if 0 <= historyIndex < |history|
      then history[|history| - 1 - historyIndex := CString(editor.buf[..])] else history
    }

    lemma LiveSlots()
      requires Valid()
      ensures |Live()| == |slots| && forall i :: 0 <= i < |slots| ==> Live()[i] == Encode(slots[i])
    {
      hide Encode, Holds;
      StoredLine();
    }

    constructor (editor: LineState, history: seq<Entry>, ghost texts: seq<seq<CodePoint>>)
      requires editor.Valid() && editor.line == Line([], []) && history != [] && |texts| == |history|
      requires forall i :: 0 <= i < |texts| ==>
                 history[i] == Encode(texts[i]) && NulFree(texts[i]) && ByteCount(texts[i]) <= editor.buflen
      requires texts[|texts| - 1] == []
      ensures Valid() && this.editor == editor && Seen() == Desk(texts, 0, Line([], []))
    {
      this.editor := editor;
      this.history := history;
      historyIndex := 0;
      slots := texts;
    }

    lemma FitsArray()
      requires editor.Valid()
      ensures editor.buf.Length == editor.buflen + 1
    {
    }

    /** Loads a stored line into the buffer: `memset`, `strcpy`, cursor to the end. */
    method LoadEntry(entry: Entry, ghost cs: seq<CodePoint>)
      requires editor.Valid() && entry == Encode(cs) && |entry| <= editor.buflen
      modifies editor, editor.buf
      ensures editor.Valid() && editor.line == Line(cs, [])
    {
      hide Encode, Splice, Holds;
      var buf := editor.buf;
      FitsArray();
      forall i | 0 <= i < editor.buflen {
        buf[i] := NUL;
      }
      LoadedHolds(buf[..], entry, cs);
      editor.Memcpy(0, entry + [NUL]);
      editor.pos, editor.len := |entry|, |entry|;
      editor.line := Line(cs, []);
    }

    /** Stores the live line in its slot, which makes the list what the user sees. */
    method StoreLine()
      requires Valid()
      modifies `history
      ensures Valid() && |history| == old(|history|)
      ensures forall i :: 0 <= i < |slots| ==> history[i] == Encode(slots[i])
    {
      hide Encode;
      StoredLine();
      history := history[|history| - 1 - historyIndex := CString(editor.buf[..])];
    }

    /** Up and down: stores the live line in its slot, then shows the neighbouring one. */
    method EditHistoryNext(up: bool)
      requires Valid()
      modifies this, editor, editor.buf
      ensures Valid() && Seen() == Press(editor.t, editor.buflen, old(Seen()), if up then Up else Down)
      ensures Live() == old(Live())
    {
      hide Encode, Holds, CString;
      LiveSlots();
      BrowseMoves(up);
      LiveSlots();
    }

    method BrowseMoves(up: bool)
      requires Valid()
      modifies this, editor, editor.buf
      ensures Valid() && Seen() == Press(editor.t, editor.buflen, old(Seen()), if up then Up else Down)
    {
      hide Encode, Holds, Press;
      BrowsePressed(editor.t, editor.buflen, Seen(), up);
      if |history| > 1 {
        StoreLine();
        historyIndex := historyIndex + if up then 1 else -1;
        if historyIndex < 0 {
          historyIndex := 0;
          return;
        } else if historyIndex >= |history| {
          historyIndex := |history| - 1;
          return;
        }
        ShowEntry();
      }
    }

    /** Loads the slot `historyIndex` has just been moved to. */
    method ShowEntry()
      requires editor.Valid() && 0 <= historyIndex < |history| && |slots| == |history|
      requires forall i :: 0 <= i < |slots| ==> NulFree(slots[i]) && ByteCount(slots[i]) <= editor.buflen
      requires forall i :: 0 <= i < |slots| ==> history[i] == Encode(slots[i])
      modifies editor, editor.buf
      ensures Valid() && editor.line == Line(slots[|history| - 1 - historyIndex], [])
    {
      hide Encode, Holds;
      LoadEntry(history[|history| - 1 - historyIndex], slots[|history| - 1 - historyIndex]);
      assert Text(editor.line) == slots[|history| - 1 - historyIndex];
    }

    /** The buffer read as a C string is the live line. */
    lemma StoredLine()
      requires Valid()
      ensures CString(editor.buf[..]) == Encode(Text(editor.line))
    {
      editor.TextEncoded();
      var cs := Text(editor.line);
      assert slots[|slots| - 1 - historyIndex] == cs;
      NulFreeBytes(cs);
      hide Encode;
      assert forall i :: 0 <= i < editor.len ==> editor.buf[..][i] == editor.buf[..editor.len][i];
      CStringStops(editor.buf[..], editor.len);
      assert editor.buf[..][..editor.len] == editor.buf[..editor.len];
    }

    /** One key. Up and down show the neighbouring slot, with the cursor at its end; the other
        keys change the live line, and with it its own slot only. */
    method PressKey(key: Key)
      requires Valid() && Fits(editor.buflen, Seen(), key)
      modifies this, editor, editor.buf
      ensures Valid() && Seen() == Press(editor.t, editor.buflen, old(Seen()), key)
      ensures key.Up? || key.Down? ==>
                var index := old(historyIndex) + if key.Up? then 1 else -1;
                && slots == old(slots)
                && (0 <= index < |slots| ==>
                      historyIndex == index && editor.line == Line(slots[|slots| - 1 - index], []))
                && (!(0 <= index < |slots|) ==> historyIndex == old(historyIndex) && editor.line == old(editor.line))
      ensures !key.Up? && !key.Down? ==>
                && historyIndex == old(historyIndex)
                && slots == old(slots)[|slots| - 1 - historyIndex := editor.line.left + editor.line.right]
      ensures key.HomeKey? ==> editor.line == Line([], old(editor.line.left + editor.line.right))
      ensures key.EndKey? ==> editor.line == Line(old(editor.line.left + editor.line.right), [])
      ensures key.CtrlU? ==> editor.line == Line([], [])
      ensures key.CtrlK? ==> editor.line == Line(old(editor.line.left), [])
      ensures key.Type? ==>
                var l := old(editor.line);
                editor.line
                == if ByteCount(l.left + l.right) < editor.buflen then Line(l.left + [key.c], l.right) else l
      ensures key.LeftKey? || key.RightKey? ==>
                editor.line.left + editor.line.right == old(editor.line.left + editor.line.right)
      ensures key.LeftKey? || key.BackspaceKey? ==>
                && editor.line.left <= old(editor.line.left)
                && LastCluster(editor.t, old(editor.line.left), |editor.line.left|)
      ensures key.BackspaceKey? || key.CtrlW? ==> editor.line.right == old(editor.line.right)
      ensures key.RightKey? ==>
                && old(editor.line.left) <= editor.line.left
                && FirstCluster(editor.t, old(editor.line.right), |editor.line.left| - |old(editor.line.left)|)
      ensures key.DeleteKey? ==>
                var l, r := editor.line, old(editor.line.right);
                && l.left == old(editor.line.left) && |l.right| <= |r| && l.right == r[|r| - |l.right|..]
                && FirstCluster(editor.t, r, |r| - |l.right|)
      ensures key.CtrlW? ==>
                && editor.line.left <= old(editor.line.left)
                && exists n :: LastWord(old(editor.line.left), |editor.line.left|, n)
      ensures key.CtrlT? ==> SwapsAround(old(editor.line), editor.line)
    {
      hide *;
      ghost var d := Seen();
      SeenFields();
      if key.Up? || key.Down? {
        BrowsedFields(editor.t, editor.buflen, d, key);
        EditHistoryNext(key.Up?);
        SeenFields();
      } else {
        KeysEdit(editor.t, editor.buflen, editor.line, key);
        MovesCross(editor.t, editor.buflen, editor.line, key);
        WordAndSwap(editor.t, editor.buflen, editor.line, key);
        PressEdit(key);
      }
    }

    lemma SeenFields()
      requires Valid()
      ensures DeskValid(Seen()) && Seen() == Desk(slots, historyIndex, editor.line) && 0 <= historyIndex < |slots|
    {
    }

    /** The keys that act on the live line change it, and its slot. */
    method PressEdit(key: Key)
      requires Valid() && Fits(editor.buflen, Seen(), key) && !key.Up? && !key.Down?
      modifies this, editor, editor.buf
      ensures Valid() && Seen() == Press(editor.t, editor.buflen, old(Seen()), key)
      ensures editor.line == Edited(editor.t, editor.buflen, old(editor.line), key)
      ensures 0 <= historyIndex < |slots| == |old(slots)| && historyIndex == old(historyIndex)
      ensures slots == old(slots)[|slots| - 1 - historyIndex := editor.line.left + editor.line.right]
    {
      hide Encode, Holds, EncodeOne, Edited;
      LiveLine();
      EditedNulFree(editor.t, editor.buflen, editor.line, key);
      EditKey(key);
      FitsBuffer();
      slots := slots[|slots| - 1 - historyIndex := Text(editor.line)];
    }

    lemma LiveLine()
      requires Valid()
      ensures NulFree(Text(editor.line))
    {
      assert slots[|slots| - 1 - historyIndex] == Text(editor.line);
    }

    lemma FitsBuffer()
      requires editor.Valid()
      ensures ByteCount(Text(editor.line)) == editor.len <= editor.buflen
    {
      editor.TextEncoded();
    }

    /** The keys that act on the live line. */
    method EditKey(key: Key)
      requires editor.Valid() && !key.Up? && !key.Down?
      requires Fits(editor.buflen, Seen(), key)
      modifies editor, editor.buf
      ensures editor.Valid() && editor.line == Edited(editor.t, editor.buflen, old(editor.line), key)
    {
      hide Encode, Holds, EncodeOne;
      FitsBuffer();
      match key {
        case Type(c) => editor.EditInsert(EncodeOne(c), c);
        case DeleteKey => editor.EditDelete();
        case BackspaceKey => editor.EditBackspace();
        case LeftKey => editor.EditMoveLeft();
        case RightKey => editor.EditMoveRight();
        case HomeKey => editor.EditMoveHome();
        case EndKey => editor.EditMoveEnd();
        case CtrlU => editor.KillLine();
        case CtrlK => editor.KillToEnd();
        case CtrlW => editor.EditDeletePrevWord();
        case CtrlT => editor.SwapAround();
      }
    }

    /** The key loop. Key by key the buffer holds the abstract line, and the history the
        abstract slots, that the keys so far give. */
    method EditLoop(keys: seq<Key>) returns (ghost desks: seq<Desk>)
      requires Valid() && FitsAll(editor.t, editor.buflen, Seen(), keys)
      modifies this, editor, editor.buf
      ensures Valid() && |desks| == |keys| + 1 && desks[0] == old(Seen()) && desks[|keys|] == Seen()
      ensures forall i :: 0 <= i < |keys| ==>
                DeskValid(desks[i]) && desks[i + 1] == Press(editor.t, editor.buflen, desks[i], keys[i])
      ensures Seen() == PressAll(editor.t, editor.buflen, old(Seen()), keys)
      ensures (forall i :: 0 <= i < |keys| ==> keys[i] == Up || keys[i] == Down) ==> Live() == old(Live())
    {
      hide *;
      ghost var d := Seen();
      desks := [d];
      LiveSlots();
      SeenFields();
      NoKeys(editor.t, editor.buflen, d, keys);
      for i := 0 to |keys|
        invariant Valid() && |desks| == i + 1 && desks[0] == d && desks[i] == Seen()
        invariant Seen() == PressAll(editor.t, editor.buflen, d, keys[..i])
        invariant forall j :: 0 <= j < i ==>
                    DeskValid(desks[j]) && desks[j + 1] == Press(editor.t, editor.buflen, desks[j], keys[j])
      {
        OneMoreKey(editor.t, editor.buflen, d, keys, i);
        SeenFields();
        PressKey(keys[i]);
        desks := desks + [Seen()];
      }
      LiveSlots();
      SeenFields();
      if forall i :: 0 <= i < |keys| ==> keys[i] == Up || keys[i] == Down {
        BrowsingLosesNothing(editor.t, editor.buflen, d, keys);
      }
    }
  }
}
