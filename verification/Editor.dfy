/** The line editor on its byte buffer. The buffer always holds the UTF-8 encoding of an
    abstract line, with the cursor between two characters and a NUL behind the text, and
    every editing operation acts on it as the abstract operation of the same name. */
module Editors {
  import opened Bits
  import opened Utf8
  import opened Graphemes
  import opened Lines

  const NUL: Byte := 0

  /** `s` with `piece` written over it at `at`. */
  function Splice(s: seq<Byte>, at: nat, piece: seq<Byte>): (r: seq<Byte>)
    requires at + |piece| <= |s|
    ensures |r| == |s|
  {
    s[..at] + piece + s[at + |piece|..]
  }

  /** The buffer `s` holds the line `l` with the cursor at byte `pos`. */
  predicate Holds(s: seq<Byte>, pos: nat, len: nat, l: Line) {
    && pos <= len < |s|
    && s[..pos] == Encode(l.left) && s[pos..len] == Encode(l.right)
    && s[len] == NUL
  }

  lemma SpliceReads(s: seq<Byte>, at: nat, piece: seq<Byte>, lo: nat, hi: nat)
    requires at + |piece| <= |s| && lo <= hi <= |s|
    ensures hi <= at || at + |piece| <= lo ==> Splice(s, at, piece)[lo..hi] == s[lo..hi]
    ensures at <= lo && hi <= at + |piece| ==> Splice(s, at, piece)[lo..hi] == piece[lo - at..hi - at]
  {
    var r := Splice(s, at, piece);
    assert forall i :: 0 <= i < |s| ==> r[i] == if at <= i < at + |piece| then piece[i - at] else s[i];
    hide Splice;
  }

  /** Putting two pieces and the NUL in place gives a line. */
  lemma HoldsPieces(s: seq<Byte>, pos: nat, len: nat, l: Line)
    requires pos <= len < |s| && s[0..pos] == Encode(l.left) && s[pos..len] == Encode(l.right)
    ensures Holds(Splice(s, len, [NUL]), pos, len, l)
  {
    hide Encode;
    SpliceReads(s, len, [NUL], 0, pos);
    SpliceReads(s, len, [NUL], pos, len);
    assert Splice(s, len, [NUL])[..pos] == Splice(s, len, [NUL])[0..pos];
  }

  /** What inserting bytes leaves before and behind the cursor. */
  lemma InsertedBytes(s: seq<Byte>, pos: nat, len: nat, e: seq<Byte>)
    requires pos <= len && len + |e| <= |s|
    ensures var r := Splice(Splice(s, pos + |e|, s[pos..len]), pos, e);
            r[0..pos + |e|] == s[..pos] + e && r[pos + |e|..len + |e|] == s[pos..len]
  {
    var moved := Splice(s, pos + |e|, s[pos..len]);
    var r := Splice(moved, pos, e);
    SpliceReads(s, pos + |e|, s[pos..len], 0, pos);
    SpliceReads(s, pos + |e|, s[pos..len], pos + |e|, len + |e|);
    SpliceReads(moved, pos, e, 0, pos);
    SpliceReads(moved, pos, e, pos, pos + |e|);
    SpliceReads(moved, pos, e, pos + |e|, len + |e|);
    hide Splice;
    assert s[..pos] == s[0..pos];
    assert r[0..pos + |e|] == r[0..pos] + r[pos..pos + |e|];
  }

  lemma InsertHolds(s: seq<Byte>, pos: nat, len: nat, l: Line, c: CodePoint)
    requires Holds(s, pos, len, l) && len + |EncodeOne(c)| < |s|
    ensures var e := EncodeOne(c);
            var n := |e|;
            Holds(Splice(Splice(Splice(s, pos + n, s[pos..len]), pos, e), len + n, [NUL]), pos + n, len + n,
                  Insert(l, c))
  {
    hide EncodeOne, Encode, Splice;
    var n := |EncodeOne(c)|;
    EncodeAppend(l.left, [c]);
    EncodeSingle(c);
    InsertedBytes(s, pos, len, EncodeOne(c));
    HoldsPieces(Splice(Splice(s, pos + n, s[pos..len]), pos, EncodeOne(c)), pos + n, len + n, Insert(l, c));
  }

  /** At the end of the text there is nothing to move. */
  lemma MoveNothing(s: seq<Byte>, at: nat)
    requires at <= |s|
    ensures Splice(s, at, []) == s
  {
  }

  lemma MoveHolds(s: seq<Byte>, pos: nat, len: nat, l: Line, at: nat, m: Line)
    requires Holds(s, pos, len, l) && at <= len && Text(m) == Text(l)
    requires at == |Encode(m.left)|
    ensures Holds(s, at, len, m)
  {
    hide Encode;
    EncodeAppend(l.left, l.right);
    EncodeAppend(m.left, m.right);
    assert s[..len] == s[..pos] + s[pos..len];
    assert s[..at] == s[..len][..at] && s[at..len] == s[..len][at..];
  }

  lemma MoveLeftHolds(t: Tables, s: seq<Byte>, pos: nat, len: nat, l: Line)
    requires Holds(s, pos, len, l)
    ensures var n := |Encode(l.left[|l.left| - PrevClusterLen(t, l.left)..])|;
            n <= pos && Holds(s, pos - n, len, MoveLeft(t, l))
  {
    hide Encode, PrevClusterLen;
    var k := |l.left| - PrevClusterLen(t, l.left);
    EncodeSplit(l.left, k);
    MovesKeepText(t, l);
    MoveHolds(s, pos, len, l, |Encode(l.left[..k])|, MoveLeft(t, l));
  }

  lemma MoveRightHolds(t: Tables, s: seq<Byte>, pos: nat, len: nat, l: Line)
    requires Holds(s, pos, len, l)
    ensures var n := |Encode(l.right[..ClusterLen(t, l.right)])|;
            pos + n <= len && Holds(s, pos + n, len, MoveRight(t, l))
  {
    hide Encode, ClusterLen;
    var k := ClusterLen(t, l.right);
    EncodeSplit(l.right, k);
    EncodeAppend(l.left, l.right[..k]);
    MovesKeepText(t, l);
    MoveHolds(s, pos, len, l, pos + |Encode(l.right[..k])|, MoveRight(t, l));
  }

  lemma DeleteHolds(s: seq<Byte>, pos: nat, len: nat, l: Line, k: nat)
    requires Holds(s, pos, len, l) && k <= |l.right|
    ensures var n := |Encode(l.right[..k])|;
            pos + n <= len
            && Holds(Splice(Splice(s, pos, s[pos + n..len]), len - n, [NUL]), pos, len - n, Line(l.left, l.right[k..]))
  {
    hide Encode;
    var n := |Encode(l.right[..k])|;
    EncodeSplit(l.right, k);
    assert s[pos..len][n..] == s[pos + n..len];
    SpliceReads(s, pos, s[pos + n..len], 0, pos);
    SpliceReads(s, pos, s[pos + n..len], pos, len - n);
    assert s[..pos] == s[0..pos];
    HoldsPieces(Splice(s, pos, s[pos + n..len]), pos, len - n, Line(l.left, l.right[k..]));
  }

  lemma CutBackHolds(s: seq<Byte>, pos: nat, len: nat, l: Line, k: nat)
    requires Holds(s, pos, len, l) && k <= |l.left|
    ensures var n := |Encode(l.left[..k])|;
            n <= pos
            && Holds(Splice(Splice(s, n, s[pos..len]), len - (pos - n), [NUL]), n, len - (pos - n),
                     Line(l.left[..k], l.right))
  {
    hide Encode;
    var n := |Encode(l.left[..k])|;
    EncodeSplit(l.left, k);
    assert s[..pos][..n] == s[0..n];
    SpliceReads(s, n, s[pos..len], 0, n);
    SpliceReads(s, n, s[pos..len], n, len - (pos - n));
    HoldsPieces(Splice(s, n, s[pos..len]), n, len - (pos - n), Line(l.left[..k], l.right));
  }

  /** What backspace leaves; at the start of the line nothing is to be done. */
  lemma BackspaceHolds(t: Tables, s: seq<Byte>, pos: nat, len: nat, l: Line)
    requires Holds(s, pos, len, l)
    ensures pos <= len < |s| && s[..pos] == Encode(l.left)
    ensures var n := |Encode(l.left[|l.left| - PrevClusterLen(t, l.left)..])|;
            && n <= pos
            && Holds(Splice(Splice(s, pos - n, s[pos..len]), len - n, [NUL]), pos - n, len - n, Backspace(t, l))
    ensures pos == 0 ==> Backspace(t, l) == l
  {
    hide Encode, PrevClusterLen, Splice;
    var k := |l.left| - PrevClusterLen(t, l.left);
    NonemptyEncoding(l.left);
    EncodeSplit(l.left, k);
    CutBackHolds(s, pos, len, l, k);
  }

  /** Moving the NUL along with the text is the same as writing a new one. */
  lemma MoveWithNul(s: seq<Byte>, n: nat, pos: nat, len: nat)
    requires n <= pos <= len < |s| && s[len] == NUL
    ensures Splice(s, n, s[pos..len + 1]) == Splice(Splice(s, n, s[pos..len]), len - (pos - n), [NUL])
  {
    assert s[pos..len + 1] == s[pos..len] + [NUL];
  }

  /** Swapping the bytes around the cursor. */
  function SwappedBytes(s: seq<Byte>, pos: nat): (r: seq<Byte>)
    requires 0 < pos < |s|
    ensures |r| == |s|
  {
    s[pos - 1 := s[pos]][pos := s[pos - 1]]
  }

  /** The swapped buffer around the cut, byte by byte. */
  lemma SwapShape(s: seq<Byte>, pos: nat, len: nat, before: seq<Byte>, after: seq<Byte>)
    requires 0 < pos < len < |s| && before != [] && after != []
    requires s[..pos] == before && s[pos..len] == after
    ensures var r := SwappedBytes(s, pos);
            && r[..pos] == before[..|before| - 1] + [after[0]]
            && r[pos..len] == [before[|before| - 1]] + after[1..]
            && r[len] == s[len]
  {
    assert s[pos] == after[0] && s[pos - 1] == before[|before| - 1];
    assert before[..|before| - 1] == s[..pos - 1];
    assert after[1..] == s[pos + 1..len];
  }

  lemma AsciiSplit(l: Line)
    requires l.left != [] && l.right != []
    requires l.left[|l.left| - 1] < 0x80 && l.right[0] < 0x80
    ensures Encode(l.left) == Encode(l.left[..|l.left| - 1]) + [l.left[|l.left| - 1]]
    ensures Encode(l.right) == [l.right[0]] + Encode(l.right[1..])
    ensures Encode(l.left[..|l.left| - 1] + [l.right[0]]) == Encode(l.left[..|l.left| - 1]) + [l.right[0]]
    ensures Encode([l.left[|l.left| - 1]] + l.right[1..]) == [l.left[|l.left| - 1]] + Encode(l.right[1..])
  {
    var a, b, rest := l.left[|l.left| - 1], l.right[0], l.left[..|l.left| - 1];
    EncodedLast(l.left);
    EncodedHead(l.right);
    assert EncodeOne(a) == [a] && EncodeOne(b) == [b];
    hide Encode, EncodeOne;
    EncodeAppend(rest, [b]);
    EncodeAppend([a], l.right[1..]);
    EncodeSingle(a);
    EncodeSingle(b);
  }

  /** The cursor still between the swapped characters. */
  function SwappedHere(l: Line): Line
    requires l.left != [] && l.right != []
  {
    Line(l.left[..|l.left| - 1] + [l.right[0]], [l.left[|l.left| - 1]] + l.right[1..])
  }

  lemma SwapAsciiHere(s: seq<Byte>, pos: nat, len: nat, l: Line)
    requires Holds(s, pos, len, l) && l.left != [] && l.right != []
    requires l.left[|l.left| - 1] < 0x80 && l.right[0] < 0x80
    ensures 0 < pos < len && (|l.right| == 1 <==> pos == len - 1)
    ensures Holds(SwappedBytes(s, pos), pos, len, SwappedHere(l))
  {
    hide Encode, SwappedBytes;
    AsciiSplit(l);
    NonemptyEncoding(l.right[1..]);
    SwapShape(s, pos, len, Encode(l.left), Encode(l.right));
  }

  lemma SteppedOver(l: Line)
    requires l.left != [] && l.right != []
    ensures |l.right| == 1 ==> SwapChars(l) == SwappedHere(l)
    ensures |l.right| > 1 ==>
              && Text(SwapChars(l)) == Text(SwappedHere(l))
              && SwapChars(l).left == SwappedHere(l).left + [l.left[|l.left| - 1]]
  {
  }

  /** With single-byte neighbours, swapping bytes swaps characters. */
  lemma SwapAscii(s: seq<Byte>, pos: nat, len: nat, l: Line)
    requires Holds(s, pos, len, l) && l.left != [] && l.right != []
    requires l.left[|l.left| - 1] < 0x80 && l.right[0] < 0x80
    ensures 0 < pos < len && (|l.right| == 1 <==> pos == len - 1)
    ensures Holds(SwappedBytes(s, pos), if |l.right| == 1 then pos else pos + 1, len, SwapChars(l))
  {
    SwapAsciiHere(s, pos, len, l);
    SteppedOver(l);
    var a, here := l.left[|l.left| - 1], SwappedHere(l);
    assert EncodeOne(a) == [a];
    hide Encode, EncodeOne, SwappedBytes, SwapChars, SwappedHere, Text;
    EncodeAppend(here.left, [a]);
    EncodeSingle(a);
    if |l.right| > 1 {
      assert pos == |Encode(here.left)|;
      MoveHolds(SwappedBytes(s, pos), pos, len, here, pos + 1, SwapChars(l));
    }
  }

  /** With a longer neighbour, what is left is not UTF-8 at all. */
  lemma SwapBreaks(s: seq<Byte>, pos: nat, len: nat, l: Line, cs: seq<CodePoint>)
    requires Holds(s, pos, len, l) && l.left != [] && l.right != []
    requires l.left[|l.left| - 1] >= 0x80 || l.right[0] >= 0x80
    requires 0 < pos < len
    ensures SwappedBytes(s, pos)[..len] != Encode(cs)
  {
    var a, b, rest := l.left[|l.left| - 1], l.right[0], l.left[..|l.left| - 1];
    EncodedLast(l.left);
    EncodedHead(l.right);
    AsciiLength(a);
    AsciiLength(b);
    hide *;
    SwapWhole(s, pos, len, Encode(rest), EncodeOne(a), EncodeOne(b), Encode(l.right[1..]));
    if SwappedBytes(s, pos)[..len] == Encode(cs) {
      EncodePrefix(rest, SwapTail(EncodeOne(a), EncodeOne(b), Encode(l.right[1..])), cs);
      BrokenTail(a, b, Encode(l.right[1..]), cs[|rest|..]);
    }
  }

  lemma SwapWhole(s: seq<Byte>, pos: nat, len: nat, start: seq<Byte>, first: seq<Byte>, second: seq<Byte>,
      rest: seq<Byte>)
    requires 0 < pos < len < |s| && first != [] && second != []
    requires s[..pos] == start + first && s[pos..len] == second + rest
    ensures SwappedBytes(s, pos)[..len] == start + SwapTail(first, second, rest)
  {
    hide SwappedBytes;
    SwapShape(s, pos, len, start + first, second + rest);
    SwapJoins(start, first, second, rest);
    var r := SwappedBytes(s, pos);
    assert r[..len] == r[..pos] + r[pos..len];
  }

  /** The bytes of two neighbours with the ones at the cut between them swapped. */
  function SwapTail(first: seq<Byte>, second: seq<Byte>, rest: seq<Byte>): seq<Byte>
    requires first != [] && second != []
  {
    first[..|first| - 1] + [second[0]] + [first[|first| - 1]] + second[1..] + rest
  }

  lemma SwapJoins(start: seq<Byte>, first: seq<Byte>, second: seq<Byte>, rest: seq<Byte>)
    requires first != [] && second != []
    ensures var before, after := start + first, second + rest;
            before[..|before| - 1] + [after[0]] + ([before[|before| - 1]] + after[1..])
            == start + SwapTail(first, second, rest)
  {
  }

  lemma BrokenTail(a: CodePoint, b: CodePoint, rest: seq<Byte>, cs: seq<CodePoint>)
    requires |EncodeOne(a)| > 1 || |EncodeOne(b)| > 1
    ensures SwapTail(EncodeOne(a), EncodeOne(b), rest) != Encode(cs)
  {
    hide Encode, EncodeOne, Continuation, CharLen;
    var first, second := EncodeOne(a), EncodeOne(b);
    var n, s := |first|, SwapTail(first, second, rest);
    BoundariesAgree(a);
    BoundariesAgree(b);
    assert s[n - 1] == second[0] && s[n] == first[n - 1] && (n > 1 ==> s[0] == first[0]);
    NonemptyEncoding(cs);
    if cs != [] { StartsWithCharacter(cs); }
  }

  lemma SwappedStore(s: seq<Byte>, pos: nat)
    requires 0 < pos < |s|
    ensures SwappedBytes(s, pos) == s[pos - 1 := s[pos]][pos := s[pos - 1]]
  {
  }

  lemma EncodedHead(cs: seq<CodePoint>)
    requires cs != []
    ensures Encode(cs) == EncodeOne(cs[0]) + Encode(cs[1..])
  {
  }

  lemma AsciiLength(c: CodePoint)
    ensures |EncodeOne(c)| == 1 <==> c < 0x80
  {
  }

  class LineState {
    const t: Tables
    const buf: array<Byte>
    const buflen: nat        // the capacity without the terminating NUL
    var pos: nat
    var len: nat
    ghost var line: Line

    ghost predicate Valid()
      reads this, buf
    {
      buf.Length == buflen + 1 && Holds(buf[..], pos, len, line)
    }

    constructor (t: Tables, buflen: nat)
      ensures Valid() && fresh(buf) && this.t == t && this.buflen == buflen
      ensures line == Line([], []) && pos == len == 0
    {
      this.t := t;
      this.buflen := buflen;
      buf := new Byte[buflen + 1](_ => NUL);
      pos, len := 0, 0;
      line := Line([], []);
    }

    /** The bytes of the text are the encoding of the whole line. */
    lemma TextEncoded()
      requires Valid()
      ensures buf[..len] == Encode(Text(line))
    {
      EncodeAppend(line.left, line.right);
      assert buf[..len] == buf[..pos] + buf[pos..len];
    }

    method Memmove(dst: nat, src: nat, n: nat)
      requires dst + n <= buf.Length && src + n <= buf.Length
      modifies buf
      ensures buf[..] == Splice(old(buf[..]), dst, old(buf[..])[src..src + n])
    {
      forall i | 0 <= i < n {
        buf[dst + i] := buf[src + i];
      }
    }

    method Memcpy(dst: nat, bytes: seq<Byte>)
      requires dst + |bytes| <= buf.Length
      modifies buf
      ensures buf[..] == Splice(old(buf[..]), dst, bytes)
    {
      forall i | 0 <= i < |bytes| {
        buf[dst + i] := bytes[i];
      }
    }

    /** `buf[len] = '\0'`. */
    method Terminate()
      requires len < buf.Length
      modifies buf
      ensures buf[..] == Splice(old(buf[..]), len, [NUL])
    {
      buf[len] := NUL;
    }

    /** Inserts a character at the cursor; nothing happens when the buffer is full. The test
        is only that one byte is free, so the caller must know that the character fits. */
    method EditInsert(cbuf: seq<Byte>, ghost c: CodePoint)
      requires Valid() && cbuf == EncodeOne(c)
      requires len < buflen ==> len + |cbuf| <= buflen
      modifies this, buf
      ensures Valid()
      ensures line == if old(len) < buflen then Insert(old(line), c) else old(line)
    {
      hide EncodeOne, Splice, Encode;
      if len < buflen {
        InsertHolds(buf[..], pos, len, line, c);
        if len == pos {
          MoveNothing(buf[..], pos + |cbuf|);
          Memcpy(pos, cbuf);
        } else {
          Memmove(pos + |cbuf|, pos, len - pos);
          Memcpy(pos, cbuf);
        }
        pos, len := pos + |cbuf|, len + |cbuf|;
        Terminate();
        line := Insert(line, c);
      }
    }

    method EditMoveLeft()
      requires Valid()
      modifies this
      ensures Valid() && len == old(len) && line == MoveLeft(t, old(line))
    {
      hide Encode, PrevClusterLen;
      MoveLeftHolds(t, buf[..], pos, len, line);
      NonemptyEncoding(line.left);
      if pos > 0 {
        var n := UnicodePrevGraphemeLen(t, buf[..], pos, line.left);
        pos := pos - n;
      } else {
        NonemptyEncoding([]);
      }
      line := MoveLeft(t, line);
    }

    method EditMoveRight()
      requires Valid()
      modifies this
      ensures Valid() && len == old(len) && line == MoveRight(t, old(line))
    {
      hide Encode, ClusterLen;
      MoveRightHolds(t, buf[..], pos, len, line);
      NonemptyEncoding(line.right);
      if pos != len {
        var n := UnicodeGraphemeLen(t, buf[..], len, pos, line.right);
        pos := pos + n;
      } else {
        NonemptyEncoding([]);
      }
      line := MoveRight(t, line);
    }

    method EditMoveHome()
      requires Valid()
      modifies this
      ensures Valid() && len == old(len) && line == Line([], Text(old(line)))
    {
      hide Encode;
      NonemptyEncoding([]);
      MoveHolds(buf[..], pos, len, line, 0, Line([], Text(line)));
      if pos != 0 {
        pos := 0;
      }
      line := Line([], Text(line));
    }

    method EditMoveEnd()
      requires Valid()
      modifies this
      ensures Valid() && len == old(len) && line == Line(Text(old(line)), [])
    {
      hide Encode;
      TextEncoded();
      MoveHolds(buf[..], pos, len, line, len, Line(Text(line), []));
      if pos != len {
        pos := len;
      }
      line := Line(Text(line), []);
    }

    method EditDelete()
      requires Valid()
      modifies this, buf
      ensures Valid() && line == Delete(t, old(line))
    {
      hide Encode, ClusterLen, Splice;
      NonemptyEncoding(line.right);
      DeleteHolds(buf[..], pos, len, line, ClusterLen(t, line.right));
      if len > 0 && pos < len {
        var glen := UnicodeGraphemeLen(t, buf[..], len, pos, line.right);
        Memmove(pos, pos + glen, len - pos - glen);
        len := len - glen;
        Terminate();
      }
      line := Delete(t, line);
    }

    method EditBackspace()
      requires Valid()
      modifies this, buf
      ensures Valid() && line == Backspace(t, old(line))
    {
      hide Encode, PrevClusterLen, Splice, Backspace, Holds;
      BackspaceHolds(t, buf[..], pos, len, line);
      if pos > 0 && len > 0 {
        var glen := UnicodePrevGraphemeLen(t, buf[..], pos, line.left);
        Memmove(pos - glen, pos, len - pos);
        pos, len := pos - glen, len - glen;
        Terminate();
        line := Backspace(t, line);
      }
    }

    /** Ctrl-T swaps the bytes around the cursor. This swaps characters exactly when both
        are single bytes; otherwise the buffer no longer encodes any text. */
    method SwapAround()
      requires Valid()
      modifies this, buf
      ensures len == old(len)
      ensures old(line.left == [] || line.right == []) ==> Valid() && line == old(line)
      ensures old(line.left != [] && line.right != []) ==>
                if old(line.left[|line.left| - 1] < 0x80 && line.right[0] < 0x80)
                then Valid() && line == SwapChars(old(line))
                else len <= buf.Length && forall cs :: buf[..len] != Encode(cs)
    {
      hide Encode, SwappedBytes;
      NonemptyEncoding(line.left);
      NonemptyEncoding(line.right);
      if pos > 0 && pos < len {
        ghost var s, from, l := buf[..], pos, line;
        var aux := buf[pos - 1];
        buf[pos - 1] := buf[pos];
        buf[pos] := aux;
        assert buf[..] == SwappedBytes(s, from) by { SwappedStore(s, from); }
        if pos != len - 1 {
          pos := pos + 1;
        }
        line := SwapChars(line);
        if l.left[|l.left| - 1] < 0x80 && l.right[0] < 0x80 {
          SwapAscii(s, from, len, l);
        } else {
          forall cs ensures buf[..len] != Encode(cs) {
            SwapBreaks(s, from, len, l, cs);
          }
        }
      }
    }

    /** Ctrl-U. */
    method KillLine()
      requires Valid()
      modifies this, buf
      ensures Valid() && line == Line([], [])
    {
      buf[0] := NUL;
      pos, len := 0, 0;
      line := Line([], []);
    }

    /** Ctrl-K. */
    method KillToEnd()
      requires Valid()
      modifies this, buf
      ensures Valid() && line == Line(old(line).left, [])
    {
      hide Encode;
      ghost var before := buf[..pos];
      NonemptyEncoding([]);
      buf[pos] := NUL;
      assert buf[..pos] == before;
      len := pos;
      line := Line(line.left, []);
    }

    method EditDeletePrevWord()
      requires Valid()
      modifies this, buf
      ensures Valid() && line == DeletePrevWord(old(line))
    {
      hide Encode, Trimmed, Splice;
      ghost var k := |DeletePrevWord(line).left|;
      assert DeletePrevWord(line).left == line.left[..k];
      CutBackHolds(buf[..], pos, len, line, k);
      var oldPos := pos;
      SkipWord();
      MoveWithNul(buf[..], pos, oldPos, len);
      var diff := oldPos - pos;
      Memmove(pos, oldPos, len - oldPos + 1);
      len := len - diff;
      line := DeletePrevWord(line);
    }

    /** The two loops of `EditDeletePrevWord`: back over spaces, then over the word. */
    method SkipWord()
      requires Valid()
      modifies `pos
      ensures pos <= old(pos) && pos == |Encode(DeletePrevWord(line).left)|
    {
      hide Encode, Trimmed;
      ghost var spaces := line.left[..Trimmed(line.left, true)];
      ghost var word := spaces[..Trimmed(spaces, false)];
      ghost var before := buf[..pos];
      TrimmedBytes(line.left, true);
      TrimmedBytes(spaces, false);
      while pos > 0 && buf[pos - 1] == 32
        invariant |Encode(spaces)| <= pos <= old(pos)
        modifies `pos
      {
        pos := pos - 1;
      }
      assert pos > 0 ==> buf[pos - 1] == before[pos - 1];
      while pos > 0 && buf[pos - 1] != 32
        invariant |Encode(word)| <= pos <= |Encode(spaces)|
        modifies `pos
      {
        assert buf[pos - 1] == before[pos - 1] == Encode(spaces)[pos - 1];
        pos := pos - 1;
      }
      assert pos > 0 ==> buf[pos - 1] == before[pos - 1] == Encode(spaces)[pos - 1];
    }
  }

  /** Bytes 0x20 are exactly the spaces, so trimming bytes trims characters. */
  lemma {:induction false} TrimmedBytes(cs: seq<CodePoint>, spaces: bool)
    ensures var kept := Encode(cs[..Trimmed(cs, spaces)]);
            && kept <= Encode(cs)
            && (forall i :: |kept| <= i < |Encode(cs)| ==> (Encode(cs)[i] == 32 <==> spaces))
            && (kept != [] ==> (kept[|kept| - 1] == 32 <==> !spaces))
    decreases |cs|
  {
    if cs == [] || (cs[|cs| - 1] == SPACE) != spaces {
      assert cs[..|cs|] == cs;
      if cs != [] {
        EncodedLast(cs);
        SpaceBytes(cs[|cs| - 1]);
      }
    } else {
      var init := cs[..|cs| - 1];
      EncodedLast(cs);
      SpaceBytes(cs[|cs| - 1]);
      TrimmedBytes(init, spaces);
      assert init[..Trimmed(init, spaces)] == cs[..Trimmed(cs, spaces)];
    }
  }

  lemma SpaceBytes(c: CodePoint)
    ensures forall i :: 0 <= i < |EncodeOne(c)| ==> (EncodeOne(c)[i] == 32 <==> c == SPACE)
  {
  }
}
