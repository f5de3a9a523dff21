/** The scanners of the line editor: from bytes to characters, grapheme clusters (a base
    character and the combining characters after it) and screen columns. */
module Graphemes {
  import opened Bits
  import opened Utf8

  /** The two character tables, whatever they contain. */
  datatype Tables = Tables(combining: set<nat>, wide: set<nat>)

  // ---------- clusters and columns of code points

  function Marks(t: Tables, cs: seq<CodePoint>): (n: nat)
    ensures n <= |cs|
    ensures forall i :: 0 <= i < n ==> cs[i] in t.combining
    ensures n < |cs| ==> cs[n] !in t.combining
  {
    if cs != [] && cs[0] in t.combining then 1 + Marks(t, cs[1..]) else 0
  }

  /** The cluster that starts a text: its first character and the marks after it. */
  function ClusterLen(t: Tables, cs: seq<CodePoint>): (n: nat)
    ensures n <= |cs| && (cs != [] ==> n > 0)
  {
    if cs == [] then 0 else 1 + Marks(t, cs[1..])
  }

  /** The cluster that ends a text, from its last base character on; 0 without a base. */
  function PrevClusterLen(t: Tables, cs: seq<CodePoint>): (n: nat)
    ensures n <= |cs|
    ensures n > 0 ==> cs[|cs| - n] !in t.combining && forall i :: |cs| - n < i < |cs| ==> cs[i] in t.combining
    ensures n == 0 ==> forall i :: 0 <= i < |cs| ==> cs[i] in t.combining
  {
    if cs == [] then 0
    else if cs[|cs| - 1] !in t.combining then 1
    else
      var n := PrevClusterLen(t, cs[..|cs| - 1]);
      if n == 0 then 0 else n + 1
  }

  /** A cut between two clusters, or an end of the text. */
  predicate Boundary(t: Tables, cs: seq<CodePoint>, i: nat)
    requires i <= |cs|
  {
    i == 0 || i == |cs| || cs[i] !in t.combining
  }

  function Width(t: Tables, c: nat): nat {
    if c in t.combining then 0 else if c in t.wide then 2 else 1
  }

  function Columns(t: Tables, cs: seq<CodePoint>): nat {
    if cs == [] then 0 else Width(t, cs[0]) + Columns(t, cs[1..])
  }

  lemma {:induction false} ColumnsAdd(t: Tables, a: seq<CodePoint>, b: seq<CodePoint>)
    ensures Columns(t, a + b) == Columns(t, a) + Columns(t, b)
  {
    if a == [] {
      assert a + b == b;
    } else {
      ColumnsAdd(t, a[1..], b);
      assert (a + b)[1..] == a[1..] + b;
    }
  }

  lemma {:induction false} ColumnsOfMarks(t: Tables, cs: seq<CodePoint>)
    ensures Columns(t, cs) == 0 <==> forall i :: 0 <= i < |cs| ==> cs[i] in t.combining
  {
    if cs != [] {
      ColumnsOfMarks(t, cs[1..]);
      assert forall i :: 0 < i < |cs| ==> cs[i] == cs[1..][i - 1];
    }
  }

  /** Text free of ESC, so that no byte sequence in it is a terminal escape. */
  predicate Plain(cs: seq<CodePoint>) {
    forall i :: 0 <= i < |cs| ==> cs[i] != 27
  }

  // ---------- the scanners

  lemma EncodedNext(cs: seq<CodePoint>, k: nat)
    requires k < |cs|
    ensures Encode(cs[k..]) == EncodeOne(cs[k]) + Encode(cs[k + 1..])
    ensures Encode(cs[..k + 1]) == Encode(cs[..k]) + EncodeOne(cs[k])
  {
    assert cs[k..][1..] == cs[k + 1..] && cs[k..][0] == cs[k];
    hide EncodeOne;
    assert cs[..k + 1] == cs[..k] + [cs[k]];
    EncodeAppend(cs[..k], [cs[k]]);
    EncodeSingle(cs[k]);
  }

  lemma EncodedLast(cs: seq<CodePoint>)
    requires cs != []
    ensures Encode(cs) == Encode(cs[..|cs| - 1]) + EncodeOne(cs[|cs| - 1])
  {
    hide EncodeOne, Encode;
    EncodedNext(cs, |cs| - 1);
    assert cs[..|cs|] == cs;
  }

  /** An encoded text starts with its first character, whose lead byte tells its length. */
  lemma EncodedStart(s: seq<Byte>, cs: seq<CodePoint>)
    requires cs != [] && s == Encode(cs)
    ensures var n := |EncodeOne(cs[0])|;
            && 0 < n <= |s| && CharLen(s[0]) == n
            && s[..n] == EncodeOne(cs[0]) && s[n..] == Encode(cs[1..])
  {
    hide EncodeOne, CharLen;
    BoundariesAgree(cs[0]);
  }

  method UnicodeUTF8CharLen(buf: seq<Byte>, bufLen: nat, pos: nat, ghost right: seq<CodePoint>) returns (n: nat)
    requires pos <= bufLen <= |buf| && buf[pos..bufLen] == Encode(right)
    ensures right == [] ==> n == 0
    ensures right != [] ==> n == |EncodeOne(right[0])| && pos + n <= bufLen
                            && buf[pos..pos + n] == EncodeOne(right[0])
                            && buf[pos + n..bufLen] == Encode(right[1..])
  {
    hide EncodeOne, CharLen;
    if right != [] { EncodedStart(buf[pos..bufLen], right); }
    NonemptyEncoding(right);
    if pos == bufLen {
      return 0;
    }
    n := CharLen(buf[pos]);
    assert buf[pos..bufLen][..n] == buf[pos..pos + n] && buf[pos..bufLen][n..] == buf[pos + n..bufLen];
  }

  method UnicodePrevUTF8CharLen(buf: seq<Byte>, pos: nat, ghost left: seq<CodePoint>) returns (n: nat)
    requires pos <= |buf| && left != [] && buf[..pos] == Encode(left)
    ensures n == |EncodeOne(left[|left| - 1])| && n <= pos
    ensures buf[pos - n..pos] == EncodeOne(left[|left| - 1])
    ensures buf[..pos - n] == Encode(left[..|left| - 1])
  {
    hide EncodeOne, Encode, Continuation;
    ghost var last, before := EncodeOne(left[|left| - 1]), Encode(left[..|left| - 1]);
    EncodedLast(left);
    BoundariesAgree(left[|left| - 1]);
    assert buf[..pos] == before + last;
    assert forall i :: 0 <= i < |last| ==> buf[|before| + i] == last[i];
    var end, p: int := pos, pos - 1;
    while p >= 0 && Continuation(buf[p])
      invariant |before| <= p < pos
      invariant end == pos
    {
      assert p == |before| + (p - |before|);
      p := p - 1;
    }
    n := end - p;
  }

  method UnicodeGraphemeLen(t: Tables, buf: seq<Byte>, bufLen: nat, start: nat,
      ghost right: seq<CodePoint>) returns (n: nat)
    requires start <= bufLen <= |buf| && buf[start..bufLen] == Encode(right)
    ensures n == |Encode(right[..ClusterLen(t, right)])|
  {
    hide EncodeOne, CharToCodePoint;
    var pos, len := start, 0;
    if pos == bufLen {
      assert right == [] by { NonemptyEncoding(right); }
      return 0;
    }
    len := UnicodeUTF8CharLen(buf, bufLen, pos, right);
    ghost var k := 1;
    EncodedNext(right, 0);
    pos := pos + len;
    while pos < bufLen
      invariant 1 <= k <= |right| && start <= pos <= bufLen
      invariant pos == start + |Encode(right[..k])| && buf[pos..bufLen] == Encode(right[k..])
      invariant ClusterLen(t, right) == k + Marks(t, right[k..])
    {
      NonemptyEncoding(right[k..]);
      len := UnicodeUTF8CharLen(buf, bufLen, pos, right[k..]);
      DecodeEncoded(right[k], []);
      assert EncodeOne(right[k]) + [] == buf[pos..pos + len];
      var cp := CharToCodePoint(buf[pos..pos + len]).1;
      assert right[k..][1..] == right[k + 1..];
      if cp !in t.combining {
        return pos - start;
      }
      EncodedNext(right, k);
      pos, k := pos + len, k + 1;
    }
    NonemptyEncoding(right[k..]);
    n := pos - start;
  }

  lemma NonemptyEncoding(cs: seq<CodePoint>)
    ensures Encode(cs) == [] <==> cs == []
  {
  }

  method UnicodePrevGraphemeLen(t: Tables, buf: seq<Byte>, start: nat, ghost left: seq<CodePoint>) returns (n: nat)
    requires start <= |buf| && buf[..start] == Encode(left)
    ensures n == |Encode(left[|left| - PrevClusterLen(t, left)..])|
  {
    hide EncodeOne, CharToCodePoint, Encode, PrevClusterLen;
    var pos: nat, end := start, start;
    ghost var k: nat := |left|;
    assert left[..k] == left && left[k..] == [];
    NonemptyEncoding(left);
    NonemptyEncoding(left[k..]);
    if pos == 0 {
      return 0;
    }
    while pos > 0
      invariant k <= |left| && pos <= start && end == start
      invariant buf[..pos] == Encode(left[..k]) && end - pos == |Encode(left[k..])|
      invariant forall i :: k <= i < |left| ==> left[i] in t.combining
    {
      NonemptyEncoding(left[..k]);
      ghost var before := left[..k];
      var len := UnicodePrevUTF8CharLen(buf, pos, before);
      assert before[..k - 1] == left[..k - 1];
      pos, k := pos - len, k - 1;
      EncodedNext(left, k);
      DecodeWhole(left[k]);
      var cp := CharToCodePoint(buf[pos..pos + len]).1;
      if cp !in t.combining {
        LastBase(t, left, k);
        return end - pos;
      }
    }
    NonemptyEncoding(left[..k]);
    LastBase(t, left, |left|);
    n := 0;
  }

  lemma DecodeWhole(c: CodePoint)
    ensures CharToCodePoint(EncodeOne(c)).1 == c
  {
    hide EncodeOne, CharToCodePoint;
    DecodeEncoded(c, []);
    assert EncodeOne(c) + [] == EncodeOne(c);
  }

  /** The last cluster starts at the last base character. */
  lemma LastBase(t: Tables, cs: seq<CodePoint>, k: nat)
    requires k <= |cs|
    requires k < |cs| ==> cs[k] !in t.combining && forall i :: k < i < |cs| ==> cs[i] in t.combining
    requires k == |cs| ==> forall i :: 0 <= i < |cs| ==> cs[i] in t.combining
    ensures PrevClusterLen(t, cs) == |cs| - k
  {
    var n := PrevClusterLen(t, cs);
    if n > 0 { assert cs[|cs| - n] !in t.combining; }
  }

  /** The letters that end a terminal escape. */
  predicate Final(b: Byte) {
    b as char in "ABCDEFGHJKSTfm"
  }

  /** The length of the terminal escape that starts `s`: ESC, '[', and everything up to the
      first final letter; 0 if there is none. */
  function AnsiEscapeLen(s: seq<Byte>): (n: nat)
    ensures n <= |s|
  {
    if |s| > 2 && s[0] == 27 && s[1] == '[' as int then FinalLetter(s, 2) else 0
  }

  function FinalLetter(s: seq<Byte>, off: nat): (n: nat)
    requires off <= |s|
    ensures n <= |s|
    decreases |s| - off
  {
    if off == |s| then 0 else if Final(s[off]) then off + 1 else FinalLetter(s, off + 1)
  }

  method IsAnsiEscape(buf: seq<Byte>) returns (found: bool, len: nat)
    ensures found <==> AnsiEscapeLen(buf) > 0
    ensures found ==> len == AnsiEscapeLen(buf)
  {
    hide Final;
    len := 0;
    if |buf| > 2 && buf[0] == 27 && buf[1] == '[' as int {
      var off := 2;
      while off < |buf|
        invariant 2 <= off <= |buf| && AnsiEscapeLen(buf) == FinalLetter(buf, off)
      {
        off := off + 1;
        if Final(buf[off - 1]) {
          return true, off;
        }
      }
    }
    found := false;
  }

  /** What a prompt is made of: characters other than ESC, and whole terminal escapes. */
  datatype Piece = Char(c: CodePoint) | Escape(bytes: seq<Byte>)

  predicate IsEscape(b: seq<Byte>) {
    && |b| > 2 && b[0] == 27 && b[1] == '[' as int
    && Final(b[|b| - 1]) && forall i :: 2 <= i < |b| - 1 ==> !Final(b[i])
  }

  predicate GoodPieces(ps: seq<Piece>) {
    forall i :: 0 <= i < |ps| ==> if ps[i].Char? then ps[i].c != 27 else IsEscape(ps[i].bytes)
  }

  function Bytes(p: Piece): seq<Byte> {
    if p.Char? then EncodeOne(p.c) else p.bytes
  }

  function Render(ps: seq<Piece>): seq<Byte> {
    if ps == [] then [] else Bytes(ps[0]) + Render(ps[1..])
  }

  /** The characters among the pieces, which are all that takes columns. */
  function Letters(ps: seq<Piece>): seq<CodePoint> {
    if ps == [] then [] else (if ps[0].Char? then [ps[0].c] else []) + Letters(ps[1..])
  }

  function Chars(cs: seq<CodePoint>): seq<Piece> {
    seq(|cs|, i requires 0 <= i < |cs| => Char(cs[i]))
  }

  lemma {:induction false} CharsAre(cs: seq<CodePoint>)
    ensures Render(Chars(cs)) == Encode(cs) && Letters(Chars(cs)) == cs
  {
    hide EncodeOne;
    if cs != [] {
      CharsAre(cs[1..]);
      assert Chars(cs)[1..] == Chars(cs[1..]);
    }
  }

  lemma PlainStart(c: CodePoint, rest: seq<Byte>)
    requires c != 27
    ensures AnsiEscapeLen(EncodeOne(c) + rest) == 0
  {
  }

  lemma {:induction false} FinalLetterIs(s: seq<Byte>, off: nat, n: nat)
    requires off <= n < |s| && Final(s[n]) && forall i :: off <= i < n ==> !Final(s[i])
    ensures FinalLetter(s, off) == n + 1
    decreases n - off
  {
    hide Final;
    if off < n {
      FinalLetterIs(s, off + 1, n);
    }
  }

  lemma EscapeStart(b: seq<Byte>, rest: seq<Byte>)
    requires IsEscape(b)
    ensures AnsiEscapeLen(b + rest) == |b|
  {
    hide FinalLetter, Final;
    FinalLetterIs(b + rest, 2, |b| - 1);
  }

  /** What the scanner finds at the start of each kind of piece. */
  lemma PieceScan(p: Piece, rest: seq<Byte>)
    requires GoodPieces([p])
    ensures |Bytes(p)| > 0
    ensures p.Escape? ==> AnsiEscapeLen(Bytes(p) + rest) == |Bytes(p)|
    ensures p.Char? ==> AnsiEscapeLen(Bytes(p) + rest) == 0
                        && CharToCodePoint(Bytes(p) + rest) == (|Bytes(p)|, p.c)
  {
    hide EncodeOne, CharToCodePoint, AnsiEscapeLen, FinalLetter;
    assert [p][0] == p;
    if p.Char? {
      PlainStart(p.c, rest);
      DecodeEncoded(p.c, rest);
    } else {
      EscapeStart(p.bytes, rest);
    }
  }

  lemma PieceStep(ps: seq<Piece>)
    requires GoodPieces(ps)
    ensures Render(ps) == [] <==> ps == []
    ensures ps == [] ==> Letters(ps) == []
    ensures ps != [] ==>
              && GoodPieces([ps[0]]) && GoodPieces(ps[1..])
              && Render(ps) == Bytes(ps[0]) + Render(ps[1..])
              && Letters(ps) == (if ps[0].Char? then [ps[0].c] else []) + Letters(ps[1..])
  {
    hide IsEscape, Bytes;
    if ps != [] {
      assert GoodPieces([ps[0]]);
      PieceScan(ps[0], []);
    }
  }

  lemma ColumnsOne(t: Tables, c: CodePoint, rest: seq<CodePoint>)
    ensures Columns(t, [c] + rest) == Width(t, c) + Columns(t, rest)
    ensures Columns(t, [] + rest) == Columns(t, rest) && Columns(t, []) == 0
  {
    assert ([c] + rest)[1..] == rest && [] + rest == rest;
  }

  /** The column count: every character its width, every escape nothing. */
  method UnicodeColumnPos(t: Tables, buf: seq<Byte>, bufLen: nat, ghost ps: seq<Piece>) returns (ret: nat)
    requires bufLen <= |buf| && buf[..bufLen] == Render(ps) && GoodPieces(ps)
    ensures ret == Columns(t, Letters(ps))
  {
    hide Render, Columns, Letters, GoodPieces, Bytes, CharToCodePoint, AnsiEscapeLen;
    ret := 0;
    var off := 0;
    ghost var left := ps;
    while off < bufLen
      invariant 0 <= off <= bufLen && buf[off..bufLen] == Render(left) && GoodPieces(left)
      invariant ret + Columns(t, Letters(left)) == Columns(t, Letters(ps))
      decreases bufLen - off
    {
      PieceStep(left);
      ghost var here := left[0];
      left := left[1..];
      ColumnsOne(t, if here.Char? then here.c else 0, Letters(left));
      var tail := buf[off..bufLen];
      PieceScan(here, Render(left));
      var found, len := IsAnsiEscape(tail);
      assert tail[|Bytes(here)|..] == Render(left) == buf[off + |Bytes(here)|..bufLen];
      if found {
        off := off + len;
        continue;
      }
      var d := CharToCodePoint(tail);
      if d.1 !in t.combining {
        ret := ret + if d.1 in t.wide then 2 else 1;
      }
      off := off + d.0;
    }
    PieceStep(left);
    ColumnsOne(t, 0, []);
  }
}
