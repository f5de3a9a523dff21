/** The abstract line editor: a text with a cursor, as the code points on either side. */
module Lines {
  import opened Utf8
  import opened Graphemes

  const SPACE: CodePoint := 32

  datatype Line = Line(left: seq<CodePoint>, right: seq<CodePoint>)

  function Text(l: Line): seq<CodePoint> {
    l.left + l.right
  }

  function Insert(l: Line, c: CodePoint): Line {
    Line(l.left + [c], l.right)
  }

  function MoveLeft(t: Tables, l: Line): Line {
    var k := |l.left| - PrevClusterLen(t, l.left);
    Line(l.left[..k], l.left[k..] + l.right)
  }

  function MoveRight(t: Tables, l: Line): Line {
    var k := ClusterLen(t, l.right);
    Line(l.left + l.right[..k], l.right[k..])
  }

  function Delete(t: Tables, l: Line): Line {
    Line(l.left, l.right[ClusterLen(t, l.right)..])
  }

  function Backspace(t: Tables, l: Line): Line {
    Line(l.left[..|l.left| - PrevClusterLen(t, l.left)], l.right)
  }

  /** How long a prefix remains once its trailing spaces, or non-spaces, are dropped. */
  function Trimmed(cs: seq<CodePoint>, spaces: bool): (n: nat)
    ensures n <= |cs|
    ensures forall i :: n <= i < |cs| ==> (cs[i] == SPACE <==> spaces)
    ensures n > 0 ==> (cs[n - 1] == SPACE <==> !spaces)
  {
    if cs == [] || (cs[|cs| - 1] == SPACE) != spaces then |cs|
    else Trimmed(cs[..|cs| - 1], spaces)
  }

  function DeletePrevWord(l: Line): Line {
    var spaces := l.left[..Trimmed(l.left, true)];
    Line(spaces[..Trimmed(spaces, false)], l.right)
  }

  /** Ctrl-T: swaps the characters around the cursor and steps over them, except before
      the last character, where the cursor stays. */
  function SwapChars(l: Line): Line
    requires l.left != [] && l.right != []
  {
    var a, b := l.left[|l.left| - 1], l.right[0];
    var rest := l.left[..|l.left| - 1];
    if |l.right| == 1 then Line(rest + [b], [a]) else Line(rest + [b, a], l.right[1..])
  }

  // ---------- what the operations mean to each other

  /** Left then right comes back exactly from a cluster boundary with a base character
      before it, or from the end of a text without any. */
  lemma LeftThenRight(t: Tables, l: Line)
    ensures MoveRight(t, MoveLeft(t, l)) == l
            <==> if PrevClusterLen(t, l.left) > 0 then Marks(t, l.right) == 0 else l.right == []
  {
  }

  /** Backspace undoes typing exactly for characters that do not combine. */
  lemma TypeThenBackspace(t: Tables, l: Line, c: CodePoint)
    ensures Backspace(t, Insert(l, c)) == l <==> c !in t.combining
  {
  }

  /** Moving never changes the text, deleting only removes the cluster crossed. */
  lemma MovesKeepText(t: Tables, l: Line)
    ensures Text(MoveLeft(t, l)) == Text(l) == Text(MoveRight(t, l))
    ensures Text(l) == Backspace(t, l).left + l.left[|Backspace(t, l).left|..] + l.right
    ensures Backspace(t, l).left == MoveLeft(t, l).left
    ensures Delete(t, l).right == MoveRight(t, l).right
  {
    hide PrevClusterLen, ClusterLen;
  }

  /** Every motion ends on a cluster boundary. */
  lemma MovesEndOnBoundary(t: Tables, l: Line)
    requires Boundary(t, Text(l), |l.left|)
    ensures Boundary(t, Text(l), |MoveLeft(t, l).left|)
    ensures Boundary(t, Text(l), |MoveRight(t, l).left|)
  {
  }
}
