/** Printing an integer of any width in base 16. */
module ToHex {
  function HexChar(digit: int): char
    requires 0 <= digit < 16
  {
    if digit < 10 then ('0' as int + digit) as char else ('a' as int + (digit - 10)) as char
  }

  predicate IsHex(c: char) {
    '0' <= c <= '9' || 'a' <= c <= 'f'
  }

  function HexValue(c: char): (v: nat)
    requires IsHex(c)
    ensures v < 16
  {
    if c <= '9' then c as int - '0' as int else c as int - 'a' as int + 10
  }

  /** The digits are the usual ones, and read back. */
  lemma DigitsAre(digit: nat)
    requires digit < 16
    ensures var c := "0123456789abcdef"[digit]; HexChar(digit) == c && IsHex(c) && HexValue(c) == digit
  {
  }

  /** Base-16 parsing, most significant digit first. */
  function Parse(s: string): (v: nat)
    requires forall i :: 0 <= i < |s| ==> IsHex(s[i])
  {
    if s == "" then 0 else 16 * Parse(s[..|s| - 1]) + HexValue(s[|s| - 1])
  }

  function Pow16(n: nat): (p: nat)
    ensures p >= 1
  {
    if n == 0 then 1 else 16 * Pow16(n - 1)
  }

  lemma ParseLast(s: string, c: char)
    requires IsHex(c) && forall i :: 0 <= i < |s| ==> IsHex(s[i])
    ensures Parse("") == 0 && Parse(s + [c]) == 16 * Parse(s) + HexValue(c)
  {
    assert (s + [c])[..|s|] == s;
  }

  lemma Pow16Step(n: nat)
    ensures Pow16(0) == 1 && Pow16(n + 1) == 16 * Pow16(n)
  {
  }

  lemma SixteenOut(v: int, p: int)
    ensures v * (16 * p) == 16 * (v * p)
  {
  }

  lemma {:induction false} ParsePrepend(c: char, s: string)
    requires IsHex(c) && forall i :: 0 <= i < |s| ==> IsHex(s[i])
    ensures Parse([c] + s) == HexValue(c) * Pow16(|s|) + Parse(s)
    ensures Parse(s) < Pow16(|s|)
  {
    hide Parse, Pow16, HexValue;
    if s == "" {
      assert [c] + s == "" + [c];
      ParseLast("", c);
      Pow16Step(0);
    } else {
      var init, last := s[..|s| - 1], s[|s| - 1];
      assert s == init + [last] && [c] + s == ([c] + init) + [last];
      ParsePrepend(c, init);
      ParseLast(init, last);
      ParseLast([c] + init, last);
      Pow16Step(|init|);
      SixteenOut(HexValue(c), Pow16(|init|));
    }
  }

  /** The values of an integer type of `size` bytes. */
  predicate InRange(v: int, size: nat) {
    -2 * v <= Pow16(2 * size) && v < Pow16(2 * size)
  }

  /** The value read back modulo the type: negative numbers as their two's complement. */
  predicate Prints(s: string, v: int, size: nat) {
    && (forall i :: 0 <= i < |s| ==> IsHex(s[i]))
    && Parse(s) == (if v >= 0 then v else v + Pow16(2 * size))
    && 1 <= |s| <= 2 * size
    && (s[0] == '0' ==> s == "0")
  }

  /** How far `v` still is from the original: what is printed plus what is left. */
  predicate Left(s: string, v: int, original: int) {
    (forall i :: 0 <= i < |s| ==> IsHex(s[i])) && original == v * Pow16(|s|) + Parse(s)
  }

  lemma NextDigit(s: string, v: int, original: int)
    requires Left(s, v, original)
    ensures IsHex(HexChar(v % 16)) && HexValue(HexChar(v % 16)) == v % 16
    ensures Left([HexChar(v % 16)] + s, v / 16, original)
  {
    var c := HexChar(v % 16);
    ParsePrepend(c, s);
    var p := Pow16(|s|);
    assert v * p == (v / 16) * (16 * p) + v % 16 * p by {
      assert v == v / 16 * 16 + v % 16;
      Distribute(v / 16, v % 16, p);
    }
  }

  lemma Distribute(q: int, r: int, p: int)
    ensures (q * 16 + r) * p == q * (16 * p) + r * p
  {
  }

  method ToHexString(original: int, size: nat) returns (s: string)
    requires size > 0 && InRange(original, size)
    ensures Prints(s, original, size)
  {
    var v := original;
    if v == 0 {
      assert Parse("0") == 16 * Parse("") + 0;
      return "0";
    }
    s := "";
    var pos := 2 * size - 1;
    ghost var before := v;
    while v != 0 && pos >= 0
      invariant -1 <= pos < 2 * size && |s| == 2 * size - 1 - pos
      invariant Left(s, v, original)
      invariant s != "" ==> s[0] == HexChar(before % 16) && v == before / 16 && before != 0
      invariant s == "" ==> v != 0
      invariant s != "" ==> Left(s[1..], before, original)
      decreases pos + 1
    {
      before := v;
      NextDigit(s, v, original);
      var digit := v % 16;
      s := [HexChar(digit)] + s;
      pos := pos - 1;
      v := v / 16;
    }
    Finished(s, v, before, original, size);
  }

  lemma MulMonotone(a: int, b: int, p: nat)
    requires a <= b
    ensures a * p <= b * p
  {
  }

  /** At the end nothing is left, or only the sign. */
  lemma Finished(s: string, v: int, before: int, original: int, size: nat)
    requires size > 0 && InRange(original, size) && Left(s, v, original) && s != "" && |s| <= 2 * size
    requires s[0] == HexChar(before % 16) && v == before / 16 && before != 0 && Left(s[1..], before, original)
    requires v == 0 || |s| == 2 * size
    ensures Prints(s, original, size)
  {
    var p := Pow16(|s|);
    ParsePrepend('0', s);
    ParsePrepend('0', s[1..]);
    if v != 0 {
      assert p == 16 * Pow16(2 * size - 1);
      SignOnly(v, p, original, Parse(s));
      SignDigit(before, Pow16(2 * size - 1), original, Parse(s[1..]));
    }
  }

  lemma SignOnly(v: int, p: int, original: int, low: int)
    requires p >= 1 && v != 0 && original == v * p + low && 0 <= low < p && -p <= 2 * original && original < p
    ensures v == -1 && original == low - p && original < 0
  {
    if v >= 1 {
      MulMonotone(1, v, p);
    } else if v <= -2 {
      MulMonotone(v, -2, p);
    }
  }

  lemma SignDigit(before: int, p: int, original: int, low: int)
    requires p >= 1 && original == before * p + low && 0 <= low < p && -16 * p <= 2 * original && original < 0
    ensures -8 <= before < 0 && before % 16 >= 8
  {
    if before >= 0 {
      MulMonotone(0, before, p);
    } else if before <= -9 {
      MulMonotone(before, -9, p);
    }
  }
}
