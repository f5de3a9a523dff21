/** UTF-8 (section 3 of RFC 3629) as the line editor reads it: code points by masks and
    shifts, character boundaries by looking at lead and continuation bytes. */
module Utf8 {
  import opened Bits

  /** A Unicode scalar value. */
  type CodePoint = c: int | 0 <= c <= 0x10FFFF && !(0xD800 <= c <= 0xDFFF)

  function EncodeOne(c: CodePoint): (s: seq<Byte>)
    ensures 1 <= |s| <= 4
  {
    if c < 0x80 then [c]
    else if c < 0x800 then [0xC0 + c / 0x40, 0x80 + c % 0x40]
    else if c < 0x1_0000 then [0xE0 + c / 0x1000, 0x80 + c / 0x40 % 0x40, 0x80 + c % 0x40]
    else [0xF0 + c / 0x4_0000, 0x80 + c / 0x1000 % 0x40, 0x80 + c / 0x40 % 0x40, 0x80 + c % 0x40]
  }

  function Encode(cs: seq<CodePoint>): seq<Byte> {
    if cs == [] then [] else EncodeOne(cs[0]) + Encode(cs[1..])
  }

  /** A byte of the form 10xxxxxx. */
  predicate Continuation(b: Byte) {
    And(b, 0xC0) == 0x80
  }

  /** The decoder: how many bytes it consumes (0 if it cannot decode) and the value. */
  function CharToCodePoint(s: seq<Byte>): (nat, nat) {
    if s == [] then (0, 0)
    else if And(s[0], 0x80) == 0 then (1, s[0])
    else if And(s[0], 0xE0) == 0xC0 then
      if |s| >= 2 then (2, Or(Shl(And(s[0], 0x1F), 6), And(s[1], 0x3F))) else (0, 0)
    else if And(s[0], 0xF0) == 0xE0 then
      if |s| >= 3 then
        (3, Or(Or(Shl(And(s[0], 0x0F), 12), Shl(And(s[1], 0x3F), 6)), And(s[2], 0x3F)))
      else (0, 0)
    else if And(s[0], 0xF8) == 0xF0 then
      if |s| >= 4 then
        (4, Or(Or(Or(Shl(And(s[0], 0x07), 18), Shl(And(s[1], 0x3F), 12)),
                  Shl(And(s[2], 0x3F), 6)), And(s[3], 0x3F)))
      else (0, 0)
    else (0, 0)
  }

  /** The length of the character a lead byte announces. */
  function CharLen(lead: Byte): nat {
    if lead < 0x80 then 1 else if lead < 0xE0 then 2 else if lead < 0xF0 then 3 else 4
  }

  lemma SmallPowers()
    ensures Pow2(3) == 8 && Pow2(4) == 0x10 && Pow2(5) == 0x20 && Pow2(6) == 0x40
    ensures Pow2(7) == 0x80 && Pow2(8) == 0x100 && Pow2(12) == 0x1000 && Pow2(18) == 0x4_0000
  {
    assert Pow2(6) == 0x40;
    hide Pow2;
    Pow2Sum(6, 6);
    Pow2Sum(6, 12);
    LowPowers();
  }

  lemma LowPowers()
    ensures Pow2(3) == 8 && Pow2(4) == 0x10 && Pow2(5) == 0x20
    ensures Pow2(7) == 0x80 && Pow2(8) == 0x100
  {
  }

  /** The masks of the scanners as arithmetic. */
  lemma Masks(b: Byte)
    ensures And(b, 0x80) == b - b % 0x80 && And(b, 0xC0) == b - b % 0x40 && And(b, 0xE0) == b - b % 0x20
    ensures And(b, 0xF0) == b - b % 0x10 && And(b, 0xF8) == b - b % 8
    ensures And(b, 0x3F) == b % 0x40 && And(b, 0x1F) == b % 0x20 && And(b, 0x0F) == b % 0x10
    ensures And(b, 0x07) == b % 8
  {
    SmallPowers();
    hide Pow2, And;
    AndHighMask(b, 7, 8);
    AndHighMask(b, 6, 8);
    AndHighMask(b, 5, 8);
    AndHighMask(b, 4, 8);
    AndHighMask(b, 3, 8);
    AndMask(b, 6);
    AndMask(b, 5);
    AndMask(b, 4);
    AndMask(b, 3);
  }

  lemma JoinThree(a: nat, b: nat, c: nat)
    requires b < 0x40 && c < 0x40
    ensures Or(Or(Shl(a, 12), Shl(b, 6)), c) == a * 0x1000 + b * 0x40 + c
  {
    SmallPowers();
    hide Pow2, Or, Shl;
    ShlIsProduct(b, 6);
    JoinFields(a, b * 0x40, 12);
    ShlIsProduct(a * 0x40 + b, 6);
    JoinFields(a * 0x40 + b, c, 6);
  }

  lemma JoinFour(a: nat, b: nat, c: nat, d: nat)
    requires b < 0x40 && c < 0x40 && d < 0x40
    ensures Or(Or(Or(Shl(a, 18), Shl(b, 12)), Shl(c, 6)), d) == a * 0x4_0000 + b * 0x1000 + c * 0x40 + d
  {
    SmallPowers();
    hide Pow2, Or, Shl;
    ShlIsProduct(b, 12);
    JoinFields(a, b * 0x1000, 18);
    ShlIsProduct(a * 0x40 + b, 12);
    JoinThree(a * 0x40 + b, c, d);
  }

  /** The decoder on each shape of a character, given its fields. */
  lemma DecodeOne(s: seq<Byte>)
    requires s != [] && s[0] < 0x80
    ensures CharToCodePoint(s) == (1, s[0])
  {
    hide And, Or, Shl;
    Masks(s[0]);
  }

  lemma DecodeTwo(s: seq<Byte>, x: nat, y: nat)
    requires |s| >= 2 && x < 0x20 && y < 0x40 && s[0] == 0xC0 + x && s[1] == 0x80 + y
    ensures CharToCodePoint(s) == (2, x * 0x40 + y)
  {
    hide And, Or, Shl, Pow2;
    Masks(s[0]);
    Masks(s[1]);
    SmallPowers();
    JoinFields(x, y, 6);
  }

  lemma TailBits(y: nat)
    requires y < 0x40
    ensures And(0x80 + y, 0x3F) == y
  {
    hide And;
    Masks(0x80 + y);
  }

  lemma DecodeThree(s: seq<Byte>, x: nat, y: nat, z: nat)
    requires |s| >= 3 && x < 0x10 && y < 0x40 && z < 0x40
    requires s[0] == 0xE0 + x && s[1] == 0x80 + y && s[2] == 0x80 + z
    ensures CharToCodePoint(s) == (3, x * 0x1000 + y * 0x40 + z)
  {
    hide And, Or, Shl, Pow2;
    Masks(s[0]);
    TailBits(y);
    TailBits(z);
    JoinThree(x, y, z);
  }

  lemma DecodeFour(s: seq<Byte>, x: nat, y: nat, z: nat, w: nat)
    requires |s| >= 4 && x < 8 && y < 0x40 && z < 0x40 && w < 0x40
    requires s[0] == 0xF0 + x && s[1] == 0x80 + y && s[2] == 0x80 + z && s[3] == 0x80 + w
    ensures CharToCodePoint(s) == (4, x * 0x4_0000 + y * 0x1000 + z * 0x40 + w)
  {
    hide And, Or, Shl, Pow2;
    Masks(s[0]);
    TailBits(y);
    TailBits(z);
    TailBits(w);
    JoinFour(x, y, z, w);
  }

  lemma LongFields(v: nat)
    ensures v == v / 0x1000 * 0x1000 + v / 0x40 % 0x40 * 0x40 + v % 0x40
    ensures v == v / 0x4_0000 * 0x4_0000 + v / 0x1000 % 0x40 * 0x1000 + v / 0x40 % 0x40 * 0x40 + v % 0x40
  {
    var a := v / 0x40;
    var b := a / 0x40;
    DivModUnique(v, 0x1000, b, a % 0x40 * 0x40 + v % 0x40);
    DivModUnique(v, 0x4_0000, b / 0x40, b % 0x40 * 0x1000 + a % 0x40 * 0x40 + v % 0x40);
  }

  lemma DecodeLong(c: CodePoint, rest: seq<Byte>)
    requires c >= 0x800
    ensures CharToCodePoint(EncodeOne(c) + rest) == (|EncodeOne(c)|, c)
  {
    hide CharToCodePoint;
    LongFields(c);
    var x, x', y, z, w: nat := c / 0x4_0000, c / 0x1000, c / 0x1000 % 0x40, c / 0x40 % 0x40, c % 0x40;
    if c < 0x1_0000 {
      assert EncodeOne(c) == [0xE0 + x', 0x80 + z, 0x80 + w];
      DecodeThree(EncodeOne(c) + rest, x', z, w);
    } else {
      assert EncodeOne(c) == [0xF0 + x, 0x80 + y, 0x80 + z, 0x80 + w];
      DecodeFour(EncodeOne(c) + rest, x, y, z, w);
    }
  }

  /** Decoding undoes encoding for every scalar value, whatever follows. */
  lemma DecodeEncoded(c: CodePoint, rest: seq<Byte>)
    ensures CharToCodePoint(EncodeOne(c) + rest) == (|EncodeOne(c)|, c)
  {
    hide CharToCodePoint;
    if c < 0x80 {
      DecodeOne([c] + rest);
    } else if c < 0x800 {
      DecodeTwo([0xC0 + c / 0x40, 0x80 + c % 0x40] + rest, c / 0x40, c % 0x40);
    } else {
      DecodeLong(c, rest);
    }
  }

  /** The lead byte announces the length, and only the others look like continuations; so
      scanning forward and scanning backward cut the same characters. */
  lemma BoundariesAgree(c: CodePoint)
    ensures CharLen(EncodeOne(c)[0]) == |EncodeOne(c)|
    ensures forall i :: 0 <= i < |EncodeOne(c)| ==> (Continuation(EncodeOne(c)[i]) <==> i > 0)
  {
    var s := EncodeOne(c);
    hide And;
    forall i | 0 <= i < |s| ensures Continuation(s[i]) <==> i > 0 {
      Masks(s[i]);
    }
  }

  lemma EncodeFirst(c: CodePoint, cs: seq<CodePoint>)
    ensures Encode([]) == [] && Encode([c] + cs) == EncodeOne(c) + Encode(cs)
  {
    hide EncodeOne;
    assert ([c] + cs)[1..] == cs;
  }

  lemma {:induction false} EncodeAppend(a: seq<CodePoint>, b: seq<CodePoint>)
    ensures Encode(a + b) == Encode(a) + Encode(b)
  {
    hide EncodeOne, Encode;
    if a == [] {
      assert a + b == b;
      EncodeFirst(0, []);
    } else {
      var first, rest := a[0], a[1..];
      assert a == [first] + rest && a + b == [first] + (rest + b);
      EncodeAppend(rest, b);
      EncodeFirst(first, rest);
      EncodeFirst(first, rest + b);
    }
  }

  lemma EncodeSingle(c: CodePoint)
    ensures Encode([c]) == EncodeOne(c)
  {
    assert [c][1..] == [];
  }

  lemma EncodeSplit(cs: seq<CodePoint>, k: nat)
    requires k <= |cs|
    ensures Encode(cs) == Encode(cs[..k]) + Encode(cs[k..])
  {
    hide Encode;
    assert cs == cs[..k] + cs[k..];
    EncodeAppend(cs[..k], cs[k..]);
  }

  /** An encoding determines its code points. */
  lemma {:induction false} EncodeInjective(a: seq<CodePoint>, b: seq<CodePoint>)
    requires Encode(a) == Encode(b)
    ensures a == b
  {
    hide EncodeOne, CharToCodePoint;
    if a == [] || b == [] {
    } else {
      DecodeEncoded(a[0], Encode(a[1..]));
      DecodeEncoded(b[0], Encode(b[1..]));
      var n := |EncodeOne(a[0])|;
      assert Encode(a)[n..] == Encode(a[1..]) && Encode(b)[n..] == Encode(b[1..]);
      EncodeInjective(a[1..], b[1..]);
    }
  }

  /** A text that starts with the encoding of `xs` starts with `xs`. */
  lemma {:induction false} EncodePrefix(xs: seq<CodePoint>, s: seq<Byte>, cs: seq<CodePoint>)
    requires Encode(xs) + s == Encode(cs)
    ensures xs <= cs && s == Encode(cs[|xs|..])
  {
    hide EncodeOne, CharToCodePoint;
    if xs == [] {
      assert cs[0..] == cs && Encode(xs) + s == s;
    } else {
      DecodeEncoded(xs[0], Encode(xs[1..]) + s);
      assert Encode(xs) + s == EncodeOne(xs[0]) + (Encode(xs[1..]) + s);
      assert cs != [];
      DecodeEncoded(cs[0], Encode(cs[1..]));
      var n := |EncodeOne(xs[0])|;
      assert (EncodeOne(xs[0]) + (Encode(xs[1..]) + s))[n..] == Encode(xs[1..]) + s;
      assert Encode(cs)[n..] == Encode(cs[1..]);
      EncodePrefix(xs[1..], s, cs[1..]);
      assert cs[1..][|xs[1..]|..] == cs[|xs|..];
    }
  }

  /** Every text starts with a lead byte and as many continuations as it announces. */
  lemma StartsWithCharacter(cs: seq<CodePoint>)
    requires cs != []
    ensures var s := Encode(cs);
            && 1 <= CharLen(s[0]) <= |s| && !Continuation(s[0])
            && forall i :: 1 <= i < CharLen(s[0]) ==> Continuation(s[i])
  {
    hide EncodeOne, Continuation;
    BoundariesAgree(cs[0]);
  }
}
