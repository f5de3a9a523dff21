/** Numbers in bytes: positional values in both orders, fixed-width reads, byte swapping, and
    the ELF headers converted with it. */
module ByteOrder {
  import opened Bits

  datatype Order = Native | Lsb | Msb

  /** `here` is the order of the machine. */
  function Resolve(o: Order, here: Order): (r: Order)
    requires here != Native
    ensures r != Native && (o != Native ==> r == o) && (o == Native ==> r == here)
  {
    if o == Native then here else o
  }

  // ---------- positional values

  function Little(s: seq<Byte>): (v: nat)
    ensures v < Pow256(|s|)
  {
    if s == [] then 0 else s[0] + 0x100 * Little(s[1..])
  }

  function Reversed(s: seq<Byte>): (r: seq<Byte>)
    ensures |r| == |s|
  {
    if s == [] then [] else Reversed(s[1..]) + [s[0]]
  }

  function Big(s: seq<Byte>): (v: nat)
    ensures v < Pow256(|s|)
  {
    Little(Reversed(s))
  }

  function Positional(s: seq<Byte>, o: Order): (v: nat)
    requires o != Native
    ensures v < Pow256(|s|)
  {
    if o == Lsb then Little(s) else Big(s)
  }

  /** The `n` bytes of `v`. */
  function LittleBytes(v: nat, n: nat): (s: seq<Byte>)
    ensures |s| == n
  {
    if n == 0 then [] else [v % 0x100] + LittleBytes(v / 0x100, n - 1)
  }

  function BytesOf(v: nat, n: nat, o: Order): (s: seq<Byte>)
    requires o != Native
    ensures |s| == n
  {
    if o == Lsb then LittleBytes(v, n) else Reversed(LittleBytes(v, n))
  }

  lemma {:induction false} LittleRoundTrip(v: nat, n: nat)
    requires v < Pow256(n)
    ensures Little(LittleBytes(v, n)) == v
  {
    if n > 0 { LittleRoundTrip(v / 0x100, n - 1); }
  }

  lemma {:induction false} LittleBytesOf(s: seq<Byte>)
    ensures LittleBytes(Little(s), |s|) == s
  {
    if s != [] {
      LittleBytesOf(s[1..]);
      assert Little(s) % 0x100 == s[0] && Little(s) / 0x100 == Little(s[1..]);
    }
  }

  lemma {:induction false} ReversedAppend(a: seq<Byte>, b: seq<Byte>)
    ensures Reversed(a + b) == Reversed(b) + Reversed(a)
  {
    if a == [] {
      assert a + b == b;
    } else {
      ReversedAppend(a[1..], b);
      assert (a + b)[1..] == a[1..] + b;
    }
  }

  lemma {:induction false} ReversedTwice(s: seq<Byte>)
    ensures Reversed(Reversed(s)) == s
  {
    if s != [] {
      ReversedAppend(Reversed(s[1..]), [s[0]]);
      ReversedTwice(s[1..]);
      assert Reversed([s[0]]) == [s[0]] by { assert [s[0]][1..] == []; }
    }
  }

  /** Encoding and decoding in one order undo each other. */
  lemma PositionalRoundTrip(v: nat, n: nat, o: Order)
    requires v < Pow256(n) && o != Native
    ensures Positional(BytesOf(v, n, o), o) == v
  {
    LittleRoundTrip(v, n);
    ReversedTwice(LittleBytes(v, n));
  }

  lemma BytesOfPositional(s: seq<Byte>, o: Order)
    requires o != Native
    ensures BytesOf(Positional(s, o), |s|, o) == s
  {
    LittleBytesOf(s);
    LittleBytesOf(Reversed(s));
    ReversedTwice(s);
  }

  lemma {:induction false} LittleAppend(s: seq<Byte>, b: Byte)
    ensures Little(s + [b]) == Little(s) + b * Pow256(|s|)
  {
    if s == [] {
      assert s + [b] == [b] && [b][1..] == [];
    } else {
      LittleAppend(s[1..], b);
      assert (s + [b])[1..] == s[1..] + [b];
      assert 0x100 * (b * Pow256(|s| - 1)) == b * (0x100 * Pow256(|s| - 1));
    }
  }

  lemma BigAppend(s: seq<Byte>, b: Byte)
    ensures Big(s + [b]) == 0x100 * Big(s) + b
  {
    ReversedAppend(s, [b]);
    assert Reversed([b]) == [b] by { assert [b][1..] == []; }
    assert ([b] + Reversed(s))[1..] == Reversed(s);
  }

  /** What the values mean, byte by byte: in little-endian order a later byte counts 256 times as
      much as the one before, in big-endian order it is the other way round. */
  lemma PositionalMore(s: seq<Byte>, b: Byte)
    ensures Positional([], Lsb) == 0 && Positional([], Msb) == 0
    ensures Positional(s + [b], Lsb) == Positional(s, Lsb) + b * Pow256(|s|)
    ensures Positional(s + [b], Msb) == Positional(s, Msb) * 0x100 + b
  {
    LittleAppend(s, b);
    BigAppend(s, b);
  }

  lemma {:induction false} Pow256IsPow2(n: nat)
    ensures Pow256(n) == Pow2(8 * n)
  {
    if n > 0 {
      Pow256IsPow2(n - 1);
      WidthPowers();
      Pow2Sum(8, 8 * (n - 1));
    }
  }

  // ---------- byte swapping

  /** Bytes end for end; what the 32- and 64-bit intrinsics do. */
  function ByteSwap(v: nat, n: nat): (r: nat)
    ensures r < Pow256(n)
  {
    Big(LittleBytes(v, n))
  }

  /** A value of `n` bytes moved from one order to another. */
  function Swizzle(v: nat, n: nat, from: Order, to: Order, here: Order): nat
    requires here != Native && v < Pow256(n)
  {
    if Resolve(from, here) == Resolve(to, here) then v
    else if n == 1 then v
    else if n == 2 then Or(Shl(And(v, 0xFF), 8), Shr(v, 8))
    else ByteSwap(v, n)
  }

  lemma TwoBytes(v: nat)
    requires v < Pow256(2)
    ensures Or(Shl(And(v, 0xFF), 8), Shr(v, 8)) == ByteSwap(v, 2)
  {
    assert v < 0x1_0000 by { assert Pow256(2) == 0x1_0000; }
    WidthPowers();
    LittleTwo(v);
    hide *;
    AndMask(v, 8);
    ShrIsQuotient(v, 8);
    JoinFields(v % 0x100, v / 0x100, 8);
    BigOfTwo(v % 0x100, v / 0x100);
    SwapsTwo(v);
  }

  lemma SwapsTwo(v: nat)
    ensures ByteSwap(v, 2) == Big(LittleBytes(v, 2))
  {
    hide Big, LittleBytes;
  }

  lemma LittleTwo(v: nat)
    requires v < 0x1_0000
    ensures LittleBytes(v, 2) == [v % 0x100, v / 0x100]
  {
    assert LittleBytes(v / 0x100, 1) == [v / 0x100 % 0x100] + LittleBytes(v / 0x100 / 0x100, 0);
  }

  lemma BigOfTwo(a: Byte, b: Byte)
    ensures Big([a, b]) == 0x100 * a + b
  {
    BigAppend([a], b);
    BigAppend([], a);
    assert [a] + [b] == [a, b] && [] + [a] == [a];
  }

  lemma SwizzleSwaps(v: nat, n: nat, from: Order, to: Order, here: Order)
    requires here != Native && v < Pow256(n) && n > 0
    ensures Swizzle(v, n, from, to, here) < Pow256(n)
    ensures Swizzle(v, n, from, to, here)
            == if Resolve(from, here) == Resolve(to, here) then v else ByteSwap(v, n)
  {
    if n == 1 {
      LittleRoundTrip(v, 1);
      assert LittleBytes(v, 1) == [v % 0x100] + LittleBytes(v / 0x100, 0);
      assert Reversed([v]) == [v] by { assert [v][1..] == []; }
      assert Pow256(1) == 0x100;
    } else if n == 2 {
      TwoBytes(v);
    }
  }

  /** Reading the same bytes in the other order is swapping what was read; so a field of a
      file in order `o`, loaded natively and swizzled, has the value it has in the file. */
  lemma LoadThenSwizzle(s: seq<Byte>, o: Order, here: Order)
    requires here != Native && s != []
    ensures Swizzle(Positional(s, here), |s|, o, Native, here) == Positional(s, if o == Native then here else o)
  {
    SwizzleSwaps(Positional(s, here), |s|, o, Native, here);
    LittleBytesOf(s);
    LittleBytesOf(Reversed(s));
    ReversedTwice(s);
  }

  /** Swizzling back gives the value back, whatever the orders. */
  lemma SwizzleRoundTrip(v: nat, n: nat, from: Order, to: Order, here: Order)
    requires here != Native && v < Pow256(n) && n > 0
    ensures Swizzle(v, n, from, to, here) < Pow256(n)
    ensures Swizzle(Swizzle(v, n, from, to, here), n, to, from, here) == v
  {
    SwizzleSwaps(v, n, from, to, here);
    SwizzleSwaps(Swizzle(v, n, from, to, here), n, to, from, here);
    LittleRoundTrip(v, n);
    LittleBytesOf(Reversed(LittleBytes(v, n)));
    ReversedTwice(LittleBytes(v, n));
  }
}
