/** The cursor that reads numbers out of a DWARF section: fixed-width values in either byte
    order, and unsigned LEB128 (section 7.6 and Appendix C of DWARF 4). */
module Dwarf {
  import opened Bits
  import opened ByteOrder

  datatype Section = Section(data: seq<Byte>, order: Order, addrSize: nat)

  /** What a read gives: a value, or one of the two exceptions. */
  datatype Read = Value(v: nat) | Underflow | UnsupportedAddressSize

  // ---------- LEB128 as base-128 digits

  function Pow128(n: nat): (p: nat)
    ensures p >= 1
  {
    if n == 0 then 1 else 0x80 * Pow128(n - 1)
  }

  /** The base-128 positional sum of the low seven bits of each byte. */
  function Digits(s: seq<Byte>): (v: nat)
    ensures v < Pow128(|s|)
  {
    if s == [] then 0 else s[0] % 0x80 + 0x80 * Digits(s[1..])
  }

  /** Bytes up to and including the first without a continuation bit, if there is one. */
  function Terminated(s: seq<Byte>): (n: nat)
    ensures n <= |s|
    ensures n > 0 ==> s[n - 1] < 0x80 && forall i :: 0 <= i < n - 1 ==> s[i] >= 0x80
    ensures n == 0 ==> forall i :: 0 <= i < |s| ==> s[i] >= 0x80
  {
    if s == [] then 0
    else if s[0] < 0x80 then 1
    else
      var n := Terminated(s[1..]);
      if n == 0 then 0 else n + 1
  }

  /** The encoding of `v` in exactly `n` bytes: `n - 1` continuations and a final byte. */
  function Uleb(v: nat, n: nat): (s: seq<Byte>)
    requires n > 0 && v < Pow128(n)
    ensures |s| == n
  {
    if n == 1 then assert Pow128(1) == 0x80; [v]
    else [0x80 + v % 0x80] + Uleb(v / 0x80, n - 1)
  }

  lemma DigitsFirst(b: Byte, s: seq<Byte>)
    ensures Digits([b] + s) == b % 0x80 + 0x80 * Digits(s)
  {
    assert ([b] + s)[1..] == s;
  }

  lemma TerminatedFirst(b: Byte, s: seq<Byte>)
    ensures b < 0x80 ==> Terminated([b] + s) == 1
    ensures b >= 0x80 && Terminated(s) > 0 ==> Terminated([b] + s) == Terminated(s) + 1
  {
    assert ([b] + s)[1..] == s;
  }

  lemma Pow128Step(n: nat)
    ensures Pow128(0) == 1 && Pow128(n + 1) == 0x80 * Pow128(n)
  {
  }

  lemma UlebFirst(v: nat, n: nat)
    requires n > 0 && v < Pow128(n)
    ensures n == 1 ==> v < 0x80 && Uleb(v, n) == [v]
    ensures n > 1 ==> v / 0x80 < Pow128(n - 1) && Uleb(v, n) == [0x80 + v % 0x80] + Uleb(v / 0x80, n - 1)
  {
    Pow128Step(n - 1);
    Pow128Step(0);
  }

  lemma {:induction false} UlebDigits(v: nat, n: nat, suffix: seq<Byte>)
    requires n > 0 && v < Pow128(n)
    ensures Digits(Uleb(v, n)) == v && Terminated(Uleb(v, n) + suffix) == n
    decreases n
  {
    hide Digits, Uleb, Terminated, Pow128;
    UlebFirst(v, n);
    if n == 1 {
      NoDigits();
      DigitsFirst(v, []);
      assert [v] + [] == [v];
      TerminatedFirst(v, suffix);
    } else {
      var b, rest := 0x80 + v % 0x80, Uleb(v / 0x80, n - 1);
      UlebDigits(v / 0x80, n - 1, suffix);
      assert [b] + rest + suffix == [b] + (rest + suffix);
      DigitsFirst(b, rest);
      TerminatedFirst(b, rest + suffix);
    }
  }

  lemma {:induction false} DigitsAppend(s: seq<Byte>, b: Byte)
    ensures Digits(s + [b]) == Digits(s) + b % 0x80 * Pow128(|s|)
  {
    hide Digits, Pow128;
    var d: int := b % 0x80;
    NoDigits();
    Pow128Step(|s|);
    if s == [] {
      assert s + [b] == [b] + [];
      DigitsFirst(b, []);
    } else {
      var first, rest := s[0], s[1..];
      assert s == [first] + rest && s + [b] == [first] + (rest + [b]);
      DigitsAppend(rest, b);
      DigitsFirst(first, rest);
      DigitsFirst(first, rest + [b]);
      Pow128Step(|rest|);
      ProductOut(0x80, d, Pow128(|rest|));
    }
  }

  lemma {:induction false} Pow128IsPow2(n: nat)
    ensures Pow128(n) == Pow2(7 * n)
  {
    if n > 0 {
      Pow128IsPow2(n - 1);
      SevenIs();
      Pow2Sum(7, 7 * (n - 1));
    }
  }

  const WORD: nat := 0x1_0000_0000_0000_0000

  /** `(uint64_t)x << n`. */
  function Shl64(x: nat, n: nat): nat {
    Shl(x, n) % WORD
  }

  /** One round of the loop: ORing in the next seven bits, cut to 64 bits, is adding the next
      digit modulo 2^64. */
  lemma AccumulateDigit(s: seq<Byte>, b: Byte)
    requires |s| < 10
    ensures Or(Digits(s) % WORD, Shl64(b % 0x80, 7 * |s|)) == Digits(s + [b]) % WORD
  {
    hide Or, Shl, Shl64, Pow2, Pow128, Digits;
    var d: nat := b % 0x80;
    DigitsAppend(s, b);
    Pow128IsPow2(|s|);
    ShlIsProduct(d, 7 * |s|);
    assert Digits(s + [b]) == Digits(s) + Shl(d, 7 * |s|);
    if |s| < 9 {
      LowDigit(Digits(s), d, |s|);
    } else {
      TopDigit(Digits(s), d);
    }
  }

  lemma Small(x: nat)
    requires x < WORD
    ensures x % WORD == x
  {
  }

  lemma LowDigit(low: nat, d: nat, i: nat)
    requires i < 9 && d < 0x80 && low < Pow2(7 * i)
    ensures Or(low % WORD, Shl64(d, 7 * i)) == (low + Shl(d, 7 * i)) % WORD
  {
    hide Or, Shl, Pow2;
    SevenBits();
    Pow2Monotone(7 * i, 56);
    ShlIsProduct(d, 7 * i);
    ProductBelow(d, 0x80, Pow2(7 * i), 0x100_0000_0000_0000);
    var high := Shl(d, 7 * i);
    assert low + high < WORD;
    Small(low);
    Small(high);
    Small(low + high);
    OrShifted(low, d, 7 * i);
  }

  /** The tenth byte has room for one bit. */
  lemma TopDigit(low: nat, d: nat)
    requires low < Pow2(63)
    ensures Or(low % WORD, Shl64(d, 63)) == (low + Shl(d, 63)) % WORD
  {
    hide Or, Shl, Pow2;
    SevenBits();
    ShlIsProduct(d, 63);
    ShlIsProduct(d % 2, 63);
    OrShifted(low, d % 2, 63);
    Small(low);
    TopBit(low, d);
  }

  lemma SevenBits()
    ensures Pow2(56) == 0x100_0000_0000_0000 && Pow2(63) == 0x8000_0000_0000_0000
  {
    SevenIs();
    hide Pow2;
    Pow2Sum(7, 7);
    Pow2Sum(14, 14);
    Pow2Sum(28, 28);
    Pow2Sum(56, 7);
  }

  lemma ProductGrows(a: nat, b: nat, p: nat)
    requires a <= b
    ensures a * p <= b * p && p * a <= p * b
  {
  }

  lemma OneMoreTime(d: nat, p: nat)
    ensures (d + 1) * p == d * p + p
  {
  }

  lemma ProductBelow(d: nat, dmax: nat, p: nat, pmax: nat)
    requires d < dmax && p <= pmax
    ensures d * p + p <= dmax * p <= dmax * pmax
  {
    OneMoreTime(d, p);
    ProductGrows(d + 1, dmax, p);
    ProductGrows(p, pmax, dmax);
  }

  lemma TopBit(low: nat, d: nat)
    requires low < 0x8000_0000_0000_0000
    ensures (d * 0x8000_0000_0000_0000) % WORD == (d % 2) * 0x8000_0000_0000_0000
    ensures (low + d * 0x8000_0000_0000_0000) % WORD == low + (d % 2) * 0x8000_0000_0000_0000
  {
    DivModUnique(d * 0x8000_0000_0000_0000, WORD, d / 2, (d % 2) * 0x8000_0000_0000_0000);
    DivModUnique(low + d * 0x8000_0000_0000_0000, WORD, d / 2, low + (d % 2) * 0x8000_0000_0000_0000);
  }

  lemma SevenIs()
    ensures Pow2(7) == 0x80
  {
  }

  lemma LowSeven(b: Byte)
    ensures And(b, 0x7f) == b % 0x80
    ensures And(b, 0x80) == 0 <==> b < 0x80
  {
    hide Pow2, And;
    SevenIs();
    WidthPowers();
    AndMask(b, 7);
    AndHighMask(b, 7, 8);
  }

  class Cursor {
    const sec: Section
    var pos: nat

    constructor (sec: Section, offset: nat)
      ensures this.sec == sec && pos == offset
    {
      this.sec, pos := sec, offset;
    }

    /** Whether `bytes` bytes are left; a cursor at the end fails even for none. */
    method Ensure(bytes: nat) returns (ok: bool)
      ensures ok <==> pos < |sec.data| && pos + bytes <= |sec.data|
    {
      ok := !(|sec.data| - pos < bytes || pos >= |sec.data|);
    }

    /** A value of `n` bytes: their positional sum in the section's order. */
    method Fixed(n: nat) returns (r: Read)
      requires 1 <= n <= 8 && sec.order != Native
      modifies this
      ensures if old(pos) + n <= |sec.data|
              then r == Value(Positional(sec.data[old(pos)..old(pos) + n], sec.order)) && pos == old(pos) + n
              else r == Underflow && pos == old(pos)
    {
      hide Positional, Or, Shl, Little, Big;
      var ok := Ensure(n);
      if !ok {
        return Underflow;
      }
      var p := pos;
      ghost var bytes := sec.data[p..p + n];
      var val: nat := 0;
      assert Little([]) == 0 && Big([]) == 0 by { Nothing(); }
      if sec.order == Lsb {
        for i := 0 to n
          invariant val == Little(bytes[..i])
        {
          assert bytes[..i + 1] == bytes[..i] + [sec.data[p + i]];
          AccumulateLow(bytes[..i], sec.data[p + i]);
          val := Or(val, Shl(sec.data[p + i], i * 8));
        }
      } else {
        for i := 0 to n
          invariant val == Big(bytes[..i])
        {
          assert bytes[..i + 1] == bytes[..i] + [sec.data[p + i]];
          AccumulateHigh(bytes[..i], sec.data[p + i]);
          val := Or(Shl(val, 8), sec.data[p + i]);
        }
      }
      assert bytes[..n] == bytes;
      assert val == Positional(bytes, sec.order) by { InOrder(bytes, sec.order); }
      pos := p + n;
      r := Value(val);
    }

    /** Unsigned LEB128. Defined as long as the number ends within ten bytes: a shift by 64
        or more has no meaning in the source. */
    method Uleb128() returns (r: Read)
      requires |sec.data| - pos <= 10 || exists j :: pos <= j < pos + 10 && sec.data[j] < 0x80
      requires pos <= |sec.data|
      modifies this
      ensures var rest := sec.data[old(pos)..];
              var n := Terminated(rest);
              if n > 0 then r == Value(Digits(rest[..n]) % WORD) && pos == old(pos) + n
              else r == Underflow && pos == |sec.data|
    {
      hide Or, And, Digits, Shl64, Terminated;
      ghost var start, rest := pos, sec.data[pos..];
      ghost var n := Terminated(rest);
      var result: nat, shift: nat := 0, 0;
      assert Digits(rest[..0]) % WORD == 0 by { NoDigits(); assert rest[..0] == []; }
      while pos < |sec.data|
        invariant start <= pos <= |sec.data| && shift == 7 * (pos - start)
        invariant n > 0 ==> pos - start < n
        invariant result == Digits(rest[..pos - start]) % WORD
        decreases |sec.data| - pos
      {
        ghost var i := pos - start;
        var byte := sec.data[pos];
        pos := pos + 1;
        assert byte == rest[i];
        OneMore(rest, i);
        NextByte(rest, i);
        Within(sec.data, start, i);
        LowSeven(byte);
        AccumulateDigit(rest[..i], byte);
        result := Or(result, Shl64(And(byte, 0x7f), shift));
        if And(byte, 0x80) == 0 {
          return Value(result);
        }
        shift := shift + 7;
      }
      r := Underflow;
    }

    /** An address of the section's address size. */
    method Address() returns (r: Read)
      requires sec.order != Native
      modifies this
      ensures if sec.addrSize !in {1, 2, 4, 8} then r == UnsupportedAddressSize && pos == old(pos)
              else if old(pos) + sec.addrSize <= |sec.data|
              then r == Value(Positional(sec.data[old(pos)..old(pos) + sec.addrSize], sec.order))
                   && pos == old(pos) + sec.addrSize
              else r == Underflow && pos == old(pos)
    {
      if sec.addrSize in {1, 2, 4, 8} {
        r := Fixed(sec.addrSize);
      } else {
        r := UnsupportedAddressSize;
      }
    }
  }

  lemma OneMore(rest: seq<Byte>, i: nat)
    requires i < |rest|
    ensures rest[..i + 1] == rest[..i] + [rest[i]]
  {
  }

  /** One byte read ends the number exactly if it is the terminating one. */
  lemma NextByte(rest: seq<Byte>, i: nat)
    requires i < |rest| && (Terminated(rest) > 0 ==> i < Terminated(rest))
    ensures rest[i] < 0x80 <==> Terminated(rest) == i + 1
  {
    hide Terminated;
  }

  lemma Nothing()
    ensures Little([]) == 0 && Big([]) == 0
  {
  }

  lemma NoDigits()
    ensures Digits([]) == 0
  {
  }

  lemma InOrder(s: seq<Byte>, o: Order)
    requires o != Native
    ensures Positional(s, o) == if o == Lsb then Little(s) else Big(s)
  {
  }

  /** The loop stays within ten bytes. */
  lemma Within(data: seq<Byte>, start: nat, i: nat)
    requires start + i < |data|
    requires |data| - start <= 10 || exists j :: start <= j < start + 10 && data[j] < 0x80
    requires var n := Terminated(data[start..]); n > 0 ==> i < n
    ensures i < 10
  {
    var rest := data[start..];
    if |data| - start > 10 {
      var j :| start <= j < start + 10 && data[j] < 0x80;
      assert rest[j - start] == data[j];
    }
  }

  /** `val |= p[i] << (i * 8)`. */
  lemma AccumulateLow(s: seq<Byte>, b: Byte)
    ensures Or(Little(s), Shl(b, |s| * 8)) == Little(s + [b])
  {
    hide Or, Shl, Little;
    LittleAppend(s, b);
    Pow256IsPow2(|s|);
    OrShifted(Little(s), b, 8 * |s|);
    ShlIsProduct(b, 8 * |s|);
  }

  /** `val = (val << 8) | p[i]`. */
  lemma AccumulateHigh(s: seq<Byte>, b: Byte)
    ensures Or(Shl(Big(s), 8), b) == Big(s + [b])
  {
    hide Or, Shl, Big;
    WidthPowers();
    BigAppend(s, b);
    JoinFields(Big(s), b, 8);
  }

  // ---------- round trips

  /** What `Uleb128` returns on the encoding of a value in any number of bytes up to ten, with
      anything behind it, is the value, and the bytes consumed are the encoding. */
  lemma UlebRoundTrip(v: nat, n: nat, suffix: seq<Byte>)
    requires v < WORD && 1 <= n <= 10 && v < Pow128(n)
    ensures var s := Uleb(v, n) + suffix;
            && Terminated(s) == n && Digits(s[..n]) % WORD == v
            && exists j :: 0 <= j < 10 && j < |s| && s[j] < 0x80
  {
    hide Digits, Uleb, Pow128, Terminated;
    UlebDigits(v, n, suffix);
    var s := Uleb(v, n) + suffix;
    assert s[..n] == Uleb(v, n);
    LastByte(s);
    Small(v);
  }

  lemma LastByte(s: seq<Byte>)
    ensures Terminated(s) > 0 ==> s[Terminated(s) - 1] < 0x80
  {
  }
}
