/** A vector that keeps its first elements inside itself and moves to the heap when they no
    longer fit, doubling its capacity. For elements that copying and destroying leave alone. */
module SmallVectors {
  import opened Bits

  /** The capacities a vector with `min` inline slots can have: those slots, or a doubling of
      them (of one slot if there are none). */
  ghost predicate Capacity(min: nat, cap: nat) {
    cap == min || exists k: nat :: cap == Shl(Unit(min), k)
  }

  function Unit(min: nat): nat {
    if min == 0 then 1 else min
  }

  class SmallVector<T(0)> {
    const min: nat
    const buf: array<T>
    var base: array<T>
    var len: nat
    ghost var copied: nat     // elements moved by reallocation so far

    ghost predicate Valid()
      reads this
    {
      && buf.Length == min && len <= base.Length && Capacity(min, base.Length)
      && (base.Length == min || copied + Unit(min) <= base.Length)
      && (base.Length == min ==> copied == 0)
    }

    ghost function Contents(): seq<T>
      reads this, base
      requires len <= base.Length
    {
      base[..len]
    }

    constructor (min: nat)
      ensures Valid() && this.min == min && base == buf && fresh(buf)
      ensures Contents() == [] && copied == 0
    {
      this.min := min;
      var inline_ := new T[min];
      buf := inline_;
      base := inline_;
      len, copied := 0, 0;
    }

    /** The move constructor: inline elements are copied, heap storage changes hands. */
    constructor Move(o: SmallVector<T>)
      requires o.Valid()
      modifies o, o.base
      ensures Valid() && o.Valid() && min == o.min && base != o.base
      ensures Contents() == old(o.Contents()) && o.Contents() == []
      ensures o.base == o.buf && base == if old(o.base) == o.buf then buf else old(o.base)
    {
      min := o.min;
      var inline_ := new T[o.min];
      buf := inline_;
      base := inline_;
      len, copied := 0, 0;
      new;
      if o.base == o.buf {
        Assign(o);
        o.Clear();
      } else {
        base, len, copied := o.base, o.len, o.copied;
        o.base, o.len, o.copied := o.buf, 0, 0;
      }
    }

    /** `operator=`, also onto itself. */
    method Assign(o: SmallVector<T>)
      requires Valid() && o.Valid() && (o == this || o.base != base)
      modifies this, base
      ensures Valid() && Contents() == old(o.Contents())
      ensures base == old(base) || fresh(base)
      ensures old(o.len) <= old(base.Length) ==> base == old(base)
    {
      var osize := o.len;
      ghost var wanted := o.Contents();
      Clear();
      Reserve(osize);
      for i := 0 to osize
        invariant base[..i] == wanted[..i]
        invariant o.base[..osize] == wanted
        modifies base
      {
        base[i] := o.base[i];
        assert base[..i + 1] == base[..i] + [base[i]];
      }
      len := osize;
    }

    method Reserve(n: nat)
      requires Valid()
      modifies this
      ensures Valid() && Contents() == old(Contents()) && len == old(len)
      ensures base.Length >= n && (n <= old(base.Length) ==> base == old(base) && copied == old(copied))
      ensures n > old(base.Length) ==>
                fresh(base) && copied == old(copied) + len && base.Length < 2 * n
    {
      if n <= base.Length {
        return;
      }
      var target := base.Length;
      if target == 0 {
        target := 1;
      }
      DoublingStarts(min, base.Length, target);
      while target < n
        invariant 0 < target < 2 * n && Capacity(min, target) && target >= Unit(min)
        invariant target == base.Length || target >= 2 * base.Length
        decreases n - target
        modifies {}
      {
        Doubled(min, target);
        target := target * 2;
      }
      var newbuf := new T[target];
      var i: nat := 0;
      while i < len
        invariant i <= len && newbuf[..i] == base[..i]
        modifies newbuf
      {
        newbuf[i] := base[i];
        assert newbuf[..i + 1] == base[..i] + [base[i]] == base[..i + 1];
        i := i + 1;
      }
      copied := copied + len;
      base := newbuf;
    }

    method PushBack(x: T)
      requires Valid()
      modifies this, base
      ensures Valid() && Contents() == old(Contents()) + [x]
      ensures base == old(base) || fresh(base)
      ensures base.Length == old(base.Length) || base.Length < 2 * len
    {
      Reserve(len + 1);
      ghost var before := Contents();
      base[len] := x;
      len := len + 1;
      assert base[..len] == before + [x];
    }

    method PopBack()
      requires Valid() && len > 0
      modifies this
      ensures Valid() && Contents() == old(Contents())[..old(len) - 1] && base == old(base)
    {
      len := len - 1;
    }

    method Clear()
      requires Valid()
      modifies this
      ensures Valid() && Contents() == [] && base == old(base) && copied == old(copied)
    {
      len := 0;
    }

    method At(n: nat) returns (x: T)
      requires Valid() && n < len
      ensures x == Contents()[n]
    {
      x := base[n];
    }

    /** Counted from the back. */
    method RevAt(n: nat) returns (x: T)
      requires Valid() && n < len
      ensures x == Contents()[len - 1 - n]
    {
      x := base[len - 1 - n];
    }

    /** Any number of pushes onto an empty vector move fewer than twice as many elements. */
    method PushAll(xs: seq<T>)
      requires Valid() && Contents() == [] && base.Length == min
      modifies this, base
      ensures Valid() && Contents() == xs
      ensures xs != [] ==> copied < 2 * |xs|
    {
      for i := 0 to |xs|
        invariant Valid() && Contents() == xs[..i]
        invariant base == old(base) || fresh(base)
        invariant base.Length == min || base.Length < 2 * i
      {
        PushBack(xs[i]);
        assert xs[..i + 1] == xs[..i] + [xs[i]];
      }
      assert xs[..|xs|] == xs;
    }
  }

  lemma DoublingStarts(min: nat, cap: nat, target: nat)
    requires Capacity(min, cap) && target == (if cap == 0 then 1 else cap)
    ensures Capacity(min, target) && target >= Unit(min)
  {
    assert Shl(Unit(min), 0) == Unit(min);
    if cap != min {
      var k: nat :| cap == Shl(Unit(min), k);
      ShlIsProduct(Unit(min), k);
      assert Unit(min) * Pow2(k) >= Unit(min) by { Grows(Unit(min), Pow2(k)); }
    }
  }

  lemma Grows(a: nat, p: nat)
    requires p >= 1
    ensures a * p >= a
  {
  }

  lemma Doubled(min: nat, cap: nat)
    requires Capacity(min, cap) && cap > 0
    ensures Capacity(min, cap * 2)
  {
    var k: nat :| cap == Shl(Unit(min), k) || (cap == min && k == 0);
    assert Shl(Unit(min), 0) == Unit(min);
    assert Shl(Unit(min), k + 1) == 2 * Shl(Unit(min), k);
  }
}
