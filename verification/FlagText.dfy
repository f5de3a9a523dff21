/** What the generated `to_string` of a bit-mask type prints: the flags found in the value, and
    whatever they leave. */
module FlagText {
  import opened Bits

  /** `v & ~k`. */
  function Without(v: nat, k: nat): (r: nat)
    ensures r <= v
  {
    if v == 0 then 0
    else 2 * Without(v / 2, k / 2) + (if v % 2 == 1 && k % 2 == 0 then 1 else 0)
  }

  /** The flags at the given indices, ORed together. */
  function Joined(flags: seq<nat>): nat {
    if flags == [] then 0 else Or(Joined(flags[..|flags| - 1]), flags[|flags| - 1])
  }

  /** The flags a value prints: each flag whose bits are all there when its turn comes. */
  function Printed(v: nat, flags: seq<nat>): seq<nat>
    decreases |flags|
  {
    if flags == [] then []
    else if And(v, flags[0]) == flags[0] then [flags[0]] + Printed(Without(v, flags[0]), flags[1..])
    else Printed(v, flags[1..])
  }

  /** The lowest bit of an OR, and the rest of it. */
  lemma OrHalves(a: nat, b: nat)
    ensures Or(a, b) / 2 == Or(a / 2, b / 2)
    ensures Or(a, b) % 2 == (if a % 2 == 1 || b % 2 == 1 then 1 else 0)
  {
  }

  lemma {:induction false} OrAssociates(a: nat, b: nat, c: nat)
    ensures Or(Or(a, b), c) == Or(a, Or(b, c))
  {
    if a != 0 && b != 0 && c != 0 {
      hide Or;
      OrAssociates(a / 2, b / 2, c / 2);
      OrHalves(a, b);
      OrHalves(b, c);
      OrHalves(Or(a, b), c);
      OrHalves(a, Or(b, c));
    }
  }

  /** The lowest bit of a value without a flag's bits, and of what the two share. */
  lemma WithoutHalves(v: nat, k: nat)
    ensures Without(v, k) / 2 == Without(v / 2, k / 2)
    ensures Without(v, k) % 2 == (if v % 2 == 1 && k % 2 == 0 then 1 else 0)
    ensures And(v, k) / 2 == And(v / 2, k / 2)
    ensures And(v, k) % 2 == (if v % 2 == 1 && k % 2 == 1 then 1 else 0)
  {
    NoFlag(v / 2);
  }

  /** A flag found and the bits without it make up the value, and share nothing. */
  lemma {:induction false} FoundFlag(v: nat, k: nat)
    requires And(v, k) == k
    ensures Or(k, Without(v, k)) == v && And(Without(v, k), k) == 0
    decreases v
  {
    NoFlag(v);
    if v != 0 && k != 0 {
      WithoutHalves(v, k);
      OrHalves(k, Without(v, k));
      WithoutHalves(Without(v, k), k);
      hide *;
      FoundFlag(v / 2, k / 2);
    }
  }

  lemma {:induction false} NoFlag(v: nat)
    ensures Without(v, 0) == v
  {
    if v != 0 { NoFlag(v / 2); }
  }

  /** Taking one flag's bits away leaves the other flags as they were. */
  lemma {:induction false} WithoutDisjoint(v: nat, k: nat, other: nat)
    requires And(k, other) == 0
    ensures And(Without(v, k), other) == And(v, other)
    decreases v
  {
    if v != 0 && other != 0 {
      if k == 0 {
        NoFlag(v);
      } else {
        WithoutDisjoint(v / 2, k / 2, other / 2);
      }
    }
  }

  /** With flags that share no bits, the generated code prints exactly the flags whose bits are
      all in the value. */
  lemma {:induction false} DisjointFlagsPrinted(v: nat, flags: seq<nat>, k: nat)
    requires forall i, j :: 0 <= i < j < |flags| ==> And(flags[i], flags[j]) == 0
    ensures k in Printed(v, flags) <==> k in flags && And(v, k) == k
    decreases |flags|
  {
    if flags != [] {
      var rest := flags[1..];
      assert k in flags <==> k == flags[0] || k in rest;
      if And(v, flags[0]) == flags[0] {
        DisjointFlagsPrinted(Without(v, flags[0]), rest, k);
        if k in rest {
          var j :| 0 <= j < |rest| && rest[j] == k;
          assert flags[j + 1] == k;
          WithoutDisjoint(v, flags[0], k);
        }
      } else {
        DisjointFlagsPrinted(v, rest, k);
      }
    }
  }

  /** All the bits of flag `i` are in the value. */
  predicate Has(v: nat, flags: seq<nat>, i: nat) {
    i < |flags| && And(v, flags[i]) == flags[i]
  }

  /** `printed` are the flags at the places `at`, in order: exactly those in the value. */
  ghost predicate InOrder(v: nat, flags: seq<nat>, at: seq<nat>, printed: seq<nat>) {
    && |printed| == |at|
    && (forall j, k :: 0 <= j < k < |at| ==> at[j] < at[k])
    && (forall j :: 0 <= j < |at| ==> at[j] < |flags| && printed[j] == flags[at[j]])
    && forall i: nat :: Has(v, flags, i) <==> i in at
  }

  /** They are printed in the order of the flags, each once. */
  lemma {:induction false} PrintedInOrder(v: nat, flags: seq<nat>)
    requires forall i, j :: 0 <= i < j < |flags| ==> And(flags[i], flags[j]) == 0
    ensures exists at :: InOrder(v, flags, at, Printed(v, flags))
    decreases |flags|
  {
    if flags == [] {
      assert InOrder(v, flags, [], Printed(v, flags));
    } else {
      var found := And(v, flags[0]) == flags[0];
      var left, rest := if found then Without(v, flags[0]) else v, flags[1..];
      PrintedInOrder(left, rest);
      var at :| InOrder(left, rest, at, Printed(left, rest));
      hide And, Without, InOrder;
      forall i: nat ensures Has(left, rest, i) <==> Has(v, flags, i + 1) {
        if found && i < |rest| { WithoutDisjoint(v, flags[0], rest[i]); }
      }
      assert found <==> Has(v, flags, 0);
      hide Has, Printed;
      OneMoreFlag(v, flags, left, at, Printed(left, rest), found);
      PrintedFirst(v, flags);
    }
  }

  lemma PrintedFirst(v: nat, flags: seq<nat>)
    requires flags != []
    ensures Printed(v, flags)
            == if And(v, flags[0]) == flags[0] then [flags[0]] + Printed(Without(v, flags[0]), flags[1..])
               else Printed(v, flags[1..])
  {
    hide And, Without;
  }

  /** The places one further on. */
  function Later(at: seq<nat>): (r: seq<nat>)
    ensures |r| == |at| && forall j :: 0 <= j < |at| ==> r[j] == at[j] + 1
  {
    seq(|at|, j requires 0 <= j < |at| => at[j] + 1)
  }

  lemma LaterAre(at: seq<nat>, i: nat)
    ensures i in Later(at) <==> i > 0 && i - 1 in at
  {
    hide Later;
    if i > 0 && i - 1 in at {
      var j :| 0 <= j < |at| && at[j] == i - 1;
      assert Later(at)[j] == i;
    }
  }

  /** One more flag in front. */
  lemma OneMoreFlag(v: nat, flags: seq<nat>, left: nat, at: seq<nat>, printed: seq<nat>, found: bool)
    requires flags != [] && InOrder(left, flags[1..], at, printed) && (found <==> Has(v, flags, 0))
    requires forall i: nat :: Has(left, flags[1..], i) <==> Has(v, flags, i + 1)
    ensures if found then InOrder(v, flags, [0] + Later(at), [flags[0]] + printed)
            else InOrder(v, flags, Later(at), printed)
  {
    hide Has, Later;
    forall i: nat ensures Has(v, flags, i) <==> (found && i == 0) || i in Later(at) {
      LaterAre(at, i);
      if i > 0 { assert Has(left, flags[1..], i - 1) <==> Has(v, flags, i - 1 + 1); }
    }
    var places := [0] + Later(at);
    assert forall i: nat :: i in places <==> i == 0 || i in Later(at);
  }

  lemma OrNone(v: nat)
    ensures Or(0, v) == v
  {
  }

  lemma NonePrinted(v: nat)
    ensures Printed(v, []) == []
  {
  }

  /** One flag's turn. */
  lemma FlagTurn(res: seq<nat>, left: nat, flags: seq<nat>, i: nat)
    requires i < |flags|
    ensures var k, rest := flags[i], flags[i + 1..];
            res + Printed(left, flags[i..])
            == if And(left, k) == k then (res + [k]) + Printed(Without(left, k), rest) else res + Printed(left, rest)
  {
    hide And, Without;
    assert flags[i..][0] == flags[i] && flags[i..][1..] == flags[i + 1..];
  }

  lemma JoinedMore(res: seq<nat>, k: nat)
    ensures Joined([]) == 0 && Joined(res + [k]) == Or(Joined(res), k)
  {
    assert (res + [k])[..|res|] == res;
  }

  /** The generated code. Nothing is lost: the flags printed and the bits reported as left over
      OR together to the value, and bits are reported exactly when some are left or nothing
      was printed. */
  method ToStringMask(v: nat, flags: seq<nat>) returns (res: seq<nat>, left: nat, reported: bool)
    ensures Or(Joined(res), left) == v
    ensures res == Printed(v, flags)
    ensures reported <==> left != 0 || res == []
  {
    hide Or, And, Without, Joined, Printed;
    res, left := [], v;
    JoinedMore([], 0);
    OrNone(v);
    assert flags[0..] == flags && res + Printed(v, flags) == Printed(v, flags);
    for i := 0 to |flags|
      invariant Or(Joined(res), left) == v
      invariant res + Printed(left, flags[i..]) == Printed(v, flags)
    {
      var k := flags[i];
      FlagTurn(res, left, flags, i);
      if And(left, k) == k {
        FoundFlag(left, k);
        OrAssociates(Joined(res), k, Without(left, k));
        JoinedMore(res, k);
        res := res + [k];
        left := Without(left, k);
      }
    }
    NonePrinted(left);
    assert flags[|flags|..] == [] && res + [] == res;
    reported := res == [] || left != 0;
  }
}
