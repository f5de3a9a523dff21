/** A memory with `int3` planted at a set of addresses, seen beside the native
    memory: as long as the program keeps its data accesses and its instruction
    tails off those addresses, both machines run in lock step. */
module Patching {
  import opened Bits
  import opened Machine

  function Patch(m: Memory, at: set<Word>): Memory {
    seq(WORD, a requires 0 <= a < WORD => if a in at then INT3 else m[a])
  }

  function PatchState(s: State, at: set<Word>): State {
    s.(mem := Patch(s.mem, at))
  }

  /** The memory with the saved bytes put back. */
  function Undo(m: Memory, saved: map<Word, Byte>): Memory {
    seq(WORD, a requires 0 <= a < WORD => if a in saved then saved[a] else m[a])
  }

  function Next(s: State): Instr {
    Decode(s.mem, s.regs.pc)
  }

  /** The next step touches no byte of `at` except as the opcode it executes. */
  predicate Clean(s: State, at: set<Word>) {
    Extra(s) !! at
  }

  /** The native run never touches a byte of `at` except as an opcode. */
  ghost predicate Tame(s: State, at: set<Word>) {
    forall n: nat :: Clean(Run(s, n), at)
  }

  /** Where a run under breakpoints `at` is stopped: at a breakpoint, or because the
      native machine itself raises a signal. */
  predicate AtStop(s: State, at: set<Word>) {
    s.regs.pc in at || Faults(Next(s))
  }

  lemma TameTail(s: State, at: set<Word>, k: nat)
    requires Tame(s, at)
    ensures Tame(Run(s, k), at)
  {
    hide Step, Clean;
    forall n: nat ensures Clean(Run(Run(s, k), n), at) {
      RunSplits(s, k, n);
    }
  }

  lemma TameSubset(s: State, at: set<Word>, less: set<Word>)
    requires Tame(s, at) && less <= at
    ensures Tame(s, less)
  {
    hide Step, Extra;
    forall n: nat ensures Clean(Run(s, n), less) {
      assert Clean(Run(s, n), at);
    }
  }

  /** Program text at breakable addresses never changes. */
  lemma {:induction false} TextConstant(s: State, at: set<Word>, n: nat, x: Word)
    requires Tame(s, at) && x in at
    ensures Run(s, n).mem[x] == s.mem[x]
  {
    hide Step, Extra;
    if n > 0 {
      TextConstant(s, at, n - 1, x);
      assert Clean(Run(s, n - 1), at);
      StepFrame(Run(s, n - 1), x);
    }
  }

  /** Clearing the low byte of a word and ORing in a new one replaces that byte. */
  lemma SpliceLowByte(data: Word, b: Byte)
    ensures Or(And(data, WORD - 0x100), b) == data - data % 0x100 + b
  {
    WidthPowers();
    hide Pow2, And, Or, Shl;
    AndHighMask(data, 8, 64);
    ShlIsProduct(data / 0x100, 8);
    OrShifted(b, data / 0x100, 8);
    OrCommutes(data - data % 0x100, b);
  }

  /** The whole word the debugger writes differs in one byte from the one it read. */
  lemma PokeOneByte(m: Memory, a: Word, n: nat, b: Byte)
    requires 0 < n <= 8
    ensures var w := Load(m, a, n);
            Store(m, a, n, w - w % 0x100 + b) == m[a := b]
  {
    hide Load, Store;
    var w, high := Load(m, a, n), Load(m, Plus(a, 1), n - 1);
    LoadFirst(m, a, n);
    var spliced := w - w % 0x100 + b;
    assert spliced == 0x100 * high + b;
    assert spliced / 0x100 == high && spliced % 0x100 == b;
    StoreFirst(m, a, n, spliced);
    StoreOfLoad(m, Plus(a, 1), n - 1);
  }

  lemma LowByte(data: Word)
    ensures And(data, 0xff) == data % 0x100
  {
    WidthPowers();
    hide Pow2, And;
    AndMask(data, 8);
  }

  lemma PatchStore(m: Memory, at: set<Word>, a: Word, w: Word)
    requires Span(a, 8) !! at
    ensures StoreWord(Patch(m, at), a, w) == Patch(StoreWord(m, a, w), at)
  {
    hide StoreWord, Span;
    var left, right := StoreWord(Patch(m, at), a, w), Patch(StoreWord(m, a, w), at);
    forall x: int | 0 <= x < WORD ensures left[x] == right[x] {
      if x in Span(a, 8) {
        StoreWordInside(m, Patch(m, at), a, w, x);
      } else {
        StoreWordFrame(Patch(m, at), a, w, x);
        StoreWordFrame(m, a, w, x);
      }
    }
  }

  lemma StoreWordInside(m: Memory, m': Memory, a: Word, w: Word, x: Word)
    requires x in Span(a, 8)
    ensures StoreWord(m, a, w)[x] == StoreWord(m', a, w)[x]
  {
    StoreInside(m, m', a, 8, w, x);
  }

  lemma PatchLoad(m: Memory, at: set<Word>, a: Word, n: nat)
    requires n <= 8 && Span(a, n) !! at
    ensures Load(Patch(m, at), a, n) == Load(m, a, n)
  {
    LoadFrame(Patch(m, at), m, a, n);
  }

  lemma PatchImm(m: Memory, at: set<Word>, pc: Word, off: nat, n: nat, len: nat)
    requires n <= 4 && 1 <= off && off + n <= len
    requires Span(Plus(pc, 1), len - 1) !! at
    ensures Imm(Patch(m, at), pc, off, n) == Imm(m, pc, off, n)
  {
    PlusPlus(pc, 1, off - 1);
    SpanPart(Plus(pc, 1), off - 1, n, len - 1);
    PatchLoad(m, at, Plus(pc, off), n);
  }

  lemma PatchByte(m: Memory, at: set<Word>, pc: Word, off: nat, len: nat)
    requires 1 <= off < len
    requires Span(Plus(pc, 1), len - 1) !! at
    ensures Patch(m, at)[Plus(pc, off)] == m[Plus(pc, off)]
  {
    PlusPlus(pc, 1, off - 1);
    assert Plus(pc, off) in Span(Plus(pc, 1), len - 1);
  }

  /** An unpatched instruction reads the same through the patched memory. */
  lemma DecodePatched(m: Memory, at: set<Word>, pc: Word)
    requires pc !in at
    requires Length(Decode(m, pc)) > 0 ==> Span(Plus(pc, 1), Length(Decode(m, pc)) - 1) !! at
    ensures Decode(Patch(m, at), pc) == Decode(m, pc)
  {
    hide Imm, DecodeWide, LoadWord, Span;
    var len := Length(Decode(m, pc));
    if m[pc] == 0x74 {
      PatchImm(m, at, pc, 1, 1, len);
    } else if m[pc] == 0xe8 || m[pc] == 0xe9 {
      PatchImm(m, at, pc, 1, 4, len);
    } else if m[pc] == 0x48 {
      DecodeWidePatched(m, at, pc);
    }
  }

  lemma DecodeWidePatched(m: Memory, at: set<Word>, pc: Word)
    requires Length(DecodeWide(m, pc)) > 0 ==> Span(Plus(pc, 1), Length(DecodeWide(m, pc)) - 1) !! at
    ensures DecodeWide(Patch(m, at), pc) == DecodeWide(m, pc)
  {
    hide Imm, Span, LoadWord;
    var len := Length(DecodeWide(m, pc));
    assert len >= 2;
    PatchByte(m, at, pc, 1, len);
    if len >= 3 { PatchByte(m, at, pc, 2, len); }
    match DecodeWide(m, pc)
    case AddAx(_) => PatchImm(m, at, pc, 2, 4, len);
    case StoreAx(_) => PatchImm(m, at, pc, 3, 1, len);
    case SubSp(_) => PatchImm(m, at, pc, 3, 4, len);
    case MovAx(_) => PatchMoffs(m, at, pc);
    case _ =>
  }

  lemma PatchMoffs(m: Memory, at: set<Word>, pc: Word)
    requires Span(Plus(pc, 1), 9) !! at
    ensures LoadWord(Patch(m, at), Plus(pc, 2)) == LoadWord(m, Plus(pc, 2))
  {
    PlusPlus(pc, 1, 1);
    SpanPart(Plus(pc, 1), 1, 8, 9);
    PatchLoad(m, at, Plus(pc, 2), 8);
  }

  lemma PatchedNext(s: State, at: set<Word>)
    requires s.regs.pc !in at && Clean(s, at)
    ensures Next(PatchState(s, at)) == Next(s)
  {
    hide Decode, Patch, Span;
    DecodePatched(s.mem, at, s.regs.pc);
  }

  lemma ExecutePatched(s: State, i: Instr, at: set<Word>)
    requires DataAddress(i, s.regs) != [] ==> Span(DataAddress(i, s.regs)[0], 8) !! at
    ensures Execute(PatchState(s, at), i) == PatchState(Execute(s, i), at)
  {
    hide StoreWord, LoadWord, Span, Patch, Plus;
    var data := DataAddress(i, s.regs);
    match i
    case PushBp => PatchStore(s.mem, at, data[0], s.regs.bp);
    case Call(_) => PatchStore(s.mem, at, data[0], Plus(s.regs.pc, Length(i)));
    case StoreAx(_) => PatchStore(s.mem, at, data[0], s.regs.ax);
    case PopBp | Ret | Leave | LoadAx => PatchLoadWord(s.mem, at, data[0]);
    case _ =>
  }

  lemma PatchLoadWord(m: Memory, at: set<Word>, a: Word)
    requires Span(a, 8) !! at
    ensures LoadWord(Patch(m, at), a) == LoadWord(m, a)
  {
    PatchLoad(m, at, a, 8);
  }

  /** One native step, seen through the patches. */
  lemma StepPatched(s: State, at: set<Word>)
    requires s.regs.pc !in at && Clean(s, at)
    ensures Step(PatchState(s, at)) == PatchState(Step(s), at)
  {
    hide Decode, Execute, Patch, Span;
    PatchedNext(s, at);
    ExecutePatched(s, Next(s), at);
  }

  /** Planting one more patch at a byte the patched memory may hold or not. */
  lemma PatchMore(m: Memory, at: set<Word>, a: Word)
    ensures Patch(m, at)[a := INT3] == Patch(m, at + {a})
    ensures Patch(m, at)[a := m[a]] == Patch(m, at - {a})
  {
  }

  lemma UndoPatch(m: Memory, saved: map<Word, Byte>)
    requires forall a :: a in saved ==> m[a] == INT3
    ensures Patch(Undo(m, saved), saved.Keys) == m
  {
  }

  /** A machine that runs on without faulting through the patched memory meets no patch,
      and it is the native run seen through the patches. */
  lemma {:induction false} RunPatched(s: State, at: set<Word>, n: nat)
    requires Tame(s, at)
    requires forall j: nat :: j < n ==> !Faults(Next(Run(PatchState(s, at), j)))
    ensures Run(PatchState(s, at), n) == PatchState(Run(s, n), at)
    ensures forall j: nat :: j < n ==> !AtStop(Run(s, j), at)
  {
    hide Step, Decode, Extra, Patch;
    if n > 0 {
      RunPatched(s, at, n - 1);
      var t := Run(s, n - 1);
      assert Clean(t, at);
      PatchedStop(t, at);
      assert !Faults(Next(PatchState(t, at)));
      StepPatched(t, at);
    }
  }

  /** Through the patches, a fault is a breakpoint or a native fault, and the kind of
      signal tells which byte was executed. */
  lemma PatchedStop(s: State, at: set<Word>)
    requires Clean(s, at)
    ensures Faults(Next(PatchState(s, at))) <==> AtStop(s, at)
    ensures s.regs.pc in at ==> Next(PatchState(s, at)) == Int3
    ensures s.regs.pc !in at ==> Next(PatchState(s, at)) == Next(s)
  {
    hide Extra, DecodeWide, Imm;
    if s.regs.pc !in at { PatchedNext(s, at); }
  }

  /** A load betrays the patches exactly when it covers one whose native byte is not
      itself an `int3`. */
  lemma {:induction false} LoadBetrayed(m: Memory, at: set<Word>, a: Word, n: nat)
    requires n <= 8
    ensures Load(Patch(m, at), a, n) == Load(m, a, n)
            <==> forall x :: x in Span(a, n) && x in at ==> m[x] == INT3
    decreases n
  {
    if n > 0 {
      SpanStep(a, n);
      SpanSplits(a, n);
      LoadBetrayed(m, at, Plus(a, 1), n - 1);
    }
  }

  lemma SpanSplits(a: Word, n: nat)
    requires n > 0
    ensures Span(a, n) == {a} + Span(Plus(a, 1), n - 1)
  {
    SpanStep(a, n);
    forall x | x in Span(a, n) ensures x == a || x in Span(Plus(a, 1), n - 1) {
      var i :| 0 <= i < n && x == Plus(a, i);
      if i > 0 {
        PlusPlus(a, 1, i - 1);
        assert 0 <= i - 1 < n - 1 && x == Plus(Plus(a, 1), i - 1);
      }
    }
  }

  // ---------- tame programs

  /** A condition that holds now, is kept by every step, and keeps each step off the text makes
      the whole run tame. */
  lemma TameByInvariant(s: State, at: set<Word>, inv: State -> bool)
    requires inv(s) && forall u: State :: inv(u) ==> Clean(u, at) && inv(Step(u))
    ensures Tame(s, at)
  {
    hide Step, Clean;
    forall n: nat ensures Clean(Run(s, n), at) {
      InvariantHolds(s, inv, n);
    }
  }

  lemma {:induction false} InvariantHolds(s: State, inv: State -> bool, n: nat)
    requires inv(s) && forall u: State :: inv(u) ==> inv(Step(u))
    ensures inv(Run(s, n))
  {
    hide Step;
    if n > 0 { InvariantHolds(s, inv, n - 1); }
  }

  /** A program in an endless loop over its text: `nop` at 0, and at 1 a jump back to it. */
  predicate Looping(s: State) {
    && s.mem[0] == 0x90 && s.mem[1] == 0xe9
    && s.mem[2] == 0xfa && s.mem[3] == s.mem[4] == s.mem[5] == 0xff
    && (s.regs.pc == 0 || s.regs.pc == 1)
  }

  /** Both its instructions are breakable for ever. */
  lemma LoopIsTame(s: State)
    requires Looping(s)
    ensures Tame(s, {0, 1})
  {
    hide Step, Clean;
    forall u: State | Looping(u) ensures Clean(u, {0, 1}) && Looping(Step(u)) { LoopStep(u); }
    TameByInvariant(s, {0, 1}, Looping);
  }

  lemma LoopStep(s: State)
    requires Looping(s)
    ensures Clean(s, {0, 1}) && Looping(Step(s))
  {
    if s.regs.pc == 1 {
      BackJump(s.mem);
      hide Imm;
      assert Decode(s.mem, 1) == Jmp(WORD - 6);
    } else {
      assert Decode(s.mem, 0) == Nop;
    }
  }

  lemma BackJump(m: Memory)
    requires m[2] == 0xfa && m[3] == m[4] == m[5] == 0xff
    ensures Imm(m, 1, 1, 4) == WORD - 6
  {
    assert Load(m, 6, 0) == 0;
    assert Load(m, 5, 1) == 0xff;
    assert Load(m, 4, 2) == 0xffff;
    assert Load(m, 3, 3) == 0xff_ffff;
    assert Load(m, 2, 4) == 0xffff_fffa;
    assert Pow256(4) == 0x1_0000_0000;
  }
}
