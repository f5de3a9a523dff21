/** The traced process: a flat 64-bit byte memory, the registers a debugger
    looks at, and a fragment of x86-64 with its real encodings (1 to 10 bytes).
    `Step` is the native machine; nothing here knows about breakpoints. */
module Machine {
  import opened Bits

  const WORD: nat := 0x1_0000_0000_0000_0000
  const INT3: Byte := 0xcc

  type Word = w: int | 0 <= w < WORD
  type Memory = m: seq<Byte> | |m| == WORD ghost witness seq(WORD, _ => 0)

  /** `zf` is the zero flag of `eflags`. */
  datatype Regs = Regs(pc: Word, sp: Word, bp: Word, ax: Word, zf: bool)
  datatype State = State(mem: Memory, regs: Regs)

  datatype Instr =
    | Nop
    | PushBp
    | PopBp
    | Leave
    | Ret
    | MovBpSp
    | Jz(disp: Word)
    | Jmp(disp: Word)
    | Call(disp: Word)
    | LoadAx            // mov rax, [rax]
    | StoreAx(disp: Word)  // mov [rbp+disp], rax
    | AddAx(imm: Word)
    | SubSp(imm: Word)
    | MovAx(imm: Word)
    | Int3
    | Illegal(inspected: nat)

  /** 64-bit address arithmetic wraps. */
  function Plus(a: Word, k: int): Word {
    (a + k) % WORD
  }

  /** The `n` bytes at `a`, least significant first, as one number. */
  function Load(m: Memory, a: Word, n: nat): (v: nat)
    requires n <= 8
    ensures v < Pow256(n)
    decreases n
  {
    if n == 0 then 0 else m[a] + 0x100 * Load(m, Plus(a, 1), n - 1)
  }

  function Store(m: Memory, a: Word, n: nat, v: nat): Memory
    decreases n
  {
    if n == 0 then m else Store(m, Plus(a, 1), n - 1, v / 0x100)[a := v % 0x100]
  }

  function LoadWord(m: Memory, a: Word): Word {
    assert Pow256(8) == WORD;
    Load(m, a, 8)
  }

  function StoreWord(m: Memory, a: Word, w: Word): Memory {
    Store(m, a, 8, w)
  }

  function SignExtend(v: nat, n: nat): Word
    requires n <= 4 && v < Pow256(n)
  {
    assert Pow256(0) == 1 && Pow256(1) == 0x100 && Pow256(2) == 0x1_0000;
    assert Pow256(3) == 0x100_0000 && Pow256(4) == 0x1_0000_0000;
    if v < Pow256(n) / 2 then v else WORD - Pow256(n) + v
  }

  function Imm(m: Memory, pc: Word, offset: nat, n: nat): Word
    requires n <= 4
  {
    SignExtend(Load(m, Plus(pc, offset), n), n)
  }

  function Decode(m: Memory, pc: Word): Instr {
    var op := m[pc];
    if op == 0x90 then Nop
    else if op == 0x55 then PushBp
    else if op == 0x5d then PopBp
    else if op == 0xc9 then Leave
    else if op == 0xc3 then Ret
    else if op == INT3 then Int3
    else if op == 0x74 then Jz(Imm(m, pc, 1, 1))
    else if op == 0xe8 then Call(Imm(m, pc, 1, 4))
    else if op == 0xe9 then Jmp(Imm(m, pc, 1, 4))
    else if op == 0x48 then DecodeWide(m, pc)
    else Illegal(1)
  }

  /** The instructions behind a REX.W prefix. */
  function DecodeWide(m: Memory, pc: Word): Instr {
    var op, modrm := m[Plus(pc, 1)], m[Plus(pc, 2)];
    if op == 0x05 then AddAx(Imm(m, pc, 2, 4))
    else if op == 0xb8 then MovAx(LoadWord(m, Plus(pc, 2)))
    else if op == 0x89 then
      if modrm == 0xe5 then MovBpSp
      else if modrm == 0x45 then StoreAx(Imm(m, pc, 3, 1))
      else Illegal(3)
    else if op == 0x8b then
      if modrm == 0x00 then LoadAx else Illegal(3)
    else if op == 0x81 then
      if modrm == 0xec then SubSp(Imm(m, pc, 3, 4)) else Illegal(3)
    else Illegal(2)
  }

  function Length(i: Instr): nat {
    match i
    case Nop | PushBp | PopBp | Leave | Ret | Int3 => 1
    case Jz(_) => 2
    case MovBpSp | LoadAx => 3
    case StoreAx(_) => 4
    case Call(_) | Jmp(_) => 5
    case AddAx(_) => 6
    case SubSp(_) => 7
    case MovAx(_) => 10
    case Illegal(n) => n
  }

  /** Where the instruction accesses its one 8-byte data operand, if it has one. */
  function DataAddress(i: Instr, r: Regs): (a: seq<Word>)
    ensures |a| <= 1
  {
    match i
    case PushBp | Call(_) => [Plus(r.sp, -8)]
    case PopBp | Ret => [r.sp]
    case Leave => [r.bp]
    case LoadAx => [r.ax]
    case StoreAx(d) => [Plus(r.bp, d)]
    case _ => []
  }

  /** An `int3` or an undefined opcode raises a signal and executes nothing. */
  predicate Faults(i: Instr) {
    i.Int3? || i.Illegal?
  }

  function Execute(s: State, i: Instr): State {
    var r := s.regs;
    var next := Plus(r.pc, Length(i));
    match i
    case Nop =>
      s.(regs := r.(pc := next))
    case PushBp =>
      State(StoreWord(s.mem, Plus(r.sp, -8), r.bp), r.(pc := next, sp := Plus(r.sp, -8)))
    case PopBp =>
      s.(regs := r.(pc := next, bp := LoadWord(s.mem, r.sp), sp := Plus(r.sp, 8)))
    case Leave =>
      s.(regs := r.(pc := next, bp := LoadWord(s.mem, r.bp), sp := Plus(r.bp, 8)))
    case Ret =>
      s.(regs := r.(pc := LoadWord(s.mem, r.sp), sp := Plus(r.sp, 8)))
    case MovBpSp =>
      s.(regs := r.(pc := next, bp := r.sp))
    case Jz(d) =>
      s.(regs := r.(pc := if r.zf then Plus(next, d) else next))
    case Jmp(d) =>
      s.(regs := r.(pc := Plus(next, d)))
    case Call(d) =>
      State(StoreWord(s.mem, Plus(r.sp, -8), next), r.(pc := Plus(next, d), sp := Plus(r.sp, -8)))
    case LoadAx =>
      s.(regs := r.(pc := next, ax := LoadWord(s.mem, r.ax)))
    case StoreAx(d) =>
      State(StoreWord(s.mem, Plus(r.bp, d), r.ax), r.(pc := next))
    case AddAx(v) =>
      s.(regs := r.(pc := next, ax := Plus(r.ax, v), zf := Plus(r.ax, v) == 0))
    case SubSp(v) =>
      s.(regs := r.(pc := next, sp := Plus(r.sp, -(v as int)), zf := r.sp == v))
    case MovAx(v) =>
      s.(regs := r.(pc := next, ax := v))
    case Int3 | Illegal(_) =>
      s
  }

  function Step(s: State): State {
    Execute(s, Decode(s.mem, s.regs.pc))
  }

  /** The native machine after `n` steps. */
  function Run(s: State, n: nat): State {
    if n == 0 then s else Step(Run(s, n - 1))
  }

  function Span(a: Word, n: nat): set<Word> {
    set i | 0 <= i < n :: Plus(a, i)
  }

  /** Every byte a step reads or writes, except the opcode byte at pc. */
  function Extra(s: State): set<Word> {
    var i := Decode(s.mem, s.regs.pc);
    var data := DataAddress(i, s.regs);
    (if Length(i) == 0 then {} else Span(Plus(s.regs.pc, 1), Length(i) - 1))
    + (if data == [] then {} else Span(data[0], 8))
  }

  // ---------- memory laws

  lemma {:induction false} RunSplits(s: State, a: nat, b: nat)
    ensures Run(s, a + b) == Run(Run(s, a), b)
  {
    hide Step;
    if b > 0 {
      RunSplits(s, a, b - 1);
      assert a + b - 1 == a + (b - 1);
    }
  }

  lemma PlusMoves(a: Word, k: nat)
    requires 0 < k < WORD
    ensures Plus(a, k) != a
  {
  }

  lemma PlusPlus(a: Word, j: int, k: int)
    ensures Plus(Plus(a, j), k) == Plus(a, j + k)
  {
  }

  lemma SpanPart(a: Word, off: nat, n: nat, len: nat)
    requires off + n <= len
    ensures Span(Plus(a, off), n) <= Span(a, len)
  {
    forall i | 0 <= i < n ensures Plus(Plus(a, off), i) in Span(a, len) {
      PlusPlus(a, off, i);
      assert 0 <= off + i < len;
    }
  }

  lemma SpanStep(a: Word, n: nat)
    requires n > 0
    ensures a in Span(a, n)
    ensures Span(Plus(a, 1), n - 1) <= Span(a, n)
  {
    assert Plus(a, 0) == a;
    SpanPart(a, 1, n - 1, n);
  }

  /** A load sees only its own bytes. */
  lemma {:induction false} LoadFrame(m: Memory, m': Memory, a: Word, n: nat)
    requires n <= 8
    requires forall x :: x in Span(a, n) ==> m[x] == m'[x]
    ensures Load(m, a, n) == Load(m', a, n)
    decreases n
  {
    if n > 0 {
      SpanStep(a, n);
      LoadFrame(m, m', Plus(a, 1), n - 1);
    }
  }

  /** A store changes only its own bytes. */
  lemma {:induction false} StoreFrame(m: Memory, a: Word, n: nat, v: nat, x: Word)
    requires x !in Span(a, n)
    ensures Store(m, a, n, v)[x] == m[x]
    decreases n
  {
    if n > 0 {
      SpanStep(a, n);
      StoreFrame(m, Plus(a, 1), n - 1, v / 0x100, x);
    }
  }

  /** What a store leaves inside its span does not depend on the memory before. */
  lemma {:induction false} StoreInside(m: Memory, m': Memory, a: Word, n: nat, v: nat, x: Word)
    requires x in Span(a, n)
    ensures Store(m, a, n, v)[x] == Store(m', a, n, v)[x]
    decreases n
  {
    if n > 0 && x != a {
      var i :| 0 <= i < n && x == Plus(a, i);
      assert i != 0;
      PlusPlus(a, 1, i - 1);
      assert 0 <= i - 1 < n - 1 && x == Plus(Plus(a, 1), i - 1);
      StoreInside(m, m', Plus(a, 1), n - 1, v / 0x100, x);
    }
  }

  lemma LoadFirst(m: Memory, a: Word, n: nat)
    requires 0 < n <= 8
    ensures Load(m, a, n) == m[a] + 0x100 * Load(m, Plus(a, 1), n - 1)
    ensures Load(m, a, n) % 0x100 == m[a] && Load(m, a, n) / 0x100 == Load(m, Plus(a, 1), n - 1)
  {
  }

  lemma StoreFirst(m: Memory, a: Word, n: nat, v: nat)
    requires n > 0
    ensures Store(m, a, n, v) == Store(m, Plus(a, 1), n - 1, v / 0x100)[a := v % 0x100]
  {
  }

  /** Writing back what was read changes nothing. */
  lemma {:induction false} StoreOfLoad(m: Memory, a: Word, n: nat)
    requires n <= 8
    ensures Store(m, a, n, Load(m, a, n)) == m
    decreases n
  {
    if n > 0 {
      hide Load, Store;
      LoadFirst(m, a, n);
      StoreFirst(m, a, n, Load(m, a, n));
      StoreOfLoad(m, Plus(a, 1), n - 1);
    }
  }

  lemma SpanAvoidsStart(a: Word, n: nat)
    requires n <= 8
    ensures a !in Span(Plus(a, 1), n)
  {
    forall i | 0 <= i < n ensures Plus(Plus(a, 1), i) != a {
      PlusPlus(a, 1, i);
      PlusMoves(a, 1 + i);
    }
  }

  /** Reading back what was written. */
  lemma {:induction false} LoadOfStore(m: Memory, a: Word, n: nat, v: nat)
    requires n <= 8 && v < Pow256(n)
    ensures Load(Store(m, a, n, v), a, n) == v
    decreases n
  {
    if n > 0 {
      var inner := Store(m, Plus(a, 1), n - 1, v / 0x100);
      var stored := inner[a := v % 0x100];
      assert v / 0x100 < Pow256(n - 1);
      hide Load, Store, Pow256, Span;
      LoadOfStore(m, Plus(a, 1), n - 1, v / 0x100);
      SpanAvoidsStart(a, n - 1);
      StoreFirst(m, a, n, v);
      LoadFrame(inner, stored, Plus(a, 1), n - 1);
      LoadFirst(stored, a, n);
    }
  }

  lemma StoreWordFrame(m: Memory, a: Word, w: Word, x: Word)
    requires x !in Span(a, 8)
    ensures StoreWord(m, a, w)[x] == m[x]
  {
    StoreFrame(m, a, 8, w, x);
  }

  lemma WordReadsBack(m: Memory, a: Word, w: Word)
    ensures LoadWord(StoreWord(m, a, w), a) == w
  {
    assert Pow256(8) == WORD;
    LoadOfStore(m, a, 8, w);
  }

  /** A word store leaves a word elsewhere alone. */
  lemma WordFrame(m: Memory, a: Word, w: Word, b: Word)
    requires Span(a, 8) !! Span(b, 8)
    ensures LoadWord(StoreWord(m, a, w), b) == LoadWord(m, b)
  {
    forall x | x in Span(b, 8) ensures StoreWord(m, a, w)[x] == m[x] {
      StoreWordFrame(m, a, w, x);
    }
    LoadFrame(StoreWord(m, a, w), m, b, 8);
  }

  /** A step writes nothing outside `Extra`. */
  lemma StepFrame(s: State, x: Word)
    requires x !in Extra(s)
    ensures Step(s).mem[x] == s.mem[x]
  {
    var i := Decode(s.mem, s.regs.pc);
    var data := DataAddress(i, s.regs);
    if data != [] {
      match i
      case PushBp => StoreWordFrame(s.mem, data[0], s.regs.bp, x);
      case Call(_) => StoreWordFrame(s.mem, data[0], Plus(s.regs.pc, Length(i)), x);
      case StoreAx(_) => StoreWordFrame(s.mem, data[0], s.regs.ax, x);
      case _ =>
    }
  }
}
