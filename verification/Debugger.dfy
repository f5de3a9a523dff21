/** The breakpoint and stepping engine. A debugger is correct when it is transparent:
    the process with the patches undone is always the native machine after some number
    of its own steps. */
module Debuggers {
  import opened Bits
  import opened Machine
  import opened Patching
  import opened Ptrace
  import opened Breakpoints
  import opened DebugInfo
  import opened Options
  import opened Frames

  /** How a command ends: on a breakpoint trap, on another signal, after plain stepping,
      still waiting for the process, or on an uncaught failed lookup. */
  datatype Stop = Hit | Faulted | Stepped | Running | Threw

  lemma NativeKept(s: State, saved: map<Word, Byte>)
    requires Clean(s, saved.Keys)
    requires forall a :: a in saved ==> saved[a] == s.mem[a]
    ensures forall a :: a in saved ==> saved[a] == Step(s).mem[a]
  {
    hide Step, Extra;
    forall a | a in saved ensures saved[a] == Step(s).mem[a] {
      StepFrame(s, a);
    }
  }

  lemma {:induction false} RunKept(s: State, saved: map<Word, Byte>, n: nat)
    requires Tame(s, saved.Keys)
    requires forall a :: a in saved ==> saved[a] == s.mem[a]
    ensures forall a :: a in saved ==> saved[a] == Run(s, n).mem[a]
  {
    hide Step, Clean;
    forall a | a in saved ensures saved[a] == Run(s, n).mem[a] {
      TextConstant(s, saved.Keys, n, a);
    }
  }

  /** `k` is the first step at or after 1 at which the run is at a stop. */
  ghost predicate FirstStop(s: State, at: set<Word>, k: nat) {
    && k >= 1 && AtStop(Run(s, k), at)
    && NoStopBefore(s, at, k)
  }

  ghost predicate NoStopBefore(s: State, at: set<Word>, k: nat) {
    forall j: nat :: 1 <= j < k ==> !AtStop(Run(s, j), at)
  }

  /** What `PTRACE_CONT` on the patched process means for the native run. */
  lemma ContinuedRun(s: State, at: set<Word>, n: nat, now: State, signal: Signal)
    requires Tame(s, at)
    requires forall j: nat :: j < n ==> !Faults(Next(Run(PatchState(s, at), j)))
    requires signal == StillRunning ==> now == Run(PatchState(s, at), n)
    requires signal != StillRunning ==>
               Faults(Next(Run(PatchState(s, at), n)))
               && (now, signal) == Event(Run(PatchState(s, at), n))
    ensures forall j: nat :: j < n ==> !AtStop(Run(s, j), at)
    ensures Settle(now, signal) == PatchState(Run(s, n), at)
    ensures signal != StillRunning ==> AtStop(Run(s, n), at)
    ensures signal != StepTrap
    ensures signal == BreakTrap ==> Run(s, n).regs.pc in at || Next(Run(s, n)) == Int3
    ensures signal == Fault ==> Run(s, n).regs.pc !in at && Next(Run(s, n)).Illegal?
  {
    hide Step, Decode, Patch, Clean, Next, Event, Settle, AtStop;
    RunPatched(s, at, n);
    if signal != StillRunning {
      assert Clean(Run(s, n), at);
      PatchedEvent(Run(s, n), at);
    } else {
      assert Settle(now, signal) == now by { SettleRunning(now); }
    }
  }

  lemma SettleRunning(s: State)
    ensures Settle(s, StillRunning) == s
  {
  }

  /** The signal that ends a run, settled, leaves the native state it came from. */
  lemma PatchedEvent(s: State, at: set<Word>)
    requires Clean(s, at) && Faults(Next(PatchState(s, at)))
    ensures var e := Event(PatchState(s, at));
            && Settle(e.0, e.1) == PatchState(s, at)
            && AtStop(s, at)
            && (e.1 == BreakTrap || e.1 == Fault)
            && (e.1 == BreakTrap ==> s.regs.pc in at || Next(s) == Int3)
            && (e.1 == Fault ==> s.regs.pc !in at && Next(s).Illegal?)
  {
    hide Step, Decode, Patch, Clean;
    PatchedStop(s, at);
    PlusPlus(s.regs.pc, 1, -1);
  }

  /** Stepping off the start first and then running gives the first stop of the whole run. */
  lemma FirstStopJoins(s: State, at: set<Word>, n: nat) returns (k: nat)
    requires var e := if s.regs.pc in at then 1 else 0;
             forall j: nat :: j < n ==> !AtStop(Run(Run(s, e), j), at)
    ensures n <= k <= n + 1
    ensures var e := if s.regs.pc in at then 1 else 0;
            && Run(s, k) == Run(Run(s, e), n)
            && NoStopBefore(s, at, k)
            && (AtStop(Run(s, k), at) ==> FirstStop(s, at, k))
  {
    hide Step, Decode;
    var e := if s.regs.pc in at then 1 else 0;
    RunSplits(s, e, n);
    forall j: nat | 1 <= j < e + n ensures !AtStop(Run(s, j), at) {
      RunSplits(s, e, j - e);
    }
    k := e + n;
    if e + n == 0 && AtStop(s, at) {
      StuckStep(s);
      assert Run(s, 1) == Step(Run(s, 0)) == s;
      k := 1;
    }
  }

  /** A native fault leaves the native machine where it was. */
  lemma StuckStep(s: State)
    ensures Faults(Next(s)) ==> Step(s) == s
  {
    hide Decode;
  }

  lemma NativeTrapStops(s: State, at: set<Word>)
    requires Next(s) == Int3
    ensures FirstStop(s, at, 1) && NoStopBefore(s, at, 1) && Run(s, 1) == Step(s) == s
  {
    hide Step, Decode;
    StuckStep(s);
    assert Run(s, 1) == Step(Run(s, 0)) == s;
  }

  lemma UndoOfPatch(m: Memory, saved: map<Word, Byte>)
    requires forall a :: a in saved ==> saved[a] == m[a]
    ensures Undo(Patch(m, saved.Keys), saved) == m
  {
  }

  lemma PatchedBytes(m: Memory, at: set<Word>)
    ensures forall a: Word :: Patch(m, at)[a] == if a in at then INT3 else m[a]
  {
  }

  /** What a stop leaves once pc is wound back over an executed `int3`. */
  function Settle(s: State, signal: Signal): State {
    if signal == BreakTrap then s.(regs := s.regs.(pc := Plus(s.regs.pc, -1))) else s
  }

  /** The signal of one native step. */
  function SignalOf(s: State): (signal: Signal)
    ensures signal == BreakTrap <==> Next(s) == Int3
    ensures signal == Fault <==> Next(s).Illegal?
    ensures signal != StillRunning
  {
    match Next(s)
    case Int3 => BreakTrap
    case Illegal(_) => Fault
    case _ => StepTrap
  }

  /** One single step away from any patch, settled, is one native step seen through the
      patches; a native fault leaves the native machine where it was. */
  lemma SettledStep(s: State, at: set<Word>)
    requires s.regs.pc !in at && Clean(s, at)
    ensures Next(PatchState(s, at)) == Next(s)
    ensures var e := Event(PatchState(s, at));
            && Settle(e.0, e.1) == PatchState(Step(s), at) && e.1 == SignalOf(s)
  {
    hide Decode, Patch, Clean;
    PatchedNext(s, at);
    if Faults(Next(s)) {
      assert Step(s) == s;
      PlusPlus(s.regs.pc, 1, -1);
    } else {
      hide Step;
      StepPatched(s, at);
    }
  }

  /** A write with the patches undone is the write to the native memory if and only if the
      patched bytes it covers get the bytes saved for them. */
  lemma WriteSeen(m: Memory, saved: map<Word, Byte>, addr: Word, value: Word)
    ensures Undo(StoreWord(m, addr, value), saved) == StoreWord(Undo(m, saved), addr, value)
            <==> forall a :: a in saved && a in Span(addr, 8) ==> StoreWord(m, addr, value)[a] == saved[a]
  {
    hide StoreWord, Span;
    var now, native := Undo(StoreWord(m, addr, value), saved), StoreWord(Undo(m, saved), addr, value);
    forall x: int | 0 <= x < WORD
      ensures now[x] == native[x] <==> (x in saved && x in Span(addr, 8) ==> StoreWord(m, addr, value)[x] == saved[x])
    {
      if x in Span(addr, 8) {
        StoreWordInside(m, Undo(m, saved), addr, value, x);
      } else {
        StoreWordFrame(m, addr, value, x);
        StoreWordFrame(Undo(m, saved), addr, value, x);
      }
    }
  }

  /** Saving and patching one more byte is invisible unless a patch was already there. */
  lemma UndoPlanted(m: Memory, saved: map<Word, Byte>, a: Word)
    requires forall x :: x in saved ==> m[x] == INT3
    ensures Undo(m[a := INT3], saved[a := m[a]]) == Undo(m, saved)
            <==> a !in saved || saved[a] == INT3
  {
    var now, before := Undo(m[a := INT3], saved[a := m[a]]), Undo(m, saved);
    assert now[a] == m[a];
    assert forall x: int :: 0 <= x < WORD && x != a ==> now[x] == before[x];
  }

  lemma AddThenRemove<T>(m: map<Word, T>, a: Word, x: T)
    requires a !in m
    ensures m[a := x] - {a} == m
  {
  }

  function Elements(list: seq<Word>): set<Word> {
    set x | x in list
  }

  predicate NoDuplicates(list: seq<Word>) {
    forall i, j :: 0 <= i < j < |list| ==> list[i] != list[j]
  }

  lemma AddOneMore<T>(m: map<Word, T>, list: seq<Word>, a: Word, x: T)
    requires a !in m
    ensures m[a := x] - Elements(list + [a]) == m - Elements(list)
    ensures Elements(list + [a]) == Elements(list) + {a}
  {
    assert Elements(list + [a]) == Elements(list) + {a};
  }

  lemma RemoveOneMore<T>(m: map<Word, T>, list: seq<Word>, i: nat)
    requires i < |list|
    ensures m - Elements(list[..i]) - {list[i]} == m - Elements(list[..i + 1])
  {
    assert list[..i + 1] == list[..i] + [list[i]];
    assert Elements(list[..i + 1]) == Elements(list[..i]) + {list[i]};
  }

  lemma InElements(list: seq<Word>)
    ensures forall a :: a in list <==> a in Elements(list)
  {
  }

  lemma NextElement(list: seq<Word>, i: nat)
    requires NoDuplicates(list) && i < |list|
    ensures list[i] in Elements(list) && list[i] !in Elements(list[..i])
  {
  }

  lemma AllElements(list: seq<Word>)
    ensures Elements(list[..|list|]) == Elements(list)
  {
    assert list[..|list|] == list;
  }

  lemma RemovedNone<T>(m: map<Word, T>, list: seq<Word>)
    ensures m - Elements(list[..0]) == m
  {
  }

  class Debugger {
    const tracee: Tracee
    const loadAddress: Word
    const rows: seq<Row>
    const funcs: seq<Function>
    var bps: map<Word, Breakpoint>

    constructor (tracee: Tracee, loadAddress: Word, rows: seq<Row>, funcs: seq<Function>)
      ensures this.tracee == tracee && this.loadAddress == loadAddress
      ensures this.rows == rows && this.funcs == funcs
      ensures bps == map[] && Valid() && View() == tracee.Now()
    {
      this.tracee := tracee;
      this.loadAddress := loadAddress;
      this.rows := rows;
      this.funcs := funcs;
      this.bps := map[];
      new;
      assert Undo(tracee.mem, Saved()) == tracee.mem;
    }

    /** Every entry is keyed by its own address, enabled, and patched into memory. */
    ghost predicate Valid()
      reads this, tracee, bps.Values
    {
      forall a :: a in bps ==>
        && bps[a].tracee == tracee && bps[a].addr == a && bps[a].enabled
        && tracee.mem[a] == INT3
    }

    ghost function Saved(): (saved: map<Word, Byte>)
      reads this, bps.Values
      ensures saved.Keys == bps.Keys
    {
      map a | a in bps :: bps[a].data
    }

    /** The process as it would be without the debugger: registers, and memory with the
        patches undone. */
    ghost function View(): State
      reads this, tracee, bps.Values
    {
      State(Undo(tracee.mem, Saved()), tracee.regs)
    }

    lemma ViewPatched()
      requires Valid()
      ensures tracee.Now() == PatchState(View(), bps.Keys)
      ensures forall a :: a in Saved() ==> Saved()[a] == View().mem[a]
    {
      UndoPatch(tracee.mem, Saved());
    }

    lemma ViewIs(native: State)
      requires tracee.Now() == PatchState(native, bps.Keys)
      requires forall a :: a in bps ==> bps[a].data == native.mem[a]
      ensures View() == native
      ensures forall a :: a in bps ==> tracee.mem[a] == INT3
    {
      PatchedBytes(native.mem, bps.Keys);
      UndoOfPatch(native.mem, Saved());
    }

    /** A process patched at every entry makes the debugger valid again. */
    lemma ValidAgain(native: State)
      requires tracee.Now() == PatchState(native, bps.Keys)
      requires forall a :: a in bps ==> bps[a].data == native.mem[a]
      requires forall a :: a in bps ==> bps[a].tracee == tracee && bps[a].addr == a && bps[a].enabled
      ensures Valid() && View() == native
    {
      ViewIs(native);
    }

    /** The address lookups take: pc relative to where the image was loaded. */
    function Offset(pc: Word): Word {
      Plus(pc, -(loadAddress as int))
    }

    method AddBreakpoint(addr: Word)
      requires Valid()
      modifies this, tracee`mem
      ensures Valid()
      ensures addr in bps && fresh(bps[addr]) && bps == old(bps)[addr := bps[addr]]
      ensures Saved() == old(Saved())[addr := old(tracee.mem[addr])]
      ensures tracee.mem == old(tracee.mem)[addr := INT3]
      // transparent exactly when the address was free, or already held a native int3
      ensures View() == old(View()) <==> addr !in old(bps) || old(bps[addr].data) == INT3
    {
      hide Undo;
      ghost var m, saved := tracee.mem, Saved();
      var bp := new Breakpoint(tracee, addr);
      bp.Enable();
      bps := bps[addr := bp];
      assert Saved() == saved[addr := m[addr]];
      UndoPlanted(m, saved, addr);
    }

    method RemoveBreakpoint(addr: Word)
      requires Valid() && addr in bps
      modifies this, bps.Values, tracee`mem
      ensures Valid()
      ensures bps == old(bps) - {addr} && Saved() == old(Saved()) - {addr}
      ensures View() == old(View())
    {
      if bps[addr].enabled {
        bps[addr].Disable();
      }
      bps := bps - {addr};
      assert forall a :: a in bps ==> bps[a].data == old(bps[a].data);
      assert View().mem == old(View()).mem;
    }

    /** What a signal, once handled, means for the command; a trap at an address without a
        line ends in an uncaught exception. */
    function StopOf(signal: Signal, pc: Word): (stop: Stop)
      ensures stop == Running <==> signal == StillRunning
      ensures stop == Threw ==> LineAt(rows, Offset(pc)).None?
      ensures stop == Hit ==> LineAt(rows, Offset(pc)).Some?
      ensures stop == Hit || stop == Threw <==> signal == BreakTrap
      ensures stop == Faulted <==> signal == Fault
    {
      match signal
      case BreakTrap => if LineAt(rows, Offset(pc)).None? then Threw else Hit
      case StepTrap => Stepped
      case Fault => Faulted
      case StillRunning => Running
    }

    /** A breakpoint trap left pc one past the `int3`; wind it back and show the line. */
    method WaitForSignal(signal: Signal) returns (stop: Stop)
      modifies tracee`regs
      ensures tracee.Now() == Settle(old(tracee.Now()), signal)
      ensures stop == StopOf(signal, tracee.regs.pc)
    {
      if signal == BreakTrap {
        tracee.regs := tracee.regs.(pc := Plus(tracee.regs.pc, -1));
      }
      stop := StopOf(signal, tracee.regs.pc);
    }

    method SingleStepInstruction() returns (stop: Stop)
      modifies tracee
      ensures var e := Event(old(tracee.Now()));
              tracee.Now() == Settle(e.0, e.1) && stop == StopOf(e.1, tracee.regs.pc)
    {
      hide Event, LineAt, StopOf;
      var signal := tracee.SingleStep();
      stop := WaitForSignal(signal);
    }

    /** The enabled branch of `StepOverBreakpoint`: lift the patch, step, plant it again. */
    method StepBeneath(bp: Breakpoint) returns (stop: Stop)
      requires Valid() && Clean(View(), bps.Keys)
      requires tracee.regs.pc in bps && bp == bps[tracee.regs.pc]
      modifies tracee, bp
      ensures tracee.regs == Step(old(View())).regs
      ensures stop == StopOf(SignalOf(old(View())), tracee.regs.pc)
      ensures stop != Threw ==>
                && Valid() && bp.data == old(bp.data) && View() == Step(old(View()))
    {
      hide Step, Decode, Extra, Patch, Undo, LineAt, StopOf;
      ViewPatched();
      ghost var v, saved, pc := View(), Saved(), tracee.regs.pc;
      ghost var others := saved.Keys - {pc};
      bp.Disable();
      PatchMore(v.mem, saved.Keys, pc);
      assert tracee.Now() == PatchState(v, others);
      SettledStep(v, others);
      hide Next, Event, Settle, SignalOf;
      stop := SingleStepInstruction();
      if stop == Threw {
        return;
      }
      bp.Enable();
      assert tracee.mem == Patch(Step(v).mem, saved.Keys) by {
        PatchMore(Step(v).mem, others, pc);
        assert others + {pc} == saved.Keys;
      }
      NativeKept(v, saved);
      assert bp.data == Step(v).mem[pc] by { PatchedBytes(Step(v).mem, others); }
      ValidAgain(Step(v));
    }

    /** Executes the instruction under the breakpoint at pc, if there is one. */
    method StepOverBreakpoint() returns (stop: Stop)
      requires Valid() && Clean(View(), bps.Keys)
      modifies tracee, bps.Values
      ensures tracee.regs == (if old(tracee.regs.pc) in bps then Step(old(View())) else old(View())).regs
      ensures stop == if old(tracee.regs.pc) in bps then StopOf(SignalOf(old(View())), tracee.regs.pc) else Stepped
      ensures stop != Threw ==>
                && Valid() && Saved() == old(Saved())
                && View() == if old(tracee.regs.pc) in bps then Step(old(View())) else old(View())
    {
      hide Step, Clean, Undo, LineAt, StopOf, SignalOf;
      stop := Stepped;
      if tracee.regs.pc in bps {
        var bp := bps[tracee.regs.pc];
        if bp.enabled {
          stop := StepBeneath(bp);
        }
      }
    }

    /** The `k`th native step is the first, after at least one, at a breakpoint or at a native
        fault, and `stop` says which; or the wait is over and there was no such step. */
    ghost predicate RunsTo(s: State, at: set<Word>, budget: nat, stop: Stop, k: nat) {
      && stop != Stepped && NoStopBefore(s, at, k)
      && (stop == Running ==> k >= budget)
      && (stop != Running ==> FirstStop(s, at, k))
      && (stop == Faulted ==> Run(s, k).regs.pc !in at && Next(Run(s, k)).Illegal?)
      && (stop == Hit || stop == Threw ==> Run(s, k).regs.pc in at || Next(Run(s, k)) == Int3)
      && (stop == Hit ==> LineOf(Run(s, k)).Some?)
      && (stop == Threw ==> LineOf(Run(s, k)).None?)
    }

    /** Where a run that ends does so is fixed by the native machine alone. */
    lemma EndDetermined(s: State, at: set<Word>, b: nat, stop: Stop, k: nat, b': nat, stop': Stop, k': nat)
      requires RunsTo(s, at, b, stop, k) && RunsTo(s, at, b', stop', k')
      requires stop != Running
      ensures stop' != Running ==> k' == k && stop' == stop
      ensures stop' == Running ==> b' <= k' <= k
    {
    }

    /** `PTRACE_CONT` and the wait for its signal. */
    method Resume(budget: nat) returns (stop: Stop, ghost n: nat)
      requires Valid() && Tame(View(), bps.Keys)
      modifies tracee
      ensures Valid() && Saved() == old(Saved()) && View() == Run(old(View()), n)
      ensures stop != Stepped
      ensures forall j: nat :: j < n ==> !AtStop(Run(old(View()), j), bps.Keys)
      ensures stop == Running ==> n == budget
      ensures stop != Running ==> AtStop(View(), bps.Keys)
      ensures stop == Hit || stop == Threw ==> tracee.regs.pc in bps || Next(View()) == Int3
      ensures stop == Faulted ==> tracee.regs.pc !in bps && Next(View()).Illegal?
      ensures stop == Threw ==> LineAt(rows, Offset(tracee.regs.pc)).None?
      ensures stop == Hit ==> LineAt(rows, Offset(tracee.regs.pc)).Some?
    {
      hide Step, Decode, Clean, Undo, LineAt, Patch, Event, Settle, Next, AtStop, StopOf;
      ghost var v := View();
      ViewPatched();
      var signal;
      signal, n := tracee.Cont(budget);
      ContinuedRun(v, bps.Keys, n, tracee.Now(), signal);
      stop := WaitForSignal(signal);
      RunKept(v, Saved(), n);
      ViewIs(Run(v, n));
    }

    /** Steps off the breakpoint at pc, if any, and runs to the next stop. */
    method ContinueExecution(budget: nat) returns (stop: Stop, ghost k: nat)
      requires Valid() && Tame(View(), bps.Keys)
      modifies tracee, bps.Values
      ensures tracee.regs == Run(old(View()), k).regs
      ensures stop != Threw ==>
                Valid() && Saved() == old(Saved()) && View() == Run(old(View()), k)
      ensures RunsTo(old(View()), bps.Keys, budget, stop, k) && stop != Stepped
    {
      hide Step, Clean, Undo, LineAt, Next, AtStop, Saved, Valid, FirstStop, NoStopBefore, Tame, SignalOf;
      ghost var v, at := View(), bps.Keys;
      ghost var e: nat := if tracee.regs.pc in bps then 1 else 0;
      TameNow(v, at);
      stop := StepOverBreakpoint();
      assert Run(v, e) == if e == 1 then Step(v) else v by { assert Run(v, 0) == v; }
      if stop == Threw {
        k := 1;
        NativeTrapStops(v, at);
        return;
      }
      TameTail(v, at, e);
      ghost var n;
      stop, n := Resume(budget);
      k := FirstStopJoins(v, at, n);
    }

    /** One native instruction, whether or not a breakpoint sits on it. */
    method SingleStepChecked() returns (stop: Stop)
      requires Valid() && Clean(View(), bps.Keys)
      modifies tracee, bps.Values
      ensures tracee.regs == Step(old(View())).regs
      ensures stop == StopOf(SignalOf(old(View())), tracee.regs.pc)
      ensures stop != Threw ==>
                Valid() && Saved() == old(Saved()) && View() == Step(old(View()))
    {
      hide Step, Decode, Clean, Undo, LineAt, Patch, Settle, StopOf, SignalOf;
      if tracee.regs.pc in bps {
        stop := StepOverBreakpoint();
      } else {
        ghost var v := View();
        ViewPatched();
        SettledStep(v, bps.Keys);
        NativeKept(v, Saved());
        stop := SingleStepInstruction();
        ViewIs(Step(v));
      }
    }

    /** Some row of the table covers the code at pc. */
    ghost predicate Known(s: State) {
      exists i: nat :: Covers(rows, i, Offset(s.regs.pc))
    }

    ghost predicate IsOnLine(s: State, n: nat) {
      OnLine(rows, Offset(s.regs.pc), n)
    }

    /** Execution stands on a known line, and the `k`th native step is the first on another
        line, or on code without one, and `stop` says which; or the wait is over and the line
        is still the same. */
    ghost predicate StepsTo(s: State, budget: nat, stop: Stop, k: nat) {
      if !Known(s) then stop == Threw && k == 0
      else
        exists n: nat :: IsOnLine(s, n) && StepsOff(s, n, budget, stop, k)
    }

    ghost predicate StepsOff(s: State, n: nat, budget: nat, stop: Stop, k: nat) {
      && (stop == Stepped || stop == Running || stop == Threw)
      && (forall j: nat :: j < k ==> IsOnLine(Run(s, j), n))
      && (stop == Stepped ==> exists m: nat :: m != n && IsOnLine(Run(s, k), m))
      && (stop == Threw ==> !Known(Run(s, k)))
      && (stop == Running ==> k == budget)
    }

    lemma LineOfIs(s: State)
      ensures forall n: nat :: LineOf(s) == Some(n) <==> IsOnLine(s, n)
      ensures LineOf(s).Some? <==> Known(s)
    {
      hide LineAt, Covers, OnLine, Ordered;
      LineAtIs(rows, Offset(s.regs.pc));
    }

    /** `step`: single-steps until the line changes, so it stops at the first native state
        on another line. `budget` bounds the number of steps waited for. */
    method StepIn(budget: nat) returns (stop: Stop, ghost k: nat)
      requires Valid() && Tame(View(), bps.Keys)
      modifies tracee, bps.Values
      ensures Valid() && Saved() == old(Saved()) && View() == Run(old(View()), k)
      ensures StepsTo(old(View()), budget, stop, k)
    {
      hide Step, Decode, Extra, Undo, LineAt, OnLine, Covers, Known, IsOnLine;
      k := 0;
      ghost var v, saved := View(), Saved();
      var line := LineAt(rows, Offset(tracee.regs.pc));
      assert line == LineOf(v) == LineOf(Run(v, 0));
      LineOfIs(v);
      if line.None? {
        return Threw, 0;
      }
      var left := budget;
      while left > 0
        invariant k + left == budget
        invariant Valid() && Saved() == saved && View() == Run(v, k)
        invariant forall j: nat :: j < k ==> IsOnLine(Run(v, j), line.value)
      {
        var here := LineAt(rows, Offset(tracee.regs.pc));
        assert here == LineOf(Run(v, k));
        LineOfIs(Run(v, k));
        if here != line {
          stop := if here.None? then Threw else Stepped;
          assert StepsOff(v, line.value, budget, stop, k);
          return;
        }
        assert Clean(Run(v, k), saved.Keys);
        var step := SingleStepChecked();
        NoThrowOnLine(Run(v, k));
        left, k := left - 1, k + 1;
      }
      stop := Running;
      assert StepsOff(v, line.value, budget, stop, k);
    }

    ghost function LineOf(s: State): Option<nat> {
      LineAt(rows, Offset(s.regs.pc))
    }

    lemma NoThrowOnLine(s: State)
      ensures Next(s) == Int3 ==> LineOf(Step(s)) == LineOf(s)
    {
      hide Decode, LineAt;
      StuckStep(s);
    }

    lemma ReturnsTo(s: State)
      ensures forall stack, phase :: InPhase(s, stack, phase, loadAddress) ==>
                ReturnAddress(s) == Resumes(stack, phase)
    {
      hide LoadWord, FrameHolds, Inside, ReturnAddress, Resumes;
      forall stack, phase | InPhase(s, stack, phase, loadAddress) ensures ReturnAddress(s) == Resumes(stack, phase) {
        ResumesAt(s, stack, phase, loadAddress);
      }
    }

    /** Reads the word above the saved frame pointer through the patched memory. */
    method ReadReturnAddress() returns (returnAddress: Word)
      requires Valid() && ReturnSlot(View()) !! bps.Keys
      ensures returnAddress == ReturnAddress(View()) == LoadWord(View().mem, Plus(View().regs.bp, 8))
      // with a call stack: where the current function returns to, if its frame is linked
      ensures forall stack, phase :: InPhase(View(), stack, phase, loadAddress) ==>
                returnAddress == Resumes(stack, phase)
    {
      hide Patch, LoadWord, Undo, Saved, InPhase, Resumes;
      ViewPatched();
      ReturnsTo(View());
      PatchLoadWord(View().mem, bps.Keys, Plus(tracee.regs.bp, 8));
      var framePointer := tracee.regs.bp;
      returnAddress := tracee.Peek(Plus(framePointer, 8));
    }

    /** `finish`: runs to the return address found above the saved frame pointer, with a
        breakpoint there that is gone again afterwards. */
    method StepOut(budget: nat) returns (stop: Stop, ghost k: nat)
      requires Valid() && ReturnSlot(View()) !! bps.Keys
      requires Tame(View(), bps.Keys + {ReturnAddress(View())})
      modifies this, tracee, bps.Values
      ensures RunsTo(old(View()), old(bps.Keys) + {ReturnAddress(old(View()))}, budget, stop, k) && stop != Stepped
      // with a call stack: to where the current function returns, if its frame is linked
      ensures forall stack, phase :: InPhase(old(View()), stack, phase, loadAddress) ==>
                RunsTo(old(View()), old(bps.Keys) + {Resumes(stack, phase)}, budget, stop, k)
      ensures stop == Hit || stop == Faulted ==>
                && Valid() && bps == old(bps) && Saved() == old(Saved())
                && View() == Run(old(View()), k)
    {
      hide Step, Decode, Clean, Patch, LoadWord, Undo, Saved, View, Valid, RunsTo, InPhase, Resumes;
      ghost var v, at, bps0, saved := View(), bps.Keys, bps, Saved();
      var returnAddress := ReadReturnAddress();
      ghost var under := tracee.mem[returnAddress];
      var removeBp := false;
      if returnAddress !in bps {
        AddBreakpoint(returnAddress);
        removeBp := true;
        AddThenRemove(saved, returnAddress, under);
        AddThenRemove(bps0, returnAddress, bps[returnAddress]);
      }
      assert bps.Keys == at + {returnAddress};
      assert if removeBp then Saved() - {returnAddress} == saved else Saved() == saved;
      assert if removeBp then bps - {returnAddress} == bps0 else bps == bps0;
      stop, k := ContinueExecution(budget);
      if stop == Running || stop == Threw {
        return;
      }
      if removeBp {
        RemoveBreakpoint(returnAddress);
      }
    }

    /** What `next` works from: the current function, the row its code starts in, and the
        row execution stands on; all three lookups must succeed. */
    function NextOrigin(pc: Word): (r: Option<(Function, nat, nat)>)
      ensures r.Some? ==>
                r.value.0 in funcs && Covers(rows, r.value.1, r.value.0.low) && Covers(rows, r.value.2, Offset(pc))
    {
      match FunctionAt(funcs, Offset(pc))
      case None => None
      case Some(f) =>
        match FindAddress(rows, f.low)
        case None => None
        case Some(first) =>
          match FindAddress(rows, Offset(pc))
          case None => None
          case Some(start) => Some((f, first, start))
    }

    /** Where `next` may stop besides the user's breakpoints: the other rows of the current
        function, and the return address. */
    function NextStops(s: State): set<Word> {
      match NextOrigin(s.regs.pc)
      case None => {}
      case Some((f, first, start)) =>
        RowStops(rows, first, f.high, rows[start].address, loadAddress) + {ReturnAddress(s)}
    }

    /** The function of the code at `a`, and the rows that cover its start and `a` itself. */
    ghost predicate IsAround(a: Word, f: Function, first: nat, here: nat) {
      f in funcs && f.low <= a < f.high && Covers(rows, first, f.low) && Covers(rows, here, a)
    }

    /** The debugging information knows the function of the code at pc, and rows that cover the
        function's start and pc. */
    ghost predicate KnowsCode(pc: Word) {
      exists f, first, here :: IsAround(Offset(pc), f, first, here)
    }

    /** The code of the function at pc, row by row, but for the row of pc itself. */
    ghost function OtherRows(pc: Word): set<Word> {
      set f, first: nat, here: nat, j: nat |
        && f in funcs && 0 <= first < |rows| && 0 <= here < |rows| && 0 <= j < |rows|
        && IsAround(Offset(pc), f, first, here)
        && first <= j && rows[j].address < f.high && rows[j].address != rows[here].address
        :: Plus(rows[j].address, loadAddress)
    }

    lemma OriginIs(pc: Word, f: Function, first: nat, here: nat)
      requires Disjoint(funcs) && IsAround(Offset(pc), f, first, here)
      ensures NextOrigin(pc).Some?
      ensures Ordered(rows) ==> NextOrigin(pc) == Some((f, first, here))
    {
      hide Ordered, Covers, FunctionAt, Disjoint;
      FunctionFound(funcs, f, Offset(pc));
      if Ordered(rows) {
        OneCovers(rows, first, FindAddress(rows, f.low).value, f.low);
        OneCovers(rows, here, FindAddress(rows, Offset(pc)).value, Offset(pc));
      }
    }

    lemma IsOtherRow(pc: Word, f: Function, first: nat, here: nat, x: Word)
      requires IsAround(Offset(pc), f, first, here) && Ordered(rows)
      requires forall f', first', here' | IsAround(Offset(pc), f', first', here') ::
                 f' == f && first' == first && here' == here
      ensures x in RowStops(rows, first, f.high, rows[here].address, loadAddress) <==> x in OtherRows(pc)
    {
      hide RowStops, Ordered;
      RowStopsAre(rows, first, f.high, rows[here].address, loadAddress, x);
    }

    /** Where `next` stops, of the tables alone: with functions that do not overlap it knows where
        it starts exactly if the debugging information does, and in an ordered table it stops at
        the function's other rows and at the word above the saved frame pointer. */
    lemma NextStopsAre(s: State)
      requires Disjoint(funcs)
      ensures NextOrigin(s.regs.pc).Some? <==> KnowsCode(s.regs.pc)
      ensures KnowsCode(s.regs.pc) && Ordered(rows) ==>
                NextStops(s) == OtherRows(s.regs.pc) + {LoadWord(s.mem, Plus(s.regs.bp, 8))}
    {
      hide RowStops, Ordered, OtherRows, Disjoint, LoadWord, FunctionAt, FindAddress;
      var pc := s.regs.pc;
      forall f, first: nat, here: nat | IsAround(Offset(pc), f, first, here)
        ensures NextOrigin(pc).Some? && (Ordered(rows) ==> NextOrigin(pc) == Some((f, first, here)))
      {
        OriginIs(pc, f, first, here);
      }
      if NextOrigin(pc).Some? {
        var (f, first, here) := NextOrigin(pc).value;
        assert f.low <= Offset(pc) < f.high;
        assert IsAround(Offset(pc), f, first, here);
        if Ordered(rows) {
          forall x: Word
            ensures x in RowStops(rows, first, f.high, rows[here].address, loadAddress) <==> x in OtherRows(pc)
          {
            IsOtherRow(pc, f, first, here, x);
          }
        }
      }
    }

    /** One entry of the deletion list: plants a breakpoint unless one is already there. */
    method PlantIfFree(addr: Word, list: seq<Word>) returns (longer: seq<Word>)
      requires Valid() && NoDuplicates(list) && Elements(list) <= bps.Keys
      modifies this, tracee`mem
      ensures Valid() && View() == old(View())
      ensures bps.Keys == old(bps.Keys) + {addr} && NoDuplicates(longer)
      ensures Elements(longer) == Elements(list) + ({addr} - old(bps.Keys))
      ensures bps - Elements(longer) == old(bps) - Elements(list)
      ensures Saved() - Elements(longer) == old(Saved()) - Elements(list)
      ensures forall a :: a in bps ==> if a in old(bps) then bps[a] == old(bps[a]) else fresh(bps[a])
    {
      hide Undo, Saved, View, Valid;
      longer := list;
      if addr !in bps {
        ghost var bps0, saved, under := bps, Saved(), tracee.mem[addr];
        AddBreakpoint(addr);
        AddOneMore(bps0, list, addr, bps[addr]);
        AddOneMore(saved, list, addr, under);
        longer := list + [addr];
      }
    }

    /** The planting loop of `next`: a breakpoint on each row up to the end of the function
        that is neither the current row nor already broken on, listed for deletion. */
    method PlantRows(first: nat, funcEnd: Word, startAddress: Word) returns (list: seq<Word>)
      requires Valid()
      requires first < |rows| && funcEnd <= rows[|rows| - 1].address
      modifies this, tracee`mem
      ensures Valid() && View() == old(View())
      ensures NoDuplicates(list) && Elements(list) !! old(bps.Keys)
      ensures bps.Keys == old(bps.Keys) + Elements(list)
      ensures bps.Keys == old(bps.Keys) + RowStops(rows, first, funcEnd, startAddress, loadAddress)
      ensures bps - Elements(list) == old(bps) && Saved() - Elements(list) == old(Saved())
      ensures forall a :: a in list ==> a in bps && fresh(bps[a])
    {
      hide Undo, Saved, View, Valid;
      list := [];
      var i := first;
      assert bps - Elements(list) == bps && Saved() - Elements(list) == Saved();
      while rows[i].address < funcEnd
        invariant first <= i < |rows|
        invariant Valid() && View() == old(View())
        invariant NoDuplicates(list) && Elements(list) !! old(bps.Keys)
        invariant bps.Keys == old(bps.Keys) + Elements(list)
        invariant bps.Keys + RowStops(rows, i, funcEnd, startAddress, loadAddress)
               == old(bps.Keys) + RowStops(rows, first, funcEnd, startAddress, loadAddress)
        invariant bps - Elements(list) == old(bps) && Saved() - Elements(list) == old(Saved())
        invariant forall a :: a in list ==> a in bps && fresh(bps[a])
        decreases |rows| - i
      {
        var addr := Plus(rows[i].address, loadAddress);
        if rows[i].address != startAddress {
          list := PlantIfFree(addr, list);
        }
        i := i + 1;
      }
    }

    /** The deleting loop of `next`. */
    method RemoveAll(list: seq<Word>)
      requires Valid() && NoDuplicates(list) && Elements(list) <= bps.Keys
      modifies this, bps.Values, tracee`mem
      ensures Valid() && View() == old(View())
      ensures bps == old(bps) - Elements(list) && Saved() == old(Saved()) - Elements(list)
    {
      hide Undo, Saved, View, Valid, Elements, NoDuplicates;
      ghost var bps0, saved := bps, Saved();
      AllElements(list);
      RemovedNone(bps0, list);
      RemovedNone(saved, list);
      for i := 0 to |list|
        invariant Valid() && View() == old(View())
        invariant bps == bps0 - Elements(list[..i])
        invariant Saved() == saved - Elements(list[..i])
      {
        NextElement(list, i);
        RemoveOneMore(bps0, list, i);
        RemoveOneMore(saved, list, i);
        RemoveBreakpoint(list[i]);
      }
    }

    /** Everything `next` plants: the rows, then the return address if it is still free. */
    method PlantStops(first: nat, funcEnd: Word, startAddress: Word) returns (list: seq<Word>)
      requires Valid()
      requires first < |rows| && funcEnd <= rows[|rows| - 1].address
      requires var stops := RowStops(rows, first, funcEnd, startAddress, loadAddress);
               ReturnSlot(View()) !! bps.Keys + stops
      modifies this, tracee`mem
      ensures Valid() && View() == old(View())
      ensures NoDuplicates(list) && Elements(list) !! old(bps.Keys) && Elements(list) <= bps.Keys
      ensures bps.Keys == old(bps.Keys) + RowStops(rows, first, funcEnd, startAddress, loadAddress)
                       + {ReturnAddress(View())}
      ensures bps - Elements(list) == old(bps) && Saved() - Elements(list) == old(Saved())
      ensures forall a :: a in list ==> a in bps && fresh(bps[a])
    {
      hide LoadWord, Undo, Saved, View, Valid, RowStops, ReturnSlot, ReturnAddress, NoDuplicates, Elements, InPhase,
        Resumes;
      list := PlantRows(first, funcEnd, startAddress);
      var returnAddress := ReadReturnAddress();
      ghost var rowStops, planted := list, bps;
      InElements(rowStops);
      list := PlantIfFree(returnAddress, list);
      InElements(list);
      forall a | a in list ensures a in bps && fresh(bps[a]) {
        if a in rowStops { assert bps[a] == planted[a]; }
      }
    }

    /** `next`: plants a breakpoint on every other row of the current function and on the
        return address, runs to the first of these or of the user's, and takes the planted
        ones (`temps`) away again. */
    method StepOver(budget: nat, ghost text: set<Word>) returns (stop: Stop, ghost k: nat, ghost temps: seq<Word>)
      requires Valid() && Tame(View(), text) && bps.Keys <= text
      requires NextOrigin(tracee.regs.pc).Some? ==> ReturnSlot(View()) !! text && NextStops(View()) <= text
      requires Terminated(rows, funcs)
      modifies this, tracee, bps.Values
      ensures NextOrigin(old(tracee.regs.pc)).None? ==>
                && stop == Threw && k == 0 && Valid()
                && bps == old(bps) && Saved() == old(Saved()) && View() == old(View())
      ensures NextOrigin(old(tracee.regs.pc)).Some? ==>
                RunsTo(old(View()), old(bps.Keys) + NextStops(old(View())), budget, stop, k) && stop != Stepped
      // of the tables alone, and with a call stack of the stack alone
      ensures Disjoint(funcs) && !KnowsCode(old(tracee.regs.pc)) ==> stop == Threw && k == 0
      ensures Disjoint(funcs) && Ordered(rows) && KnowsCode(old(tracee.regs.pc)) ==>
                var word := LoadWord(old(View()).mem, Plus(old(tracee.regs.bp), 8));
                RunsTo(old(View()), old(bps.Keys) + (OtherRows(old(tracee.regs.pc)) + {word}), budget, stop, k)
      ensures Disjoint(funcs) && Ordered(rows) && KnowsCode(old(tracee.regs.pc)) ==>
                forall stack, phase :: InPhase(old(View()), stack, phase, loadAddress) ==>
                  var rowsAndReturn := OtherRows(old(tracee.regs.pc)) + {Resumes(stack, phase)};
                  RunsTo(old(View()), old(bps.Keys) + rowsAndReturn, budget, stop, k)
      ensures stop == Hit || stop == Faulted ==>
                && Valid() && bps == old(bps) && Saved() == old(Saved())
                && View() == Run(old(View()), k)
      ensures NoDuplicates(temps) && Elements(temps) !! old(bps.Keys)
    {
      hide Undo, Saved, Valid, RunsTo, FindAddress, FunctionAt, Tame, RowStops, LoadWord, ReturnSlot, OtherRows,
        KnowsCode, Disjoint, Ordered, InPhase, Resumes;
      ghost var v, at := View(), bps.Keys;
      if Disjoint(funcs) { NextStopsAre(v); }
      ReturnsTo(v);
      k, temps := 0, [];
      var origin := NextOrigin(tracee.regs.pc);
      if origin.None? {
        stop := Threw;
        return;
      }
      var func, line, start := origin.value.0, origin.value.1, origin.value.2;
      assert NextStops(v) == RowStops(rows, line, func.high, rows[start].address, loadAddress) + {ReturnAddress(v)};
      var bpToDelete := PlantStops(line, func.high, rows[start].address);
      temps := bpToDelete;
      hide View;
      assert bps.Keys == at + NextStops(v);
      TameSubset(v, text, bps.Keys);
      stop, k := ContinueExecution(budget);
      if stop == Running || stop == Threw {
        return;
      }
      RemoveAll(bpToDelete);
    }

    /** `memory write`, anywhere. The breakpoints stay planted if and only if every patch it
        covers is overwritten by 0xcc, and it is the same write to the native memory if and
        only if every patch it covers is overwritten by the byte saved for it; both hold away
        from the patches. */
    method WriteMemory(addr: Word, value: Word)
      requires Valid()
      modifies tracee`mem
      ensures tracee.mem == StoreWord(old(tracee.mem), addr, value) && Saved() == old(Saved())
      ensures Valid() <==> forall a :: a in bps && a in Span(addr, 8) ==> tracee.mem[a] == INT3
      ensures View() == old(View()).(mem := StoreWord(old(View()).mem, addr, value))
              <==> forall a :: a in bps && a in Span(addr, 8) ==> tracee.mem[a] == bps[a].data
    {
      hide StoreWord, Span, Undo;
      ghost var m, saved := tracee.mem, Saved();
      tracee.Poke(addr, value);
      forall a | a in bps && a !in Span(addr, 8) ensures tracee.mem[a] == INT3 {
        StoreWordFrame(m, addr, value, a);
      }
      WriteSeen(m, saved, addr, value);
    }

    /** `backtrace`, at any instruction of a process with a call stack. It prints the stack
        that the rbp chain shows, up to the first `main`; where a function has no debugging
        information, or the stack ends without `main`, it ends in an uncaught exception. What it
        prints is the trace of the call stack if and only if the current frame is linked, or the
        caller would not be seen. */
    method PrintBacktrace(ghost stack: seq<Activation>, ghost phase: Phase) returns (frames: seq<Function>, ok: bool)
      requires Valid() && InPhase(View(), stack, phase, loadAddress)
      requires AllPlaced(stack, funcs) && Disjoint(funcs)
      requires Readable(Shown(stack, phase), funcs, bps.Keys) && Bottom(Shown(stack, phase))
      ensures IsTrace(Shown(stack, phase), funcs, frames, ok)
      ensures (frames, ok) == Trace(stack, funcs) <==> phase.Linked? || CallerUnseen(stack, funcs)
    {
      hide LoadWord, Undo, Patch, FunctionAt, Span, Represents, Shown, Functions, InPhase, Readable, Bottom,
        CallerUnseen;
      ghost var v, shown := View(), Shown(stack, phase);
      ShownRepresented(v, stack, phase, loadAddress);
      ShownPlaced(v, stack, phase);
      frames, ok := Unwind(shown);
      TraceIs(shown, funcs, frames, ok);
      TraceShown(stack, phase, funcs);
    }

    /** Behind a stack that is known to its end without `main` there is no function. */
    predicate Bottom(stack: seq<Activation>) {
      stack != [] && Depth(stack, funcs) == |stack| && !ReachesMain(stack, funcs) ==>
        FunctionAt(funcs, Offset(stack[|stack| - 1].resume)).None?
    }

    /** The unwinding itself, along the rbp chain. */
    method Unwind(ghost stack: seq<Activation>) returns (frames: seq<Function>, ok: bool)
      requires Valid() && Represents(View(), stack, loadAddress)
      requires AllPlaced(stack, funcs) && Disjoint(funcs) && Readable(stack, funcs, bps.Keys) && Bottom(stack)
      ensures (frames, ok) == Trace(stack, funcs)
    {
      hide LoadWord, Undo, Patch, FunctionAt, Span, Represents, Depth, Readable, Placed, AllPlaced, Disjoint;
      ghost var v, n := View(), Depth(stack, funcs);
      ViewPatched();
      FunctionOf(v, stack);
      var found := FunctionAt(funcs, Offset(tracee.regs.pc));
      if found.None? {
        assert Functions(stack, 0) == [];
        return [], false;
      }
      var currentFunc := found.value;
      frames := [currentFunc];
      var framePointer := tracee.regs.bp;
      var returnAddress := tracee.Peek(Plus(framePointer, 8));
      ghost var i := 0;
      SavedWords(v, stack, 0);
      while currentFunc.name != "main"
        invariant i < n && currentFunc == stack[i].function_
        invariant frames == Functions(stack, i + 1)
        invariant currentFunc.name != "main" ==> returnAddress == stack[i].resume
        invariant currentFunc.name != "main" && i + 1 < |stack| ==> framePointer == stack[i].frame
        decreases n - i
      {
        SavedWords(v, stack, i);
        if i + 1 < |stack| { FunctionAbove(v, stack, i); }
        found := FunctionAt(funcs, Offset(returnAddress));
        if found.None? {
          return frames, false;
        }
        currentFunc := found.value;
        frames := frames + [currentFunc];
        framePointer := tracee.Peek(framePointer);
        returnAddress := tracee.Peek(Plus(framePointer, 8));
        i := i + 1;
        SavedWords(v, stack, i);
      }
      ok := true;
    }

    /** What the debugger reads at the frame of activation `i`, through the patches. */
    lemma SavedWords(v: State, stack: seq<Activation>, i: nat)
      requires Represents(v, stack, loadAddress) && Readable(stack, funcs, bps.Keys)
      requires i < Depth(stack, funcs) && tracee.mem == Patch(v.mem, bps.Keys)
      ensures i == 0 ==> v.regs.bp == stack[0].frame
      ensures stack[i].function_.name != "main" ==> LoadWord(tracee.mem, Plus(stack[i].frame, 8)) == stack[i].resume
      ensures stack[i].function_.name != "main" && i + 1 < |stack| ==>
                LoadWord(tracee.mem, stack[i].frame) == stack[i + 1].frame
    {
      hide LoadWord, Patch, Span, Inside;
      if stack[i].function_.name != "main" {
        assert Frames.FrameHolds(v.mem, stack, i, loadAddress);
        PatchLoadWord(v.mem, bps.Keys, stack[i].frame);
        PatchLoadWord(v.mem, bps.Keys, Plus(stack[i].frame, 8));
      }
    }

    lemma ShownPlaced(v: State, stack: seq<Activation>, phase: Phase)
      requires InPhase(v, stack, phase, loadAddress) && AllPlaced(stack, funcs)
      ensures stack != [] && (!phase.Linked? ==> |stack| >= 2) && AllPlaced(Shown(stack, phase), funcs)
    {
      hide LoadWord, Inside, FrameHolds, Placed;
    }

    lemma FunctionOf(v: State, stack: seq<Activation>)
      requires Represents(v, stack, loadAddress) && AllPlaced(stack, funcs) && Disjoint(funcs)
      ensures stack != []
      ensures FunctionAt(funcs, Offset(v.regs.pc))
              == if stack[0].function_ in funcs then Some(stack[0].function_) else None
      ensures Depth(stack, funcs) == 0 <==> stack[0].function_ !in funcs
    {
      hide Placed;
      FunctionLookup(funcs, stack[0].function_, Offset(v.regs.pc));
    }

    lemma FunctionAbove(v: State, stack: seq<Activation>, i: nat)
      requires Represents(v, stack, loadAddress) && AllPlaced(stack, funcs) && Disjoint(funcs)
      requires i + 1 < |stack|
      ensures FunctionAt(funcs, Offset(stack[i].resume))
              == if stack[i + 1].function_ in funcs then Some(stack[i + 1].function_) else None
    {
      hide LoadWord, Placed;
      assert Frames.FrameHolds(v.mem, stack, i, loadAddress);
      FunctionLookup(funcs, stack[i + 1].function_, Offset(stack[i].resume));
    }

    /** What a command needs of the native state it is given in: a new breakpoint lies in the
        text, and a command that reads its return address finds it off the text. */
    ghost predicate CommandFits(s: State, command: Command, text: set<Word>) {
      match command
      case Break(addr) => addr in text
      case NextLine => NextOrigin(s.regs.pc).Some? ==> ReturnSlot(s) !! text && NextStops(s) <= text
      case Finish => ReturnSlot(s) !! text && ReturnAddress(s) in text
      case _ => true
    }

    ghost predicate CanRun(command: Command, text: set<Word>)
      reads this, tracee, bps.Values
    {
      CommandFits(View(), command, text) && (command.Break? ==> command.addr !in bps)
    }

    /** The addresses `continue`, `next` and `finish` add to the user's breakpoints. */
    ghost function ExtraStops(s: State, command: Command): set<Word> {
      match command
      case NextLine => NextStops(s)
      case Finish => {ReturnAddress(s)}
      case _ => {}
    }

    /** What a command does, in native terms, to a process in state `s` with breakpoints `at`:
        it takes `k` native steps and ends in `stop`. */
    ghost predicate Outcome(s: State, at: set<Word>, command: Command, budget: nat, stop: Stop, k: nat)
    {
      if command.Break? then stop == Stepped && k == 0
      else if command.StepInst? then stop == InstructionStop(s) && k == 1
      else if command.StepLine? then StepsTo(s, budget, stop, k)
      else if command.NextLine? && NextOrigin(s.regs.pc).None? then stop == Threw && k == 0
      else RunsTo(s, at + ExtraStops(s, command), budget, stop, k)
    }

    /** How `stepinst` ends: it shows the line at the new pc, looked up as it stands. */
    ghost function InstructionStop(s: State): Stop {
      var pc := Run(s, 1).regs.pc;
      if LineAt(rows, pc).None? then Threw else StopOf(SignalOf(s), pc)
    }

    /** How it would end if it looked up the line as every other command does. */
    ghost function ProperStop(s: State): Stop {
      if LineOf(Run(s, 1)).None? then Threw else StopOf(SignalOf(s), Run(s, 1).regs.pc)
    }

    /** An executable at its own addresses, or an image loaded above them that does not wrap. */
    predicate ImageLoaded() {
      && Ordered(rows) && rows != []
      && (loadAddress == 0
          || (rows[|rows| - 1].address <= loadAddress && loadAddress + rows[|rows| - 1].address <= WORD))
    }

    /** On code with a line, `stepinst` shows that line, and ends as it should, if and only if
        the image was not moved; on a moved image every such step ends the debugger. */
    lemma StepInstByLoadAddress(s: State)
      requires ImageLoaded() && LineOf(Run(s, 1)).Some?
      ensures InstructionStop(s) == ProperStop(s) <==> loadAddress == 0
      ensures LineAt(rows, Run(s, 1).regs.pc) == LineOf(Run(s, 1)) <==> loadAddress == 0
      ensures loadAddress != 0 ==> InstructionStop(s) == Threw
    {
      hide Step, Decode, FindFrom;
      var pc := Run(s, 1).regs.pc;
      var i := FindAddress(rows, Offset(pc)).value;
      assert Covers(rows, i, Offset(pc));
      if loadAddress == 0 {
        assert Offset(pc) == pc;
      } else {
        assert rows[i + 1].address <= rows[|rows| - 1].address;
        assert pc == Offset(pc) + loadAddress;
        forall j: nat ensures !Covers(rows, j, pc) {
          assert j + 1 < |rows| ==> rows[j + 1].address <= rows[|rows| - 1].address;
        }
        assert FindAddress(rows, pc).None?;
      }
    }

    /** `stepinst`. */
    method StepInstruction() returns (stop: Stop)
      requires Valid() && Tame(View(), bps.Keys)
      modifies tracee, bps.Values
      ensures stop == InstructionStop(old(View())) && stop != Running
      ensures stop != Threw ==> exists i: nat :: Covers(rows, i, Run(old(View()), 1).regs.pc)
      ensures (forall i: nat :: !Covers(rows, i, Run(old(View()), 1).regs.pc)) ==> stop == Threw
      ensures stop != Threw ==>
                Valid() && Saved() == old(Saved()) && View() == Run(old(View()), 1)
    {
      hide Step, Decode, Clean, Undo, Saved, LineAt, Covers, Ordered, OnLine, Tame, StopOf, SignalOf;
      TameNow(View(), bps.Keys);
      LineAtIs(rows, Run(View(), 1).regs.pc);
      assert Run(View(), 1) == Step(Run(View(), 0)) == Step(View());
      stop := SingleStepChecked();
      if stop != Threw && LineAt(rows, tracee.regs.pc).None? {
        stop := Threw;
      }
    }

    /** Whether the prompt comes back. */
    predicate Alive(stop: Stop) {
      stop != Running && stop != Threw
    }

    /** What every command finds when it starts. */
    lemma Ready(command: Command, text: set<Word>)
      requires Valid() && Tame(View(), text) && bps.Keys <= text && CanRun(command, text)
      ensures Tame(View(), bps.Keys) && Run(View(), 0) == View() && View().regs == tracee.regs
      ensures command.Break? ==> command.addr !in bps
      ensures command.NextLine? && NextOrigin(tracee.regs.pc).Some? ==>
                ReturnSlot(View()) !! text && NextStops(View()) <= text
      ensures command.Finish? ==>
                ReturnSlot(View()) !! bps.Keys && Tame(View(), bps.Keys + {ReturnAddress(View())})
    {
      hide Step, Clean, Undo, Saved, Tame, ReturnSlot, LoadWord, RowStops, FindAddress, FunctionAt;
      TameSubset(View(), text, bps.Keys);
      if command.Finish? { TameSubset(View(), text, bps.Keys + {ReturnAddress(View())}); }
    }

    lemma CommandDone(s: State, at: set<Word>, command: Command, budget: nat, stop: Stop, k: nat)
      requires command.Break? ==> stop == Stepped && k == 0
      requires command.Continue? ==> RunsTo(s, at, budget, stop, k)
      requires command.StepInst? ==> stop == InstructionStop(s) && k == 1
      requires command.StepLine? ==> StepsTo(s, budget, stop, k)
      requires command.NextLine? ==>
                 if NextOrigin(s.regs.pc).None? then stop == Threw && k == 0
                 else RunsTo(s, at + NextStops(s), budget, stop, k)
      requires command.Finish? ==> RunsTo(s, at + {ReturnAddress(s)}, budget, stop, k)
      ensures Outcome(s, at, command, budget, stop, k)
      ensures Planted([command]) == if command.Break? then {command.addr} else {}
      ensures stop == Running || stop == Threw <==> !Alive(stop)
    {
      hide RunsTo, StepsTo, NextStops, ReturnAddress, InstructionStop, NextOrigin;
      assert at + {} == at;
    }

    /** One command. */
    method RunCommand(command: Command, budget: nat, ghost text: set<Word>) returns (stop: Stop, ghost k: nat)
      requires Valid() && Tame(View(), text) && bps.Keys <= text
      requires Terminated(rows, funcs) && CanRun(command, text)
      modifies this, tracee, bps.Values
      ensures Outcome(old(View()), old(bps.Keys), command, budget, stop, k)
      // command by command
      ensures command.Break? ==> stop == Stepped && k == 0 && command.addr in bps
      ensures command.Continue? ==> RunsTo(old(View()), old(bps.Keys), budget, stop, k)
      ensures command.StepInst? ==> stop == InstructionStop(old(View())) && k == 1
      ensures command.StepLine? ==> StepsTo(old(View()), budget, stop, k)
      ensures command.NextLine? ==>
                if NextOrigin(old(View()).regs.pc).None? then stop == Threw && k == 0
                else RunsTo(old(View()), old(bps.Keys) + NextStops(old(View())), budget, stop, k)
      ensures command.Finish? ==>
                RunsTo(old(View()), old(bps.Keys) + {ReturnAddress(old(View()))}, budget, stop, k)
      ensures Alive(stop) ==>
                && Valid() && View() == Run(old(View()), k)
                && bps.Keys == old(bps.Keys) + Planted([command])
                && forall a :: a in bps ==> bps[a] in old(bps.Values) || fresh(bps[a])
    {
      hide *;
      Ready(command, text);
      ghost var v, at := View(), bps.Keys;
      match command {
      case Break(addr) =>
        k, stop := 0, Stepped;
        AddBreakpoint(addr);
      case Continue =>
        stop, k := ContinueExecution(budget);
      case StepInst =>
        k := 1;
        stop := StepInstruction();
      case StepLine =>
        stop, k := StepIn(budget);
      case NextLine =>
        ghost var temps;
        stop, k, temps := StepOver(budget, text);
      case Finish =>
        stop, k := StepOut(budget);
      }
      CommandDone(v, at, command, budget, stop, k);
    }

    /** Between two commands of a script, the next command can run if it fits. */
    lemma ReadyFor(start: State, k: nat, script: seq<Command>, i: nat, given: set<Word>, text: set<Word>)
      requires i < |script| && NewBreaks(script) && Planted(script) <= text && Tame(start, text)
      requires View() == Run(start, k) && CommandFits(View(), script[i], text)
      requires bps.Keys == given + Planted(script[..i]) && given <= text && Planted(script) !! given
      ensures CanRun(script[i], text) && Tame(View(), text) && bps.Keys <= text
      ensures Planted(script[..i + 1]) == Planted(script[..i]) + Planted([script[i]])
    {
      hide Step, Clean, Undo, Saved, CommandFits;
      TameTail(start, text, k);
      ScriptStep(script, i);
    }

    /** What a whole script needs of the native program it is run on: new breakpoints, and
        that each command fits the native state in which its turn comes. */
    ghost predicate ScriptFits(start: State, given: set<Word>, script: seq<Command>, budget: nat, text: set<Word>)
    {
      && NewBreaks(script) && Planted(script) <= text
      && forall stops, ks :: TellingSoFar(start, given, script, budget, stops, ks) && |stops| < |script| ==>
           CommandFits(Run(start, ks[|stops|]), script[|stops|], text)
    }

    lemma NextFits(start: State, given: set<Word>, script: seq<Command>, budget: nat, text: set<Word>,
        stops: seq<Stop>, ks: seq<nat>)
      requires ScriptFits(start, given, script, budget, text)
      requires TellingSoFar(start, given, script, budget, stops, ks) && |stops| < |script|
      ensures |ks| == |stops| + 1 && CommandFits(Run(start, ks[|stops|]), script[|stops|], text)
      ensures NewBreaks(script) && Planted(script) <= text
    {
      hide Did, CommandFits, Alive;
    }

    /** Command `i` of a script took the process from native step `k` to native step `k'`. */
    ghost predicate Did(start: State, given: set<Word>, script: seq<Command>, i: nat, budget: nat, stop: Stop,
        k: nat, k': nat)
      requires i < |script|
    {
      k <= k' && Outcome(Run(start, k), given + Planted(script[..i]), script[i], budget, stop, k' - k)
    }

    /** What the commands of a script did, in order; only the last may not have come back. */
    ghost predicate Told(start: State, given: set<Word>, script: seq<Command>, budget: nat, done: nat,
        stops: seq<Stop>, ks: seq<nat>)
    {
      && done <= |script| && |ks| == |stops| + 1 && ks[0] == 0
      && |stops| == (if done == |script| then done else done + 1) && NeverDecreases(ks)
      && (forall i: nat :: i < |stops| ==> Did(start, given, script, i, budget, stops[i], ks[i], ks[i + 1]))
      && forall i: nat :: i < |stops| ==> (Alive(stops[i]) <==> i < done)
    }

    /** The command loop. Transparency: every command of a script does to the native machine
        what it is documented to do; after the script the registers, and the memory with the
        patches undone, are those of the native machine after `ks[done]` steps, which never
        decreases from one command to the next; and the text the process executes is the
        original image with `int3` at exactly the breakpoints set. */
    method RunScript(script: seq<Command>, budget: nat, ghost text: set<Word>)
        returns (done: nat, ghost stops: seq<Stop>, ghost ks: seq<nat>)
      requires Valid() && Tame(View(), text) && bps.Keys <= text
      requires Terminated(rows, funcs)
      requires ScriptFits(View(), bps.Keys, script, budget, text) && Planted(script) !! bps.Keys
      modifies this, tracee, bps.Values
      ensures Told(old(View()), old(bps.Keys), script, budget, done, stops, ks)
      // only a command still waiting, or ended by an uncaught exception, ends the script early
      ensures done < |script| ==> stops[done] == Running || stops[done] == Threw
      ensures forall i: nat :: i < done ==> stops[i] != Running && stops[i] != Threw
      ensures done == |script| ==>
                && Valid() && View() == Run(old(View()), ks[done])
                && (forall a :: a in bps <==> a in old(bps) || Break(a) in script)
                && ImageOf(old(View()), text)
    {
      hide Step, Clean, Undo, Saved, View, Valid, Tame, ImageOf, Did, NewBreaks;
      ghost var v := View();
      assert Planted(script) <= text;
      done, stops, ks := CommandLoop(script, budget, text);
      if done == |script| {
        CodeImage(v, ks[done], text);
      }
    }

    method CommandLoop(script: seq<Command>, budget: nat, ghost text: set<Word>)
        returns (done: nat, ghost stops: seq<Stop>, ghost ks: seq<nat>)
      requires Valid() && Tame(View(), text) && bps.Keys <= text
      requires Terminated(rows, funcs)
      requires ScriptFits(View(), bps.Keys, script, budget, text) && Planted(script) !! bps.Keys
      modifies this, tracee, bps.Values
      ensures Told(old(View()), old(bps.Keys), script, budget, done, stops, ks)
      ensures done == |script| ==>
                && Valid() && View() == Run(old(View()), ks[done])
                && bps.Keys == old(bps.Keys) + Planted(script)
    {
      hide *;
      ghost var v, given, owned := View(), bps.Keys, bps.Values;
      ks, stops, done := [0], [], 0;
      TellNothing(v, given, script, budget);
      while done < |script|
        invariant done <= |script| && done == |stops| && |ks| == done + 1
        invariant TellingSoFar(v, given, script, budget, stops, ks)
        invariant Valid() && View() == Run(v, ks[done])
        invariant bps.Keys == given + Planted(script[..done])
        invariant forall a :: a in bps ==> bps[a] in owned || fresh(bps[a])
      {
        var stop;
        ghost var k;
        NextFits(v, given, script, budget, text, stops, ks);
        stop, k := ScriptCommand(script, done, budget, text, v, ks[done], given);
        TellMore(v, given, script, budget, stops, ks, stop, k);
        ks, stops := ks + [k], stops + [stop];
        if !Alive(stop) {
          return;
        }
        done := done + 1;
      }
      Tell(v, given, script, budget, stops, ks);
    }

    lemma TellNothing(start: State, given: set<Word>, script: seq<Command>, budget: nat)
      ensures TellingSoFar(start, given, script, budget, [], [0])
      ensures Planted(script[..0]) == {} && Run(start, 0) == start
    {
    }

    /** `Told` while every command so far has come back. */
    ghost predicate TellingSoFar(start: State, given: set<Word>, script: seq<Command>, budget: nat,
        stops: seq<Stop>, ks: seq<nat>)
    {
      && |stops| <= |script| && |ks| == |stops| + 1 && ks[0] == 0
      && NeverDecreases(ks)
      && (forall i: nat :: i < |stops| ==> Did(start, given, script, i, budget, stops[i], ks[i], ks[i + 1]))
      && forall i: nat :: i < |stops| ==> Alive(stops[i])
    }

    lemma TellMore(start: State, given: set<Word>, script: seq<Command>, budget: nat, stops: seq<Stop>,
        ks: seq<nat>, stop: Stop, k: nat)
      requires TellingSoFar(start, given, script, budget, stops, ks) && |stops| < |script|
      requires k >= ks[|stops|] && Did(start, given, script, |stops|, budget, stop, ks[|stops|], k)
      ensures if Alive(stop) then TellingSoFar(start, given, script, budget, stops + [stop], ks + [k])
              else Told(start, given, script, budget, |stops|, stops + [stop], ks + [k])
    {
      hide Did, Alive, NeverDecreases;
      NeverDecreasesMore(ks, k);
    }

    lemma Tell(start: State, given: set<Word>, script: seq<Command>, budget: nat, stops: seq<Stop>, ks: seq<nat>)
      requires TellingSoFar(start, given, script, budget, stops, ks) && |stops| == |script|
      ensures Told(start, given, script, budget, |script|, stops, ks) && script[..|script|] == script
    {
      hide Did, Alive;
    }

    /** One turn of the loop. */
    method ScriptCommand(script: seq<Command>, i: nat, budget: nat, ghost text: set<Word>, ghost start: State,
        ghost k: nat, ghost given: set<Word>)
        returns (stop: Stop, ghost k': nat)
      requires Valid() && Tame(start, text) && Terminated(rows, funcs)
      requires i < |script| && NewBreaks(script) && Planted(script) <= text
      requires View() == Run(start, k) && CommandFits(View(), script[i], text)
      requires bps.Keys == given + Planted(script[..i]) && given <= text && Planted(script) !! given
      modifies this, tracee, bps.Values
      ensures k' >= k && Did(start, given, script, i, budget, stop, k, k')
      ensures Alive(stop) ==>
                && Valid() && View() == Run(start, k')
                && bps.Keys == given + Planted(script[..i + 1])
                && forall a :: a in bps ==> bps[a] in old(bps.Values) || fresh(bps[a])
    {
      hide *;
      ReadyFor(start, k, script, i, given, text);
      ghost var more;
      stop, more := RunCommand(script[i], budget, text);
      k' := k + more;
      RunSplits(start, k, more);
      DidIs(start, given, script, i, budget, stop, k, k');
    }

    lemma DidIs(start: State, given: set<Word>, script: seq<Command>, i: nat, budget: nat, stop: Stop, k: nat, k': nat)
      requires i < |script| && k <= k'
      requires Outcome(Run(start, k), given + Planted(script[..i]), script[i], budget, stop, k' - k)
      ensures Did(start, given, script, i, budget, stop, k, k')
    {
    }

    /** One step of the script: what has been planted grows by the command's own address. */
    lemma ScriptStep(script: seq<Command>, i: nat)
      requires i < |script| && NewBreaks(script)
      ensures Planted(script[..i + 1]) == Planted(script[..i]) + Planted([script[i]])
      ensures Planted(script[..i]) <= Planted(script)
      ensures script[i].Break? ==> script[i].addr !in Planted(script[..i]) && script[i].addr in Planted(script)
    {
      assert script[..i + 1] == script[..i] + [script[i]];
      assert script[i] in script;
    }

    /** The text in memory is that of `start` with `int3` at exactly the breakpoints, each
        of which saves the original byte. */
    ghost predicate ImageOf(start: State, text: set<Word>)
      reads this, tracee, bps.Values
    {
      && (forall a :: a in text ==> tracee.mem[a] == if a in bps then INT3 else start.mem[a])
      && forall a :: a in bps ==> bps[a].data == start.mem[a]
    }

    /** Where nothing is patched the process has its original text. */
    lemma CodeImage(start: State, k: nat, text: set<Word>)
      requires Valid() && View() == Run(start, k) && Tame(start, text) && bps.Keys <= text
      ensures ImageOf(start, text)
    {
      hide Step, Extra, Tame, Patch;
      ViewPatched();
      PatchedBytes(View().mem, bps.Keys);
      forall a | a in text ensures View().mem[a] == start.mem[a] {
        TextConstant(start, text, k, a);
      }
    }
  }

  predicate NeverDecreases(ks: seq<nat>) {
    forall i, j :: 0 <= i <= j < |ks| ==> ks[i] <= ks[j]
  }

  lemma NeverDecreasesMore(ks: seq<nat>, k: nat)
    requires NeverDecreases(ks) && (ks == [] || ks[|ks| - 1] <= k)
    ensures NeverDecreases(ks + [k])
  {
  }

  predicate NewBreaks(script: seq<Command>) {
    forall i, j :: 0 <= i < j < |script| && script[i].Break? ==> script[i] != script[j]
  }

  lemma TameNow(s: State, at: set<Word>)
    requires Tame(s, at)
    ensures Clean(s, at)
  {
    hide Step, Extra;
    assert Clean(Run(s, 0), at);
  }

  /** The execution commands, named after what the user types. */
  datatype Command = Break(addr: Word) | Continue | StepInst | StepLine | NextLine | Finish

  /** The addresses a script asks to break on. */
  function Planted(script: seq<Command>): set<Word> {
    set c | c in script && c.Break? :: c.addr
  }

  /** The stack slot above the saved frame pointer, and the address in it. */
  function ReturnSlot(s: State): set<Word> {
    Span(Plus(s.regs.bp, 8), 8)
  }

  function ReturnAddress(s: State): Word {
    LoadWord(s.mem, Plus(s.regs.bp, 8))
  }

  /** What that address is on a call stack: where the current function returns to once its frame
      is linked, and until then, and again behind `leave`, where its caller does. */
  lemma ResumesAt(s: State, stack: seq<Activation>, phase: Phase, load: Word)
    requires InPhase(s, stack, phase, load)
    ensures ReturnAddress(s) == Resumes(stack, phase)
  {
    hide LoadWord, Inside;
    assert FrameHolds(s.mem, stack, if phase.Linked? then 0 else 1, load);
  }

  function Resumes(stack: seq<Activation>, phase: Phase): Word
    requires if phase.Linked? then |stack| >= 1 else |stack| >= 2
  {
    if phase.Linked? then stack[0].resume else stack[1].resume
  }
}
