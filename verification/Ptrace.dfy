/** The traced process behind the four ptrace requests the debugger issues. */
module Ptrace {
  import opened Machine
  import opened Patching

  /** Why the process stopped: an executed `int3`, a finished single step, any other
      signal, or not at all yet. */
  datatype Signal = BreakTrap | StepTrap | Fault | StillRunning

  /** The processor executing one instruction; an `int3` leaves pc one past itself. */
  function Event(s: State): (State, Signal) {
    match Next(s)
    case Int3 => (s.(regs := s.regs.(pc := Plus(s.regs.pc, 1))), BreakTrap)
    case Illegal(_) => (s, Fault)
    case _ => (Step(s), StepTrap)
  }

  class Tracee {
    var mem: Memory
    var regs: Regs

    ghost function Now(): State
      reads this
    {
      State(mem, regs)
    }

    constructor (mem: Memory, regs: Regs)
      ensures this.mem == mem && this.regs == regs
    {
      this.mem := mem;
      this.regs := regs;
    }

    method Peek(a: Word) returns (w: Word)
      ensures w == LoadWord(mem, a)
    {
      w := LoadWord(mem, a);
    }

    method Poke(a: Word, w: Word)
      modifies this`mem
      ensures mem == StoreWord(old(mem), a, w)
    {
      mem := StoreWord(mem, a, w);
    }

    method SingleStep() returns (signal: Signal)
      modifies this
      ensures (Now(), signal) == Event(old(Now()))
    {
      hide Step, Decode;
      var s, sig := Event(State(mem, regs)).0, Event(State(mem, regs)).1;
      mem, regs, signal := s.mem, s.regs, sig;
    }

    /** Runs until an instruction raises a signal; `budget` bounds how long the caller
        has waited, since a run need not end. */
    method Cont(budget: nat) returns (signal: Signal, ghost n: nat)
      modifies this
      ensures n <= budget
      ensures forall j: nat :: j < n ==> !Faults(Next(Run(old(Now()), j)))
      ensures signal == StillRunning ==> n == budget && Now() == Run(old(Now()), n)
      ensures signal != StillRunning ==>
                Faults(Next(Run(old(Now()), n))) && (Now(), signal) == Event(Run(old(Now()), n))
    {
      hide Step, Decode;
      n := 0;
      signal := StillRunning;
      var left := budget;
      while left > 0
        invariant n + left == budget && signal == StillRunning
        invariant Now() == Run(old(Now()), n)
        invariant forall j: nat :: j < n ==> !Faults(Next(Run(old(Now()), j)))
      {
        signal := SingleStep();
        if signal != StepTrap {
          return;
        }
        signal := StillRunning;
        n, left := n + 1, left - 1;
      }
    }
  }
}
