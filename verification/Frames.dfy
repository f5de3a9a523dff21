/** Call stacks in memory. A stack of activations is represented through the rbp chain of
    section 3.2.2 of the System V AMD64 ABI: each frame pointer addresses the caller's frame
    pointer, with the return address in the word above it. */
module Frames {
  import opened Machine
  import opened Patching
  import opened DebugInfo
  import opened Options

  /** `resume` is the address in the caller at which execution goes on. */
  datatype Activation = Activation(function_: Function, frame: Word, resume: Word)

  predicate Inside(f: Function, pc: Word, load: Word) {
    f.low <= Plus(pc, -(load as int)) < f.high
  }

  /** The two saved words of activation `i`. */
  predicate FrameHolds(m: Memory, stack: seq<Activation>, i: nat, load: Word)
    requires i < |stack|
  {
    && stack[i].frame + 16 <= WORD
    && LoadWord(m, Plus(stack[i].frame, 8)) == stack[i].resume
    && (i + 1 < |stack| ==>
          && stack[i].frame + 16 <= stack[i + 1].frame
          && LoadWord(m, stack[i].frame) == stack[i + 1].frame
          && Inside(stack[i + 1].function_, stack[i].resume, load))
  }

  /** The machine is inside the first activation of `stack`, its prologue done. */
  ghost predicate Represents(s: State, stack: seq<Activation>, load: Word) {
    && stack != []
    && Inside(stack[0].function_, s.regs.pc, load)
    && s.regs.bp == stack[0].frame
    && s.regs.sp <= stack[0].frame
    && forall i: nat :: i < |stack| ==> FrameHolds(s.mem, stack, i, load)
  }

  /** A word stored below or between the saved words leaves them all alone. */
  predicate Elsewhere(a: Word, stack: seq<Activation>) {
    a + 8 <= WORD && forall i: nat :: i < |stack| ==> a + 8 <= stack[i].frame || stack[i].frame + 16 <= a
  }

  lemma StoreOutside(m: Memory, stack: seq<Activation>, load: Word, a: Word, w: Word, i: nat)
    requires i < |stack| && FrameHolds(m, stack, i, load)
    requires a + 8 <= WORD && (a + 8 <= stack[i].frame || stack[i].frame + 16 <= a)
    ensures FrameHolds(StoreWord(m, a, w), stack, i, load)
  {
    hide LoadWord, StoreWord, Inside, Span;
    var frame := stack[i].frame;
    assert Plus(frame, 8) == frame + 8;
    Apart(a, frame);
    Apart(a, frame + 8);
    WordFrame(m, a, w, frame);
    WordFrame(m, a, w, frame + 8);
  }

  lemma StoreElsewhere(m: Memory, stack: seq<Activation>, load: Word, a: Word, w: Word, i: nat)
    requires i < |stack| && FrameHolds(m, stack, i, load) && Elsewhere(a, stack)
    ensures FrameHolds(StoreWord(m, a, w), stack, i, load)
  {
    hide FrameHolds, StoreWord;
    StoreOutside(m, stack, load, a, w, i);
  }

  lemma Apart(a: Word, b: Word)
    requires a + 8 <= WORD && b + 8 <= WORD && (a + 8 <= b || b + 8 <= a)
    ensures Span(a, 8) !! Span(b, 8)
  {
  }

  // ---------- the call stack at every instruction

  /** How far the frame of the current function is linked into the rbp chain: just called,
      the caller's rbp pushed, rbp set up, and taken down again before the return. */
  datatype Phase = Called | Pushed | Linked | Unlinked

  /** The machine is inside the first activation of `stack`, whose frame is in the given
      phase. Unless it is linked, rbp addresses the frame of the caller. */
  ghost predicate InPhase(s: State, stack: seq<Activation>, phase: Phase, load: Word) {
    if phase.Linked? then Represents(s, stack, load) else Detached(s, stack, phase.Pushed?, load)
  }

  ghost predicate Detached(s: State, stack: seq<Activation>, pushed: bool, load: Word) {
    && |stack| >= 2
    && Inside(stack[0].function_, s.regs.pc, load)
    && s.regs.bp == stack[1].frame
    && stack[0].frame + 16 <= stack[1].frame
    && s.regs.sp == stack[0].frame + (if pushed then 0 else 8)
    && LoadWord(s.mem, Plus(stack[0].frame, 8)) == stack[0].resume
    && (pushed ==> LoadWord(s.mem, stack[0].frame) == stack[1].frame)
    && Inside(stack[1].function_, stack[0].resume, load)
    && forall i: nat :: 1 <= i < |stack| ==> FrameHolds(s.mem, stack, i, load)
  }

  /** One native instruction, as the call stack sees it. */
  datatype Move = Body | Call(callee: Function) | Push | Link | Unlink | Return

  /** A function runs on: `call`, `ret` and `leave` aside, any instruction that stays in
      the function, keeps rbp, and stores only away from the saved words. */
  predicate BodyStep(s: State, stack: seq<Activation>) {
    var i := Next(s);
    && (i.Nop? || i.Jz? || i.Jmp? || i.LoadAx? || i.StoreAx? || i.AddAx? || i.SubSp? || i.MovAx?)
    && (i.StoreAx? ==> Elsewhere(Plus(s.regs.bp, i.disp), stack))
    && (i.SubSp? ==> i.imm <= s.regs.sp)
  }

  /** `call f; push rbp; mov rbp, rsp` enters a function, and `leave; ret`, or `pop rbp; ret`
      on its own frame, leaves it; a function without a frame may return at once. */
  predicate CanMove(s: State, stack: seq<Activation>, phase: Phase, move: Move, load: Word)
    requires stack != []
  {
    match move
    case Body => phase.Linked? && BodyStep(s, stack) && Inside(stack[0].function_, Step(s).regs.pc, load)
    case Call(callee) =>
      && phase.Linked? && Next(s).Call? && s.regs.sp >= 16
      && Inside(stack[0].function_, Plus(s.regs.pc, Length(Next(s))), load)
      && Inside(callee, Step(s).regs.pc, load)
    case Push => phase.Called? && Next(s) == PushBp && Inside(stack[0].function_, Step(s).regs.pc, load)
    case Link => phase.Pushed? && Next(s) == MovBpSp && Inside(stack[0].function_, Step(s).regs.pc, load)
    case Unlink =>
      && phase.Linked? && |stack| >= 2
      && (Next(s) == Leave || (Next(s) == PopBp && s.regs.sp == stack[0].frame))
      && Inside(stack[0].function_, Step(s).regs.pc, load)
    case Return => (phase.Called? || phase.Unlinked?) && |stack| >= 2 && Next(s) == Ret
  }

  /** The call stack behind the instruction. */
  function Moved(s: State, stack: seq<Activation>, phase: Phase, move: Move): (seq<Activation>, Phase)
    requires stack != []
  {
    match move
    case Body => (stack, Linked)
    case Call(callee) => ([Activation(callee, Plus(s.regs.sp, -16), Plus(s.regs.pc, Length(Next(s))))] + stack, Called)
    case Push => (stack, Pushed)
    case Link => (stack, Linked)
    case Unlink => (stack, Unlinked)
    case Return => (stack[1..], Linked)
  }

  lemma BodyKeeps(s: State, stack: seq<Activation>, load: Word)
    requires Represents(s, stack, load) && BodyStep(s, stack) && Inside(stack[0].function_, Step(s).regs.pc, load)
    ensures Represents(Step(s), stack, load)
  {
    hide Decode, LoadWord, StoreWord, FrameHolds, Inside, Elsewhere;
    if Next(s).StoreAx? {
      forall i: nat | i < |stack| ensures FrameHolds(Step(s).mem, stack, i, load) {
        StoreElsewhere(s.mem, stack, load, Plus(s.regs.bp, Next(s).disp), s.regs.ax, i);
      }
    }
  }

  /** A word stored below the frames leaves the saved words alone. */
  lemma SavedBelow(m: Memory, stack: seq<Activation>, load: Word, a: Word, w: Word, first: nat)
    requires first < |stack| && a + 8 <= stack[first].frame
    requires forall i: nat :: first <= i < |stack| ==> FrameHolds(m, stack, i, load)
    ensures forall i: nat :: first <= i < |stack| ==> FrameHolds(StoreWord(m, a, w), stack, i, load)
  {
    hide LoadWord, StoreWord, Inside;
    forall i: nat | first <= i < |stack| ensures FrameHolds(StoreWord(m, a, w), stack, i, load) {
      Rising(m, stack, load, first, i);
      StoreOutside(m, stack, load, a, w, i);
    }
  }

  lemma {:induction false} Rising(m: Memory, stack: seq<Activation>, load: Word, first: nat, i: nat)
    requires first <= i < |stack|
    requires forall j: nat :: first <= j < |stack| ==> FrameHolds(m, stack, j, load)
    ensures stack[first].frame <= stack[i].frame
  {
    hide LoadWord, Inside;
    if first < i {
      Rising(m, stack, load, first, i - 1);
      assert FrameHolds(m, stack, i - 1, load);
    }
  }

  /** `call`. */
  lemma CallKeeps(s: State, stack: seq<Activation>, load: Word, callee: Function)
    requires Represents(s, stack, load) && CanMove(s, stack, Linked, Move.Call(callee), load)
    ensures var r := Moved(s, stack, Linked, Move.Call(callee)); InPhase(Step(s), r.0, r.1, load)
  {
    hide Decode, LoadWord, StoreWord, Inside, FrameHolds;
    var a, back := s.regs.sp - 8, Plus(s.regs.pc, Length(Next(s)));
    var taller := Moved(s, stack, Linked, Move.Call(callee)).0;
    assert Plus(s.regs.sp, -8) == a == Plus(a - 8, 8) && Plus(s.regs.sp, -16) == a - 8;
    WordReadsBack(s.mem, a, back);
    SavedBelow(s.mem, stack, load, a, back, 0);
    forall i: nat | 1 <= i < |taller| ensures FrameHolds(Step(s).mem, taller, i, load) {
      assert FrameHolds(Step(s).mem, stack, i - 1, load);
      OnePushed(Step(s).mem, taller[0], stack, i - 1, load);
    }
  }

  lemma OnePushed(m: Memory, top: Activation, stack: seq<Activation>, i: nat, load: Word)
    requires i < |stack|
    ensures FrameHolds(m, [top] + stack, i + 1, load) <==> FrameHolds(m, stack, i, load)
  {
    hide LoadWord, Inside;
  }

  /** `push rbp`. */
  lemma PushKeeps(s: State, stack: seq<Activation>, load: Word)
    requires Detached(s, stack, false, load) && Next(s) == PushBp && Inside(stack[0].function_, Step(s).regs.pc, load)
    ensures Detached(Step(s), stack, true, load)
  {
    hide Decode, LoadWord, StoreWord, Inside, Span, FrameHolds;
    var a := stack[0].frame;
    assert Plus(s.regs.sp, -8) == a && Plus(a, 8) == a + 8;
    assert FrameHolds(s.mem, stack, 1, load);
    FrameInMemory(s.mem, stack, 1, load);
    WordReadsBack(s.mem, a, s.regs.bp);
    Apart(a, a + 8);
    WordFrame(s.mem, a, s.regs.bp, a + 8);
    SavedBelow(s.mem, stack, load, a, s.regs.bp, 1);
  }

  lemma FrameInMemory(m: Memory, stack: seq<Activation>, i: nat, load: Word)
    requires i < |stack| && FrameHolds(m, stack, i, load)
    ensures stack[i].frame + 16 <= WORD
  {
  }

  /** `mov rbp, rsp`. */
  lemma LinkKeeps(s: State, stack: seq<Activation>, load: Word)
    requires Detached(s, stack, true, load) && Next(s) == MovBpSp && Inside(stack[0].function_, Step(s).regs.pc, load)
    ensures Represents(Step(s), stack, load)
  {
    hide Decode, LoadWord, Inside;
    assert FrameHolds(s.mem, stack, 1, load);
    assert FrameHolds(s.mem, stack, 0, load);
  }

  /** `leave` or `pop rbp`. */
  lemma UnlinkKeeps(s: State, stack: seq<Activation>, load: Word)
    requires Represents(s, stack, load) && CanMove(s, stack, Linked, Unlink, load)
    ensures Detached(Step(s), stack, false, load)
  {
    hide Decode, LoadWord, Inside;
    assert FrameHolds(s.mem, stack, 0, load);
    assert Plus(stack[0].frame, 8) == stack[0].frame + 8;
  }

  /** `ret`. */
  lemma ReturnKeeps(s: State, stack: seq<Activation>, load: Word)
    requires Detached(s, stack, false, load) && Next(s) == Ret
    ensures Represents(Step(s), stack[1..], load)
  {
    hide Decode, LoadWord, Inside;
    var rest := stack[1..];
    assert FrameHolds(s.mem, stack, 1, load);
    assert Plus(stack[0].frame, 8) == stack[0].frame + 8 && Plus(s.regs.sp, 8) == stack[0].frame + 16;
    forall i: nat | i < |rest| ensures FrameHolds(s.mem, rest, i, load) {
      assert FrameHolds(s.mem, stack, i + 1, load);
      assert stack == [stack[0]] + rest;
      OnePushed(s.mem, stack[0], rest, i, load);
    }
  }

  /** Every instruction that calls, links, unlinks, returns or runs on keeps the call stack. */
  lemma MoveKeeps(s: State, stack: seq<Activation>, phase: Phase, move: Move, load: Word)
    requires stack != [] && InPhase(s, stack, phase, load) && CanMove(s, stack, phase, move, load)
    ensures var r := Moved(s, stack, phase, move); InPhase(Step(s), r.0, r.1, load)
  {
    hide Step, Decode, Represents, Detached, Inside, BodyStep;
    match move
    case Body => BodyKeeps(s, stack, load);
    case Call(callee) => CallKeeps(s, stack, load, callee);
    case Push => PushKeeps(s, stack, load);
    case Link => LinkKeeps(s, stack, load);
    case Unlink => UnlinkKeeps(s, stack, load);
    case Return => ReturnKeeps(s, stack, load);
  }

  // ---------- whole runs

  /** `moves` can be made from `s`, one instruction after the other. */
  predicate Possible(s: State, stack: seq<Activation>, phase: Phase, moves: seq<Move>, load: Word)
    decreases |moves|
  {
    moves == [] ||
    (stack != [] && CanMove(s, stack, phase, moves[0], load) &&
     var r := Moved(s, stack, phase, moves[0]);
     Possible(Step(s), r.0, r.1, moves[1..], load))
  }

  /** The call stack after the moves. */
  function After(s: State, stack: seq<Activation>, phase: Phase, moves: seq<Move>, load: Word): (seq<Activation>, Phase)
    requires Possible(s, stack, phase, moves, load)
    decreases |moves|
  {
    if moves == [] then (stack, phase)
    else
      var r := Moved(s, stack, phase, moves[0]);
      After(Step(s), r.0, r.1, moves[1..], load)
  }

  /** Over any run of calls, returns and function bodies, of any depth, the native machine
      keeps its call stack, at every single instruction. */
  lemma {:induction false} RunsKeepStack(s: State, stack: seq<Activation>, phase: Phase, moves: seq<Move>, load: Word)
    requires InPhase(s, stack, phase, load) && Possible(s, stack, phase, moves, load)
    ensures var r := After(s, stack, phase, moves, load); InPhase(Run(s, |moves|), r.0, r.1, load)
    decreases |moves|
  {
    hide Step, InPhase, CanMove, Moved;
    if moves != [] {
      MoveKeeps(s, stack, phase, moves[0], load);
      var r := Moved(s, stack, phase, moves[0]);
      RunsKeepStack(Step(s), r.0, r.1, moves[1..], load);
      assert Run(s, 1) == Step(Run(s, 0)) == Step(s);
      RunSplits(s, 1, |moves| - 1);
    }
  }

  // ---------- what an unwinder sees

  /** Functions do not overlap. */
  predicate Disjoint(funcs: seq<Function>) {
    forall i, j :: 0 <= i < j < |funcs| ==> funcs[i].high <= funcs[j].low || funcs[j].high <= funcs[i].low
  }

  lemma {:induction false} FunctionFound(funcs: seq<Function>, f: Function, a: Word)
    requires Disjoint(funcs) && f in funcs && f.low <= a < f.high
    ensures FunctionAt(funcs, a) == Some(f)
  {
    if funcs[0] != f {
      FunctionFound(funcs[1..], f, a);
    }
  }

  /** The debugging information knows the function, or nothing about its code. */
  predicate Placed(f: Function, funcs: seq<Function>) {
    f in funcs || forall g :: g in funcs ==> g.high <= f.low || f.high <= g.low
  }

  /** A lookup in the code of a function finds the function if it is known, and nothing if it
      is not. */
  lemma FunctionLookup(funcs: seq<Function>, f: Function, a: Word)
    requires Disjoint(funcs) && Placed(f, funcs) && f.low <= a < f.high
    ensures FunctionAt(funcs, a) == if f in funcs then Some(f) else None
  {
    if f in funcs { FunctionFound(funcs, f, a); }
  }

  /** What an unwinder following rbp takes for the call stack: while the current frame is
      not linked, the current function seems to run in its caller's frame. */
  function Shown(stack: seq<Activation>, phase: Phase): seq<Activation> {
    if phase.Linked? || |stack| < 2 then stack
    else [stack[1].(function_ := stack[0].function_)] + stack[2..]
  }

  lemma ShownRepresented(s: State, stack: seq<Activation>, phase: Phase, load: Word)
    requires InPhase(s, stack, phase, load)
    ensures Represents(s, Shown(stack, phase), load)
  {
    hide LoadWord, Inside;
    if !phase.Linked? {
      var shown := Shown(stack, phase);
      assert FrameHolds(s.mem, stack, 1, load);
      forall i: nat | i < |shown| ensures FrameHolds(s.mem, shown, i, load) {
        assert FrameHolds(s.mem, stack, i + 1, load);
      }
    }
  }

  /** How many activations there are up to the first `main`, or before the first without
      debugging information, or in all. */
  function Depth(stack: seq<Activation>, funcs: seq<Function>): (n: nat)
    ensures n <= |stack|
    ensures forall i :: 0 <= i < n ==> stack[i].function_ in funcs
    ensures forall i :: 0 <= i < n - 1 ==> stack[i].function_.name != "main"
    ensures n < |stack| ==> stack[n].function_ !in funcs || (n > 0 && stack[n - 1].function_.name == "main")
  {
    if stack == [] || stack[0].function_ !in funcs then 0
    else if stack[0].function_.name == "main" then 1
    else 1 + Depth(stack[1..], funcs)
  }

  predicate ReachesMain(stack: seq<Activation>, funcs: seq<Function>) {
    Depth(stack, funcs) > 0 && stack[Depth(stack, funcs) - 1].function_.name == "main"
  }

  /** What `backtrace` should print for a stack, and whether it should succeed. */
  function Trace(stack: seq<Activation>, funcs: seq<Function>): (seq<Function>, bool) {
    (Functions(stack, Depth(stack, funcs)), ReachesMain(stack, funcs))
  }

  /** `frames` are the functions of the stack, all of them known, with at most the last one
      `main`, which is what `ok` says; they end before it only where a function is not known. */
  predicate IsTrace(stack: seq<Activation>, funcs: seq<Function>, frames: seq<Function>, ok: bool) {
    && |frames| <= |stack|
    && (forall i :: 0 <= i < |frames| ==> frames[i] == stack[i].function_ && frames[i] in funcs)
    && (forall i :: 0 <= i < |frames| - 1 ==> frames[i].name != "main")
    && (ok <==> frames != [] && frames[|frames| - 1].name == "main")
    && (!ok && |frames| < |stack| ==> stack[|frames|].function_ !in funcs)
  }

  /** There is exactly one such trace. */
  lemma TraceIs(stack: seq<Activation>, funcs: seq<Function>, frames: seq<Function>, ok: bool)
    ensures IsTrace(stack, funcs, frames, ok) <==> (frames, ok) == Trace(stack, funcs)
  {
    hide Depth;
    var n := Depth(stack, funcs);
    if IsTrace(stack, funcs, frames, ok) {
      assert |frames| == n;
      assert frames == Functions(stack, n);
    }
  }

  /** The caller of the current function does not show in the trace: the trace ends before it,
      or at it with nothing behind to tell, or its function is `main` and was called by `main`. */
  predicate CallerUnseen(stack: seq<Activation>, funcs: seq<Function>) {
    |stack| >= 2 &&
    var f, g := stack[0].function_, stack[1].function_;
    || f !in funcs || f.name == "main"
    || (g !in funcs && (|stack| == 2 || stack[2].function_ !in funcs))
    || (g in funcs && g.name == "main" && |stack| > 2 && stack[2].function_ == g)
  }

  /** The trace of what is shown is the trace of the stack if and only if the current frame is
      linked, or the caller would not be seen. */
  lemma TraceShown(stack: seq<Activation>, phase: Phase, funcs: seq<Function>)
    requires stack != [] && (!phase.Linked? ==> |stack| >= 2)
    ensures Trace(Shown(stack, phase), funcs) == Trace(stack, funcs)
            <==> phase.Linked? || CallerUnseen(stack, funcs)
  {
    if !phase.Linked? {
      var shown, n, m := Shown(stack, phase), Depth(stack, funcs), Depth(Shown(stack, phase), funcs);
      DepthStep(stack, funcs);
      DepthStep(shown, funcs);
      assert shown[1..] == stack[2..];
      hide Depth, Functions, CallerUnseen;
      if stack[0].function_ !in funcs || stack[0].function_.name == "main" {
        FirstOnly(stack, shown, n);
        assert CallerUnseen(stack, funcs) by { TopUnseen(stack, funcs); }
      } else {
        TraceBehind(stack, shown, n, m, funcs);
      }
    }
  }

  lemma DepthStep(stack: seq<Activation>, funcs: seq<Function>)
    requires stack != []
    ensures Depth(stack, funcs)
            == if stack[0].function_ !in funcs then 0
               else if stack[0].function_.name == "main" then 1 else 1 + Depth(stack[1..], funcs)
  {
  }

  lemma FirstOnly(stack: seq<Activation>, shown: seq<Activation>, n: nat)
    requires n <= 1 && stack != [] && shown != [] && shown[0].function_ == stack[0].function_
    ensures Functions(shown, n) == Functions(stack, n)
  {
  }

  lemma TopUnseen(stack: seq<Activation>, funcs: seq<Function>)
    requires |stack| >= 2 && (stack[0].function_ !in funcs || stack[0].function_.name == "main")
    ensures CallerUnseen(stack, funcs)
  {
  }

  lemma TraceBehind(stack: seq<Activation>, shown: seq<Activation>, n: nat, m: nat, funcs: seq<Function>)
    requires |stack| >= 2 && stack[0].function_ in funcs && stack[0].function_.name != "main"
    requires |shown| == |stack| - 1 && shown[0].function_ == stack[0].function_ && shown[1..] == stack[2..]
    requires n == Depth(stack, funcs) == 1 + Depth(stack[1..], funcs)
    requires m == Depth(shown, funcs) == 1 + Depth(stack[2..], funcs)
    ensures Trace(shown, funcs) == Trace(stack, funcs) <==> CallerUnseen(stack, funcs)
  {
    var g := stack[1].function_;
    assert |Functions(shown, m)| == m && |Functions(stack, n)| == n;
    assert |stack| > 2 ==> shown[1] == shown[1..][0] == stack[2..][0] == stack[2];
    if g !in funcs {
      assert n == 1;
      if m == 1 { assert Functions(shown, 1) == Functions(stack, 1); }
    } else if g.name != "main" {
      assert stack[1..][1..] == stack[2..];
      assert n == m + 1;
    } else {
      assert n == 2;
      if |stack| > 2 {
        if stack[2].function_ == g {
          assert m == 2 && Functions(shown, 2) == Functions(stack, 2);
        } else if m == 2 {
          assert Functions(shown, 2)[1] == stack[2].function_ && Functions(stack, 2)[1] == g;
        }
      }
    }
  }

  /** No breakpoint lies on a saved word `backtrace` reads. */
  predicate Readable(stack: seq<Activation>, funcs: seq<Function>, at: set<Word>) {
    forall i: nat :: i < Depth(stack, funcs) && stack[i].function_.name != "main" ==>
      Span(stack[i].frame, 8) !! at && Span(Plus(stack[i].frame, 8), 8) !! at
  }

  predicate AllPlaced(stack: seq<Activation>, funcs: seq<Function>) {
    forall i :: 0 <= i < |stack| ==> Placed(stack[i].function_, funcs)
  }

  /** The functions of the first `n` activations. */
  function Functions(stack: seq<Activation>, n: nat): seq<Function>
    requires n <= |stack|
  {
    seq(n, i requires 0 <= i < n => stack[i].function_)
  }
}
