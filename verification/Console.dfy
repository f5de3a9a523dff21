/** The escape sequence automaton as it runs: global state, fixed arrays, and a print buffer
    flushed when full and before every sequence. */
module Consoles {
  import opened Bits
  import opened Ansi

  function ModeOf(state: int): Mode {
    if state == 1 then Plain else if state == 2 then Escaped else if state == 3 then Prefixed
    else if state == 4 then Arguments else if state == 5 then CommandText else Charset
  }

  lemma FlattenOne(calls: seq<Call>, call: Call)
    ensures Flatten(calls + [call])
            == Flatten(calls) + match call case Write(d, chars) => Chars(d, chars) case Interpret(s) => [s]
  {
    assert (calls + [call])[..|calls|] == calls;
  }

  lemma NoChars(device: int)
    ensures Chars(device, []) == []
  {
  }

  lemma CharsMore(device: int, chars: seq<nat>, c: nat)
    ensures Chars(device, chars + [c]) == Chars(device, chars) + [Char(device, c)]
  {
  }

  class Console {
    var hConOut: int
    var state: int
    var prefix: int
    var prefix2: int
    var suffix: int
    var esArgc: int
    const esArgv: array<int>
    var ptLen: int
    const ptArg: array<int>
    var shifted: bool
    var nCharInBuffer: int
    const chBuffer: array<nat>
    ghost var calls: seq<Call>
    ghost var parser: Parser

    /** The parser the globals stand for. Old arguments are not kept: interpreting a
        sequence may change them. */
    ghost predicate Parses()
      reads this, esArgv, ptArg
    {
      && 1 <= state <= 6 && parser.mode == ModeOf(state)
      && parser.prefix == prefix && parser.prefix2 == prefix2 && parser.suffix == suffix
      && parser.shifted == shifted && Consistent(parser)
      && esArgv.Length == MAX_ARG && ptArg.Length == TEXT_SIZE
      && 0 <= ptLen < TEXT_SIZE && ptArg[..ptLen] == parser.text
      && (state == 4 || state == 5 ==>
            0 <= esArgc < MAX_ARG && esArgv[..esArgc + 1] == parser.args)
    }

    /** Inside a sequence nothing waits in the buffer. */
    ghost predicate Valid()
      reads this, esArgv, ptArg, chBuffer
    {
      && Parses() && esArgv != ptArg
      && chBuffer.Length == BUFFER_SIZE && 0 <= nCharInBuffer < BUFFER_SIZE
      && (3 <= state <= 5 ==> nCharInBuffer == 0)
    }

    /** Everything the console has been told, counting what still waits in the buffer. */
    ghost function Told(): seq<Out>
      reads this, chBuffer
      requires 0 <= nCharInBuffer <= chBuffer.Length
    {
      Flatten(calls) + Chars(hConOut, chBuffer[..nCharInBuffer])
    }

    constructor (device: int)
      ensures Valid() && fresh(esArgv) && fresh(ptArg) && fresh(chBuffer)
      ensures hConOut == device && calls == [] && nCharInBuffer == 0
      ensures parser == Parser(Plain, 0, 0, 0, [], [], false)
    {
      hConOut, state, prefix, prefix2, suffix, esArgc, ptLen := device, 1, 0, 0, 0, 0, 0;
      shifted, nCharInBuffer := false, 0;
      esArgv := new int[MAX_ARG](_ => 0);
      ptArg := new int[TEXT_SIZE](_ => 0);
      chBuffer := new nat[BUFFER_SIZE](_ => 0);
      calls := [];
      parser := Parser(Plain, 0, 0, 0, [], [], false);
    }

    method FlushBuffer()
      requires 0 <= nCharInBuffer <= chBuffer.Length
      modifies `nCharInBuffer, `calls
      ensures nCharInBuffer == 0 && Told() == old(Told())
    {
      if nCharInBuffer <= 0 {
        return;
      }
      FlattenOne(calls, Write(hConOut, chBuffer[..nCharInBuffer]));
      calls := calls + [Write(hConOut, chBuffer[..nCharInBuffer])];
      nCharInBuffer := 0;
    }

    method PushBuffer(wide: nat)
      requires chBuffer.Length == BUFFER_SIZE && 0 <= nCharInBuffer < BUFFER_SIZE
      modifies `nCharInBuffer, `calls, chBuffer
      ensures 0 <= nCharInBuffer < BUFFER_SIZE
      ensures Told() == old(Told())
              + [Char(hConOut, if shifted && FIRST_G1 <= wide <= LAST_G1 then G1[wide - FIRST_G1] else wide)]
    {
      var c := wide;
      if shifted && c >= FIRST_G1 && c <= LAST_G1 {
        c := G1[c - FIRST_G1];
      }
      ghost var before := chBuffer[..nCharInBuffer];
      chBuffer[nCharInBuffer] := c;
      nCharInBuffer := nCharInBuffer + 1;
      assert chBuffer[..nCharInBuffer] == before + [c];
      CharsMore(hConOut, before, c);
      if nCharInBuffer == BUFFER_SIZE {
        FlushBuffer();
      }
    }

    /** The console acts on the sequence; it may leave anything in the argument registers. */
    method InterpretEscSeq(ghost args: seq<int>, ghost text: seq<int>)
      requires nCharInBuffer == 0 && 0 <= esArgc <= esArgv.Length && 0 <= ptLen <= ptArg.Length
      requires args == esArgv[..esArgc] && text == ptArg[..ptLen]
      modifies `esArgc, `calls, esArgv
      ensures nCharInBuffer == 0
      ensures Told() == old(Told()) + [Sequence(hConOut, prefix, prefix2, suffix, args, text)]
    {
      ghost var call := Interpret(Sequence(hConOut, prefix, prefix2, suffix, args, text));
      FlattenOne(calls, call);
      calls := calls + [call];
      assert chBuffer[..0] == [];
      esArgc := *;
      forall i | 0 <= i < esArgv.Length {
        esArgv[i] := *;
      }
    }

    /** State 1: plain text. */
    method InText(b: Byte)
      requires Valid() && state == 1
      modifies this, esArgv, ptArg, chBuffer
      ensures Valid() && hConOut == old(hConOut)
      ensures parser == Next(hConOut, old(parser), b).0
      ensures Told() == old(Told()) + Next(hConOut, old(parser), b).1
    {
      hide Flatten, Chars;
      if b == ESC {
        state := 2;
      } else if b == SO {
        shifted := true;
      } else if b == SI {
        shifted := false;
      } else {
        PushBuffer(Wide(b));
      }
      parser := Next(hConOut, parser, b).0;
    }

    /** State 2: after ESC; a sequence starts with an empty buffer. */
    method AfterEscape(b: Byte)
      requires Valid() && state == 2
      modifies this, esArgv, ptArg, chBuffer
      ensures Valid() && hConOut == old(hConOut)
      ensures parser == Next(hConOut, old(parser), b).0
      ensures Told() == old(Told()) + Next(hConOut, old(parser), b).1
    {
      hide Flatten, Chars, Shown;
      ghost var p := parser;
      if b == ESC {
      } else if b == '[' as int || b == ']' as int {
        FlushBuffer();
        prefix := b;
        prefix2 := 0;
        state := 3;
        ptLen := 0;
        ptArg[0] := 0;
      } else if b == ')' as int || b == '(' as int {
        state := 6;
      } else {
        state := 1;
      }
      parser := Next(hConOut, p, b).0;
    }

    /** State 3: after ESC [ or ESC ]. */
    method AfterPrefix(b: Byte)
      requires Valid() && state == 3
      modifies this, esArgv, ptArg, chBuffer
      ensures Valid() && hConOut == old(hConOut)
      ensures parser == Next(hConOut, old(parser), b).0
      ensures Told() == old(Told()) + Next(hConOut, old(parser), b).1
    {
      hide Flatten, Chars, Shown;
      ghost var p := parser;
      if IsDigit(b) {
        esArgc := 0;
        esArgv[0] := b - '0' as int;
        state := 4;
      } else if b == ';' as int {
        esArgc := 1;
        esArgv[0] := 0;
        esArgv[1] := 0;
        state := 4;
      } else if b == '?' as int || b == '>' as int {
        prefix2 := b;
      } else {
        esArgc := 0;
        suffix := Wide(b);
        InterpretEscSeq([], p.text);
        state := 1;
      }
      parser := Next(hConOut, p, b).0;
    }

    /** State 4: numbers and semicolons. */
    method InArguments(b: Byte)
      requires Valid() && state == 4
      modifies this, esArgv, ptArg, chBuffer
      ensures Valid() && hConOut == old(hConOut)
      ensures parser == Next(hConOut, old(parser), b).0
      ensures Told() == old(Told()) + Next(hConOut, old(parser), b).1
    {
      hide Flatten, Chars, Shown;
      ghost var p := parser;
      if IsDigit(b) {
        esArgv[esArgc] := 10 * esArgv[esArgc] + (b - '0' as int);
        assert esArgv[..esArgc + 1] == p.args[esArgc := 10 * p.args[esArgc] + (b - '0' as int)];
      } else if b == ';' as int {
        if esArgc < MAX_ARG - 1 {
          esArgc := esArgc + 1;
        }
        esArgv[esArgc] := 0;
        assert esArgv[..esArgc + 1] == PushArg(p.args, 0);
        if prefix == ']' as int {
          state := 5;
        }
      } else {
        esArgc := esArgc + 1;
        suffix := Wide(b);
        InterpretEscSeq(p.args, p.text);
        state := 1;
      }
      parser := Next(hConOut, p, b).0;
    }

    /** State 5: the text of an operating system command, up to BEL or ESC \\. */
    method InCommandText(b: Byte)
      requires Valid() && state == 5
      modifies this, esArgv, ptArg, chBuffer
      ensures Valid() && hConOut == old(hConOut)
      ensures parser == Next(hConOut, old(parser), b).0
      ensures Told() == old(Told()) + Next(hConOut, old(parser), b).1
    {
      hide Flatten, Chars, Shown;
      ghost var p := parser;
      ghost var done := p.args[..|p.args| - 1];
      assert esArgv[..esArgc] == esArgv[..esArgc + 1][..esArgc];
      if b == BEL {
        ptArg[ptLen] := 0;
        assert ptArg[..ptLen] == p.text;
        InterpretEscSeq(done, p.text);
        state := 1;
      } else if b == '\\' as int && ptLen > 0 && ptArg[ptLen - 1] == ESC {
        ptLen := ptLen - 1;
        ptArg[ptLen] := 0;
        assert ptArg[..ptLen] == p.text[..ptLen];
        InterpretEscSeq(done, p.text[..ptLen]);
        state := 1;
      } else if ptLen < TEXT_SIZE - 1 {
        ptArg[ptLen] := Wide(b);
        ptLen := ptLen + 1;
        assert ptArg[..ptLen] == p.text + [Wide(b)];
      }
      parser := Next(hConOut, p, b).0;
    }

    /** One turn of the loop. */
    method ProcessByte(b: Byte)
      requires Valid()
      modifies this, esArgv, ptArg, chBuffer
      ensures Valid() && hConOut == old(hConOut)
      ensures parser == Next(hConOut, old(parser), b).0
      ensures Told() == old(Told()) + Next(hConOut, old(parser), b).1
    {
      hide Flatten, Chars, Shown;
      if state == 1 {
        InText(b);
      } else if state == 2 {
        AfterEscape(b);
      } else if state == 3 {
        AfterPrefix(b);
      } else if state == 4 {
        InArguments(b);
      } else if state == 5 {
        InCommandText(b);
      } else {
        state := 1;
        parser := parser.(mode := Plain);
      }
    }

    lemma NothingWaits()
      requires nCharInBuffer == 0
      ensures Told() == Flatten(calls)
    {
      hide Flatten;
      NoChars(hConOut);
      assert chBuffer[..0] == [];
    }

    /** Processes one piece of output. Whatever the buffering, and wherever the output was cut
        before, the console is told exactly what the unbuffered interpreter says; changing the
        device starts in plain text. */
    method ParseAndPrintANSIString(hDev: int, s: seq<Byte>) returns (written: nat)
      requires Valid() && nCharInBuffer == 0
      modifies this, esArgv, ptArg, chBuffer
      ensures Valid() && nCharInBuffer == 0 && hConOut == hDev && written == |s|
      ensures var start := if hDev == old(hConOut) then old(parser) else old(parser).(mode := Plain, shifted := false);
              parser == Process(hDev, start, s).0
              && Flatten(calls) == Flatten(old(calls)) + Process(hDev, start, s).1
    {
      hide Flatten, Chars, Next, Process;
      if hDev != hConOut {
        hConOut := hDev;
        state := 1;
        shifted := false;
        parser := parser.(mode := Plain, shifted := false);
      }
      ghost var start, told := parser, Flatten(calls);
      NothingWaits();
      ProcessNothing(hDev, start, s);
      assert told + [] == told;
      var i := 0;
      while i < |s|
        invariant 0 <= i <= |s| && Valid() && hConOut == hDev
        invariant parser == Process(hDev, start, s[..i]).0
        invariant Told() == told + Process(hDev, start, s[..i]).1
      {
        ProcessTurn(hDev, start, s, i);
        ProcessByte(s[i]);
        i := i + 1;
      }
      FlushBuffer();
      NothingWaits();
      written := i;
    }
  }
}
