/** The console output layer: a resumable parser of terminal escape sequences in front of a
    print buffer of fixed size. */
module Ansi {
  import opened Bits

  const ESC := 0x1B
  const BEL := 0x07
  const SO := 0x0E
  const SI := 0x0F
  const MAX_ARG := 16
  const BUFFER_SIZE := 2048
  const TEXT_SIZE := 520
  const FIRST_G1 := '_' as int
  const LAST_G1 := '~' as int

  /** The DEC line drawing characters for '_' to '~'. */
  const G1: seq<nat> := [
    0x20, 0x2666, 0x2592, 0x2409, 0x240c, 0x240d, 0x240a, 0x00b0, 0x00b1, 0x2424, 0x240b,
    0x2518, 0x2510, 0x250c, 0x2514, 0x253c, 0x00af, 0x25ac, 0x2500, 0x5f, 0x5f, 0x251c,
    0x2524, 0x2534, 0x252c, 0x2502, 0x2264, 0x2265, 0x03c0, 0x2260, 0x00a3, 0x00b7]

  /** What the console is told: one character, or one escape sequence to interpret. */
  datatype Out =
    | Char(device: int, c: nat)
    | Sequence(device: int, prefix: int, prefix2: int, suffix: int, args: seq<int>, text: seq<int>)

  /** The calls actually made: whole buffers, and escape sequences. */
  datatype Call = Write(device: int, chars: seq<nat>) | Interpret(sequence: Out)

  function Flatten(calls: seq<Call>): seq<Out> {
    if calls == [] then []
    else
      var call := calls[|calls| - 1];
      Flatten(calls[..|calls| - 1])
      + match call
        case Write(device, chars) => Chars(device, chars)
        case Interpret(s) => [s]
  }

  function Chars(device: int, chars: seq<nat>): seq<Out> {
    seq(|chars|, i requires 0 <= i < |chars| => Char(device, chars[i]))
  }

  // ---------- the unbuffered interpreter

  /** Plain text, after ESC, after ESC [ or ESC ], in the arguments, in the text of an
      operating system command, and after ESC ( or ESC ). */
  datatype Mode = Plain | Escaped | Prefixed | Arguments | CommandText | Charset

  datatype Parser = Parser(
    mode: Mode, prefix: int, prefix2: int, suffix: int, args: seq<int>, text: seq<int>, shifted: bool)

  predicate Consistent(p: Parser) {
    && (p.mode == Arguments || p.mode == CommandText ==> 1 <= |p.args| <= MAX_ARG)
    && |p.text| < TEXT_SIZE
  }

  predicate IsDigit(b: Byte) {
    '0' as int <= b <= '9' as int
  }

  /** A `char` is signed: bytes from 0x80 on widen to 0xFF80 and up. */
  function Wide(b: Byte): nat {
    if b < 0x80 then b else 0xFF00 + b
  }

  function Shown(b: Byte, shifted: bool): nat {
    var c := Wide(b);
    if shifted && FIRST_G1 <= c <= LAST_G1 then G1[c - FIRST_G1] else c
  }

  /** One byte: the parser's next state and what the console is told. */
  function Next(device: int, p: Parser, b: Byte): (r: (Parser, seq<Out>))
    requires Consistent(p)
    ensures Consistent(r.0)
  {
    match p.mode
    case Plain =>
      if b == ESC then (p.(mode := Escaped), [])
      else if b == SO then (p.(shifted := true), [])
      else if b == SI then (p.(shifted := false), [])
      else (p, [Char(device, Shown(b, p.shifted))])
    case Escaped =>
      if b == ESC then (p, [])
      else if b == '[' as int || b == ']' as int then (p.(mode := Prefixed, prefix := b, prefix2 := 0, text := []), [])
      else if b == ')' as int || b == '(' as int then (p.(mode := Charset), [])
      else (p.(mode := Plain), [])
    case Prefixed =>
      if IsDigit(b) then (p.(mode := Arguments, args := [b - '0' as int]), [])
      else if b == ';' as int then (p.(mode := Arguments, args := [0, 0]), [])
      else if b == '?' as int || b == '>' as int then (p.(prefix2 := b), [])
      else (p.(mode := Plain, suffix := Wide(b)), [Sequence(device, p.prefix, p.prefix2, Wide(b), [], p.text)])
    case Arguments =>
      var last := |p.args| - 1;
      if IsDigit(b) then (p.(args := p.args[last := 10 * p.args[last] + (b - '0' as int)]), [])
      else if b == ';' as int then
        (p.(args := PushArg(p.args, 0), mode := if p.prefix == ']' as int then CommandText else Arguments), [])
      else (p.(mode := Plain, suffix := Wide(b)), [Sequence(device, p.prefix, p.prefix2, Wide(b), p.args, p.text)])
    case CommandText =>
      var done := p.args[..|p.args| - 1];
      var n := |p.text|;
      if b == BEL then (p.(mode := Plain), [Sequence(device, p.prefix, p.prefix2, p.suffix, done, p.text)])
      else if b == '\\' as int && n > 0 && p.text[n - 1] == ESC then
        (p.(mode := Plain, text := p.text[..n - 1]),
         [Sequence(device, p.prefix, p.prefix2, p.suffix, done, p.text[..n - 1])])
      else if n < TEXT_SIZE - 1 then (p.(text := p.text + [Wide(b)]), [])
      else (p, [])
    case Charset =>
      (p.(mode := Plain), [])
  }

  /** A new argument; when there is no room the last one is overwritten. */
  function PushArg(args: seq<int>, v: int): (r: seq<int>)
    requires |args| <= MAX_ARG
    ensures 1 <= |r| <= MAX_ARG
  {
    if |args| < MAX_ARG then args + [v] else args[MAX_ARG - 1 := v]
  }

  function Process(device: int, p: Parser, s: seq<Byte>): (r: (Parser, seq<Out>))
    requires Consistent(p)
    ensures Consistent(r.0)
    decreases |s|
  {
    if s == [] then (p, [])
    else
      var q := Next(device, p, s[0]);
      var rest := Process(device, q.0, s[1..]);
      (rest.0, q.1 + rest.1)
  }

  /** Output cut anywhere, even inside a sequence, is the same output. */
  lemma {:induction false} ProcessResumes(device: int, p: Parser, a: seq<Byte>, b: seq<Byte>)
    requires Consistent(p)
    ensures var first := Process(device, p, a);
            var second := Process(device, first.0, b);
            Process(device, p, a + b) == (second.0, first.1 + second.1)
    decreases |a|
  {
    hide Next, Consistent;
    if a == [] {
      assert a + b == b;
      assert [] + Process(device, p, b).1 == Process(device, p, b).1;
    } else {
      var q := Next(device, p, a[0]);
      ProcessResumes(device, q.0, a[1..], b);
      assert (a + b)[1..] == a[1..] + b;
      var first := Process(device, q.0, a[1..]);
      var second := Process(device, first.0, b);
      assert q.1 + (first.1 + second.1) == (q.1 + first.1) + second.1;
    }
  }

  // ---------- what plain text means

  /** Text without ESC, SO and SI. */
  predicate Printing(text: seq<Byte>) {
    forall i :: 0 <= i < |text| ==> text[i] != ESC && text[i] != SO && text[i] != SI
  }

  /** The character shown for a byte: as a signed `char`, and shifted, the line drawing character
      of a byte from 0x5F to 0x7E. */
  predicate Shows(b: Byte, shifted: bool, c: nat) {
    if shifted && 0x5F <= b <= 0x7E then c == G1[b - 0x5F] else if b < 0x80 then c == b else c == 0xFF00 + b as nat
  }

  /** What is told about such a text: its characters, one by one. */
  predicate ToldOf(device: int, text: seq<Byte>, shifted: bool, told: seq<Out>) {
    && |told| == |text|
    && forall i :: 0 <= i < |text| ==>
         told[i].Char? && told[i].device == device && Shows(text[i], shifted, told[i].c)
  }

  lemma {:induction false} TextPrinted(device: int, p: Parser, text: seq<Byte>)
    requires Consistent(p) && p.mode == Plain && Printing(text)
    ensures var r := Process(device, p, text); r.0 == p && ToldOf(device, text, p.shifted, r.1)
    decreases |text|
  {
    hide Next, Consistent, ToldOf, Shows;
    NothingTold(device, p.shifted);
    if text != [] {
      TextPrinted(device, p, text[1..]);
      BytePrinted(device, p, text[0]);
      ToldFirst(device, text, p.shifted, Process(device, p, text[1..]).1);
    }
  }

  lemma NothingTold(device: int, shifted: bool)
    ensures ToldOf(device, [], shifted, [])
  {
  }

  lemma ToldFirst(device: int, text: seq<Byte>, shifted: bool, rest: seq<Out>)
    requires text != [] && ToldOf(device, text[1..], shifted, rest)
    ensures forall c :: Shows(text[0], shifted, c) ==> ToldOf(device, text, shifted, [Char(device, c)] + rest)
  {
    hide Shows;
  }

  lemma BytePrinted(device: int, p: Parser, b: Byte)
    requires Consistent(p) && p.mode == Plain && b != ESC && b != SO && b != SI
    ensures exists c :: Shows(b, p.shifted, c) && Next(device, p, b) == (p, [Char(device, c)])
  {
    assert Shows(b, p.shifted, Next(device, p, b).1[0].c);
  }

  /** SO shifts the text up to the next SI, which ends the shift. */
  lemma ShiftedText(device: int, p: Parser, text: seq<Byte>, after: seq<Byte>)
    requires Consistent(p) && p.mode == Plain && Printing(text) && Printing(after)
    ensures var r := Process(device, p, [SO] + text + [SI] + after);
            && r.0 == p.(shifted := false) && |r.1| == |text| + |after|
            && ToldOf(device, text, true, r.1[..|text|]) && ToldOf(device, after, false, r.1[|text|..])
  {
    ProcessOne(device, p, SO);
    ProcessOne(device, p.(shifted := true), SI);
    hide Process, Next, ToldOf;
    ProcessResumes(device, p, [SO] + text + [SI], after);
    ProcessResumes(device, p, [SO] + text, [SI]);
    ProcessResumes(device, p, [SO], text);
    TextPrinted(device, p.(shifted := true), text);
    TextPrinted(device, p.(shifted := false), after);
    ToldLength(device, text, true, Process(device, p.(shifted := true), text).1);
    var told, more := Process(device, p.(shifted := true), text).1, Process(device, p.(shifted := false), after).1;
    assert [] + told == told && told + [] == told;
    assert (told + more)[..|told|] == told && (told + more)[|told|..] == more;
    ToldLength(device, after, false, more);
  }

  lemma ToldLength(device: int, text: seq<Byte>, shifted: bool, told: seq<Out>)
    requires ToldOf(device, text, shifted, told)
    ensures |told| == |text|
  {
  }

  /** ESC, however often, and a byte that starts no sequence are dropped; so are ESC with a round
      bracket and the byte behind it. */
  lemma EscapeDropped(device: int, p: Parser, b: Byte, c: Byte)
    requires Consistent(p) && p.mode == Plain && b != '[' as int && b != ']' as int
    ensures b != ESC && b != '(' as int && b != ')' as int ==>
              Process(device, p, [ESC, b]) == (p, []) && Process(device, p, [ESC, ESC, b]) == (p, [])
    ensures b == '(' as int || b == ')' as int ==> Process(device, p, [ESC, b, c]) == (p, [])
  {
    var q := p.(mode := Escaped);
    var none: seq<Out> := [];
    assert none + none == none;
    ProcessOne(device, p, ESC);
    ProcessOne(device, q, b);
    ProcessOne(device, q, ESC);
    ProcessOne(device, p.(mode := Charset), c);
    hide Process, Next;
    ProcessResumes(device, p, [ESC], [b]);
    ProcessResumes(device, p, [ESC], [ESC]);
    ProcessResumes(device, p, [ESC, ESC], [b]);
    ProcessResumes(device, p, [ESC, b], [c]);
    assert [ESC] + [b] == [ESC, b] && [ESC] + [ESC] == [ESC, ESC] && [ESC, ESC] + [b] == [ESC, ESC, b];
    assert [ESC, b] + [c] == [ESC, b, c];
  }

  // ---------- what a control sequence means

  function Value(digits: seq<Byte>): int {
    if digits == [] then 0 else 10 * Value(digits[..|digits| - 1]) + (digits[|digits| - 1] - '0' as int)
  }

  predicate AllDigits(digits: seq<Byte>) {
    forall i :: 0 <= i < |digits| ==> IsDigit(digits[i])
  }

  /** Arguments separated by semicolons. */
  function Joined(args: seq<seq<Byte>>): seq<Byte>
    requires args != []
  {
    if |args| == 1 then args[0] else Joined(args[..|args| - 1]) + [';' as int] + args[|args| - 1]
  }

  /** The arguments that are processed: all, or the first fifteen and the last. */
  function Clipped(args: seq<seq<Byte>>): seq<int>
    requires args != []
  {
    if |args| <= MAX_ARG then seq(|args|, i requires 0 <= i < |args| => Value(args[i]))
    else seq(MAX_ARG - 1, i requires 0 <= i < MAX_ARG - 1 => Value(args[i])) + [Value(args[|args| - 1])]
  }

  lemma ValueLast(init: seq<Byte>, d: Byte)
    ensures Value([]) == 0 && Value(init + [d]) == 10 * Value(init) + (d - '0' as int)
    ensures init == [] ==> Value(init + [d]) == d - '0' as int
  {
    assert (init + [d])[..|init|] == init;
  }

  lemma DigitNext(device: int, p: Parser, d: Byte)
    requires Consistent(p) && p.mode == Arguments && IsDigit(d)
    ensures |p.args| > 0
    ensures var last := |p.args| - 1;
            Next(device, p, d) == (p.(args := p.args[last := 10 * p.args[last] + (d - '0' as int)]), [])
  {
  }

  lemma FirstDigitNext(device: int, p: Parser, d: Byte)
    requires Consistent(p) && p.mode == Prefixed && IsDigit(d)
    ensures Next(device, p, d) == (p.(mode := Arguments, args := [d - '0' as int]), [])
  {
  }

  lemma {:induction false} DigitsAccumulate(device: int, p: Parser, digits: seq<Byte>)
    requires Consistent(p) && p.mode == Arguments && AllDigits(digits) && p.args[|p.args| - 1] == 0
    ensures Process(device, p, digits) == (p.(args := p.args[|p.args| - 1 := Value(digits)]), [])
    decreases |digits|
  {
    hide Process, Next, Value, IsDigit;
    var last := |p.args| - 1;
    var none: seq<Out> := [];
    assert none + none == none;
    if digits == [] {
      NothingProcessed(device, p);
      ValueLast([], 0x30);
      assert p.args[last := 0] == p.args;
    } else {
      var init, d := digits[..|digits| - 1], digits[|digits| - 1];
      var q := p.(args := p.args[last := Value(init)]);
      assert digits == init + [d];
      DigitsAccumulate(device, p, init);
      ProcessResumes(device, p, init, [d]);
      ProcessOne(device, q, d);
      DigitNext(device, q, d);
      ValueLast(init, d);
      assert q.args[last := Value(digits)] == p.args[last := Value(digits)];
    }
  }

  lemma ProcessOne(device: int, p: Parser, b: Byte)
    requires Consistent(p)
    ensures Process(device, p, [b]) == Next(device, p, b)
  {
    hide Next;
    assert [b][1..] == [];
    assert Process(device, Next(device, p, b).0, []) == (Next(device, p, b).0, []);
    assert Next(device, p, b).1 + [] == Next(device, p, b).1;
  }

  /** One more byte of a piece of output. */
  lemma ProcessTurn(device: int, p: Parser, s: seq<Byte>, i: nat)
    requires Consistent(p) && i < |s|
    ensures var q := Process(device, p, s[..i]);
            var r := Next(device, q.0, s[i]);
            Process(device, p, s[..i + 1]) == (r.0, q.1 + r.1)
  {
    hide Process, Next, Consistent;
    assert s[..i + 1] == s[..i] + [s[i]];
    ProcessResumes(device, p, s[..i], [s[i]]);
    ProcessOne(device, Process(device, p, s[..i]).0, s[i]);
  }

  lemma ProcessNothing(device: int, p: Parser, s: seq<Byte>)
    requires Consistent(p)
    ensures Process(device, p, s[..0]) == (p, []) && s[..|s|] == s
  {
  }

  /** The parser right after `ESC [`. */
  predicate AtArguments(p: Parser) {
    Consistent(p) && p.mode == Prefixed && p.prefix == '[' as int
  }

  lemma {:induction false} FirstDigits(device: int, p: Parser, digits: seq<Byte>)
    requires Consistent(p) && p.mode == Prefixed && AllDigits(digits) && digits != []
    ensures Process(device, p, digits) == (p.(mode := Arguments, args := [Value(digits)]), [])
    decreases |digits|
  {
    hide Process, Next, Value, Consistent, IsDigit;
    var init, d := digits[..|digits| - 1], digits[|digits| - 1];
    var none: seq<Out> := [];
    assert none + none == none;
    assert digits == init + [d];
    ValueLast(init, d);
    if init == [] {
      assert digits == [d];
      ProcessOne(device, p, d);
      FirstDigitNext(device, p, d);
    } else {
      var q := p.(mode := Arguments, args := [Value(init)]);
      FirstDigits(device, p, init);
      ProcessResumes(device, p, init, [d]);
      ProcessOne(device, q, d);
      DigitNext(device, q, d);
      assert q.args[0 := Value(digits)] == [Value(digits)];
    }
  }

  /** After any argument list the parser holds the clipped values; a lone empty argument is
      no argument at all. */
  lemma {:induction false} ArgumentsParsed(device: int, p: Parser, args: seq<seq<Byte>>)
    requires AtArguments(p) && args != [] && forall i :: 0 <= i < |args| ==> AllDigits(args[i])
    ensures Process(device, p, Joined(args))
            == if args == [[]] then (p, []) else (p.(mode := Arguments, args := Clipped(args)), [])
    decreases |args|
  {
    hide Process, Next, Joined, Clipped, PushArg, Value;
    ArgumentLists(args);
    if |args| == 1 {
      if args[0] != [] {
        FirstDigits(device, p, args[0]);
      } else {
        NothingProcessed(device, p);
      }
    } else {
      var init, last := args[..|args| - 1], args[|args| - 1];
      var lone := init == [[]];
      var before := if lone then p else p.(mode := Arguments, args := Clipped(init));
      ArgumentsParsed(device, p, init);
      ProcessResumes(device, p, Joined(init) + [';' as int], last);
      ProcessResumes(device, p, Joined(init), [';' as int]);
      Separator(device, p, before, lone);
      var more := PushArg(if lone then [0] else Clipped(init), 0);
      ClippedGrows(args);
      var q := p.(mode := Arguments, args := more);
      var none: seq<Out> := [];
      assert none + none == none;
      assert Process(device, p, Joined(init) + [';' as int]) == (q, none);
      DigitsAccumulate(device, q, last);
      assert q.(args := more[|more| - 1 := Value(last)]) == p.(mode := Arguments, args := Clipped(args));
    }
  }

  lemma NothingProcessed(device: int, p: Parser)
    requires Consistent(p)
    ensures Process(device, p, []) == (p, [])
  {
  }

  /** Argument lists by their last argument. */
  lemma ArgumentLists(args: seq<seq<Byte>>)
    requires args != []
    ensures 1 <= |Clipped(args)| <= MAX_ARG
    ensures |args| == 1 ==> Joined(args) == args[0] && Clipped(args) == [Value(args[0])]
    ensures |args| > 1 ==> Joined(args) == Joined(args[..|args| - 1]) + [';' as int] + args[|args| - 1]
  {
    hide Value;
  }

  lemma Separator(device: int, p: Parser, before: Parser, lone: bool)
    requires AtArguments(p) && Consistent(before)
    requires before == if lone then p else p.(mode := Arguments, args := before.args)
    ensures Process(device, before, [';' as int])
            == (p.(mode := Arguments, args := PushArg(if lone then [0] else before.args, 0)), [])
  {
    assert PushArg([0], 0) == [0, 0];
    ProcessOne(device, before, ';' as int);
  }

  lemma ClippedGrows(args: seq<seq<Byte>>)
    requires |args| > 1
    ensures var init, last := args[..|args| - 1], args[|args| - 1];
            var more := PushArg(if init == [[]] then [0] else Clipped(init), 0);
            && Clipped(args) == more[|more| - 1 := Value(last)]
            && more[|more| - 1] == 0
  {
  }

  /** Private prefixes: only the last one counts. */
  lemma {:induction false} PrivateRead(device: int, p: Parser, priv: seq<Byte>)
    requires AtArguments(p) && forall i :: 0 <= i < |priv| ==> priv[i] == '?' as int || priv[i] == '>' as int
    ensures Process(device, p, priv) == (if priv == [] then p else p.(prefix2 := priv[|priv| - 1]), [])
    decreases |priv|
  {
    if priv != [] {
      var q := p.(prefix2 := priv[0]);
      assert Next(device, p, priv[0]) == (q, []);
      hide Next;
      PrivateRead(device, q, priv[1..]);
      assert |priv| > 1 ==> priv[1..][|priv| - 2] == priv[|priv| - 1];
      var none: seq<Out> := [];
      assert none + none == none;
    }
  }

  /** A final byte, behind arguments or without any. */
  lemma FinalRead(device: int, p: Parser, final: Byte)
    requires Consistent(p) && (p.mode == Prefixed || p.mode == Arguments)
    requires !IsDigit(final) && final != ';' as int
    requires p.mode == Prefixed ==> final != '?' as int && final != '>' as int
    ensures Next(device, p, final)
            == (p.(mode := Plain, suffix := Wide(final)),
                [Sequence(device, p.prefix, p.prefix2, Wide(final), if p.mode == Prefixed then [] else p.args, p.text)])
  {
  }

  /** A whole control sequence, from plain text, with or without private prefixes: one
      interpretation, with the final byte and the processed arguments, and the parser back in
      plain text. */
  lemma ControlSequenceParsed(device: int, p: Parser, priv: seq<Byte>, args: seq<seq<Byte>>, final: Byte)
    requires Consistent(p) && p.mode == Plain && args != []
    requires forall i :: 0 <= i < |priv| ==> priv[i] == '?' as int || priv[i] == '>' as int
    requires forall i :: 0 <= i < |args| ==> AllDigits(args[i])
    requires !IsDigit(final) && final != ';' as int
    requires final == '?' as int || final == '>' as int ==> args != [[]]
    ensures var r := Process(device, p, [ESC, '[' as int] + priv + Joined(args) + [final]);
            && r.0.mode == Plain && r.0.shifted == p.shifted
            && r.1 == [Sequence(device, '[' as int, if priv == [] then 0 else priv[|priv| - 1], Wide(final),
                                if args == [[]] then [] else Clipped(args), [])]
  {
    hide Joined, Clipped, Value, Process;
    var start := [ESC, '[' as int];
    var none: seq<Out> := [];
    assert none + none == none;
    ArgumentLists(args);
    ProcessResumes(device, p, start + priv + Joined(args), [final]);
    ProcessResumes(device, p, start + priv, Joined(args));
    ProcessResumes(device, p, start, priv);
    PrefixRead(device, p, '[' as int);
    var q := p.(mode := Prefixed, prefix := '[' as int, prefix2 := 0, text := []);
    PrivateRead(device, q, priv);
    var q' := if priv == [] then q else q.(prefix2 := priv[|priv| - 1]);
    assert Process(device, p, start + priv) == (q', none);
    ArgumentsParsed(device, q', args);
    var r := if args == [[]] then q' else q'.(mode := Arguments, args := Clipped(args));
    FinalRead(device, r, final);
    hide Next;
    ProcessOne(device, r, final);
  }

  // ---------- what an operating system command means

  /** Text that ends no command: neither BEL nor ESC. */
  predicate Harmless(text: seq<Byte>) {
    forall i :: 0 <= i < |text| ==> text[i] != BEL && text[i] != ESC
  }

  /** What fits the text of a command. */
  function Kept(text: seq<int>): (r: seq<int>)
    ensures |r| < TEXT_SIZE
  {
    if |text| < TEXT_SIZE then text else text[..TEXT_SIZE - 1]
  }

  /** The text as it is stored. */
  function Widened(text: seq<Byte>): (r: seq<int>)
    ensures |r| == |text|
  {
    seq(|text|, i requires 0 <= i < |text| => Wide(text[i]))
  }

  /** One more byte of harmless text. */
  lemma WidenedMore(init: seq<Byte>, b: Byte)
    requires Harmless(init + [b])
    ensures Harmless(init) && b != BEL && b != ESC
    ensures Widened(init + [b]) == Widened(init) + [Wide(b)]
    ensures Kept(Widened(init + [b]))
            == if |init| < TEXT_SIZE - 1 then Kept(Widened(init)) + [Wide(b)] else Kept(Widened(init))
    ensures |Kept(Widened(init))| == if |init| < TEXT_SIZE - 1 then |init| else TEXT_SIZE - 1
    ensures Kept(Widened(init)) == [] || Kept(Widened(init))[|Kept(Widened(init))| - 1] != ESC
  {
    var text := init + [b];
    assert text[..|init|] == init && text[|init|] == b;
    assert forall i :: 0 <= i < |init| ==> init[i] == text[i];
  }

  /** A harmless byte behind harmless text. */
  lemma ByteStored(device: int, p: Parser, b: Byte)
    requires Consistent(p) && p.mode == CommandText && b != BEL && b != ESC
    requires p.text == [] || p.text[|p.text| - 1] != ESC
    ensures Next(device, p, b) == (if |p.text| < TEXT_SIZE - 1 then p.(text := p.text + [Wide(b)]) else p, [])
  {
  }

  lemma {:induction false} TextAccumulates(device: int, p: Parser, text: seq<Byte>)
    requires Consistent(p) && p.mode == CommandText && p.text == [] && Harmless(text)
    ensures Process(device, p, text) == (p.(text := Kept(Widened(text))), [])
    decreases |text|
  {
    hide Process, Next, Kept, Widened, Consistent, Harmless;
    if text == [] {
      NoText(device, p);
    } else {
      var init, b := text[..|text| - 1], text[|text| - 1];
      var q := p.(text := Kept(Widened(init)));
      assert text == init + [b];
      WidenedMore(init, b);
      TextAccumulates(device, p, init);
      ProcessResumes(device, p, init, [b]);
      ProcessOne(device, q, b);
      ByteStored(device, q, b);
      var none: seq<Out> := [];
      assert none + none == none;
    }
  }

  lemma NoText(device: int, p: Parser)
    requires Consistent(p)
    ensures Kept(Widened([])) == [] && Process(device, p, []) == (p, [])
  {
  }

  /** `ESC [` or `ESC ]`. */
  lemma PrefixRead(device: int, p: Parser, b: Byte)
    requires Consistent(p) && p.mode == Plain && (b == '[' as int || b == ']' as int)
    ensures Process(device, p, [ESC, b]) == (p.(mode := Prefixed, prefix := b, prefix2 := 0, text := []), [])
  {
    ProcessOne(device, p, ESC);
    ProcessOne(device, p.(mode := Escaped), b);
    hide Process;
    ProcessResumes(device, p, [ESC], [b]);
    assert [ESC, b] == [ESC] + [b];
  }

  /** `ESC ]`, a number and a semicolon lead to the text of the command. */
  lemma CommandStarts(device: int, p: Parser, digits: seq<Byte>)
    requires Consistent(p) && p.mode == Plain && AllDigits(digits) && digits != []
    ensures Process(device, p, [ESC, ']' as int] + digits + [';' as int])
            == (p.(mode := CommandText, prefix := ']' as int, prefix2 := 0, args := [Value(digits), 0], text := []), [])
  {
    var start := [ESC, ']' as int];
    var q := p.(mode := Prefixed, prefix := ']' as int, prefix2 := 0, text := []);
    var r := q.(mode := Arguments, args := [Value(digits)]);
    assert PushArg([Value(digits)], 0) == [Value(digits), 0];
    ProcessOne(device, r, ';' as int);
    hide Process, Next;
    PrefixRead(device, p, ']' as int);
    FirstDigits(device, q, digits);
    ProcessResumes(device, p, start, digits);
    ProcessResumes(device, p, start + digits, [';' as int]);
  }

  /** A whole operating system command, from plain text, ended by BEL: one interpretation, with
      its number and its text, cut at its fixed size. */
  lemma CommandEndedByBel(device: int, p: Parser, digits: seq<Byte>, text: seq<Byte>)
    requires Consistent(p) && p.mode == Plain && AllDigits(digits) && digits != [] && Harmless(text)
    ensures var r := Process(device, p, [ESC, ']' as int] + digits + [';' as int] + text + [BEL]);
            && r.0.mode == Plain && r.0.shifted == p.shifted
            && r.1 == [Sequence(device, ']' as int, 0, p.suffix, [Value(digits)], Kept(Widened(text)))]
  {
    var start := [ESC, ']' as int] + digits + [';' as int];
    CommandStarts(device, p, digits);
    var q := Process(device, p, start).0;
    TextAccumulates(device, q, text);
    ProcessResumes(device, p, start, text);
    ProcessResumes(device, p, start + text, [BEL]);
    ProcessOne(device, q.(text := Kept(Widened(text))), BEL);
    assert [Value(digits), 0][..1] == [Value(digits)];
  }

  /** Ended by ESC backslash it is the same if and only if there is room for the ESC; behind a
      longer text the command goes on. */
  lemma CommandEndedByBackslash(device: int, p: Parser, digits: seq<Byte>, text: seq<Byte>)
    requires Consistent(p) && p.mode == Plain && AllDigits(digits) && digits != [] && Harmless(text)
    ensures var r := Process(device, p, [ESC, ']' as int] + digits + [';' as int] + text + [ESC, '\\' as int]);
            && (r.0.mode == Plain <==> |text| < TEXT_SIZE - 1)
            && (|text| < TEXT_SIZE - 1 ==>
                  && r.0.shifted == p.shifted
                  && r.1 == [Sequence(device, ']' as int, 0, p.suffix, [Value(digits)], Widened(text))])
            && (|text| >= TEXT_SIZE - 1 ==> r.1 == [] && r.0.mode == CommandText)
  {
    hide Process, Next, Value, Kept, Consistent;
    var start := [ESC, ']' as int] + digits + [';' as int];
    var end := [ESC, '\\' as int];
    var none: seq<Out> := [];
    CommandStarts(device, p, digits);
    var q := Process(device, p, start).0;
    var full := q.(text := Kept(Widened(text)));
    TextAccumulates(device, q, text);
    ProcessResumes(device, p, start, text);
    ProcessResumes(device, p, start + text, end);
    assert none + none == none;
    assert Process(device, p, start + text) == (full, none);
    KeptWhole(text);
    BackslashRead(device, full);
    assert [Value(digits), 0][..1] == [Value(digits)];
  }

  lemma KeptWhole(text: seq<Byte>)
    requires Harmless(text)
    ensures Kept(Widened(text)) == [] || Kept(Widened(text))[|Kept(Widened(text))| - 1] != ESC
    ensures |text| < TEXT_SIZE - 1 ==> Kept(Widened(text)) == Widened(text)
    ensures |Kept(Widened(text))| < TEXT_SIZE - 1 <==> |text| < TEXT_SIZE - 1
  {
  }

  /** ESC is stored like text, if there is room. */
  lemma EscapeStored(device: int, p: Parser)
    requires Consistent(p) && p.mode == CommandText
    ensures Next(device, p, ESC) == (if |p.text| < TEXT_SIZE - 1 then p.(text := p.text + [ESC]) else p, [])
  {
  }

  /** A backslash ends the command if an ESC was stored before it. */
  lemma BackslashEnds(device: int, p: Parser)
    requires Consistent(p) && p.mode == CommandText && (p.text == [] || p.text[|p.text| - 1] != ESC)
    ensures |p.text| < TEXT_SIZE - 1 ==>
              && Consistent(p.(text := p.text + [ESC]))
              && Next(device, p.(text := p.text + [ESC]), '\\' as int)
                 == (p.(mode := Plain),
                     [Sequence(device, p.prefix, p.prefix2, p.suffix, p.args[..|p.args| - 1], p.text)])
    ensures |p.text| >= TEXT_SIZE - 1 ==> Next(device, p, '\\' as int) == (p, [])
  {
    assert (p.text + [ESC])[..|p.text|] == p.text;
  }

  /** ESC backslash after a text without ESC. */
  lemma BackslashRead(device: int, p: Parser)
    requires Consistent(p) && p.mode == CommandText && (p.text == [] || p.text[|p.text| - 1] != ESC)
    ensures Process(device, p, [ESC, '\\' as int])
            == if |p.text| < TEXT_SIZE - 1
               then (p.(mode := Plain),
                     [Sequence(device, p.prefix, p.prefix2, p.suffix, p.args[..|p.args| - 1], p.text)])
               else (p, [])
  {
    var done := Sequence(device, p.prefix, p.prefix2, p.suffix, p.args[..|p.args| - 1], p.text);
    var q := if |p.text| < TEXT_SIZE - 1 then p.(text := p.text + [ESC]) else p;
    var r := if |p.text| < TEXT_SIZE - 1 then (p.(mode := Plain), [done]) else (p, []);
    EscapeStored(device, p);
    BackslashEnds(device, p);
    assert [] + r.1 == r.1;
    hide Next, Process;
    ProcessOne(device, p, ESC);
    ProcessOne(device, q, '\\' as int);
    ProcessResumes(device, p, [ESC], ['\\' as int]);
    assert [ESC] + ['\\' as int] == [ESC, '\\' as int];
  }
}
