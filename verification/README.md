# Proofs about the debugger and its support code

The repository is a small ptrace debugger for x86-64 Linux together with the libraries it
carries: the linenoise line editor, libelfin's DWARF and ELF readers, and libelfin's
code generator for enums. This project models the parts in which something can go subtly
wrong, one Dafny module per component, and proves what they promise.

**Breakpoints and stepping** (`Machine`, `Patching`, `Ptrace`, `Breakpoints`, `DebugInfo`,
`Frames`, `Debuggers`). The tracee is a byte-coded fragment of x86-64 with its real encodings,
1 to 10 bytes long, over a memory of 2^64 bytes, behind the four ptrace requests the debugger
issues. `Machine.Step` knows nothing of breakpoints. The debugger is a class with the source's
map from address to breakpoint. Its *view* of the process is the registers and the memory with
the patches undone. The main theorem, `Debugger.RunScript`, is a simulation: for every script of
`break`, `continue`, `stepinst`, `step`, `next` and `finish`, each command moves the view by the
number of native steps that its documented meaning prescribes, that number is the
*least* one at which the run is at a stop, and the text in memory is the original image with
0xcc at exactly the breakpoints set. A command that does not bring the prompt back is explained
too. The side conditions are few: the native run touches a breakable byte only as the opcode it
executes (`Tame`), new breakpoints go to free addresses, and where `next` or `finish` is typed,
and only there, the return address can be read. A native `int3` or illegal opcode needs no
exclusion: it is a native step that stays where it is.

**Call stacks** (`Frames`, `Debugger.PrintBacktrace`). A call stack is kept at every single
instruction, over any run and at any depth: through `call`, `push rbp`, `mov rbp, rsp`, function
bodies, `leave` or `pop rbp`, and `ret`, which link and unlink the rbp chain of section 3.2.2 of
the System V AMD64 ABI. What `backtrace` prints is related to that stack in each phase.

**The line editor** (`Utf8`, `Graphemes`, `Lines`, `Editors`, `Sessions`). The byte buffer, with
its cursor and NUL, refines a text of code points with a cursor, operation by operation and for
any sequence of keys, history browsing included. The character tables are arbitrary sets.

**Refreshing the screen** (`MultiLine`, `Terminal`, `Rows`, `SingleLine`, `Refresh`). Both
refreshes are run on a terminal with cells, which reads the bytes of prompt and text, delays its
wrap and wraps wide characters whole. The single-line window is the one that drops the fewest
leading and then the fewest trailing clusters. After either refresh the row, or the screen, holds
the characters of the prompt and of the text, each in its cell, and nothing else, whatever stood
there before.

**The console automaton** (`Ansi`, `Consoles`). A resumable parser with fixed arrays and a print
buffer, against an unbuffered interpreter.

**Numbers in files** (`Bits`, `ByteOrder`, `Dwarf`, `ElfData`), **the small vector**
(`SmallVectors`), and **the printers and parsers** (`ToHex`, `EnumPrint`, `EnumParser`,
`FlagText`).

Where the code does not keep a promise for every input, the project states exactly when it does:

- `addBreakpoint` on an address that already has an entry saves 0xcc as the original byte. It is
  invisible if and only if the address was free or its saved byte was 0xcc already
  (`Debugger.AddBreakpoint`).
- Ctrl-T swaps bytes. It swaps characters if and only if both neighbours are single bytes;
  otherwise the buffer no longer encodes any text (`LineState.SwapAround`).
- The column count of the multi-line refresh forgets to start a new row after a wide character
  that fills a two-column row. It is right if and only if the terminal has three columns or more,
  or has two and that does not happen (`MultiLine.LayoutExact`; `MultiLine.TwoColumnsFail` is the
  smallest failure).
- The multi-line refresh leaves the cursor one row too low for a text of combining characters
  alone after an empty prompt with the cursor behind it, and only then
  (`Screen.RefreshMultiLine`; `Refresh.InvisibleFails` is the smallest failure).
- The single-line refresh moves right by a count that may be 0, which terminals take for 1. The
  cursor reaches its column if and only if the terminal has one column, or there is a prompt, or
  the last character with width before the cursor leaves a column free beside it
  (`SingleLine.RefreshSingleLine`; `SingleLine.LeftEdgeFails` and `SingleLine.WideEdgeFails` are
  the smallest failures).
- Both refreshes need the cursor between two clusters. Every key keeps it there but two, and these
  exactly when: typing in front of a mark that leads the line, and Ctrl-T where the character
  behind the cursor is a mark afterwards (`Sessions.BoundaryKept`).
- The enum generator stops with an exception if and only if an `enum class` lies below a brace
  block that is not a class (`EnumParser.ReadHeader`; `EnumPrint.HiddenEnum` is the smallest such
  input).
- Setting a symbol's type ORs the bits above the fourth into its binding (`ElfData.TypeSet`).
- An operating system command ended by ESC backslash is recognised if and only if its text leaves
  room for the ESC (`Ansi.CommandEndedByBackslash`).
- A section header converted to another order and back is itself if and only if its link is not
  cut to the half-word of a native header (`ElfData.SectionRoundTrip`), and an ELF header means
  the same in a native header of the other class if and only if its addresses fit
  (`ElfData.ConvertedMeansFile`).
- `memory write` is the same write to the native memory if and only if it overwrites each patch it
  covers by the byte saved for it, and keeps the breakpoints planted if and only if it overwrites
  each by 0xcc (`Debugger.WriteMemory`).
- A read of patched memory shows the patches if and only if it covers one whose original byte was
  not 0xcc (`Patching.LoadBetrayed`).
- `backtrace` prints the trace of the call stack if and only if the frame of the current function
  is linked, or its caller would not be seen. After `call`, after `push rbp`, and between `leave`
  and `ret` the caller is missing, and below `main` the unwinding ends in an exception. The caller
  is not seen when the trace ends with the current function, or would end at the caller for want
  of debugging information with as little behind it, or when `main` has called itself and then the
  current function (`Debugger.PrintBacktrace`, `Frames.TraceShown`).
- Left and then right returns to where it started if and only if there is a base character before
  the cursor and no mark right after it, or no base character anywhere before the cursor and
  nothing after it (`Lines.LeftThenRight`); backspace undoes typing if and only if the character
  typed does not combine (`Lines.TypeThenBackspace`).
- `stepinst` looks up the line of the raw pc, without subtracting the load address
  (launch_exec.cpp:168). On code that has a line it shows that line, and ends as it should, if and
  only if the load address is 0; on a moved image every such step ends in an uncaught exception
  (`Debugger.StepInstByLoadAddress`).

## Model

| member | source | states |
|---|---|---|
| Debuggers.Debugger.RunScript | launch_exec.cpp:105-190 | Transparency over every script of execution commands: each command does to the native machine exactly what it is documented to do, the script ends early only on a command that is still waiting or ended in an exception, the count of native steps never decreases, the view at the end is the native machine after that many steps, the breakpoints are the old ones and those asked for, and the text is the original image with 0xcc at exactly those. |
| Debuggers.Debugger.RunCommand | launch_exec.cpp:123-190 | One command: the native steps taken and how it ends, for each command its own stopping rule; when the prompt comes back the view is the native machine after those steps and only `break` has changed the set of breakpoints. |
| Debuggers.Debugger.ContinueExecution | launch_exec.cpp:200-207 | `continue` ends at the least native step k >= 1 whose pc is a breakpoint (or which faults natively), pc wound back onto it, whether or not it began on a breakpoint: none is skipped or hit twice. |
| Debuggers.Debugger.EndDetermined | launch_exec.cpp:200-207 | Where a run that stops does so, and how, depends on the native machine alone: two waits of any patience agree, and one that gives up has not passed the stop. |
| Debuggers.ContinuedRun | launch_exec.cpp:255-288 | A run of the patched process up to its signal is the native run up to its first stop, and the kind of signal tells a breakpoint or native `int3` from an illegal opcode. |
| Debuggers.FirstStopJoins | launch_exec.cpp:200-207 | Stepping off the start and then running gives the first stop of the whole run, with no off-by-one on either side. |
| Debuggers.Debugger.StopOf | launch_exec.cpp:234-275 | A breakpoint trap shows the line at pc and ends in an exception exactly when there is none; other signals keep their meaning. |
| Debuggers.Debugger.WaitForSignal | launch_exec.cpp:234-275 | A breakpoint trap, and nothing else, moves pc back by one. |
| Debuggers.Debugger.StepBeneath | launch_exec.cpp:282-286 | Lifting the patch, single-stepping and planting it again is one native step, all other patches in place throughout, the saved byte the same. |
| Debuggers.Debugger.StepOverBreakpoint | launch_exec.cpp:277-288 | One native step if a breakpoint sits at pc, none otherwise; map and saved bytes unchanged. |
| Debuggers.Debugger.SingleStepInstruction | launch_exec.cpp:388-391 | One event of the patched machine, pc settled after a trap. |
| Debuggers.Debugger.SingleStepChecked | launch_exec.cpp:393-399 | Exactly one native instruction whether or not a breakpoint sits on it. |
| Debuggers.Debugger.StepInstruction | launch_exec.cpp:165-169 | `stepinst`: one native step, then a lookup at the raw pc, which fails exactly where no row covers it. |
| Debuggers.Debugger.StepInstByLoadAddress | launch_exec.cpp:165-169 | On code with a line, the line shown and the way `stepinst` ends are right if and only if the image was not moved; on a moved image it always ends the debugger. |
| Debuggers.Debugger.StepIn | launch_exec.cpp:429-438 | `step`, told by the rows of the table: from code that a row covers it stops after the least number of native steps after which no row of the same line covers pc; every earlier state is on the starting line, the last one on another, or on code that no row covers, which is an exception. |
| DebugInfo.LineAtIs | launch_exec.cpp:331-346 | The lookup gives a line exactly for an address on it, and nothing exactly for an address that no row covers; in an ordered table one row at most covers an address. |
| Debuggers.Debugger.ReadReturnAddress | launch_exec.cpp:402-405 | Read through the patched memory, the word above the saved frame pointer is the native one; with a call stack it is where the current function returns to if its frame is linked, and where its caller does otherwise. |
| Debuggers.ResumesAt | launch_exec.cpp:404-405 | In each phase of the current frame, whose return address the word above rbp is. |
| Debuggers.Debugger.StepOut | launch_exec.cpp:402-419 | `finish` runs to the first of the user's breakpoints and that address, which with a call stack is the return address of the current function if its frame is linked; it leaves the map and the saved bytes as they were, also when a breakpoint already stood there. |
| Debuggers.Debugger.PlantIfFree | launch_exec.cpp:466-469 | Plants and lists an address only if it is free; the list stays duplicate-free and removing it gives the user's map back. |
| Debuggers.Debugger.PlantRows | launch_exec.cpp:464-471 | The loop breaks on exactly the other rows of the function; the deletion list is duplicate-free and disjoint from the user's keys even with repeated addresses. |
| Debuggers.Debugger.PlantStops | launch_exec.cpp:463-480 | The rows and the return address, with the same guarantees. |
| Debuggers.Debugger.RemoveAll | launch_exec.cpp:486-488 | Removing the list takes away exactly its entries and is invisible to the program. |
| Debuggers.Debugger.StepOver | launch_exec.cpp:449-490 | `next` stops at the first native state on another row of the function, the return address, a user breakpoint or a native fault. With an ordered table and functions that do not overlap this is said of the tables and the call stack alone: the rows behind the one that covers the function's start, below its end, at another address than the row of pc. Afterwards map and saved bytes equal those before. |
| DebugInfo.RowStopsAre | launch_exec.cpp:464-471 | In an ordered line table the stops are all later rows below the function's end at another address; repetitions add nothing. |
| Debuggers.Debugger.NextStopsAre | launch_exec.cpp:449-480 | Where `next` stops, without its loop and its lookups: whether it knows where it starts, and which addresses it breaks on, by the rows and functions of the debugging information. |
| Debuggers.Debugger.AddBreakpoint | launch_exec.cpp:209-216 | The entry saves the byte found and plants 0xcc there and nowhere else; invisible if and only if the address was free or held a saved 0xcc. |
| Debuggers.UndoPlanted | launch_exec.cpp:209-216 | The if-and-only-if behind it, for any memory and map. |
| Debuggers.Debugger.RemoveBreakpoint | launch_exec.cpp:421-426 | Removes one entry and restores its byte; the view is unchanged and so is every other entry, whatever the order of additions. |
| Debuggers.Debugger.WriteMemory | launch_exec.cpp:196-198 | A write anywhere: when it keeps the breakpoints planted, and when it is the same write to the native memory, both as an if-and-only-if on the patched bytes it covers. |
| Debuggers.WriteSeen | launch_exec.cpp:196-198 | The second of these, for any memory and saved bytes. |
| Debuggers.Debugger.CodeImage | launch_exec.cpp:209-216 | In every reachable state between commands, memory is the original text with 0xcc at exactly the keys, each saving the original byte. |
| Debuggers.Debugger.PrintBacktrace | launch_exec.cpp:547-567 | At any instruction of a process with a call stack, with or without debugging information for every function: terminates, prints the functions of the stack that the rbp chain shows, up to the first `main` or the last one known, and tells which; and this is the trace of the call stack if and only if the current frame is linked, or its caller would not be seen. |
| Debuggers.Debugger.Unwind | launch_exec.cpp:554-565 | The loop along a linked chain of any depth prints exactly the functions from the current one to the first `main`, and fails at the first without debugging information, or behind the last. |
| Breakpoints.Breakpoint.Enable | include/breakpoint.h:31-47 | Saves the byte at the address and changes that one byte to 0xcc, through reads and writes of eight. |
| Breakpoints.Breakpoint.Disable | include/breakpoint.h:49-61 | Puts the saved byte back and changes no other. |
| Patching.SpliceLowByte | include/breakpoint.h:40-55 | `(data & ~0xff) \| b` replaces the low byte of a 64-bit word. |
| Patching.PokeOneByte | include/breakpoint.h:34-43 | Writing back a word with another low byte changes one byte of memory, at every address and across neighbouring breakpoints. |
| Patching.DecodePatched | include/breakpoint.h:30-47 | An instruction with no patch on it decodes the same through the patched memory. |
| Patching.StepPatched | include/breakpoint.h:30-47 | A native step commutes with patching. |
| Patching.RunPatched | launch_exec.cpp:200-207 | A run of the patched machine without a fault is the native run seen through the patches and meets no breakpoint. |
| Patching.TextConstant | launch_exec.cpp:200-288 | Breakable text never changes over a tame run. |
| Patching.TameByInvariant | launch_exec.cpp:200-288 | A condition kept by every step that keeps each step off the text makes the whole infinite run tame. |
| Patching.LoopIsTame | launch_exec.cpp:200-288 | A program in an endless loop, with both its instructions breakable for ever. |
| Patching.LoadBetrayed | launch_exec.cpp:192-194 | A read shows the patches if and only if it covers one whose original byte is not 0xcc. |
| Machine.LoadOfStore | launch_exec.cpp:192-198 | A poke is read back, for every address, wrapping included. |
| Machine.StoreOfLoad | launch_exec.cpp:192-198 | Poking back what was peeked changes nothing. |
| Frames.RunsKeepStack | launch_exec.cpp:547-567 | Over any run of calls, prologues, bodies, epilogues and returns, of any depth, the machine keeps its call stack, with the phase of the current frame, after every single instruction. |
| Frames.MoveKeeps | launch_exec.cpp:547-567 | One such instruction, of any kind. |
| Frames.CallKeeps | launch_exec.cpp:557-565 | `call` pushes an activation that is not linked yet. |
| Frames.PushKeeps | launch_exec.cpp:557-565 | `push rbp` saves the caller's frame pointer and still does not link it. |
| Frames.LinkKeeps | launch_exec.cpp:557-565 | `mov rbp, rsp` links it. |
| Frames.UnlinkKeeps | launch_exec.cpp:557-565 | `leave`, or `pop rbp` on the own frame, unlinks it. |
| Frames.ReturnKeeps | launch_exec.cpp:557-565 | `ret` pops it. |
| Frames.BodyKeeps | launch_exec.cpp:557-565 | A function body that stores away from the saved words changes nothing on the stack. |
| Frames.ShownRepresented | launch_exec.cpp:554-565 | In every phase the rbp chain is that of some stack: the call stack if the frame is linked, otherwise the one in which the current function has taken its caller's place. |
| Frames.TraceShown | launch_exec.cpp:547-567 | The trace of what the chain shows is the trace of the call stack if and only if the frame is linked, or the caller would not be seen; told by the functions on the stack. |
| Frames.TraceIs | launch_exec.cpp:547-567 | A stack has exactly one trace: known functions, with `main` at most at the end, ending before only where a function is not known. |
| Frames.FunctionFound | launch_exec.cpp:309-329 | With disjoint ranges the lookup finds the function a pc belongs to. |
| Frames.FunctionLookup | launch_exec.cpp:309-329 | In the code of a function without debugging information it finds nothing. |
| Utf8.DecodeEncoded | linenoise/linenoise.hpp:1385-1419 | Decoding undoes encoding (section 3 of RFC 3629) for every scalar value, whatever follows. |
| Utf8.BoundariesAgree | linenoise/linenoise.hpp:1362-1381 | The lead byte announces the length, and exactly the other bytes look like continuations, so both scanners cut the same characters. |
| Utf8.EncodeInjective | linenoise/linenoise.hpp:1385-1419 | A buffer encodes at most one text. |
| Utf8.EncodePrefix | linenoise/linenoise.hpp:1385-1419 | A text starting with the bytes of another starts with it. |
| Graphemes.UnicodePrevUTF8CharLen | linenoise/linenoise.hpp:1362-1369 | Scanning back finds exactly the last character before the cursor. |
| Graphemes.UnicodeUTF8CharLen | linenoise/linenoise.hpp:1373-1381 | Scanning forward finds exactly the next one. |
| Graphemes.UnicodeGraphemeLen | linenoise/linenoise.hpp:1423-1440 | The bytes of the next character and all combining characters after it. |
| Graphemes.UnicodePrevGraphemeLen | linenoise/linenoise.hpp:1444-1460 | The bytes from the last base character on; 0 when there is none. |
| Graphemes.PieceScan | linenoise/linenoise.hpp:1462-1478 | The scanner recognises every whole terminal escape and takes no character for one. |
| Graphemes.IsAnsiEscape | linenoise/linenoise.hpp:1462-1478 | The loop finds the first final letter behind `ESC [`. |
| Graphemes.UnicodeColumnPos | linenoise/linenoise.hpp:1482-1505 | The sum of the widths of the characters; escapes count nothing. |
| Graphemes.ColumnsAdd | linenoise/linenoise.hpp:1482-1505 | Column width is additive over concatenation. |
| Lines.LeftThenRight | linenoise/linenoise.hpp:1994-2007 | Left then right returns to the same place, if and only if. |
| Lines.TypeThenBackspace | linenoise/linenoise.hpp:1967-2072 | Backspace undoes typing if and only if the character does not combine. |
| Lines.MovesKeepText | linenoise/linenoise.hpp:1994-2072 | Motions keep the text, and deletions remove exactly the cluster a motion would cross. |
| Lines.MovesEndOnBoundary | linenoise/linenoise.hpp:1994-2007 | Motions end on cluster boundaries. |
| Editors.LineState.EditInsert | linenoise/linenoise.hpp:1967-1991 | Inserts the character at the cursor of the encoded text; a full buffer is left alone. |
| Editors.LineState.EditMoveLeft | linenoise/linenoise.hpp:1994-1999 | One cluster to the left, the bytes unchanged. |
| Editors.LineState.EditMoveRight | linenoise/linenoise.hpp:2002-2007 | One cluster to the right. |
| Editors.LineState.EditMoveHome | linenoise/linenoise.hpp:2010-2015 | To the start. |
| Editors.LineState.EditMoveEnd | linenoise/linenoise.hpp:2018-2023 | To the end. |
| Editors.LineState.EditDelete | linenoise/linenoise.hpp:2052-2060 | Removes the cluster at the cursor. |
| Editors.LineState.EditBackspace | linenoise/linenoise.hpp:2063-2072 | Removes the cluster before the cursor. |
| Editors.LineState.EditDeletePrevWord | linenoise/linenoise.hpp:2076-2088 | Removes the spaces and then the word before the cursor, found by bytes, right for every encoded text. |
| Editors.TrimmedBytes | linenoise/linenoise.hpp:2076-2084 | Trimming bytes at 0x20 trims characters, since no other character contains that byte. |
| Editors.LineState.KillLine | linenoise/linenoise.hpp:2251-2255 | Empties the line. |
| Editors.LineState.KillToEnd | linenoise/linenoise.hpp:2256-2260 | Keeps exactly what is before the cursor. |
| Editors.LineState.SwapAround | linenoise/linenoise.hpp:2172-2180 | Swaps characters if and only if both neighbours are single bytes; otherwise no text has those bytes. |
| Editors.SwapBreaks | linenoise/linenoise.hpp:2172-2180 | The failing half, for every text. |
| Sessions.AddHistory | linenoise/linenoise.hpp:2348-2361 | Changes nothing for a line that repeats the last one, or if the list may hold none; adds any other at the end, and drops the oldest when full. |
| Sessions.AddAllKeepsLatest | linenoise/linenoise.hpp:2348-2361 | Any run of additions leaves the latest of the lines that did not repeat, within the maximum. |
| Sessions.DistinctAre | linenoise/linenoise.hpp:2348-2361 | Which lines do not repeat, in order: exactly those that differ from the line given just before. |
| Sessions.DistinctIsDistinct | linenoise/linenoise.hpp:2348-2361 | No line equals its predecessor. |
| Sessions.DistinctKeepsDistinct | linenoise/linenoise.hpp:2348-2361 | Lines that do not repeat are all kept. |
| Sessions.DistinctEndsWithLast | linenoise/linenoise.hpp:2348-2361 | The last line added is the last one there. |
| Sessions.Session.EditHistoryNext | linenoise/linenoise.hpp:2029-2048 | Stores the live line in its slot and shows the neighbour, cursor at its end; at either end of the list nothing moves; the stored history with the current slot replaced by the buffer is unchanged. |
| Sessions.BrowsingLosesNothing | linenoise/linenoise.hpp:2029-2048 | No run of up and down changes any slot the user sees. |
| Sessions.EditedNulFree | linenoise/linenoise.hpp:2029-2072 | No edit brings a NUL into a line, so storing it as a C string cuts nothing off. |
| Sessions.BoundaryKept | linenoise/linenoise.hpp:1967-2264 | For every key, when it ends between two clusters if it was pressed there: always, but for typing in front of a leading mark and Ctrl-T in front of a mark. |
| Sessions.Session.PressKey | linenoise/linenoise.hpp:2098-2277 | Every key, on the characters before and behind the cursor. Home and End keep the text and leave nothing on one side; Left and Right keep it and cross one cluster; Backspace and Delete drop that cluster; Ctrl-U empties the line, Ctrl-K what is behind the cursor, Ctrl-W the spaces and the word before it; Ctrl-T exchanges the characters around it; typing puts the character between the two sides. Up and Down show the older and the newer slot, with the cursor at its end; no other key touches another slot. |
| Sessions.Session.EditLoop | linenoise/linenoise.hpp:2098-2277 | Key by key, buffer, cursor and history are those of the abstract editor; after any run of up and down, the stored history with the current slot replaced by the buffer is as before: no edit is lost. |
| SingleLine.TrimFront | linenoise/linenoise.hpp:1851-1856 | Terminates with the cursor on the screen, having dropped the fewest leading clusters. |
| SingleLine.TrimBack | linenoise/linenoise.hpp:1857-1859 | Terminates with the text on the screen, having dropped the fewest trailing clusters. |
| SingleLine.RefreshSingleLine | linenoise/linenoise.hpp:1842-1874 | On the terminal that reads all the bytes sent: the row shows the prompt's own characters and the best window (whole clusters around the cursor, the text fits, no window drops fewer leading clusters, and none with as few drops fewer trailing ones), each in its column, and nothing else; a window that fills the row leaves the last column blank; the cursor stays on the row, and reaches its column under a condition on the text, the prompt and the terminal, if and only if. |
| SingleLine.ReachedByWindow | linenoise/linenoise.hpp:1851-1872 | That condition on the input is the one on the window that the loop finds. |
| SingleLine.LeftEdgeFails | linenoise/linenoise.hpp:1870-1872 | At the left edge after an empty prompt the cursor ends one column too far. |
| SingleLine.WideEdgeFails | linenoise/linenoise.hpp:1851-1872 | So it does on two columns behind a wide character, which is trimmed away. |
| Rows.PutOnRow | linenoise/linenoise.hpp:1864-1867 | Text that fits the row does not wrap. |
| Rows.PutRowStands | linenoise/linenoise.hpp:1864-1867 | Every character with width of such a text stands in its column. |
| Rows.PutRowTaken | linenoise/linenoise.hpp:1864-1867 | Nothing else is left between its ends. |
| SingleLine.WindowShown | linenoise/linenoise.hpp:1862-1870 | Printing prompt and window over whatever the row held, and erasing to the right, leaves just their characters. |
| SingleLine.BestIsUnique | linenoise/linenoise.hpp:1842-1874 | There is only one such window. |
| MultiLine.UnicodeColumnPosForMultiLine | linenoise/linenoise.hpp:1509-1543 | The loop computes the padded column count up to the cursor. |
| MultiLine.WalkIsCell | linenoise/linenoise.hpp:1509-1543 | On three columns or more that count is the terminal's own cell, for every text and cursor. |
| MultiLine.WalkOnTwoColumns | linenoise/linenoise.hpp:1509-1543 | On two columns it is, if and only if no wide character pushed to a new row is followed by one with width; otherwise it is too large. |
| MultiLine.LayoutExact | linenoise/linenoise.hpp:1509-1543 | Both together, for every width from two columns and every narrower prompt. |
| MultiLine.TwoColumnsFail | linenoise/linenoise.hpp:1509-1543 | A concrete text for which it is not. |
| Terminal.PutFollowsCells | linenoise/linenoise.hpp:1914-1916 | A terminal that delays its wrap ends a text on the cell of the layout. |
| Terminal.PutInks | linenoise/linenoise.hpp:1914-1916 | Every character with width is put into the cell of the layout, and no other cell changes. |
| Terminal.GlyphsOfPrompt | linenoise/linenoise.hpp:1864-1865 | What a terminal reads in the bytes of a prompt is its characters, in order, without the escapes. |
| Terminal.ScreenRows | linenoise/linenoise.hpp:1885-1894 | The rows with something on them are exactly the rows the layout counts. |
| Refresh.RowCount | linenoise/linenoise.hpp:1885 | The division in the refresh gives that number of rows. |
| Refresh.Screen.ClearRows | linenoise/linenoise.hpp:1896-1912 | From the remembered row, if the rows counted are all that hold something, the terminal ends at the top left of a blank screen. |
| Refresh.Screen.Draw | linenoise/linenoise.hpp:1914-1916 | Prompt and text, sent to a blank screen, are all that is on it, and the terminal ends on the cell behind them. |
| Refresh.Landing | linenoise/linenoise.hpp:1921-1938 | The row arithmetic after drawing reaches the cursor's row if and only if something is visible. |
| Refresh.Screen.RefreshMultiLine | linenoise/linenoise.hpp:1880-1953 | Afterwards the screen holds the characters of the prompt and of the text, each in its cell, and nothing else; the row count is the most rows any text has taken so far, the extra row included; the terminal's cursor is on the cell of the editor's cursor if and only if something is visible, and one row below it otherwise; and what the next refresh relies on holds again. |
| Refresh.InvisibleFails | linenoise/linenoise.hpp:1921-1930 | The refresh on a concrete text after which the cursor is one row below its cell. |
| Ansi.ProcessResumes | linenoise/linenoise.hpp:818-928 | Output cut anywhere, inside a sequence too, has the same effects and leaves the same parser. |
| Ansi.TextPrinted | linenoise/linenoise.hpp:831-837 | Text without ESC, SO and SI is printed byte by byte, bytes from 0x80 on as signed characters, 0x5F to 0x7E as line drawing if shifted. |
| Ansi.ShiftedText | linenoise/linenoise.hpp:831-837 | SO shifts the text up to the next SI, and nothing behind it. |
| Ansi.EscapeDropped | linenoise/linenoise.hpp:838-853 | ESC, repeated or not, with a byte that starts no sequence prints nothing; so does a character set selection. |
| Ansi.ArgumentsParsed | linenoise/linenoise.hpp:829-900 | Any argument list leaves the values of all arguments, or of the first fifteen and the last. |
| Ansi.ControlSequenceParsed | linenoise/linenoise.hpp:814-900 | A whole control sequence, with or without private prefixes, is interpreted once, with the last prefix, its final byte and those arguments, and nothing is printed. |
| Ansi.CommandEndedByBel | linenoise/linenoise.hpp:879-917 | A whole operating system command ended by BEL is interpreted once, with its number and its text cut at 519 bytes. |
| Ansi.CommandEndedByBackslash | linenoise/linenoise.hpp:901-917 | Ended by ESC backslash it is the same if and only if the text has at most 518 bytes; behind a longer text the command goes on. |
| Consoles.Console.PushBuffer | linenoise/linenoise.hpp:323-330 | One more character for the console, shifted to a line drawing character if asked, buffered or not. |
| Consoles.Console.FlushBuffer | linenoise/linenoise.hpp:310-316 | Flushing changes nothing of what the console is told. |
| Consoles.Console.InCommandText | linenoise/linenoise.hpp:901-917 | The text of an operating system command up to BEL or ESC backslash, cut at its fixed size. |
| Consoles.Console.ProcessByte | linenoise/linenoise.hpp:829-917 | In every state one byte does what the unbuffered interpreter says; all indices stay in bounds. |
| Consoles.Console.ParseAndPrintANSIString | linenoise/linenoise.hpp:818-928 | For all input the console is told exactly what the unbuffered interpreter says, in order, with nothing left in the buffer; changing the device starts in plain text. |
| Dwarf.Cursor.Ensure | dwarf/internal.hh:122-127 | Fails exactly when fewer bytes are left, and at the end even for none. |
| Dwarf.Cursor.Fixed | dwarf/internal.hh:129-145 | The OR-and-shift loop gives the positional sum in the section's order and advances past it; too few bytes move nothing. |
| ByteOrder.PositionalMore | dwarf/internal.hh:129-145 | What the positional sums are: in each order, how much one more byte counts. |
| Dwarf.AccumulateDigit | dwarf/internal.hh:152-158 | ORing in a shifted 7-bit group cut to 64 bits adds the next base-128 digit modulo 2^64, up to the tenth byte. |
| Dwarf.DigitsAppend | dwarf/internal.hh:152-158 | What the base-128 sum is: one more byte counts its low seven bits, 128 times as much as the byte before. |
| Dwarf.Cursor.Uleb128 | dwarf/internal.hh:147-162 | The base-128 sum modulo 2^64 of the bytes up to the first without a continuation bit, advancing exactly past it; without one, underflow. |
| Dwarf.UlebRoundTrip | dwarf/internal.hh:147-162 | Every 64-bit value in any number of bytes up to ten, padded or not, with anything behind it, reads back (section 7.6 of DWARF 4). |
| Dwarf.Cursor.Address | dwarf/internal.hh:164-178 | Reads 1, 2, 4 or 8 bytes; any other address size is an error that moves nothing. |
| ByteOrder.PositionalRoundTrip | dwarf/internal.hh:129-145 | Reading undoes writing in either order. |
| ByteOrder.BytesOfPositional | dwarf/internal.hh:129-145 | Writing undoes reading. |
| ByteOrder.TwoBytes | elf/common.hh:66-69 | The 16-bit mask-and-shift swap reverses the bytes. |
| ByteOrder.SwizzleSwaps | elf/common.hh:49-77 | Swizzling reverses the bytes exactly when the resolved orders differ, at every width. |
| ByteOrder.LoadThenSwizzle | elf/common.hh:49-77 | Loading natively and swizzling from the file's order is reading in the file's order. |
| ByteOrder.SwizzleRoundTrip | elf/common.hh:49-77 | Swizzling there and back is the identity. |
| ElfData.Ehdr.From | elf/data.hh:142-166 | Every field of the target is the source's, converted from its order and class to the target's. |
| ElfData.HeaderRoundTrip | elf/data.hh:142-166 | Converting a header to another order of its class and back is the identity on every field. |
| ElfData.ConvertedMeansFile | elf/data.hh:142-166 | A header image viewed natively and converted to a native header of either class holds the numbers the file means, with the low bytes of its addresses; all of them if and only if the addresses fit the class, as they always do towards the same or the wider class. |
| ElfData.Shdr.From | elf/data.hh:296-309 | Every field of the target is the source's, converted from its order and class to the target's; the link is cut to the target's link type. |
| ElfData.SectionMeansFile | elf/data.hh:275-309 | The same for section headers: the numbers the file means, with the low bytes of what is narrower; all of them if and only if the link fits a half-word and the rest its class. |
| ElfData.SectionRoundTrip | elf/data.hh:271-309 | Converting a section header to another order and back is the identity on every field if and only if the target is not native or the link fits a half-word. |
| ElfData.BindingSet | elf/data.hh:506-514 | The binding is the high half of the byte; setting it reads back and keeps the type. |
| ElfData.TypeSet | elf/data.hh:516-524 | The type is the low half; setting it reads back its low four bits; the bits above are ORed into the binding, which is kept for types of four bits. |
| SmallVectors.SmallVector.Move | dwarf/small_vector.hh:34-55 | The new vector has the old contents and the old one is empty; inline elements are copied, heap storage changes hands. |
| SmallVectors.SmallVector.Assign | dwarf/small_vector.hh:64-73 | The contents of the other vector, also on self-assignment. |
| SmallVectors.SmallVector.Reserve | dwarf/small_vector.hh:85-107 | Keeps the contents; the capacity is Min times a power of two, large enough and less than twice what was asked for. |
| SmallVectors.SmallVector.PushBack | dwarf/small_vector.hh:163-168 | Appends. |
| SmallVectors.SmallVector.PopBack | dwarf/small_vector.hh:177-181 | Drops the last. |
| SmallVectors.SmallVector.Clear | dwarf/small_vector.hh:183-188 | Empties and keeps the storage. |
| SmallVectors.SmallVector.RevAt | dwarf/small_vector.hh:133-136 | Counts from the back. |
| SmallVectors.SmallVector.PushAll | dwarf/small_vector.hh:163-168 | m pushes onto an empty vector move fewer than 2m elements. |
| ToHex.ToHexString | elf/to_hex.hh:11-32 | Base-16 parsing of the result gives the value, or its two's complement when negative; no leading zero; at most two digits a byte. |
| ToHex.DigitsAre | elf/to_hex.hh:22-25 | The digits are 0 to 9 and a to f. |
| EnumPrint.CollectedExactly | elf/enum-print.py:28-54 | With distinct names what is collected is exactly the map from every qualified name to its keys in order. |
| EnumPrint.DeclaredAre | elf/enum-print.py:28-54 | The names and keys of a tree are those of the enums that a path through nested classes leads to, joined along it. |
| EnumPrint.JoinedText | elf/enum-print.py:135-142 | A joined name is the text of its tokens. |
| EnumParser.Reader.DoQname | elf/enum-print.py:135-142 | Reads exactly a printed qualified name. |
| EnumParser.Reader.DoEnumBody | elf/enum-print.py:118-133 | Reads exactly a printed body, values and trailing comma or not, and stores its keys. |
| EnumParser.Reader.DoEnum | elf/enum-print.py:31-38 | Reads exactly a printed `enum class`, whatever stands before its body, and stops with an exception if and only if it is in a namespace without a name. |
| EnumParser.Reader.DoClass | elf/enum-print.py:39-47 | Reads exactly a class, its members in its namespace, or a forward declaration, unless an enum inside stops it. |
| EnumParser.Reader.DoBlock | elf/enum-print.py:48-50 | Reads exactly a brace block, collecting nothing, unless an enum inside stops it. |
| EnumParser.Reader.DoToString | elf/enum-print.py:56-63 | Reads exactly the type of a `to_string` declaration, and its argument if the type is a known enum. |
| EnumParser.Reader.DoTopLevel | elf/enum-print.py:28-68 | On any tokens it terminates; on the tokens of a tree, with classes, brace blocks, `to_string` declarations and loose tokens, it succeeds if and only if no `enum class` is in a namespace without a name, and then it collects the tree's enums and consumes them all, up to the closing brace of the namespace. |
| EnumParser.ReadHeader | elf/enum-print.py:163 | The whole script succeeds if and only if no `enum class` lies below a brace block, and with distinct names collects exactly the map from qualified names to keys. |
| EnumPrint.HiddenEnum | elf/enum-print.py:31-50 | The smallest tree on which it stops. |
| FlagText.ToStringMask | elf/enum-print.py:101-116 | In the generated code nothing is lost: the flags printed and the bits left over make up the value, and a remainder is reported exactly when some are left or nothing was printed. |
| FlagText.DisjointFlagsPrinted | elf/enum-print.py:101-116 | Flags without common bits are printed exactly when all their bits are in the value. |
| FlagText.PrintedInOrder | elf/enum-print.py:101-116 | And in the order of the keys, each once. |

## Left out

- Debuggers.Debugger.RunScript: `break` takes an address and must name a new one; `memory write` and `backtrace` are not commands of the script but have their own contracts, and the user interface commands (`register`, `symbol`, `variables`, source listing) would add only easy members.
- Debuggers.Debugger.ContinueExecution: a run that never stops has no end in the source; the model waits for `budget` steps and then reports `Running`. A failed line lookup is an uncaught exception in the source; the model reports `Threw`, and then the temporary breakpoints of `next` and `finish` stay planted, as in the source.
- Debuggers.Debugger.StepOver: debugging information is one line table and one list of functions; several compilation units, and how the rows are decoded from DWARF, are behind headers whose sources are not part of this model.
- Debuggers.Debugger.PrintBacktrace: functions set up a frame before anything else and keep rbp in their bodies; a chain that is broken is not modelled. A function is known to the debugging information with all its code or not at all, and the words read must hold no breakpoint.
- Machine.LoadOfStore: every address of the 2^64 is mapped, and a peek or poke never fails.
- Editors.LineState.EditInsert: the source tests for one free byte only, so the character must fit whenever one byte is free.
- Sessions.Session.EditLoop: key decoding, completion, Ctrl-D on an empty line, Enter, and the refresh calls inside the editing operations are not modelled; typed characters are not NUL, and Ctrl-T is pressed between single-byte characters.
- Sessions.AddHistory: `SetHistoryMaxLen` is left out; its `resize` keeps the oldest entries, unlike its comment (linenoise/linenoise.hpp:2371). The maximum length is fixed.
- SingleLine.RefreshSingleLine: the text holds no ESC; a line that does, from a stored history or a completion, is sent to the terminal as an escape, and no layout is claimed for it. Terminals differ on what erasing to the right of a waiting cursor takes away; here it takes the last column, on which such a cursor stands. Escapes in a prompt are taken to colour it: one that moves the cursor is read over like the others.
- SingleLine.TrimFront: no ESC in the text, as for the whole refresh.
- SingleLine.TrimBack: no ESC in the text, as for the whole refresh.
- Refresh.Screen.RefreshMultiLine: the terminal is unbounded below, the prompt fits one row, and the layout must be sound in the sense of `MultiLine.LayoutExact`. The source counts one column for an ESC in the text, and so does this terminal; what a real one makes of an escape in the text is not modelled.
- Consoles.Console.ParseAndPrintANSIString: what the Windows console does with a sequence is one logged effect that may overwrite the argument registers; arguments are unbounded integers, since their overflow has no meaning in C++.
- Dwarf.Cursor.Uleb128: a number longer than ten bytes shifts by 64 or more, which has no meaning in C++; the model requires that it ends, or the section does, within ten.
- SmallVectors.SmallVector.Reserve: elements are trivially copyable; the source destroys the new copy instead of the old element (dwarf/small_vector.hh:100), which matters for any other. Sizes do not overflow.
- SmallVectors.SmallVector.PushBack: the element is passed by value, so pushing an element of the vector itself is not modelled.
- ElfData.ConvertedMeansFile: a header made for a file of the other class is not claimed to mean the same, since the source swaps the bytes at the old width.
- ElfData.SectionMeansFile: the file has an order of its own; in a header type of native order the link is a half-word, and there is no file of that layout.
- ElfData.SectionRoundTrip: both headers have the same class. Program and symbol table entries convert field by field in the same way as the headers and would add only easy members.
- EnumParser.ReadHeader: splitting the text into tokens, and the C++ text printed for each enum, except what the bit-mask form of it computes.
- Fork, exec, wait, `personality`, `/proc`: foreign calls, behind the tracee of `Ptrace`.
- `set_bp_at_source_line` compares a row's address with the line number (launch_exec.cpp:515), so no claim is made that it finds the line; `set_bp_at_func` is a lookup followed by `AddBreakpoint`.
- `section::slice` clamps the length without regard to its start (dwarf/internal.hh:78); it is not used here.
- `include/registers.h`, `include/helper.h`, `include/symbol.h` and the enum constants of the ELF and DWARF headers: tables.
