/** One software breakpoint: the byte under it is saved and replaced by `int3`, through
    reads and writes of whole 8-byte words. */
module Breakpoints {
  import opened Bits
  import opened Machine
  import opened Patching
  import opened Ptrace

  class Breakpoint {
    const tracee: Tracee
    const addr: Word
    var data: Byte
    var enabled: bool

    constructor (tracee: Tracee, addr: Word)
      ensures this.tracee == tracee && this.addr == addr && !enabled && data == 0
    {
      this.tracee := tracee;
      this.addr := addr;
      this.data := 0;
      this.enabled := false;
    }

    /** Saves the byte at the address, whatever it is, and plants `int3`. */
    method Enable()
      modifies this, tracee`mem
      ensures enabled && data == old(tracee.mem)[addr]
      ensures tracee.mem == old(tracee.mem)[addr := INT3]
    {
      hide And, Or, LoadWord, StoreWord;
      var word := tracee.Peek(addr);
      assert word % 0x100 == tracee.mem[addr] by { WordLowByte(tracee.mem, addr); }
      LowByte(word);
      data := And(word, 0xff);
      SpliceLowByte(word, INT3);
      var updated := Or(And(word, WORD - 0x100), INT3);
      WordPoke(tracee.mem, addr, INT3);
      tracee.Poke(addr, updated);
      enabled := true;
    }

    /** Puts the saved byte back. */
    method Disable()
      modifies this`enabled, tracee`mem
      ensures !enabled
      ensures tracee.mem == old(tracee.mem)[addr := data]
    {
      hide And, Or, LoadWord, StoreWord;
      var word := tracee.Peek(addr);
      SpliceLowByte(word, data);
      var restored := Or(And(word, WORD - 0x100), data);
      WordPoke(tracee.mem, addr, data);
      tracee.Poke(addr, restored);
      enabled := false;
    }
  }

  lemma WordLowByte(m: Memory, a: Word)
    ensures LoadWord(m, a) % 0x100 == m[a]
  {
    LoadFirst(m, a, 8);
  }

  lemma WordPoke(m: Memory, a: Word, b: Byte)
    ensures var w := LoadWord(m, a); StoreWord(m, a, w - w % 0x100 + b) == m[a := b]
  {
    hide Load, Store;
    PokeOneByte(m, a, 8, b);
  }
}
