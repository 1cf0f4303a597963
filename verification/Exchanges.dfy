/** Pairs of commands, and what the second one tells the debugger about the first. */
module Exchanges {
  import opened Bytes
  import opened Memory
  import opened MemoryAccess
  import opened Registers
  import opened Text
  import opened Packets
  import opened Commands
  import opened MemoryCommands
  import opened Effects
  import PageWalkX64
  import PageWalkAArch64
  import PageAccessX64
  import PageAccessAArch64

  const WRITE: seq<Byte> := ['M' as int]
  const READ: seq<Byte> := ['m' as int]

  /** `M addr,len:hex` answered OK, then `m addr,len`: the reply is the same
      digits in lower case if and only if no page is refused by then, unless a
      call of the attribute protocol fails; where refusal depends on attributes,
      none is. The range holds the bytes sent, and nothing else of the target
      differs from before. */
  lemma MemoryRoundTrip(c: Config, t: Target, t1: Target, t2: Target, addr: seq<Byte>, len: seq<Byte>, hex: seq<Byte>,
                        first: Mishaps, second: Mishaps, sent: seq<seq<Byte>>)
    requires Fitting(c, t) && Fitting(c, t1)
    requires AllHex(addr) && AllHex(len) && AllHex(hex)
    requires Positional(addr) < SPACE && Positional(len) < SPACE / 2 && |hex| == 2 * Positional(len)
    requires !Faked(c.workarounds, Positional(addr)) && !first.unrestored && !second.unrestored
    requires Effect(c, t, t1, WRITE + (addr + [COMMA] + len + [COLON] + hex), first, [OK])
    requires Effect(c, t1, t2, READ + (addr + [COMMA] + len), second, sent)
    ensures t2 == t1.(failed := t2.failed)
    ensures var mem' := Patch(t.state.memory, Positional(addr), Decode(hex));
            t1 == t.(state := t.state.(memory := mem'), failed := t1.failed)
    ensures |sent| == 1 && sent[0] in {Lower(hex), ErrorReply(GDB_ERROR_BAD_MEM_ADDRESS)}
    ensures var data := Blank(Positional(len));
            var blocked := c.machine.Blocked(t1.state.memory, t1.attributes, Positional(addr), data, false);
            && (c.machine.phase != Dxe(false) ==> !blocked)
            && (sent[0] == Lower(hex) ==> !blocked) && (!blocked && !second.denied ==> sent[0] == Lower(hex))
  {
    hide Outcome, Lower, Decode, Slice, Patch, ParseMemory, Positional, AllHex, Faked, Machine.Blocked;
    var write, read := addr + [COMMA] + len + [COLON] + hex, addr + [COMMA] + len;
    LetterOf(WRITE, write);
    LetterOf(READ, read);
    SpelledWriteThenRead(c.machine, t.attributes, first.denied, second.denied, t.state.memory, t1.state.memory,
                         t2.state.memory, addr, len, hex, c.workarounds, sent[0]);
    WrittenWhole(c.machine, t.attributes, first.denied, t.state.memory, t1.state.memory, addr, len, hex, c.workarounds);
  }

  /** With live page tables to go by, a range that keeps off them is written if
      each page could be written before, and then reads back if and only if each
      could be read before. */
  lemma MemoryRoundTripByTables(c: Config, t: Target, t1: Target, t2: Target, addr: seq<Byte>, len: seq<Byte>,
                                hex: seq<Byte>, first: Mishaps, second: Mishaps, sent: seq<seq<Byte>>)
    requires Fitting(c, t) && Fitting(c, t1) && c.machine.phase == Dxe(false)
    requires AllHex(addr) && AllHex(len) && AllHex(hex)
    requires Positional(addr) < SPACE && Positional(len) < SPACE / 2 && |hex| == 2 * Positional(len)
    requires c.machine.OffTables(t.state.memory, Positional(addr), Positional(len))
    requires !Faked(c.workarounds, Positional(addr)) && !first.unrestored && !second.unrestored && !second.denied
    requires Effect(c, t, t1, WRITE + (addr + [COMMA] + len + [COLON] + hex), first, [OK])
    requires Effect(c, t1, t2, READ + (addr + [COMMA] + len), second, sent)
    ensures forall i :: StartsPage(Positional(addr), Positional(len), i) ==>
              c.machine.canWrite(t.state.memory, At(Positional(addr), i))
    ensures |sent| == 1
    ensures sent[0] == Lower(hex) <==>
            forall i :: StartsPage(Positional(addr), Positional(len), i) ==>
              c.machine.canRead(t.state.memory, At(Positional(addr), i))
  {
    hide Outcome, Lower, Decode, Slice, Patch, ParseMemory, Positional, AllHex, Faked, At;
    hide Machine.Blocked, Machine.OffTables;
    var write := addr + [COMMA] + len + [COLON] + hex;
    MemoryRoundTrip(c, t, t1, t2, addr, len, hex, first, second, sent);
    LetterOf(WRITE, write);
    WrittenWhole(c.machine, t.attributes, first.denied, t.state.memory, t1.state.memory, addr, len, hex, c.workarounds);
    c.machine.TablesDecide(t.state.memory, t.attributes, Positional(addr), Decode(hex), Blank(Positional(len)));
  }

  /** Under the X64 walk, a range that keeps off the tables that map it always
      reads back: what is writable is readable. */
  lemma MemoryRoundTripX64(c: Config, t: Target, t1: Target, t2: Target, addr: seq<Byte>, len: seq<Byte>,
                           hex: seq<Byte>, first: Mishaps, second: Mishaps, sent: seq<seq<Byte>>, cr3: nat, la57: bool)
    requires Fitting(c, t) && Fitting(c, t1) && PageAccessX64.Walks(c.machine, cr3, la57)
    requires AllHex(addr) && AllHex(len) && AllHex(hex)
    requires Positional(addr) < SPACE && Positional(len) < SPACE / 2 && |hex| == 2 * Positional(len)
    requires PageAccessX64.OffEntries(t.state.memory, cr3, la57, Positional(addr), Positional(len))
    requires !Faked(c.workarounds, Positional(addr)) && !first.unrestored && !second.unrestored && !second.denied
    requires Effect(c, t, t1, WRITE + (addr + [COMMA] + len + [COLON] + hex), first, [OK])
    requires Effect(c, t1, t2, READ + (addr + [COMMA] + len), second, sent)
    ensures sent == [Lower(hex)]
  {
    hide Effect, Lower, Positional, AllHex, Faked, PageAccessX64.OffEntries, Machine.OffTables, At;
    hide PageWalkX64.GetPageIs;
    PageAccessX64.OffEntriesOffTables(c.machine, cr3, la57, t.state.memory, Positional(addr), Positional(len));
    MemoryRoundTripByTables(c, t, t1, t2, addr, len, hex, first, second, sent);
  }

  /** Under the AArch64 lookup such a range reads back if and only if the access
      flag is set in the leaf of every page: the write does not ask for it. */
  lemma MemoryRoundTripAArch64(c: Config, t: Target, t1: Target, t2: Target, addr: seq<Byte>, len: seq<Byte>,
                               hex: seq<Byte>, first: Mishaps, second: Mishaps, sent: seq<seq<Byte>>,
                               ttbr0: Address, t0sz: nat)
    requires ttbr0 <= PageWalkAArch64.TWO48 && PageWalkAArch64.MIN_T0SZ <= t0sz <= PageWalkAArch64.MAX_T0SZ
    requires Fitting(c, t) && Fitting(c, t1) && PageAccessAArch64.Walks(c.machine, ttbr0, t0sz)
    requires AllHex(addr) && AllHex(len) && AllHex(hex)
    requires Positional(addr) < SPACE && Positional(len) < SPACE / 2 && |hex| == 2 * Positional(len)
    requires PageAccessAArch64.OffEntries(t.state.memory, ttbr0, t0sz, Positional(addr), Positional(len))
    requires !Faked(c.workarounds, Positional(addr)) && !first.unrestored && !second.unrestored && !second.denied
    requires Effect(c, t, t1, WRITE + (addr + [COMMA] + len + [COLON] + hex), first, [OK])
    requires Effect(c, t1, t2, READ + (addr + [COMMA] + len), second, sent)
    ensures |sent| == 1
    ensures sent[0] == Lower(hex) <==>
            forall i :: StartsPage(Positional(addr), Positional(len), i) ==>
              PageAccessAArch64.Accessed(t.state.memory, ttbr0, t0sz, At(Positional(addr), i))
  {
    hide Effect, Lower, Positional, AllHex, Faked, PageAccessAArch64.OffEntries, Machine.OffTables, At;
    hide PageWalkAArch64.CheckPageAccess, PageAccessAArch64.Accessed;
    PageAccessAArch64.OffEntriesOffTables(c.machine, ttbr0, t0sz, t.state.memory, Positional(addr), Positional(len));
    MemoryRoundTripByTables(c, t, t1, t2, addr, len, hex, first, second, sent);
    forall i | StartsPage(Positional(addr), Positional(len), i)
      ensures c.machine.canRead(t.state.memory, At(Positional(addr), i))
              <==> PageAccessAArch64.Accessed(t.state.memory, ttbr0, t0sz, At(Positional(addr), i))
    {
      PageAccessAArch64.WritableReads(t.state.memory, ttbr0, t0sz, At(Positional(addr), i));
    }
  }

  lemma LetterOf(letter: seq<Byte>, args: seq<Byte>)
    requires |letter| == 1
    ensures Letter(letter + args) == letter[0] && Args(letter + args) == args
  {
  }

  /** A spelled write answered OK put in all of its bytes. */
  lemma WrittenWhole(machine: Machine, attrs: seq<Attributes>, denied: bool, mem: seq<Byte>, mem': seq<Byte>,
                     addr: seq<Byte>, len: seq<Byte>, hex: seq<Byte>, workarounds: bool)
    requires Whole(mem) && Paged(attrs) && AllHex(addr) && AllHex(len) && AllHex(hex)
    requires Positional(addr) < SPACE && Positional(len) < SPACE / 2 && |hex| == 2 * Positional(len)
    requires Outcome(machine, attrs, denied, mem, mem', addr + [COMMA] + len + [COLON] + hex, true, workarounds, OK)
    ensures mem' == Patch(mem, Positional(addr), Decode(hex))
    ensures !machine.Blocked(mem, attrs, Positional(addr), Decode(hex), true)
  {
    hide ParseMemory, Patch, Decode, Positional, Machine.Refuses, Machine.Blocked;
    ParseSpelled(addr, len, hex);
    NotOk();
  }

  /** `g`, then `G` with its reply: answered OK, and the target is as it was. */
  lemma RegistersWrittenBack(c: Config, t: Target, t1: Target, t2: Target, first: Mishaps, second: Mishaps,
                             read: seq<seq<Byte>>, sent: seq<seq<Byte>>)
    requires Fitting(c, t) && Fitting(c, t1) && Disjoint(c.registers) && AbsentLast(c.registers)
    requires Effect(c, t, t1, ['g' as int], first, read)
    requires |read| == 1 && Effect(c, t1, t2, ['G' as int] + read[0], second, sent)
    ensures sent == [OK] && t2 == t
  {
    hide ReadAll, WriteAll, Disjoint, AbsentLast, CString, Find;
    LetterOf(['G' as int], read[0]);
    WriteBackReadAll(t.context, c.registers);
    ReadAllIsHex(t.context, c.registers);
    HexIsString(read[0]);
  }

  lemma HexIsString(h: seq<Byte>)
    requires AllHex(h)
    ensures CString(h) == h
  {
    HexBefore(h, NUL, []);
  }

  /** `G` with digits for every register, then `g`: the digits of the present
      registers in lower case, then zeros. */
  lemma RegistersReadBack(c: Config, t: Target, t1: Target, t2: Target, h: seq<Byte>, first: Mishaps, second: Mishaps,
                          sent: seq<seq<Byte>>, read: seq<seq<Byte>>)
    requires Fitting(c, t) && Fitting(c, t1) && Disjoint(c.registers) && AbsentLast(c.registers)
    requires |h| == Digits(c.registers) && AllHex(h)
    requires Effect(c, t, t1, ['G' as int] + h, first, sent)
    requires Effect(c, t1, t2, ['g' as int], second, read)
    ensures sent == [OK] && t1 == t.(context := t1.context) && t2 == t1 && PresentDigits(c.registers) <= |h|
    ensures read == [Lower(h[..PresentDigits(c.registers)]) + Zeros(|h| - PresentDigits(c.registers))]
  {
    hide ReadAll, WriteAll, Disjoint, AbsentLast, CString, Find, Digits, PresentDigits, Lower, Zeros, AllHex;
    LetterOf(['G' as int], h);
    HexIsString(h);
    ReadBackWriteAll(t.context, c.registers, h);
  }

  // --------------------------------------------------- P index=value, p index

  const WRITE_REGISTER: seq<Byte> := ['P' as int]
  const READ_REGISTER: seq<Byte> := ['p' as int]

  /** `P i=h` with digits enough is answered OK; then `p i` answers with them in
      lower case, or with zeros if the register is absent. No byte of the
      context outside the register changes, and nothing else of the target. */
  lemma RegisterRoundTrip(c: Config, t: Target, t1: Target, t2: Target, index: seq<Byte>, h: seq<Byte>,
                          first: Mishaps, second: Mishaps, sent: seq<seq<Byte>>, read: seq<seq<Byte>>)
    requires Fitting(c, t) && Fitting(c, t1) && AllHex(index) && AllHex(h)
    requires Positional(index) < SPACE && Positional(index) < |c.registers|
    requires |h| >= 2 * c.registers[Positional(index)].size
    requires Effect(c, t, t1, WRITE_REGISTER + (index + [EQUALS] + h), first, sent)
    requires Effect(c, t1, t2, READ_REGISTER + index, second, read)
    ensures sent == [OK] && t1 == t.(context := t1.context) && t2 == t1 && |t1.context| == |t.context|
    ensures var r := c.registers[Positional(index)];
            && read == [if Present(r) then Lower(h[..2 * r.size]) else Zeros(2 * r.size)]
            && (Present(r) ==> r.offset + r.size <= |t.context|
                               && t1.context[r.offset..r.offset + r.size] == Decode(h[..2 * r.size]))
            && forall x :: 0 <= x < |t.context| && !(Present(r) && r.offset <= x < r.offset + r.size) ==>
                 t1.context[x] == t.context[x]
  {
    hide Positional, AllHex, Lower, Zeros, Decode, ParseHex, Find, CString, WriteOne, ReadOne, Fits, Present;
    var k := Positional(index);
    LetterOf(WRITE_REGISTER, index + [EQUALS] + h);
    LetterOf(READ_REGISTER, index);
    IndexSpelled(index, h);
    RegisterFits(c.registers, |t.context|, k);
    assert t1.context == WriteOne(t.context, c.registers[k], h);
    WriteThenReadOne(t.context, c.registers[k], h);
  }

  /** The text of a `P` and of a `p` command, and the index in them. */
  lemma IndexSpelled(index: seq<Byte>, h: seq<Byte>)
    requires AllHex(index) && AllHex(h)
    ensures var text := index + [EQUALS] + h;
            && CString(text) == text && Find(text, EQUALS) == |index| < |text|
            && text[..|index|] == index && text[|index| + 1..] == h
    ensures CString(index) == index
    ensures ParseHex(index) == if Positional(index) < SPACE then Positional(index) else SPACE - 1
  {
    hide Positional, ParseHex;
    var text := index + [EQUALS] + h;
    FindUnique(text, NUL, |text|);
    HexBefore(index, EQUALS, h);
    ParseHexSpelled(index);
  }

  lemma WriteThenReadOne(context: seq<Byte>, r: Register, h: seq<Byte>)
    requires Present(r) ==> r.offset + r.size <= |context|
    requires AllHex(h) && 2 * r.size <= |h|
    ensures var context' := WriteOne(context, r, h);
            && ReadOne(context', r) == (if Present(r) then Lower(h[..2 * r.size]) else Zeros(2 * r.size))
            && (Present(r) ==> context'[r.offset..r.offset + r.size] == Decode(h[..2 * r.size]))
            && forall x :: 0 <= x < |context| && !(Present(r) && r.offset <= x < r.offset + r.size) ==>
                 context'[x] == context[x]
  {
    hide Lower, Decode, Encode;
    if Present(r) {
      var digits := h[..2 * r.size];
      assert AllHex(digits) by { DigitsAreHex(h, 2 * r.size); }
      EncodeDecode(digits);
      OverwriteAt(context, r.offset, Decode(digits));
    }
  }

  /** A `P` that names no register, gives too few digits or has no `=`, and a `p`
      that names no register, are answered with their errors and change nothing. */
  lemma RegisterErrors(c: Config, t: Target, t': Target, text: seq<Byte>, index: seq<Byte>, h: seq<Byte>,
                       mishaps: Mishaps, sent: seq<seq<Byte>>)
    requires Fitting(c, t) && AllHex(index) && AllHex(h) && |c.registers| < SPACE
    ensures Effect(c, t, t', WRITE_REGISTER + text, mishaps, sent) && EQUALS !in CString(text) ==>
              t' == t && sent == [ErrorReply(GDB_ERROR_BAD_REQUEST)]
    ensures Effect(c, t, t', WRITE_REGISTER + (index + [EQUALS] + h), mishaps, sent)
            && Positional(index) >= |c.registers| ==>
              t' == t && sent == [ErrorReply(GDB_ERROR_BAD_REG_INDEX)]
    ensures Effect(c, t, t', WRITE_REGISTER + (index + [EQUALS] + h), mishaps, sent)
            && Positional(index) < |c.registers| && |h| < 2 * c.registers[Positional(index)].size ==>
              t' == t && sent == [ErrorReply(GDB_ERROR_INTERNAL)]
    ensures Effect(c, t, t', READ_REGISTER + index, mishaps, sent) && Positional(index) >= |c.registers| ==>
              t' == t && sent == [ErrorReply(GDB_ERROR_BAD_REG_INDEX)]
  {
    hide Positional, AllHex, ParseHex, Find, CString, WriteOne, ReadOne, Fits, Present;
    LetterOf(WRITE_REGISTER, text);
    LetterOf(WRITE_REGISTER, index + [EQUALS] + h);
    LetterOf(READ_REGISTER, index);
    IndexSpelled(index, h);
    FindNowhere(CString(text), EQUALS);
  }

  lemma FindNowhere(s: seq<Byte>, b: Byte)
    ensures b !in s ==> Find(s, b) == |s|
  {
  }
}
