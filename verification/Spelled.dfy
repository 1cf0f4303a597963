/** Single commands as the debugger spells them, and what they come to. */
module Spelled {
  import opened Bytes
  import opened Memory
  import opened MemoryAccess
  import opened Breakpoints
  import opened Contexts
  import opened Text
  import opened Packets
  import opened Commands
  import opened MemoryCommands
  import opened Effects
  import opened Exchanges
  import WatchSet
  import WatchpointsX64
  import WatchpointsAArch64

  // ------------------------------------------------------ resuming, stepping

  /** `vCont;c` changes nothing; `vCont;s` sets what makes the target stop after
      one instruction, and nothing else. Neither is answered. */
  lemma ContinueOrStep(c: Config, t: Target, t': Target, command: seq<Byte>, d: int, mishaps: Mishaps,
                       sent: seq<seq<Byte>>)
    requires Fitting(c, t) && Effect(c, t, t', command, mishaps, sent) && SpelledAt(command, d)
    ensures sent == []
    ensures command[2 + d] == 'c' as int ==> t' == t
    ensures command[2 + d] == 's' as int ==>
              && t' == t.(context := t'.context, mdscr := t'.mdscr) && IsContext(c.arch, t'.context)
              && StepFlag(c.arch, t'.context) && Pc(c.arch, t'.context) == Pc(c.arch, t.context)
              && (if c.arch.AArch64? then SoftwareStep(t'.mdscr) else t'.mdscr == t.mdscr)
  {
    hide SpelledAt, VActionOf, Pc, StepFlag, SteppedMdscr;
    assert Letter(command) == 'v' as int && command != [] by { SpelledIsV(command, d); }
    StepsIffSpelled(command);
    OneSpelling(command, d);
  }

  lemma SpelledIsV(command: seq<Byte>, d: int)
    requires SpelledAt(command, d)
    ensures command != [] && command[0] == 'v' as int && 0 <= d && 2 + d < |command|
  {
  }

  /** A command is spelled in at most one way. */
  lemma OneSpelling(command: seq<Byte>, d: int)
    requires SpelledAt(command, d)
    ensures forall e :: SpelledAt(command, e) ==> e == d
    ensures command[2 + d] == 'c' as int || command[2 + d] == 's' as int
  {
    hide IsContName;
    forall e | SpelledAt(command, e)
      ensures e == d
    {
      assert command[1 + e] == SEMICOLON && command[1 + d] == SEMICOLON;
    }
  }

  // ----------------------------------------------------- software breakpoints

  /** The arguments `kind,addr,len` of Z and z. */
  function BreakText(kind: seq<Byte>, addr: seq<Byte>, len: seq<Byte>): seq<Byte> {
    kind + [COMMA] + addr + [COMMA] + len
  }

  const INSERT: seq<Byte> := ['Z' as int]
  const LIFT: seq<Byte> := ['z' as int]

  /** Kind, address and length are hex digits, with values in range. */
  predicate Legible(kind: seq<Byte>, addr: seq<Byte>, len: seq<Byte>) {
    && AllHex(kind) && AllHex(addr) && AllHex(len)
    && Positional(kind) < SPACE && Positional(addr) < SPACE && Positional(len) < SPACE
  }

  /** `Z0,addr,len` on accessible memory: answered OK exactly if a breakpoint was
      planted there already or the table has room, and then one is planted at
      addr; else nothing changes. */
  lemma InsertBreakpoint(c: Config, t: Target, t': Target, kind: seq<Byte>, addr: seq<Byte>, len: seq<Byte>,
                         mishaps: Mishaps, sent: seq<seq<Byte>>, v: View)
    requires Fitting(c, t) && Represents(t.state, v, c.instr) && Legible(kind, addr, len) && Positional(kind) == 0
    requires Aligned(Positional(addr), |c.instr|)
    requires Effect(c, t, t', INSERT + BreakText(kind, addr, len), mishaps, sent) && !mishaps.Failed()
    ensures sent == [OK] <==> Positional(addr) in v.planted || |v.planted| < 64
    ensures sent == [OK] ==> Represents(t'.state, v.(planted := v.planted + {Positional(addr)}), c.instr)
    ensures sent != [OK] ==> sent == [ErrorReply(GDB_ERROR_INTERNAL)] && t'.state == t.state
    ensures t' == t.(state := t'.state, attributes := t'.attributes, failed := t'.failed)
  {
    hide ParseBreak, Positional, AllHex, Represents, Added, AddedWith, Alike, AddMishaps, AttributesEffect, AddSucceeds;
    LetterOf(INSERT, BreakText(kind, addr, len));
    BreakSpelled(kind, addr, len);
    AddRefines(t.state, v, c.instr, Positional(addr));
    assert |OK| == 2;
  }

  /** `z0,addr,len` on accessible memory: answered OK exactly if a breakpoint was
      planted there, and then it is lifted; else nothing changes. */
  lemma LiftBreakpoint(c: Config, t: Target, t': Target, kind: seq<Byte>, addr: seq<Byte>, len: seq<Byte>,
                       mishaps: Mishaps, sent: seq<seq<Byte>>, v: View)
    requires Fitting(c, t) && Represents(t.state, v, c.instr) && Legible(kind, addr, len) && Positional(kind) == 0
    requires Effect(c, t, t', LIFT + BreakText(kind, addr, len), mishaps, sent) && !mishaps.Failed()
    ensures sent == [OK] <==> Positional(addr) in v.planted
    ensures Represents(t'.state, v.(planted := v.planted - {Positional(addr)}), c.instr)
    ensures sent != [OK] ==> sent == [ErrorReply(GDB_ERROR_INTERNAL)] && t'.state == t.state
    ensures t' == t.(state := t'.state, attributes := t'.attributes, failed := t'.failed)
  {
    hide ParseBreak, Positional, AllHex, Represents, Alike, RemoveMishaps, AttributesEffect, FindActive;
    LetterOf(LIFT, BreakText(kind, addr, len));
    BreakSpelled(kind, addr, len);
    RemoveRefines(t.state, v, c.instr, Positional(addr));
    assert |OK| == 2;
  }

  /** A breakpoint command of an unknown kind, or with fewer than two commas, is
      refused and changes nothing. */
  lemma RefusedBreakpoint(c: Config, t: Target, t': Target, command: seq<Byte>, kind: seq<Byte>, addr: seq<Byte>,
                          len: seq<Byte>, mishaps: Mishaps, sent: seq<seq<Byte>>)
    requires Fitting(c, t) && Effect(c, t, t', command, mishaps, sent) && Legible(kind, addr, len)
    requires command != [] && command[0] in {'Z' as int, 'z' as int}
    ensures command[1..] == BreakText(kind, addr, len) && Positional(kind) !in {0, 2, 3, 4} ==>
              t' == t && sent == [ErrorReply(GDB_ERROR_UNSUPPORTED)]
    ensures var s := CString(command[1..]);
            (!exists i, j :: 0 <= i < j < |s| && s[i] == COMMA && s[j] == COMMA) ==>
              t' == t && sent == [ErrorReply(GDB_ERROR_BAD_REQUEST)]
  {
    hide ParseBreak, Positional, AllHex, CString, SoftwareEffect, WatchEffect, AddSucceeds, FindActive;
    BreakSpelled(kind, addr, len);
    BadBreakIff(command[1..]);
  }

  // ------------------------------------------------------ hardware watchpoints

  /** The key of a watchpoint in the registers of this architecture. */
  function WatchKey(arch: Arch, a: Address, length: Address, read: bool, write: bool): WatchSet.Key
    requires arch.AArch64? ==> length > 0
  {
    if arch.X64? then WatchpointsX64.KeyOf(a, length, read) else WatchpointsAArch64.KeyOf(a, length, read, write)
  }

  /** `Z2`, `Z3` and `Z4` put a watchpoint on writes, reads or both of the range
      into the slots, if it is there or a slot is free. */
  lemma InsertWatchpoint(c: Config, t: Target, t': Target, kind: seq<Byte>, addr: seq<Byte>, len: seq<Byte>,
                         mishaps: Mishaps, sent: seq<seq<Byte>>, held: set<WatchSet.Key>)
    requires Fitting(c, t) && HoldsSet(t.slots, held) && Legible(kind, addr, len) && Positional(kind) in {2, 3, 4}
    requires Effect(c, t, t', INSERT + BreakText(kind, addr, len), mishaps, sent)
    requires c.arch.AArch64? ==> Positional(len) > 0
    ensures var k := WatchKey(c.arch, Positional(addr), Positional(len), Positional(kind) != 2, Positional(kind) != 3);
            && (sent == [OK] <==> k in held || |held| < 4)
            && HoldsSet(t'.slots, if k in held || |held| < 4 then held + {k} else held)
    ensures sent != [OK] ==> sent == [ErrorReply(GDB_ERROR_INTERNAL)]
    ensures t' == t.(slots := t'.slots)
  {
    hide ParseBreak, Positional, AllHex, HoldsSet, WatchEffect, WatchpointsX64.KeyOf, WatchpointsAArch64.KeyOf;
    LetterOf(INSERT, BreakText(kind, addr, len));
    BreakSpelled(kind, addr, len);
    CommandKeepsSet(c, t, t', INSERT + BreakText(kind, addr, len), mishaps, sent, held);
    assert |OK| == 2;
  }

  /** `z2`, `z3` and `z4` take exactly that watchpoint out again, if it is there. */
  lemma LiftWatchpoint(c: Config, t: Target, t': Target, kind: seq<Byte>, addr: seq<Byte>, len: seq<Byte>,
                       mishaps: Mishaps, sent: seq<seq<Byte>>, held: set<WatchSet.Key>)
    requires Fitting(c, t) && HoldsSet(t.slots, held) && Legible(kind, addr, len) && Positional(kind) in {2, 3, 4}
    requires Effect(c, t, t', LIFT + BreakText(kind, addr, len), mishaps, sent)
    requires c.arch.AArch64? ==> Positional(len) > 0
    ensures var k := WatchKey(c.arch, Positional(addr), Positional(len), Positional(kind) != 2, Positional(kind) != 3);
            (sent == [OK] <==> k in held) && HoldsSet(t'.slots, held - {k})
    ensures sent != [OK] ==> sent == [ErrorReply(GDB_ERROR_INTERNAL)]
    ensures t' == t.(slots := t'.slots)
  {
    hide ParseBreak, Positional, AllHex, HoldsSet, WatchEffect, WatchpointsX64.KeyOf, WatchpointsAArch64.KeyOf;
    LetterOf(LIFT, BreakText(kind, addr, len));
    BreakSpelled(kind, addr, len);
    CommandKeepsSet(c, t, t', LIFT + BreakText(kind, addr, len), mishaps, sent, held);
    assert |OK| == 2;
  }

  /** On AArch64 a watchpoint of length 0 is refused. */
  lemma EmptyWatchpoint(c: Config, t: Target, t': Target, command: seq<Byte>, kind: seq<Byte>, addr: seq<Byte>,
                        len: seq<Byte>, mishaps: Mishaps, sent: seq<seq<Byte>>)
    requires Fitting(c, t) && Legible(kind, addr, len) && Positional(kind) in {2, 3, 4}
    requires c.arch.AArch64? && Positional(len) == 0
    requires command in {INSERT + BreakText(kind, addr, len), LIFT + BreakText(kind, addr, len)}
    requires Effect(c, t, t', command, mishaps, sent)
    ensures t' == t && sent == [ErrorReply(GDB_ERROR_INTERNAL)]
  {
    hide ParseBreak, Positional, AllHex;
    LetterOf(INSERT, BreakText(kind, addr, len));
    LetterOf(LIFT, BreakText(kind, addr, len));
    BreakSpelled(kind, addr, len);
  }

  // --------------------------------------------------------------- memory

  /** `m addr,len`: the bytes there in hex exactly if they are accessible, unless a
      call of the attribute protocol fails; zeros where Windbg is kept happy. */
  lemma ReadMemory(c: Config, t: Target, t': Target, addr: seq<Byte>, len: seq<Byte>, mishaps: Mishaps,
                   sent: seq<seq<Byte>>)
    requires Fitting(c, t) && AllHex(addr) && AllHex(len) && Positional(addr) < SPACE && Positional(len) < SPACE
    requires Effect(c, t, t', READ + (addr + [COMMA] + len), mishaps, sent) && !mishaps.denied
    ensures Whole(t.state.memory) && Paged(t.attributes) && t'.state == t.state && t'.context == t.context
    ensures var a, n := Positional(addr), Positional(len);
            var faked := c.workarounds && (a < 0x1000 || 0xffff_f780_0000_0000 <= a < 0xffff_f780_0000_1000);
            sent == [if faked then Encode(Blank(n))
                     else if c.machine.Accessible(t.state.memory, t.attributes, a, Blank(n), false)
                     then Encode(Slice(t.state.memory, a, n))
                     else ErrorReply(GDB_ERROR_BAD_MEM_ADDRESS)]
  {
    hide ParseMemory, Positional, AllHex, Encode, Slice, Faked, Machine.Blocked, Machine.Accessible;
    LetterOf(READ, addr + [COMMA] + len);
    ParseReadSpelled(addr, len);
    FakedWhere(c.workarounds, Positional(addr));
    c.machine.BlockedWhere(t.state.memory, t.attributes, Positional(addr), Blank(Positional(len)), false);
  }

  /** `M addr,len:hex`: all bytes written and OK exactly if they are accessible,
      unless a call of the attribute protocol fails. */
  lemma WriteMemory(c: Config, t: Target, t': Target, addr: seq<Byte>, len: seq<Byte>, hex: seq<Byte>,
                    mishaps: Mishaps, sent: seq<seq<Byte>>)
    requires Fitting(c, t) && AllHex(addr) && AllHex(len) && AllHex(hex)
    requires Positional(addr) < SPACE && Positional(len) < SPACE / 2 && |hex| == 2 * Positional(len)
    requires Effect(c, t, t', WRITE + (addr + [COMMA] + len + [COLON] + hex), mishaps, sent) && !mishaps.denied
    ensures Whole(t.state.memory) && Paged(t.attributes) && |sent| == 1
    ensures sent[0] == OK <==> c.machine.Accessible(t.state.memory, t.attributes, Positional(addr), Decode(hex), true)
    ensures sent[0] == OK ==> t'.state == t.state.(memory := Patch(t.state.memory, Positional(addr), Decode(hex)))
    ensures sent[0] != OK ==> sent[0] == ErrorReply(GDB_ERROR_BAD_MEM_ADDRESS)
    ensures t' == t.(state := t'.state, attributes := t'.attributes, failed := t'.failed)
  {
    hide ParseMemory, Positional, AllHex, Decode, Patch, Machine.Blocked, Machine.Refuses, At;
    hide Machine.Accessible;
    LetterOf(WRITE, addr + [COMMA] + len + [COLON] + hex);
    ParseSpelled(addr, len, hex);
    NotOk();
    var a, data, m := Positional(addr), Decode(hex), t.state.memory;
    c.machine.BlockedWhere(m, t.attributes, a, data, true);
    if sent[0] != OK {
      var k :| StartsPage(a, |data|, k) && t'.state.memory == Patch(m, a, data[..k])
               && c.machine.Refuses(t'.state.memory, t.attributes, At(a, k), true);
      RefusedIsBlocked(c.machine, m, t.attributes, a, data, k);
    }
  }

  lemma RefusedIsBlocked(machine: Machine, mem: seq<Byte>, attrs: seq<Attributes>, a: Address, data: seq<Byte>, k: nat)
    requires Whole(mem) && Paged(attrs) && StartsPage(a, |data|, k)
    requires machine.Refuses(Patch(mem, a, data[..k]), attrs, At(a, k), true)
    ensures machine.Blocked(mem, attrs, a, data, true)
  {
    assert machine.MemoryAfter(mem, a, data, k, true) == Patch(mem, a, data[..k]);
  }

  /** A memory command without its separators, with a number of more than 64
      bits, or with the wrong number of digits is refused and changes nothing. */
  lemma MemoryErrors(c: Config, t: Target, t': Target, args: seq<Byte>, addr: seq<Byte>, len: seq<Byte>,
                     hex: seq<Byte>, mishaps: Mishaps, sent: seq<seq<Byte>>)
    requires Fitting(c, t) && AllHex(addr) && AllHex(len) && AllHex(hex)
    requires Effect(c, t, t', WRITE + args, mishaps, sent) || Effect(c, t, t', READ + args, mishaps, sent)
    requires || COMMA !in args
             || (args == addr + [COMMA] + len && (Positional(addr) >= SPACE || Positional(len) >= SPACE))
             || (Effect(c, t, t', WRITE + args, mishaps, sent)
                 && (COLON !in args
                     || (args == addr + [COMMA] + len + [COLON] + hex
                         && (Positional(addr) >= SPACE || Positional(len) >= SPACE
                             || |hex| != Doubled(Positional(len))))))
    ensures t'.state == t.state && t'.context == t.context && sent == [ErrorReply(GDB_ERROR_BAD_REQUEST)]
  {
    hide Positional, AllHex, Doubled, Machine.Blocked, Machine.Refuses, SplitMemory, ParseHex64;
    LetterOf(WRITE, args);
    LetterOf(READ, args);
    NoSeparator(args);
    SplitRead(addr, len);
    SplitWrite(addr, len, hex);
    NoColon(addr, len);
    ParseHexDigits(addr);
    ParseHexDigits(len);
  }

  lemma NoSeparator(args: seq<Byte>)
    ensures COMMA !in args ==> SplitMemory(args, true).NoParts? && SplitMemory(args, false).NoParts?
    ensures COLON !in args ==> SplitMemory(args, true).NoParts?
  {
    FindNowhere(args, COMMA);
    if Find(args, COMMA) < |args| && COLON !in args {
      FindNowhere(args[Find(args, COMMA) := NUL], COLON);
    }
  }

  lemma NoColon(addr: seq<Byte>, len: seq<Byte>)
    requires AllHex(addr) && AllHex(len)
    ensures COLON !in addr + [COMMA] + len
  {
  }

  // ---------------------------------------------------------- other commands

  /** The letters that stand for a command with arguments of its own. */
  predicate Argued(letter: Byte) {
    letter in {'g' as int, 'G' as int, 'p' as int, 'P' as int, 'm' as int, 'M' as int, 'Z' as int, 'z' as int,
               'v' as int, 'q' as int}
  }

  /** Thread selection and extended mode are agreed to, the stop reason is told
      again, a reboot that comes back is not supported, and anything else is not
      known; the target is as it was. */
  lemma PlainAnswers(c: Config, t: Target, t': Target, command: seq<Byte>, mishaps: Mishaps, sent: seq<seq<Byte>>)
    requires Fitting(c, t) && Effect(c, t, t', command, mishaps, sent)
    requires command == [] || !Argued(command[0])
    ensures t' == t
    ensures sent == [if command == [] then Ascii("E03")
                     else if command[0] in {'H' as int, '!' as int} then Ascii("OK")
                     else if command[0] == '?' as int then Ascii("T05thread:01;")
                     else if command[0] in {'r' as int, 'R' as int} then Ascii("E01")
                     else Ascii("E03")]
  {
    hide Ascii, ErrorReply;
    ErrorsAre();
  }

  /** A `v` command that does not resume is answered, and the target is as it was. */
  lemma VAnswers(c: Config, t: Target, t': Target, command: seq<Byte>, mishaps: Mishaps, sent: seq<seq<Byte>>)
    requires Fitting(c, t) && Effect(c, t, t', command, mishaps, sent)
    requires command != [] && command[0] == 'v' as int && forall d :: !SpelledAt(command, d)
    ensures t' == t && sent == [if AsksCont(command[1..]) then Ascii("vCont;c;C;s;S") else []]
  {
    hide VActionOf, AsksCont, Ascii, SpelledAt;
    ResumesIffCont(command);
    VRepliesSpelled(command[1..]);
  }

  /** What a query is answered; none touches the target. */
  lemma QueryIsAnswered(c: Config, t: Target, t': Target, args: seq<Byte>, mishaps: Mishaps, sent: seq<seq<Byte>>)
    requires Fitting(c, t) && Effect(c, t, t', ['q' as int] + args, mishaps, sent)
    ensures t' == t
    ensures Begins(args, "Supported") ==>
              sent == [Ascii("PacketSize=1000;qXfer:features:read+;vContSupported+")]
    ensures Begins(args, "fThreadInfo") ==> sent == [Ascii("m01")]
    ensures Begins(args, "sThreadInfo") ==> sent == [Ascii("l")]
    ensures Begins(args, "Attached") ==> sent == [Ascii("1")]
    ensures Begins(args, "Xfer:features:read:target.xml") ==> |sent| == 1 && IsReply(sent[0])
    ensures Begins(args, "Xfer:features:read:registers.") ==> |sent| == 1 && IsReply(sent[0])
    ensures Begins(args, "Rcmd,") ==> IsMonitored(|CString(args)| - 5, sent)
    ensures !Known(args) ==> sent == [[]]
  {
    hide Ascii, CString, QueryOf, Begins, IsMonitored, QueryAnswers;
    LetterOf(['q' as int], args);
    AnsweredQuery(args, sent);
  }

  lemma AnsweredQuery(args: seq<Byte>, sent: seq<seq<Byte>>)
    requires QueryAnswers(args, sent)
    ensures Begins(args, "Supported") ==>
              sent == [Ascii("PacketSize=1000;qXfer:features:read+;vContSupported+")]
    ensures Begins(args, "fThreadInfo") ==> sent == [Ascii("m01")]
    ensures Begins(args, "sThreadInfo") ==> sent == [Ascii("l")]
    ensures Begins(args, "Attached") ==> sent == [Ascii("1")]
    ensures Begins(args, "Xfer:features:read:target.xml") ==> |sent| == 1 && IsReply(sent[0])
    ensures Begins(args, "Xfer:features:read:registers.") ==> |sent| == 1 && IsReply(sent[0])
    ensures Begins(args, "Rcmd,") ==> IsMonitored(|CString(args)| - 5, sent)
    ensures !Known(args) ==> sent == [[]]
  {
    hide Ascii, CString, QueryOf, Begins, ErrorReply, MonitorAnswers, IsMonitored;
    QueriesSpelled(args);
    Monitored(|CString(args)| - 5, sent);
  }

  predicate Known(args: seq<Byte>) {
    || Begins(args, "Supported") || Begins(args, "fThreadInfo") || Begins(args, "sThreadInfo")
    || Begins(args, "Attached") || Begins(args, "Xfer:features:read:target.xml")
    || Begins(args, "Xfer:features:read:registers.") || Begins(args, "Rcmd,")
  }

  /** A monitor command of n characters: up to 127 bytes in hex are carried out
      and answered by console text and OK. */
  ghost predicate IsMonitored(n: int, sent: seq<seq<Byte>>) {
    if n % 2 == 0 && n < 256 then exists text :: IsConsoleText(text) && sent == [ConsoleReply(text), Ascii("OK")]
    else sent == [Ascii("E04")]
  }

  lemma Monitored(n: int, sent: seq<seq<Byte>>)
    ensures MonitorAnswers(n, sent) ==> IsMonitored(n, sent)
  {
    hide Ascii, ErrorReply;
    ErrorsAre();
  }
}
