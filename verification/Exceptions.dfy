/** The exception handlers around a stop: where the program counter points on
    entry, and where execution resumes. */
module Exceptions {
  import opened Bytes
  import opened Memory
  import opened MemoryAccess
  import opened Breakpoints
  import opened Registers
  import opened Contexts
  import opened Handlers
  import opened Packets
  import opened Commands
  import MemoryCommands
  import opened Traces
  import opened Effects
  import opened Sessions
  import opened Stub

  const EXCEPT_X64_DEBUG: nat := 1
  const EXCEPT_X64_BREAKPOINT: nat := 3

  // ---------------------------------------------------------- the context

  function Before(a: Address): Address {
    if a == 0 then SPACE - 1 else a - 1
  }

  /** A debug exception loses its trap flag; a breakpoint trap, which reports
      the address after its one byte, is taken back to it. */
  function EnteredX64(interruptType: nat, context: seq<Byte>): (r: seq<Byte>)
    requires IsContext(X64, context)
    ensures IsContext(X64, r)
    ensures interruptType == EXCEPT_X64_DEBUG ==> !StepFlag(X64, r)
    ensures interruptType == EXCEPT_X64_BREAKPOINT ==> Pc(X64, r) == Before(Pc(X64, context))
    ensures interruptType != EXCEPT_X64_BREAKPOINT ==> Pc(X64, r) == Pc(X64, context)
    ensures interruptType != EXCEPT_X64_DEBUG ==> StepFlag(X64, r) == StepFlag(X64, context)
  {
    if interruptType == EXCEPT_X64_DEBUG then
      context[X64_RFLAGS + 1 := WithBit(context[X64_RFLAGS + 1], 1, false)]
    else if interruptType == EXCEPT_X64_BREAKPOINT then WithPc(X64, context, Before(Pc(X64, context)))
    else context
  }

  /** The exception class of an AArch64 stop: the top bits of ESR. */
  function ClassOf(context: seq<Byte>): (kind: nat)
    requires IsContext(AArch64, context)
    ensures kind < 64
  {
    WordAt(context, AARCH64_ESR) / 0x400_0000 % 64
  }

  const BRK_CLASS: nat := 0x3C

  predicate IsBreakClass(kind: nat) {
    kind == 0x30 || kind == 0x31 || kind == 0x34 || kind == 0x35 || kind == BRK_CLASS
  }

  /** A breakpoint instruction at the pc is stepped over when a stop that it caused ends. */
  ghost function Left(arch: Arch, instr: seq<Byte>, mem: seq<Byte>, context: seq<Byte>): (r: seq<Byte>)
    requires IsContext(arch, context) && Whole(mem) && IsInstruction(instr)
    ensures IsContext(arch, r)
  {
    var pc := Pc(arch, context);
    if Slice(mem, pc, |instr|) == instr then WithPc(arch, context, At(pc, |instr|)) else context
  }

  // --------------------------------------------------------- the handlers

  method WritePc(arch: Arch, context: array<Byte>, pc: Address)
    requires IsContext(arch, context[..])
    modifies context
    ensures context[..] == WithPc(arch, old(context[..]), pc)
  {
    var o, b := PcOffset(arch), WordBytes(pc);
    forall i | 0 <= i < 8 { context[o + i] := b[i]; }
    assert context[..] == old(context[..o]) + b + old(context[o + 8..]);
  }

  method EnterX64(context: array<Byte>, interruptType: nat)
    requires IsContext(X64, context[..])
    modifies context
    ensures context[..] == EnteredX64(interruptType, old(context[..]))
  {
    hide WithBit, WithPc;
    if interruptType == EXCEPT_X64_DEBUG {
      context[X64_RFLAGS + 1] := WithBit(context[X64_RFLAGS + 1], 1, false);
    } else if interruptType == EXCEPT_X64_BREAKPOINT {
      WritePc(X64, context, Before(Pc(X64, context[..])));
    }
  }

  method LeaveX64(context: array<Byte>, machine: Machine)
    requires IsContext(X64, context[..]) && machine.Valid()
    modifies context
    ensures context[..] == Left(X64, X64_BREAKPOINT, machine.memory, old(context[..]))
  {
    hide WithPc, Pc;
    var rip := Pc(X64, context[..]);
    OneByte(machine.memory, rip, 0xCC);
    if machine.memory[rip] == 0xCC {
      WritePc(X64, context, At(rip, 1));
    }
  }

  lemma OneByte(mem: seq<Byte>, a: Address, b: Byte)
    requires Whole(mem)
    ensures Slice(mem, a, 1) == [b] <==> mem[a] == b
  {
    assert Slice(mem, a, 1)[0] == mem[a];
  }

  /** One stop on X64: `entered` and `paused` are the target at the start and
      the end of the debug session, `left` is the context on leaving it. */
  ghost predicate StopsX64(c: Config, interruptType: nat, was: Target, entered: Target, turns: seq<Turn>,
                           paused: Target, running: bool, left: seq<Byte>)
  {
    && c.arch.X64? && c.instr == X64_BREAKPOINT && IsContext(X64, was.context)
    && entered == was.(context := EnteredX64(interruptType, was.context))
    && Session(c, turns, entered, paused)
    && IsContext(X64, paused.context) && Whole(paused.state.memory)
    && (running ==> left == if interruptType == EXCEPT_X64_BREAKPOINT
                            then Left(X64, X64_BREAKPOINT, paused.state.memory, paused.context)
                            else paused.context)
  }

  /** DebuggerExceptionHandler on X64. */
  method HandleX64(stub: GdbStub, interruptType: nat, clock: nat)
    returns (ghost entered: Target, ghost turns: seq<Turn>, ghost paused: Target)
    requires stub.Valid() && stub.watchpoints.DebugRegs? && stub.breakpoints.instr == X64_BREAKPOINT
    requires var endTime := stub.EndTime(interruptType == EXCEPT_X64_BREAKPOINT, clock);
             AllInBounds(Await(stub.input, false, stub.mConnectionOccurred, endTime).items)
    modifies stub, stub.mRequest, stub.mResponseFull, stub.mScratch, stub.context,
             stub.breakpoints.machine, stub.breakpoints.mBreakpoints, stub.WatchState()
    ensures stub.Valid()
    ensures StopsX64(stub.Configuration(), interruptType, old(stub.TargetNow()), entered, turns, paused, stub.gRunning,
                     stub.context[..])
    ensures var endTime := old(stub.EndTime(interruptType == EXCEPT_X64_BREAKPOINT, clock));
            Await(old(stub.input), false, old(stub.mConnectionOccurred), endTime)
            == Waited(Items(turns), stub.input, stub.gRunning)
    ensures paused.state == stub.TargetNow().state && paused.slots == stub.TargetNow().slots
    ensures paused.mdscr == stub.mdscr
  {
    hide Session, Items, AllInBounds, Await, EnteredX64, Left, Play, ResumesIn, Expired;
    hide GdbStub.Slots, GdbStub.Synced, GoodTrace, Connected, LastPacket;
    var context := stub.context;
    EnterX64(context, interruptType);
    entered := stub.TargetNow();
    turns := stub.ReportEntryToDebugger(interruptType == EXCEPT_X64_BREAKPOINT, clock);
    paused := stub.TargetNow();
    if stub.gRunning && interruptType == EXCEPT_X64_BREAKPOINT {
      LeaveX64(context, stub.breakpoints.machine);
    }
  }

  /** CompareMem with the breakpoint instruction. */
  method CompareMem(machine: Machine, a: Address, instr: seq<Byte>) returns (same: bool)
    requires machine.Valid() && |instr| <= SPACE
    ensures same <==> Slice(machine.memory, a, |instr|) == instr
  {
    for i := 0 to |instr|
      invariant forall j :: 0 <= j < i ==> machine.memory[At(a, j)] == instr[j]
    {
      if machine.memory[At(a, i)] != instr[i] {
        assert Slice(machine.memory, a, |instr|)[i] != instr[i];
        return false;
      }
    }
    assert Slice(machine.memory, a, |instr|) == instr;
    same := true;
  }

  method LeaveAArch64(context: array<Byte>, machine: Machine, instr: seq<Byte>)
    requires IsContext(AArch64, context[..]) && machine.Valid() && IsInstruction(instr)
    modifies context
    ensures context[..] == Left(AArch64, instr, machine.memory, old(context[..]))
  {
    hide WithPc, Pc;
    var elr := Pc(AArch64, context[..]);
    var same := CompareMem(machine, elr, instr);
    if same {
      WritePc(AArch64, context, At(elr, |instr|));
    }
  }

  /** The class of a software step exception. */
  predicate IsStepClass(kind: nat) {
    kind == 0x32 || kind == 0x33
  }

  /** One stop on AArch64. The exception class is the one on entry, whatever the
      debugger makes of the context; a step exception loses its software step bit. */
  ghost predicate StopsAArch64(c: Config, was: Target, entered: Target, turns: seq<Turn>, paused: Target,
                               running: bool, left: seq<Byte>)
  {
    && c.arch.AArch64? && IsInstruction(c.instr) && IsContext(AArch64, was.context)
    && entered == was.(mdscr := if IsStepClass(ClassOf(was.context)) then Unstepped(was.mdscr) else was.mdscr)
    && Session(c, turns, entered, paused)
    && IsContext(AArch64, paused.context) && Whole(paused.state.memory)
    && (running ==> left == if ClassOf(was.context) == BRK_CLASS
                            then Left(AArch64, c.instr, paused.state.memory, paused.context)
                            else paused.context)
  }

  /** DebuggerExceptionHandler on AArch64. */
  method HandleAArch64(stub: GdbStub, clock: nat)
    returns (ghost entered: Target, ghost turns: seq<Turn>, ghost paused: Target)
    requires stub.Valid() && stub.watchpoints.WatchRegs?
    requires stub.context.Length == ContextSize(AArch64)
    requires var endTime := stub.EndTime(IsBreakClass(ClassOf(stub.context[..])), clock);
             AllInBounds(Await(stub.input, false, stub.mConnectionOccurred, endTime).items)
    modifies stub, stub.mRequest, stub.mResponseFull, stub.mScratch, stub.context,
             stub.breakpoints.machine, stub.breakpoints.mBreakpoints, stub.WatchState()
    ensures stub.Valid()
    ensures StopsAArch64(stub.Configuration(), old(stub.TargetNow()), entered, turns, paused, stub.gRunning,
                         stub.context[..])
    ensures var endTime := old(stub.EndTime(IsBreakClass(ClassOf(stub.context[..])), clock));
            Await(old(stub.input), false, old(stub.mConnectionOccurred), endTime)
            == Waited(Items(turns), stub.input, stub.gRunning)
    ensures paused.state == stub.TargetNow().state && paused.slots == stub.TargetNow().slots
    ensures paused.mdscr == stub.mdscr
  {
    hide Session, Items, AllInBounds, Await, Left, Play, ResumesIn, Expired, ClassOf;
    hide GdbStub.Slots, GoodTrace, Connected, LastPacket;
    var context := stub.context;
    var kind := ClassOf(context[..]);
    if IsStepClass(kind) {
      stub.mdscr := Unstepped(stub.mdscr);
    }
    entered := stub.TargetNow();
    turns := stub.ReportEntryToDebugger(IsBreakClass(kind), clock);
    paused := stub.TargetNow();
    if stub.gRunning && kind == BRK_CLASS {
      LeaveAArch64(context, stub.breakpoints.machine, stub.breakpoints.instr);
    }
  }

  // ------------------------------------------------ hit, remove, resume

  /** No command among the items writes registers. */
  predicate KeepsRegisters(items: seq<Item>) {
    forall i :: 0 <= i < |items| && Accepts(items[i]) ==> Letter(CommandOf(items[i])) !in {'G' as int, 'P' as int}
  }

  predicate StepsIn(items: seq<Item>) {
    exists i :: 0 <= i < |items| && Accepts(items[i]) && Steps(CommandOf(items[i]))
  }

  /** A session keeps the shape of the context. */
  lemma {:induction false} SessionKeepsShape(c: Config, turns: seq<Turn>, first: Target, last: Target)
    requires Session(c, turns, first, last) && IsContext(c.arch, first.context)
    ensures IsContext(c.arch, last.context)
    decreases |turns|
  {
    hide IsTurn;
    if turns != [] {
      var n := |turns| - 1;
      SessionKeepsShape(c, turns[..n], first, turns[n].before);
      TurnKeepsShape(c, turns[n]);
    }
  }

  lemma TurnKeepsShape(c: Config, t: Turn)
    requires IsTurn(c, t)
    ensures IsContext(c.arch, t.before.context) && IsContext(c.arch, t.after.context)
  {
    hide Accepts, CommandOf, VActionOf, MemoryCommands.Outcome, WatchEffect, SoftwareEffect, AttributesEffect, Answers;
    hide ParseBreak, WriteAll, RegisterWritten, ReadAll, ReadOne;
    if Accepts(t.item) {
      WritesKeepLength(t.before.context, c.registers, CString(Args(CommandOf(t.item))));
    }
  }

  lemma WritesKeepLength(context: seq<Byte>, registers: seq<Register>, text: seq<Byte>)
    requires Fits(registers, |context|)
    ensures |WriteAll(context, registers, text).0| == |context|
    ensures |RegisterWritten(context, registers, text).0| == |context|
  {
    hide WriteOne;
  }

  /** A debugger that writes no registers leaves the context as it was, but for
      the single step it may have asked for. */
  lemma {:induction false} ContextAcross(c: Config, turns: seq<Turn>, first: Target, last: Target)
    requires Session(c, turns, first, last) && IsContext(c.arch, first.context) && KeepsRegisters(Items(turns))
    ensures last.context == if StepsIn(Items(turns)) then Stepped(c.arch, first.context) else first.context
    decreases |turns|
  {
    hide Stepped, Accepts, Steps, IsTurn, CommandOf;
    if turns != [] {
      var n := |turns| - 1;
      var t, items := turns[n], Items(turns);
      assert items[..n] == Items(turns[..n]) && items[n] == t.item;
      assert forall i :: 0 <= i < n ==> Items(turns[..n])[i] == items[i];
      ContextAcross(c, turns[..n], first, t.before);
      TurnContext(c, t);
      SteppedTwice(c.arch, first.context);
    }
  }

  lemma TurnContext(c: Config, t: Turn)
    requires IsTurn(c, t) && (Accepts(t.item) ==> Letter(CommandOf(t.item)) !in {'G' as int, 'P' as int})
    ensures t.after.context == if Accepts(t.item) && Steps(CommandOf(t.item)) then Stepped(c.arch, t.before.context)
                               else t.before.context
  {
    hide Stepped, Accepts, CommandOf, Effect;
    if Accepts(t.item) {
      RegistersRead(c, t.before, t.after, CommandOf(t.item), t.mishaps, t.answers);
    }
  }

  lemma RegistersRead(c: Config, t: Target, t': Target, command: seq<Byte>, mishaps: Mishaps,
                      sent: seq<seq<Byte>>)
    requires Fitting(c, t) && Effect(c, t, t', command, mishaps, sent)
    requires Letter(command) !in {'G' as int, 'P' as int}
    ensures t'.context == if Steps(command) then Stepped(c.arch, t.context) else t.context
  {
    hide Stepped, VActionOf, MemoryCommands.Outcome, WatchEffect, SoftwareEffect, AttributesEffect, Answers, ParseBreak;
  }

  /** How a stop at a breakpoint at a ends, with the context left and the
      program's own bytes being those of plain: execution goes on at a, unless the
      breakpoint instruction is still to be found there, because a breakpoint is
      still planted at a or because those bytes are that instruction; then it is
      stepped over. With the breakpoint gone, memory holds the program's own bytes
      at a. */
  ghost predicate GoesOn(c: Config, items: seq<Item>, a: Address, paused: Target, left: seq<Byte>,
                         planted: set<Address>, plain: seq<Byte>)
    requires IsInstruction(c.instr) && IsContext(c.arch, left) && Whole(paused.state.memory) && Whole(plain)
  {
    var size, still := |c.instr|, a in PlantedAcross(planted, items);
    && Pc(c.arch, left) == (if still || Slice(plain, a, size) == c.instr then At(a, size) else a)
    && (!still ==> Slice(paused.state.memory, a, size) == Slice(plain, a, size))
  }

  /** A breakpoint was hit and the debugger does not move the pc: the program
      takes up where it stopped. */
  lemma HitRemoveResume(c: Config, turns: seq<Turn>, entered: Target, paused: Target, v: View)
    returns (memories: seq<seq<Byte>>)
    requires IsInstruction(c.instr) && Session(c, turns, entered, paused) && Represents(entered.state, v, c.instr)
    requires IsContext(c.arch, entered.context) && IsContext(c.arch, paused.context)
    requires Pc(c.arch, paused.context) == Pc(c.arch, entered.context)
    requires Aligned(Pc(c.arch, entered.context), |c.instr|)
    requires AllReached(c, turns) && AllConsiderate(v.planted, |c.instr|, Items(turns))
    ensures Plain(c, turns, memories) && memories[0] == v.pristine && Whole(paused.state.memory)
    ensures var left := Left(c.arch, c.instr, paused.state.memory, paused.context);
            GoesOn(c, Items(turns), Pc(c.arch, entered.context), paused, left, v.planted, memories[|turns|])
  {
    hide Session, Items, PlainTurn, AllConsiderate, AllReached, PlantedAcross, Represents, WithPc;
    memories := SessionIsTransparent(c, turns, entered, paused, v);
    var w := View(memories[|turns|], PlantedAcross(v.planted, Items(turns)));
    ShowsAt(paused.state, w, c.instr, Pc(c.arch, entered.context));
  }

  /** So it does after a debugger that writes no registers at all. */
  lemma HitRemoveResumeUnwritten(c: Config, turns: seq<Turn>, entered: Target, paused: Target, v: View)
    returns (memories: seq<seq<Byte>>)
    requires IsInstruction(c.instr) && Session(c, turns, entered, paused) && Represents(entered.state, v, c.instr)
    requires IsContext(c.arch, entered.context) && KeepsRegisters(Items(turns))
    requires Aligned(Pc(c.arch, entered.context), |c.instr|)
    requires AllReached(c, turns) && AllConsiderate(v.planted, |c.instr|, Items(turns))
    ensures Plain(c, turns, memories) && memories[0] == v.pristine && Whole(paused.state.memory)
    ensures IsContext(c.arch, paused.context)
    ensures var left := Left(c.arch, c.instr, paused.state.memory, paused.context);
            GoesOn(c, Items(turns), Pc(c.arch, entered.context), paused, left, v.planted, memories[|turns|])
  {
    hide Session, Items, AllConsiderate, AllReached, Represents, KeepsRegisters, GoesOn, Plain;
    PcAcross(c, turns, entered, paused);
    memories := HitRemoveResume(c, turns, entered, paused, v);
  }

  lemma PcAcross(c: Config, turns: seq<Turn>, entered: Target, paused: Target)
    requires Session(c, turns, entered, paused) && IsContext(c.arch, entered.context) && KeepsRegisters(Items(turns))
    ensures IsContext(c.arch, paused.context) && Pc(c.arch, paused.context) == Pc(c.arch, entered.context)
  {
    hide Session, Items, KeepsRegisters, StepsIn;
    SessionKeepsShape(c, turns, entered, paused);
    ContextAcross(c, turns, entered, paused);
  }

  /** What memory holds at a slot: the instruction if planted, else the program's own bytes. */
  lemma ShowsAt(s: State, v: View, instr: seq<Byte>, a: Address)
    requires IsInstruction(instr) && Represents(s, v, instr) && Aligned(a, |instr|)
    ensures Whole(s.memory) && Whole(v.pristine)
    ensures Slice(s.memory, a, |instr|) == if a in v.planted then instr else Slice(v.pristine, a, |instr|)
  {
    if a in v.planted {
      ShownPlanted(v, instr, a);
    } else {
      ShownUnplanted(v, instr, a);
    }
  }

  /** On X64 the trap reports the address after the one-byte instruction; the
      handler is back at the breakpoint. */
  lemma TrapIsTakenBack(context: seq<Byte>, a: Address)
    requires IsContext(X64, context) && Pc(X64, context) == At(a, 1)
    ensures Pc(X64, EnteredX64(EXCEPT_X64_BREAKPOINT, context)) == a
  {
  }

  /** The X64 handler, called for a breakpoint trap. */
  lemma HitX64(c: Config, was: Target, entered: Target, turns: seq<Turn>, paused: Target, left: seq<Byte>,
               v: View, a: Address)
    returns (memories: seq<seq<Byte>>)
    requires StopsX64(c, EXCEPT_X64_BREAKPOINT, was, entered, turns, paused, true, left)
    requires Represents(was.state, v, c.instr) && Pc(X64, was.context) == At(a, 1) && Pc(X64, paused.context) == a
    requires AllReached(c, turns) && AllConsiderate(v.planted, |c.instr|, Items(turns))
    ensures Plain(c, turns, memories) && memories[0] == v.pristine
    ensures IsContext(X64, left) && GoesOn(c, Items(turns), a, paused, left, v.planted, memories[|turns|])
  {
    hide Session, Items, AllReached, AllConsiderate, Represents, Plain, EnteredX64, Left, PlantedAcross, Pc;
    TrapIsTakenBack(was.context, a);
    memories := HitRemoveResume(c, turns, entered, paused, v);
    PlainIsWhole(c, turns, memories);
  }

  /** The AArch64 handler, called for a breakpoint instruction. */
  lemma HitAArch64(c: Config, was: Target, entered: Target, turns: seq<Turn>, paused: Target, left: seq<Byte>,
                   v: View, a: Address)
    returns (memories: seq<seq<Byte>>)
    requires StopsAArch64(c, was, entered, turns, paused, true, left) && ClassOf(was.context) == BRK_CLASS
    requires Represents(was.state, v, c.instr) && Aligned(a, |c.instr|)
    requires Pc(AArch64, was.context) == a && Pc(AArch64, paused.context) == a
    requires AllReached(c, turns) && AllConsiderate(v.planted, |c.instr|, Items(turns))
    ensures Plain(c, turns, memories) && memories[0] == v.pristine
    ensures IsContext(AArch64, left) && GoesOn(c, Items(turns), a, paused, left, v.planted, memories[|turns|])
  {
    hide Session, Items, AllReached, AllConsiderate, Represents, Plain, ClassOf, Left, PlantedAcross, Pc;
    memories := HitRemoveResume(c, turns, entered, paused, v);
    PlainIsWhole(c, turns, memories);
  }

  lemma PlainIsWhole(c: Config, turns: seq<Turn>, memories: seq<seq<Byte>>)
    requires Plain(c, turns, memories)
    ensures |memories| == |turns| + 1 && Whole(memories[|turns|])
  {
  }

  // ------------------------------------------------------- single steps

  /** No write of registers changes the step flag. */
  ghost predicate KeepsStepFlag(c: Config, turns: seq<Turn>) {
    forall i :: 0 <= i < |turns| ==> TurnKeepsStepFlag(c, turns[i])
  }

  ghost predicate TurnKeepsStepFlag(c: Config, t: Turn) {
    Accepts(t.item) && Letter(CommandOf(t.item)) in {'G' as int, 'P' as int}
    && IsContext(c.arch, t.before.context) && IsContext(c.arch, t.after.context) ==>
      StepFlag(c.arch, t.after.context) == StepFlag(c.arch, t.before.context)
  }

  lemma {:induction false} StepFlagAcross(c: Config, turns: seq<Turn>, first: Target, last: Target)
    requires Session(c, turns, first, last) && IsContext(c.arch, first.context) && KeepsStepFlag(c, turns)
    ensures IsContext(c.arch, last.context)
    ensures StepFlag(c.arch, last.context) <==> StepFlag(c.arch, first.context) || StepsIn(Items(turns))
    decreases |turns|
  {
    hide Stepped, StepFlag, Accepts, Steps, IsTurn, CommandOf, TurnKeepsStepFlag;
    if turns != [] {
      var n := |turns| - 1;
      var t, items := turns[n], Items(turns);
      assert items[..n] == Items(turns[..n]) && items[n] == t.item;
      assert forall i :: 0 <= i < n ==> Items(turns[..n])[i] == items[i] && turns[..n][i] == turns[i];
      StepFlagAcross(c, turns[..n], first, t.before);
      TurnStepFlag(c, t);
    }
  }

  lemma TurnStepFlag(c: Config, t: Turn)
    requires IsTurn(c, t) && TurnKeepsStepFlag(c, t)
    ensures IsContext(c.arch, t.before.context) && IsContext(c.arch, t.after.context)
    ensures StepFlag(c.arch, t.after.context) <==>
            StepFlag(c.arch, t.before.context) || (Accepts(t.item) && Steps(CommandOf(t.item)))
  {
    hide Stepped, StepFlag, Accepts, CommandOf, Effect;
    TurnKeepsShape(c, t);
    if Accepts(t.item) {
      if Letter(CommandOf(t.item)) !in {'G' as int, 'P' as int} {
        RegistersRead(c, t.before, t.after, CommandOf(t.item), t.mishaps, t.answers);
      } else {
        assert !Steps(CommandOf(t.item));
      }
    }
  }

  lemma MdscrStep(c: Config, t: Target, t': Target, command: seq<Byte>, mishaps: Mishaps, sent: seq<seq<Byte>>)
    requires Fitting(c, t) && Effect(c, t, t', command, mishaps, sent)
    ensures t'.mdscr == if Steps(command) then SteppedMdscr(c.arch, t.mdscr) else t.mdscr
  {
    hide SteppedMdscr, VActionOf, MemoryCommands.Outcome, WatchEffect, SoftwareEffect, AttributesEffect, Answers;
    hide ParseBreak, RegisterEffect;
  }

  /** After a step exception the target steps again exactly if the debugger asked
      for another step: by the trap flag on X64, unless a register write changed
      it; by the software step bit of MDSCR_EL1 on AArch64. */
  lemma StepIsAskedFor(c: Config, turns: seq<Turn>, was: Target, entered: Target, paused: Target)
    requires IsContext(c.arch, was.context) && Session(c, turns, entered, paused)
    requires c.arch.X64? ==> entered.context == EnteredX64(EXCEPT_X64_DEBUG, was.context) && KeepsStepFlag(c, turns)
    requires c.arch.AArch64? ==> entered == was.(mdscr := Unstepped(was.mdscr))
    ensures IsContext(c.arch, paused.context)
    ensures c.arch.X64? ==> (StepFlag(X64, paused.context) <==> StepsIn(Items(turns)))
    ensures c.arch.AArch64? ==> (SoftwareStep(paused.mdscr) <==> StepsIn(Items(turns)))
  {
    hide Session, Items, KeepsStepFlag, StepsIn;
    SessionKeepsShape(c, turns, entered, paused);
    if c.arch.X64? {
      StepFlagAcross(c, turns, entered, paused);
    } else {
      SoftwareStepAcross(c, turns, entered, paused);
    }
  }

  /** The X64 handler, called for a debug exception (vector 1): it is left with
      the trap flag set exactly if a step was asked for meanwhile. */
  lemma StepStopX64(c: Config, was: Target, entered: Target, turns: seq<Turn>, paused: Target, left: seq<Byte>)
    requires StopsX64(c, 1, was, entered, turns, paused, true, left) && KeepsStepFlag(c, turns)
    ensures left == paused.context && (StepFlag(X64, left) <==> StepsIn(Items(turns)))
  {
    hide Session, Items, KeepsStepFlag, StepsIn, EnteredX64, Left;
    StepIsAskedFor(c, turns, was, entered, paused);
  }

  /** The AArch64 handler: after a step exception, from a lower or the current
      exception level (classes 0x32 and 0x33), the target steps again exactly if a
      step was asked for meanwhile; after any other, it also goes on stepping. */
  lemma StepStopAArch64(c: Config, was: Target, entered: Target, turns: seq<Turn>, paused: Target, left: seq<Byte>)
    requires StopsAArch64(c, was, entered, turns, paused, true, left)
    ensures var kind := WordAt(was.context, 792) / 0x400_0000 % 64;
            SoftwareStep(paused.mdscr) <==>
            StepsIn(Items(turns)) || (kind != 0x32 && kind != 0x33 && SoftwareStep(was.mdscr))
  {
    hide Session, Items, StepsIn, Left;
    SoftwareStepAcross(c, turns, entered, paused);
  }

  /** Only a breakpoint instruction (vector 3, class 0x3C) is stepped over: after
      any other exception the context is left as the debugger has it. */
  lemma OthersAreLeft(c: Config, interruptType: nat, was: Target, entered: Target, turns: seq<Turn>, paused: Target,
                      left: seq<Byte>)
    ensures StopsX64(c, interruptType, was, entered, turns, paused, true, left) && interruptType != 3 ==>
              left == paused.context
    ensures StopsAArch64(c, was, entered, turns, paused, true, left)
            && WordAt(was.context, 792) / 0x400_0000 % 64 != 0x3C ==>
              left == paused.context
  {
    hide Session, EnteredX64, Left;
  }

  /** What counts as a breakpoint for the timeout of a stop, and what the handler
      steps over: hardware breakpoints, watchpoints and BRK; BRK alone. */
  lemma ClassesAre(kind: nat)
    ensures IsBreakClass(kind) <==> kind in {0x30, 0x31, 0x34, 0x35, 0x3C}
    ensures IsStepClass(kind) <==> kind in {0x32, 0x33}
    ensures BRK_CLASS == 0x3C && EXCEPT_X64_DEBUG == 1 && EXCEPT_X64_BREAKPOINT == 3
  {
  }

  /** Entering on X64, bit by bit: a debug exception loses bit 8 of Rflags, a
      breakpoint trap has one taken off its Rip, anything else changes nothing. */
  lemma EnteredBits(context: seq<Byte>, interruptType: nat)
    requires IsContext(X64, context)
    ensures interruptType == 1 ==>
              && SameBut(context, EnteredX64(interruptType, context), X64_RFLAGS)
              && var w := WordAt(context, X64_RFLAGS);
                 WordAt(EnteredX64(interruptType, context), X64_RFLAGS) == w - Weight(w, 0x100)
    ensures interruptType == 3 ==>
              && SameBut(context, EnteredX64(interruptType, context), PcOffset(X64))
              && var pc := WordAt(context, PcOffset(X64));
                 WordAt(EnteredX64(interruptType, context), PcOffset(X64)) == if pc == 0 then SPACE - 1 else pc - 1
    ensures interruptType !in {1, 3} ==> EnteredX64(interruptType, context) == context
  {
    hide WordBytes;
    WordBits(context, X64_RFLAGS);
  }

  /** Register writes cannot reach MDSCR_EL1. */
  lemma {:induction false} SoftwareStepAcross(c: Config, turns: seq<Turn>, first: Target, last: Target)
    requires c.arch.AArch64? && Session(c, turns, first, last)
    ensures SoftwareStep(last.mdscr) <==> SoftwareStep(first.mdscr) || StepsIn(Items(turns))
    decreases |turns|
  {
    hide SoftwareStep, Accepts, Steps, Effect, CommandOf;
    if turns != [] {
      var n := |turns| - 1;
      var t, items := turns[n], Items(turns);
      assert items[..n] == Items(turns[..n]) && items[n] == t.item;
      assert forall i :: 0 <= i < n ==> Items(turns[..n])[i] == items[i];
      SoftwareStepAcross(c, turns[..n], first, t.before);
      if Accepts(t.item) { MdscrStep(c, t.before, t.after, CommandOf(t.item), t.mishaps, t.answers); }
    }
  }
}
