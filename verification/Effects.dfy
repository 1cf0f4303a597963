/** What one executed command does to the debugged target and what it answers,
    and what that means for the breakpoints that are set meanwhile. */
module Effects {
  import opened Bytes
  import opened Memory
  import opened MemoryAccess
  import opened Breakpoints
  import opened Registers
  import opened Contexts
  import opened Text
  import opened Packets
  import opened Commands
  import opened MemoryCommands
  import opened Handlers
  import WatchSet
  import WatchpointsX64
  import WatchpointsAArch64

  /** What the build of the agent fixes. */
  datatype Config = Config(arch: Arch, machine: Machine, instr: seq<Byte>, registers: seq<Register>, workarounds: bool)

  /** The target as the debugger can change it: memory and breakpoint table,
      page attributes, saved register context, MDSCR_EL1, watchpoint slots; and
      how many calls of the attribute protocol failed so far. */
  datatype Target =
    Target(state: State, attributes: seq<Attributes>, context: seq<Byte>, mdscr: Address, slots: seq<WatchSet.Slot>,
           failed: Failures)

  ghost predicate Fitting(c: Config, t: Target) {
    && Formed(t.state) && Paged(t.attributes) && IsInstruction(c.instr)
    && Fits(c.registers, |t.context|) && IsContext(c.arch, t.context)
  }

  function Letter(command: seq<Byte>): Byte {
    if command == [] then NUL else command[0]
  }

  function Args(command: seq<Byte>): seq<Byte> {
    if command == [] then [] else command[1..]
  }

  /** The commands that can change the target or read its registers or memory. */
  predicate Reaches(letter: Byte) {
    letter in {'g' as int, 'G' as int, 'p' as int, 'P' as int, 'm' as int, 'M' as int, 'Z' as int, 'z' as int,
               'v' as int}
  }

  /** ExecuteGdbCommand: the target it leaves and the packets it sends. */
  ghost predicate Effect(c: Config, t: Target, t': Target, command: seq<Byte>, mishaps: Mishaps, sent: seq<seq<Byte>>)
    requires Fitting(c, t)
  {
    var letter, args := Letter(command), Args(command);
    if letter == 'g' as int || letter == 'G' as int || letter == 'p' as int || letter == 'P' as int then
      && t' == t.(context := t'.context) && mishaps == NO_MISHAPS
      && (t'.context, sent) == RegisterEffect(t.context, c.registers, letter, args)
    else if letter == 'm' as int || letter == 'M' as int then
      && t' == t.(state := t.state.(memory := t'.state.memory), attributes := t'.attributes, failed := t'.failed)
      && |sent| == 1
      && !mishaps.Failed() && AttributesEffect(c, t, t', mishaps)
      && Outcome(c.machine, t.attributes, mishaps.denied, t.state.memory, t'.state.memory, args, letter == 'M' as int,
                 c.workarounds, sent[0])
    else if letter == 'Z' as int || letter == 'z' as int then
      BreakEffect(c, t, t', letter == 'z' as int, ParseBreak(args), mishaps, sent)
    else if letter == 'v' as int then
      && mishaps == NO_MISHAPS
      && t' == (if VActionOf(args).StepOnce? then
                  t.(context := Stepped(c.arch, t.context), mdscr := SteppedMdscr(c.arch, t.mdscr))
                else t)
      && sent == (match VActionOf(args) case Reply(text) => [text] case _ => [])
    else
      t' == t && mishaps == NO_MISHAPS && Answers(letter, args, sent)
  }

  /** g, G, p and P: the context left and the reply. */
  function RegisterEffect(context: seq<Byte>, registers: seq<Register>, letter: Byte, args: seq<Byte>)
    : (r: (seq<Byte>, seq<seq<Byte>>))
    requires Fits(registers, |context|)
  {
    if letter == 'g' as int then (context, [ReadAll(context, registers)])
    else if letter == 'G' as int then
      var w := WriteAll(context, registers, CString(args));
      (w.0, [if w.1 then OK else ErrorReply(GDB_ERROR_INTERNAL)])
    else if letter == 'p' as int then
      var i := ParseHex(CString(args));
      (context, [if i < |registers| then ReadOne(context, registers[i]) else ErrorReply(GDB_ERROR_BAD_REG_INDEX)])
    else
      var w := RegisterWritten(context, registers, CString(args));
      (w.0, [w.1])
  }

  /** Z and z: at most one breakpoint or watchpoint comes or goes. */
  ghost predicate BreakEffect(c: Config, t: Target, t': Target, remove: bool, r: BreakRequest, mishaps: Mishaps,
                              sent: seq<seq<Byte>>)
    requires Fitting(c, t)
  {
    match r
    case BadBreak => t' == t && mishaps == NO_MISHAPS && sent == [ErrorReply(GDB_ERROR_BAD_REQUEST)]
    case Unsupported => t' == t && mishaps == NO_MISHAPS && sent == [ErrorReply(GDB_ERROR_UNSUPPORTED)]
    case Software(a) =>
      && t' == t.(state := t'.state, attributes := t'.attributes, failed := t'.failed)
      && SoftwareEffect(c, t, t', remove, a, mishaps)
      && sent == [Verdict(if remove then FindActive(t.state.table, a) < MAX_BREAKPOINTS else AddSucceeds(t.state.table, a))]
    case Watch(a, length, read, write) =>
      && t' == t.(slots := t'.slots) && mishaps == NO_MISHAPS
      && exists ok :: sent == [Verdict(ok)] && WatchEffect(c.arch, t.slots, t'.slots, remove, a, length, read, write, ok)
  }

  /** Memory and table come out as meant, unless memory could not be accessed,
      which the code ignores; then they come out as AddedWith and RemovedWith say. */
  ghost predicate SoftwareEffect(c: Config, t: Target, t': Target, remove: bool, a: Address, mishaps: Mishaps)
    requires Fitting(c, t)
  {
    var meant := if remove then Removed(t.state, c.instr, a) else Added(t.state, c.instr, a);
    && Alike(t'.state, meant, a, |c.instr|)
    && (!mishaps.Failed() ==> t'.state == meant)
    && (Aligned(a, |c.instr|) ==>
          t'.state == if remove then RemovedWith(t.state, c.instr, a, !mishaps.unwritten)
                      else AddedWith(t.state, c.instr, a, !mishaps.unread, !mishaps.unwritten))
    && (if remove then RemoveMishaps(c.machine, t.attributes, t.state, c.instr, a, mishaps)
        else AddMishaps(c.machine, t.attributes, t.state, c.instr, a, mishaps))
    && AttributesEffect(c, t, t', mishaps)
  }

  /** Attributes are as before, unless some Set call failed; then some access
      bits are off. The failed calls are those that the mishaps speak of. */
  ghost predicate AttributesEffect(c: Config, t: Target, t': Target, mishaps: Mishaps) {
    && c.machine.Weakened(t.attributes, t'.attributes)
    && (mishaps.unrestored <==> t'.attributes != t.attributes)
    && t.failed.calls <= t'.failed.calls && t.failed.sets <= t'.failed.sets
    && (mishaps.denied <==> t'.failed.calls > t.failed.calls)
    && (mishaps.unrestored <==> t'.failed.sets > t.failed.sets)
  }

  function Verdict(ok: bool): seq<Byte> {
    if ok then OK else ErrorReply(GDB_ERROR_INTERNAL)
  }

  /** One step of the bounded set of watches; the AArch64 code refuses length 0. */
  predicate WatchEffect(arch: Arch, slots: seq<WatchSet.Slot>, slots': seq<WatchSet.Slot>, remove: bool,
                        a: Address, length: nat, read: bool, write: bool, ok: bool)
  {
    if arch.AArch64? && length == 0 then !ok && slots' == slots
    else
      var k := if arch.X64? then WatchpointsX64.KeyOf(a, length, read)
               else WatchpointsAArch64.KeyOf(a, length, read, write);
      WatchSet.Step(slots, if remove then WatchSet.RemoveKey(k) else WatchSet.AddKey(k), ok, slots')
  }

  /** The commands that leave the target alone. */
  ghost predicate Answers(letter: Byte, args: seq<Byte>, sent: seq<seq<Byte>>) {
    if letter == 'q' as int then QueryAnswers(args, sent)
    else sent == [if letter == 'H' as int || letter == '!' as int then OK
                  else if letter == '?' as int then STOP_REPLY
                  else if letter == 'r' as int || letter == 'R' as int then ErrorReply(GDB_ERROR_UNSUPPORTED)
                  else ErrorReply(GDB_ERROR_UNKOWN_CMD)]
  }

  ghost predicate QueryAnswers(args: seq<Byte>, sent: seq<seq<Byte>>) {
    match QueryOf(args)
    case Answer(answer) => sent == [answer]
    case Monitor => MonitorAnswers(|CString(args)| - 5, sent)
    case _ => |sent| == 1 && IsReply(sent[0])
  }

  /** Console output and OK, unless the hex digits of the command do not pair
      up or overrun the command buffer. */
  ghost predicate MonitorAnswers(hexLength: int, sent: seq<seq<Byte>>) {
    if hexLength % 2 != 0 || hexLength / 2 >= 128 then sent == [ErrorReply(GDB_ERROR_BAD_REQUEST)]
    else exists text :: IsConsoleText(text) && sent == [ConsoleReply(text), OK]
  }

  // ---------------------------------- when breakpoint memory is out of reach

  predicate AsksBreak(command: seq<Byte>) {
    Letter(command) in {'Z' as int, 'z' as int} && ParseBreak(Args(command)).Software?
  }

  /** Policy stops the memory access of this breakpoint command. */
  ghost predicate BreakBlocked(c: Config, t: Target, command: seq<Byte>)
    requires Fitting(c, t) && AsksBreak(command)
  {
    var a := ParseBreak(Args(command)).address;
    if Letter(command) == 'z' as int then RemoveBlocked(c.machine, t.attributes, t.state, c.instr, a)
    else AddBlocked(c.machine, t.attributes, t.state, c.instr, a)
  }

  /** The memory of a breakpoint command, if it is one, is accessible: policy
      does not stop it, and no call of the attribute protocol fails. */
  ghost predicate Reached(c: Config, t: Target, command: seq<Byte>, mishaps: Mishaps)
    requires Fitting(c, t)
  {
    AsksBreak(command) ==> !mishaps.denied && !BreakBlocked(c, t, command)
  }

  /** Accessibility is exactly what it takes for the breakpoint code to do what
      it means to. */
  lemma FailsIffOutOfReach(c: Config, t: Target, t': Target, command: seq<Byte>, mishaps: Mishaps, sent: seq<seq<Byte>>)
    requires Fitting(c, t) && Effect(c, t, t', command, mishaps, sent)
    ensures mishaps.Failed() <==> !Reached(c, t, command, mishaps)
  {
    hide Outcome, RegisterEffect, ParseBreak, WatchEffect, QueryAnswers, VActionOf, AttributesEffect, Alike;
    hide AddMishaps, RemoveMishaps, AddBlocked, RemoveBlocked, AddedWith, RemovedWith, AddSucceeds, FindActive, Stepped;
    if AsksBreak(command) {
      FailsIffBlocked(c.machine, t.attributes, t.state, c.instr, ParseBreak(Args(command)).address, mishaps);
    }
  }

  /** Every command only ever takes access bits off, and only where a Set call failed. */
  lemma EffectWeakens(c: Config, t: Target, t': Target, command: seq<Byte>, mishaps: Mishaps, sent: seq<seq<Byte>>)
    requires Fitting(c, t) && Effect(c, t, t', command, mishaps, sent)
    ensures AttributesEffect(c, t, t', mishaps)
  {
    hide Outcome, RegisterEffect, ParseBreak, WatchEffect, QueryAnswers, VActionOf, Alike, Machine.Weakened;
    hide AddMishaps, RemoveMishaps, AddedWith, RemovedWith, AddSucceeds, FindActive, Stepped;
    c.machine.WeakenedSelf(t.attributes);
  }

  // ------------------------------------------ what a command keeps off

  /** The command changes none of these words: they are not in the range it
      writes, nor in the instruction it plants or lifts. */
  ghost predicate KeepsOff(instr: seq<Byte>, command: seq<Byte>, entries: seq<Address>) {
    && (Letter(command) == 'M' as int && ParseMemory(Args(command), true).MemRequest? ==>
          AllOff(entries, ParseMemory(Args(command), true).address, |ParseMemory(Args(command), true).value| / 2))
    && (AsksBreak(command) ==> AllOff(entries, ParseBreak(Args(command)).address, |instr|))
  }

  lemma WordsKept(c: Config, t: Target, t': Target, command: seq<Byte>, mishaps: Mishaps, sent: seq<seq<Byte>>,
                  entries: seq<Address>)
    requires Fitting(c, t) && Effect(c, t, t', command, mishaps, sent) && KeepsOff(c.instr, command, entries)
    ensures Whole(t.state.memory) && Whole(t'.state.memory)
    ensures SameWords(t.state.memory, t'.state.memory, entries)
  {
    hide RegisterEffect, ParseBreak, WatchEffect, QueryAnswers, VActionOf, AttributesEffect, ParseMemory, Decode;
    hide Stepped, AllOff, SameWords, Machine.Blocked, Machine.Refuses, FindActive, FindFree, AddMishaps, RemoveMishaps, Offset;
    SameSelf(t.state.memory, entries);
    if Letter(command) == 'M' as int {
      WriteKept(c, t, t', command, mishaps, sent, entries);
    } else if AsksBreak(command) {
      OffRange(t.state.memory, t'.state.memory, ParseBreak(Args(command)).address, |c.instr|, entries);
    }
  }

  lemma WriteKept(c: Config, t: Target, t': Target, command: seq<Byte>, mishaps: Mishaps, sent: seq<seq<Byte>>,
                  entries: seq<Address>)
    requires Fitting(c, t) && Effect(c, t, t', command, mishaps, sent) && KeepsOff(c.instr, command, entries)
    requires Letter(command) == 'M' as int
    ensures Whole(t.state.memory) && Whole(t'.state.memory)
    ensures SameWords(t.state.memory, t'.state.memory, entries)
  {
    hide ParseMemory, Decode, AllOff, SameWords, Machine.Blocked, Machine.Refuses, Offset;
    SameSelf(t.state.memory, entries);
    var r := ParseMemory(Args(command), true);
    if r.MemRequest? {
      OffRange(t.state.memory, t'.state.memory, r.address, |r.value| / 2, entries);
    }
  }

  // -------------------------------------- watchpoints across commands

  /** The set operation a command asks for, if any. */
  datatype WatchRequest = NoWatch | WatchOp(op: WatchSet.Op)

  function WatchRequestOf(arch: Arch, command: seq<Byte>): WatchRequest {
    var letter, r := Letter(command), ParseBreak(Args(command));
    if letter !in {'Z' as int, 'z' as int} || !r.Watch? || (arch.AArch64? && r.length == 0) then NoWatch
    else
      var k := if arch.X64? then WatchpointsX64.KeyOf(r.address, r.length, r.read)
               else WatchpointsAArch64.KeyOf(r.address, r.length, r.read, r.write);
      WatchOp(if letter == 'z' as int then WatchSet.RemoveKey(k) else WatchSet.AddKey(k))
  }

  ghost predicate HoldsSet(slots: seq<WatchSet.Slot>, held: set<WatchSet.Key>) {
    |slots| == WatchSet.MAX_WATCHPOINTS && WatchSet.Distinct(slots) && WatchSet.Held(slots) == held
  }

  /** A command does to the slots what it does to the bounded set, and its reply
      is the set's verdict. */
  lemma CommandKeepsSet(c: Config, t: Target, t': Target, command: seq<Byte>, mishaps: Mishaps, sent: seq<seq<Byte>>,
                        held: set<WatchSet.Key>)
    requires Fitting(c, t) && Effect(c, t, t', command, mishaps, sent) && HoldsSet(t.slots, held)
    ensures var w := WatchRequestOf(c.arch, command);
            if w.NoWatch? then t'.slots == t.slots
            else HoldsSet(t'.slots, WatchSet.SetAfter(held, w.op).1) && sent == [Verdict(WatchSet.SetAfter(held, w.op).0)]
  {
    hide WatchSet.Step, WatchSet.Held, WatchSet.Distinct, ParseBreak, WatchpointsX64.KeyOf, WatchpointsAArch64.KeyOf;
    hide Outcome, RegisterEffect, SoftwareEffect, QueryAnswers, VActionOf, WatchSet.SetAfter;
    var w, r := WatchRequestOf(c.arch, command), ParseBreak(Args(command));
    if w.WatchOp? {
      var ok :| sent == [Verdict(ok)] &&
        WatchEffect(c.arch, t.slots, t'.slots, Letter(command) == 'z' as int, r.address, r.length, r.read, r.write, ok);
      WatchSet.StepRefines(t.slots, w.op, ok, t'.slots);
    }
  }

  // ------------------------------------- breakpoints across commands

  /** The planted addresses once a command was executed. */
  function PlantedBy(planted: set<Address>, command: seq<Byte>): set<Address> {
    var letter, r := Letter(command), ParseBreak(Args(command));
    if letter == 'Z' as int && r.Software? then PlantedAfter(planted, Add(r.address))
    else if letter == 'z' as int && r.Software? then PlantedAfter(planted, Remove(r.address))
    else planted
  }

  /** Breakpoints are asked for at instruction boundaries, and memory writes
      keep off planted slots. */
  ghost predicate Considerate(planted: set<Address>, size: int, command: seq<Byte>)
    requires size == 1 || size == 4
  {
    && (Letter(command) == 'Z' as int && ParseBreak(Args(command)).Software? ==>
          Aligned(ParseBreak(Args(command)).address, size))
    && (Letter(command) == 'M' as int && ParseMemory(Args(command), true).MemRequest? ==>
          OffSlots(planted, size, ParseMemory(Args(command), true).address, |ParseMemory(Args(command), true).value| / 2))
  }

  /** A memory write puts the same bytes into two memories: all of its data if
      it is answered OK, else a prefix that ends where a page begins. */
  ghost predicate SameWrite(mem: seq<Byte>, mem': seq<Byte>, plain: seq<Byte>, plain': seq<Byte>, args: seq<Byte>,
                            reply: seq<Byte>)
    requires Whole(mem) && Whole(plain)
  {
    match ParseMemory(args, true)
    case BadRequest => mem' == mem && plain' == plain
    case MemRequest(address, _, value) => exists k :: WrittenBoth(mem, mem', plain, plain', address, Decode(value), k, reply)
  }

  ghost predicate WrittenBoth(mem: seq<Byte>, mem': seq<Byte>, plain: seq<Byte>, plain': seq<Byte>,
                              address: Address, data: seq<Byte>, k: int, reply: seq<Byte>)
    requires Whole(mem) && Whole(plain)
  {
    && 0 <= k <= |data|
    && mem' == Patch(mem, address, data[..k]) && plain' == Patch(plain, address, data[..k])
    && (if reply == OK then k == |data| else StartsPage(address, |data|, k))
  }

  /** Every command leaves a table and memory that stand for the program's own
      memory with the right breakpoints planted. Only a write changes the
      program's own memory, and it does so as if no breakpoint were there. */
  lemma CommandIsTransparent(c: Config, t: Target, t': Target, command: seq<Byte>, mishaps: Mishaps,
                             sent: seq<seq<Byte>>, v: View)
    returns (v': View)
    requires Fitting(c, t) && Represents(t.state, v, c.instr)
    requires Effect(c, t, t', command, mishaps, sent) && Reached(c, t, command, mishaps) && Considerate(v.planted, |c.instr|, command)
    ensures Represents(t'.state, v', c.instr) && v'.planted == PlantedBy(v.planted, command)
    ensures Letter(command) != 'M' as int ==> v'.pristine == v.pristine
    ensures Letter(command) == 'M' as int ==>
              |sent| == 1 && SameWrite(t.state.memory, t'.state.memory, v.pristine, v'.pristine, Args(command), sent[0])
  {
    hide Represents, ParseMemory, ParseBreak, RegisterEffect, FindActive, AddSucceeds, IsInstruction, SameWrite;
    hide Reached, SoftwareEffect, AttributesEffect;
    v' := v.(planted := PlantedBy(v.planted, command));
    if Letter(command) == 'M' as int {
      v' := WriteIsTransparent(c, t, t', command, mishaps, sent, v);
    } else if Letter(command) in {'Z' as int, 'z' as int} {
      BreakIsTransparent(c, t, t', command, mishaps, sent, v);
    }
  }

  lemma BreakIsTransparent(c: Config, t: Target, t': Target, command: seq<Byte>, mishaps: Mishaps,
                             sent: seq<seq<Byte>>, v: View)
    requires Fitting(c, t) && Represents(t.state, v, c.instr) && Letter(command) in {'Z' as int, 'z' as int}
    requires Effect(c, t, t', command, mishaps, sent) && Reached(c, t, command, mishaps) && Considerate(v.planted, |c.instr|, command)
    ensures Represents(t'.state, v.(planted := PlantedBy(v.planted, command)), c.instr)
  {
    hide Represents, ParseBreak, FindActive, AddSucceeds, WatchEffect, Reached, AddedWith, RemovedWith, Alike;
    hide AddMishaps, RemoveMishaps, AttributesEffect;
    FailsIffOutOfReach(c, t, t', command, mishaps, sent);
    var r := ParseBreak(Args(command));
    if r.Software? {
      StepRefines(t.state, v, c.instr, if Letter(command) == 'z' as int then Remove(r.address) else Add(r.address));
    }
  }

  lemma WriteIsTransparent(c: Config, t: Target, t': Target, command: seq<Byte>, mishaps: Mishaps,
                             sent: seq<seq<Byte>>, v: View)
    returns (v': View)
    requires Fitting(c, t) && Represents(t.state, v, c.instr) && Letter(command) == 'M' as int
    requires Effect(c, t, t', command, mishaps, sent) && Reached(c, t, command, mishaps) && Considerate(v.planted, |c.instr|, command)
    ensures Represents(t'.state, v', c.instr) && v'.planted == v.planted
    ensures |sent| == 1 && SameWrite(t.state.memory, t'.state.memory, v.pristine, v'.pristine, Args(command), sent[0])
  {
    hide ParseMemory, Represents, Patch, Decode, Machine.Refuses, Machine.Blocked;
    v' := v;
    var r := ParseMemory(Args(command), true);
    if r.MemRequest? {
      var data := Decode(r.value);
      var mem, mem' := t.state.memory, t'.state.memory;
      RepresentsWhole(t.state, v, c.instr);
      NotOk();
      var k := |data|;
      if sent[0] != OK {
        k :| StartsPage(r.address, |data|, k) && mem' == Patch(mem, r.address, data[..k]);
      }
      assert data[..|data|] == data;
      PatchRefines(t.state, v, c.instr, r.address, data[..k]);
      v' := v.(pristine := Patch(v.pristine, r.address, data[..k]));
      assert WrittenBoth(mem, mem', v.pristine, v'.pristine, r.address, data, k, sent[0]);
    }
  }

  lemma RepresentsWhole(s: State, v: View, instr: seq<Byte>)
    requires IsInstruction(instr) && Represents(s, v, instr)
    ensures Whole(v.pristine)
  {
  }
}
