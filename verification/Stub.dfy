/** The GDB stub: static buffers, acknowledgement state, and the packet engine
    from the transport down to the command handlers. */
module Stub {
  import opened Bytes
  import opened Memory
  import opened MemoryAccess
  import opened Breakpoints
  import opened Registers
  import opened Contexts
  import opened Text
  import opened Packets
  import opened Traces
  import opened Commands
  import opened MemoryCommands
  import opened Handlers
  import opened Effects
  import opened Sessions
  import BitFields
  import WatchSet
  import WatchpointsX64
  import WatchpointsAArch64

  const SCRATCH_SIZE: nat := 1024

  // -------------------------------------------------------------- the stub

  /** The argument of SendGdbResponse: NULL, mResponse, or some other string. */
  datatype Response = Again | Nested | Text(s: seq<Byte>)

  /** The watchpoint registers the stub was built for. */
  datatype Watchpoints =
    | DebugRegs(dr: WatchpointsX64.DebugRegisters)
    | WatchRegs(wr: WatchpointsAArch64.WatchRegisters)

  class GdbStub {
    const mRequest: array<Byte>
    const mResponseFull: array<Byte>
    const mScratch: array<Byte>
    var responseLength: nat
    var mResponseAcknowledged: bool
    var mConnectionOccurred: bool
    var mNextBreakpointTimeout: nat
    var gRunning: bool
    /** MDSCR_EL1, on AArch64. */
    var mdscr: Address

    const context: array<Byte>
    const registers: seq<Register>
    const breakpoints: BreakpointTable
    const watchpoints: Watchpoints
    const windbgWorkarounds: bool

    var input: seq<In>
    ghost var trace: seq<Event>

    ghost function Configuration(): Config {
      Config(if watchpoints.DebugRegs? then X64 else AArch64, breakpoints.machine, breakpoints.instr, registers,
             windbgWorkarounds)
    }

    /** The shape of the stub, which never changes. */
    ghost predicate Shape() {
      && mRequest.Length == MAX_REQUEST_SIZE
      && mResponseFull.Length == 1 + MAX_RESPONSE_SIZE + 3 + 2
      && mScratch.Length == SCRATCH_SIZE
      && mRequest != mResponseFull && mRequest != mScratch && mResponseFull != mScratch
      && context != mRequest && context != mResponseFull && context != mScratch
      && Fits(registers, context.Length) && Digits(registers) <= MAX_RESPONSE_SIZE
      && context.Length == ContextSize(Configuration().arch)
      && (watchpoints.WatchRegs? ==> watchpoints.wr.Valid())
      && Apart()
    }

    /** The watchpoint registers are not any of the buffers. */
    ghost predicate Apart() {
      && mRequest !in WatchState() && mResponseFull !in WatchState() && mScratch !in WatchState()
      && context !in WatchState() && breakpoints.mBreakpoints !in WatchState()
      && this !in WatchState() && breakpoints.machine !in WatchState() && breakpoints !in WatchState()
    }

    /** The memory behind the watchpoint registers. */
    ghost function WatchState(): set<object> {
      match watchpoints
      case DebugRegs(dr) => {dr}
      case WatchRegs(wr) => {wr.values as object} + {wr.controls as object}
    }

    /** Everything but the contents of the response buffer. */
    ghost predicate Core()
      reads this, breakpoints, breakpoints.machine, breakpoints.mBreakpoints
    {
      && Shape()
      && breakpoints.Valid()
      && GoodTrace(trace)
      && (mConnectionOccurred <==> Connected(trace))
    }

    /** The response buffer holds, byte for byte, the last packet sent. */
    ghost predicate Synced()
      reads this, mResponseFull
    {
      LastPacket(trace) != [] ==>
        4 <= responseLength <= mResponseFull.Length && mResponseFull[..responseLength] == LastPacket(trace)
    }

    ghost predicate Valid()
      reads this, mResponseFull, breakpoints, breakpoints.machine, breakpoints.mBreakpoints
    {
      Core() && Synced()
    }

    /** The stub as it is loaded: nothing sent, nothing received, target running. */
    constructor (context: array<Byte>, registers: seq<Register>, breakpoints: BreakpointTable,
                 watchpoints: Watchpoints, windbgWorkarounds: bool, mdscr: Address, input: seq<In>)
      requires Fits(registers, context.Length) && Digits(registers) <= MAX_RESPONSE_SIZE
      requires context.Length == ContextSize(if watchpoints.DebugRegs? then X64 else AArch64)
      requires breakpoints.Valid() && (watchpoints.WatchRegs? ==> watchpoints.wr.Valid())
      ensures Valid() && fresh(mRequest) && fresh(mResponseFull) && fresh(mScratch)
      ensures this.context == context && this.registers == registers && this.breakpoints == breakpoints
      ensures this.watchpoints == watchpoints && this.windbgWorkarounds == windbgWorkarounds
      ensures this.input == input && this.mdscr == mdscr && trace == []
      ensures gRunning && !mConnectionOccurred && !mResponseAcknowledged && mNextBreakpointTimeout == 0
    {
      mRequest := new Byte[MAX_REQUEST_SIZE](_ => 0);
      mResponseFull := new Byte[1 + MAX_RESPONSE_SIZE + 3 + 2](_ => 0);
      mScratch := new Byte[SCRATCH_SIZE](_ => 0);
      responseLength, mResponseAcknowledged, mConnectionOccurred := 0, false, false;
      mNextBreakpointTimeout, gRunning, this.mdscr := 0, true, mdscr;
      this.context, this.registers, this.breakpoints := context, registers, breakpoints;
      this.watchpoints, this.windbgWorkarounds, this.input := watchpoints, windbgWorkarounds, input;
      trace := [];
    }

    /** SendGdbResponse: sends the last packet again, or frames a reply in place. */
    method SendGdbResponse(response: Response)
      requires Core()
      requires response == Again ==> Synced() && LastPacket(trace) != [] && !mResponseAcknowledged
      requires response.Text? ==> IsReply(response.s)
      requires response == Nested ==>
                 mResponseFull.Length > 1 && Find(mResponseFull[1..], NUL) < mResponseFull.Length - 1 &&
                 IsReply(CString(mResponseFull[1..]))
      modifies this`responseLength, this`mResponseAcknowledged, this`trace, mResponseFull
      ensures Valid() && !mResponseAcknowledged
      ensures response == Again ==>
                trace == old(trace) + [Resent(LastPacket(old(trace)))] && mResponseFull[..] == old(mResponseFull[..])
      ensures response.Text? ==> trace == old(trace) + [Sent(Frame(response.s))]
      ensures response == Nested ==> trace == old(trace) + [Sent(Frame(old(CString(mResponseFull[1..]))))]
    {
      hide GoodTrace, Connected, LastPacket, Fits, Frame, Find, CString;
      if response == Again {
        Transmit(Resent(mResponseFull[..responseLength]));
      } else {
        var n: nat;
        ghost var payload := if response.Text? then response.s else CString(mResponseFull[1..]);
        if response.Text? {
          n := |response.s|;
          forall i | 0 <= i < n { mResponseFull[1 + i] := response.s[i]; }
        } else {
          n := AsciiStrLen(mResponseFull, 1);
        }
        assert mResponseFull[1..1 + n] == payload;
        FrameInPlace(n, payload);
        Transmit(Sent(Frame(payload)));
      }
    }

    /** DebugTransportWrite of the framed packet in the response buffer. */
    method Transmit(ghost e: Event)
      requires Core() && (e.Sent? || e.Resent?)
      requires 4 <= responseLength <= mResponseFull.Length && e.packet == mResponseFull[..responseLength]
      requires e.Sent? ==> IsFramed(e.packet)
      requires e.Resent? ==> e.packet == LastPacket(trace)
      modifies this`mResponseAcknowledged, this`trace
      ensures Valid() && !mResponseAcknowledged
      ensures trace == old(trace) + [e]
    {
      hide LastPacket, GoodTrace, Connected, IsFramed, Shape;
      mResponseAcknowledged := false;
      TransmittedIsGood(trace, e);
      Snoc(trace, e);
      trace := trace + [e];
    }

    /** Puts the frame around the n reply bytes that are already in place. */
    method FrameInPlace(n: nat, ghost payload: seq<Byte>)
      requires mResponseFull.Length == 1 + MAX_RESPONSE_SIZE + 3 + 2 && n <= MAX_RESPONSE_SIZE
      requires mResponseFull[1..1 + n] == payload
      modifies this`responseLength, mResponseFull
      ensures responseLength == n + 4
      ensures mResponseFull[..n + 4] == Frame(payload)
      ensures mResponseFull[n + 4] == NUL
    {
      var checksum := CalculateSum8(mResponseFull, 1, n);
      mResponseFull[0] := DOLLAR;
      mResponseFull[n + 1] := HASH;
      mResponseFull[n + 2] := HexChar(checksum / 16);
      mResponseFull[n + 3] := HexChar(checksum % 16);
      mResponseFull[n + 4] := NUL;
      responseLength := n + 4;
      assert mResponseFull[1..1 + n] == payload;
    }

    method SendGdbError(code: Byte)
      requires Core()
      modifies this`responseLength, this`mResponseAcknowledged, this`trace, mResponseFull
      ensures Valid() && !mResponseAcknowledged
      ensures trace == old(trace) + [Sent(Frame(ErrorReply(code)))]
    {
      SendGdbResponse(Text(ErrorReply(code)));
    }

    /** SendGdbResponse (&mResponse[0]), where the text was built in place. */
    method SendNested(ghost text: seq<Byte>)
      requires Core() && IsReply(text)
      requires mResponseFull[1..1 + |text|] == text && mResponseFull[1 + |text|] == NUL
      modifies this`responseLength, this`mResponseAcknowledged, this`trace, mResponseFull
      ensures Valid() && !mResponseAcknowledged
      ensures trace == old(trace) + [Sent(Frame(text))]
    {
      hide Core, Frame, Synced;
      assert mResponseFull.Length == 1 + MAX_RESPONSE_SIZE + 3 + 2 by { CoreShape(); }
      TextInBuffer(mResponseFull[..], 1, text);
      assert mResponseFull[..][1..] == mResponseFull[1..];
      SendGdbResponse(Nested);
    }

    lemma CoreShape()
      requires Core()
      ensures Shape()
    {
    }

    // ----------------------------------------------------------- registers

    method ReadGeneralRegisters()
      requires Valid()
      modifies this`responseLength, this`mResponseAcknowledged, this`trace, mResponseFull
      ensures Valid() && !mResponseAcknowledged
      ensures trace == old(trace) + [Sent(Frame(ReadAll(context[..], registers)))]
    {
      hide GoodTrace, Connected, Fits;
      ghost var want := ReadAll(context[..], registers);
      var ptr := ReadRegisters(context, registers, mResponseFull, 1);
      mResponseFull[ptr] := NUL;
      assert mResponseFull[1..ptr] == want;
      ReadAllIsHex(context[..], registers);
      HexIsReply(want);
      SendNested(want);
    }

    /** The bytes of the command, without the leading `$`, NUL-terminated in place. */
    ghost predicate Holds(command: seq<Byte>)
      reads mRequest
    {
      && mRequest.Length == MAX_REQUEST_SIZE && |command| <= MAX_REQUEST_SIZE - 4
      && mRequest[1..1 + |command|] == command && mRequest[1 + |command|] == NUL
    }

    method WriteGeneralRegisters(ghost command: seq<Byte>)
      requires Valid() && Holds(command) && command != []
      modifies this`responseLength, this`mResponseAcknowledged, this`trace, mResponseFull, context
      ensures Valid() && !mResponseAcknowledged
      ensures var r := WriteAll(old(context[..]), registers, CString(command[1..]));
              && context[..] == r.0
              && trace == old(trace) + [Sent(Frame(if r.1 then OK else ErrorReply(GDB_ERROR_INTERNAL)))]
    {
      hide GoodTrace, Connected, Fits, Find;
      InPlace(command, 1);
      var ok := WriteRegisters(context, registers, mRequest, 2);
      if !ok {
        SendGdbError(GDB_ERROR_INTERNAL);
        return;
      }
      ConstantReplies();
      SendGdbResponse(Text(OK));
    }

    /** The C string at any place of the command is the command's own. */
    lemma InPlace(command: seq<Byte>, k: nat)
      requires Holds(command) && k <= |command|
      ensures CString(mRequest[1 + k..]) == CString(command[k..])
      ensures Find(mRequest[1 + k..], NUL) < mRequest.Length - (1 + k)
    {
      var tail := mRequest[1 + |command|..];
      assert mRequest[1 + k..] == command[k..] + tail;
      CStringCut(command[k..], tail);
      FindAtMost(mRequest[1 + k..], NUL, |command| - k);
    }

    method ReadRegister(ghost command: seq<Byte>)
      requires Valid() && Holds(command) && command != []
      modifies this`responseLength, this`mResponseAcknowledged, this`trace, mResponseFull
      ensures Valid() && !mResponseAcknowledged
      ensures var i := ParseHex(CString(command[1..]));
              trace == old(trace) + [Sent(Frame(if i < |registers| then ReadOne(context[..], registers[i])
                                                else ErrorReply(GDB_ERROR_BAD_REG_INDEX)))]
    {
      hide ReadOne, GoodTrace, Connected, ParseHex;
      InPlace(command, 1);
      var index := ParseHex(CString(mRequest[2..]));
      if index >= |registers| {
        SendGdbError(GDB_ERROR_BAD_REG_INDEX);
        return;
      }
      ghost var want := ReadOne(context[..], registers[index]);
      var ptr := ReadRegisterFromContext(context, registers[index], mResponseFull, 1);
      mResponseFull[ptr] := NUL;
      assert mResponseFull[1..ptr] == want;
      ReadOneIsHex(context[..], registers[index]);
      HexIsReply(want);
      SendNested(want);
    }

    method WriteRegister(ghost command: seq<Byte>)
      requires Valid() && Holds(command) && command != []
      modifies this`responseLength, this`mResponseAcknowledged, this`trace, mResponseFull, mRequest, context
      ensures Valid() && !mResponseAcknowledged
      ensures var r := RegisterWritten(old(context[..]), registers, CString(command[1..]));
              context[..] == r.0 && trace == old(trace) + [Sent(Frame(r.1))]
    {
      hide GoodTrace, Connected, Fits, Find, CString, Frame, RegisterWritten;
      InPlace(command, 1);
      var reply := WriteNamedRegister(context, registers, mRequest, 2);
      RegisterReplies(old(context[..]), registers, CString(command[1..]));
      SendGdbResponse(Text(reply));
    }

    // -------------------------------------------------------------- memory

    method ProcessMemoryCommand(write: bool, ghost command: seq<Byte>, commandLength: nat)
      returns (ghost mishaps: Mishaps, ghost reply: seq<Byte>)
      requires Valid() && Holds(command) && command != [] && commandLength == |command| - 1
      requires StaysInBounds(breakpoints.machine, breakpoints.machine.attributes, breakpoints.machine.memory,
                             windbgWorkarounds, command)
      requires command[0] == (if write then 'M' as int else 'm' as int)
      modifies this`responseLength, this`mResponseAcknowledged, this`trace,
               mResponseFull, mRequest, mScratch,
               breakpoints.machine`memory, breakpoints.machine`attributes, breakpoints.machine`failed
      ensures Valid() && !mResponseAcknowledged
      ensures trace == old(trace) + [Sent(Frame(reply))]
      ensures Outcome(breakpoints.machine, old(breakpoints.machine.attributes), mishaps.denied,
                      old(breakpoints.machine.memory), breakpoints.machine.memory, command[1..], write,
                      windbgWorkarounds, reply)
      ensures !mishaps.Failed()
      ensures breakpoints.machine.Weakened(old(breakpoints.machine.attributes), breakpoints.machine.attributes)
      ensures mishaps.unrestored <==> breakpoints.machine.attributes != old(breakpoints.machine.attributes)
      ensures breakpoints.machine.Logged(mishaps.denied, !mishaps.unrestored)
    {
      hide GoodTrace, Connected, Fits, Frame, Outcome, LastPacket, StaysInBounds, Machine.Weakened;
      assert mRequest[2..2 + commandLength] == command[1..];
      var nested, answer, overrun;
      nested, answer, overrun, mishaps :=
        Perform(breakpoints.machine, mRequest, mScratch, mResponseFull, command, commandLength, write, windbgWorkarounds);
      reply := answer;
      if nested {
        SendNested(answer);
      } else {
        SendGdbResponse(Text(answer));
      }
    }

    // ------------------------------------------------------------ v packets

    method ProcessVCommand(ghost command: seq<Byte>, commandLength: nat) returns (ghost sent: seq<seq<Byte>>)
      requires Valid() && Holds(command) && command != [] && commandLength == |command| - 1
      modifies this`responseLength, this`mResponseAcknowledged, this`trace, this`gRunning, this`mdscr,
               mResponseFull, mRequest, context
      ensures Valid() && Answered(sent)
      ensures var action := VActionOf(command[1..]);
              && sent == (match action case Reply(text) => [text] case _ => [])
              && (gRunning <==> old(gRunning) || !action.Reply?)
              && context[..] == (if action.StepOnce? then Stepped(Configuration().arch, old(context[..]))
                                 else old(context[..]))
              && mdscr == if action.StepOnce? then SteppedMdscr(Configuration().arch, old(mdscr)) else old(mdscr)
    {
      hide GoodTrace, Connected, Fits, Frame, LastPacket, VActionOf, Stepped, SteppedMdscr, Sends;
      assert mRequest[2..2 + commandLength] == command[1..];
      var action := ParseVCommand(mRequest, 2, commandLength);
      sent := [];
      NoSends();
      match action {
        case Reply(text) =>
          VReplies(command[1..]);
          SendGdbResponse(Text(text));
          sent := [text];
          OneSend(text);
        case Continue =>
          gRunning := true;
        case StepOnce =>
          mdscr := AddSingleStep(if watchpoints.DebugRegs? then X64 else AArch64, context, mdscr);
          gRunning := true;
      }
    }

    // -------------------------------------------------------------- queries

    /** AsciiSPrint into mResponse: some text without delimiters that fits. What
        it says is not part of this model. */
    method PrintResponse() returns (text: seq<Byte>)
      requires Shape()
      modifies mResponseFull
      ensures IsReply(text) && mResponseFull[1..1 + |text|] == text && mResponseFull[1 + |text|] == NUL
    {
      text := *;
      if !IsReply(text) { text := []; }
      forall i | 0 <= i < |text| { mResponseFull[1 + i] := text[i]; }
      mResponseFull[1 + |text|] := NUL;
    }

    /** AsciiSPrint into mScratch: some string, cut to the buffer. */
    method PrintScratch() returns (text: seq<Byte>)
      requires Shape()
      modifies mScratch
      ensures IsConsoleText(text) && mScratch[..|text|] == text && mScratch[|text|] == NUL
    {
      text := *;
      if !IsConsoleText(text) { text := []; }
      forall i | 0 <= i < |text| { mScratch[i] := text[i]; }
      mScratch[|text|] := NUL;
    }

    /** ReadTargetDescription and ReadTargetRegisters; the latter may run out of room. */
    method ReadTargetXml(mayFail: bool) returns (ghost reply: seq<Byte>)
      requires Valid()
      modifies this`responseLength, this`mResponseAcknowledged, this`trace, mResponseFull
      ensures Valid() && !mResponseAcknowledged
      ensures IsReply(reply) && trace == old(trace) + [Sent(Frame(reply))]
    {
      hide GoodTrace, Connected, Fits, Frame, LastPacket, IsReply;
      var text := PrintResponse();
      var outOfRoom: bool := *;
      if mayFail && outOfRoom {
        reply := ErrorReply(GDB_ERROR_RESPONSE_TOO_LONG);
        SendGdbError(GDB_ERROR_RESPONSE_TOO_LONG);
      } else {
        reply := text;
        SendNested(text);
      }
    }

    /** ProcessMonitorCmd: the console text in an "O" packet, then "OK". */
    method ProcessMonitorCmd(hexLength: nat) returns (ghost sent: seq<seq<Byte>>)
      requires Valid()
      modifies this`responseLength, this`mResponseAcknowledged, this`trace, mResponseFull, mScratch
      ensures Valid() && Answered(sent)
      ensures MonitorAnswers(hexLength, sent)
    {
      hide GoodTrace, Connected, Fits, Frame, LastPacket, IsReply;
      if hexLength % 2 != 0 || hexLength / 2 >= 128 {
        SendGdbError(GDB_ERROR_BAD_REQUEST);
        sent := [ErrorReply(GDB_ERROR_BAD_REQUEST)];
        OneSend(sent[0]);
        return;
      }
      var text := PrintScratch();
      mResponseFull[1] := 'O' as int;
      ConvertResponseToHex(mScratch, mResponseFull, 2, MAX_RESPONSE_SIZE - 1, text);
      ConsoleInPlace(mResponseFull[..], text);
      SendNested(ConsoleReply(text));
      ConstantReplies();
      SendGdbResponse(Text(OK));
      sent := [ConsoleReply(text), OK];
      TwoSends(sent[0], sent[1]);
    }

    method ProcessQuery(ghost command: seq<Byte>) returns (ghost sent: seq<seq<Byte>>)
      requires Valid() && Holds(command) && command != []
      modifies this`responseLength, this`mResponseAcknowledged, this`trace, mResponseFull, mScratch
      ensures Valid() && Answered(sent)
      ensures QueryAnswers(command[1..], sent)
    {
      hide GoodTrace, Connected, Fits, Frame, LastPacket, IsReply, QueryOf, CString, Find;
      InPlace(command, 1);
      QuerySameString(mRequest[2..], command[1..]);
      QueryReplies(command[1..]);
      var query := QueryOf(mRequest[2..]);
      match query {
        case Answer(answer) =>
          SendGdbResponse(Text(answer));
          sent := [answer];
          OneSend(answer);
        case Describe =>
          ghost var text := ReadTargetXml(false);
          sent := [text];
          OneSend(text);
        case ListRegisters =>
          ghost var text := ReadTargetXml(true);
          sent := [text];
          OneSend(text);
        case Monitor =>
          MonitorIsLong(command[1..]);
          var n := AsciiStrLen(mRequest, 2);
          sent := ProcessMonitorCmd(n - 5);
      }
    }

    /** Exactly these payloads were sent, framed; any of them awaits its acknowledgement. */
    twostate predicate Answered(sent: seq<seq<Byte>>)
      reads this
    {
      && trace == old(trace) + Sends(sent)
      && (mResponseAcknowledged <==> sent == [] && old(mResponseAcknowledged))
    }

    // ---------------------------------------------------------- breakpoints

    ghost function Slots(): seq<WatchSet.Slot>
      requires Shape()
      reads WatchState()
    {
      match watchpoints
      case DebugRegs(dr) => dr.Slots()
      case WatchRegs(wr) => wr.Slots()
    }

    /** What the debugger sees of the target. */
    ghost function TargetNow(): Target
      requires Shape()
      reads this`mdscr, breakpoints, breakpoints.machine, breakpoints.mBreakpoints, context, WatchState()
    {
      Target(breakpoints.Now(), breakpoints.machine.attributes, context[..], mdscr, Slots(), breakpoints.machine.failed)
    }

    method SoftwareBreakpoint(remove: bool, a: Address) returns (result: bool, ghost mishaps: Mishaps)
      requires Valid()
      modifies breakpoints.machine`memory, breakpoints.machine`attributes, breakpoints.machine`failed,
               breakpoints.mBreakpoints
      ensures Valid()
      ensures result == if remove then FindActive(old(breakpoints.Now().table), a) < MAX_BREAKPOINTS
                        else AddSucceeds(old(breakpoints.Now().table), a)
      ensures SoftwareEffect(Configuration(), old(TargetNow()), TargetNow(), remove, a, mishaps)
    {
      hide GoodTrace, Connected, Fits, LastPacket, Added, Removed, AddedWith, RemovedWith, Alike, Slots;
      hide AddMishaps, RemoveMishaps, Machine.Weakened;
      if remove {
        result, mishaps := breakpoints.RemoveSoftwareBreakpoint(a);
      } else {
        result, mishaps := breakpoints.AddSoftwareBreakpoint(a);
      }
    }

    method HardwareWatchpoint(remove: bool, a: Address, length: nat, read: bool, write: bool) returns (result: bool)
      requires Shape()
      modifies WatchState()
      ensures WatchEffect(Configuration().arch, old(Slots()), Slots(), remove, a, length, read, write, result)
    {
      hide WatchEffect, WatchpointsX64.DebugRegisters.Slots, WatchpointsAArch64.WatchRegisters.Slots;
      match watchpoints {
        case DebugRegs(dr) =>
          result := WatchX64(dr, remove, a, length, read, write);
        case WatchRegs(wr) =>
          result := WatchAArch64(wr, remove, a, length, read, write);
      }
    }

    /** ProcessBreakpoint, in front of its reply: whether the breakpoint came or went. */
    method ApplyBreakpoint(remove: bool, r: BreakRequest) returns (reply: seq<Byte>, ghost mishaps: Mishaps)
      requires Valid()
      modifies breakpoints.machine`memory, breakpoints.machine`attributes, breakpoints.machine`failed,
               breakpoints.mBreakpoints, WatchState()
      ensures Valid() && IsReply(reply)
      ensures BreakEffect(Configuration(), old(TargetNow()), TargetNow(), remove, r, mishaps, [reply])
    {
      hide Slots, WatchpointsX64.DebugRegisters.Slots, WatchpointsAArch64.WatchRegisters.Slots;
      hide GoodTrace, Connected, LastPacket, Added, Removed, WatchEffect, SoftwareEffect, IsReply;
      ConstantReplies();
      mishaps := NO_MISHAPS;
      var result;
      match r {
        case BadBreak =>
          return ErrorReply(GDB_ERROR_BAD_REQUEST), NO_MISHAPS;
        case Unsupported =>
          return ErrorReply(GDB_ERROR_UNSUPPORTED), NO_MISHAPS;
        case Software(a) =>
          result, mishaps := SoftwareBreakpoint(remove, a);
        case Watch(a, length, read, write) =>
          result := HardwareWatchpoint(remove, a, length, read, write);
      }
      reply := if result then OK else ErrorReply(GDB_ERROR_INTERNAL);
    }

    method ProcessBreakpoint(remove: bool, ghost command: seq<Byte>)
      returns (ghost mishaps: Mishaps, ghost sent: seq<seq<Byte>>)
      requires Valid() && Holds(command) && command != []
      modifies this`responseLength, this`mResponseAcknowledged, this`trace,
               mResponseFull, mRequest,
               breakpoints.machine`memory, breakpoints.machine`attributes, breakpoints.machine`failed,
               breakpoints.mBreakpoints, WatchState()
      ensures Valid() && Answered(sent)
      ensures BreakEffect(Configuration(), old(TargetNow()), TargetNow(), remove, ParseBreak(command[1..]), mishaps, sent)
    {
      hide Slots, WatchpointsX64.DebugRegisters.Slots, WatchpointsAArch64.WatchRegisters.Slots;
      hide GoodTrace, Connected, LastPacket, BreakEffect, ParseBreak, Frame, CString, Find, IsReply;
      InPlace(command, 1);
      BreakSameString(mRequest[2..], command[1..]);
      var r := ParseBreakpoint(mRequest, 2);
      assert TargetNow() == old(TargetNow());
      var reply;
      reply, mishaps := ApplyBreakpoint(remove, r);
      label Applied:
      SendGdbResponse(Text(reply));
      assert TargetNow() == old@Applied(TargetNow());
      sent := [reply];
      OneSend(reply);
    }

    // ------------------------------------------------------- one command

    /** The copies of this command stay inside their buffers. */
    ghost predicate Safe(command: seq<Byte>)
      reads breakpoints, breakpoints.machine
    {
      && breakpoints.machine.Valid()
      && StaysInBounds(breakpoints.machine, breakpoints.machine.attributes, breakpoints.machine.memory,
                       windbgWorkarounds, command)
    }

    /** The cases g, G, p and P of ExecuteGdbCommand. */
    method ExecuteRegisters(ghost command: seq<Byte>) returns (ghost sent: seq<seq<Byte>>)
      requires Valid() && Holds(command) && command != [] && command[0] == mRequest[1]
      requires command[0] in {'g' as int, 'G' as int, 'p' as int, 'P' as int}
      modifies this`responseLength, this`mResponseAcknowledged, this`trace, mResponseFull, mRequest, context
      ensures Valid() && Answered(sent)
      ensures (context[..], sent) == RegisterEffect(old(context[..]), registers, command[0], command[1..])
    {
      hide GoodTrace, Connected, LastPacket, Frame, CString, Fits, ReadAll, ReadOne, WriteAll, RegisterWritten, ParseHex;
      hide Sends;
      ghost var was := context[..];
      sent := RegisterEffect(was, registers, command[0], command[1..]).1;
      OneSend(sent[0]);
      if mRequest[1] == 'g' as int {
        ReadGeneralRegisters();
      } else if mRequest[1] == 'G' as int {
        WriteGeneralRegisters(command);
      } else if mRequest[1] == 'p' as int {
        ReadRegister(command);
      } else {
        WriteRegister(command);
      }
    }

    /** ExecuteGdbCommand */
    method ExecuteGdbCommand(ghost command: seq<Byte>, commandLength: nat)
      returns (ghost mishaps: Mishaps, ghost sent: seq<seq<Byte>>)
      requires Valid() && Holds(command) && commandLength == |command| && Safe(command)
      modifies this`responseLength, this`mResponseAcknowledged, this`trace, this`gRunning, this`mdscr,
               mRequest, mResponseFull, mScratch, context,
               breakpoints.machine`memory, breakpoints.machine`attributes, breakpoints.machine`failed,
               breakpoints.mBreakpoints, WatchState()
      ensures Valid() && Answered(sent)
      ensures Effect(Configuration(), old(TargetNow()), TargetNow(), command, mishaps, sent)
      ensures gRunning <==> old(gRunning) || Resumes(command)
    {
      hide GoodTrace, Connected, LastPacket, Frame, CString, Fits, RegisterEffect, Outcome, BreakEffect, QueryAnswers;
      hide VActionOf, InBounds, ParseBreak, Sends, Find, IsReply, Stepped, SteppedMdscr, StaysInBounds;
      hide Slots, WatchpointsX64.DebugRegisters.Slots, WatchpointsAArch64.WatchRegisters.Slots;
      mishaps := NO_MISHAPS;
      var letter := mRequest[1];
      assert letter == Letter(command);
      if letter == 'g' as int || letter == 'G' as int || letter == 'p' as int || letter == 'P' as int {
        sent := ExecuteRegisters(command);
      } else if letter == 'm' as int || letter == 'M' as int {
        ghost var reply;
        mishaps, reply := ProcessMemoryCommand(letter == 'M' as int, command, commandLength - 1);
        sent := [reply];
        OneSend(reply);
      } else if letter == 'Z' as int || letter == 'z' as int {
        mishaps, sent := ProcessBreakpoint(letter == 'z' as int, command);
      } else if letter == 'v' as int {
        sent := ProcessVCommand(command, commandLength - 1);
      } else {
        sent := ExecuteOther(command);
      }
    }

    /** The cases of ExecuteGdbCommand that leave the target alone. */
    method ExecuteOther(ghost command: seq<Byte>) returns (ghost sent: seq<seq<Byte>>)
      requires Valid() && Holds(command) && mRequest[1] == Letter(command)
      modifies this`responseLength, this`mResponseAcknowledged, this`trace, mRequest, mResponseFull, mScratch
      ensures Valid() && Answered(sent)
      ensures !Reaches(Letter(command)) ==> Answers(Letter(command), Args(command), sent)
    {
      hide GoodTrace, Connected, LastPacket, Frame, CString, Fits, QueryAnswers, Sends, Find, IsReply;
      ConstantReplies();
      var letter := mRequest[1];
      if letter == 'q' as int {
        sent := ProcessQuery(command);
        return;
      }
      var reply := if letter == 'H' as int || letter == '!' as int then OK
                   else if letter == '?' as int then STOP_REPLY
                   else if letter == 'r' as int || letter == 'R' as int then ErrorReply(GDB_ERROR_UNSUPPORTED)
                   else ErrorReply(GDB_ERROR_UNKOWN_CMD);
      SendGdbResponse(Text(reply));
      sent := [reply];
      OneSend(reply);
    }

    // --------------------------------------------------------- one packet

    ghost function LineNow(): Line
      reads this
    {
      Line(trace, mResponseAcknowledged)
    }

    method SendGdbAck(positive: bool)
      requires Valid()
      modifies this`trace
      ensures Valid() && trace == old(trace) + [Acked(positive)]
      ensures LastPacket(trace) == LastPacket(old(trace))
    {
      hide GoodTrace, Connected, LastPacket, Shape;
      Noted(trace, Acked(positive));
      trace := trace + [Acked(positive)];
    }

    /** A packet has passed validation and its command is about to be executed. */
    method Connect(ghost command: seq<Byte>)
      requires Valid() && trace != [] && trace[|trace| - 1] == Acked(true)
      modifies this`trace, this`mConnectionOccurred
      ensures Valid() && trace == old(trace) + [Executed(command)]
      ensures LastPacket(trace) == LastPacket(old(trace))
    {
      hide GoodTrace, Connected, LastPacket, Shape;
      Noted(trace, Executed(command));
      mConnectionOccurred := true;
      trace := trace + [Executed(command)];
    }

    /** ProcessGdbPacket up to its verdict: the index of the delimiter, if the checksum is right. */
    method ValidatePacket(packetLength: nat) returns (accepted: bool, checksumIndex: nat)
      requires 0 < packetLength <= mRequest.Length
      ensures var check := Validate(mRequest[..packetLength]);
              && (accepted <==> check.Accepted?)
              && (accepted ==> 1 <= checksumIndex && checksumIndex + 2 < packetLength
                               && check.command == mRequest[1..checksumIndex])
    {
      hide Sum8;
      ghost var packet := mRequest[..packetLength];
      checksumIndex := 1;
      while checksumIndex < packetLength && mRequest[checksumIndex] != HASH
        invariant 1 <= checksumIndex <= packetLength
        invariant forall j :: 1 <= j < checksumIndex ==> packet[j] != HASH
      {
        checksumIndex := checksumIndex + 1;
      }
      HashIndexIs(packet, checksumIndex);
      if checksumIndex + 2 >= packetLength {
        return false, checksumIndex;
      }
      var high, low := mRequest[checksumIndex + 1], mRequest[checksumIndex + 2];
      if !IsHexDigit(high) || !IsHexDigit(low) {
        return false, checksumIndex;
      }
      var checksum := 16 * HexValue(high) + HexValue(low);
      var calculated := CalculateSum8(mRequest, 1, checksumIndex - 1);
      assert packet[1..checksumIndex] == mRequest[1..checksumIndex];
      accepted := checksum == calculated;
    }

    /** The rest of ProcessGdbPacket: acknowledges the packet and executes its command. */
    method ExecutePacket(checksumIndex: nat, ghost command: seq<Byte>)
      returns (ghost mishaps: Mishaps, ghost sent: seq<seq<Byte>>)
      requires Valid() && LastPacket(trace) != [] && Safe(command)
      requires 1 <= checksumIndex < mRequest.Length - 2 && command == mRequest[1..checksumIndex]
      modifies this`responseLength, this`mResponseAcknowledged, this`trace, this`gRunning, this`mdscr,
               this`mConnectionOccurred,
               mRequest, mResponseFull, mScratch, context,
               breakpoints.machine`memory, breakpoints.machine`attributes, breakpoints.machine`failed,
               breakpoints.mBreakpoints, WatchState()
      ensures Valid() && LastPacket(trace) != []
      ensures trace == old(trace) + [Acked(true), Executed(command)] + Sends(sent)
      ensures mResponseAcknowledged <==> old(mResponseAcknowledged) && sent == []
      ensures Effect(Configuration(), old(TargetNow()), TargetNow(), command, mishaps, sent)
      ensures gRunning <==> old(gRunning) || Resumes(command)
    {
      hide GoodTrace, Connected, LastPacket, Fits, Effect, StaysInBounds, Sends, Resumes;
      hide Slots, WatchpointsX64.DebugRegisters.Slots, WatchpointsAArch64.WatchRegisters.Slots;
      SendGdbAck(true);
      Connect(command);
      mRequest[checksumIndex] := NUL;
      label Cut:
      assert mRequest[1..1 + |command|] == command;
      assert TargetNow() == old(TargetNow());
      mishaps, sent := ExecuteGdbCommand(command, checksumIndex - 1);
      AnsweredKeeps(old@Cut(trace), sent);
    }

    method ProcessGdbPacket(packetLength: nat) returns (ghost mishaps: Mishaps, ghost sent: seq<seq<Byte>>)
      requires Valid() && LastPacket(trace) != [] && 0 < packetLength <= mRequest.Length
      requires Accepts(Packet(mRequest[..packetLength])) ==> Safe(CommandOf(Packet(mRequest[..packetLength])))
      modifies this`responseLength, this`mResponseAcknowledged, this`trace, this`gRunning, this`mdscr,
               this`mConnectionOccurred,
               mRequest, mResponseFull, mScratch, context,
               breakpoints.machine`memory, breakpoints.machine`attributes, breakpoints.machine`failed,
               breakpoints.mBreakpoints, WatchState()
      ensures Valid() && LastPacket(trace) != []
      ensures LineNow() == PlayItem(old(LineNow()), Packet(old(mRequest[..packetLength])), sent)
      ensures IsTurn(Configuration(), Turn(Packet(old(mRequest[..packetLength])), old(TargetNow()), TargetNow(), mishaps, sent))
      ensures var item := Packet(old(mRequest[..packetLength]));
              gRunning <==> old(gRunning) || (Accepts(item) && Resumes(CommandOf(item)))
    {
      hide GoodTrace, Connected, LastPacket, Validate, Fits, Effect, StaysInBounds, Sends, Resumes;
      hide Slots, WatchpointsX64.DebugRegisters.Slots, WatchpointsAArch64.WatchRegisters.Slots;
      mishaps, sent := NO_MISHAPS, [];
      var accepted, checksumIndex := ValidatePacket(packetLength);
      if accepted {
        mishaps, sent := ExecutePacket(checksumIndex, mRequest[1..checksumIndex]);
      } else {
        SendGdbAck(false);
      }
    }

    // ------------------------------------------------------ reading input

    /** DebugReadByte: a byte, or nothing before the timeout. */
    method DebugReadByte() returns (ok: bool, b: Byte)
      modifies this`input
      ensures if old(input) == [] then !ok && input == []
              else input == old(input)[1..] && (ok <==> old(input)[0].Data?) && (ok ==> b == old(input)[0].b)
    {
      ok, b := false, 0;
      if input != [] {
        if input[0].Data? {
          ok, b := true, input[0].b;
        }
        input := input[1..];
      }
    }

    /** The inner loop of ProcessInputData: the rest of a packet, up to `#` and two more. */
    method CollectPacket() returns (ok: bool, packetLength: nat)
      requires mRequest.Length == MAX_REQUEST_SIZE && mRequest[0] == DOLLAR
      modifies this`input, mRequest
      ensures 0 < packetLength <= mRequest.Length
      ensures Collect(old(input), [DOLLAR]) == if ok then Complete(mRequest[..packetLength], input)
                                               else Failed(mRequest[..packetLength], input)
    {
      packetLength := 1;
      ok := false;
      assert mRequest[..1] == [DOLLAR];
      while true
        invariant 0 < packetLength <= mRequest.Length
        invariant Collect(old(input), [DOLLAR]) == Collect(input, mRequest[..packetLength])
        decreases |input|, mRequest.Length - packetLength
      {
        if packetLength >= mRequest.Length {
          return;
        }
        ghost var acc := mRequest[..packetLength];
        var more, b := DebugReadByte();
        if !more {
          return;
        }
        mRequest[packetLength] := b;
        packetLength := packetLength + 1;
        assert mRequest[..packetLength] == acc + [b];
        if packetLength >= 4 && mRequest[packetLength - 3] == HASH {
          ok := true;
          return;
        }
      }
    }

    ghost function Now(): Snapshot
      requires Shape()
      reads this, breakpoints, breakpoints.machine, breakpoints.mBreakpoints, context, WatchState()
    {
      Snapshot(LineNow(), TargetNow(), gRunning)
    }

    /** These items were read, and all that followed from them. */
    twostate predicate Took(turns: seq<Turn>)
      requires Shape()
      reads this, mResponseFull, breakpoints, breakpoints.machine, breakpoints.mBreakpoints, context, WatchState()
    {
      && Valid() && LastPacket(trace) != []
      && Follows(Configuration(), old(Now()), turns, Now())
    }

    /** A first byte that does not start a packet. */
    method TakeByte(b: Byte) returns (ghost turns: seq<Turn>)
      requires Valid() && LastPacket(trace) != [] && b != DOLLAR
      modifies this`mResponseAcknowledged, this`trace, this`responseLength, mResponseFull
      ensures Took(turns)
      ensures Items(turns) == [if b == MINUS then Minus else if b == PLUS then Plus else Noise(b)]
    {
      hide GoodTrace, Connected, Fits, Effect, Sends, Resumes, IsTurn;
      hide Slots, WatchpointsX64.DebugRegisters.Slots, WatchpointsAArch64.WatchRegisters.Slots, TargetNow;
      ghost var item := if b == MINUS then Minus else if b == PLUS then Plus else Noise(b);
      ghost var line, t := LineNow(), Turn(item, TargetNow(), TargetNow(), NO_MISHAPS, []);
      NowFits();
      IdleTurn(Configuration(), item, TargetNow());
      OneTurn(Configuration(), line, t);
      turns := [t];
      if b == MINUS && !mResponseAcknowledged {
        SendGdbResponse(Again);
        ResentKeeps(line.trace);
      } else if b == PLUS {
        mResponseAcknowledged := true;
      }
    }

    lemma NowFits()
      requires Valid()
      ensures Fitting(Configuration(), TargetNow())
    {
    }

    /** The rest of a packet, whose `$` was read. */
    method TakePacket() returns (ok: bool, ghost turns: seq<Turn>)
      requires Valid() && LastPacket(trace) != [] && mRequest[0] == DOLLAR
      requires var c := Collect(input, [DOLLAR]);
               c.Complete? && Accepts(Packet(c.packet)) ==> InBounds(CommandOf(Packet(c.packet)))
      modifies this`responseLength, this`mResponseAcknowledged, this`trace, this`gRunning, this`mdscr,
               this`mConnectionOccurred, this`input,
               mRequest, mResponseFull, mScratch, context,
               breakpoints.machine`memory, breakpoints.machine`attributes, breakpoints.machine`failed,
               breakpoints.mBreakpoints, WatchState()
      ensures Took(turns)
      ensures var c := Collect(old(input), [DOLLAR]);
              && (ok <==> c.Complete?) && input == c.rest
              && Items(turns) == [if ok then Packet(c.packet) else Broken(c.partial)]
    {
      hide GoodTrace, Connected, LastPacket, Fits, Effect, Sends, Resumes, IsTurn, Collect, Accepts, InBounds, Validate;
      hide Slots, WatchpointsX64.DebugRegisters.Slots, WatchpointsAArch64.WatchRegisters.Slots, TargetNow;
      ghost var line, c, target := LineNow(), Configuration(), TargetNow();
      var packetLength;
      ok, packetLength := CollectPacket();
      ghost var bytes, t := mRequest[..packetLength], Turn(Broken([]), target, target, NO_MISHAPS, []);
      if !ok {
        SendGdbAck(false);
        NowFits();
        IdleTurn(c, Broken(bytes), target);
        t := Turn(Broken(bytes), target, target, NO_MISHAPS, []);
      } else {
        SafeIfInBounds(packetLength);
        ghost var mishaps, sent := ProcessGdbPacket(packetLength);
        t := Turn(Packet(bytes), target, TargetNow(), mishaps, sent);
      }
      OneTurn(c, line, t);
      turns := [t];
    }

    lemma SafeIfInBounds(packetLength: nat)
      requires Valid() && packetLength <= mRequest.Length
      ensures var item := Packet(mRequest[..packetLength]);
              Accepts(item) && InBounds(CommandOf(item)) ==> Safe(CommandOf(item))
    {
      hide Accepts, CommandOf, InBounds;
    }

    /** One round of ProcessInputData: reads one item and acts on it. */
    method ProcessItem() returns (more: bool, ghost turns: seq<Turn>)
      requires Valid() && LastPacket(trace) != [] && AllInBounds(Scan(input).items)
      modifies this`responseLength, this`mResponseAcknowledged, this`trace, this`gRunning, this`mdscr,
               this`mConnectionOccurred, this`input,
               mRequest, mResponseFull, mScratch, context,
               breakpoints.machine`memory, breakpoints.machine`attributes, breakpoints.machine`failed,
               breakpoints.mBreakpoints, WatchState()
      ensures Took(turns)
      ensures Scan(old(input)) == Ahead(Items(turns), more, input)
      ensures more ==> |input| < |old(input)|
    {
      hide GoodTrace, Connected, LastPacket, Fits, Effect, Sends, Resumes, IsTurn, Collect, Accepts, InBounds;
      hide Slots, WatchpointsX64.DebugRegisters.Slots, WatchpointsAArch64.WatchRegisters.Slots, TargetNow;
      turns := [];
      NoTurn(Configuration(), LineNow(), TargetNow());
      ghost var items := Scan(input).items;
      var ok, b := DebugReadByte();
      if !ok {
        return false, [];
      }
      mRequest[0] := b;
      if b != DOLLAR {
        turns := TakeByte(b);
        return true, turns;
      }
      FirstInBounds(items);
      more, turns := TakePacket();
    }

    /** ProcessInputData: acts on every item up to the first pause. */
    method ProcessInputData() returns (ghost turns: seq<Turn>)
      requires Valid() && LastPacket(trace) != [] && AllInBounds(Scan(input).items)
      modifies this`responseLength, this`mResponseAcknowledged, this`trace, this`gRunning, this`mdscr,
               this`mConnectionOccurred, this`input,
               mRequest, mResponseFull, mScratch, context,
               breakpoints.machine`memory, breakpoints.machine`attributes, breakpoints.machine`failed,
               breakpoints.mBreakpoints, WatchState()
      ensures Took(turns)
      ensures Items(turns) == Scan(old(input)).items && input == Scan(old(input)).rest
    {
      hide GoodTrace, Connected, LastPacket, Fits, Scan, Ahead, Follows, AllInBounds, Now, Items;
      AheadOfAll(input);
      forall i | 0 <= i < mRequest.Length { mRequest[i] := 0; }
      ghost var c, start := Configuration(), Now();
      turns := [];
      FollowsNothing(c, start);
      var more := true;
      while more
        invariant Took(turns)
        invariant Scan(old(input)) == Ahead(Items(turns), more, input)
        invariant more ==> AllInBounds(Scan(input).items)
        decreases more, |input|
      {
        ghost var before, turn, ahead := Now(), [], input;
        more, turn := ProcessItem();
        FollowsConcat(c, start, turns, before, turn, Now());
        AheadStep(Items(turns), ahead, Items(turn), more, input);
        turns := turns + turn;
      }
      AheadDone(Items(turns), input);
    }

    // ------------------------------------------------------------ one stop

    /** The inner loop of ReportEntryToDebugger. */
    method DrainInput() returns (ghost turns: seq<Turn>)
      requires Valid() && LastPacket(trace) != [] && AllInBounds(Drain(input).items)
      modifies this`responseLength, this`mResponseAcknowledged, this`trace, this`gRunning, this`mdscr,
               this`mConnectionOccurred, this`input,
               mRequest, mResponseFull, mScratch, context,
               breakpoints.machine`memory, breakpoints.machine`attributes, breakpoints.machine`failed,
               breakpoints.mBreakpoints, WatchState()
      ensures Took(turns)
      ensures Drain(old(input)) == Drained(Items(turns), input)
      ensures mConnectionOccurred <==> old(mConnectionOccurred) || AcceptsIn(Items(turns))
    {
      hide GoodTrace, Connected, LastPacket, Fits, Scan, Drain, Follows, AllInBounds, Items, AcceptsIn;
      hide Slots, TargetNow;
      ghost var c, start := Configuration(), Now();
      turns := [];
      FollowsNothing(c, start);
      while input != [] && input[0].Data?
        invariant Took(turns)
        invariant Drain(old(input)) == Joined(Items(turns), Drain(input))
        invariant AllInBounds(Drain(input).items)
        decreases |input|
      {
        ghost var before, s := Now(), Scan(input);
        DrainBegins(Items(turns), input);
        BoundsConcat(s.items, Drain(s.rest).items);
        ghost var turn := ProcessInputData();
        FollowsConcat(c, start, turns, before, turn, Now());
        turns := turns + turn;
      }
      DrainNothing(input);
      FollowsConnects(c, start, turns, Now());
    }

    /** One round of the outer loop: all the data there is, then the timeout check. */
    method WaitRound(endTime: nat) returns (more: bool, ghost turns: seq<Turn>)
      requires Valid() && LastPacket(trace) != [] && !gRunning
      requires AllInBounds(Drain(input).items)
      modifies this`responseLength, this`mResponseAcknowledged, this`trace, this`gRunning, this`mdscr,
               this`mConnectionOccurred, this`input,
               mRequest, mResponseFull, mScratch, context,
               breakpoints.machine`memory, breakpoints.machine`attributes, breakpoints.machine`failed,
               breakpoints.mBreakpoints, WatchState()
      ensures Valid() && LastPacket(trace) != []
      ensures var d := Drain(old(input));
              && Items(turns) == d.items && (more <==> d.rest != []) && (!more ==> input == [])
              && AwaitMore(d, mConnectionOccurred, endTime)
                 == if more then Await(input, gRunning, mConnectionOccurred, endTime) else Waited([], [], gRunning)
      ensures Follows(Configuration(), old(Now()), turns, Now().(running := ResumesIn(Items(turns))))
      ensures mConnectionOccurred <==> old(mConnectionOccurred) || AcceptsIn(Items(turns))
      ensures ResumesIn(Items(turns)) ==> gRunning
      ensures more ==> |input| < |old(input)|
    {
      hide GoodTrace, Connected, LastPacket, Fits, Drain, Follows, AllInBounds, Items, ResumesIn, AcceptsIn;
      hide Slots, TargetNow;
      ghost var before := Now();
      turns := DrainInput();
      FollowsRunning(Configuration(), before, turns, Now());
      if input == [] {
        return false, turns;
      }
      more := true;
      var now := input[0].now;
      input := input[1..];
      if !mConnectionOccurred && endTime != 0 && now >= endTime {
        gRunning := true;
      }
    }

    /** The outer loop of ReportEntryToDebugger: until some request resumes
        execution, or the timeout passes with no debugger there. */
    method WaitForDebugger(endTime: nat) returns (ghost turns: seq<Turn>)
      requires Valid() && LastPacket(trace) != [] && !gRunning
      requires AllInBounds(Await(input, false, mConnectionOccurred, endTime).items)
      modifies this`responseLength, this`mResponseAcknowledged, this`trace, this`gRunning, this`mdscr,
               this`mConnectionOccurred, this`input,
               mRequest, mResponseFull, mScratch, context,
               breakpoints.machine`memory, breakpoints.machine`attributes, breakpoints.machine`failed,
               breakpoints.mBreakpoints, WatchState()
      ensures Valid() && LastPacket(trace) != []
      ensures Await(old(input), false, old(mConnectionOccurred), endTime) == Waited(Items(turns), input, gRunning)
      ensures Follows(Configuration(), old(Now()), turns, Now().(running := ResumesIn(Items(turns))))
      ensures mConnectionOccurred <==> old(mConnectionOccurred) || AcceptsIn(Items(turns))
    {
      hide GoodTrace, Connected, LastPacket, Fits, Drain, Follows, AllInBounds, Items, ResumesIn, AcceptsIn, AwaitMore;
      hide Slots, TargetNow;
      ghost var c, start := Configuration(), Now();
      turns := [];
      FollowsNothing(c, start);
      NothingRead();
      ghost var all := Await(input, false, mConnectionOccurred, endTime);
      var more := true;
      while !gRunning && more
        invariant Valid() && LastPacket(trace) != []
        invariant all == Prefixed(Items(turns), if more then Await(input, gRunning, mConnectionOccurred, endTime)
                                                else Waited([], input, gRunning))
        invariant more ==> AllInBounds(Await(input, gRunning, mConnectionOccurred, endTime).items)
        invariant Follows(c, start, turns, Now().(running := ResumesIn(Items(turns))))
        invariant !gRunning ==> !ResumesIn(Items(turns))
        invariant mConnectionOccurred <==> old(mConnectionOccurred) || AcceptsIn(Items(turns))
        decreases |input|, more
      {
        ghost var before, d, turn := Now(), Drain(input), [];
        AwaitBegins(input, mConnectionOccurred, endTime);
        more, turn := WaitRound(endTime);
        FollowsConcat(c, start, turns, before, turn, Now().(running := ResumesIn(Items(turn))));
        ResumesConcat(Items(turns), Items(turn));
        PrefixedTwice(Items(turns), Items(turn), AwaitMore(d, mConnectionOccurred, endTime));
        BoundsConcat(d.items, AwaitMore(d, mConnectionOccurred, endTime).items);
        turns := turns + turn;
      }
    }

    method SendStopReply()
      requires Valid()
      modifies this`responseLength, this`mResponseAcknowledged, this`trace, mResponseFull
      ensures Valid() && LastPacket(trace) != []
      ensures LineNow() == Line(old(trace) + [Sent(Frame(STOP_REPLY))], false)
      ensures Connected(trace) <==> Connected(old(trace))
    {
      hide GoodTrace, Connected, LastPacket, Fits, Ascii, IsReply;
      ConstantReplies();
      SendGdbResponse(Text(STOP_REPLY));
      Snoc(old(trace), Sent(Frame(STOP_REPLY)));
    }

    /** When the timeout of a stop runs out; 0 if it has none. */
    function EndTime(isBreakpoint: bool, clock: nat): nat
      reads this`mNextBreakpointTimeout
    {
      if isBreakpoint && mNextBreakpointTimeout != 0 then clock + mNextBreakpointTimeout else 0
    }

    /** ReportEntryToDebugger, entered at time `clock`. It has returned to the
        target if gRunning; otherwise it still waits where the input ends. */
    method ReportEntryToDebugger(isBreakpoint: bool, clock: nat) returns (ghost turns: seq<Turn>)
      requires Valid()
      requires AllInBounds(Await(input, false, mConnectionOccurred, EndTime(isBreakpoint, clock)).items)
      modifies this`responseLength, this`mResponseAcknowledged, this`trace, this`gRunning, this`mdscr,
               this`mConnectionOccurred, this`input,
               mRequest, mResponseFull, mScratch, context,
               breakpoints.machine`memory, breakpoints.machine`attributes, breakpoints.machine`failed,
               breakpoints.mBreakpoints, WatchState(),
               this`mNextBreakpointTimeout
      ensures Valid() && LastPacket(trace) != []
      ensures Await(old(input), false, old(mConnectionOccurred), old(EndTime(isBreakpoint, clock)))
           == Waited(Items(turns), input, gRunning)
      ensures LineNow() == Play(Line(old(trace) + [Sent(Frame(STOP_REPLY))], false), Items(turns), AnswersOf(turns))
      ensures Session(Configuration(), turns, old(TargetNow()), TargetNow())
      ensures gRunning && !ResumesIn(Items(turns)) ==>
                && isBreakpoint && old(mNextBreakpointTimeout) != 0 && !Connected(trace)
                && exists i :: 0 <= i < |old(input)| && old(input)[i].Idle?
                               && old(input)[i].now >= clock + old(mNextBreakpointTimeout)
      ensures isBreakpoint && old(mNextBreakpointTimeout) != 0 && !old(mConnectionOccurred) ==>
                forall k, end :: end == clock + old(mNextBreakpointTimeout) && PausesUntil(old(input), k, end) ==>
                  gRunning && turns == [] && input == old(input)[k + 1..]
      ensures ResumesIn(Items(turns)) ==> gRunning
      ensures mNextBreakpointTimeout == if isBreakpoint then 0 else old(mNextBreakpointTimeout)
    {
      hide GoodTrace, Connected, LastPacket, Fits, Drain, AllInBounds, Items, ResumesIn, AcceptsIn, Await, PausesUntil;
      hide Slots, TargetNow, Session, Play, Frame, Ascii, IsReply;
      var endTime := 0;
      gRunning := false;
      if isBreakpoint && mNextBreakpointTimeout != 0 {
        endTime := clock + mNextBreakpointTimeout;
        mNextBreakpointTimeout := 0;
      }
      SendStopReply();
      ResumeSafety(input, mConnectionOccurred, endTime);
      TimeoutEnds(input, endTime);
      turns := WaitForDebugger(endTime);
    }
  }

  method WatchX64(dr: WatchpointsX64.DebugRegisters, remove: bool, a: Address, length: nat, read: bool, write: bool)
    returns (result: bool)
    modifies dr
    ensures WatchEffect(X64, old(dr.Slots()), dr.Slots(), remove, a, length, read, write, result)
  {
    hide WatchSet.Step, WatchpointsX64.KeyOf, WatchpointsX64.OneSlotChanged, WatchpointsX64.DebugRegisters.Slots;
    hide BitFields.Unpack, BitFields.Fit, BitFields.Pow2, WatchpointsX64.Dr7Fields, WatchpointsX64.DebugRegisters.Bits;
    if remove {
      result := dr.RemoveWatchpoint(a, length, read, write);
    } else {
      result := dr.AddWatchpoint(a, length, read, write);
    }
  }

  method WatchAArch64(wr: WatchpointsAArch64.WatchRegisters, remove: bool, a: Address, length: nat, read: bool, write: bool)
    returns (result: bool)
    requires wr.Valid()
    modifies wr.values, wr.controls
    ensures WatchEffect(AArch64, old(wr.Slots()), wr.Slots(), remove, a, length, read, write, result)
  {
    hide WatchSet.Step, WatchpointsAArch64.KeyOf, WatchpointsAArch64.WatchRegisters.Slots;
    if remove {
      result := wr.RemoveWatchpoint(a, length, read, write);
    } else {
      result := wr.AddWatchpoint(a, length, read, write);
    }
  }
}
