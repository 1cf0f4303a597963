/** What the stub puts on the wire: acknowledgements, packets and
    retransmissions, and how they follow from what it reads. */
module Traces {
  import opened Bytes
  import opened Packets

  /** The packet most recently put on the wire; empty if none was. */
  function LastPacket(trace: seq<Event>): seq<Byte> {
    if trace == [] then []
    else
      match trace[|trace| - 1]
      case Sent(packet) => packet
      case Resent(packet) => packet
      case _ => LastPacket(trace[..|trace| - 1])
  }

  /** A well-formed packet on the wire: a framed reply. */
  ghost predicate IsFramed(packet: seq<Byte>) {
    exists payload :: IsReply(payload) && packet == Frame(payload)
  }

  /** Every packet sent is well formed, every retransmission repeats the last
      packet, and nothing runs without having been acknowledged. */
  ghost predicate GoodEvent(trace: seq<Event>, i: nat)
    requires i < |trace|
  {
    match trace[i]
    case Sent(packet) => IsFramed(packet)
    case Resent(packet) => packet != [] && packet == LastPacket(trace[..i])
    case Executed(_) => i > 0 && trace[i - 1] == Acked(true)
    case Acked(_) => true
  }

  ghost predicate GoodTrace(trace: seq<Event>) {
    forall i :: 0 <= i < |trace| ==> GoodEvent(trace, i)
  }

  /** A checksum-valid packet has been received. */
  ghost predicate Connected(trace: seq<Event>) {
    exists i :: 0 <= i < |trace| && trace[i].Executed?
  }

  lemma GoodSnoc(trace: seq<Event>, e: Event)
    requires GoodTrace(trace)
    requires GoodEvent(trace + [e], |trace|)
    ensures GoodTrace(trace + [e])
  {
    var t := trace + [e];
    forall i | 0 <= i < |t|
      ensures GoodEvent(t, i)
    {
      if i < |trace| {
        assert GoodEvent(trace, i);
        assert t[..i] == trace[..i];
      }
    }
  }

  lemma Snoc(trace: seq<Event>, e: Event)
    ensures LastPacket(trace + [e]) == if e.Sent? || e.Resent? then e.packet else LastPacket(trace)
    ensures Control(trace + [e]) == Control(trace) + (if e.Acked? || e.Executed? then [e] else [])
    ensures Connected(trace + [e]) <==> Connected(trace) || e.Executed?
  {
    assert (trace + [e])[..|trace|] == trace;
    if e.Executed? { assert (trace + [e])[|trace|].Executed?; }
    if Connected(trace) {
      var i :| 0 <= i < |trace| && trace[i].Executed?;
      assert (trace + [e])[i].Executed?;
    }
  }

  lemma TransmittedIsGood(trace: seq<Event>, e: Event)
    requires GoodTrace(trace) && (e.Sent? || e.Resent?) && e.packet != []
    requires e.Sent? ==> IsFramed(e.packet)
    requires e.Resent? ==> e.packet == LastPacket(trace)
    ensures GoodTrace(trace + [e])
  {
    assert (trace + [e])[..|trace|] == trace;
    GoodSnoc(trace, e);
  }

  function Sends(payloads: seq<seq<Byte>>): (events: seq<Event>)
    ensures |events| == |payloads|
  {
    seq(|payloads|, i requires 0 <= i < |payloads| => Sent(Frame(payloads[i])))
  }

  lemma NoSends()
    ensures Sends([]) == []
  {
  }

  lemma OneSend(payload: seq<Byte>)
    ensures Sends([payload]) == [Sent(Frame(payload))]
  {
  }

  lemma TwoSends(p: seq<Byte>, q: seq<Byte>)
    ensures Sends([p, q]) == [Sent(Frame(p)), Sent(Frame(q))]
  {
  }

  /** An acknowledgement, or a command noted right after one. */
  lemma Noted(trace: seq<Event>, e: Event)
    requires GoodTrace(trace) && (e.Acked? || e.Executed?)
    requires e.Executed? ==> trace != [] && trace[|trace| - 1] == Acked(true)
    ensures GoodTrace(trace + [e]) && LastPacket(trace + [e]) == LastPacket(trace)
    ensures Connected(trace + [e]) <==> Connected(trace) || e.Executed?
  {
    hide LastPacket, Connected;
    Snoc(trace, e);
    GoodSnoc(trace, e);
  }

  lemma ResentKeeps(trace: seq<Event>)
    ensures LastPacket(trace + [Resent(LastPacket(trace))]) == LastPacket(trace)
  {
    Snoc(trace, Resent(LastPacket(trace)));
  }

  /** Answers leave something to send again, if there was something. */
  lemma {:induction false} AnsweredKeeps(trace: seq<Event>, payloads: seq<seq<Byte>>)
    requires LastPacket(trace) != []
    ensures LastPacket(trace + Sends(payloads)) != []
    decreases |payloads|
  {
    if payloads == [] {
      assert trace + Sends(payloads) == trace;
    } else {
      var n := |payloads| - 1;
      assert trace + Sends(payloads) == trace + Sends(payloads[..n]) + [Sent(Frame(payloads[n]))];
      Snoc(trace + Sends(payloads[..n]), Sent(Frame(payloads[n])));
    }
  }

  // --------------------------------------------- what one item leads to

  /** The line as the stub sees it: what happened on it, and whether the last
      packet was acknowledged. */
  datatype Line = Line(trace: seq<Event>, acknowledged: bool)

  /** The item is a packet that passes validation. */
  predicate Accepts(item: Item) {
    item.Packet? && item.bytes != [] && Validate(item.bytes).Accepted?
  }

  function CommandOf(item: Item): seq<Byte>
    requires Accepts(item)
  {
    Validate(item.bytes).command
  }

  /** One item, where `answers` are the replies of the command that it carries:
      a packet is acknowledged and executed, or refused; an unexpected `-`
      repeats the last packet; everything else is dropped. */
  function PlayItem(line: Line, item: Item, answers: seq<seq<Byte>>): Line {
    if Accepts(item) then
      Line(line.trace + [Acked(true), Executed(CommandOf(item))] + Sends(answers), line.acknowledged && answers == [])
    else
      match item
      case Minus => if line.acknowledged then line else line.(trace := line.trace + [Resent(LastPacket(line.trace))])
      case Plus => line.(acknowledged := true)
      case Noise(_) => line
      case _ => line.(trace := line.trace + [Acked(false)])
  }

  function Play(line: Line, items: seq<Item>, answers: seq<seq<seq<Byte>>>): Line
    requires |answers| == |items|
  {
    if items == [] then line
    else
      var n := |items| - 1;
      PlayItem(Play(line, items[..n], answers[..n]), items[n], answers[n])
  }

  lemma PlaySnoc(line: Line, items: seq<Item>, answers: seq<seq<seq<Byte>>>, item: Item, answer: seq<seq<Byte>>)
    requires |answers| == |items|
    ensures Play(line, items + [item], answers + [answer]) == PlayItem(Play(line, items, answers), item, answer)
  {
    var n := |items|;
    assert (items + [item])[..n] == items && (answers + [answer])[..n] == answers;
  }

  lemma {:induction false} PlayConcat(line: Line, items: seq<Item>, answers: seq<seq<seq<Byte>>>,
                                      items': seq<Item>, answers': seq<seq<seq<Byte>>>)
    requires |answers| == |items| && |answers'| == |items'|
    ensures Play(line, items + items', answers + answers') == Play(Play(line, items, answers), items', answers')
    decreases |items'|
  {
    if items' == [] {
      assert items + items' == items && answers + answers' == answers;
    } else {
      var n := |items'| - 1;
      PlayConcat(line, items, answers, items'[..n], answers'[..n]);
      PlaySnoc(line, items + items'[..n], answers + answers'[..n], items'[n], answers'[n]);
      assert items + items' == items + items'[..n] + [items'[n]];
      assert answers + answers' == answers + answers'[..n] + [answers'[n]];
    }
  }

  // ------------------------------------ acknowledged, executed, in order

  lemma {:induction false} ControlSends(trace: seq<Event>, payloads: seq<seq<Byte>>)
    ensures Control(trace + Sends(payloads)) == Control(trace)
    decreases |payloads|
  {
    hide Control, LastPacket, Frame;
    if payloads == [] {
      assert trace + Sends(payloads) == trace;
    } else {
      var n := |payloads| - 1;
      ControlSends(trace, payloads[..n]);
      assert trace + Sends(payloads) == trace + Sends(payloads[..n]) + [Sent(Frame(payloads[n]))];
      Snoc(trace + Sends(payloads[..n]), Sent(Frame(payloads[n])));
    }
  }

  lemma ControlItem(line: Line, item: Item, answers: seq<seq<Byte>>)
    requires item.Packet? ==> item.bytes != []
    ensures Control(PlayItem(line, item, answers).trace) == Control(line.trace) + ItemControl(item)
  {
    hide Validate, LastPacket, Control;
    if Accepts(item) {
      var t := line.trace + [Acked(true)];
      Snoc(line.trace, Acked(true));
      Snoc(t, Executed(CommandOf(item)));
      assert line.trace + [Acked(true), Executed(CommandOf(item))] == t + [Executed(CommandOf(item))];
      ControlSends(t + [Executed(CommandOf(item))], answers);
      assert Control(line.trace) + ItemControl(item) == Control(line.trace) + [Acked(true)] + [Executed(CommandOf(item))];
    } else {
      Snoc(line.trace, Acked(false));
      Snoc(line.trace, Resent(LastPacket(line.trace)));
    }
  }

  lemma {:induction false} ControlOfSnoc(items: seq<Item>)
    requires items != []
    ensures ControlOf(items) == ControlOf(items[..|items| - 1]) + ItemControl(items[|items| - 1])
    decreases |items|
  {
    if |items| > 1 {
      ControlOfSnoc(items[1..]);
      assert items[1..][..|items| - 2] == items[..|items| - 1][1..];
    }
  }

  /** Whatever the handlers answer and whenever they resend: the stub
      acknowledges and executes exactly what the items call for, in order. */
  lemma {:induction false} PlayControls(line: Line, items: seq<Item>, answers: seq<seq<seq<Byte>>>)
    requires |answers| == |items|
    requires forall i :: 0 <= i < |items| && items[i].Packet? ==> items[i].bytes != []
    ensures Control(Play(line, items, answers).trace) == Control(line.trace) + ControlOf(items)
    decreases |items|
  {
    hide PlayItem, ItemControl, Control;
    if items != [] {
      var n := |items| - 1;
      PlayControls(line, items[..n], answers[..n]);
      ControlItem(Play(line, items[..n], answers[..n]), items[n], answers[n]);
      ControlOfSnoc(items);
    }
  }

  /** Framed requests with anything but `$` between them, as one input: every
      payload is executed, in order, after one positive acknowledgement, and
      nothing else is executed or acknowledged, whatever the handlers answer. */
  lemma InputRoundTrip(line: Line, rs: seq<Request>, gap: seq<Byte>, tail: seq<In>, answers: seq<seq<seq<Byte>>>)
    requires forall i :: 0 <= i < |rs| ==> IsRequest(rs[i])
    requires DOLLAR !in gap && (tail == [] || tail[0].Idle?)
    requires |answers| == |Scan(Stream(Wire(rs) + gap) + tail).items|
    ensures Control(Play(line, Scan(Stream(Wire(rs) + gap) + tail).items, answers).trace)
         == Control(line.trace) + Expected(rs)
  {
    hide Play, Control, ControlOf, Scan, Stream, Wire, Expected;
    var input := Stream(Wire(rs) + gap) + tail;
    StreamRoundTrip(rs, gap, tail);
    ScannedAgree(input);
    PlayControls(line, Scan(input).items, answers);
  }

  // ------------------------------------------------------ every packet

  lemma {:induction false} LastIsFramed(trace: seq<Event>)
    requires GoodTrace(trace) && LastPacket(trace) != []
    ensures IsFramed(LastPacket(trace))
    decreases |trace|
  {
    hide IsFramed;
    var n := |trace| - 1;
    assert GoodEvent(trace, n);
    PrefixIsGood(trace, n);
    if !trace[n].Sent? { LastIsFramed(trace[..n]); }
  }

  lemma PrefixIsGood(trace: seq<Event>, n: nat)
    requires GoodTrace(trace) && n <= |trace|
    ensures GoodTrace(trace[..n])
  {
    forall i | 0 <= i < n
      ensures GoodEvent(trace[..n], i)
    {
      assert GoodEvent(trace, i);
      assert trace[..n][..i] == trace[..i];
    }
  }

  /** Every packet on the wire, sent or sent again, fits the response buffer,
      and parses back to a payload without delimiters. */
  lemma EveryPacketParses(trace: seq<Event>, i: nat) returns (payload: seq<Byte>)
    requires GoodTrace(trace) && i < |trace| && (trace[i].Sent? || trace[i].Resent?)
    ensures IsReply(payload) && trace[i].packet == Frame(payload)
    ensures Validate(trace[i].packet) == Accepted(payload)
    ensures |trace[i].packet| <= MAX_RESPONSE_SIZE + 4
  {
    hide Frame, Validate, LastPacket;
    assert GoodEvent(trace, i);
    if trace[i].Resent? {
      PrefixIsGood(trace, i);
      LastIsFramed(trace[..i]);
    }
    payload :| IsReply(payload) && trace[i].packet == Frame(payload);
    ValidateFrame(payload);
  }

  // ------------------------------------------------------ retransmission

  function Repeat<T>(x: T, n: nat): (s: seq<T>)
    ensures |s| == n
  {
    if n == 0 then [] else Repeat(x, n - 1) + [x]
  }

  /** The packets put on the wire, in order. */
  function PacketsOf(trace: seq<Event>): seq<Event> {
    if trace == [] then []
    else
      var e := trace[|trace| - 1];
      PacketsOf(trace[..|trace| - 1]) + (if e.Sent? || e.Resent? then [e] else [])
  }

  function Minuses(items: seq<Item>): nat {
    if items == [] then 0 else Minuses(items[..|items| - 1]) + (if items[|items| - 1].Minus? then 1 else 0)
  }

  lemma PacketsSnoc(trace: seq<Event>, e: Event)
    ensures PacketsOf(trace + [e]) == PacketsOf(trace) + (if e.Sent? || e.Resent? then [e] else [])
  {
    assert (trace + [e])[..|trace|] == trace;
  }

  /** Items that neither acknowledge the last packet nor bring a new one. */
  predicate LeavesLast(item: Item, answers: seq<seq<Byte>>) {
    item != Plus && (Accepts(item) ==> answers == [])
  }

  lemma ItemLeavesLast(line: Line, item: Item, answers: seq<seq<Byte>>)
    requires !line.acknowledged && LeavesLast(item, answers)
    ensures var r := PlayItem(line, item, answers);
            && !r.acknowledged && LastPacket(r.trace) == LastPacket(line.trace)
            && PacketsOf(r.trace)
               == PacketsOf(line.trace) + (if item.Minus? then [Resent(LastPacket(line.trace))] else [])
  {
    hide LastPacket, PacketsOf, Validate, Control, Connected;
    var t := line.trace;
    if Accepts(item) {
      var e := Executed(CommandOf(item));
      assert t + [Acked(true), e] + Sends(answers) == t + [Acked(true)] + [e];
      Snoc(t, Acked(true));
      Snoc(t + [Acked(true)], e);
      PacketsSnoc(t, Acked(true));
      PacketsSnoc(t + [Acked(true)], e);
    } else {
      Snoc(t, Acked(false));
      PacketsSnoc(t, Acked(false));
      Snoc(t, Resent(LastPacket(t)));
      PacketsSnoc(t, Resent(LastPacket(t)));
    }
  }

  /** Until the last packet is acknowledged or followed by another, every `-` is
      answered with that very packet, whatever else comes in between, and nothing
      else is sent. */
  lemma {:induction false} RetransmitsLast(line: Line, items: seq<Item>, answers: seq<seq<seq<Byte>>>)
    requires !line.acknowledged && |answers| == |items|
    requires forall i :: 0 <= i < |items| ==> LeavesLast(items[i], answers[i])
    ensures var r := Play(line, items, answers);
            && !r.acknowledged && LastPacket(r.trace) == LastPacket(line.trace)
            && PacketsOf(r.trace) == PacketsOf(line.trace) + Repeat(Resent(LastPacket(line.trace)), Minuses(items))
    decreases |items|
  {
    hide LastPacket, PacketsOf, PlayItem, LeavesLast;
    if items != [] {
      var n := |items| - 1;
      RetransmitsLast(line, items[..n], answers[..n]);
      ItemLeavesLast(Play(line, items[..n], answers[..n]), items[n], answers[n]);
    }
  }

  /** The packet that would be sent again after a command is its last answer. */
  lemma LastAnswerIsKept(line: Line, item: Item, answers: seq<seq<Byte>>)
    requires Accepts(item)
    ensures LastPacket(PlayItem(line, item, answers).trace)
         == if answers == [] then LastPacket(line.trace) else Frame(answers[|answers| - 1])
  {
    hide Validate, Frame;
    var t := line.trace + [Acked(true), Executed(CommandOf(item))];
    assert t == line.trace + [Acked(true)] + [Executed(CommandOf(item))];
    Snoc(line.trace, Acked(true));
    Snoc(line.trace + [Acked(true)], Executed(CommandOf(item)));
    if answers == [] {
      assert t + Sends(answers) == t;
    } else {
      var n := |answers| - 1;
      assert t + Sends(answers) == t + Sends(answers[..n]) + [Sent(Frame(answers[n]))];
      Snoc(t + Sends(answers[..n]), Sent(Frame(answers[n])));
    }
  }

  // ------------------------------------- how each item is dealt with

  /** A command that the debugger may have meant by this packet. */
  predicate Means(packet: seq<Byte>, command: seq<Byte>) {
    HASH !in command && Encloses(packet, command)
  }

  ghost predicate Brings(item: Item, answers: seq<seq<Byte>>) {
    item.Packet? && answers != [] && exists c :: Means(item.bytes, c)
  }

  /** The last packet stands acknowledged: a `+` came after it. */
  ghost predicate Acknowledged(line: Line, items: seq<Item>, answers: seq<seq<seq<Byte>>>)
    requires |answers| == |items|
  {
    || (line.acknowledged && forall k :: 0 <= k < |items| ==> !Brings(items[k], answers[k]))
    || exists j :: 0 <= j < |items| && PlusStands(items, answers, j)
  }

  ghost predicate PlusStands(items: seq<Item>, answers: seq<seq<seq<Byte>>>, j: nat)
    requires |answers| == |items| && j < |items|
  {
    items[j].Plus? && forall k :: j < k < |items| ==> !Brings(items[k], answers[k])
  }

  /** What was acknowledged, executed and sent once n items were read. */
  function ControlAfter(line: Line, items: seq<Item>, answers: seq<seq<seq<Byte>>>, n: nat): seq<Event>
    requires |answers| == |items| && n <= |items|
  {
    Control(Play(line, items[..n], answers[..n]).trace)
  }

  function PacketsAfter(line: Line, items: seq<Item>, answers: seq<seq<seq<Byte>>>, n: nat): seq<Event>
    requires |answers| == |items| && n <= |items|
  {
    PacketsOf(Play(line, items[..n], answers[..n]).trace)
  }

  lemma AcceptsIffMeant(item: Item)
    requires item.Packet? && WellCollected(item.bytes)
    ensures Accepts(item) <==> exists c :: Means(item.bytes, c)
    ensures forall c :: Means(item.bytes, c) ==> Accepts(item) && CommandOf(item) == c
    ensures Accepts(item) ==> Means(item.bytes, CommandOf(item))
  {
    hide Validate, Encloses;
    forall c | Means(item.bytes, c)
      ensures Accepts(item) && CommandOf(item) == c
    {
      assert item.bytes != [];
      ValidateEnclosed(item.bytes, c);
    }
    if Accepts(item) {
      AcceptedEncloses(item.bytes);
      assert Means(item.bytes, CommandOf(item));
    }
  }

  /** A packet with the right checksum is acknowledged and its command executed;
      any other packet, and one that is cut short, is refused and nothing is
      executed; no other byte is acknowledged. */
  lemma EveryItemIsAnswered(line: Line, items: seq<Item>, answers: seq<seq<seq<Byte>>>, i: nat)
    requires |answers| == |items| && i < |items|
    requires items[i].Packet? ==> WellCollected(items[i].bytes)
    ensures var before, after := ControlAfter(line, items, answers, i), ControlAfter(line, items, answers, i + 1);
            && (items[i].Packet? ==>
                  && (forall c :: Means(items[i].bytes, c) ==> after == before + [Acked(true), Executed(c)])
                  && ((forall c :: !Means(items[i].bytes, c)) ==> after == before + [Acked(false)]))
            && (items[i].Broken? ==> after == before + [Acked(false)])
            && (!items[i].Packet? && !items[i].Broken? ==> after == before)
  {
    hide PlayItem, Control, Validate, Means, WellCollected, ItemControl;
    PlayNext(line, items, answers, i);
    var before := Play(line, items[..i], answers[..i]);
    WellIsSome(items[i]);
    ControlItem(before, items[i], answers[i]);
    ControlDue(items[i]);
    if items[i].Packet? { AcceptsIffMeant(items[i]); }
  }

  lemma ControlDue(item: Item)
    requires item.Packet? ==> item.bytes != []
    ensures ItemControl(item) == if Accepts(item) then [Acked(true), Executed(CommandOf(item))]
                                 else if item.Packet? || item.Broken? then [Acked(false)] else []
  {
    hide Validate;
  }

  lemma WellIsSome(item: Item)
    ensures item.Packet? && WellCollected(item.bytes) ==> item.bytes != []
  {
  }

  lemma PlayNext(line: Line, items: seq<Item>, answers: seq<seq<seq<Byte>>>, i: nat)
    requires |answers| == |items| && i < |items|
    ensures Play(line, items[..i + 1], answers[..i + 1])
         == PlayItem(Play(line, items[..i], answers[..i]), items[i], answers[i])
  {
    assert items[..i + 1] == items[..i] + [items[i]] && answers[..i + 1] == answers[..i] + [answers[i]];
    PlaySnoc(line, items[..i], answers[..i], items[i], answers[i]);
  }

  /** A command's answers are sent, framed and in order; a `-` is answered with
      the last packet again unless a `+` came after it; nothing else is sent. */
  lemma EveryPacketIsDue(line: Line, items: seq<Item>, answers: seq<seq<seq<Byte>>>, i: nat)
    requires |answers| == |items| && i < |items|
    requires forall k :: 0 <= k <= i && items[k].Packet? ==> WellCollected(items[k].bytes)
    ensures var before, after := PacketsAfter(line, items, answers, i), PacketsAfter(line, items, answers, i + 1);
            && (Brings(items[i], answers[i]) ==> after == before + Sends(answers[i]))
            && (items[i].Minus? && !Acknowledged(line, items[..i], answers[..i]) ==>
                  after == before + [Resent(LastPacket(Play(line, items[..i], answers[..i]).trace))])
            && (items[i].Minus? && Acknowledged(line, items[..i], answers[..i]) ==> after == before)
            && (!items[i].Minus? && !Brings(items[i], answers[i]) ==> after == before)
  {
    hide PlayItem, Control, Validate, Means, WellCollected, ItemControl, PacketsOf, LastPacket, Acknowledged;
    PlayNext(line, items, answers, i);
    AcknowledgedIff(line, items[..i], answers[..i]);
    PacketsItem(Play(line, items[..i], answers[..i]), items[i], answers[i]);
    if items[i].Packet? { AcceptsIffMeant(items[i]); }
  }

  lemma PacketsItem(line: Line, item: Item, answers: seq<seq<Byte>>)
    ensures PacketsOf(PlayItem(line, item, answers).trace)
         == PacketsOf(line.trace) + (if Accepts(item) then Sends(answers)
                                     else if item.Minus? && !line.acknowledged then [Resent(LastPacket(line.trace))]
                                     else [])
  {
    hide LastPacket, PacketsOf, Validate;
    var t := line.trace;
    if Accepts(item) {
      var e := Executed(CommandOf(item));
      assert t + [Acked(true), e] == t + [Acked(true)] + [e];
      PacketsSnoc(t, Acked(true));
      PacketsSnoc(t + [Acked(true)], e);
      PacketsSends(t + [Acked(true), e], answers);
    } else {
      PacketsSnoc(t, Acked(false));
      PacketsSnoc(t, Resent(LastPacket(t)));
    }
  }

  lemma {:induction false} PacketsSends(trace: seq<Event>, payloads: seq<seq<Byte>>)
    ensures PacketsOf(trace + Sends(payloads)) == PacketsOf(trace) + Sends(payloads)
    decreases |payloads|
  {
    hide PacketsOf, Frame;
    if payloads == [] {
      assert trace + Sends(payloads) == trace;
    } else {
      var n := |payloads| - 1;
      PacketsSends(trace, payloads[..n]);
      assert Sends(payloads) == Sends(payloads[..n]) + [Sent(Frame(payloads[n]))];
      assert trace + Sends(payloads) == trace + Sends(payloads[..n]) + [Sent(Frame(payloads[n]))];
      PacketsSnoc(trace + Sends(payloads[..n]), Sent(Frame(payloads[n])));
    }
  }

  lemma {:induction false} AcknowledgedIff(line: Line, items: seq<Item>, answers: seq<seq<seq<Byte>>>)
    requires |answers| == |items|
    requires forall k :: 0 <= k < |items| && items[k].Packet? ==> WellCollected(items[k].bytes)
    ensures Play(line, items, answers).acknowledged <==> Acknowledged(line, items, answers)
    decreases |items|
  {
    hide Validate, Means, WellCollected, Brings, LastPacket;
    if items != [] {
      var n := |items| - 1;
      AcknowledgedIff(line, items[..n], answers[..n]);
      AcknowledgedLast(line, items, answers);
      AcknowledgedItem(Play(line, items[..n], answers[..n]), items[n], answers[n]);
    }
  }

  lemma AcknowledgedItem(line: Line, item: Item, answers: seq<seq<Byte>>)
    requires item.Packet? ==> WellCollected(item.bytes)
    ensures PlayItem(line, item, answers).acknowledged <==> item.Plus? || (line.acknowledged && !Brings(item, answers))
  {
    hide Validate, Means, WellCollected, LastPacket;
    if item.Packet? { AcceptsIffMeant(item); }
  }

  lemma AcknowledgedLast(line: Line, items: seq<Item>, answers: seq<seq<seq<Byte>>>)
    requires |answers| == |items| && items != []
    ensures var n := |items| - 1;
            Acknowledged(line, items, answers) <==>
            items[n].Plus? || (Acknowledged(line, items[..n], answers[..n]) && !Brings(items[n], answers[n]))
  {
    hide Means;
    var n := |items| - 1;
    assert forall k :: 0 <= k < n ==> items[..n][k] == items[k] && answers[..n][k] == answers[k];
    if items[n].Plus? { assert PlusStands(items, answers, n); }
    forall j | 0 <= j < n
      ensures PlusStands(items, answers, j) <==>
              PlusStands(items[..n], answers[..n], j) && !Brings(items[n], answers[n])
    {
    }
    if PlusStands(items, answers, n) { assert items[n].Plus?; }
  }
}
