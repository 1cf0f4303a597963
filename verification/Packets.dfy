/** GDB packets on the wire: framing, the validity rule, and how the reader
    cuts a stream into packets (GDB Remote Serial Protocol, section E.1). */
module Packets {
  import opened Bytes

  const MAX_REQUEST_SIZE: nat := 2048
  const MAX_RESPONSE_SIZE: nat := 0x1000

  // ------------------------------------------------------------- framing

  /** The sum of the bytes, modulo 256. */
  function Sum8(s: seq<Byte>): (sum: Byte) {
    if s == [] then 0 else (Sum8(s[..|s| - 1]) + s[|s| - 1]) % 256
  }

  method CalculateSum8(buffer: array<Byte>, start: nat, n: nat) returns (sum: Byte)
    requires start + n <= buffer.Length
    ensures sum == Sum8(buffer[start..start + n])
  {
    sum := 0;
    assert buffer[start..start] == [];
    for i := 0 to n
      invariant sum == Sum8(buffer[start..start + i])
    {
      assert buffer[start..start + i + 1][..i] == buffer[start..start + i];
      sum := (sum + buffer[start + i]) % 256;
    }
  }

  function SumDigits(sum: Byte): (h: seq<Byte>)
    ensures |h| == 2 && IsHexDigit(h[0]) && IsHexDigit(h[1])
  {
    [HexChar(sum / 16), HexChar(sum % 16)]
  }

  /** `$payload#cs` with a lower-case checksum. */
  function Frame(payload: seq<Byte>): (packet: seq<Byte>)
    ensures |packet| == |payload| + 4
  {
    [DOLLAR] + payload + [HASH] + SumDigits(Sum8(payload))
  }

  /** A reply that can be framed: no delimiter, no terminator, and it fits. */
  predicate IsReply(payload: seq<Byte>) {
    HASH !in payload && NUL !in payload && |payload| <= MAX_RESPONSE_SIZE
  }

  // ---------------------------------------------------------- validation

  datatype Check = Accepted(command: seq<Byte>) | Rejected

  /** Where the checksum delimiter is looked for: from index 1 on. */
  function HashIndex(packet: seq<Byte>): (k: nat)
    requires packet != []
    ensures 1 <= k <= |packet|
    ensures k < |packet| ==> packet[k] == HASH
    ensures forall j :: 1 <= j < k ==> packet[j] != HASH
  {
    var f := Find(packet[1..], HASH);
    assert forall j :: 1 <= j < 1 + f ==> packet[j] == packet[1..][j - 1];
    1 + f
  }

  lemma HashIndexIs(packet: seq<Byte>, k: nat)
    requires packet != [] && 1 <= k <= |packet|
    requires forall j :: 1 <= j < k ==> packet[j] != HASH
    requires k < |packet| ==> packet[k] == HASH
    ensures HashIndex(packet) == k
  {
    var h := HashIndex(packet);
    if h < k { assert false; }
    if k < h { assert false; }
  }

  /** The verdict of ProcessGdbPacket on a packet. */
  function Validate(packet: seq<Byte>): Check
    requires packet != []
  {
    var k := HashIndex(packet);
    if k + 2 >= |packet| then Rejected
    else if !(IsHexDigit(packet[k + 1]) && IsHexDigit(packet[k + 2])) then Rejected
    else if 16 * HexValue(packet[k + 1]) + HexValue(packet[k + 2]) != Sum8(packet[1..k]) then Rejected
    else Accepted(packet[1..k])
  }

  /** A packet around payload whose two checksum digits, of either case, say its sum. */
  predicate Encloses(packet: seq<Byte>, payload: seq<Byte>) {
    && |packet| == |payload| + 4
    && packet[0] == DOLLAR
    && packet[1..1 + |payload|] == payload
    && packet[1 + |payload|] == HASH
    && IsHexDigit(packet[2 + |payload|]) && IsHexDigit(packet[3 + |payload|])
    && 16 * HexValue(packet[2 + |payload|]) + HexValue(packet[3 + |payload|]) == Sum8(payload)
  }

  /** Validation gives back exactly the payload that was enclosed. */
  lemma ValidateEnclosed(packet: seq<Byte>, payload: seq<Byte>)
    requires HASH !in payload && Encloses(packet, payload)
    ensures Validate(packet) == Accepted(payload)
  {
    hide Sum8;
    forall j | 1 <= j < 1 + |payload|
      ensures packet[j] != HASH
    {
      assert packet[j] == payload[j - 1];
    }
    HashIndexIs(packet, 1 + |payload|);
  }

  /** What is sent parses back to what was meant. */
  lemma ValidateFrame(payload: seq<Byte>)
    requires HASH !in payload
    ensures Validate(Frame(payload)) == Accepted(payload)
  {
    FrameEncloses(payload);
    ValidateEnclosed(Frame(payload), payload);
  }

  lemma FrameEncloses(payload: seq<Byte>)
    ensures Encloses(Frame(payload), payload)
  {
    hide Sum8;
  }

  // ------------------------------------------------------------- reading

  /** What the transport offers next: a byte, or nothing until time `now`. */
  datatype In = Data(b: Byte) | Idle(now: nat)

  function Stream(s: seq<Byte>): (r: seq<In>)
    ensures |r| == |s|
  {
    seq(|s|, i requires 0 <= i < |s| => Data(s[i]))
  }

  datatype Collected = Complete(packet: seq<Byte>, rest: seq<In>) | Failed(partial: seq<Byte>, rest: seq<In>)

  /** The collecting loop of ProcessInputData, having read acc. */
  function Collect(input: seq<In>, acc: seq<Byte>): (r: Collected)
    ensures |r.rest| <= |input|
    ensures r.Complete? ==> |r.rest| < |input|
    decreases |input|
  {
    if |acc| >= MAX_REQUEST_SIZE then Failed(acc, input)
    else if input == [] then Failed(acc, [])
    else if input[0].Idle? then Failed(acc, input[1..])
    else
      var acc' := acc + [input[0].b];
      if |acc'| >= 4 && acc'[|acc'| - 3] == HASH then Complete(acc', input[1..])
      else Collect(input[1..], acc')
  }

  /** What ProcessInputData makes of the stream, item by item. */
  datatype Item =
    | Minus
    | Plus
    | Noise(b: Byte)
    | Packet(bytes: seq<Byte>)
    | Broken(partial: seq<Byte>)

  datatype Scanned = Scanned(items: seq<Item>, rest: seq<In>)

  function Scan(input: seq<In>): (r: Scanned)
    ensures |r.rest| <= |input|
    ensures input != [] ==> |r.rest| < |input|
    decreases |input|
  {
    if input == [] then Scanned([], [])
    else if input[0].Idle? then Scanned([], input[1..])
    else if input[0].b == DOLLAR then
      match Collect(input[1..], [DOLLAR])
      case Complete(packet, rest) => Prepend(Packet(packet), Scan(rest))
      case Failed(partial, rest) => Scanned([Broken(partial)], rest)
    else
      var b := input[0].b;
      Prepend(if b == MINUS then Minus else if b == PLUS then Plus else Noise(b), Scan(input[1..]))
  }

  function Prepend(item: Item, s: Scanned): Scanned {
    Scanned([item] + s.items, s.rest)
  }

  // ------------------------------------------- what the reader guarantees

  /** A packet as the collecting loop hands it over: the first delimiter from
      index 1 on is third from the end, and it fits the buffer. */
  predicate WellCollected(p: seq<Byte>) {
    4 <= |p| <= MAX_REQUEST_SIZE && p[0] == DOLLAR && HashIndex(p) == |p| - 3
  }

  /** Reader and validator agree: a complete packet is never too short for its checksum. */
  lemma {:induction false} CollectedAgrees(input: seq<In>, acc: seq<Byte>)
    requires acc != [] && acc[0] == DOLLAR
    requires forall j :: 1 <= j < |acc| - 2 ==> acc[j] != HASH
    ensures Collect(input, acc).Complete? ==> WellCollected(Collect(input, acc).packet)
    decreases |input|
  {
    if |acc| < MAX_REQUEST_SIZE && input != [] && input[0].Data? {
      var acc' := acc + [input[0].b];
      if |acc'| >= 4 && acc'[|acc'| - 3] == HASH {
        HashIndexIs(acc', |acc'| - 3);
      } else {
        CollectedAgrees(input[1..], acc');
      }
    }
  }

  lemma {:induction false} ScannedAgree(input: seq<In>)
    ensures forall i :: 0 <= i < |Scan(input).items| && Scan(input).items[i].Packet? ==>
              WellCollected(Scan(input).items[i].bytes)
    decreases |input|
  {
    if input != [] && input[0].Data? {
      if input[0].b == DOLLAR {
        CollectedAgrees(input[1..], [DOLLAR]);
        var c := Collect(input[1..], [DOLLAR]);
        if c.Complete? { ScannedAgree(c.rest); }
      } else {
        ScannedAgree(input[1..]);
      }
    }
  }

  lemma {:induction false} CollectFails(input: seq<In>, acc: seq<Byte>)
    requires acc != [] && acc[0] == DOLLAR && |acc| <= MAX_REQUEST_SIZE
    requires forall j :: 1 <= j < |acc| - 2 ==> acc[j] != HASH
    ensures var c := Collect(input, acc);
            c.Failed? ==>
              && c.partial != [] && c.partial[0] == DOLLAR && |c.partial| <= MAX_REQUEST_SIZE
              && (forall j :: 1 <= j < |c.partial| - 2 ==> c.partial[j] != HASH)
    decreases |input|
  {
    if |acc| < MAX_REQUEST_SIZE && input != [] && input[0].Data? {
      var acc' := acc + [input[0].b];
      if !(|acc'| >= 4 && acc'[|acc'| - 3] == HASH) {
        CollectFails(input[1..], acc');
      }
    }
  }

  /** Only a packet without its two checksum digits is given up, and reading
      ends with it. */
  lemma {:induction false} BrokenIsCut(input: seq<In>, i: nat)
    requires i < |Scan(input).items| && Scan(input).items[i].Broken?
    ensures i == |Scan(input).items| - 1
    ensures var p := Scan(input).items[i].partial;
            && p != [] && p[0] == DOLLAR && |p| <= MAX_REQUEST_SIZE
            && forall j :: 1 <= j < |p| - 2 ==> p[j] != HASH
    decreases |input|
  {
    if input[0].b == DOLLAR {
      var c := Collect(input[1..], [DOLLAR]);
      CollectFails(input[1..], [DOLLAR]);
      if c.Complete? { BrokenIsCut(c.rest, i - 1); }
    } else {
      BrokenIsCut(input[1..], i - 1);
    }
  }

  // The reader neither drops, invents nor reorders a byte.

  function Spelling(item: Item): seq<Byte> {
    match item
    case Minus => [MINUS]
    case Plus => [PLUS]
    case Noise(b) => [b]
    case Packet(bytes) => bytes
    case Broken(partial) => partial
  }

  function Spell(items: seq<Item>): seq<Byte> {
    if items == [] then [] else Spelling(items[0]) + Spell(items[1..])
  }

  /** What ends a session: nothing more to read, or one wait that timed out. */
  predicate Ending(e: seq<In>) {
    e == [] || (|e| == 1 && e[0].Idle?)
  }

  lemma {:induction false} CollectSpells(input: seq<In>, acc: seq<Byte>) returns (e: seq<In>)
    ensures Ending(e)
    ensures var c := Collect(input, acc);
            if c.Complete? then Stream(acc) + input == Stream(c.packet) + c.rest
            else Stream(acc) + input == Stream(c.partial) + e + c.rest
    decreases |input|
  {
    e := [];
    if |acc| < MAX_REQUEST_SIZE && input != [] {
      if input[0].Idle? {
        e := [input[0]];
        assert input == e + input[1..];
      } else {
        var acc' := acc + [input[0].b];
        assert Stream(acc) + input == Stream(acc') + input[1..];
        if !(|acc'| >= 4 && acc'[|acc'| - 3] == HASH) {
          e := CollectSpells(input[1..], acc');
        }
      }
    }
  }

  /** The input is the items spelled out in order, then the ending, then what is left. */
  lemma {:induction false} ScanSpells(input: seq<In>) returns (e: seq<In>)
    ensures Ending(e)
    ensures input == Stream(Spell(Scan(input).items)) + e + Scan(input).rest
    decreases |input|
  {
    hide Collect, Spell, Stream;
    e := [];
    SpellNone();
    if input != [] {
      if input[0].Idle? {
        e := [input[0]];
      } else if input[0].b == DOLLAR {
        var c := Collect(input[1..], [DOLLAR]);
        HeadByte(input);
        if c.Complete? {
          var _ := CollectSpells(input[1..], [DOLLAR]);
          e := ScanSpells(c.rest);
          SpellCons(Packet(c.packet), Scan(c.rest).items);
          Chain(Stream(c.packet), Stream(Spell(Scan(c.rest).items)), e, Scan(c.rest).rest);
        } else {
          e := CollectSpells(input[1..], [DOLLAR]);
          SpellOne(Broken(c.partial));
        }
      } else {
        e := ScanSpells(input[1..]);
        HeadByte(input);
        var t := Scan(input[1..]);
        SpellCons(Scan(input).items[0], t.items);
        Chain(Stream([input[0].b]), Stream(Spell(t.items)), e, t.rest);
      }
    }
  }

  lemma SpellNone()
    ensures Stream(Spell([])) == []
  {
  }

  lemma SpellOne(item: Item)
    ensures Stream(Spell([item])) == Stream(Spelling(item))
  {
  }

  lemma Chain(x: seq<In>, y: seq<In>, e: seq<In>, r: seq<In>)
    ensures x + (y + e + r) == (x + y) + e + r
  {
  }

  lemma HeadByte(input: seq<In>)
    requires input != [] && input[0].Data?
    ensures input == Stream([input[0].b]) + input[1..]
  {
  }

  lemma SpellCons(item: Item, items: seq<Item>)
    ensures Stream(Spell([item] + items)) == Stream(Spelling(item)) + Stream(Spell(items))
  {
    assert ([item] + items)[1..] == items;
  }

  // ------------------------------------------------ what the stub does

  /** The trace of the stub: acknowledgements and packets written, and commands
      handed to ExecuteGdbCommand. */
  datatype Event =
    | Acked(positive: bool)
    | Executed(command: seq<Byte>)
    | Sent(packet: seq<Byte>)
    | Resent(packet: seq<Byte>)

  /** Acknowledgement and execution due to one item. */
  function ItemControl(item: Item): seq<Event> {
    match item
    case Packet(bytes) =>
      if bytes == [] then []
      else (match Validate(bytes)
            case Accepted(command) => [Acked(true), Executed(command)]
            case Rejected => [Acked(false)])
    case Broken(_) => [Acked(false)]
    case _ => []
  }

  function ControlOf(items: seq<Item>): seq<Event> {
    if items == [] then [] else ItemControl(items[0]) + ControlOf(items[1..])
  }

  /** The acknowledgements and executions of a trace, in order. */
  function Control(trace: seq<Event>): seq<Event> {
    if trace == [] then []
    else
      var e := trace[|trace| - 1];
      Control(trace[..|trace| - 1]) + (if e.Acked? || e.Executed? then [e] else [])
  }

  // -------------------------------------------------- stream round trip

  /** A packet with some bytes before it that do not start one. */
  datatype Request = Request(gap: seq<Byte>, packet: seq<Byte>, payload: seq<Byte>)

  predicate IsRequest(r: Request) {
    && DOLLAR !in r.gap && HASH !in r.payload
    && Encloses(r.packet, r.payload) && |r.packet| <= MAX_REQUEST_SIZE
  }

  function Wire(rs: seq<Request>): seq<Byte> {
    if rs == [] then [] else rs[0].gap + rs[0].packet + Wire(rs[1..])
  }

  function Expected(rs: seq<Request>): seq<Event> {
    if rs == [] then [] else [Acked(true), Executed(rs[0].payload)] + Expected(rs[1..])
  }

  /** The collecting loop stops exactly at the end of the packet. */
  lemma {:induction false} CollectEnclosed(packet: seq<Byte>, payload: seq<Byte>, k: nat, tail: seq<In>)
    requires HASH !in payload && Encloses(packet, payload) && |packet| <= MAX_REQUEST_SIZE
    requires 1 <= k < |packet|
    ensures Collect(Stream(packet[k..]) + tail, packet[..k]) == Complete(packet, tail)
    decreases |packet| - k
  {
    var input := Stream(packet[k..]) + tail;
    var acc' := packet[..k] + [input[0].b];
    assert acc' == packet[..k + 1];
    assert input[1..] == Stream(packet[k + 1..]) + tail;
    if k + 1 == |packet| {
      assert packet[..k + 1] == packet;
    } else {
      if k >= 3 { assert packet[k - 2] == payload[k - 3]; }
      CollectEnclosed(packet, payload, k + 1, tail);
    }
  }

  lemma {:induction false} GapIsIdle(gap: seq<Byte>, tail: seq<In>)
    requires DOLLAR !in gap
    ensures ControlOf(Scan(Stream(gap) + tail).items) == ControlOf(Scan(tail).items)
    ensures Scan(Stream(gap) + tail).rest == Scan(tail).rest
    decreases |gap|
  {
    if gap == [] {
      assert Stream(gap) + tail == tail;
    } else {
      var input := Stream(gap) + tail;
      assert input[1..] == Stream(gap[1..]) + tail;
      GapIsIdle(gap[1..], tail);
      var s := Scan(input[1..]);
      assert ([Scan(input).items[0]] + s.items)[1..] == s.items;
    }
  }

  lemma PacketExecutes(packet: seq<Byte>, payload: seq<Byte>, tail: seq<In>)
    requires HASH !in payload && Encloses(packet, payload) && |packet| <= MAX_REQUEST_SIZE
    ensures Scan(Stream(packet) + tail) == Prepend(Packet(packet), Scan(tail))
    ensures ControlOf(Scan(Stream(packet) + tail).items)
         == [Acked(true), Executed(payload)] + ControlOf(Scan(tail).items)
  {
    hide Collect, Sum8;
    var input := Stream(packet) + tail;
    assert input[1..] == Stream(packet[1..]) + tail;
    assert packet[..1] == [DOLLAR];
    CollectEnclosed(packet, payload, 1, tail);
    ValidateEnclosed(packet, payload);
    assert ([Packet(packet)] + Scan(tail).items)[1..] == Scan(tail).items;
  }

  /** Whatever the payloads and whatever lies between them, the stub executes
      exactly the payloads, in order, with one positive acknowledgement each,
      and reads up to the first pause. */
  lemma {:induction false} StreamRoundTrip(rs: seq<Request>, gap: seq<Byte>, tail: seq<In>)
    requires forall i :: 0 <= i < |rs| ==> IsRequest(rs[i])
    requires DOLLAR !in gap && (tail == [] || tail[0].Idle?)
    ensures ControlOf(Scan(Stream(Wire(rs) + gap) + tail).items) == Expected(rs)
    ensures Scan(Stream(Wire(rs) + gap) + tail).rest == if tail == [] then [] else tail[1..]
    decreases |rs|
  {
    hide Stream, Collect, Validate;
    if rs == [] {
      assert Wire(rs) + gap == gap;
      GapIsIdle(gap, tail);
    } else {
      var r, rest := rs[0], Stream(Wire(rs[1..]) + gap) + tail;
      StreamRoundTrip(rs[1..], gap, tail);
      StreamSplit(r.gap, r.packet, Wire(rs[1..]), gap, tail);
      GapIsIdle(r.gap, Stream(r.packet) + rest);
      PacketExecutes(r.packet, r.payload, rest);
    }
  }

  lemma StreamSplit(a: seq<Byte>, b: seq<Byte>, c: seq<Byte>, d: seq<Byte>, tail: seq<In>)
    ensures Stream(a + b + c + d) + tail == Stream(a) + (Stream(b) + (Stream(c + d) + tail))
  {
  }

  /** Every executed command came checksummed and delimited in the stream. */
  lemma {:induction false} ExecutedWasSent(input: seq<In>, i: nat)
    requires i < |ControlOf(Scan(input).items)| && ControlOf(Scan(input).items)[i].Executed?
    ensures exists k :: 0 <= k < |Scan(input).items| && Scan(input).items[k].Packet? &&
              var command := ControlOf(Scan(input).items)[i].command;
              HASH !in command && Encloses(Scan(input).items[k].bytes, command)
  {
    var items := Scan(input).items;
    ScannedAgree(input);
    ExecutedIn(items, i);
  }

  lemma {:induction false} ExecutedIn(items: seq<Item>, i: nat)
    requires forall k :: 0 <= k < |items| && items[k].Packet? ==> WellCollected(items[k].bytes)
    requires i < |ControlOf(items)| && ControlOf(items)[i].Executed?
    ensures exists k :: 0 <= k < |items| && items[k].Packet? &&
              HASH !in ControlOf(items)[i].command && Encloses(items[k].bytes, ControlOf(items)[i].command)
    decreases |items|
  {
    var here := ItemControl(items[0]);
    if i < |here| {
      AcceptedEncloses(items[0].bytes);
    } else {
      ExecutedIn(items[1..], i - |here|);
      var k :| 0 <= k < |items[1..]| && items[1..][k].Packet? &&
        HASH !in ControlOf(items)[i].command && Encloses(items[1..][k].bytes, ControlOf(items)[i].command);
      assert items[k + 1] == items[1..][k];
    }
  }

  lemma AcceptedEncloses(p: seq<Byte>)
    requires WellCollected(p) && Validate(p).Accepted?
    ensures HASH !in Validate(p).command && Encloses(p, Validate(p).command)
  {
    hide Sum8;
    var c := Validate(p).command;
    forall j | 0 <= j < |c|
      ensures c[j] != HASH
    {
      assert c[j] == p[j + 1];
    }
  }
}
