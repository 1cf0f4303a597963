/** ProcessMemoryCommand between its request and its reply. */
module MemoryCommands {
  import opened Bytes
  import opened Memory
  import opened MemoryAccess
  import opened Text
  import opened Packets
  import opened Commands

  /** Addresses that the Windbg workaround answers with zeros: page 0 and the
      Windows shared data page. */
  predicate Faked(workarounds: bool, a: Address) {
    workarounds && (a < PAGE || a - a % PAGE == 0xffff_f780_0000_0000)
  }

  lemma FakedWhere(workarounds: bool, a: Address)
    ensures Faked(workarounds, a) <==>
            workarounds && (a < 0x1000 || 0xffff_f780_0000_0000 <= a < 0xffff_f780_0000_1000)
  {
    var k := 0xffff_f780_0000_0000 / PAGE;
    if a - a % PAGE == 0xffff_f780_0000_0000 { assert a == 0xffff_f780_0000_0000 + a % PAGE; }
    if 0xffff_f780_0000_0000 <= a < 0xffff_f780_0000_1000 {
      assert a / PAGE == k;
    }
  }

  function Blank(n: nat): (z: seq<Byte>)
    ensures |z| == n
  {
    seq(n, _ => 0)
  }

  /** The same where memory is known: a long read also stays inside if its first
      chunk is refused, because then nothing is encoded. */
  ghost predicate StaysInBounds(machine: Machine, attrs: seq<Attributes>, mem: seq<Byte>, workarounds: bool,
                                command: seq<Byte>)
    requires Whole(mem) && Paged(attrs)
  {
    InBounds(command)
    || (command != [] && command[0] == 'm' as int
        && ParseMemory(command[1..], false).MemRequest?
        && LongReadStops(machine, attrs, mem, workarounds, ParseMemory(command[1..], false).address))
  }

  ghost predicate LongReadStops(machine: Machine, attrs: seq<Attributes>, mem: seq<Byte>, workarounds: bool, a: Address)
    requires Whole(mem) && Paged(attrs)
  {
    !Faked(workarounds, a) && machine.Blocked(mem, attrs, a, Blank(1024), false)
  }

  /** What a memory command does to memory and what it answers. `denied`: some
      call of the attribute protocol failed. */
  ghost predicate Outcome(machine: Machine, attrs: seq<Attributes>, denied: bool, mem: seq<Byte>, mem': seq<Byte>,
                          args: seq<Byte>, write: bool, workarounds: bool, reply: seq<Byte>)
    requires Whole(mem) && Paged(attrs)
  {
    match ParseMemory(args, write)
    case BadRequest => mem' == mem && reply == ErrorReply(GDB_ERROR_BAD_REQUEST)
    case MemRequest(address, length, value) =>
      if write then Written(machine, attrs, denied, mem, mem', address, Decode(value), reply)
      else ReadOut(machine, attrs, denied, mem, mem', address, length, workarounds, reply)
  }

  /** All of the data written, if no page of the range is refused; or a prefix
      up to a page boundary where a page is refused, and an error. */
  ghost predicate Written(machine: Machine, attrs: seq<Attributes>, denied: bool, mem: seq<Byte>, mem': seq<Byte>,
                          address: Address, data: seq<Byte>, reply: seq<Byte>)
    requires Whole(mem) && Paged(attrs)
  {
    || (reply == OK && mem' == Patch(mem, address, data) && !machine.Blocked(mem, attrs, address, data, true))
    || (reply == ErrorReply(GDB_ERROR_BAD_MEM_ADDRESS)
        && exists k :: StartsPage(address, |data|, k) && mem' == Patch(mem, address, data[..k])
                       && (!denied ==> machine.Refuses(mem', attrs, At(address, k), true)))
  }

  /** The bytes at the address in hex (zeros where faked), if no page of the
      range is refused; else an error. */
  ghost predicate ReadOut(machine: Machine, attrs: seq<Attributes>, denied: bool, mem: seq<Byte>, mem': seq<Byte>,
                          address: Address, length: Address, workarounds: bool, reply: seq<Byte>)
    requires Whole(mem) && Paged(attrs)
  {
    && mem' == mem
    && if Faked(workarounds, address) then reply == Encode(Blank(length))
       else
         var blocked := machine.Blocked(mem, attrs, address, Blank(length), false);
         || (reply == Encode(Slice(mem, address, length)) && !blocked)
         || (reply == ErrorReply(GDB_ERROR_BAD_MEM_ADDRESS) && length > 0 && (!denied ==> blocked))
  }

  /** After a write answered OK, the range holds the decoded bytes and every
      other byte of memory is what it was. A read of the same range changes
      nothing and, unless a call of the attribute protocol fails, answers with
      the same digits in lower case if and only if no page is refused by then;
      where refusal depends on attributes, none is. */
  lemma WriteThenRead(machine: Machine, attrs: seq<Attributes>, denied0: bool, denied1: bool,
                      mem0: seq<Byte>, mem1: seq<Byte>, mem2: seq<Byte>, writeArgs: seq<Byte>, readArgs: seq<Byte>,
                      workarounds: bool, reply: seq<Byte>)
    requires Whole(mem0) && Whole(mem1) && Paged(attrs)
    requires Outcome(machine, attrs, denied0, mem0, mem1, writeArgs, true, workarounds, OK)
    requires Outcome(machine, attrs, denied1, mem1, mem2, readArgs, false, workarounds, reply)
    requires ParseMemory(writeArgs, true).MemRequest? && ParseMemory(readArgs, false).MemRequest?
    requires var w, r := ParseMemory(writeArgs, true), ParseMemory(readArgs, false);
             && w.address == r.address && w.length == r.length && 2 * w.length < SPACE && AllHex(w.value)
             && !Faked(workarounds, w.address)
    ensures var w := ParseMemory(writeArgs, true);
            && mem2 == mem1 && Slice(mem2, w.address, w.length) == Decode(w.value)
            && (forall x: Address :: Offset(w.address, x) >= w.length ==> mem2[x] == mem0[x])
            && reply in {Lower(w.value), ErrorReply(GDB_ERROR_BAD_MEM_ADDRESS)}
    ensures var w := ParseMemory(writeArgs, true);
            var blocked := machine.Blocked(mem1, attrs, w.address, Blank(w.length), false);
            && (machine.phase != Dxe(false) ==> !blocked)
            && (reply == Lower(w.value) ==> !blocked) && (!blocked && !denied1 ==> reply == Lower(w.value))
  {
    hide Patch, Slice, Encode, Decode, Lower, SplitMemory, ParseHex64;
    var w := ParseMemory(writeArgs, true);
    NotOk();
    PatchSlice(mem0, w.address, Decode(w.value));
    EncodeDecode(w.value);
    assert |ErrorReply(GDB_ERROR_BAD_MEM_ADDRESS)| == 3 && |w.value| == 2 * w.length;
    if machine.phase != Dxe(false) {
      machine.AttributesDecide(mem0, mem1, attrs, w.address, Decode(w.value), Blank(w.length), true, false);
    }
  }

  lemma NotOk()
    ensures OK != ErrorReply(GDB_ERROR_BAD_MEM_ADDRESS) && OK != ErrorReply(GDB_ERROR_BAD_REQUEST)
  {
    assert |OK| == 2;
  }

  /** The spelled-out exchange: `M addr,len:hex` answered OK, then `m addr,len`. */
  lemma SpelledWriteThenRead(machine: Machine, attrs: seq<Attributes>, denied0: bool, denied1: bool,
                             mem0: seq<Byte>, mem1: seq<Byte>, mem2: seq<Byte>,
                             addr: seq<Byte>, len: seq<Byte>, hex: seq<Byte>, workarounds: bool, reply: seq<Byte>)
    requires Whole(mem0) && Whole(mem1) && Paged(attrs)
    requires AllHex(addr) && AllHex(len) && AllHex(hex)
    requires Positional(addr) < SPACE && Positional(len) < SPACE / 2 && |hex| == 2 * Positional(len)
    requires !Faked(workarounds, Positional(addr))
    requires Outcome(machine, attrs, denied0, mem0, mem1, addr + [COMMA] + len + [COLON] + hex, true, workarounds, OK)
    requires Outcome(machine, attrs, denied1, mem1, mem2, addr + [COMMA] + len, false, workarounds, reply)
    ensures mem2 == mem1 && Slice(mem2, Positional(addr), Positional(len)) == Decode(hex)
    ensures forall x: Address :: Offset(Positional(addr), x) >= Positional(len) ==> mem2[x] == mem0[x]
    ensures reply in {Lower(hex), ErrorReply(GDB_ERROR_BAD_MEM_ADDRESS)}
    ensures var blocked := machine.Blocked(mem1, attrs, Positional(addr), Blank(Positional(len)), false);
            && (machine.phase != Dxe(false) ==> !blocked)
            && (reply == Lower(hex) ==> !blocked) && (!blocked && !denied1 ==> reply == Lower(hex))
  {
    hide Outcome, Lower, Decode, Slice, ParseMemory, Positional;
    ParseSpelled(addr, len, hex);
    WriteThenRead(machine, attrs, denied0, denied1, mem0, mem1, mem2, addr + [COMMA] + len + [COLON] + hex,
                  addr + [COMMA] + len, workarounds, reply);
  }

  // ------------------------------------------------------------ the code

  /** Overwrites the first such byte of the request with a NUL. */
  method CutAtFirst(request: array<Byte>, start: nat, n: nat, b: Byte) returns (at: int)
    requires start + n < request.Length && request[start + n] == NUL
    modifies request
    ensures request[start + n] == NUL && request[..start] == old(request[..start])
    ensures var args := old(request[start..start + n]);
            if at == -1 then Find(args, b) == n && request[start..start + n] == args
            else at == start + Find(args, b) < start + n && request[start..start + n] == args[Find(args, b) := NUL]
  {
    hide Find;
    at := ScanMem8(request, start, n, b);
    if at != -1 {
      FindBound(request[start..start + n], b);
      request[at] := NUL;
    }
  }

  lemma FindBound(s: seq<Byte>, b: Byte)
    ensures Find(s, b) <= |s|
  {
  }

  /** Overwrites the separators with NULs: a comma, and for a write a colon. */
  method Separate(write: bool, request: array<Byte>, start: nat, n: nat)
    returns (ok: bool, comma: nat, colon: nat)
    requires start + n < request.Length && request[start + n] == NUL
    modifies request
    ensures request[start + n] == NUL
    ensures ok <==> SplitMemory(old(request[start..start + n]), write).Parts?
    ensures ok ==> comma < n && colon < n
    ensures ok ==> SeparatedAt(old(request[start..start + n]), write, comma, colon, request[start..start + n])
  {
    hide CString, Find, SplitMemory;
    SplitFails(request[start..start + n], write);
    comma, colon := 0, 0;
    var at := CutAtFirst(request, start, n, COMMA);
    if at == -1 {
      return false, 0, 0;
    }
    comma := at - start;
    if write {
      at := CutAtFirst(request, start, n, COLON);
      if at == -1 {
        return false, 0, 0;
      }
      colon := at - start;
    }
    ok := true;
  }

  /** cut is args with NULs for its separators, which were at these places. */
  predicate SeparatedAt(args: seq<Byte>, write: bool, comma: nat, colon: nat, cut: seq<Byte>) {
    && comma == Find(args, COMMA) < |args|
    && if write then colon == Find(args[comma := NUL], COLON) < |args| && cut == args[comma := NUL][colon := NUL]
       else colon == 0 && cut == args[comma := NUL]
  }

  lemma SplitOf(args: seq<Byte>, write: bool, comma: nat, colon: nat, cut: seq<Byte>)
    requires SeparatedAt(args, write, comma, colon, cut)
    ensures |cut| == |args| && colon < |args|
    ensures SplitMemory(args, write) == PartsAt(cut, comma, colon, write)
  {
    hide CString, Find, PartsAt;
  }

  lemma SplitFails(args: seq<Byte>, write: bool)
    ensures SplitMemory(args, write) == NoParts <==>
            Find(args, COMMA) == |args| || (write && Find(args[Find(args, COMMA) := NUL], COLON) == |args|)
  {
    hide CString, Find, PartsAt;
  }

  /** Takes the request apart in place. */
  method SplitRequest(write: bool, request: array<Byte>, start: nat, n: nat)
    returns (r: MemRequest, valueString: nat)
    requires start + n < request.Length && request[start + n] == NUL
    modifies request
    ensures r == ParseMemory(old(request[start..start + n]), write)
    ensures r.MemRequest? && write ==>
              && start < valueString && valueString + |r.value| <= start + n
              && request[valueString..valueString + |r.value|] == r.value
  {
    hide CString, Find, SplitMemory, SeparatedAt, ReadParts;
    ghost var args := request[start..start + n];
    var ok, comma, colon := Separate(write, request, start, n);
    if !ok {
      NoPartsNoRequest(args, write);
      return BadRequest, 0;
    }
    PartsInPlace(request, start, args, write, comma, colon);
    valueString := start + colon + 1;
    r := ReadNumbers(request, start, start + comma + 1, valueString, write, SplitMemory(args, write));
  }

  /** The strings of the request are where the separators were. */
  lemma PartsInPlace(request: array<Byte>, start: nat, args: seq<Byte>, write: bool, comma: nat, colon: nat)
    requires start + |args| < request.Length && request[start + |args|] == NUL && comma < |args| && colon < |args|
    requires SeparatedAt(args, write, comma, colon, request[start..start + |args|])
    ensures SplitMemory(args, write).Parts?
    ensures SplitMemory(args, write).address == CString(request[start..])
    ensures SplitMemory(args, write).length == CString(request[start + comma + 1..])
    ensures SplitMemory(args, write).value == if write then CString(request[start + colon + 1..]) else []
    ensures Find(request[start + colon + 1..], NUL) <= |args| - colon - 1
  {
    hide CString, Find, SplitMemory, SeparatedAt, PartsAt;
    var cut := request[start..start + |args|];
    SplitOf(args, write, comma, colon, cut);
    AddressInPlace(request, start, cut, comma, colon, write);
    LengthInPlace(request, start, cut, comma, colon, write);
    ValueInPlace(request, start, cut, comma, colon, write);
  }

  lemma AddressInPlace(request: array<Byte>, start: nat, cut: seq<Byte>, comma: nat, colon: nat, write: bool)
    requires start + |cut| < request.Length && request[start + |cut|] == NUL && comma < |cut| && colon < |cut|
    requires request[start..start + |cut|] == cut
    ensures PartsAt(cut, comma, colon, write).address == CString(request[start..])
  {
    hide CString, Find, PartsAt;
    PartsAre(cut, comma, colon, write);
    InTail(request, start, cut, 0);
  }

  lemma LengthInPlace(request: array<Byte>, start: nat, cut: seq<Byte>, comma: nat, colon: nat, write: bool)
    requires start + |cut| < request.Length && request[start + |cut|] == NUL && comma < |cut| && colon < |cut|
    requires request[start..start + |cut|] == cut
    ensures PartsAt(cut, comma, colon, write).length == CString(request[start + comma + 1..])
  {
    hide CString, Find, PartsAt;
    PartsAre(cut, comma, colon, write);
    InTail(request, start, cut, comma + 1);
  }

  lemma ValueInPlace(request: array<Byte>, start: nat, cut: seq<Byte>, comma: nat, colon: nat, write: bool)
    requires start + |cut| < request.Length && request[start + |cut|] == NUL && comma < |cut| && colon < |cut|
    requires request[start..start + |cut|] == cut
    ensures PartsAt(cut, comma, colon, write).value == if write then CString(request[start + colon + 1..]) else []
    ensures Find(request[start + colon + 1..], NUL) <= |cut| - colon - 1
  {
    hide CString, Find, PartsAt;
    PartsAre(cut, comma, colon, write);
    InTail(request, start, cut, colon + 1);
  }

  lemma PartsAre(cut: seq<Byte>, comma: nat, colon: nat, write: bool)
    requires comma < |cut| && colon < |cut|
    ensures PartsAt(cut, comma, colon, write).address == CString(cut[0..])
    ensures PartsAt(cut, comma, colon, write).length == CString(cut[comma + 1..])
    ensures PartsAt(cut, comma, colon, write).value == if write then CString(cut[colon + 1..]) else []
  {
    hide CString;
    assert cut[0..] == cut;
  }

  lemma NoPartsNoRequest(args: seq<Byte>, write: bool)
    requires SplitMemory(args, write).NoParts?
    ensures ParseMemory(args, write) == BadRequest
  {
  }

  /** The numbers and the length check. */
  method ReadNumbers(request: array<Byte>, addressString: nat, lengthString: nat, valueString: nat, write: bool,
                     ghost parts: Parts)
    returns (r: MemRequest)
    requires addressString <= request.Length && lengthString <= request.Length && valueString <= request.Length
    requires parts.Parts? && parts.address == CString(request[addressString..])
    requires parts.length == CString(request[lengthString..])
    requires write ==> Find(request[valueString..], NUL) < request.Length - valueString
    requires parts.value == if write then CString(request[valueString..]) else []
    ensures r == ReadParts(parts, write)
    ensures r.MemRequest? && write ==> |r.value| == Find(request[valueString..], NUL) < request.Length - valueString
    ensures r.MemRequest? && write ==> request[valueString..valueString + |r.value|] == r.value
  {
    hide ParseHex64, CString, Find;
    var address := ParseHex64(CString(request[addressString..]));
    var length := ParseHex64(CString(request[lengthString..]));
    if address.Overflow? || length.Overflow? {
      return BadRequest;
    }
    r := MemRequest(address.v, length.v, []);
    if write {
      var digits := AsciiStrLen(request, valueString);
      CStringHead(request[valueString..]);
      if digits != Doubled(length.v) {
        return BadRequest;
      }
      r := MemRequest(address.v, length.v, request[valueString..valueString + digits]);
    }
  }

  /** A C string inside bytes that a NUL follows ends within them. */
  lemma TailString(request: array<Byte>, start: nat, args: seq<Byte>, at: nat)
    requires start + |args| < request.Length && request[start + |args|] == NUL && start <= at <= start + |args|
    requires request[start..start + |args|] == args
    ensures CString(request[at..]) == CString(args[at - start..])
    ensures Find(request[at..], NUL) <= start + |args| - at
  {
    var end := start + |args|;
    assert request[at..] == args[at - start..] + request[end..];
    CStringCut(args[at - start..], request[end..]);
    FindAtMost(request[at..], NUL, end - at);
  }

  lemma InTail(request: array<Byte>, start: nat, args: seq<Byte>, k: nat)
    requires start + |args| < request.Length && request[start + |args|] == NUL && k <= |args|
    requires request[start..start + |args|] == args
    ensures CString(request[start + k..]) == CString(args[k..])
    ensures Find(request[start + k..], NUL) <= |args| - k
  {
    hide CString, Find;
    TailString(request, start, args, start + k);
  }

  lemma CStringHead(s: seq<Byte>)
    ensures CString(s) == s[..Find(s, NUL)] && |CString(s)| == Find(s, NUL)
  {
  }

  /** The inner loop of a write: n bytes from hex digits. It stops short where
      the digits would be read beyond the request buffer. */
  method DecodeInto(request: array<Byte>, value: nat, scratch: array<Byte>, n: nat) returns (next: nat, overrun: bool)
    requires request != scratch && value <= request.Length && n <= scratch.Length
    modifies scratch
    ensures overrun <==> value + 2 * n > request.Length
    ensures !overrun ==> next == value + 2 * n && scratch[..n] == Decode(request[value..value + 2 * n])
  {
    hide HexPair;
    next := value;
    for i := 0 to n
      invariant next == value + 2 * i <= request.Length
      invariant forall j :: 0 <= j < i ==> scratch[j] == HexPair(request[value + 2 * j], request[value + 2 * j + 1])
    {
      if next + 2 > request.Length {
        return next, true;
      }
      scratch[i] := HexToByte(request, next);
      next := next + 2;
    }
    overrun := false;
  }

  /** The inner loop of a read: n bytes to hex digits. It stops short where bytes
      would be read beyond the scratch buffer. */
  method EncodeInto(scratch: array<Byte>, n: nat, response: array<Byte>, at: nat) returns (next: nat, overrun: bool)
    requires scratch != response && at + 2 * scratch.Length <= response.Length
    modifies response
    ensures overrun <==> n > scratch.Length
    ensures !overrun ==> next == at + 2 * n && response[at..next] == Encode(scratch[..n])
    ensures response[..at] == old(response[..at])
  {
    next := at;
    for i := 0 to n
      invariant i <= scratch.Length && next == at + 2 * i
      invariant response[..at] == old(response[..at])
      invariant forall j :: 0 <= j < 2 * i ==> response[at + j] == Encode(scratch[..])[j]
    {
      if i == scratch.Length {
        return next, true;
      }
      response[next] := HexChar(scratch[i] / 16);
      response[next + 1] := HexChar(scratch[i] % 16);
      next := next + 2;
    }
    overrun := false;
    assert forall j :: 0 <= j < 2 * n ==> Encode(scratch[..n])[j] == Encode(scratch[..])[j];
  }

  lemma PatchNothing(mem: seq<Byte>, a: Address)
    requires Whole(mem)
    ensures Patch(mem, a, []) == mem
  {
  }

  /** What the state is each time the chunk loop of a write is entered: nothing
      done yet, or everything. */
  ghost predicate AtChunk(mem: seq<Byte>, mem': seq<Byte>, target: Address, data: seq<Byte>, address: Address, left: int)
    requires Whole(mem)
  {
    if left == 0 then mem' == Patch(mem, target, data)
    else left == |data| && address == target && mem' == mem
  }

  /** The write loop. Its chunks are cut at the scratch size, but the first one
      already takes everything, or else runs out of the request buffer. */
  method WriteTarget(machine: Machine, request: array<Byte>, valueString: nat, scratch: array<Byte>,
                     target: Address, total: Address)
    returns (ok: bool, overrun: bool, ghost denied: bool, ghost restored: bool)
    requires machine.Valid() && request != scratch && scratch.Length == 1024
    requires valueString <= request.Length < valueString + 2048
    requires total <= 1024 ==> valueString + 2 * total <= request.Length
    modifies machine`memory, machine`attributes, machine`failed, scratch
    ensures machine.Valid()
    ensures overrun <==> total > 1024
    ensures overrun ==> !denied && machine.memory == old(machine.memory)
    ensures !overrun ==>
              Written(machine, old(machine.attributes), denied, old(machine.memory), machine.memory,
                      target, Decode(request[valueString..valueString + 2 * total]),
                      if ok then OK else ErrorReply(GDB_ERROR_BAD_MEM_ADDRESS))
    ensures machine.Weakened(old(machine.attributes), machine.attributes)
    ensures restored <==> machine.attributes == old(machine.attributes)
    ensures machine.Logged(denied, restored)
  {
    hide Patch, Decode, HexPair, Machine.Refuses, Machine.Blocked, Machine.Weakened;
    ok, overrun, denied, restored := false, false, false, true;
    machine.WeakenedSelf(machine.attributes);
    var address, length, value := target, total, valueString;
    ghost var mem, attrs := machine.memory, machine.attributes;
    ghost var digits := if total <= 1024 then request[valueString..valueString + 2 * total] else [];
    ghost var data := Decode(digits);
    PatchNothing(mem, target);
    if total == 0 { NothingBlocked(machine, mem, attrs, target, data, true); }
    while length > 0
      invariant machine.Valid() && 0 <= length && (total > 1024 ==> length == total)
      invariant total <= 1024 ==> request[valueString..valueString + 2 * total] == digits
      invariant length > 0 ==> length == total && value == valueString && machine.memory == mem
      invariant length > 0 ==> machine.attributes == attrs && !denied
      invariant total <= 1024 ==> AtChunk(mem, machine.memory, target, data, address, length)
      invariant length == 0 ==> !machine.Blocked(mem, attrs, target, data, true)
      invariant machine.Weakened(attrs, machine.attributes)
      invariant restored <==> machine.attributes == attrs
      invariant machine.Logged(denied, restored)
    {
      var range := if length < scratch.Length then length else scratch.Length;
      value, overrun := DecodeInto(request, value, scratch, range);
      if overrun {
        return;
      }
      ghost var done, back;
      ghost var staged := scratch[..];
      assert staged[..range] == data;
      ok, done, denied, back := machine.AccessMemory(address, scratch, range, true);
      assert request[valueString..valueString + 2 * total] == digits;
      restored := restored && back;
      if !ok {
        assert StartsPage(target, |data|, done) && staged[..done] == data[..done];
        return;
      }
      address := At(address, range);
      length := length - range;
    }
    ok := true;
  }

  lemma NothingBlocked(machine: Machine, mem: seq<Byte>, attrs: seq<Attributes>, a: Address, data: seq<Byte>, write: bool)
    requires Whole(mem) && Paged(attrs) && data == []
    ensures !machine.Blocked(mem, attrs, a, data, write)
  {
  }

  /** The read loop: one chunk, encoded into the response. The encoding goes on
      for the whole length, so a longer read leaves the scratch buffer exactly
      when its first chunk gets there. */
  method ReadTarget(machine: Machine, scratch: array<Byte>, response: array<Byte>, workarounds: bool,
                    target: Address, total: Address)
    returns (ok: bool, overrun: bool, ghost denied: bool, ghost restored: bool)
    requires machine.Valid() && response != scratch && scratch.Length == 1024
    requires response.Length > 2050
    modifies machine`memory, machine`attributes, machine`failed, scratch, response
    ensures machine.Valid() && machine.memory == old(machine.memory)
    ensures machine.Weakened(old(machine.attributes), machine.attributes)
    ensures restored <==> machine.attributes == old(machine.attributes)
    ensures machine.Logged(denied, restored)
    ensures overrun <==>
            total > 1024 && !denied
            && !LongReadStops(machine, old(machine.attributes), machine.memory, workarounds, target)
    ensures ok ==> total <= 1024
    ensures var want := if Faked(workarounds, target) then Blank(total) else Slice(machine.memory, target, total);
            ok ==> !overrun && response[1..1 + 2 * total] == Encode(want) && response[1 + 2 * total] == NUL
    ensures var blocked := machine.Blocked(machine.memory, old(machine.attributes), target, Blank(total), false);
            if ok then Faked(workarounds, target) || !blocked
            else !overrun ==> !Faked(workarounds, target) && total > 0 && (!denied ==> blocked)
  {
    hide Slice, Encode, Machine.Refuses, Machine.Blocked, Machine.Weakened;
    ok, overrun, denied, restored := false, false, false, true;
    machine.WeakenedSelf(machine.attributes);
    var address, length, next := target, total, 1;
    ghost var want := if Faked(workarounds, target) then Blank(total) else Slice(machine.memory, target, total);
    ghost var mem, attrs := machine.memory, machine.attributes;
    if total == 0 {
      EmptyEncode(want);
      NothingBlocked(machine, mem, attrs, target, Blank(total), false);
    }
    while length > 0
      invariant machine.Valid() && machine.memory == mem && 0 <= length && !overrun && !denied
      invariant machine.Weakened(attrs, machine.attributes)
      invariant restored <==> machine.attributes == attrs
      invariant machine.Logged(denied, restored)
      invariant length == 0 ==> total <= 1024
      invariant if length == 0 then next == 1 + 2 * total && response[1..next] == Encode(want)
                else length == total && next == 1 && address == target && machine.attributes == attrs
      invariant length == 0 ==> Faked(workarounds, target) || !machine.Blocked(mem, attrs, target, Blank(total), false)
    {
      var range := if length < scratch.Length then length else scratch.Length;
      if Faked(workarounds, address) && range < PAGE {
        forall i | 0 <= i < range { scratch[i] := 0; }
      } else {
        ghost var done, back;
        ghost var was := scratch[..range];
        ok, done, denied, back := machine.AccessMemory(address, scratch, range, false);
        ReadStopped(machine, mem, attrs, target, was, total);
        restored := restored && back;
        if !ok {
          return;
        }
      }
      next, overrun := EncodeInto(scratch, length, response, next);
      if overrun {
        ok := false;
        return;
      }
      assert scratch[..range] == want;
      address := At(address, range);
      length := length - range;
    }
    response[next] := NUL;
    assert response[1..next] == Encode(want);
    ok := true;
  }

  /** Whether the first chunk is stopped, said of blank data, and of all of them. */
  lemma ReadStopped(machine: Machine, mem: seq<Byte>, attrs: seq<Attributes>, a: Address, chunk: seq<Byte>, total: Address)
    requires Whole(mem) && Paged(attrs) && |chunk| == if total < 1024 then total else 1024
    ensures machine.Blocked(mem, attrs, a, chunk, false) <==> machine.Blocked(mem, attrs, a, Blank(|chunk|), false)
    ensures machine.Blocked(mem, attrs, a, chunk, false) ==> machine.Blocked(mem, attrs, a, Blank(total), false)
  {
    hide Machine.Blocked;
    machine.BlockedReads(mem, attrs, a, chunk, Blank(|chunk|));
    if machine.Blocked(mem, attrs, a, chunk, false) {
      assert Blank(total)[..|chunk|] == Blank(|chunk|);
      machine.BlockedLonger(mem, attrs, a, Blank(total), |chunk|, false);
    }
  }

  lemma EmptyEncode(s: seq<Byte>)
    requires s == []
    ensures Encode(s) == []
  {
  }

  /** ProcessMemoryCommand up to its reply, which a read builds in place, or up
      to where it leaves its buffers. */
  method Perform(machine: Machine, request: array<Byte>, scratch: array<Byte>, response: array<Byte>,
                 ghost command: seq<Byte>, n: nat, write: bool, workarounds: bool)
    returns (nested: bool, reply: seq<Byte>, overrun: bool, ghost mishaps: Mishaps)
    requires machine.Valid() && request != scratch && request != response && response != scratch
    requires scratch.Length == 1024 && response.Length > MAX_RESPONSE_SIZE + 1 && request.Length == MAX_REQUEST_SIZE
    requires n + 1 == |command| && 2 + n < request.Length && n <= MAX_REQUEST_SIZE - 5
    requires request[2..2 + n] == command[1..] && request[2 + n] == NUL
    requires command[0] == (if write then 'M' as int else 'm' as int)
    modifies machine`memory, machine`attributes, machine`failed, request, scratch, response
    ensures machine.Valid()
    ensures overrun <==>
            !mishaps.denied
            && !StaysInBounds(machine, old(machine.attributes), old(machine.memory), workarounds, command)
    ensures overrun ==> machine.memory == old(machine.memory)
    ensures !overrun ==> IsReply(reply)
    ensures !overrun && nested ==> response[1..1 + |reply|] == reply && response[1 + |reply|] == NUL
    ensures !overrun ==>
              Outcome(machine, old(machine.attributes), mishaps.denied, old(machine.memory), machine.memory,
                      command[1..], write, workarounds, reply)
    ensures machine.Weakened(old(machine.attributes), machine.attributes)
    ensures !mishaps.Failed() && (mishaps.unrestored <==> machine.attributes != old(machine.attributes))
    ensures machine.Logged(mishaps.denied, !mishaps.unrestored)
  {
    hide ParseMemory, Patch, Slice, Encode, Decode, IsReply, Machine.Refuses, Machine.Blocked, Machine.Weakened;
    hide LongReadStops;
    ConstantReplies();
    machine.WeakenedSelf(machine.attributes);
    var r, valueString := SplitRequest(write, request, 2, n);
    if r.BadRequest? {
      return false, ErrorReply(GDB_ERROR_BAD_REQUEST), false, NO_MISHAPS;
    }
    var ok;
    ghost var denied, restored;
    if write {
      WriteFitsScratch(command[1..]);
      ok, overrun, denied, restored := WriteTarget(machine, request, valueString, scratch, r.address, r.length);
      nested := false;
      reply := if ok then OK else ErrorReply(GDB_ERROR_BAD_MEM_ADDRESS);
    } else {
      ok, overrun, denied, restored := ReadTarget(machine, scratch, response, workarounds, r.address, r.length);
      nested := ok;
      reply := if ok then response[1..1 + 2 * r.length] else ErrorReply(GDB_ERROR_BAD_MEM_ADDRESS);
      if ok { HexIsReply(reply); }
    }
    mishaps := Mishaps(false, false, denied, !restored);
  }
}
