/** Commands taken apart in the request buffer, and replies built in the
    response buffer, by the handlers of the stub. */
module Handlers {
  import opened Bytes
  import opened Memory
  import opened Registers
  import opened Text
  import opened Packets
  import opened Commands
  import opened MemoryCommands

  /** A NUL-free text followed by a NUL is the C string found there. */
  lemma TextInBuffer(buffer: seq<Byte>, start: nat, text: seq<Byte>)
    requires start + |text| < |buffer| && NUL !in text
    requires buffer[start..start + |text|] == text && buffer[start + |text|] == NUL
    ensures Find(buffer[start..], NUL) == |text| && CString(buffer[start..]) == text
  {
    assert forall i :: 0 <= i < |text| ==> buffer[start..][i] == text[i];
    FindUnique(buffer[start..], NUL, |text|);
  }

  /** A `P index=value` command: the context it leaves and its reply. */
  function RegisterWritten(context: seq<Byte>, registers: seq<Register>, text: seq<Byte>): (r: (seq<Byte>, seq<Byte>))
    requires Fits(registers, |context|)
  {
    var k := Find(text, EQUALS);
    if k == |text| then (context, ErrorReply(GDB_ERROR_BAD_REQUEST))
    else
      var index := ParseHex(text[..k]);
      var value := text[k + 1..];
      if index >= |registers| then (context, ErrorReply(GDB_ERROR_BAD_REG_INDEX))
      else if |value| < 2 * registers[index].size then (context, ErrorReply(GDB_ERROR_INTERNAL))
      else (WriteOne(context, registers[index], value), OK)
  }

  lemma RegisterReplies(context: seq<Byte>, registers: seq<Register>, text: seq<Byte>)
    requires Fits(registers, |context|)
    ensures IsReply(RegisterWritten(context, registers, text).1)
  {
    hide ParseHex, WriteOne, IsReply;
    ConstantReplies();
  }

  /** The text before and after the first b, cut apart in place. */
  method CutString(request: array<Byte>, start: nat, b: Byte) returns (found: bool, next: nat)
    requires start <= request.Length && Find(request[start..], NUL) < request.Length - start && b != NUL
    modifies request
    ensures request[..start] == old(request[..start])
    ensures var text := CString(old(request[start..]));
            var k := Find(text, b);
            && (found <==> k < |text|)
            && (found ==> next == start + k + 1 <= request.Length
                          && CString(request[start..]) == text[..k] && CString(request[next..]) == text[k + 1..]
                          && Find(request[next..], NUL) < request.Length - next)
  {
    hide Find, CString;
    ghost var text := CString(request[start..]);
    CStringHead(request[start..]);
    var n := AsciiStrLen(request, start);
    assert request[start..start + n] == text;
    var at := CutAtFirst(request, start, n, b);
    if at == -1 {
      return false, start;
    }
    ghost var k, cut := at - start, request[start..start + n];
    CutText(text, k);
    assert cut[0..] == cut;
    InTail(request, start, cut, 0);
    InTail(request, start, cut, k + 1);
    assert start + (k + 1) == at + 1;
    found, next := true, at + 1;
  }

  /** WriteRegister up to its reply. */
  method WriteNamedRegister(context: array<Byte>, registers: seq<Register>, request: array<Byte>, start: nat)
    returns (reply: seq<Byte>)
    requires context != request && Fits(registers, context.Length)
    requires start <= request.Length && Find(request[start..], NUL) < request.Length - start
    modifies request, context
    ensures (context[..], reply) == RegisterWritten(old(context[..]), registers, CString(old(request[start..])))
  {
    hide ParseHex, WriteOne, Find, CString, Fits;
    var found, value := CutString(request, start, EQUALS);
    if !found {
      return ErrorReply(GDB_ERROR_BAD_REQUEST);
    }
    var index := ParseHex(CString(request[start..]));
    if index >= |registers| {
      return ErrorReply(GDB_ERROR_BAD_REG_INDEX);
    }
    RegisterFits(registers, context.Length, index);
    var end := WriteRegisterToContext(context, registers[index], request, value);
    reply := if end == -1 then ErrorReply(GDB_ERROR_INTERNAL) else OK;
  }

  lemma CutText(text: seq<Byte>, k: nat)
    requires NUL !in text && k < |text|
    ensures CString(text[k := NUL]) == text[..k]
    ensures CString(text[k := NUL][k + 1..]) == text[k + 1..]
  {
    FindUnique(text[k := NUL], NUL, k);
    assert text[k := NUL][..k] == text[..k];
    FindUnique(text[k + 1..], NUL, |text| - k - 1);
    assert text[k := NUL][k + 1..] == text[k + 1..];
  }

  lemma VReplies(args: seq<Byte>)
    ensures VActionOf(args).Reply? ==> IsReply(VActionOf(args).text)
  {
    hide NamesCont, IsReply;
    ConstantReplies();
  }

  /** ProcessVCommand up to its effect: the name is cut at its delimiter in place. */
  method ParseVCommand(request: array<Byte>, start: nat, n: nat) returns (action: VAction)
    requires start + n + 1 < request.Length && request[start + n] == NUL
    modifies request
    ensures action == VActionOf(old(request[start..start + n]))
  {
    hide SameUpTo, CString, Delimiter, Find;
    ghost var args := request[start..start + n];
    var index := 0;
    while index < n && request[start + index] != SEMICOLON && request[start + index] != QUESTION
      invariant 0 <= index <= n
      invariant forall i :: 0 <= i < index ==> args[i] != SEMICOLON && args[i] != QUESTION
    {
      assert args[index] == request[start + index];
      index := index + 1;
    }
    DelimiterUnique(args, index);
    var delimiter := request[start + index];
    assert delimiter == SEMICOLON || delimiter == QUESTION || delimiter == NUL;
    ghost var name := request[start..start + index];
    assert name == args[..index];
    request[start + index] := NUL;
    assert request[start..start + index] == name;
    NameInBuffer(request, start, args, index);
    if !SameUpTo(CString(request[start..]), CONT, index) {
      return Reply([]);
    }
    var next := request[start + index + 1];
    assert index + 1 < n ==> next == args[index + 1];
    action := if delimiter == SEMICOLON && next == 'c' as int then Continue
              else if delimiter == SEMICOLON && next == 's' as int then StepOnce
              else if delimiter == QUESTION then Reply(VCONT)
              else Reply([]);
  }

  lemma DelimiterUnique(args: seq<Byte>, k: nat)
    requires k <= |args|
    requires forall i :: 0 <= i < k ==> args[i] != SEMICOLON && args[i] != QUESTION
    requires k < |args| ==> args[k] == SEMICOLON || args[k] == QUESTION
    ensures Delimiter(args) == k
  {
    if Delimiter(args) < k { assert false; }
    if Delimiter(args) > k { assert false; }
  }

  /** With a NUL over its delimiter, the buffer starts with the name. */
  lemma NameInBuffer(request: array<Byte>, start: nat, args: seq<Byte>, k: nat)
    requires k <= |args| && start + k < request.Length
    requires request[start..start + k] == args[..k] && request[start + k] == NUL
    ensures CString(request[start..]) == CString(args[..k])
  {
    assert request[start..] == args[..k] + request[start + k..];
    CStringCut(args[..k], request[start + k..]);
  }

  /** ProcessBreakpoint up to its effect: the request is cut at two commas in place. */
  method ParseBreakpoint(request: array<Byte>, start: nat) returns (r: BreakRequest)
    requires start <= request.Length && Find(request[start..], NUL) < request.Length - start
    modifies request
    ensures r == ParseBreak(old(request[start..]))
  {
    hide Find, CString, ParseHex;
    var found, address := CutString(request, start, COMMA);
    if !found {
      return BadBreak;
    }
    ghost var before, front := request[start..], request[..address];
    assert before[..address - start] == front[start..];
    var length;
    found, length := CutString(request, address, COMMA);
    if !found {
      return BadBreak;
    }
    assert request[start..][..address - start] == front[start..];
    CStringStable(before, request[start..], address - start);
    var kind := ParseHex(CString(request[start..]));
    var target := ParseHex(CString(request[address..]));
    var size := ParseHex(CString(request[length..]));
    r := if kind == 0 then Software(target)
         else if 2 <= kind <= 4 then Watch(target, size, kind == 3 || kind == 4, kind == 2 || kind == 4)
         else Unsupported;
  }

  /** A C string that ends within the first n bytes depends on them alone. */
  lemma CStringStable(s: seq<Byte>, t: seq<Byte>, n: nat)
    requires n <= |s| == |t| && s[..n] == t[..n] && |CString(s)| < n
    ensures CString(t) == CString(s)
  {
    var k := |CString(s)|;
    assert t[k] == s[..n][k] && t[..k] == s[..n][..k];
    assert forall i :: 0 <= i < k ==> t[i] == s[..n][i];
    FindUnique(t, NUL, k);
  }

  lemma BreakSameString(s: seq<Byte>, t: seq<Byte>)
    requires CString(s) == CString(t)
    ensures ParseBreak(s) == ParseBreak(t)
  {
  }

  lemma MonitorIsLong(args: seq<Byte>)
    requires QueryOf(args) == Monitor
    ensures |CString(args)| >= 5
  {
    hide CString, Ascii, SameUpTo;
    SameLength(CString(args), Ascii("Rcmd,"), 5);
  }

  lemma SameLength(s: seq<Byte>, t: seq<Byte>, n: nat)
    requires SameUpTo(s, t, n) && n <= |t|
    ensures |s| >= n
  {
    assert |s[..if n < |s| then n else |s|]| == |t[..n]|;
  }

  lemma QuerySameString(s: seq<Byte>, t: seq<Byte>)
    requires CString(s) == CString(t)
    ensures QueryOf(s) == QueryOf(t)
  {
    hide SameUpTo, Ascii, CString;
  }

  lemma ConsoleInPlace(buffer: seq<Byte>, text: seq<Byte>)
    requires IsConsoleText(text) && |buffer| > 2 + 2 * |text|
    requires buffer[1] == 'O' as int && buffer[2..2 + 2 * |text|] == Encode(text)
    ensures buffer[1..1 + |ConsoleReply(text)|] == ConsoleReply(text)
  {
    assert buffer[1..2 + 2 * |text|] == [buffer[1]] + buffer[2..2 + 2 * |text|];
  }

  lemma EncodeSnoc(text: seq<Byte>, k: nat)
    requires k < |text|
    ensures Encode(text[..k + 1]) == Encode(text[..k]) + [HexChar(text[k] / 16), HexChar(text[k] % 16)]
  {
    assert text[..k + 1] == text[..k] + [text[k]];
    EncodeConcat(text[..k], [text[k]]);
  }

  /** ConvertResponseToHex: stops at the end of the string, or where two more
      digits and the NUL would not fit. */
  method ConvertResponseToHex(response: array<Byte>, output: array<Byte>, at: nat, bufferLength: nat, ghost text: seq<Byte>)
    requires response != output && 2 <= bufferLength && at + bufferLength <= output.Length
    requires |text| < response.Length && response[..|text|] == text && response[|text|] == NUL && NUL !in text
    modifies output
    ensures var k := if 2 * |text| < bufferLength then |text| else (bufferLength - 1) / 2;
            && output[at..at + 2 * k] == Encode(text[..k]) && output[at + 2 * k] == NUL
    ensures output[..at] == old(output[..at])
  {
    hide Encode;
    var index := 0;
    while response[index] != NUL && 2 * index + 1 < bufferLength - 1
      invariant 0 <= index <= |text| && 2 * index < bufferLength
      invariant output[..at] == old(output[..at])
      invariant output[at..at + 2 * index] == Encode(text[..index])
      decreases |text| - index
    {
      assert text[index] == response[index];
      ghost var before := output[at..at + 2 * index];
      output[at + 2 * index] := HexChar(response[index] / 16);
      output[at + 2 * index + 1] := HexChar(response[index] % 16);
      assert output[at..at + 2 * index + 2]
          == before + [HexChar(text[index] / 16), HexChar(text[index] % 16)];
      EncodeSnoc(text, index);
      index := index + 1;
    }
    output[at + 2 * index] := NUL;
  }
}
