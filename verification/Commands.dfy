/** What each GDB command asks for, and the text of each reply. */
module Commands {
  import opened Bytes
  import opened Memory
  import opened Text
  import opened Packets

  // Replies that are constant text.

  const OK: seq<Byte> := Ascii("OK")
  const STOP_REPLY: seq<Byte> := Ascii("T05thread:01;")
  const VCONT: seq<Byte> := Ascii("vCont;c;C;s;S")
  const SUPPORTED: seq<Byte> := Ascii("PacketSize=1000;") + Ascii("qXfer:features:read+;") + Ascii("vContSupported+")
  const ONE_THREAD: seq<Byte> := Ascii("m01")
  const NO_MORE: seq<Byte> := Ascii("l")
  const ATTACHED: seq<Byte> := Ascii("1")

  lemma ConstantReplies()
    ensures IsReply([]) && IsReply(OK) && IsReply(STOP_REPLY) && IsReply(VCONT) && IsReply(SUPPORTED)
    ensures IsReply(ONE_THREAD) && IsReply(NO_MORE) && IsReply(ATTACHED)
  {
    var a, b, c := Ascii("PacketSize=1000;"), Ascii("qXfer:features:read+;"), Ascii("vContSupported+");
    assert IsReply(a) && IsReply(b) && IsReply(c);
  }

  const GDB_ERROR_UNSUPPORTED: Byte := 0x01
  const GDB_ERROR_INTERNAL: Byte := 0x02
  const GDB_ERROR_UNKOWN_CMD: Byte := 0x03
  const GDB_ERROR_BAD_REQUEST: Byte := 0x04
  const GDB_ERROR_BAD_REG_INDEX: Byte := 0x05
  const GDB_ERROR_BAD_MEM_ADDRESS: Byte := 0x06
  const GDB_ERROR_RESPONSE_TOO_LONG: Byte := 0x07

  /** "Exx" */
  function ErrorReply(code: Byte): (reply: seq<Byte>)
    ensures IsReply(reply) && |reply| == 3 && reply[0] == 'E' as int
  {
    ['E' as int, HexChar(code / 16), HexChar(code % 16)]
  }

  lemma ErrorsAre()
    ensures ErrorReply(GDB_ERROR_UNSUPPORTED) == Ascii("E01") && ErrorReply(GDB_ERROR_INTERNAL) == Ascii("E02")
    ensures ErrorReply(GDB_ERROR_UNKOWN_CMD) == Ascii("E03") && ErrorReply(GDB_ERROR_BAD_REQUEST) == Ascii("E04")
    ensures ErrorReply(GDB_ERROR_BAD_REG_INDEX) == Ascii("E05") && ErrorReply(GDB_ERROR_BAD_MEM_ADDRESS) == Ascii("E06")
  {
  }

  /** Hex digits hold no delimiter, and no hex reply begins like an error. */
  lemma HexIsReply(h: seq<Byte>)
    requires AllLowerHex(h) && |h| <= MAX_RESPONSE_SIZE
    ensures IsReply(h)
    ensures h != [] ==> h[0] != 'E' as int
  {
  }

  // ------------------------------------------------------------ v packets

  /** The first ';' or '?', or the length. */
  function Delimiter(args: seq<Byte>): (d: nat)
    ensures d <= |args|
    ensures forall i :: 0 <= i < d ==> args[i] != SEMICOLON && args[i] != QUESTION
    ensures d < |args| ==> args[d] == SEMICOLON || args[d] == QUESTION
  {
    if args == [] || args[0] == SEMICOLON || args[0] == QUESTION then 0 else 1 + Delimiter(args[1..])
  }

  const CONT: seq<Byte> := [0x43, 0x6F, 0x6E, 0x74]

  /** The name before the delimiter compares equal to "Cont" over its length. */
  predicate NamesCont(args: seq<Byte>) {
    SameUpTo(CString(args[..Delimiter(args)]), CONT, Delimiter(args))
  }

  /** What a v packet does: resume, resume for one step, or reply. */
  datatype VAction = Continue | StepOnce | Reply(text: seq<Byte>)

  function VActionOf(args: seq<Byte>): VAction {
    var d := Delimiter(args);
    if d == |args| || !NamesCont(args) then Reply([])
    else if args[d] == QUESTION then Reply(VCONT)
    else if d + 1 < |args| && args[d + 1] == 'c' as int then Continue
    else if d + 1 < |args| && args[d + 1] == 's' as int then StepOnce
    else Reply([])
  }

  /** This command resumes the target. */
  predicate Resumes(command: seq<Byte>) {
    command != [] && command[0] == 'v' as int && !VActionOf(command[1..]).Reply?
  }

  /** This command resumes the target for one step. */
  predicate Steps(command: seq<Byte>) {
    command != [] && command[0] == 'v' as int && VActionOf(command[1..]).StepOnce?
  }

  /** The name before the first `;` or `?` is a prefix of "Cont", possibly empty,
      or has "Cont" and a NUL in front; then comes `;c` or `;s`. */
  predicate SpelledAt(command: seq<Byte>, d: int) {
    && 0 <= d && d + 2 < |command| && command[0] == 'v' as int
    && (forall i :: 1 <= i < 1 + d ==> command[i] != SEMICOLON && command[i] != QUESTION)
    && command[1 + d] == SEMICOLON && command[2 + d] in {'c' as int, 's' as int}
    && IsContName(command[1..1 + d])
  }

  predicate IsContName(name: seq<Byte>) {
    name <= CONT || CONT + [NUL] <= name
  }

  /** Exactly these commands resume the target. */
  lemma ResumesIffCont(command: seq<Byte>)
    ensures Resumes(command) <==> exists d :: SpelledAt(command, d)
    ensures Resumes(command) && NUL !in command ==>
              exists d :: SpelledAt(command, d) && d <= 4 && command[1..1 + d] == CONT[..d]
  {
    hide IsContName, NamesCont;
    if Resumes(command) {
      var args := command[1..];
      var d := Delimiter(args);
      NameIsCont(args);
      assert command[1..1 + d] == args[..d];
      assert forall i :: 1 <= i < 1 + d ==> command[i] == args[i - 1];
      assert SpelledAt(command, d);
      if NUL !in command { ShortName(command, d); }
    }
    if d :| SpelledAt(command, d) {
      var args := command[1..];
      assert args[..d] == command[1..1 + d] && args[d] == command[1 + d] && args[d + 1] == command[2 + d];
      DelimiterIs(args, d);
      NameIsCont(args);
    }
  }

  /** Of them, `;s` asks for one step, and `;c` for none. */
  lemma StepsIffSpelled(command: seq<Byte>)
    ensures Steps(command) <==> exists d :: SpelledAt(command, d) && command[2 + d] == 's' as int
    ensures Resumes(command) && !Steps(command) <==> exists d :: SpelledAt(command, d) && command[2 + d] == 'c' as int
  {
    hide IsContName, NamesCont;
    ResumesIffCont(command);
    forall d | SpelledAt(command, d)
      ensures Steps(command) <==> command[2 + d] == 's' as int
    {
      var args := command[1..];
      assert args[..d] == command[1..1 + d] && args[d] == command[1 + d] && args[d + 1] == command[2 + d];
      DelimiterIs(args, d);
    }
    if Steps(command) {
      var d :| SpelledAt(command, d);
      assert command[2 + d] == 's' as int;
    }
    if Resumes(command) && !Steps(command) {
      var d :| SpelledAt(command, d);
      assert command[2 + d] == 'c' as int;
    }
  }

  /** A `v` command that resumes nothing is answered with what can be asked of
      vCont if it is `vCont?`, with the name spelled as loosely, and else with nothing. */
  lemma VRepliesSpelled(args: seq<Byte>)
    requires VActionOf(args).Reply?
    ensures VActionOf(args).text == (if AsksCont(args) then Ascii("vCont;c;C;s;S") else [])
  {
    hide IsContName, NamesCont;
    NameIsCont(args);
    if AsksCont(args) {
      var d :| 0 <= d < |args| && QuestionAt(args, d);
      DelimiterIs(args, d);
    } else if Delimiter(args) < |args| {
      assert !QuestionAt(args, Delimiter(args));
    }
  }

  predicate QuestionAt(args: seq<Byte>, d: int) {
    && 0 <= d < |args| && args[d] == QUESTION && IsContName(args[..d])
    && forall i :: 0 <= i < d ==> args[i] != SEMICOLON && args[i] != QUESTION
  }

  predicate AsksCont(args: seq<Byte>) {
    exists d :: 0 <= d < |args| && QuestionAt(args, d)
  }

  /** A name with "Cont" and a NUL in front has the NUL fifth. */
  lemma FifthIsNul(name: seq<Byte>)
    ensures CONT + [NUL] <= name ==> |name| >= 5 && name[4] == NUL && name[..4] == CONT
    ensures name <= CONT ==> NUL !in name && |name| <= 4 && name == CONT[..|name|]
  {
    if CONT + [NUL] <= name { assert name[..5] == CONT + [NUL]; }
  }

  lemma ShortName(command: seq<Byte>, d: nat)
    requires SpelledAt(command, d) && NUL !in command
    ensures d <= 4 && command[1..1 + d] == CONT[..d]
  {
    FifthIsNul(command[1..1 + d]);
  }

  lemma DelimiterIs(args: seq<Byte>, k: nat)
    requires k < |args| && (args[k] == SEMICOLON || args[k] == QUESTION)
    requires forall i :: 0 <= i < k ==> args[i] != SEMICOLON && args[i] != QUESTION
    ensures Delimiter(args) == k
  {
    if Delimiter(args) < k { assert false; }
  }

  lemma NameIsCont(args: seq<Byte>)
    ensures NamesCont(args) <==> IsContName(args[..Delimiter(args)])
  {
    hide CString, Find;
    var name := args[..Delimiter(args)];
    var k := |CString(name)|;
    FifthIsNul(name);
    assert name[..k] == CString(name);
    if k == |name| {
      assert CString(name) == name && name[..|name|] == name;
      assert |name| > 4 ==> NUL !in name;
    } else {
      NulInside(name, k);
    }
  }

  /** The comparison of a name that a NUL cuts short. */
  lemma NulInside(name: seq<Byte>, k: nat)
    requires k < |name| && name[k] == NUL && NUL !in name[..k]
    ensures IsContName(name) <==> name[..k] == CONT[..if |name| < 4 then |name| else 4]
  {
    FifthIsNul(name);
    assert forall i :: 0 <= i < k ==> name[i] == name[..k][i];
    if name[..k] == CONT[..if |name| < 4 then |name| else 4] {
      assert name[..5] == name[..4] + [name[4]];
    }
  }

  // ------------------------------------------------------ memory commands

  datatype MemRequest =
    | BadRequest
    | MemRequest(address: Address, length: Address, value: seq<Byte>)

  /** The C strings of a memory command, once separators are overwritten with NULs. */
  datatype Parts = NoParts | Parts(address: seq<Byte>, length: seq<Byte>, value: seq<Byte>)

  function SplitMemory(args: seq<Byte>, write: bool): Parts {
    var comma := Find(args, COMMA);
    if comma == |args| then NoParts
    else
      var args1 := args[comma := NUL];
      var colon := Find(args1, COLON);
      if !write then PartsAt(args1, comma, 0, false)
      else if colon == |args| then NoParts
      else PartsAt(args1[colon := NUL], comma, colon, true)
  }

  /** The strings of a command cut at these places. */
  function PartsAt(cut: seq<Byte>, comma: nat, colon: nat, write: bool): (p: Parts)
    requires comma < |cut| && colon < |cut|
    ensures p.Parts?
  {
    Parts(CString(cut), CString(cut[comma + 1..]), if write then CString(cut[colon + 1..]) else [])
  }

  /** How ProcessMemoryCommand reads `addr,length` or `addr,length:value`. */
  function ParseMemory(args: seq<Byte>, write: bool): MemRequest {
    ReadParts(SplitMemory(args, write), write)
  }

  function ReadParts(parts: Parts, write: bool): MemRequest {
    if parts.NoParts? then BadRequest
    else
      match (ParseHex64(parts.address), ParseHex64(parts.length))
      case (Value(address), Value(length)) =>
        if write && |parts.value| != Doubled(length) then BadRequest
        else MemRequest(address, length, parts.value)
      case _ => BadRequest
  }

  /** Length * 2 in 64 bits. */
  function Doubled(length: Address): Address {
    if 2 * length < SPACE then 2 * length else 2 * length - SPACE
  }

  /** A memory command whose copies stay inside the scratch buffer, the reply
      buffer and the value string, whatever memory it meets. */
  predicate InBounds(command: seq<Byte>) {
    command != [] ==>
      && (command[0] == 'm' as int ==>
            var r := ParseMemory(command[1..], false);
            r.MemRequest? ==> r.length <= 1024)
      && (command[0] == 'M' as int ==>
            var r := ParseMemory(command[1..], true);
            r.MemRequest? ==> 2 * r.length < SPACE)
  }

  /** A write that a request buffer can hold fits the scratch buffer, so that the
      chunk loop of ProcessMemoryCommand runs at most once, unless its length is
      2^63 or more and only seems to fit because it doubles in 64 bits. */
  lemma WriteFitsScratch(args: seq<Byte>)
    requires |args| <= MAX_REQUEST_SIZE - 5 && ParseMemory(args, true).MemRequest?
    ensures var r := ParseMemory(args, true);
            && |r.value| == Doubled(r.length)
            && (2 * r.length < SPACE <==> r.length <= 1020)
  {
    SplitValueShort(args);
  }

  /** At least two bytes of a write command are separators. */
  lemma SplitValueShort(args: seq<Byte>)
    requires SplitMemory(args, true).Parts?
    ensures |SplitMemory(args, true).value| <= |args| - 2
  {
    var comma := Find(args, COMMA);
    var args1 := args[comma := NUL];
    var colon := Find(args1, COLON);
    var rest := args1[colon := NUL][colon + 1..];
    assert colon != comma;
    if colon < comma {
      assert rest[comma - colon - 1] == NUL;
    }
  }

  /** The plain spelling parses to what it spells. */
  lemma ParseSpelled(addr: seq<Byte>, len: seq<Byte>, hex: seq<Byte>)
    requires AllHex(addr) && AllHex(len) && AllHex(hex)
    requires Positional(addr) < SPACE && Positional(len) < SPACE / 2 && |hex| == 2 * Positional(len)
    ensures ParseMemory(addr + [COMMA] + len + [COLON] + hex, true)
         == MemRequest(Positional(addr), Positional(len), hex)
    ensures ParseMemory(addr + [COMMA] + len, false) == MemRequest(Positional(addr), Positional(len), [])
  {
    ParseWriteSpelled(addr, len, hex);
    ParseReadSpelled(addr, len);
  }

  lemma HexBefore(s: seq<Byte>, b: Byte, t: seq<Byte>)
    requires AllHex(s) && !IsHexDigit(b)
    ensures Find(s + [b] + t, b) == |s|
    ensures b == NUL ==> CString(s + [b] + t) == s
    ensures CString(s) == s
  {
    FindUnique(s + [b] + t, b, |s|);
    FindUnique(s, NUL, |s|);
    if b == NUL { assert (s + [b] + t)[..|s|] == s; }
  }

  lemma SplitRead(addr: seq<Byte>, len: seq<Byte>)
    requires AllHex(addr) && AllHex(len)
    ensures SplitMemory(addr + [COMMA] + len, false) == Parts(addr, len, [])
  {
    hide CString, Find;
    var args := addr + [COMMA] + len;
    HexBefore(addr, COMMA, len);
    var args1 := args[|addr| := NUL];
    assert args1 == addr + [NUL] + len && args1[|addr| + 1..] == len;
    HexBefore(addr, NUL, len);
    HexBefore(len, NUL, []);
  }

  lemma ParseReadSpelled(addr: seq<Byte>, len: seq<Byte>)
    requires AllHex(addr) && AllHex(len) && Positional(addr) < SPACE && Positional(len) < SPACE
    ensures ParseMemory(addr + [COMMA] + len, false) == MemRequest(Positional(addr), Positional(len), [])
  {
    hide ParseHex64, SplitMemory, Positional;
    SplitRead(addr, len);
    ParseHexDigits(addr);
    ParseHexDigits(len);
  }

  lemma ColonAfter(addr: seq<Byte>, len: seq<Byte>, hex: seq<Byte>)
    requires AllHex(addr) && AllHex(len)
    ensures Find(addr + [NUL] + len + [COLON] + hex, COLON) == |addr| + 1 + |len|
  {
    FindUnique(addr + [NUL] + len + [COLON] + hex, COLON, |addr| + 1 + |len|);
  }

  lemma SplitWrite(addr: seq<Byte>, len: seq<Byte>, hex: seq<Byte>)
    requires AllHex(addr) && AllHex(len) && AllHex(hex)
    ensures SplitMemory(addr + [COMMA] + len + [COLON] + hex, true) == Parts(addr, len, hex)
  {
    hide CString, Find, AllHex;
    var args := addr + [COMMA] + len + [COLON] + hex;
    var tail := len + [COLON] + hex;
    assert args == addr + [COMMA] + tail;
    HexBefore(addr, COMMA, tail);
    var args1 := args[|addr| := NUL];
    var colon := |addr| + 1 + |len|;
    assert args1 == addr + [NUL] + len + [COLON] + hex;
    ColonAfter(addr, len, hex);
    var args2 := args1[colon := NUL];
    assert args2 == addr + [NUL] + (len + [NUL] + hex);
    assert args2[|addr| + 1..] == len + [NUL] + hex && args2[colon + 1..] == hex;
    HexBefore(addr, NUL, len + [NUL] + hex);
    HexBefore(len, NUL, hex);
    HexBefore(hex, NUL, []);
  }

  lemma ParseWriteSpelled(addr: seq<Byte>, len: seq<Byte>, hex: seq<Byte>)
    requires AllHex(addr) && AllHex(len) && AllHex(hex)
    requires Positional(addr) < SPACE && Positional(len) < SPACE / 2 && |hex| == 2 * Positional(len)
    ensures ParseMemory(addr + [COMMA] + len + [COLON] + hex, true)
         == MemRequest(Positional(addr), Positional(len), hex)
  {
    hide ParseHex64, SplitMemory, Positional;
    SplitWrite(addr, len, hex);
    ParseHexDigits(addr);
    ParseHexDigits(len);
  }

  // -------------------------------------------------- breakpoint commands

  datatype BreakRequest =
    | BadBreak
    | Unsupported
    | Software(address: Address)
    | Watch(address: Address, length: Address, read: bool, write: bool)

  /** `type,address,length` of a Z or z packet. */
  function ParseBreak(args: seq<Byte>): BreakRequest {
    var s := CString(args);
    var first := Find(s, COMMA);
    if first == |s| then BadBreak
    else
      var t := s[first + 1..];
      var second := Find(t, COMMA);
      if second == |t| then BadBreak
      else
        var kind := ParseHex(s[..first]);
        var address := ParseHex(t[..second]);
        if kind == 0 then Software(address)
        else if 2 <= kind <= 4 then
          Watch(address, ParseHex(t[second + 1..]), kind == 3 || kind == 4, kind == 2 || kind == 4)
        else Unsupported
  }

  /** What the plain spelling asks for: type 0 a software breakpoint, types 2, 3
      and 4 a watchpoint for writes, for reads, and for both. */
  lemma BreakSpelled(kind: seq<Byte>, addr: seq<Byte>, len: seq<Byte>)
    requires AllHex(kind) && AllHex(addr) && AllHex(len)
    requires Positional(kind) < SPACE && Positional(addr) < SPACE && Positional(len) < SPACE
    ensures ParseBreak(kind + [COMMA] + addr + [COMMA] + len)
         == match Positional(kind)
            case 0 => Software(Positional(addr))
            case 2 => Watch(Positional(addr), Positional(len), false, true)
            case 3 => Watch(Positional(addr), Positional(len), true, false)
            case 4 => Watch(Positional(addr), Positional(len), true, true)
            case _ => Unsupported
  {
    hide ParseHex, Positional, AllHex;
    var args := kind + [COMMA] + addr + [COMMA] + len;
    var t := addr + [COMMA] + len;
    assert args == kind + [COMMA] + t;
    NoNul(kind, addr, len);
    HexBefore(kind, COMMA, t);
    assert args[..|kind|] == kind && args[|kind| + 1..] == t;
    HexBefore(addr, COMMA, len);
    assert t[..|addr|] == addr && t[|addr| + 1..] == len;
    ParseHexSpelled(kind);
    ParseHexSpelled(addr);
    ParseHexSpelled(len);
  }

  lemma NoNul(kind: seq<Byte>, addr: seq<Byte>, len: seq<Byte>)
    requires AllHex(kind) && AllHex(addr) && AllHex(len)
    ensures CString(kind + [COMMA] + addr + [COMMA] + len) == kind + [COMMA] + addr + [COMMA] + len
  {
    var args := kind + [COMMA] + addr + [COMMA] + len;
    FindUnique(args, NUL, |args|);
  }

  /** Exactly a request with fewer than two commas is malformed. */
  lemma BadBreakIff(args: seq<Byte>)
    ensures var s := CString(args);
            ParseBreak(args) == BadBreak <==> !exists i, j :: 0 <= i < j < |s| && s[i] == COMMA && s[j] == COMMA
  {
    hide ParseHex, CString;
    var s := CString(args);
    var first := Find(s, COMMA);
    if first < |s| {
      var t := s[first + 1..];
      var second := Find(t, COMMA);
      if second < |t| { assert s[first + 1 + second] == t[second]; }
      forall i, j | 0 <= i < j < |s| && s[i] == COMMA && s[j] == COMMA
        ensures second < |t|
      {
        assert t[j - first - 1] == s[j];
      }
    }
  }

  // ------------------------------------------------------ general queries

  datatype Query = Answer(text: seq<Byte>) | Describe | ListRegisters | Monitor

  /** ProcessQuery: bounded comparison with each known name in turn. */
  function QueryOf(args: seq<Byte>): Query {
    var s := CString(args);
    if SameUpTo(s, Ascii("Supported"), 9) then Answer(SUPPORTED)
    else if SameUpTo(s, Ascii("fThreadInfo"), 11) then Answer(ONE_THREAD)
    else if SameUpTo(s, Ascii("sThreadInfo"), 11) then Answer(NO_MORE)
    else if SameUpTo(s, Ascii("Xfer:features:read:target.xml"), 29) then Describe
    else if SameUpTo(s, Ascii("Xfer:features:read:registers.xml"), 29) then ListRegisters
    else if SameUpTo(s, Ascii("Rcmd,"), 5) then Monitor
    else if SameUpTo(s, Ascii("Attached"), 8) then Answer(ATTACHED)
    else Answer([])
  }

  predicate Begins(args: seq<Byte>, name: string) {
    Ascii(name) <= CString(args)
  }

  /** What each query is answered, by how its text begins: no name begins another. */
  lemma QueriesSpelled(args: seq<Byte>)
    ensures Begins(args, "Supported") ==>
              QueryOf(args) == Answer(Ascii("PacketSize=1000;qXfer:features:read+;vContSupported+"))
    ensures Begins(args, "fThreadInfo") ==> QueryOf(args) == Answer(Ascii("m01"))
    ensures Begins(args, "sThreadInfo") ==> QueryOf(args) == Answer(Ascii("l"))
    ensures Begins(args, "Attached") ==> QueryOf(args) == Answer(Ascii("1"))
    ensures QueryOf(args) == Describe <==> Begins(args, "Xfer:features:read:target.xml")
    ensures QueryOf(args) == ListRegisters <==> Begins(args, "Xfer:features:read:registers.")
    ensures QueryOf(args) == Monitor <==> Begins(args, "Rcmd,")
    ensures Begins(args, "Supported") || Begins(args, "fThreadInfo") || Begins(args, "sThreadInfo")
            || Begins(args, "Attached") || QueryOf(args) in {Describe, ListRegisters, Monitor, Answer([])}
  {
    hide CString, Ascii, SameUpTo;
    var s := CString(args);
    NameMatches(s, "Supported", 9);
    NameMatches(s, "fThreadInfo", 11);
    NameMatches(s, "sThreadInfo", 11);
    NameMatches(s, "Xfer:features:read:target.xml", 29);
    NameMatches(s, "Xfer:features:read:registers.xml", 29);
    NameMatches(s, "Rcmd,", 5);
    NameMatches(s, "Attached", 8);
    assert "Xfer:features:read:registers.xml"[..29] == "Xfer:features:read:registers.";
    NameLetter(s, "Xfer:features:read:target.xml", 19);
    NameLetter(s, "Xfer:features:read:registers.", 19);
    ConstantsAre();
  }

  /** A name that s begins with shows in its first letter, and in letter k. */
  lemma NameLetter(s: seq<Byte>, name: string, k: nat)
    requires k < |name| && name[k] as int < 128
    ensures Ascii(name) <= s ==> k < |s| && s[k] == name[k] as int
  {
    if Ascii(name) <= s { assert s[k] == Ascii(name)[k]; }
  }

  lemma ConstantsAre()
    ensures SUPPORTED == Ascii("PacketSize=1000;qXfer:features:read+;vContSupported+")
    ensures ONE_THREAD == Ascii("m01") && NO_MORE == Ascii("l") && ATTACHED == Ascii("1")
  {
    var a, b, c := "PacketSize=1000;", "qXfer:features:read+;", "vContSupported+";
    assert a + b + c == "PacketSize=1000;qXfer:features:read+;vContSupported+";
    AsciiConcat(a, b);
    AsciiConcat(a + b, c);
  }

  lemma AsciiConcat(a: string, b: string)
    ensures Ascii(a + b) == Ascii(a) + Ascii(b)
  {
  }

  lemma NameMatches(s: seq<Byte>, name: string, n: nat)
    requires 0 < n <= |name| && name[0] as int < 128
    ensures SameUpTo(s, Ascii(name), n) <==> Ascii(name[..n]) <= s
    ensures Ascii(name[..n]) <= s ==> s != [] && s[0] == name[0] as int
    ensures name[..|name|] == name
  {
    assert Ascii(name)[..n] == Ascii(name[..n]);
    if Ascii(name[..n]) <= s { assert s[0] == Ascii(name[..n])[0]; }
  }

  lemma QueryReplies(args: seq<Byte>)
    ensures QueryOf(args).Answer? ==> IsReply(QueryOf(args).text)
  {
    hide SameUpTo, Ascii, IsReply;
    ConstantReplies();
  }

  /** The console text of a monitor command: what AsciiSPrint leaves in the scratch buffer. */
  predicate IsConsoleText(text: seq<Byte>) {
    NUL !in text && |text| < 1024
  }


  /** "O" and the text in hex. */
  function ConsoleReply(text: seq<Byte>): (reply: seq<Byte>)
    requires IsConsoleText(text)
    ensures IsReply(reply)
  {
    HexIsReply(Encode(text));
    ['O' as int] + Encode(text)
  }

  /** The debugger gets the whole text back, whatever it is. */
  lemma ConsoleReplyDecodes(text: seq<Byte>)
    requires IsConsoleText(text)
    ensures Validate(Frame(ConsoleReply(text))) == Accepted(['O' as int] + Encode(text))
    ensures Decode(ConsoleReply(text)[1..]) == text
  {
    ValidateFrame(ConsoleReply(text));
    DecodeEncode(text);
    assert ConsoleReply(text)[1..] == Encode(text);
  }
}
