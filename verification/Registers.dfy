/** The register file as `g` sends it and `G` takes it: gRegisterOffsets. */
module Registers {
  import opened Bytes
  import opened Text

  const REG_NOT_PRESENT: nat := 0xFFFF_FFFF

  datatype Register = Register(offset: nat, size: nat)

  predicate Present(r: Register) {
    r.offset != REG_NOT_PRESENT
  }

  /** Every register fits the 10-byte staging buffer and, if present, the context. */
  ghost predicate Fits(table: seq<Register>, n: nat) {
    forall i :: 0 <= i < |table| ==>
      && 0 < table[i].size <= 10
      && (Present(table[i]) ==> table[i].offset + table[i].size <= n)
  }

  predicate Apart(r: Register, q: Register) {
    r.offset + r.size <= q.offset || q.offset + q.size <= r.offset
  }

  ghost predicate Disjoint(table: seq<Register>) {
    forall i, j :: 0 <= i < j < |table| && Present(table[i]) && Present(table[j]) ==> Apart(table[i], table[j])
  }

  ghost predicate AbsentLast(table: seq<Register>) {
    forall i, j :: 0 <= i < j < |table| && Present(table[j]) ==> Present(table[i])
  }

  /** Hex digits of all the registers together. */
  function Digits(table: seq<Register>): nat {
    if table == [] then 0 else 2 * table[0].size + Digits(table[1..])
  }

  function PresentDigits(table: seq<Register>): nat {
    if table == [] then 0 else (if Present(table[0]) then 2 * table[0].size else 0) + PresentDigits(table[1..])
  }

  function Zeros(n: nat): (z: seq<Byte>)
    ensures |z| == n
  {
    seq(n, _ => ZERO)
  }

  /** ReadRegisterFromContext. */
  function ReadOne(context: seq<Byte>, r: Register): (h: seq<Byte>)
    requires Present(r) ==> r.offset + r.size <= |context|
    ensures |h| == 2 * r.size
  {
    if Present(r) then Encode(context[r.offset..r.offset + r.size]) else Zeros(2 * r.size)
  }

  /** ReadGeneralRegisters. */
  function ReadAll(context: seq<Byte>, table: seq<Register>): (h: seq<Byte>)
    requires Fits(table, |context|)
    ensures |h| == Digits(table)
  {
    if table == [] then [] else ReadOne(context, table[0]) + ReadAll(context, table[1..])
  }

  function Overwrite(context: seq<Byte>, at: nat, data: seq<Byte>): (r: seq<Byte>)
    requires at + |data| <= |context|
    ensures |r| == |context|
  {
    context[..at] + data + context[at + |data|..]
  }

  /** What WriteRegisterToContext leaves in the context, and how much input it
      takes: nothing for an absent register. */
  function WriteOne(context: seq<Byte>, r: Register, input: seq<Byte>): (r': seq<Byte>)
    requires 2 * r.size <= |input| && (Present(r) ==> r.offset + r.size <= |context|)
    ensures |r'| == |context|
  {
    if Present(r) then Overwrite(context, r.offset, Decode(input[..2 * r.size])) else context
  }

  function Taken(r: Register): nat {
    if Present(r) then 2 * r.size else 0
  }

  /** WriteGeneralRegisters: the context it leaves, and whether it answers OK. */
  function WriteAll(context: seq<Byte>, table: seq<Register>, input: seq<Byte>): (r: (seq<Byte>, bool))
    requires Fits(table, |context|)
    ensures |r.0| == |context|
    decreases |table|
  {
    if table == [] then (context, true)
    else if |input| < 2 * table[0].size then (context, false)
    else WriteAll(WriteOne(context, table[0], input), table[1..], input[Taken(table[0])..])
  }

  // ------------------------------------------------------- g, then G

  lemma {:induction false} AbsentWritesNothing(context: seq<Byte>, table: seq<Register>, input: seq<Byte>)
    requires Fits(table, |context|)
    requires forall i :: 0 <= i < |table| ==> !Present(table[i]) && 2 * table[i].size <= |input|
    ensures WriteAll(context, table, input) == (context, true)
    decreases |table|
  {
    if table != [] {
      assert input[0..] == input;
      AbsentWritesNothing(context, table[1..], input);
    }
  }

  lemma {:induction false} DigitsOfEach(table: seq<Register>, i: nat)
    requires i < |table|
    ensures 2 * table[i].size <= Digits(table)
    decreases |table|
  {
    if i > 0 { DigitsOfEach(table[1..], i - 1); }
  }

  /** Writing back the digits read from a register changes nothing. */
  lemma WriteBackOne(context: seq<Byte>, r: Register, rest: seq<Byte>)
    requires Present(r) && r.offset + r.size <= |context|
    ensures WriteOne(context, r, ReadOne(context, r) + rest) == context
  {
    hide Encode, Decode;
    var input := ReadOne(context, r) + rest;
    var field := context[r.offset..r.offset + r.size];
    assert input[..2 * r.size] == Encode(field);
    DecodeEncode(field);
    OverwriteSelf(context, r.offset, r.size);
  }

  lemma OverwriteSelf(context: seq<Byte>, at: nat, n: nat)
    requires at + n <= |context|
    ensures Overwrite(context, at, context[at..at + n]) == context
  {
  }

  /** Feeding the `g` reply back through `G` succeeds and leaves the context as it was. */
  lemma {:induction false} WriteBackReadAll(context: seq<Byte>, table: seq<Register>)
    requires Fits(table, |context|) && AbsentLast(table)
    ensures WriteAll(context, table, ReadAll(context, table)) == (context, true)
    decreases |table|
  {
    if table != [] {
      var input := ReadAll(context, table);
      if Present(table[0]) {
        WriteBackStep(context, table);
        WriteBackReadAll(context, table[1..]);
      } else {
        forall i | 0 <= i < |table|
          ensures 2 * table[i].size <= |input|
        {
          DigitsOfEach(table, i);
        }
        AbsentWritesNothing(context, table, input);
      }
    }
  }

  // ------------------------------------------------------- G, then g

  /** Byte x belongs to none of the present registers. */
  ghost predicate Outside(table: seq<Register>, x: int) {
    forall i :: 0 <= i < |table| && Present(table[i]) ==> !(table[i].offset <= x < table[i].offset + table[i].size)
  }

  lemma {:induction false} WriteAllFrame(context: seq<Byte>, table: seq<Register>, input: seq<Byte>, x: int)
    requires Fits(table, |context|) && 0 <= x < |context| && Outside(table, x)
    ensures WriteAll(context, table, input).0[x] == context[x]
    decreases |table|
  {
    if table != [] && |input| >= 2 * table[0].size {
      var c := WriteOne(context, table[0], input);
      assert c[x] == context[x];
      WriteAllFrame(c, table[1..], input[Taken(table[0])..], x);
    }
  }

  lemma {:induction false} PresentAtMost(table: seq<Register>)
    ensures PresentDigits(table) <= Digits(table)
  {
    if table != [] { PresentAtMost(table[1..]); }
  }

  lemma {:induction false} AllAbsentDigits(context: seq<Byte>, table: seq<Register>)
    requires Fits(table, |context|) && forall i :: 0 <= i < |table| ==> !Present(table[i])
    ensures PresentDigits(table) == 0
    ensures ReadAll(context, table) == Zeros(Digits(table))
  {
    if table != [] { AllAbsentDigits(context, table[1..]); }
  }

  /** The bytes of the first register survive the writes that follow. */
  lemma FirstSurvives(context: seq<Byte>, table: seq<Register>, input: seq<Byte>)
    requires table != [] && Fits(table, |context|) && Disjoint(table) && Present(table[0])
    ensures var r := table[0];
            WriteAll(context, table[1..], input).0[r.offset..r.offset + r.size] == context[r.offset..r.offset + r.size]
  {
    var r := table[0];
    var c := WriteAll(context, table[1..], input).0;
    forall x | r.offset <= x < r.offset + r.size
      ensures c[x] == context[x]
    {
      assert forall i :: 0 <= i < |table[1..]| && Present(table[1..][i]) ==> Apart(table[0], table[i + 1]);
      WriteAllFrame(context, table[1..], input, x);
    }
  }

  /** What the first register is given is what it holds in the end. */
  lemma FirstWritten(context: seq<Byte>, table: seq<Register>, h: seq<Byte>)
    requires table != [] && Fits(table, |context|) && Disjoint(table) && Present(table[0])
    requires |h| >= 2 * table[0].size
    ensures table[0].offset + table[0].size <= |context|
    ensures WriteAll(context, table, h).0[table[0].offset..table[0].offset + table[0].size]
         == Decode(h[..2 * table[0].size])
  {
    hide *;
    var r := table[0];
    var data := Decode(h[..2 * r.size]);
    FitsFirst(table, |context|);
    var c := Overwrite(context, r.offset, data);
    WriteAllStep(context, table, h);
    FirstSurvives(c, table, h[2 * r.size..]);
    OverwriteAt(context, r.offset, data);
  }

  lemma ReadBackFirst(context: seq<Byte>, table: seq<Register>, h: seq<Byte>)
    requires table != [] && Fits(table, |context|) && Disjoint(table) && Present(table[0])
    requires |h| >= 2 * table[0].size && AllHex(h)
    ensures ReadOne(WriteAll(context, table, h).0, table[0]) == Lower(h[..2 * table[0].size])
  {
    hide *;
    FirstWritten(context, table, h);
    ReadOnePresent(WriteAll(context, table, h).0, table[0]);
    DigitsAreHex(h, 2 * table[0].size);
    EncodeDecode(h[..2 * table[0].size]);
  }

  lemma WriteAllStep(context: seq<Byte>, table: seq<Register>, input: seq<Byte>)
    requires table != [] && Fits(table, |context|) && Present(table[0]) && 2 * table[0].size <= |input|
    ensures Fits(table[1..], |context|) && table[0].offset + table[0].size <= |context|
    ensures WriteAll(context, table, input)
         == WriteAll(Overwrite(context, table[0].offset, Decode(input[..2 * table[0].size])),
                     table[1..], input[2 * table[0].size..])
  {
  }

  lemma WriteAllSkip(context: seq<Byte>, table: seq<Register>, input: seq<Byte>)
    requires table != [] && Fits(table, |context|) && !Present(table[0])
    ensures Fits(table[1..], |context|)
    ensures WriteAll(context, table, input)
         == if |input| < 2 * table[0].size then (context, false) else WriteAll(context, table[1..], input)
  {
    assert input[0..] == input;
  }

  lemma ReadOnePresent(context: seq<Byte>, r: Register)
    requires Present(r) && r.offset + r.size <= |context|
    ensures ReadOne(context, r) == Encode(context[r.offset..r.offset + r.size])
  {
  }

  lemma DigitsAreHex(h: seq<Byte>, n: nat)
    requires n <= |h| && AllHex(h)
    ensures AllHex(h[..n])
  {
  }

  lemma FitsFirst(table: seq<Register>, n: nat)
    requires table != [] && Fits(table, n) && Present(table[0])
    ensures table[0].offset + table[0].size <= n
  {
  }

  lemma OverwriteAt(context: seq<Byte>, at: nat, data: seq<Byte>)
    requires at + |data| <= |context|
    ensures Overwrite(context, at, data)[at..at + |data|] == data
  {
  }

  lemma LowerNone(h: seq<Byte>)
    ensures Lower(h[..0]) == []
  {
  }

  lemma LowerSplit(h: seq<Byte>, m: nat, n: nat)
    requires m + n <= |h|
    ensures Lower(h[..m]) + Lower(h[m..][..n]) == Lower(h[..m + n])
  {
  }

  /** The absent tail: nothing is written and zeros are read. */
  lemma AbsentReadBack(context: seq<Byte>, table: seq<Register>, h: seq<Byte>)
    requires Fits(table, |context|) && |h| == Digits(table)
    requires forall i :: 0 <= i < |table| ==> !Present(table[i])
    ensures WriteAll(context, table, h) == (context, true)
    ensures PresentDigits(table) == 0 && ReadAll(context, table) == Zeros(|h|)
  {
    hide WriteAll, ReadAll;
    forall i | 0 <= i < |table|
      ensures 2 * table[i].size <= |h|
    {
      DigitsOfEach(table, i);
    }
    AbsentWritesNothing(context, table, h);
    AllAbsentDigits(context, table);
  }

  /** After `G` with any full-length hex string, `g` returns its present part in
      lower case, then zeros. */
  lemma {:induction false} ReadBackWriteAll(context: seq<Byte>, table: seq<Register>, h: seq<Byte>)
    requires Fits(table, |context|) && Disjoint(table) && AbsentLast(table)
    requires |h| == Digits(table) && AllHex(h)
    ensures WriteAll(context, table, h).1
    ensures PresentDigits(table) <= |h|
    ensures ReadAll(WriteAll(context, table, h).0, table)
         == Lower(h[..PresentDigits(table)]) + Zeros(|h| - PresentDigits(table))
    decreases |table|
  {
    hide *;
    PresentAtMost(table);
    LowerNone(h);
    DigitsStep(context, table);
    if table != [] {
      var r := table[0];
      if Present(r) {
        var c := WriteOne(context, r, h);
        var rest := h[2 * r.size..];
        RestIsHex(h, 2 * r.size);
        DisjointTail(table);
        AbsentLastTail(table);
        WriteAllStep(context, table, h);
        WriteOnePresent(context, r, h);
        ReadBackWriteAll(c, table[1..], rest);
        ReadBackFirst(context, table, h);
        var m := PresentDigits(table[1..]);
        LowerSplit(h, 2 * r.size, m);
        DigitsStep(WriteAll(context, table, h).0, table);
        assert |rest| - m == |h| - (2 * r.size + m);
        assert ReadAll(WriteAll(context, table, h).0, table)
            == Lower(h[..2 * r.size]) + (Lower(rest[..m]) + Zeros(|rest| - m));
      } else {
        AllAbsent(table);
        AbsentReadBack(context, table, h);
      }
    }
  }

  lemma DigitsStep(context: seq<Byte>, table: seq<Register>)
    requires Fits(table, |context|)
    ensures table == [] ==> Digits(table) == 0 && PresentDigits(table) == 0 && ReadAll(context, table) == Zeros(0)
    ensures table == [] ==> forall input :: WriteAll(context, table, input) == (context, true)
    ensures table != [] && Present(table[0]) ==>
              && Fits(table[1..], |context|) && table[0].offset + table[0].size <= |context|
              && Digits(table) == 2 * table[0].size + Digits(table[1..])
              && PresentDigits(table) == 2 * table[0].size + PresentDigits(table[1..])
              && ReadAll(context, table) == ReadOne(context, table[0]) + ReadAll(context, table[1..])
  {
  }

  lemma WriteOnePresent(context: seq<Byte>, r: Register, h: seq<Byte>)
    requires Present(r) && r.offset + r.size <= |context| && 2 * r.size <= |h|
    ensures WriteOne(context, r, h) == Overwrite(context, r.offset, Decode(h[..2 * r.size]))
  {
  }

  lemma RestIsHex(h: seq<Byte>, n: nat)
    requires n <= |h| && AllHex(h)
    ensures AllHex(h[n..])
  {
  }

  lemma AbsentLastTail(table: seq<Register>)
    requires table != [] && AbsentLast(table)
    ensures AbsentLast(table[1..])
  {
  }

  lemma AllAbsent(table: seq<Register>)
    requires table != [] && AbsentLast(table) && !Present(table[0])
    ensures forall i :: 0 <= i < |table| ==> !Present(table[i])
  {
  }

  // ------------------------------- absent registers that are not last

  /** If a register is absent and one after it is present, that one takes its
      first byte from the zeros of the absent one. */
  lemma {:induction false} ZerosLeakIn(context: seq<Byte>, table: seq<Register>, input: seq<Byte>, j: nat)
    requires Fits(table, |context|) && Disjoint(table)
    requires j < |table| && Present(table[j]) && forall i :: 0 <= i < j ==> !Present(table[i])
    requires |input| >= 2 && input[0] == input[1] == ZERO
    ensures WriteAll(context, table, input).1 ==> WriteAll(context, table, input).0[table[j].offset] == 0
    decreases j
  {
    hide *;
    if j == 0 {
      LeadingZero(context, table, input);
    } else {
      assert !Present(table[0]);
      DisjointTail(table);
      WriteAllSkip(context, table, input);
      ZerosLeakIn(context, table[1..], input, j - 1);
    }
  }

  lemma LeadingZero(context: seq<Byte>, table: seq<Register>, input: seq<Byte>)
    requires table != [] && Fits(table, |context|) && Disjoint(table) && Present(table[0])
    requires |input| >= 2 && input[0] == input[1] == ZERO
    ensures WriteAll(context, table, input).1 ==> WriteAll(context, table, input).0[table[0].offset] == 0
  {
    hide *;
    var r := table[0];
    if |input| >= 2 * r.size {
      FitsAt(table, |context|, 0);
      FirstWritten(context, table, input);
      DecodeZeros(input, 2 * r.size);
      var c := WriteAll(context, table, input).0;
      assert c[r.offset] == c[r.offset..r.offset + r.size][0];
    } else {
      WriteAllShort(context, table, input);
    }
  }

  lemma WriteAllShort(context: seq<Byte>, table: seq<Register>, input: seq<Byte>)
    requires table != [] && Fits(table, |context|) && |input| < 2 * table[0].size
    ensures WriteAll(context, table, input) == (context, false)
  {
  }

  lemma DecodeZeros(input: seq<Byte>, n: nat)
    requires 2 <= n <= |input| && input[0] == input[1] == ZERO
    ensures Decode(input[..n])[0] == 0
  {
    assert Decode(input[..n])[0] == HexPair(ZERO, ZERO);
  }

  lemma DisjointTail(table: seq<Register>)
    requires table != [] && Disjoint(table)
    ensures Disjoint(table[1..])
  {
  }

  /** The reply to `g` changes a context of all 0xFF when fed to `G`, unless the
      absent registers come last. */
  lemma {:induction false} OnesAreChanged(context: seq<Byte>, table: seq<Register>, i: nat, j: nat)
    requires Fits(table, |context|) && Disjoint(table)
    requires forall x :: 0 <= x < |context| ==> context[x] == 0xFF
    requires i < j < |table| && !Present(table[i]) && Present(table[j])
    ensures WriteAll(context, table, ReadAll(context, table)) != (context, true)
    decreases i
  {
    hide *;
    if Present(table[0]) {
      WriteBackStep(context, table);
      DisjointTail(table);
      OnesAreChanged(context, table[1..], i - 1, j - 1);
    } else {
      var k := FirstPresent(table);
      ReadsZerosFirst(context, table);
      ZerosLeakIn(context, table, ReadAll(context, table), k);
      FitsAt(table, |context|, k);
    }
  }

  lemma RegisterFits(table: seq<Register>, n: nat, k: nat)
    requires k < |table| && Fits(table, n)
    ensures 0 < table[k].size <= 10 && (Present(table[k]) ==> table[k].offset + table[k].size <= n)
  {
  }

  lemma FitsAt(table: seq<Register>, n: nat, k: nat)
    requires k < |table| && Fits(table, n) && Present(table[k])
    ensures table[k].offset < n && table[k].size > 0
  {
  }

  lemma ReadsZerosFirst(context: seq<Byte>, table: seq<Register>)
    requires table != [] && Fits(table, |context|) && !Present(table[0])
    ensures var h := ReadAll(context, table); |h| >= 2 && h[0] == h[1] == ZERO
  {
  }

  /** A present register at the head of the reply is written back as it was. */
  lemma WriteBackStep(context: seq<Byte>, table: seq<Register>)
    requires table != [] && Fits(table, |context|) && Present(table[0])
    ensures Fits(table[1..], |context|)
    ensures WriteAll(context, table, ReadAll(context, table))
         == WriteAll(context, table[1..], ReadAll(context, table[1..]))
  {
    hide Encode, Decode, ReadOne, Overwrite;
    var rest := ReadAll(context, table[1..]);
    FitsFirst(table, |context|);
    WriteBackOne(context, table[0], rest);
    assert ReadAll(context, table)[2 * table[0].size..] == rest;
  }

  lemma FirstPresent(table: seq<Register>) returns (k: nat)
    requires exists j :: 0 <= j < |table| && Present(table[j])
    ensures k < |table| && Present(table[k]) && forall i :: 0 <= i < k ==> !Present(table[i])
  {
    k := 0;
    while !Present(table[k])
      invariant k < |table| && forall i :: 0 <= i < k ==> !Present(table[i])
      decreases |table| - k
    {
      k := k + 1;
    }
  }

  /** For a table whose present registers are disjoint: `g` then `G` leaves every
      context unchanged exactly when the absent registers come last. */
  ghost predicate WritesBack(table: seq<Register>, n: nat)
    requires Fits(table, n)
  {
    forall context: seq<Byte> :: |context| == n ==> WriteAll(context, table, ReadAll(context, table)) == (context, true)
  }

  lemma WritesBackIffAbsentLast(table: seq<Register>, n: nat)
    requires Fits(table, n) && Disjoint(table)
    ensures WritesBack(table, n) <==> AbsentLast(table)
  {
    hide WriteAll, ReadAll, Disjoint;
    if AbsentLast(table) {
      forall context: seq<Byte> | |context| == n
        ensures WriteAll(context, table, ReadAll(context, table)) == (context, true)
      {
        WriteBackReadAll(context, table);
      }
    } else {
      var i, j :| 0 <= i < j < |table| && Present(table[j]) && !Present(table[i]);
      var ones: seq<Byte> := seq(n, _ => 0xFF);
      OnesAreChanged(ones, table, i, j);
      assert |ones| == n;
    }
  }

  // ------------------------------------------- register by register

  /** The digits of register i come after those of the registers before it. */
  lemma {:induction false} ReadAllAt(context: seq<Byte>, table: seq<Register>, i: nat)
    requires Fits(table, |context|) && i < |table|
    ensures var at := Digits(table[..i]);
            && at + 2 * table[i].size <= Digits(table)
            && ReadAll(context, table)[at..at + 2 * table[i].size] == ReadOne(context, table[i])
    decreases i
  {
    hide ReadOne, Fits, ReadAll, Digits;
    FitsTail(table, |context|);
    ReadAllFirst(context, table);
    if i > 0 {
      ReadAllAt(context, table[1..], i - 1);
      DigitsFirst(table[..i]);
      assert table[..i][1..] == table[1..][..i - 1];
      var at := Digits(table[1..][..i - 1]);
      SliceAfter(ReadOne(context, table[0]), ReadAll(context, table[1..]), at, 2 * table[i].size);
    } else {
      assert Digits(table[..0]) == 0 by { DigitsOfNone(table[..0]); }
      assert ReadAll(context, table)[0..2 * table[0].size] == ReadOne(context, table[0]);
    }
  }

  lemma DigitsFirst(table: seq<Register>)
    requires table != []
    ensures Digits(table) == 2 * table[0].size + Digits(table[1..])
  {
  }

  lemma ReadAllFirst(context: seq<Byte>, table: seq<Register>)
    requires Fits(table, |context|) && table != [] && Fits(table[1..], |context|)
    ensures ReadAll(context, table) == ReadOne(context, table[0]) + ReadAll(context, table[1..])
    ensures Digits(table) == 2 * table[0].size + Digits(table[1..])
  {
    hide ReadOne;
  }

  lemma SliceAfter(s: seq<Byte>, t: seq<Byte>, at: nat, n: nat)
    requires at + n <= |t|
    ensures (s + t)[|s| + at..|s| + at + n] == t[at..at + n]
  {
  }

  lemma FitsTail(table: seq<Register>, n: nat)
    requires Fits(table, n)
    ensures table != [] ==> Fits(table[1..], n) && (Present(table[0]) ==> table[0].offset + table[0].size <= n)
    ensures forall i :: 0 <= i < |table| && Present(table[i]) ==> table[i].offset + table[i].size <= n
  {
  }

  /** `G` is answered OK exactly if there are digits enough for each register
      after those of the present ones before it. */
  lemma {:induction false} WriteAllOkIff(context: seq<Byte>, table: seq<Register>, input: seq<Byte>)
    requires Fits(table, |context|)
    ensures WriteAll(context, table, input).1 <==>
            forall i :: 0 <= i < |table| ==> PresentDigits(table[..i]) + 2 * table[i].size <= |input|
    decreases |table|
  {
    hide WriteOne, Fits;
    FitsTail(table, |context|);
    if table != [] {
      assert PresentDigits(table[..0]) == 0 by { assert table[..0] == []; }
      forall i | 0 < i < |table|
        ensures PresentDigits(table[..i]) == Taken(table[0]) + PresentDigits(table[1..][..i - 1])
      {
        assert table[..i][1..] == table[1..][..i - 1];
      }
      if |input| >= 2 * table[0].size {
        WriteAllOkIff(WriteOne(context, table[0], input), table[1..], input[Taken(table[0])..]);
        assert forall i :: 0 <= i < |table[1..]| ==> table[1..][i] == table[i + 1];
        assert forall i :: 0 < i < |table| ==> table[i] == table[1..][i - 1];
      }
    }
  }

  /** A `G` that runs short at register i has written those before it. */
  lemma {:induction false} ShortWrites(context: seq<Byte>, table: seq<Register>, input: seq<Byte>, i: nat)
    requires Fits(table, |context|) && i < |table|
    requires forall j :: 0 <= j < i ==> PresentDigits(table[..j]) + 2 * table[j].size <= |input|
    requires PresentDigits(table[..i]) + 2 * table[i].size > |input|
    ensures Fits(table[..i], |context|)
    ensures WriteAll(context, table, input) == (WriteAll(context, table[..i], input).0, false)
    decreases i
  {
    hide WriteOne;
    assert PresentDigits(table[..0]) == 0 by { assert table[..0] == []; }
    if i > 0 {
      forall j | 0 < j <= i
        ensures PresentDigits(table[..j]) == Taken(table[0]) + PresentDigits(table[1..][..j - 1])
      {
        assert table[..j][1..] == table[1..][..j - 1];
      }
      assert forall j :: 0 < j <= i ==> table[j] == table[1..][j - 1];
      ShortWrites(WriteOne(context, table[0], input), table[1..], input[Taken(table[0])..], i - 1);
      assert table[..i][1..] == table[1..][..i - 1];
    } else {
      assert table[..i] == [];
    }
  }

  // ------------------------------------------------- the shipped tables

  /** Size of EFI_SYSTEM_CONTEXT_X64, and where its debug registers start, after
      the exception data and the 512 bytes of floating point state (the EFI
      debug support protocol of the UEFI specification). */
  const X64_CONTEXT_SIZE: nat := 856
  const X64_FIRST_FIELD: nat := 520

  /** The 8-byte field of the X64 context, counted from Dr0, of register i. */
  function X64Field(i: nat): nat {
    if i == 0 then 33 // rax
    else if i == 1 then 30 // rbx
    else if i == 2 then 32 // rcx
    else if i == 3 then 31 // rdx
    else if i == 4 then 27 // rsi
    else if i == 5 then 26 // rdi
    else if i == 6 then 28 // rbp
    else if i == 7 then 29 // rsp
    else if i <= 15 then 26 + i // r8 to r15
    else if i == 16 then 19 // rip
    else if i == 17 then 12 // eflags
    else if i == 18 then 24 // cs
    else if i == 19 then 25 // ss
    else if i <= 23 then 43 - i // ds, es, fs, gs
    else if i == 24 then 6 // cr0
    else i - 17 // cr2, cr3, cr4, cr8
  }

  function X64Register(i: nat): Register {
    if i < 29 then Register(X64_FIRST_FIELD + 8 * X64Field(i), if 18 <= i <= 23 then 4 else 8)
    else Register(REG_NOT_PRESENT, if i < 36 then 4 else 10)
  }

  function X64Registers(): (table: seq<Register>)
    ensures |table| == 45
  {
    seq(45, i requires 0 <= i => X64Register(i))
  }

  /** EFI_SYSTEM_CONTEXT_AARCH64: x0 to x28, fp, lr, sp, 32 vector registers,
      then elr, spsr and fpsr. */
  const AARCH64_CONTEXT_SIZE: nat := 808

  function AArch64Register(i: nat): Register {
    if i < 32 then Register(8 * i, 8)
    else if i == 32 then Register(768, 8) // pc
    else if i == 33 then Register(784, 8) // fpcr
    else Register(776, 4) // cpsr
  }

  function AArch64Registers(): (table: seq<Register>)
    ensures |table| == 35
  {
    seq(35, i requires 0 <= i => AArch64Register(i))
  }

  /** The fields of the X64 context from Dr0 on, and the registers as GDB numbers
      them, by name. */
  const X64_FIELDS: seq<string> := [
    "dr0", "dr1", "dr2", "dr3", "dr6", "dr7", "cr0", "cr1", "cr2", "cr3", "cr4", "cr8", "eflags", "ldtr", "tr",
    "gdtr", "gdtr+", "idtr", "idtr+", "rip", "gs", "fs", "es", "ds", "cs", "ss",
    "rdi", "rsi", "rbp", "rsp", "rbx", "rdx", "rcx", "rax", "r8", "r9", "r10", "r11", "r12", "r13", "r14", "r15"]
  const X64_NAMES: seq<string> := [
    "rax", "rbx", "rcx", "rdx", "rsi", "rdi", "rbp", "rsp", "r8", "r9", "r10", "r11", "r12", "r13", "r14", "r15",
    "rip", "eflags", "cs", "ss", "ds", "es", "fs", "gs", "cr0", "cr2", "cr3", "cr4", "cr8"]

  /** Every register that the X64 table has is the field of that name; on AArch64
      the general registers come first in both, then pc, fpcr and cpsr. */
  lemma TablesByName()
    ensures |X64_NAMES| == 29
    ensures forall i :: 0 <= i < 29 ==> X64Field(i) < |X64_FIELDS| && X64_FIELDS[X64Field(i)] == X64_NAMES[i]
    ensures forall i :: 0 <= i < 29 ==> X64Registers()[i].offset == 8 + 512 + 8 * X64Field(i)
    ensures forall i :: 29 <= i < 45 ==> !Present(X64Registers()[i])
    ensures forall i :: 0 <= i < 32 ==> AArch64Registers()[i] == Register(8 * i, 8)
    ensures AArch64Registers()[32] == Register(8 * 32 + 16 * 32, 8)
    ensures AArch64Registers()[33] == Register(8 * 32 + 16 * 32 + 8 * 2, 8)
    ensures AArch64Registers()[34] == Register(8 * 32 + 16 * 32 + 8, 4)
  {
  }

  lemma X64FieldsDistinct(i: nat, j: nat)
    requires i < j < 29
    ensures X64Field(i) != X64Field(j)
  {
  }

  /** The X64 table: `g` then `G` is the identity on every context, and the
      reply fits the response buffer. */
  lemma X64TableQualifies()
    ensures Fits(X64Registers(), X64_CONTEXT_SIZE)
    ensures Disjoint(X64Registers()) && AbsentLast(X64Registers())
    ensures WritesBack(X64Registers(), X64_CONTEXT_SIZE)
    ensures Digits(X64Registers()) <= 900
  {
    hide WriteAll, ReadAll, WritesBack, Digits;
    DigitsBound(X64Registers(), X64_CONTEXT_SIZE);
    var t := X64Registers();
    forall i, j | 0 <= i < j < |t| && Present(t[i]) && Present(t[j])
      ensures Apart(t[i], t[j])
    {
      X64FieldsDistinct(i, j);
    }
    WritesBackIffAbsentLast(t, X64_CONTEXT_SIZE);
  }

  /** The AArch64 table: `g` then `G` is the identity on every context, and the
      reply fits the response buffer. */
  lemma AArch64TableQualifies()
    ensures Fits(AArch64Registers(), AARCH64_CONTEXT_SIZE)
    ensures Disjoint(AArch64Registers()) && AbsentLast(AArch64Registers())
    ensures WritesBack(AArch64Registers(), AARCH64_CONTEXT_SIZE)
    ensures Digits(AArch64Registers()) <= 700
  {
    hide WriteAll, ReadAll, WritesBack, Digits;
    DigitsBound(AArch64Registers(), AARCH64_CONTEXT_SIZE);
    WritesBackIffAbsentLast(AArch64Registers(), AARCH64_CONTEXT_SIZE);
  }

  /** A reply to `g` fits the response buffer. */
  lemma {:induction false} DigitsBound(table: seq<Register>, n: nat)
    requires Fits(table, n)
    ensures Digits(table) <= 20 * |table|
  {
    if table != [] { DigitsBound(table[1..], n); }
  }

  /** A reply to `g` is hex digits throughout. */
  lemma {:induction false} ReadAllIsHex(context: seq<Byte>, table: seq<Register>)
    requires Fits(table, |context|)
    ensures AllLowerHex(ReadAll(context, table))
  {
    if table != [] {
      ReadOneIsHex(context, table[0]);
      ReadAllIsHex(context, table[1..]);
    }
  }

  lemma ReadOneIsHex(context: seq<Byte>, r: Register)
    requires Present(r) ==> r.offset + r.size <= |context|
    ensures AllLowerHex(ReadOne(context, r))
  {
  }

  // ------------------------------------------------------------ the code

  /** ReadRegisterFromContext: writes the digits at pos, returns the position after them. */
  method ReadRegisterFromContext(context: array<Byte>, r: Register, output: array<Byte>, pos: nat) returns (end: nat)
    requires context != output && pos + 2 * r.size <= output.Length
    requires Present(r) ==> r.offset + r.size <= context.Length
    modifies output
    ensures end == pos + 2 * r.size
    ensures output[..pos] == old(output[..pos]) && output[end..] == old(output[end..])
    ensures output[pos..end] == ReadOne(context[..], r)
  {
    end := pos + 2 * r.size;
    ghost var want := ReadOne(context[..], r);
    if Present(r) {
      for i := 0 to r.size
        invariant output[..pos] == old(output[..pos]) && output[end..] == old(output[end..])
        invariant forall j :: 0 <= j < 2 * i ==> output[pos + j] == want[j]
      {
        output[pos + 2 * i] := HexChar(context[r.offset + i] / 16);
        output[pos + 2 * i + 1] := HexChar(context[r.offset + i] % 16);
      }
    } else {
      for i := 0 to 2 * r.size
        invariant output[..pos] == old(output[..pos]) && output[end..] == old(output[end..])
        invariant forall j :: 0 <= j < i ==> output[pos + j] == want[j]
      {
        output[pos + i] := ZERO;
      }
    }
  }

  /** The staging loop of WriteRegisterToContext: UINT8 Value[10]. */
  method StageValue(input: array<Byte>, pos: nat, size: nat) returns (value: array<Byte>)
    requires size <= 10 && pos + 2 * size <= input.Length
    ensures fresh(value) && value.Length == 10
    ensures value[..size] == Decode(input[pos..pos + 2 * size])
  {
    hide HexPair;
    value := new Byte[10](_ => 0);
    var at := pos;
    for index := 0 to size
      invariant at == pos + 2 * index
      invariant forall j :: 0 <= j < index ==> value[j] == HexPair(input[pos + 2 * j], input[pos + 2 * j + 1])
    {
      value[index] := HexToByte(input, at);
      at := at + 2;
    }
  }

  /** CopyMem of the staged value into the context. */
  method StoreValue(context: array<Byte>, offset: nat, value: array<Byte>, size: nat)
    requires context != value && size <= value.Length && offset + size <= context.Length
    modifies context
    ensures context[..] == Overwrite(old(context[..]), offset, value[..size])
  {
    forall j | 0 <= j < size { context[offset + j] := value[j]; }
    assert context[..] == Overwrite(old(context[..]), offset, value[..size]);
  }

  /** WriteRegisterToContext: stages the value, then copies it into the context.
      Returns the position of the remaining input, or -1 for NULL. */
  method WriteRegisterToContext(context: array<Byte>, r: Register, input: array<Byte>, pos: nat) returns (end: int)
    requires context != input && r.size <= 10
    requires Present(r) ==> r.offset + r.size <= context.Length
    requires pos <= input.Length && Find(input[pos..], NUL) < input.Length - pos
    modifies context
    ensures end == -1 <==> |CString(input[pos..])| < 2 * r.size
    ensures end == -1 ==> context[..] == old(context[..])
    ensures end != -1 ==> end == pos + Taken(r)
    ensures end != -1 ==> context[..] == WriteOne(old(context[..]), r, CString(input[pos..]))
  {
    hide Decode, Find, Overwrite;
    var n := AsciiStrLen(input, pos);
    if n < 2 * r.size {
      return -1;
    }
    end := pos;
    ghost var text := input[pos..];
    if Present(r) {
      assert CString(text)[..2 * r.size] == input[pos..pos + 2 * r.size];
      var value := StageValue(input, pos, r.size);
      StoreValue(context, r.offset, value, r.size);
      end := pos + 2 * r.size;
    }
    assert input[pos..] == text;
  }

  lemma FitsRest(table: seq<Register>, n: nat, i: nat)
    requires i < |table| && Fits(table[i..], n)
    ensures table[i..][0] == table[i] && table[i..][1..] == table[i + 1..] && Fits(table[i + 1..], n)
    ensures Digits(table[i..]) == 2 * table[i].size + Digits(table[i + 1..])
    ensures 0 < table[i].size <= 10 && (Present(table[i]) ==> table[i].offset + table[i].size <= n)
  {
    assert table[i..][1..] == table[i + 1..];
  }

  /** The loop of ReadGeneralRegisters. */
  method ReadRegisters(context: array<Byte>, table: seq<Register>, output: array<Byte>, pos: nat) returns (end: nat)
    requires context != output && Fits(table, context.Length) && pos + Digits(table) <= output.Length
    modifies output
    ensures end == pos + Digits(table)
    ensures output[..pos] == old(output[..pos]) && output[pos..end] == ReadAll(context[..], table)
  {
    hide ReadOne, Digits;
    ghost var want, values := ReadAll(context[..], table), context[..];
    end := pos;
    assert table[0..] == table;
    assert Digits(table[|table|..]) == 0 by { DigitsOfNone(table); }
    for i := 0 to |table|
      invariant Fits(table[i..], context.Length) && context[..] == values
      invariant pos <= end && end + Digits(table[i..]) == pos + Digits(table)
      invariant output[..pos] == old(output[..pos])
      invariant output[pos..end] + ReadAll(values, table[i..]) == want
    {
      FitsRest(table, context.Length, i);
      ghost var before := output[..end];
      var next := ReadRegisterFromContext(context, table[i], output, end);
      Extend(before, output[..], pos, end, next);
      end := next;
    }
  }

  lemma DigitsOfNone(table: seq<Register>)
    ensures Digits(table[|table|..]) == 0
  {
  }

  /** Reading on leaves what was written before in place. */
  lemma Extend(before: seq<Byte>, now: seq<Byte>, pos: nat, end: nat, next: nat)
    requires pos <= end <= next <= |now| && before == now[..end]
    ensures now[pos..next] == before[pos..] + now[end..next] && now[..pos] == before[..pos]
  {
  }

  /** The loop of WriteGeneralRegisters. */
  method WriteRegisters(context: array<Byte>, table: seq<Register>, input: array<Byte>, pos: nat) returns (ok: bool)
    requires context != input && Fits(table, context.Length)
    requires pos <= input.Length && Find(input[pos..], NUL) < input.Length - pos
    modifies context
    ensures (context[..], ok) == WriteAll(old(context[..]), table, CString(old(input[pos..])))
  {
    hide WriteOne, Find, Digits, Fits;
    ghost var text := input[pos..];
    ghost var want := WriteAll(context[..], table, CString(text));
    var ptr := pos;
    assert table[0..] == table && text[0..] == text;
    for i := 0 to |table|
      invariant Fits(table[i..], context.Length)
      invariant pos <= ptr <= input.Length && input[pos..] == text
      invariant ptr - pos <= |CString(text)| && CString(text)[ptr - pos..] == CString(text[ptr - pos..])
      invariant WriteAll(context[..], table[i..], CString(text[ptr - pos..])) == want
    {
      FitsRest(table, context.Length, i);
      StillTerminated(input[..], pos, ptr);
      assert input[ptr..] == text[ptr - pos..];
      var end := WriteRegisterToContext(context, table[i], input, ptr);
      if end == -1 {
        return false;
      }
      CStringTail(text, end - pos);
      assert CString(text[end - pos..]) == CString(text[ptr - pos..])[end - ptr..];
      ptr := end;
    }
    ok := true;
  }

  lemma StillTerminated(s: seq<Byte>, pos: nat, ptr: nat)
    requires pos <= ptr && pos <= |s| && Find(s[pos..], NUL) < |s| - pos && ptr - pos <= |CString(s[pos..])|
    ensures Find(s[ptr..], NUL) < |s| - ptr
  {
    FindAtMost(s[ptr..], NUL, Find(s[pos..], NUL) - (ptr - pos));
  }
}
