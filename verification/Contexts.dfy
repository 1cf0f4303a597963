/** The saved processor context of a stop: its program counter and its
    single-step flag, on both architectures. */
module Contexts {
  import opened Bytes
  import opened Memory
  import opened Registers

  datatype Arch = X64 | AArch64

  function ContextSize(arch: Arch): nat {
    if arch.X64? then X64_CONTEXT_SIZE else AARCH64_CONTEXT_SIZE
  }

  predicate IsContext(arch: Arch, context: seq<Byte>) {
    |context| == ContextSize(arch)
  }

  // ------------------------------------------------------ 64-bit fields

  function Octet(s: seq<Byte>, i: nat): int
    requires i < |s|
  {
    s[i]
  }

  /** A little-endian UINT64 field. */
  function WordAt(s: seq<Byte>, o: nat): Address
    requires o + 8 <= |s|
  {
    Octet(s, o) + 0x100 * Octet(s, o + 1) + 0x1_0000 * Octet(s, o + 2) + 0x100_0000 * Octet(s, o + 3)
    + 0x1_0000_0000 * Octet(s, o + 4) + 0x100_0000_0000 * Octet(s, o + 5)
    + 0x1_0000_0000_0000 * Octet(s, o + 6) + 0x100_0000_0000_0000 * Octet(s, o + 7)
  }

  /** The bytes of a UINT64, lowest first. */
  function WordBytes(v: Address): (s: seq<Byte>)
    ensures |s| == 8
  {
    var q1 := v / 256;
    var q2 := q1 / 256;
    var q3 := q2 / 256;
    var q4 := q3 / 256;
    var q5 := q4 / 256;
    var q6 := q5 / 256;
    [v % 256, q1 % 256, q2 % 256, q3 % 256, q4 % 256, q5 % 256, q6 % 256, q6 / 256]
  }

  function WithWord(s: seq<Byte>, o: nat, v: Address): (r: seq<Byte>)
    requires o + 8 <= |s|
    ensures |r| == |s|
    ensures forall i :: 0 <= i < |s| && !(o <= i < o + 8) ==> r[i] == s[i]
  {
    s[..o] + WordBytes(v) + s[o + 8..]
  }

  lemma WordStored(s: seq<Byte>, o: nat, v: Address)
    requires o + 8 <= |s|
    ensures WordAt(WithWord(s, o, v), o) == v
  {
    var r, b := WithWord(s, o, v), WordBytes(v);
    assert forall i :: 0 <= i < 8 ==> r[o + i] == b[i];
  }

  /** Bit 0, 1 or 5 of a byte, named by its weight. */
  predicate HasBit(b: Byte, weight: int)
    requires weight in {1, 2, 32}
  {
    if weight == 1 then b % 2 == 1 else if weight == 2 then b / 2 % 2 == 1 else b / 32 % 2 == 1
  }

  function WithBit(b: Byte, weight: int, on: bool): (r: Byte)
    requires weight in {1, 2, 32}
    ensures HasBit(r, weight) == on
    ensures HasBit(b, weight) == on ==> r == b
  {
    if HasBit(b, weight) == on then b else if on then b + weight else b - weight
  }

  // ------------------------------------------------- fields of a context

  /** Rip, or ELR. */
  function PcOffset(arch: Arch): nat {
    if arch.X64? then 672 else 768
  }

  function Pc(arch: Arch, context: seq<Byte>): Address
    requires IsContext(arch, context)
  {
    WordAt(context, PcOffset(arch))
  }

  function WithPc(arch: Arch, context: seq<Byte>, pc: Address): (r: seq<Byte>)
    requires IsContext(arch, context)
    ensures IsContext(arch, r) && Pc(arch, r) == pc
    ensures StepFlag(arch, r) == StepFlag(arch, context)
  {
    WordStored(context, PcOffset(arch), pc);
    WithWord(context, PcOffset(arch), pc)
  }

  const X64_RFLAGS: nat := 616
  const AARCH64_SPSR: nat := 776
  const AARCH64_ESR: nat := 792

  /** The trap flag, bit 8 of Rflags; the software step bit, bit 21 of SPSR. */
  predicate StepFlag(arch: Arch, context: seq<Byte>)
    requires IsContext(arch, context)
  {
    if arch.X64? then HasBit(context[X64_RFLAGS + 1], 1) else HasBit(context[AARCH64_SPSR + 2], 32)
  }

  /** AddSingleStep; on AArch64 it also clears bit 9 of SPSR, the debug mask. */
  function Stepped(arch: Arch, context: seq<Byte>): (r: seq<Byte>)
    requires IsContext(arch, context)
    ensures IsContext(arch, r) && StepFlag(arch, r) && Pc(arch, r) == Pc(arch, context)
  {
    if arch.X64? then context[X64_RFLAGS + 1 := WithBit(context[X64_RFLAGS + 1], 1, true)]
    else context[AARCH64_SPSR + 1 := WithBit(context[AARCH64_SPSR + 1], 2, false)]
                [AARCH64_SPSR + 2 := WithBit(context[AARCH64_SPSR + 2], 32, true)]
  }

  lemma SteppedTwice(arch: Arch, context: seq<Byte>)
    requires IsContext(arch, context)
    ensures Stepped(arch, Stepped(arch, context)) == Stepped(arch, context)
  {
  }

  /** Two contexts that differ in one 64-bit field at most. */
  predicate SameBut(context: seq<Byte>, context': seq<Byte>, o: nat) {
    |context'| == |context| && forall i :: 0 <= i < |context| && !(o <= i < o + 8) ==> context'[i] == context[i]
  }

  /** The weight of a bit of v, if it is set. */
  function Weight(v: Address, weight: nat): nat
    requires weight > 0
  {
    if v / weight % 2 == 1 then weight else 0
  }

  /** AddSingleStep bit by bit: bit 8 of Rflags is set; bit 21 of SPSR is set and
      bit 9 cleared; nothing else changes. */
  lemma SteppedBits(arch: Arch, context: seq<Byte>)
    requires IsContext(arch, context)
    ensures arch.X64? ==>
              && SameBut(context, Stepped(arch, context), X64_RFLAGS)
              && var w := WordAt(context, X64_RFLAGS);
                 WordAt(Stepped(arch, context), X64_RFLAGS) == w - Weight(w, 0x100) + 0x100
    ensures arch.AArch64? ==>
              && SameBut(context, Stepped(arch, context), AARCH64_SPSR)
              && var w := WordAt(context, AARCH64_SPSR);
                 WordAt(Stepped(arch, context), AARCH64_SPSR)
                 == w - Weight(w, 0x200) - Weight(w, 0x20_0000) + 0x20_0000
  {
    var o := if arch.X64? then X64_RFLAGS else AARCH64_SPSR;
    WordBits(context, o);
  }

  /** Bits 8, 9 and 21 of a field are in its second and third byte. */
  lemma WordBits(context: seq<Byte>, o: nat)
    requires o + 8 <= |context|
    ensures Weight(WordAt(context, o), 0x100) == (if HasBit(context[o + 1], 1) then 0x100 else 0)
    ensures Weight(WordAt(context, o), 0x200) == (if HasBit(context[o + 1], 2) then 0x200 else 0)
    ensures Weight(WordAt(context, o), 0x20_0000) == (if HasBit(context[o + 2], 32) then 0x20_0000 else 0)
  {
    var w := WordAt(context, o);
    var b0, b1, b2 := context[o] as int, context[o + 1] as int, context[o + 2] as int;
    var high := Octet(context, o + 3) + 0x100 * Octet(context, o + 4) + 0x1_0000 * Octet(context, o + 5)
                + 0x100_0000 * Octet(context, o + 6) + 0x1_0000_0000 * Octet(context, o + 7);
    assert w == b0 + 0x100 * b1 + 0x1_0000 * b2 + 0x100_0000 * high;
    assert w / 0x100 == b1 + 0x100 * b2 + 0x1_0000 * high;
    assert w / 0x200 == b1 / 2 + 0x80 * b2 + 0x8000 * high;
    assert w / 0x20_0000 == b2 / 32 + 8 * high;
  }

  /** Where the fields are: after what comes before them in the context, and in
      the registers that the debugger sees as pc and flags. */
  lemma FieldsAre()
    ensures X64_RFLAGS == 8 + 512 + 8 * 6 + 8 * 6 && PcOffset(X64) == X64_RFLAGS + 8 + 8 * 2 + 8 * 4
    ensures PcOffset(AArch64) == 8 * 32 + 16 * 32
    ensures AARCH64_SPSR == PcOffset(AArch64) + 8 && AARCH64_ESR == PcOffset(AArch64) + 8 * 3
    ensures X64Registers()[16] == Register(PcOffset(X64), 8) && X64Registers()[17] == Register(X64_RFLAGS, 8)
    ensures AArch64Registers()[32] == Register(PcOffset(AArch64), 8)
    ensures AArch64Registers()[34] == Register(AARCH64_SPSR, 4)
  {
  }

  // ------------------------------------------------ MDSCR_EL1, on AArch64

  const MDSCR_SS: int := 0x1
  const MDSCR_KDE: int := 0x2000
  const MDSCR_MDE: int := 0x8000

  predicate SoftwareStep(mdscr: Address) {
    mdscr % 2 == 1
  }

  predicate HasFlag(v: Address, weight: int)
    requires weight in {MDSCR_SS, MDSCR_KDE, MDSCR_MDE}
  {
    if weight == MDSCR_SS then v % 2 == 1
    else if weight == MDSCR_KDE then v / 0x2000 % 2 == 1
    else v / 0x8000 % 2 == 1
  }

  function WithFlag(v: Address, weight: int): (r: Address)
    requires weight in {MDSCR_SS, MDSCR_KDE, MDSCR_MDE}
    ensures HasFlag(r, weight)
    ensures weight != MDSCR_SS ==> SoftwareStep(r) == SoftwareStep(v)
  {
    if HasFlag(v, weight) then v else v + weight
  }

  /** What AddSingleStep sets in it: SS, MDE and KDE. */
  function SteppedMdscr(arch: Arch, mdscr: Address): (r: Address)
    ensures arch.AArch64? ==> SoftwareStep(r)
    ensures arch.X64? ==> r == mdscr
  {
    if arch.X64? then mdscr else WithFlag(WithFlag(WithFlag(mdscr, MDSCR_MDE), MDSCR_KDE), MDSCR_SS)
  }

  /** What a step exception clears in it: SS. */
  function Unstepped(mdscr: Address): (r: Address)
    ensures !SoftwareStep(r)
    ensures !SoftwareStep(mdscr) ==> r == mdscr
  {
    mdscr - mdscr % 2
  }

  /** SS, KDE and MDE are bits 0, 13 and 15; no other bit changes. */
  lemma MdscrBits(mdscr: Address)
    ensures SteppedMdscr(AArch64, mdscr)
         == mdscr - Weight(mdscr, 1) + 1 - Weight(mdscr, 0x2000) + 0x2000 - Weight(mdscr, 0x8000) + 0x8000
    ensures Unstepped(mdscr) == mdscr - Weight(mdscr, 1)
    ensures SoftwareStep(mdscr) <==> Weight(mdscr, 1) == 1
  {
    var m := WithFlag(mdscr, MDSCR_MDE);
    assert HasFlag(m, MDSCR_KDE) == HasFlag(mdscr, MDSCR_KDE);
  }

  method AddSingleStep(arch: Arch, context: array<Byte>, mdscr: Address) returns (mdscr': Address)
    requires IsContext(arch, context[..])
    modifies context
    ensures context[..] == Stepped(arch, old(context[..])) && mdscr' == SteppedMdscr(arch, mdscr)
  {
    mdscr' := mdscr;
    if arch.X64? {
      context[X64_RFLAGS + 1] := WithBit(context[X64_RFLAGS + 1], 1, true);
    } else {
      context[AARCH64_SPSR + 1] := WithBit(context[AARCH64_SPSR + 1], 2, false);
      context[AARCH64_SPSR + 2] := WithBit(context[AARCH64_SPSR + 2], 32, true);
      mdscr' := WithFlag(WithFlag(WithFlag(mdscr, MDSCR_MDE), MDSCR_KDE), MDSCR_SS);
    }
  }
}
