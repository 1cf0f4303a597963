/** Hardware watchpoints in DR0-DR3 and the bit fields of DR7. */
module WatchpointsX64 {
  import opened Memory
  import opened BitFields
  import opened WatchSet

  const DR7_WRITE_ONLY: nat := 1
  const DR7_READ_WRITE: nat := 3

  /** union X64_DR7: L0 G0 L1 G1 L2 G2 L3 G3, LE GE res GD res,
      RW0 LEN0 RW1 LEN1 RW2 LEN2 RW3 LEN3, res. */
  function Dr7Fields(): (widths: seq<nat>)
    ensures |widths| == 22
    ensures forall i :: 0 <= i < 10 ==> widths[i] == 1
    ensures forall i :: 0 <= i < 4 ==> widths[13 + 2 * i] == widths[14 + 2 * i] == 2
  {
    seq(22, i => if i < 10 then 1 else if i == 10 then 3 else if i == 11 then 1 else if i < 21 then 2 else 32)
  }

  const L0: nat := 0
  const L1: nat := 2
  const L2: nat := 4
  const L3: nat := 6
  const RW0: nat := 13
  const LEN0: nat := 14
  const RW1: nat := 15
  const LEN1: nat := 16
  const RW2: nat := 17
  const LEN2: nat := 18
  const RW3: nat := 19
  const LEN3: nat := 20

  /** LengthToDebugRegLen: lengths the processor does not know watch one byte. */
  function LengthToDebugRegLen(length: nat): (len: nat)
    ensures len <= 3
    ensures CodeLength(len) == if length in {1, 2, 4, 8} then length else 1
  {
    if length == 8 then 2 else if length == 4 then 3 else if length == 2 then 1 else 0
  }

  /** Bytes watched for a DR7 length code: section 17.2.4 of Intel SDM volume 3B. */
  function CodeLength(len: nat): nat {
    if len == 0 then 1 else if len == 1 then 2 else if len == 2 then 8 else 4
  }

  // What the processor makes of a RW field: 01 data writes only, 11 data reads
  // and writes (section 17.2.4 of Intel SDM volume 3B).

  predicate TrapsReads(access: nat) {
    access == 3
  }

  predicate TrapsWrites(access: nat) {
    access == 1 || access == 3
  }

  /** The key a request asks for; a read watch always traps writes as well. */
  function KeyOf(address: Address, length: nat, read: bool): Key {
    Key(address, if read then DR7_READ_WRITE else DR7_WRITE_ONLY, LengthToDebugRegLen(length))
  }

  lemma KeyMeans(address: Address, length: nat, read: bool)
    ensures var k := KeyOf(address, length, read);
            && k.address == address && CodeLength(k.length) == (if length in {1, 2, 4, 8} then length else 1)
            && TrapsWrites(k.access) && (TrapsReads(k.access) <==> read)
  {
  }

  function SlotsOf(dr0: Address, dr1: Address, dr2: Address, dr3: Address, f: seq<nat>): (r: seq<Slot>)
    requires |f| == |Dr7Fields()|
    ensures |r| == MAX_WATCHPOINTS
  {
    [Slot(f[L0] == 1, Key(dr0, f[RW0], f[LEN0])), Slot(f[L1] == 1, Key(dr1, f[RW1], f[LEN1])),
     Slot(f[L2] == 1, Key(dr2, f[RW2], f[LEN2])), Slot(f[L3] == 1, Key(dr3, f[RW3], f[LEN3]))]
  }

  /** Bits.Li = 1, Bits.RWi = rw, Bits.LENi = len. */
  function Filled(f: seq<nat>, i: nat, rw: nat, len: nat): (r: seq<nat>)
    requires Fit(f, Dr7Fields()) && i < 4 && rw < 4 && len < 4
    ensures Fit(r, Dr7Fields())
    ensures r == f[2 * i := 1][13 + 2 * i := rw][14 + 2 * i := len]
  {
    assert Pow2(1) == 2 && Pow2(2) == 4;
    f[2 * i := 1][13 + 2 * i := rw][14 + 2 * i := len]
  }

  /** Bits.Li = 0. */
  function Emptied(f: seq<nat>, i: nat): (r: seq<nat>)
    requires Fit(f, Dr7Fields()) && i < 4
    ensures Fit(r, Dr7Fields())
    ensures r == f[2 * i := 0]
  {
    f[2 * i := 0]
  }

  class DebugRegisters {
    var dr0: Address
    var dr1: Address
    var dr2: Address
    var dr3: Address
    var dr7: nat

    /** Dr7.Bits */
    function Bits(): (f: seq<nat>)
      reads this`dr7
      ensures Fit(f, Dr7Fields())
    {
      Unpack(dr7, Dr7Fields())
    }

    function Slots(): (r: seq<Slot>)
      reads this
      ensures |r| == MAX_WATCHPOINTS
    {
      SlotsOf(dr0, dr1, dr2, dr3, Bits())
    }

    /** DebugArchInit: no slot is enabled, locally or globally; all else stays. */
    method DebugArchInit()
      modifies this`dr7
      ensures forall i :: 0 <= i < MAX_WATCHPOINTS ==> !Slots()[i].enabled
      ensures Bits() == seq(8, _ => 0) + old(Bits())[8..]
    {
      hide Unpack, Pow2, Dr7Fields;
      ClearLowFields(dr7, Dr7Fields(), 8);
      dr7 := dr7 - dr7 % Pow2(8); // Pow2(8) - 1 is DR7_ENABLE_MASK
    }

    /** AsmWriteDr7 of changed Bits. */
    method WriteBits(f: seq<nat>)
      requires Fit(f, Dr7Fields())
      modifies this`dr7
      ensures Bits() == f
    {
      UnpackPack(f, Dr7Fields());
      dr7 := Pack(f, Dr7Fields());
    }

    /** The slot whose duplicate check succeeds, or 4. */
    method Match(k: Key) returns (i: nat)
      ensures i == FindKey(Slots(), k)
    {
      FindAmongFour(Slots(), k);
      var f := Bits();
      if f[L0] == 1 && f[RW0] == k.access && f[LEN0] == k.length && dr0 == k.address {
        i := 0;
      } else if f[L1] == 1 && f[RW1] == k.access && f[LEN1] == k.length && dr1 == k.address {
        i := 1;
      } else if f[L2] == 1 && f[RW2] == k.access && f[LEN2] == k.length && dr2 == k.address {
        i := 2;
      } else if f[L3] == 1 && f[RW3] == k.access && f[LEN3] == k.length && dr3 == k.address {
        i := 3;
      } else {
        i := 4;
      }
    }

    method AddWatchpoint(address: Address, length: nat, read: bool, write: bool) returns (ok: bool)
      modifies this
      ensures Step(old(Slots()), AddKey(KeyOf(address, length, read)), ok, Slots())
      ensures OneSlotChanged(old(Bits()), Bits(), old(Slots()), Slots())
    {
      hide Unpack, Pow2, Dr7Fields, FindKey, FindFree;
      var k := KeyOf(address, length, read);
      var f := Bits();
      var i := Match(k);
      FreeAmongFour(Slots());
      Same(f, Slots());
      if i < 4 {
        return true;
      }
      if f[L0] != 1 {
        dr0 := address;
        f := Filled(f, 0, k.access, k.length);
      } else if f[L1] != 1 {
        dr1 := address;
        f := Filled(f, 1, k.access, k.length);
      } else if f[L2] != 1 {
        dr2 := address;
        f := Filled(f, 2, k.access, k.length);
      } else if f[L3] != 1 {
        dr3 := address;
        f := Filled(f, 3, k.access, k.length);
      } else {
        return false;
      }
      WriteBits(f);
      ok := true;
      Changed(old(Bits()), Bits(), old(Slots()), Slots(), FindFree(old(Slots())));
    }

    method RemoveWatchpoint(address: Address, length: nat, read: bool, write: bool) returns (ok: bool)
      modifies this`dr7
      ensures Step(old(Slots()), RemoveKey(KeyOf(address, length, read)), ok, Slots())
      ensures OneSlotChanged(old(Bits()), Bits(), old(Slots()), Slots())
    {
      hide Unpack, Pow2, Dr7Fields, FindKey, FindFree;
      var i := Match(KeyOf(address, length, read));
      var f := Bits();
      if i == 0 {
        f := Emptied(f, 0);
      } else if i == 1 {
        f := Emptied(f, 1);
      } else if i == 2 {
        f := Emptied(f, 2);
      } else if i == 3 {
        f := Emptied(f, 3);
      } else {
        Same(f, Slots());
        return false;
      }
      WriteBits(f);
      ok := true;
      Changed(old(Bits()), Bits(), old(Slots()), Slots(), i);
    }
  }

  lemma FindAmongFour(s: seq<Slot>, k: Key)
    requires |s| == 4
    ensures FindKey(s, k) == if s[0].enabled && s[0].key == k then 0
                             else if s[1].enabled && s[1].key == k then 1
                             else if s[2].enabled && s[2].key == k then 2
                             else if s[3].enabled && s[3].key == k then 3
                             else 4
  {
  }

  lemma FreeAmongFour(s: seq<Slot>)
    requires |s| == 4
    ensures FindFree(s) == if !s[0].enabled then 0 else if !s[1].enabled then 1
                           else if !s[2].enabled then 2 else if !s[3].enabled then 3 else 4
  {
  }

  /** The bits of DR7 outside slot i are the same: only its L, RW and LEN may differ. */
  ghost predicate SameOutside(f: seq<nat>, f': seq<nat>, i: nat)
    requires |f| == |f'| == |Dr7Fields()| && i < 4
  {
    forall n :: 0 <= n < |f| && n != 2 * i && n != 13 + 2 * i && n != 14 + 2 * i ==> f'[n] == f[n]
  }

  /** At most one slot, and only its own bits, differ. */
  ghost predicate OneSlotChanged(f: seq<nat>, f': seq<nat>, was: seq<Slot>, now: seq<Slot>)
    requires |f| == |f'| == |Dr7Fields()| && |was| == |now| == 4
  {
    exists i: nat :: i < 4 && SameOutside(f, f', i) && now == was[i := now[i]]
  }

  lemma Changed(f: seq<nat>, f': seq<nat>, was: seq<Slot>, now: seq<Slot>, i: nat)
    requires |f| == |f'| == |Dr7Fields()| && |was| == |now| == 4
    requires i < 4 && SameOutside(f, f', i) && now == was[i := now[i]]
    ensures OneSlotChanged(f, f', was, now)
  {
  }

  lemma Same(f: seq<nat>, slots: seq<Slot>)
    requires |f| == |Dr7Fields()| && |slots| == 4
    ensures OneSlotChanged(f, f, slots, slots)
  {
    Changed(f, f, slots, slots, 0);
  }

  // ---------------------------------------------- the registers bit by bit

  /** Slot i as the processor sees it: DRi, enabled by bit 2i of DR7, its access
      and length codes in bits 16 + 4i and up. */
  ghost predicate HardwareSlot(slot: Slot, dr: Address, dr7: nat, i: nat) {
    && (slot.enabled <==> BitsAt(dr7, 2 * i, 1) == 1)
    && slot.key == Key(dr, BitsAt(dr7, 16 + 4 * i, 2), BitsAt(dr7, 18 + 4 * i, 2))
  }

  lemma FieldPlaces(k: nat)
    requires k <= 21
    ensures Sum(Dr7Fields()[..k]) == if k <= 10 then k else if k == 11 then 13 else if k == 12 then 14 else 2 * k - 10
  {
    if k > 0 {
      FieldPlaces(k - 1);
      SumSnoc(Dr7Fields(), k - 1);
    } else {
      assert Dr7Fields()[..0] == [];
    }
  }

  lemma SlotsAreHardware(dr0: Address, dr1: Address, dr2: Address, dr3: Address, dr7: nat)
    ensures var s := SlotsOf(dr0, dr1, dr2, dr3, Unpack(dr7, Dr7Fields()));
            && HardwareSlot(s[0], dr0, dr7, 0) && HardwareSlot(s[1], dr1, dr7, 1)
            && HardwareSlot(s[2], dr2, dr7, 2) && HardwareSlot(s[3], dr3, dr7, 3)
  {
    hide Unpack, BitsAt, Sum;
    FieldIs(dr7, L0);
    FieldIs(dr7, L1);
    FieldIs(dr7, L2);
    FieldIs(dr7, L3);
    FieldIs(dr7, RW0);
    FieldIs(dr7, RW1);
    FieldIs(dr7, RW2);
    FieldIs(dr7, RW3);
    FieldIs(dr7, LEN0);
    FieldIs(dr7, LEN1);
    FieldIs(dr7, LEN2);
    FieldIs(dr7, LEN3);
  }

  lemma FieldIs(dr7: nat, k: nat)
    requires k < 8 || 13 <= k <= 20
    ensures Unpack(dr7, Dr7Fields())[k]
         == if k < 8 then BitsAt(dr7, k, 1) else BitsAt(dr7, 2 * k - 10, 2)
  {
    hide Unpack, BitsAt, Sum;
    UnpackAt(dr7, Dr7Fields(), k);
    FieldPlaces(k);
  }
}
