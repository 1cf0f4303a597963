/** Hardware watchpoints in DBGWVR0-3 and the bit fields of DBGWCR0-3. */
module WatchpointsAArch64 {
  import opened Memory
  import opened BitFields
  import opened WatchSet

  const ENABLED: nat := 0
  const PAC: nat := 1
  const LSC: nat := 2
  const BAS: nat := 3
  const HMC: nat := 4
  const SSC: nat := 5

  /** union DBG_WCR: Enabled Pac Lsc Bas Hmc Ssc Lbn Wt Res0 Mask Ssce Res1. */
  function WcrFields(): (widths: seq<nat>)
    ensures |widths| == 12
    ensures widths[ENABLED] == widths[HMC] == 1 && widths[PAC] == widths[LSC] == widths[SSC] == 2 && widths[BAS] == 8
  {
    seq(12, i => if i == 0 || i == 4 || i == 7 || i == 10 then 1
                 else if i == 1 || i == 2 || i == 5 then 2
                 else if i == 3 then 8
                 else if i == 6 then 4
                 else if i == 8 then 3
                 else if i == 9 then 5
                 else 34)
  }

  /** Byte address select: one bit for each byte watched, at most eight. */
  function BasFor(length: nat): (bas: nat)
    requires length >= 1
    ensures bas == Pow2(if length < 8 then length else 8) - 1
    ensures bas < 256
  {
    var n := if length < 8 then length else 8;
    ByteOfOnes();
    ShiftOnes(n, 8 - n);
    ShiftRight(0xFF, 8 - n)
  }

  lemma ByteOfOnes()
    ensures Pow2(8) - 1 == 0xFF
  {
  }

  /** Shifting k + n ones right by n leaves k ones. */
  lemma {:induction false} ShiftOnes(k: nat, n: nat)
    ensures ShiftRight(Pow2(k + n) - 1, n) == Pow2(k) - 1
    ensures Pow2(k) <= Pow2(k + n)
  {
    if n > 0 {
      assert (Pow2(k + n) - 1) / 2 == Pow2(k + n - 1) - 1;
      ShiftOnes(k, n - 1);
    }
  }

  /** RShiftU64 by at most seven. */
  function ShiftRight(v: nat, n: nat): nat {
    if n == 0 then v else ShiftRight(v / 2, n - 1)
  }

  function LscFor(read: bool, write: bool): (lsc: nat)
    ensures lsc < 4
    ensures lsc % 2 == 1 <==> read
    ensures lsc / 2 == 1 <==> write
  {
    (if read then 1 else 0) + (if write then 2 else 0)
  }

  function KeyOf(address: Address, length: nat, read: bool, write: bool): Key
    requires length >= 1
  {
    Key(address, LscFor(read, write), BasFor(length))
  }

  function SlotOf(value: Address, control: nat): Slot {
    var f := Unpack(control, WcrFields());
    Slot(f[ENABLED] == 1, Key(value, f[LSC], f[BAS]))
  }

  /** DbgWcr.UintN = 0, then the fields of a new watchpoint. */
  function NewControl(lsc: nat, bas: nat): (f: seq<nat>)
    requires lsc < 4 && bas < 256
    ensures Fit(f, WcrFields())
  {
    assert Pow2(1) == 2 && Pow2(2) == 4 && Pow2(8) == 256;
    seq(12, _ => 0)[ENABLED := 1][LSC := lsc][BAS := bas][HMC := 1][SSC := 1][PAC := 3]
  }

  /** The control word just built decodes to the slot asked for. */
  lemma NewControlSlot(address: Address, lsc: nat, bas: nat)
    requires lsc < 4 && bas < 256
    ensures SlotOf(address, Pack(NewControl(lsc, bas), WcrFields())) == Slot(true, Key(address, lsc, bas))
  {
    UnpackPack(NewControl(lsc, bas), WcrFields());
  }

  lemma ZeroControl(address: Address)
    ensures !SlotOf(address, 0).enabled
  {
    assert Unpack(0, WcrFields())[0] == 0;
  }

  class WatchRegisters {
    const values: array<Address>
    const controls: array<nat>

    ghost predicate Valid() {
      values.Length == controls.Length == MAX_WATCHPOINTS
    }

    ghost function Slots(): (r: seq<Slot>)
      requires Valid()
      reads values, controls
      ensures |r| == MAX_WATCHPOINTS
    {
      seq(MAX_WATCHPOINTS, i requires 0 <= i < MAX_WATCHPOINTS reads values, controls => SlotOf(values[i], controls[i]))
    }

    constructor ()
      ensures Valid() && fresh(values) && fresh(controls)
    {
      values := new Address[MAX_WATCHPOINTS](_ => 0);
      controls := new nat[MAX_WATCHPOINTS](_ => 0);
    }

    /** The watchpoint part of DebugArchInit. */
    method ClearWatchpoints()
      requires Valid()
      modifies controls
      ensures forall i :: 0 <= i < MAX_WATCHPOINTS ==> !Slots()[i].enabled
    {
      for index := 0 to MAX_WATCHPOINTS
        invariant forall i :: 0 <= i < index ==> controls[i] == 0
      {
        controls[index] := 0;
      }
      forall i | 0 <= i < MAX_WATCHPOINTS
        ensures !Slots()[i].enabled
      {
        ZeroControl(values[i]);
      }
    }

    /** All registers but those of slot i hold what they held. */
    twostate predicate OthersKept(i: int)
      requires Valid()
      reads values, controls
    {
      forall j :: 0 <= j < MAX_WATCHPOINTS && j != i ==>
        values[j] == old(values[j]) && controls[j] == old(controls[j])
    }

    twostate predicate OneSlotChanged()
      requires Valid()
      reads values, controls
    {
      exists i :: 0 <= i < MAX_WATCHPOINTS && OthersKept(i)
    }

    method AddWatchpoint(address: Address, length: nat, read: bool, write: bool) returns (ok: bool)
      requires Valid()
      modifies values, controls
      ensures length == 0 ==> !ok && Slots() == old(Slots())
      ensures length >= 1 ==> Step(old(Slots()), AddKey(KeyOf(address, length, read, write)), ok, Slots())
      ensures OneSlotChanged()
      ensures forall i :: 0 <= i < MAX_WATCHPOINTS && controls[i] != old(controls[i]) ==>
                && length >= 1 && values[i] == address
                && controls[i] == 0x6007 + 0x8 * LscFor(read, write) + 0x20 * BasFor(length)
    {
      hide Unpack, Pow2, WcrFields, NewControl, Pack;
      if length == 0 {
        assert OthersKept(0);
        return false;
      }
      var bas, lsc := BasFor(length), LscFor(read, write);
      ghost var k := KeyOf(address, length, read, write);
      for index := 0 to MAX_WATCHPOINTS
        invariant forall j :: 0 <= j < index ==> !(Slots()[j].enabled && Slots()[j].key == k)
        invariant Slots() == old(Slots())
        invariant forall j :: 0 <= j < MAX_WATCHPOINTS ==> values[j] == old(values[j]) && controls[j] == old(controls[j])
      {
        var slot := SlotOf(values[index], controls[index]);
        if slot.enabled && slot.key.length == bas && slot.key.access == lsc && values[index] == address {
          assert Slots()[index].enabled && Slots()[index].key == k;
          assert OthersKept(0);
          return true;
        }
      }
      for index := 0 to MAX_WATCHPOINTS
        invariant forall j :: 0 <= j < index ==> Slots()[j].enabled
        invariant Slots() == old(Slots())
        invariant forall j :: 0 <= j < MAX_WATCHPOINTS ==> values[j] == old(values[j]) && controls[j] == old(controls[j])
      {
        if !SlotOf(values[index], controls[index]).enabled {
          FindFreeIs(Slots(), index);
          values[index] := address;
          controls[index] := Pack(NewControl(lsc, bas), WcrFields());
          NewControlSlot(address, lsc, bas);
          NewControlIs(lsc, bas);
          assert Slots() == old(Slots())[index := Slot(true, k)];
          assert OthersKept(index);
          return true;
        }
      }
      assert OthersKept(0);
      ok := false;
    }

    method RemoveWatchpoint(address: Address, length: nat, read: bool, write: bool) returns (ok: bool)
      requires Valid()
      modifies controls
      ensures length == 0 ==> !ok && Slots() == old(Slots())
      ensures length >= 1 ==> Step(old(Slots()), RemoveKey(KeyOf(address, length, read, write)), ok, Slots())
      ensures OneSlotChanged()
    {
      hide Unpack, Pow2, WcrFields;
      if length == 0 {
        assert OthersKept(0);
        return false;
      }
      var bas, lsc := BasFor(length), LscFor(read, write);
      ghost var k := KeyOf(address, length, read, write);
      for index := 0 to MAX_WATCHPOINTS
        invariant forall j :: 0 <= j < index ==> !(Slots()[j].enabled && Slots()[j].key == k)
        invariant Slots() == old(Slots())
        invariant forall j :: 0 <= j < MAX_WATCHPOINTS ==> controls[j] == old(controls[j])
      {
        var slot := SlotOf(values[index], controls[index]);
        if slot.enabled && slot.key.length == bas && slot.key.access == lsc && values[index] == address {
          FindKeyIs(Slots(), k, index);
          controls[index] := 0;
          ZeroControl(address);
          assert Slots() == old(Slots())[index := Slots()[index]];
          assert OthersKept(index);
          return true;
        }
      }
      assert OthersKept(0);
      ok := false;
    }
  }

  // ---------------------------------------------- the registers bit by bit

  /** What DBGWCR says to the processor: enabled by bit 0, loads and stores in
      bits 3 and 4, the bytes watched in bits 5 to 12. */
  lemma SlotIsHardware(value: Address, control: nat)
    ensures SlotOf(value, control)
         == Slot(BitsAt(control, 0, 1) == 1, Key(value, BitsAt(control, 3, 2), BitsAt(control, 5, 8)))
  {
    hide Unpack, BitsAt;
    var w := WcrFields();
    assert w[..0] == [] && w[0] == 1 && w[1] == 2 && w[2] == 2;
    SumSnoc(w, 0);
    SumSnoc(w, 1);
    SumSnoc(w, 2);
    UnpackAt(control, w, ENABLED);
    UnpackAt(control, w, LSC);
    UnpackAt(control, w, BAS);
  }

  /** A new watchpoint is enabled for every exception level of the normal world
      (PAC 0b11, SSC 0b01, HMC 1), and all other bits are clear. */
  lemma NewControlIs(lsc: nat, bas: nat)
    requires lsc < 4 && bas < 256
    ensures Pack(NewControl(lsc, bas), WcrFields()) == 0x1 + 0x2 * 3 + 0x8 * lsc + 0x20 * bas + 0x2000 + 0x4000
  {
    hide Pack, Pow2;
    var f, w := NewControl(lsc, bas), WcrFields();
    Powers();
    PackZeros(f[6..], w[6..]);
    PackFirst(f[5..], w[5..]);
    PackFirst(f[4..], w[4..]);
    PackFirst(f[3..], w[3..]);
    PackFirst(f[2..], w[2..]);
    PackFirst(f[1..], w[1..]);
    PackFirst(f, w);
  }

  lemma Powers()
    ensures Pow2(1) == 2 && Pow2(2) == 4 && Pow2(8) == 256
  {
  }

  lemma PackFirst(f: seq<nat>, w: seq<nat>)
    requires f != [] && |w| == |f|
    ensures Pack(f, w) == f[0] + Pow2(w[0]) * Pack(f[1..], w[1..])
  {
  }

  lemma {:induction false} PackZeros(f: seq<nat>, w: seq<nat>)
    requires |f| == |w| && forall i :: 0 <= i < |f| ==> f[i] == 0
    ensures Pack(f, w) == 0
    decreases |f|
  {
    if f != [] { PackZeros(f[1..], w[1..]); }
  }
}
