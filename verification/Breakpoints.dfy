/** Software breakpoints: a 64-slot table that patches live memory, and the
    breakpoint-free memory it stands for. */
module Breakpoints {
  import opened Bytes
  import opened Memory
  import opened MemoryAccess
  import opened Counting

  const MAX_BREAKPOINTS: int := 64
  const MAX_BREAKPOINT_SIZE: int := 4

  const X64_BREAKPOINT: seq<Byte> := [0xCC]
  const AARCH64_BREAKPOINT: seq<Byte> := [0x00, 0x00, 0x3E, 0xD4]

  /** INT3, and BRK with immediate 0xF000. */
  lemma InstructionsAre()
    ensures X64_BREAKPOINT == [0xCC] && |AARCH64_BREAKPOINT| == 4
    ensures var b := seq(4, i requires 0 <= i < 4 => AARCH64_BREAKPOINT[i] as int);
            b[0] + 0x100 * b[1] + 0x1_0000 * b[2] + 0x100_0000 * b[3] == 0xD420_0000 + 0x20 * 0xF000
  {
  }

  datatype Entry = Entry(active: bool, address: Address, original: seq<Byte>)

  /** mArchBreakpointInstruction: one byte, or one aligned word. */
  predicate IsInstruction(instr: seq<Byte>) {
    |instr| == 1 || |instr| == 4
  }

  ghost predicate IsTable(table: seq<Entry>) {
    && |table| == MAX_BREAKPOINTS
    && forall i :: 0 <= i < |table| ==> |table[i].original| == MAX_BREAKPOINT_SIZE
  }

  /** First active slot for this address, or the length of the table. */
  function FindActive(table: seq<Entry>, a: Address): (k: nat)
    ensures k <= |table|
    ensures k < |table| ==> table[k].active && table[k].address == a
    ensures forall i :: 0 <= i < k ==> !(table[i].active && table[i].address == a)
  {
    if table == [] then 0
    else if table[0].active && table[0].address == a then 0
    else 1 + FindActive(table[1..], a)
  }

  /** First inactive slot, or the length of the table. */
  function FindFree(table: seq<Entry>): (k: nat)
    ensures k <= |table|
    ensures k < |table| ==> !table[k].active
    ensures forall i :: 0 <= i < k ==> table[i].active
  {
    if table == [] then 0 else if !table[0].active then 0 else 1 + FindFree(table[1..])
  }

  // ------------------------------------------------- the code, on values

  datatype State = State(memory: seq<Byte>, table: seq<Entry>)

  ghost predicate Formed(s: State) {
    Whole(s.memory) && IsTable(s.table)
  }

  predicate AddSucceeds(table: seq<Entry>, a: Address) {
    FindActive(table, a) < |table| || FindFree(table) < |table|
  }

  /** An add of this address fills a free slot. */
  predicate TakesSlot(table: seq<Entry>, a: Address) {
    FindActive(table, a) == |table| && FindFree(table) < |table|
  }

  /** Adding where the instruction's bytes could be read or not, and written or not. */
  ghost function AddedWith(s: State, instr: seq<Byte>, a: Address, read: bool, wrote: bool): (r: State)
    requires Formed(s) && IsInstruction(instr)
    ensures Formed(r)
  {
    if !TakesSlot(s.table, a) then s
    else
      var i := FindFree(s.table);
      var stale := s.table[i].original;
      var saved := if read then Slice(s.memory, a, |instr|) + stale[|instr|..] else stale;
      State(if wrote then Patch(s.memory, a, instr) else s.memory, s.table[i := Entry(true, a, saved)])
  }

  /** Removing where the saved bytes could be written back or not. */
  ghost function RemovedWith(s: State, instr: seq<Byte>, a: Address, wrote: bool): (r: State)
    requires Formed(s) && IsInstruction(instr)
    ensures Formed(r)
  {
    var i := FindActive(s.table, a);
    if i == |s.table| then s
    else
      State(if wrote then Patch(s.memory, a, s.table[i].original[..|instr|]) else s.memory,
            s.table[i := s.table[i].(active := false)])
  }

  // What they are meant to do.

  ghost function Added(s: State, instr: seq<Byte>, a: Address): (r: State)
    requires Formed(s) && IsInstruction(instr)
    ensures Formed(r)
  {
    AddedWith(s, instr, a, true, true)
  }

  ghost function Removed(s: State, instr: seq<Byte>, a: Address): (r: State)
    requires Formed(s) && IsInstruction(instr)
    ensures Formed(r)
  {
    RemovedWith(s, instr, a, true)
  }

  // When memory cannot be accessed.

  /** The add takes a slot, and policy stops its read or its write. */
  ghost predicate AddBlocked(machine: Machine, attrs: seq<Attributes>, s: State, instr: seq<Byte>, a: Address)
    requires Formed(s) && Paged(attrs)
  {
    && TakesSlot(s.table, a)
    && (machine.Blocked(s.memory, attrs, a, instr, false) || machine.Blocked(s.memory, attrs, a, instr, true))
  }

  /** There is something to remove, and policy stops its write. */
  ghost predicate RemoveBlocked(machine: Machine, attrs: seq<Attributes>, s: State, instr: seq<Byte>, a: Address)
    requires Formed(s) && Paged(attrs) && IsInstruction(instr)
  {
    var i := FindActive(s.table, a);
    i < |s.table| && machine.Blocked(s.memory, attrs, a, s.table[i].original[..|instr|], true)
  }

  /** On instruction boundaries it is the page's verdict that decides. */
  lemma BlockedIffRefused(machine: Machine, attrs: seq<Attributes>, s: State, instr: seq<Byte>, a: Address)
    requires Formed(s) && Paged(attrs) && IsInstruction(instr) && Aligned(a, |instr|)
    ensures AddBlocked(machine, attrs, s, instr, a) <==>
            TakesSlot(s.table, a)
            && (machine.Refuses(s.memory, attrs, a, false) || machine.Refuses(s.memory, attrs, a, true))
    ensures RemoveBlocked(machine, attrs, s, instr, a) <==>
            FindActive(s.table, a) < |s.table| && machine.Refuses(s.memory, attrs, a, true)
  {
    hide FindActive, TakesSlot, Machine.Blocked, Machine.Refuses;
    machine.BlockedInPage(s.memory, attrs, a, instr, false);
    machine.BlockedInPage(s.memory, attrs, a, instr, true);
    var i := FindActive(s.table, a);
    if i < |s.table| {
      machine.BlockedInPage(s.memory, attrs, a, s.table[i].original[..|instr|], true);
    }
  }

  /** What goes wrong beneath an add, and nothing else does. */
  ghost predicate AddMishaps(machine: Machine, attrs: seq<Attributes>, s: State, instr: seq<Byte>, a: Address, m: Mishaps)
    requires Formed(s) && Paged(attrs)
  {
    if !TakesSlot(s.table, a) then m == NO_MISHAPS
    else
      && (m.unread ==> m.denied || machine.Blocked(s.memory, attrs, a, instr, false))
      && (m.unwritten ==> m.denied || machine.Blocked(s.memory, attrs, a, instr, true))
      && (machine.Blocked(s.memory, attrs, a, instr, false) ==> m.unread)
      && (machine.Blocked(s.memory, attrs, a, instr, true) ==> m.unwritten)
      && (m.denied ==> m.Failed())
  }

  ghost predicate RemoveMishaps(machine: Machine, attrs: seq<Attributes>, s: State, instr: seq<Byte>, a: Address,
                                m: Mishaps)
    requires Formed(s) && Paged(attrs) && IsInstruction(instr)
  {
    if FindActive(s.table, a) == |s.table| then m == NO_MISHAPS
    else !m.unread && (m.unwritten <==> m.denied || RemoveBlocked(machine, attrs, s, instr, a))
  }

  /** An operation fails beneath if and only if a call of the attribute protocol
      fails or policy stops it. */
  lemma FailsIffBlocked(machine: Machine, attrs: seq<Attributes>, s: State, instr: seq<Byte>, a: Address, m: Mishaps)
    requires Formed(s) && Paged(attrs) && IsInstruction(instr)
    ensures AddMishaps(machine, attrs, s, instr, a, m) ==>
              (m.Failed() <==> m.denied || AddBlocked(machine, attrs, s, instr, a))
    ensures RemoveMishaps(machine, attrs, s, instr, a, m) ==>
              (m.Failed() <==> m.denied || RemoveBlocked(machine, attrs, s, instr, a))
  {
    hide FindActive, FindFree, Machine.Blocked;
  }

  /** The same slots in use for the same addresses, and the same memory outside
      the n bytes at a: what holds even when memory could not be accessed. */
  ghost predicate Alike(s: State, s': State, a: Address, n: nat) {
    && Formed(s) && Formed(s')
    && (forall i :: 0 <= i < MAX_BREAKPOINTS ==>
          s.table[i].active == s'.table[i].active && s.table[i].address == s'.table[i].address)
    && forall x: Address :: Offset(a, x) >= n ==> s.memory[x] == s'.memory[x]
  }

  lemma PatchNone(mem: seq<Byte>, a: Address, data: seq<Byte>)
    requires Whole(mem) && data == []
    ensures Patch(mem, a, data) == mem
  {
  }

  lemma PatchesAgree(mem: seq<Byte>, a: Address, part: seq<Byte>, data: seq<Byte>)
    requires Whole(mem) && |part| <= |data|
    ensures forall x: Address :: Offset(a, x) >= |data| ==> Patch(mem, a, part)[x] == Patch(mem, a, data)[x]
  {
  }

  /** Planting that could not save or write everything it meant to. */
  lemma PlantedInPart(s: State, s': State, instr: seq<Byte>, a: Address, saved: seq<Byte>, done: nat)
    requires Formed(s) && IsInstruction(instr) && |saved| == MAX_BREAKPOINT_SIZE && done <= |instr|
    requires TakesSlot(s.table, a)
    requires s'.table == s.table[FindFree(s.table) := Entry(true, a, saved)]
    requires s'.memory == Patch(s.memory, a, instr[..done])
    ensures Alike(s', Added(s, instr, a), a, |instr|)
  {
    hide FindActive, FindFree, Patch, Slice, Offset;
    PatchesAgree(s.memory, a, instr[..done], instr);
  }

  // --------------------------------------------- what it should stand for

  /** The program's own memory, and the addresses where a breakpoint is set. */
  datatype View = View(pristine: seq<Byte>, planted: set<Address>)

  predicate Aligned(a: Address, size: int) {
    size == 4 ==> a % 4 == 0
  }

  /** The start of the instruction slot that x lies in. */
  function SlotOf(x: Address, size: int): (a: Address)
    requires size == 1 || size == 4
    ensures Aligned(a, size) && a <= x < a + size <= SPACE
  {
    if size == 1 then x else x - x % 4
  }

  /** The bytes of an aligned instruction lie in its own slot. */
  lemma InSlot(a: Address, size: int, k: nat)
    requires (size == 1 || size == 4) && Aligned(a, size) && k < size
    ensures At(a, k) == a + k < SPACE && SlotOf(At(a, k), size) == a
  {
  }

  /** The view's memory with the breakpoint instruction at every planted slot. */
  ghost function Shown(v: View, instr: seq<Byte>): (mem: seq<Byte>)
    requires Whole(v.pristine) && IsInstruction(instr)
    ensures Whole(mem)
  {
    seq(SPACE, x requires 0 <= x < SPACE =>
      var a := SlotOf(x, |instr|);
      if a in v.planted then instr[x - a] else v.pristine[x])
  }

  ghost predicate DistinctAddresses(table: seq<Entry>) {
    forall i, j :: 0 <= i < j < |table| && table[i].active && table[j].active ==> table[i].address != table[j].address
  }

  ghost predicate Represents(s: State, v: View, instr: seq<Byte>)
    requires IsInstruction(instr)
  {
    && Formed(s) && Whole(v.pristine)
    && (forall a: Address :: a in v.planted <==> FindActive(s.table, a) < |s.table|)
    && DistinctAddresses(s.table)
    && (forall i :: 0 <= i < |s.table| && s.table[i].active ==>
          && Aligned(s.table[i].address, |instr|)
          && s.table[i].original[..|instr|] == Slice(v.pristine, s.table[i].address, |instr|))
    && s.memory == Shown(v, instr)
  }

  /** Memory overlaid with the bytes saved in the table. */
  ghost function Peeled(s: State, size: int): (mem: seq<Byte>)
    requires Formed(s) && (size == 1 || size == 4)
    ensures Whole(mem)
  {
    seq(SPACE, x requires 0 <= x < SPACE =>
      var a := SlotOf(x, size);
      var i := FindActive(s.table, a);
      if i < |s.table| then s.table[i].original[x - a] else s.memory[x])
  }

  lemma PeelingShowsPristine(s: State, v: View, instr: seq<Byte>)
    requires IsInstruction(instr) && Represents(s, v, instr)
    ensures Peeled(s, |instr|) == v.pristine
    ensures v.planted == {} ==> s.memory == v.pristine
  {
    forall x | 0 <= x < SPACE
      ensures Peeled(s, |instr|)[x] == v.pristine[x]
    {
      var a := SlotOf(x, |instr|);
      var i := FindActive(s.table, a);
      if i < |s.table| {
        assert s.table[i].original[x - a] == s.table[i].original[..|instr|][x - a];
        assert At(a, x - a) == x;
      }
    }
    if v.planted == {} { assert s.memory == v.pristine; }
  }

  /** A table position is the only active one for its address. */
  lemma ActiveIsUnique(table: seq<Entry>, i: nat)
    requires i < |table| && table[i].active
    requires DistinctAddresses(table)
    ensures FindActive(table, table[i].address) == i
  {
    var k := FindActive(table, table[i].address);
    if k < i { assert false; }
  }

  // Filling or freeing slot i changes the planted set by one address.

  lemma FindAfterFill(table: seq<Entry>, i: nat, e: Entry, b: Address)
    requires i < |table| && !table[i].active && e.active
    ensures FindActive(table[i := e], b) < |table| <==> b == e.address || FindActive(table, b) < |table|
  {
    var table' := table[i := e];
    var k, k' := FindActive(table, b), FindActive(table', b);
    if b == e.address { assert table'[i].active; }
    if k < |table| { assert table'[k] == table[k]; }
    if k' < |table| && k' != i { assert table[k'] == table'[k']; }
  }

  lemma FindAfterFree(table: seq<Entry>, i: nat, b: Address)
    requires i < |table| && table[i].active
    requires DistinctAddresses(table)
    ensures FindActive(table[i := table[i].(active := false)], b) < |table| <==>
            b != table[i].address && FindActive(table, b) < |table|
  {
    var table' := table[i := table[i].(active := false)];
    var k, k' := FindActive(table, b), FindActive(table', b);
    if k < |table| && k != i { assert table'[k] == table[k]; }
    if k' < |table| {
      assert table[k'] == table'[k'];
      ActiveIsUnique(table, i);
      ActiveIsUnique(table, k');
    }
  }

  // ------------------------------------------------------ one operation

  /** Planting at a puts the instruction there and leaves the rest shown as is. */
  lemma ShownAfterPlant(v: View, instr: seq<Byte>, a: Address)
    requires Whole(v.pristine) && IsInstruction(instr) && Aligned(a, |instr|)
    ensures Shown(v.(planted := v.planted + {a}), instr) == Patch(Shown(v, instr), a, instr)
  {
    var l, r := Shown(v.(planted := v.planted + {a}), instr), Patch(Shown(v, instr), a, instr);
    forall x | 0 <= x < SPACE
      ensures l[x] == r[x]
    {
      assert Offset(a, x) < |instr| <==> SlotOf(x, |instr|) == a;
    }
  }

  lemma ShownAfterLift(v: View, instr: seq<Byte>, a: Address)
    requires Whole(v.pristine) && IsInstruction(instr) && Aligned(a, |instr|)
    ensures Shown(v.(planted := v.planted - {a}), instr)
         == Patch(Shown(v, instr), a, Slice(v.pristine, a, |instr|))
  {
    var old' := Slice(v.pristine, a, |instr|);
    var l, r := Shown(v.(planted := v.planted - {a}), instr), Patch(Shown(v, instr), a, old');
    forall x | 0 <= x < SPACE
      ensures l[x] == r[x]
    {
      assert Offset(a, x) < |instr| <==> SlotOf(x, |instr|) == a;
      if SlotOf(x, |instr|) == a { assert At(a, x - a) == x; }
    }
  }

  /** AddSoftwareBreakpoint adds its address to the planted set, keeps the
      pristine memory, and fails only for a new address on a full table. */
  lemma AddRefines(s: State, v: View, instr: seq<Byte>, a: Address)
    requires IsInstruction(instr) && Represents(s, v, instr) && Aligned(a, |instr|)
    ensures AddSucceeds(s.table, a) <==> a in v.planted || |v.planted| < MAX_BREAKPOINTS
    ensures AddSucceeds(s.table, a) ==> Represents(Added(s, instr, a), v.(planted := v.planted + {a}), instr)
    ensures !AddSucceeds(s.table, a) ==> Added(s, instr, a) == s
  {
    PlantedCount(s, v, instr);
    if a in v.planted {
      assert v.planted + {a} == v.planted;
    } else if FindFree(s.table) < |s.table| {
      FillRefines(s, v, instr, a);
    }
  }

  /** The case of AddRefines that takes a free slot. */
  lemma FillRefines(s: State, v: View, instr: seq<Byte>, a: Address)
    requires IsInstruction(instr) && Represents(s, v, instr) && Aligned(a, |instr|)
    requires a !in v.planted && FindFree(s.table) < |s.table|
    ensures Represents(Added(s, instr, a), v.(planted := v.planted + {a}), instr)
  {
    var i := FindFree(s.table);
    var s' := Added(s, instr, a);
    var v' := v.(planted := v.planted + {a});
    ShownUnplanted(v, instr, a);
    ShownAfterPlant(v, instr, a);
    assert s'.table[i].original[..|instr|] == Slice(s.memory, a, |instr|);
    assert forall b: Address :: b in v'.planted <==> FindActive(s'.table, b) < |s'.table| by {
      forall b: Address
        ensures b in v'.planted <==> FindActive(s'.table, b) < |s'.table|
      {
        FindAfterFill(s.table, i, s'.table[i], b);
      }
    }
    assert forall j :: 0 <= j < |s.table| && s.table[j].active ==> s.table[j].address != a;
    assert DistinctAddresses(s'.table);
  }

  /** Where nothing is planted, memory shows the program's own bytes. */
  lemma ShownUnplanted(v: View, instr: seq<Byte>, a: Address)
    requires Whole(v.pristine) && IsInstruction(instr) && Aligned(a, |instr|) && a !in v.planted
    ensures Slice(Shown(v, instr), a, |instr|) == Slice(v.pristine, a, |instr|)
  {
    hide SlotOf, At, Aligned;
    forall i | 0 <= i < |instr|
      ensures Slice(Shown(v, instr), a, |instr|)[i] == Slice(v.pristine, a, |instr|)[i]
    {
      InSlot(a, |instr|, i);
    }
  }

  /** RemoveSoftwareBreakpoint takes its address out of the planted set. */
  lemma RemoveRefines(s: State, v: View, instr: seq<Byte>, a: Address)
    requires IsInstruction(instr) && Represents(s, v, instr)
    ensures FindActive(s.table, a) < |s.table| <==> a in v.planted
    ensures Represents(Removed(s, instr, a), v.(planted := v.planted - {a}), instr)
  {
    if a in v.planted {
      var i := FindActive(s.table, a);
      var s' := Removed(s, instr, a);
      forall b: Address
        ensures b in v.planted - {a} <==> FindActive(s'.table, b) < |s'.table|
      {
        FindAfterFree(s.table, i, b);
      }
      ShownAfterLift(v, instr, a);
    } else {
      assert v.planted - {a} == v.planted;
    }
  }

  /** A store by the program, or by the debugger, outside every planted slot. */
  lemma StoreRefines(s: State, v: View, instr: seq<Byte>, x: Address, b: Byte)
    requires IsInstruction(instr) && Represents(s, v, instr)
    requires SlotOf(x, |instr|) !in v.planted
    ensures Represents(s.(memory := s.memory[x := b]), v.(pristine := v.pristine[x := b]), instr)
  {
    var s', v' := s.(memory := s.memory[x := b]), v.(pristine := v.pristine[x := b]);
    assert s'.memory == Shown(v', instr);
    forall i | 0 <= i < |s.table| && s.table[i].active
      ensures Slice(v'.pristine, s.table[i].address, |instr|) == Slice(v.pristine, s.table[i].address, |instr|)
    {
      var a := s.table[i].address;
      ActiveIsUnique(s.table, i);
      assert a in v.planted;
      assert forall k :: 0 <= k < |instr| ==> At(a, k) == a + k && SlotOf(a + k, |instr|) == a;
    }
  }

  /** No byte of the range lies in a planted slot. */
  ghost predicate OffSlots(planted: set<Address>, size: int, a: Address, n: nat)
    requires size == 1 || size == 4
  {
    forall x: Address :: Offset(a, x) < n ==> SlotOf(x, size) !in planted
  }

  lemma ShownAfterWrite(v: View, instr: seq<Byte>, a: Address, data: seq<Byte>)
    requires Whole(v.pristine) && IsInstruction(instr) && OffSlots(v.planted, |instr|, a, |data|)
    ensures Shown(v.(pristine := Patch(v.pristine, a, data)), instr) == Patch(Shown(v, instr), a, data)
  {
    var l, r := Shown(v.(pristine := Patch(v.pristine, a, data)), instr), Patch(Shown(v, instr), a, data);
    forall x | 0 <= x < SPACE
      ensures l[x] == r[x]
    {
      assert Offset(a, x) < |data| ==> SlotOf(x, |instr|) !in v.planted;
    }
  }

  lemma SlotKept(v: View, instr: seq<Byte>, a: Address, data: seq<Byte>, b: Address)
    requires Whole(v.pristine) && IsInstruction(instr) && OffSlots(v.planted, |instr|, a, |data|)
    requires b in v.planted && Aligned(b, |instr|)
    ensures Slice(Patch(v.pristine, a, data), b, |instr|) == Slice(v.pristine, b, |instr|)
  {
    hide SlotOf, At, Offset, Aligned;
    forall k | 0 <= k < |instr|
      ensures Patch(v.pristine, a, data)[At(b, k)] == v.pristine[At(b, k)]
    {
      InSlot(b, |instr|, k);
    }
  }

  /** A write that keeps off planted slots goes through to the program's own memory. */
  lemma PatchRefines(s: State, v: View, instr: seq<Byte>, a: Address, data: seq<Byte>)
    requires IsInstruction(instr) && Represents(s, v, instr) && OffSlots(v.planted, |instr|, a, |data|)
    ensures Represents(s.(memory := Patch(s.memory, a, data)), v.(pristine := Patch(v.pristine, a, data)), instr)
  {
    hide Patch, Shown, Slice, FindActive;
    ShownAfterWrite(v, instr, a, data);
    forall i | 0 <= i < |s.table| && s.table[i].active
      ensures Slice(Patch(v.pristine, a, data), s.table[i].address, |instr|) == Slice(v.pristine, s.table[i].address, |instr|)
    {
      ActiveIsUnique(s.table, i);
      SlotKept(v, instr, a, data, s.table[i].address);
    }
  }

  // ------------------------------------ when memory cannot be accessed

  /** An add that takes a slot plants its breakpoint if and only if it saved the
      program's own bytes (it could read them, or the free slot already held
      them) and memory now shows the instruction (it could write it, or it was
      the program's own already). */
  lemma AddMeetsView(s: State, v: View, instr: seq<Byte>, a: Address, read: bool, wrote: bool)
    requires IsInstruction(instr) && Represents(s, v, instr) && Aligned(a, |instr|)
    requires a !in v.planted && FindFree(s.table) < |s.table|
    ensures var own := Slice(v.pristine, a, |instr|);
            var stale := s.table[FindFree(s.table)].original[..|instr|];
            Represents(AddedWith(s, instr, a, read, wrote), v.(planted := v.planted + {a}), instr) <==>
            (read || stale == own) && (wrote || own == instr)
  {
    hide FindActive, FindFree, Patch, Slice, Shown, SlotOf;
    var i := FindFree(s.table);
    var s', v' := AddedWith(s, instr, a, read, wrote), v.(planted := v.planted + {a});
    FillRefines(s, v, instr, a);
    ShownUnplanted(v, instr, a);
    ShownPlanted(v', instr, a);
    assert s'.table[i].original[..|instr|] == if read then Slice(v.pristine, a, |instr|) else s.table[i].original[..|instr|];
    var own := Slice(v.pristine, a, |instr|);
    if (read || s.table[i].original[..|instr|] == own) && (wrote || own == instr) {
      PatchNothingNew(s.memory, a, instr);
      var meant := Added(s, instr, a);
      assert meant.table[i].original[..|instr|] == own;
      StillRepresents(meant, s', v', instr);
    }
  }

  /** Bytes saved beyond the instruction do not matter. */
  lemma StillRepresents(s: State, s': State, v: View, instr: seq<Byte>)
    requires IsInstruction(instr) && Represents(s, v, instr) && Formed(s') && s'.memory == s.memory
    requires forall i :: 0 <= i < MAX_BREAKPOINTS ==>
               && s'.table[i].active == s.table[i].active && s'.table[i].address == s.table[i].address
               && s'.table[i].original[..|instr|] == s.table[i].original[..|instr|]
    ensures Represents(s', v, instr)
  {
    hide FindActive, Slice, Shown;
    SameShape(s.table, s'.table);
  }

  /** Where a breakpoint is found depends on slots and addresses alone. */
  lemma SameShape(table: seq<Entry>, table': seq<Entry>)
    requires |table'| == |table|
    requires forall i :: 0 <= i < |table| ==>
               table'[i].active == table[i].active && table'[i].address == table[i].address
    ensures forall a :: FindActive(table', a) == FindActive(table, a)
  {
    hide FindActive;
    forall a
      ensures FindActive(table', a) == FindActive(table, a)
    {
      var k, k' := FindActive(table, a), FindActive(table', a);
      if k < |table| { assert table'[k].active; }
      if k' < |table| { assert table[k'].active; }
    }
  }

  /** Removing lifts its breakpoint if and only if the program's own bytes could
      be written back, or are the breakpoint instruction. */
  lemma RemoveMeetsView(s: State, v: View, instr: seq<Byte>, a: Address, wrote: bool)
    requires IsInstruction(instr) && Represents(s, v, instr) && a in v.planted
    ensures Represents(RemovedWith(s, instr, a, wrote), v.(planted := v.planted - {a}), instr) <==>
            wrote || Slice(v.pristine, a, |instr|) == instr
  {
    hide FindFree, Patch, Slice, Shown, SlotOf;
    var v' := v.(planted := v.planted - {a});
    RemoveRefines(s, v, instr, a);
    ShownUnplanted(v', instr, a);
    ShownPlanted(v, instr, a);
    if !wrote && Slice(v.pristine, a, |instr|) == instr { PatchNothingNew(s.memory, a, instr); }
  }

  /** Writing what is already there changes nothing. */
  lemma PatchNothingNew(mem: seq<Byte>, a: Address, data: seq<Byte>)
    requires Whole(mem) && |data| <= SPACE
    ensures Slice(mem, a, |data|) == data ==> Patch(mem, a, data) == mem
  {
    if Slice(mem, a, |data|) == data {
      forall x | 0 <= x < SPACE
        ensures Patch(mem, a, data)[x] == mem[x]
      {
        var k := Offset(a, x);
        if k < |data| { assert Slice(mem, a, |data|)[k] == mem[x]; }
      }
    }
  }

  /** Where something is planted, memory shows the instruction. */
  lemma ShownPlanted(v: View, instr: seq<Byte>, a: Address)
    requires Whole(v.pristine) && IsInstruction(instr) && Aligned(a, |instr|) && a in v.planted
    ensures Slice(Shown(v, instr), a, |instr|) == instr
  {
    hide SlotOf, At, Aligned;
    forall i | 0 <= i < |instr|
      ensures Slice(Shown(v, instr), a, |instr|)[i] == instr[i]
    {
      InSlot(a, |instr|, i);
    }
  }

  // Two inputs on which the code goes wrong: memory of zeros and no breakpoint
  // on a read-protected page, and one planted on a page that is refused by now.

  ghost function ZeroMemory(): (mem: seq<Byte>)
    ensures Whole(mem)
  {
    seq(SPACE, _ => 0)
  }

  function EmptyTable(): (table: seq<Entry>)
    ensures |table| == MAX_BREAKPOINTS
  {
    seq(MAX_BREAKPOINTS, _ => Entry(false, 0, [0, 0, 0, 0]))
  }

  lemma EmptyShowsAll(instr: seq<Byte>)
    requires IsInstruction(instr)
    ensures FindsNothing(EmptyTable()) && Formed(State(ZeroMemory(), EmptyTable()))
    ensures Represents(State(ZeroMemory(), EmptyTable()), View(ZeroMemory(), {}), instr)
    ensures Slice(ZeroMemory(), 0x1000, |instr|) == seq(|instr|, _ => 0)
  {
    assert ZeroMemory() == Shown(View(ZeroMemory(), {}), instr);
  }

  /** The add is answered TRUE and takes a slot, but nothing is saved and memory
      does not change. */
  lemma RefusedAddMisleads(machine: Machine, attrs: seq<Attributes>, instr: seq<Byte>)
    requires Paged(attrs) && instr in {X64_BREAKPOINT, AARCH64_BREAKPOINT}
    requires machine.phase == Dxe(true) && ReadProtect in attrs[1]
    ensures var s := State(ZeroMemory(), EmptyTable());
            var s' := AddedWith(s, instr, 0x1000, false, false);
            && AddBlocked(machine, attrs, s, instr, 0x1000)
            && AddSucceeds(s.table, 0x1000) && FindActive(s'.table, 0x1000) < MAX_BREAKPOINTS
            && s'.memory == s.memory
            && Represents(s, View(ZeroMemory(), {}), instr) && !Represents(s', View(ZeroMemory(), {0x1000}), instr)
  {
    hide Represents, Slice, ZeroMemory, EmptyTable, FindActive, FindFree, Machine.Blocked;
    var s, v := State(ZeroMemory(), EmptyTable()), View(ZeroMemory(), {});
    EmptyShowsAll(instr);
    AllFree(s.table, 0x1000);
    BlockedIffRefused(machine, attrs, s, instr, 0x1000);
    AddMeetsView(s, v, instr, 0x1000, false, false);
    assert v.(planted := {} + {0x1000}) == View(ZeroMemory(), {0x1000});
    assert seq(|instr|, _ => 0)[|instr| - 1] != instr[|instr| - 1];
    var s' := AddedWith(s, instr, 0x1000, false, false);
    assert s'.table[FindFree(s.table)].active && s'.table[FindFree(s.table)].address == 0x1000;
  }

  /** The removal frees the slot, but the instruction stays in memory. */
  lemma RefusedRemoveMisleads(machine: Machine, attrs: seq<Attributes>, instr: seq<Byte>)
    requires Paged(attrs) && instr in {X64_BREAKPOINT, AARCH64_BREAKPOINT}
    requires Formed(State(ZeroMemory(), EmptyTable()))
    requires machine.Refuses(Added(State(ZeroMemory(), EmptyTable()), instr, 0x1000).memory, attrs, 0x1000, true)
    ensures var s := Added(State(ZeroMemory(), EmptyTable()), instr, 0x1000);
            var s' := RemovedWith(s, instr, 0x1000, false);
            && RemoveBlocked(machine, attrs, s, instr, 0x1000)
            && FindActive(s.table, 0x1000) < MAX_BREAKPOINTS && FindActive(s'.table, 0x1000) == MAX_BREAKPOINTS
            && Slice(s'.memory, 0x1000, |instr|) == instr
            && Represents(s, View(ZeroMemory(), {0x1000}), instr) && !Represents(s', View(ZeroMemory(), {}), instr)
  {
    hide Slice, ZeroMemory, EmptyTable, FindActive, FindFree, Machine.Blocked, Shown, Patch;
    var s0, v0 := State(ZeroMemory(), EmptyTable()), View(ZeroMemory(), {});
    EmptyShowsAll(instr);
    AllFree(s0.table, 0x1000);
    AddRefines(s0, v0, instr, 0x1000);
    var s, v := Added(s0, instr, 0x1000), View(ZeroMemory(), {0x1000});
    assert v0.(planted := v0.planted + {0x1000}) == v;
    BlockedIffRefused(machine, attrs, s, instr, 0x1000);
    RemoveMeetsView(s, v, instr, 0x1000, false);
    assert v.(planted := v.planted - {0x1000}) == v0;
    assert seq(|instr|, _ => 0)[|instr| - 1] != instr[|instr| - 1];
    ShownPlanted(v, instr, 0x1000);
    FindAfterFree(s.table, FindActive(s.table, 0x1000), 0x1000);
  }

  lemma AllFree(table: seq<Entry>, a: Address)
    requires FindsNothing(table) && table != []
    ensures FindActive(table, a) == |table| && FindFree(table) == 0
  {
  }

  // The table is full exactly when the planted set has 64 addresses.

  ghost function ActiveAddresses(table: seq<Entry>): set<Address> {
    set i | 0 <= i < |table| && table[i].active :: table[i].address
  }

  lemma FullCount(table: seq<Entry>)
    requires DistinctAddresses(table)
    ensures |ActiveAddresses(table)| <= |table|
    ensures |ActiveAddresses(table)| == |table| <==> FindFree(table) == |table|
  {
    hide FindFree;
    var n := |table|;
    var used := seq(n, i requires 0 <= i < n => table[i].active);
    var keys := seq(n, i requires 0 <= i < n => table[i].address);
    FullWhenAllUsed(used, keys);
    forall a
      ensures a in ActiveAddresses(table) <==> a in KeysHeld(used, keys)
    {
      if a in ActiveAddresses(table) {
        var i :| 0 <= i < n && table[i].active && table[i].address == a;
        assert used[i] && keys[i] == a;
      }
    }
    assert ActiveAddresses(table) == KeysHeld(used, keys);
    assert forall i :: 0 <= i < n ==> used[i] == table[i].active;
  }

  lemma PlantedCount(s: State, v: View, instr: seq<Byte>)
    requires IsInstruction(instr) && Represents(s, v, instr)
    ensures FindFree(s.table) < |s.table| <==> |v.planted| < MAX_BREAKPOINTS
  {
    FullCount(s.table);
    forall a: Address
      ensures a in v.planted <==> a in ActiveAddresses(s.table)
    {
      if a in ActiveAddresses(s.table) {
        var i :| 0 <= i < |s.table| && s.table[i].active && s.table[i].address == a;
        ActiveIsUnique(s.table, i);
      }
    }
    assert v.planted == ActiveAddresses(s.table);
  }

  // ---------------------------------------------------------- whole runs

  datatype Op = Add(a: Address) | Remove(a: Address) | Store(x: Address, b: Byte)

  ghost function Step(s: State, instr: seq<Byte>, op: Op): (r: State)
    requires Formed(s) && IsInstruction(instr)
    ensures Formed(r)
  {
    match op
    case Add(a) => Added(s, instr, a)
    case Remove(a) => Removed(s, instr, a)
    case Store(x, b) => s.(memory := s.memory[x := b])
  }

  ghost function Run(s: State, instr: seq<Byte>, ops: seq<Op>): (r: State)
    requires Formed(s) && IsInstruction(instr)
    ensures Formed(r)
    decreases |ops|
  {
    if ops == [] then s else Run(Step(s, instr, ops[0]), instr, ops[1..])
  }

  /** The same operations on a set of at most 64 addresses. */
  function PlantedAfter(planted: set<Address>, op: Op): set<Address> {
    match op
    case Add(a) => if |planted| < MAX_BREAKPOINTS then planted + {a} else planted
    case Remove(a) => planted - {a}
    case Store(x, b) => planted
  }

  function PlantedRun(planted: set<Address>, ops: seq<Op>): set<Address>
    decreases |ops|
  {
    if ops == [] then planted else PlantedRun(PlantedAfter(planted, ops[0]), ops[1..])
  }

  /** The program's memory if there were no breakpoints: stores only. */
  ghost function PlainAfter(mem: seq<Byte>, op: Op): (r: seq<Byte>)
    requires Whole(mem)
    ensures Whole(r)
  {
    if op.Store? then mem[op.x := op.b] else mem
  }

  ghost function PlainRun(mem: seq<Byte>, ops: seq<Op>): (r: seq<Byte>)
    requires Whole(mem)
    ensures Whole(r)
    decreases |ops|
  {
    if ops == [] then mem else PlainRun(PlainAfter(mem, ops[0]), ops[1..])
  }

  ghost predicate LegalStep(planted: set<Address>, size: int, op: Op)
    requires size == 1 || size == 4
  {
    && (op.Add? ==> Aligned(op.a, size))
    && (op.Store? ==> SlotOf(op.x, size) !in planted)
  }

  /** Breakpoints sit on instruction boundaries; stores keep off planted slots. */
  ghost predicate Legal(planted: set<Address>, size: int, ops: seq<Op>)
    requires size == 1 || size == 4
    decreases |ops|
  {
    ops != [] ==>
      && LegalStep(planted, size, ops[0])
      && Legal(PlantedAfter(planted, ops[0]), size, ops[1..])
  }

  lemma StepRefines(s: State, v: View, instr: seq<Byte>, op: Op)
    requires IsInstruction(instr) && Represents(s, v, instr) && LegalStep(v.planted, |instr|, op)
    ensures Represents(Step(s, instr, op), View(PlainAfter(v.pristine, op), PlantedAfter(v.planted, op)), instr)
  {
    match op
    case Add(a) =>
      AddRefines(s, v, instr, a);
      if a in v.planted { assert v.planted + {a} == v.planted; }
    case Remove(a) =>
      RemoveRefines(s, v, instr, a);
    case Store(x, b) =>
      StoreRefines(s, v, instr, x, b);
  }

  lemma {:induction false} RunRefines(s: State, v: View, instr: seq<Byte>, ops: seq<Op>)
    requires IsInstruction(instr) && Represents(s, v, instr) && Legal(v.planted, |instr|, ops)
    ensures Represents(Run(s, instr, ops), View(PlainRun(v.pristine, ops), PlantedRun(v.planted, ops)), instr)
    decreases |ops|
  {
    if ops != [] {
      StepRefines(s, v, instr, ops[0]);
      RunRefines(Step(s, instr, ops[0]),
                 View(PlainAfter(v.pristine, ops[0]), PlantedAfter(v.planted, ops[0])), instr, ops[1..]);
    }
  }

  // The same run by the code, on a machine whose policy may stop it.

  ghost function CodeStep(machine: Machine, attrs: seq<Attributes>, s: State, instr: seq<Byte>, op: Op): (r: State)
    requires Formed(s) && Paged(attrs) && IsInstruction(instr)
    ensures Formed(r)
  {
    match op
    case Add(a) =>
      AddedWith(s, instr, a, !machine.Blocked(s.memory, attrs, a, instr, false),
                !machine.Blocked(s.memory, attrs, a, instr, true))
    case Remove(a) => RemovedWith(s, instr, a, !RemoveBlocked(machine, attrs, s, instr, a))
    case Store(x, b) => s.(memory := s.memory[x := b])
  }

  ghost function CodeRun(machine: Machine, attrs: seq<Attributes>, s: State, instr: seq<Byte>, ops: seq<Op>): (r: State)
    requires Formed(s) && Paged(attrs) && IsInstruction(instr)
    ensures Formed(r)
    decreases |ops|
  {
    if ops == [] then s else CodeRun(machine, attrs, CodeStep(machine, attrs, s, instr, ops[0]), instr, ops[1..])
  }

  /** Policy lets the operation at its instruction. */
  ghost predicate Permitted(machine: Machine, attrs: seq<Attributes>, s: State, instr: seq<Byte>, op: Op)
    requires Formed(s) && Paged(attrs) && IsInstruction(instr)
  {
    match op
    case Add(a) => !AddBlocked(machine, attrs, s, instr, a)
    case Remove(a) => !RemoveBlocked(machine, attrs, s, instr, a)
    case Store(_, _) => true
  }

  /** Every operation is permitted when its turn comes. */
  ghost predicate AllPermitted(machine: Machine, attrs: seq<Attributes>, s: State, instr: seq<Byte>, ops: seq<Op>)
    requires Formed(s) && Paged(attrs) && IsInstruction(instr)
    decreases |ops|
  {
    ops != [] ==>
      && Permitted(machine, attrs, s, instr, ops[0])
      && AllPermitted(machine, attrs, CodeStep(machine, attrs, s, instr, ops[0]), instr, ops[1..])
  }

  lemma PermittedStep(machine: Machine, attrs: seq<Attributes>, s: State, instr: seq<Byte>, op: Op)
    requires Formed(s) && Paged(attrs) && IsInstruction(instr) && Permitted(machine, attrs, s, instr, op)
    ensures CodeStep(machine, attrs, s, instr, op) == Step(s, instr, op)
  {
    hide FindActive, FindFree, Patch, Slice, Machine.Blocked;
  }

  lemma {:induction false} PermittedRun(machine: Machine, attrs: seq<Attributes>, s: State, instr: seq<Byte>, ops: seq<Op>)
    requires Formed(s) && Paged(attrs) && IsInstruction(instr) && AllPermitted(machine, attrs, s, instr, ops)
    ensures CodeRun(machine, attrs, s, instr, ops) == Run(s, instr, ops)
    decreases |ops|
  {
    hide CodeStep, Step, Permitted;
    if ops != [] {
      PermittedStep(machine, attrs, s, instr, ops[0]);
      PermittedRun(machine, attrs, CodeStep(machine, attrs, s, instr, ops[0]), instr, ops[1..]);
    }
  }

  /** Transparency of every run from an empty table at accessible addresses:
      peeling off the saved bytes gives the memory of the run without
      breakpoints, memory itself is that with the instruction at the planted
      slots, and with none planted any more it is that memory exactly. */
  lemma RunIsTransparent(machine: Machine, attrs: seq<Attributes>, s: State, instr: seq<Byte>, ops: seq<Op>)
    requires IsInstruction(instr) && Formed(s) && Paged(attrs) && FindsNothing(s.table)
    requires Legal({}, |instr|, ops) && AllPermitted(machine, attrs, s, instr, ops)
    ensures var r := CodeRun(machine, attrs, s, instr, ops);
            && Peeled(r, |instr|) == PlainRun(s.memory, ops)
            && r.memory == Shown(View(PlainRun(s.memory, ops), PlantedRun({}, ops)), instr)
            && (PlantedRun({}, ops) == {} ==> r.memory == PlainRun(s.memory, ops))
  {
    hide CodeRun, Run, AllPermitted, PlainRun, PlantedRun, Peeled;
    var v := View(s.memory, {});
    assert s.memory == Shown(v, instr);
    PermittedRun(machine, attrs, s, instr, ops);
    RunRefines(s, v, instr, ops);
    PeelingShowsPristine(Run(s, instr, ops), View(PlainRun(v.pristine, ops), PlantedRun({}, ops)), instr);
  }

  /** No slot is in use. */
  ghost predicate FindsNothing(table: seq<Entry>) {
    forall i :: 0 <= i < |table| ==> !table[i].active
  }

  // ------------------------------------------------------------ the code

  /** An aligned instruction is accessed whole or not at all. */
  lemma NoPart(a: Address, size: int, done: int)
    requires (size == 1 || size == 4) && Aligned(a, size)
    requires 0 <= done < size && (0 < done ==> At(a, done) % PAGE == 0)
    ensures done == 0
  {
  }

  class BreakpointTable {
    const machine: Machine
    const instr: seq<Byte>
    const mBreakpoints: array<Entry>

    ghost predicate Valid()
      reads this, machine, mBreakpoints
    {
      machine.Valid() && IsInstruction(instr) && IsTable(mBreakpoints[..])
    }

    ghost function Now(): State
      reads this, machine, mBreakpoints
    {
      State(machine.memory, mBreakpoints[..])
    }

    constructor (machine: Machine, instr: seq<Byte>)
      requires machine.Valid() && IsInstruction(instr)
      ensures Valid() && fresh(mBreakpoints) && this.machine == machine && this.instr == instr
      ensures FindsNothing(mBreakpoints[..])
    {
      this.machine, this.instr := machine, instr;
      mBreakpoints := new Entry[MAX_BREAKPOINTS](_ => Entry(false, 0, [0, 0, 0, 0]));
    }

    /** AddSoftwareBreakpoint, which ignores failures of DbgReadMemory and DbgWriteMemory. */
    method AddSoftwareBreakpoint(address: Address)
      returns (ok: bool, ghost mishaps: Mishaps)
      requires Valid()
      modifies machine`memory, machine`attributes, machine`failed, mBreakpoints
      ensures Valid()
      ensures ok == AddSucceeds(old(mBreakpoints[..]), address)
      ensures Alike(Now(), Added(old(Now()), instr, address), address, |instr|)
      ensures !mishaps.Failed() ==> Now() == Added(old(Now()), instr, address)
      ensures Aligned(address, |instr|) ==>
                Now() == AddedWith(old(Now()), instr, address, !mishaps.unread, !mishaps.unwritten)
      ensures AddMishaps(machine, old(machine.attributes), old(Now()), instr, address, mishaps)
      ensures machine.Weakened(old(machine.attributes), machine.attributes)
      ensures mishaps.unrestored <==> machine.attributes != old(machine.attributes)
      ensures machine.Logged(mishaps.denied, !mishaps.unrestored)
    {
      mishaps := NO_MISHAPS;
      var entry := -1;
      var i := 0;
      while i < MAX_BREAKPOINTS
        invariant 0 <= i <= MAX_BREAKPOINTS
        invariant forall j :: 0 <= j < i ==> !(mBreakpoints[j].active && mBreakpoints[j].address == address)
        invariant entry == -1 ==> forall j :: 0 <= j < i ==> mBreakpoints[j].active
        invariant entry != -1 ==> 0 <= entry < i && !mBreakpoints[entry].active
        invariant entry != -1 ==> forall j :: 0 <= j < entry ==> mBreakpoints[j].active
      {
        if mBreakpoints[i].active && mBreakpoints[i].address == address {
          return true, NO_MISHAPS;
        }
        if !mBreakpoints[i].active && entry == -1 {
          entry := i;
        }
        i := i + 1;
      }
      if entry == -1 {
        return false, NO_MISHAPS;
      }
      assert FindFree(mBreakpoints[..]) == entry;
      ok := true;
      mishaps := Plant(entry, address);
    }

    /** The rest of AddSoftwareBreakpoint: saves what is there, writes the instruction. */
    method Plant(entry: nat, address: Address) returns (ghost mishaps: Mishaps)
      requires Valid() && entry == FindFree(mBreakpoints[..]) < MAX_BREAKPOINTS
      requires TakesSlot(mBreakpoints[..], address)
      modifies machine`memory, machine`attributes, machine`failed, mBreakpoints
      ensures Valid()
      ensures Alike(Now(), Added(old(Now()), instr, address), address, |instr|)
      ensures !mishaps.Failed() ==> Now() == Added(old(Now()), instr, address)
      ensures Aligned(address, |instr|) ==>
                Now() == AddedWith(old(Now()), instr, address, !mishaps.unread, !mishaps.unwritten)
      ensures AddMishaps(machine, old(machine.attributes), old(Now()), instr, address, mishaps)
      ensures machine.Weakened(old(machine.attributes), machine.attributes)
      ensures mishaps.unrestored <==> machine.attributes != old(machine.attributes)
      ensures machine.Logged(mishaps.denied, !mishaps.unrestored)
    {
      hide FindFree, FindActive, Patch, Slice, Alike, Machine.Blocked, Machine.Weakened;
      ghost var was, attrs := Now(), machine.attributes;
      var saved, read;
      ghost var denied, restored;
      saved, read, denied, restored := SaveBytes(address, mBreakpoints[entry].original);
      ghost var between := machine.attributes;
      mBreakpoints[entry] := Entry(true, address, saved);
      var write;
      ghost var done, denied', restored';
      write, done, denied', restored' := WriteBytes(address, instr);
      machine.WeakerStays(attrs, between, machine.attributes);
      machine.BlockedWeakened(was.memory, attrs, between, address, instr, true);
      PlantedInPart(was, Now(), instr, address, saved, done);
      assert instr[..|instr|] == instr;
      mishaps := Mishaps(!read, !write, denied || denied', !restored || !restored');
    }

    /** DbgReadMemory of an instruction over what a slot last held. */
    method SaveBytes(address: Address, stale: seq<Byte>)
      returns (saved: seq<Byte>, read: bool, ghost denied: bool, ghost restored: bool)
      requires Valid() && |stale| == MAX_BREAKPOINT_SIZE
      modifies machine`memory, machine`attributes, machine`failed
      ensures Valid() && machine.memory == old(machine.memory) && |saved| == MAX_BREAKPOINT_SIZE
      ensures read ==> saved == Slice(machine.memory, address, |instr|) + stale[|instr|..]
      ensures !read && Aligned(address, |instr|) ==> saved == stale
      ensures read <==> !denied && !machine.Blocked(machine.memory, old(machine.attributes), address, instr, false)
      ensures machine.Weakened(old(machine.attributes), machine.attributes)
      ensures restored <==> machine.attributes == old(machine.attributes)
      ensures machine.Logged(denied, restored)
    {
      hide Patch, Slice, Machine.Blocked, Machine.Weakened;
      var buffer := new Byte[MAX_BREAKPOINT_SIZE](j requires 0 <= j < MAX_BREAKPOINT_SIZE => stale[j]);
      assert buffer[..] == stale;
      ghost var done, mem, attrs := 0, machine.memory, machine.attributes;
      read, done, denied, restored := machine.AccessMemory(address, buffer, |instr|, false);
      machine.BlockedReads(mem, attrs, address, stale[..|instr|], instr);
      if !read && Aligned(address, |instr|) {
        NoPart(address, |instr|, done);
        assert Slice(mem, address, 0) == [];
      }
      saved := buffer[..];
    }

    /** DbgWriteMemory of an instruction. */
    method WriteBytes(address: Address, data: seq<Byte>)
      returns (write: bool, ghost done: nat, ghost denied: bool, ghost restored: bool)
      requires Valid() && |data| == |instr|
      modifies machine`memory, machine`attributes, machine`failed
      ensures Valid() && done <= |data| && machine.memory == Patch(old(machine.memory), address, data[..done])
      ensures write ==> done == |data|
      ensures !write && Aligned(address, |instr|) ==> machine.memory == old(machine.memory)
      ensures write <==> !denied && !machine.Blocked(old(machine.memory), old(machine.attributes), address, data, true)
      ensures machine.Weakened(old(machine.attributes), machine.attributes)
      ensures restored <==> machine.attributes == old(machine.attributes)
      ensures machine.Logged(denied, restored)
    {
      hide Patch, Slice, Machine.Blocked, Machine.Weakened;
      var patch := new Byte[|data|](j requires 0 <= j < |data| => data[j]);
      assert patch[..] == data && patch[..|data|] == data;
      ghost var mem := machine.memory;
      write, done, denied, restored := machine.AccessMemory(address, patch, |data|, true);
      if !write && Aligned(address, |instr|) {
        NoPart(address, |instr|, done);
        PatchNone(mem, address, data[..done]);
      }
    }

    /** RemoveSoftwareBreakpoint. */
    method RemoveSoftwareBreakpoint(address: Address)
      returns (ok: bool, ghost mishaps: Mishaps)
      requires Valid()
      modifies machine`memory, machine`attributes, machine`failed, mBreakpoints
      ensures Valid()
      ensures ok <==> FindActive(old(mBreakpoints[..]), address) < MAX_BREAKPOINTS
      ensures Alike(Now(), Removed(old(Now()), instr, address), address, |instr|)
      ensures !mishaps.Failed() ==> Now() == Removed(old(Now()), instr, address)
      ensures Aligned(address, |instr|) ==>
                Now() == RemovedWith(old(Now()), instr, address, !mishaps.unwritten)
      ensures RemoveMishaps(machine, old(machine.attributes), old(Now()), instr, address, mishaps)
      ensures machine.Weakened(old(machine.attributes), machine.attributes)
      ensures mishaps.unrestored <==> machine.attributes != old(machine.attributes)
      ensures machine.Logged(mishaps.denied, !mishaps.unrestored)
    {
      mishaps := NO_MISHAPS;
      for i := 0 to MAX_BREAKPOINTS
        invariant mBreakpoints[..] == old(mBreakpoints[..]) && machine.memory == old(machine.memory)
        invariant forall j :: 0 <= j < i ==> !(mBreakpoints[j].active && mBreakpoints[j].address == address)
      {
        if mBreakpoints[i].active && mBreakpoints[i].address == address {
          assert FindActive(mBreakpoints[..], address) == i;
          var saved := mBreakpoints[i].original[..|instr|];
          ghost var done, denied, restored;
          var write;
          write, done, denied, restored := WriteBytes(address, saved);
          mishaps := Mishaps(false, !write, denied, !restored);
          mBreakpoints[i] := mBreakpoints[i].(active := false);
          return true, mishaps;
        }
      }
      ok := false;
    }
  }
}
