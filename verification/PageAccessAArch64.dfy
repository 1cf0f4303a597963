/** The DXE agent on AArch64 without the attribute protocol: which words of
    memory its verdicts depend on. */
module PageAccessAArch64 {
  import opened Bytes
  import opened Memory
  import opened MemoryAccess
  import opened PageWalkAArch64

  /** The descriptors that the lookup of a reads from this table on. */
  ghost function EntriesFrom(mem: seq<Byte>, table: Address, level: nat, a: Address): (entries: seq<Address>)
    requires Whole(mem) && table <= TWO48 && level <= 3
    decreases 3 - level
  {
    var w := Word(mem, EntryFor(table, level, a));
    [EntryFor(table, level, a)] + if level < 3 && w % 4 == 3 then EntriesFrom(mem, NextTable(w), level + 1, a) else []
  }

  ghost function Entries(mem: seq<Byte>, ttbr0: Address, t0sz: nat, a: Address): (entries: seq<Address>)
    requires Whole(mem) && ttbr0 <= TWO48 && MIN_T0SZ <= t0sz <= MAX_T0SZ
  {
    EntriesFrom(mem, ttbr0, StartLevel(t0sz), a)
  }

  /** The lookup is decided by these descriptors alone. */
  lemma {:induction false} LookupKept(mem: seq<Byte>, mem': seq<Byte>, table: Address, level: nat, a: Address)
    requires Whole(mem) && Whole(mem') && table <= TWO48 && level <= 3
    requires SameWords(mem, mem', EntriesFrom(mem, table, level, a))
    ensures ParsePageTableLevel(mem', table, level, a) == ParsePageTableLevel(mem, table, level, a)
    decreases 3 - level
  {
    hide Word, EntryFor, NextTable, SameWord, AttributesOf;
    var entries, e := EntriesFrom(mem, table, level, a), EntryFor(table, level, a);
    var w := Word(mem, e);
    assert entries[0] == e;
    SameWordIsWord(mem, mem', e);
    if level < 3 && w % 4 == 3 {
      assert entries[1..] == EntriesFrom(mem, NextTable(w), level + 1, a);
      LookupKept(mem, mem', NextTable(w), level + 1, a);
    }
  }

  /** The machine's verdicts are those of CheckPageAccess. */
  ghost predicate Walks(machine: Machine, ttbr0: Address, t0sz: nat)
    requires ttbr0 <= TWO48 && MIN_T0SZ <= t0sz <= MAX_T0SZ
  {
    && machine.phase == Dxe(false)
    && forall mem, a: Address :: Whole(mem) ==>
         && (machine.canRead(mem, a) <==> CheckPageAccess(mem, ttbr0, t0sz, a, false))
         && (machine.canWrite(mem, a) <==> CheckPageAccess(mem, ttbr0, t0sz, a, true))
  }

  lemma EntriesDecide(machine: Machine, ttbr0: Address, t0sz: nat, mem: seq<Byte>, a: Address)
    requires ttbr0 <= TWO48 && MIN_T0SZ <= t0sz <= MAX_T0SZ && Walks(machine, ttbr0, t0sz) && Whole(mem)
    ensures machine.DecidedBy(mem, a, Entries(mem, ttbr0, t0sz, a))
  {
    hide ParsePageTableLevel, EntriesFrom, Allows;
    forall mem', write | Whole(mem') && SameWords(mem, mem', Entries(mem, ttbr0, t0sz, a))
      ensures CheckPageAccess(mem', ttbr0, t0sz, a, write) == CheckPageAccess(mem, ttbr0, t0sz, a, write)
    {
      LookupKept(mem, mem', ttbr0, StartLevel(t0sz), a);
    }
  }

  /** The range keeps off the descriptors that map it. */
  ghost predicate OffEntries(mem: seq<Byte>, ttbr0: Address, t0sz: nat, address: Address, n: nat)
    requires Whole(mem) && ttbr0 <= TWO48 && MIN_T0SZ <= t0sz <= MAX_T0SZ
  {
    forall i :: StartsPage(address, n, i) ==> AllOff(Entries(mem, ttbr0, t0sz, At(address, i)), address, n)
  }

  lemma OffEntriesOffTables(machine: Machine, ttbr0: Address, t0sz: nat, mem: seq<Byte>, address: Address, n: nat)
    requires ttbr0 <= TWO48 && MIN_T0SZ <= t0sz <= MAX_T0SZ && Walks(machine, ttbr0, t0sz) && Whole(mem)
    requires OffEntries(mem, ttbr0, t0sz, address, n)
    ensures machine.OffTables(mem, address, n)
  {
    hide CheckPageAccess, Entries, At, Machine.DecidedBy;
    forall i | StartsPage(address, n, i)
      ensures machine.OffTablesOf(mem, At(address, i), address, n)
    {
      EntriesDecide(machine, ttbr0, t0sz, mem, At(address, i));
      assert AllOff(Entries(mem, ttbr0, t0sz, At(address, i)), address, n);
    }
  }

  /** The access flag of the leaf that the lookup finds. */
  ghost predicate Accessed(mem: seq<Byte>, ttbr0: Address, t0sz: nat, a: Address)
    requires Whole(mem) && ttbr0 <= TWO48 && MIN_T0SZ <= t0sz <= MAX_T0SZ
  {
    var lookup := ParsePageTableLevel(mem, ttbr0, StartLevel(t0sz), a);
    lookup.Found? && AccessFlag(lookup.attributes)
  }

  /** A page found writable is found readable if and only if its access flag is set. */
  lemma WritableReads(mem: seq<Byte>, ttbr0: Address, t0sz: nat, a: Address)
    requires Whole(mem) && ttbr0 <= TWO48 && MIN_T0SZ <= t0sz <= MAX_T0SZ
    requires CheckPageAccess(mem, ttbr0, t0sz, a, true)
    ensures CheckPageAccess(mem, ttbr0, t0sz, a, false) <==> Accessed(mem, ttbr0, t0sz, a)
  {
  }
}
