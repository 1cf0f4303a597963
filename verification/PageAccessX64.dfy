/** The DXE agent on X64 without the attribute protocol: testing one byte a
    page decides the same as testing every byte. */
module PageAccessX64 {
  import opened Bytes
  import opened Memory
  import opened MemoryAccess
  import opened PageWalkX64

  ghost predicate AllReadable(mem: seq<Byte>, cr3: nat, la57: bool, address: Address, length: nat)
    requires Whole(mem) && length < SPACE
  {
    forall i :: 0 <= i < length ==> IsPageReadable(mem, cr3, la57, At(address, i))
  }

  /** The first byte of the range in each page is readable exactly when all bytes are. */
  lemma PagesDecideBytes(mem: seq<Byte>, cr3: nat, la57: bool, address: Address, length: nat)
    requires Whole(mem) && length < SPACE
    ensures AllReadable(mem, cr3, la57, address, length) <==>
            forall i :: StartsPage(address, length, i) ==> IsPageReadable(mem, cr3, la57, At(address, i))
  {
    hide IsPageReadable;
    if forall i :: StartsPage(address, length, i) ==> IsPageReadable(mem, cr3, la57, At(address, i)) {
      forall i | 0 <= i < length
        ensures IsPageReadable(mem, cr3, la57, At(address, i))
      {
        var j := PageStartBefore(address, length, i);
        PageUniform(mem, cr3, la57, At(address, j), At(address, i));
        StillReadable(mem, cr3, la57, At(address, j), At(address, i));
      }
    }
  }

  lemma StillReadable(mem: seq<Byte>, cr3: nat, la57: bool, a: Address, b: Address)
    requires Whole(mem) && IsPageReadable(mem, cr3, la57, a)
    requires GetPageIs(mem, cr3, la57, b) == GetPageIs(mem, cr3, la57, a)
    ensures IsPageReadable(mem, cr3, la57, b)
  {
  }

  /** DbgReadMemory succeeds exactly when every byte of the range is readable,
      and then delivers those bytes. */
  method DbgReadMemory(machine: Machine, ghost cr3: nat, ghost la57: bool,
                       address: Address, data: array<Byte>, length: nat)
    returns (ok: bool)
    requires machine.Valid() && machine.phase == Dxe(false)
    requires forall mem, a: Address :: Whole(mem) ==>
               (machine.canRead(mem, a) <==> IsPageReadable(mem, cr3, la57, a))
    requires length <= data.Length && length < SPACE
    modifies machine`memory, machine`attributes, machine`failed, data
    ensures machine.Valid() && machine.memory == old(machine.memory) && machine.attributes == old(machine.attributes)
    ensures ok <==> AllReadable(machine.memory, cr3, la57, address, length)
    ensures ok ==> data[..length] == Slice(machine.memory, address, length) && data[length..] == old(data[length..])
  {
    hide IsPageReadable;
    PagesDecideBytes(machine.memory, cr3, la57, address, length);
    ghost var done, denied, restored;
    ok, done, denied, restored := machine.AccessMemory(address, data, length, false);
  }

  // ------------------------------------------ reading back what was written

  /** The entries that the walk for a reads. */
  ghost function Entries(mem: seq<Byte>, cr3: nat, la57: bool, a: Address): (entries: seq<Address>)
    requires Whole(mem)
  {
    var top := AddressBits(cr3);
    if !la57 then Pml4Entries(mem, top, a)
    else
      var w := Word(mem, top + Pml5Index(a));
      [top + Pml5Index(a)] + if Present(w) then Pml4Entries(mem, AddressBits(w), a) else []
  }

  ghost function Pml4Entries(mem: seq<Byte>, table: Address, a: Address): (entries: seq<Address>)
    requires Whole(mem) && table < TWO36
  {
    var w := Word(mem, table + Pml4Index(a));
    [table + Pml4Index(a)] + if Present(w) then PdpteEntries(mem, w, a) else []
  }

  ghost function PdpteEntries(mem: seq<Byte>, pml4e: nat, a: Address): (entries: seq<Address>)
    requires Whole(mem)
  {
    var e := AddressBits(pml4e) + 8 * PdpteIndex(a);
    [e] + if Present(Word(mem, e)) && !MustBe1(Word(mem, e)) then PdeEntries(mem, Word(mem, e), a) else []
  }

  ghost function PdeEntries(mem: seq<Byte>, pdpte: nat, a: Address): (entries: seq<Address>)
    requires Whole(mem)
  {
    var e := AddressBits(pdpte) + 8 * PdeIndex(a);
    [e] + if Present(Word(mem, e)) && !MustBe1(Word(mem, e)) then [AddressBits(Word(mem, e)) + 8 * PteIndex(a)] else []
  }

  /** The verdict is decided by these entries alone. */
  lemma WalkKept(mem: seq<Byte>, mem': seq<Byte>, cr3: nat, la57: bool, a: Address)
    requires Whole(mem) && Whole(mem') && SameWords(mem, mem', Entries(mem, cr3, la57, a))
    ensures GetPageIs(mem', cr3, la57, a) == GetPageIs(mem, cr3, la57, a)
  {
    hide Word, AddressBits, Present, MustBe1, ReadWrite, PteIndex, PdeIndex, PdpteIndex, Pml4Index, SameWord;
    var top := AddressBits(cr3);
    if la57 {
      var e, w := top + Pml5Index(a), Word(mem, top + Pml5Index(a));
      assert Entries(mem, cr3, la57, a)[0] == e;
      SameWordIsWord(mem, mem', e);
      if Present(w) {
        assert Entries(mem, cr3, la57, a)[1..] == Pml4Entries(mem, AddressBits(w), a);
        Pml4Kept(mem, mem', AddressBits(w), a);
      }
    } else {
      Pml4Kept(mem, mem', top, a);
    }
  }

  lemma Pml4Kept(mem: seq<Byte>, mem': seq<Byte>, table: Address, a: Address)
    requires Whole(mem) && Whole(mem') && table < TWO36 && SameWords(mem, mem', Pml4Entries(mem, table, a))
    ensures var e := table + Pml4Index(a);
            && Word(mem', e) == Word(mem, e)
            && (Present(Word(mem, e)) ==> CheckPdpte(mem', Word(mem, e), a) == CheckPdpte(mem, Word(mem, e), a))
  {
    hide Word, AddressBits, Present, MustBe1, ReadWrite, PteIndex, PdeIndex, PdpteIndex, Pml4Index, SameWord;
    hide CheckPdpte;
    var entries, e := Pml4Entries(mem, table, a), table + Pml4Index(a);
    assert entries[0] == e;
    SameWordIsWord(mem, mem', e);
    if Present(Word(mem, e)) {
      assert entries[1..] == PdpteEntries(mem, Word(mem, e), a);
      PdpteKept(mem, mem', Word(mem, e), a);
    }
  }

  lemma PdpteKept(mem: seq<Byte>, mem': seq<Byte>, pml4e: nat, a: Address)
    requires Whole(mem) && Whole(mem') && SameWords(mem, mem', PdpteEntries(mem, pml4e, a))
    ensures CheckPdpte(mem', pml4e, a) == CheckPdpte(mem, pml4e, a)
  {
    hide Word, AddressBits, Present, MustBe1, ReadWrite, PteIndex, PdeIndex, PdpteIndex, SameWord, CheckPde;
    var entries, e := PdpteEntries(mem, pml4e, a), AddressBits(pml4e) + 8 * PdpteIndex(a);
    assert entries[0] == e;
    SameWordIsWord(mem, mem', e);
    if Present(Word(mem, e)) && !MustBe1(Word(mem, e)) {
      assert entries[1..] == PdeEntries(mem, Word(mem, e), a);
      PdeKept(mem, mem', Word(mem, e), a);
    }
  }

  lemma PdeKept(mem: seq<Byte>, mem': seq<Byte>, pdpte: nat, a: Address)
    requires Whole(mem) && Whole(mem') && SameWords(mem, mem', PdeEntries(mem, pdpte, a))
    ensures CheckPde(mem', pdpte, a) == CheckPde(mem, pdpte, a)
  {
    hide Word, AddressBits, Present, MustBe1, ReadWrite, PteIndex, PdeIndex, SameWord;
    var entries, e := PdeEntries(mem, pdpte, a), AddressBits(pdpte) + 8 * PdeIndex(a);
    assert entries[0] == e;
    SameWordIsWord(mem, mem', e);
    if Present(Word(mem, e)) && !MustBe1(Word(mem, e)) {
      assert SameWord(mem, mem', entries[1]);
      SameWordIsWord(mem, mem', entries[1]);
    }
  }

  /** The machine's verdicts are those of the walk. */
  ghost predicate Walks(machine: Machine, cr3: nat, la57: bool) {
    && machine.phase == Dxe(false)
    && (forall mem, a: Address :: Whole(mem) ==> (machine.canRead(mem, a) <==> IsPageReadable(mem, cr3, la57, a)))
    && (forall mem, a: Address :: Whole(mem) ==> (machine.canWrite(mem, a) <==> IsPageWritable(mem, cr3, la57, a)))
  }

  lemma EntriesDecide(machine: Machine, cr3: nat, la57: bool, mem: seq<Byte>, a: Address)
    requires Walks(machine, cr3, la57) && Whole(mem)
    ensures machine.DecidedBy(mem, a, Entries(mem, cr3, la57, a))
  {
    hide GetPageIs, Entries;
    forall mem' | Whole(mem') && SameWords(mem, mem', Entries(mem, cr3, la57, a))
      ensures GetPageIs(mem', cr3, la57, a) == GetPageIs(mem, cr3, la57, a)
    {
      WalkKept(mem, mem', cr3, la57, a);
    }
  }

  /** The range keeps off the table entries that map it. */
  ghost predicate OffEntries(mem: seq<Byte>, cr3: nat, la57: bool, address: Address, n: nat)
    requires Whole(mem)
  {
    forall i :: StartsPage(address, n, i) ==> AllOff(Entries(mem, cr3, la57, At(address, i)), address, n)
  }

  lemma OffEntriesOffTables(machine: Machine, cr3: nat, la57: bool, mem: seq<Byte>, address: Address, n: nat)
    requires Walks(machine, cr3, la57) && Whole(mem) && OffEntries(mem, cr3, la57, address, n)
    ensures machine.OffTables(mem, address, n)
  {
    hide GetPageIs, Entries, At, Machine.DecidedBy;
    forall i | StartsPage(address, n, i)
      ensures machine.OffTablesOf(mem, At(address, i), address, n)
    {
      EntriesDecide(machine, cr3, la57, mem, At(address, i));
      assert AllOff(Entries(mem, cr3, la57, At(address, i)), address, n);
    }
  }
}
