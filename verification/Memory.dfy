/** The 64-bit address space as a flat array of bytes, addresses wrapping at 2^64. */
module Memory {
  import opened Bytes

  const SPACE: int := 0x1_0000_0000_0000_0000
  const PAGE: int := 0x1000
  const PAGES: int := 0x10_0000_0000_0000 // SPACE / PAGE

  type Address = a: int | 0 <= a < SPACE

  /** The address i bytes after a, in UINTN arithmetic. */
  function At(a: Address, i: int): Address
    requires 0 <= i <= SPACE
  {
    if a + i < SPACE then a + i else a + i - SPACE
  }

  lemma AtAt(a: Address, i: int, j: int)
    requires 0 <= i && 0 <= j && i + j <= SPACE
    ensures At(At(a, i), j) == At(a, i + j)
  {
  }

  /** How far x lies after a, going up and around. */
  function Offset(a: Address, x: Address): (i: int)
    ensures 0 <= i < SPACE && At(a, i) == x
  {
    if x >= a then x - a else x - a + SPACE
  }

  ghost predicate Whole(mem: seq<Byte>) {
    |mem| == SPACE
  }

  /** One flat copy of data into memory at a. */
  ghost function Patch(mem: seq<Byte>, a: Address, data: seq<Byte>): (r: seq<Byte>)
    requires Whole(mem)
    ensures Whole(r)
  {
    seq(SPACE, x requires 0 <= x < SPACE => if Offset(a, x) < |data| then data[Offset(a, x)] else mem[x])
  }

  /** The n bytes from a on. */
  ghost function Slice(mem: seq<Byte>, a: Address, n: nat): (r: seq<Byte>)
    requires Whole(mem) && n <= SPACE
    ensures |r| == n
  {
    seq(n, i requires 0 <= i < n => mem[At(a, i)])
  }

  /** What was copied in is what is there; nothing else moved. */
  lemma PatchSlice(mem: seq<Byte>, a: Address, data: seq<Byte>)
    requires Whole(mem) && |data| <= SPACE
    ensures Slice(Patch(mem, a, data), a, |data|) == data
    ensures forall x: Address :: Offset(a, x) >= |data| ==> Patch(mem, a, data)[x] == mem[x]
  {
    forall i | 0 <= i < |data|
      ensures Slice(Patch(mem, a, data), a, |data|)[i] == data[i]
    {
      assert Offset(a, At(a, i)) == i;
    }
  }

  /** Two adjacent copies are one. */
  lemma PatchPatch(mem: seq<Byte>, a: Address, s: seq<Byte>, t: seq<Byte>)
    requires Whole(mem) && |s| + |t| <= SPACE
    ensures Patch(Patch(mem, a, s), At(a, |s|), t) == Patch(mem, a, s + t)
  {
    var l, r := Patch(Patch(mem, a, s), At(a, |s|), t), Patch(mem, a, s + t);
    forall x | 0 <= x < SPACE
      ensures l[x] == r[x]
    {
      var i, j := Offset(a, x), Offset(At(a, |s|), x);
      if i < |s| {
        assert j >= |t|;
      } else {
        assert j == i - |s|;
      }
    }
  }

  /** Two adjacent reads are one. */
  lemma SliceSlice(mem: seq<Byte>, a: Address, m: nat, n: nat)
    requires Whole(mem) && m + n <= SPACE
    ensures Slice(mem, a, m) + Slice(mem, At(a, m), n) == Slice(mem, a, m + n)
  {
    forall i | 0 <= i < m + n
      ensures (Slice(mem, a, m) + Slice(mem, At(a, m), n))[i] == Slice(mem, a, m + n)[i]
    {
      if i >= m { assert At(At(a, m), i - m) == At(a, i); }
    }
  }

  ghost function ByteAt(mem: seq<Byte>, a: Address, i: nat): int
    requires Whole(mem) && i < 8
  {
    mem[At(a, i)]
  }

  /** The little-endian 64-bit word at a. */
  ghost function Word(mem: seq<Byte>, a: Address): (w: nat)
    requires Whole(mem)
  {
    ByteAt(mem, a, 0) + 0x100 * ByteAt(mem, a, 1) + 0x1_0000 * ByteAt(mem, a, 2) + 0x100_0000 * ByteAt(mem, a, 3)
    + 0x1_0000_0000 * ByteAt(mem, a, 4) + 0x100_0000_0000 * ByteAt(mem, a, 5)
    + 0x1_0000_0000_0000 * ByteAt(mem, a, 6) + 0x100_0000_0000_0000 * ByteAt(mem, a, 7)
  }

  /** The same word at e. */
  ghost predicate SameWord(mem: seq<Byte>, mem': seq<Byte>, e: Address)
    requires Whole(mem) && Whole(mem')
  {
    forall j :: 0 <= j < 8 ==> ByteAt(mem', e, j) == ByteAt(mem, e, j)
  }

  ghost predicate SameWords(mem: seq<Byte>, mem': seq<Byte>, entries: seq<Address>)
    requires Whole(mem) && Whole(mem')
  {
    forall k :: 0 <= k < |entries| ==> SameWord(mem, mem', entries[k])
  }

  lemma SameWordIsWord(mem: seq<Byte>, mem': seq<Byte>, e: Address)
    requires Whole(mem) && Whole(mem') && SameWord(mem, mem', e)
    ensures Word(mem', e) == Word(mem, e)
  {
  }

  lemma SameSelf(mem: seq<Byte>, entries: seq<Address>)
    requires Whole(mem)
    ensures SameWords(mem, mem, entries)
  {
  }

  lemma SameWordsAcross(mem: seq<Byte>, mem': seq<Byte>, mem'': seq<Byte>, entries: seq<Address>)
    requires Whole(mem) && Whole(mem') && Whole(mem'')
    requires SameWords(mem, mem', entries) && SameWords(mem', mem'', entries)
    ensures SameWords(mem, mem'', entries)
  {
    forall k | 0 <= k < |entries|
      ensures SameWord(mem, mem'', entries[k])
    {
      assert SameWord(mem, mem', entries[k]) && SameWord(mem', mem'', entries[k]);
    }
  }

  /** No byte of the word at e is one of the n bytes from the address on. */
  predicate Off(e: Address, address: Address, n: nat) {
    forall j :: 0 <= j < 8 ==> Offset(address, At(e, j)) >= n
  }

  predicate AllOff(entries: seq<Address>, address: Address, n: nat) {
    forall k :: 0 <= k < |entries| ==> Off(entries[k], address, n)
  }

  /** A change within a range leaves the words off it alone. */
  lemma OffRange(mem: seq<Byte>, mem': seq<Byte>, address: Address, n: nat, entries: seq<Address>)
    requires Whole(mem) && Whole(mem') && AllOff(entries, address, n)
    requires forall x: Address :: Offset(address, x) >= n ==> mem'[x] == mem[x]
    ensures SameWords(mem, mem', entries)
  {
    hide Offset;
    forall k | 0 <= k < |entries|
      ensures SameWord(mem, mem', entries[k])
    {
      assert Off(entries[k], address, n);
    }
  }
}
