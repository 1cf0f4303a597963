/** The AArch64 page walk, against translation tables laid out in memory as the
    VMSAv8-64 translation table format with a 4 KiB granule describes them. */
module PageWalkAArch64 {
  import opened Bytes
  import opened Memory
  import opened BitFields
  import opened PageTree

  const MIN_T0SZ: nat := 16
  const MAX_T0SZ: nat := 39
  const TWO36: int := 0x10_0000_0000
  const TWO48: int := 0x1_0000_0000_0000

  const TT_TYPE_TABLE_ENTRY: nat := 3
  const TT_TYPE_BLOCK_ENTRY: nat := 1
  const TT_TYPE_BLOCK_ENTRY_LEVEL3: nat := 3

  datatype Lookup = NotFound | Found(attributes: nat)

  // ------------------------------------------------ the code (DebugAarch64.c)

  /** w & TT_ADDRESS_MASK_DESCRIPTION_TABLE: bits 12 to 47. */
  function NextTable(w: nat): (base: Address)
    ensures base < TWO48
  {
    w / 0x1000 % TWO36 * 0x1000
  }

  /** w & TT_ATTRIBUTES_MASK: bits 2 to 11 and 52 to 63. */
  function AttributesOf(w: nat): nat {
    w / 0x10_0000_0000_0000 % 0x1000 * 0x10_0000_0000_0000 + w / 4 % 0x400 * 4
  }

  /** TT_GET_ENTRY_FOR_ADDRESS; 1 << TT_ADDRESS_OFFSET_AT_LEVEL(level) is Span(3 - level). */
  function EntryFor(table: Address, level: nat, a: Address): (entry: Address)
    requires table <= TWO48 && level <= 3
  {
    DigitBound(a, Span(3 - level));
    table + 8 * (a / Span(3 - level) % 512)
  }

  ghost function ParsePageTableLevel(mem: seq<Byte>, table: Address, level: nat, a: Address): Lookup
    requires Whole(mem) && table <= TWO48 && level <= 3
    decreases 3 - level
  {
    var blockEntryType := if level != 3 then TT_TYPE_BLOCK_ENTRY else TT_TYPE_BLOCK_ENTRY_LEVEL3;
    var entry := Word(mem, EntryFor(table, level, a));
    if level < 3 && entry % 4 == TT_TYPE_TABLE_ENTRY then
      ParsePageTableLevel(mem, NextTable(entry), level + 1, a)
    else if entry % 4 == blockEntryType then
      Found(AttributesOf(entry))
    else
      NotFound
  }

  function StartLevel(t0sz: nat): (level: nat)
    requires MIN_T0SZ <= t0sz <= MAX_T0SZ
    ensures level <= 2
  {
    (t0sz - MIN_T0SZ) / 9
  }

  const TT_ATTR_INDX_DEVICE_MEMORY: nat := 0

  function AttrIndex(attributes: nat): nat { attributes / 4 % 8 }

  predicate AccessFlag(attributes: nat) { attributes / 0x400 % 2 == 1 }

  function AccessPermissions(attributes: nat): nat { attributes / 0x40 % 4 }

  /** CheckPageAccess, for the input sizes the architecture allows. */
  ghost predicate CheckPageAccess(mem: seq<Byte>, ttbr0: Address, t0sz: nat, a: Address, write: bool)
    requires Whole(mem) && ttbr0 <= TWO48 && MIN_T0SZ <= t0sz <= MAX_T0SZ
  {
    if a >= 0xffff_f000_0000_0000 then false
    else
      match ParsePageTableLevel(mem, ttbr0, StartLevel(t0sz), a)
      case NotFound => false
      case Found(attributes) => Allows(attributes, write)
  }

  /** The part of CheckPageAccess that looks at the attributes found. */
  predicate Allows(attributes: nat, write: bool) {
    if AttrIndex(attributes) == TT_ATTR_INDX_DEVICE_MEMORY then false
    else if write then AccessPermissions(attributes) % 2 != 0 || AccessPermissions(attributes) == 0
    else AccessFlag(attributes)
  }

  // ---------------------------------------------------- the architecture

  /** What a leaf grants: its own attributes, and whether a table descriptor on
      the way to it takes away the right to write. */
  datatype Grant = Grant(attributes: nat, noWrite: bool)

  /** APTable[1] of a table descriptor (TT_TABLE_AP_NO_WRITE_ACCESS): no write
      through any descriptor below, at any exception level. */
  predicate DeniesWrite(w: nat) { w / 0x4000_0000_0000_0000 % 2 == 1 }

  /** The descriptor w, d levels above the page descriptors, stands for this
      node; `noWrite`: some descriptor above it denies writes. There are blocks
      one and two levels up, but none at level 0. */
  ghost predicate Laid(mem: seq<Byte>, w: nat, node: Node<Grant>, d: nat, noWrite: bool)
    requires Whole(mem)
    decreases node
  {
    match node
    case Absent => if d == 0 || d == 3 then w % 4 != 3 else w % 2 == 0
    case Leaf(grant) => d <= 2 && w % 4 == (if d == 0 then 3 else 1) && grant == Grant(AttributesOf(w), noWrite)
    case Table(children) =>
      && d > 0 && w % 4 == 3 && |children| == 512
      && forall i :: 0 <= i < 512 ==>
           Laid(mem, Word(mem, NextTable(w) + 8 * i), children[i], d - 1, noWrite || DeniesWrite(w))
  }

  /** Levels of table below and including the root table. */
  function RootDepth(t0sz: nat): nat
    requires MIN_T0SZ <= t0sz <= MAX_T0SZ
  {
    4 - StartLevel(t0sz)
  }

  /** Entries of the root table: 512 >> ((t0sz - 16) % 9). */
  function RootEntries(t0sz: nat): (n: nat)
    requires MIN_T0SZ <= t0sz <= MAX_T0SZ
    ensures 0 < n <= 512
  {
    RootEntriesBound(9 - (t0sz - MIN_T0SZ) % 9);
    Pow2(9 - (t0sz - MIN_T0SZ) % 9)
  }

  /** TTBR0 points at a root table that stands for root. */
  ghost predicate RootLaid(mem: seq<Byte>, ttbr0: Address, t0sz: nat, root: Node<Grant>)
    requires Whole(mem) && MIN_T0SZ <= t0sz <= MAX_T0SZ && ttbr0 <= TWO48
  {
    && root.Table? && |root.children| == RootEntries(t0sz)
    && forall i :: 0 <= i < |root.children| ==>
         Laid(mem, Word(mem, ttbr0 + 8 * i), root.children[i], RootDepth(t0sz) - 1, false)
  }

  lemma DigitBound(a: nat, s: nat)
    requires s > 0
    ensures 0 <= a / s && 0 <= a / s % 512 < 512
  {
  }

  lemma RootEntriesBound(k: nat)
    requires 1 <= k <= 9
    ensures Pow2(k) <= 512
  {
    Pow2Monotone(k, 9);
    assert Pow2(9) == 512;
  }

  lemma Pow2Monotone(j: nat, k: nat)
    requires j <= k
    ensures Pow2(j) <= Pow2(k)
  {
    if j < k { Pow2Monotone(j, k - 1); }
  }

  /** The root table covers exactly 2^(64 - T0SZ) bytes. */
  lemma RootCovers(t0sz: nat)
    requires MIN_T0SZ <= t0sz <= MAX_T0SZ
    ensures RootEntries(t0sz) * Span(RootDepth(t0sz) - 1) == Pow2(64 - t0sz)
  {
    var d := RootDepth(t0sz) - 1;
    SpanIsPow2(d);
    Pow2Sum(9 - (t0sz - MIN_T0SZ) % 9, 12 + 9 * d);
    assert 64 - t0sz == 9 - (t0sz - MIN_T0SZ) % 9 + (12 + 9 * d);
  }

  lemma {:induction false} SpanIsPow2(d: nat)
    ensures Span(d) == Pow2(12 + 9 * d)
  {
    if d == 0 {
      assert Pow2(12) == 0x1000;
    } else {
      SpanIsPow2(d - 1);
      Pow2Sum(9, 12 + 9 * (d - 1));
      assert Pow2(9) == 512;
    }
  }

  lemma {:induction false} LaidIsShaped(mem: seq<Byte>, w: nat, node: Node<Grant>, d: nat, noWrite: bool)
    requires Whole(mem) && Laid(mem, w, node, d, noWrite)
    ensures FullyShaped(node, d)
    decreases node
  {
    if node.Table? {
      forall i | 0 <= i < 512
        ensures FullyShaped(node.children[i], d - 1)
      {
        LaidIsShaped(mem, Word(mem, NextTable(w) + 8 * i), node.children[i], d - 1, noWrite || DeniesWrite(w));
      }
    }
  }

  lemma RootIsShaped(mem: seq<Byte>, ttbr0: Address, t0sz: nat, root: Node<Grant>)
    requires Whole(mem) && MIN_T0SZ <= t0sz <= MAX_T0SZ && ttbr0 <= TWO48 && RootLaid(mem, ttbr0, t0sz, root)
    ensures Shaped(root, RootDepth(t0sz))
    ensures Extent(root, RootDepth(t0sz)) == Pow2(64 - t0sz)
  {
    hide Word;
    var d := RootDepth(t0sz);
    forall i | 0 <= i < |root.children|
      ensures FullyShaped(root.children[i], d - 1)
    {
      LaidIsShaped(mem, Word(mem, ttbr0 + 8 * i), root.children[i], d - 1, false);
    }
    RootCovers(t0sz);
  }

  function LookupOf(node: Node<Grant>): Lookup
    requires !node.Table?
  {
    match node
    case Absent => NotFound
    case Leaf(grant) => Found(grant.attributes)
  }

  /** From an entry on, the recursion ends at the leaf its index digits lead to. */
  lemma {:induction false} EntryStep(mem: seq<Byte>, w: nat, node: Node<Grant>, level: nat, a: Address, noWrite: bool)
    requires Whole(mem) && level <= 3 && Laid(mem, w, node, 3 - level, noWrite) && FullyShaped(node, 3 - level)
    requires level == 0 ==> w % 4 != TT_TYPE_BLOCK_ENTRY
    ensures Shaped(node, 3 - level) && 0 <= a % Span(3 - level) < Extent(node, 3 - level)
    ensures LookupOf(Descend(node, 3 - level, a % Span(3 - level)))
         == if level < 3 && w % 4 == 3 then ParsePageTableLevel(mem, NextTable(w), level + 1, a)
            else if w % 4 == (if level != 3 then 1 else 3) then Found(AttributesOf(w))
            else NotFound
    decreases 3 - level
  {
    hide Word, AttributesOf, NextTable, DeniesWrite;
    ChildExtent(node, 3 - level);
    if node.Table? {
      var s := Span(2 - level);
      Digit(a, s);
      DigitBound(a, s);
      var k := a / s % 512;
      var w' := Word(mem, NextTable(w) + 8 * k);
      assert Laid(mem, w', node.children[k], 2 - level, noWrite || DeniesWrite(w));
      EntryStep(mem, w', node.children[k], level + 1, a, noWrite || DeniesWrite(w));
    }
  }

  // ------------------------------------------------------- main results

  /** Found with its attributes exactly when some leaf owns a. */
  ghost predicate Agrees(mem: seq<Byte>, ttbr0: Address, t0sz: nat, root: Node<Grant>, a: Address)
    requires Whole(mem) && ttbr0 <= TWO48 && MIN_T0SZ <= t0sz <= MAX_T0SZ
    requires Shaped(root, RootDepth(t0sz))
  {
    var r := ParsePageTableLevel(mem, ttbr0, StartLevel(t0sz), a);
    && (r == NotFound <==> forall iv :: Owns(root, RootDepth(t0sz), 0, iv) ==> !Contains(iv, a))
    && forall iv :: Owns(root, RootDepth(t0sz), 0, iv) && Contains(iv, a) ==> r == Found(iv.info.attributes)
  }

  /** The address fits the input size that T0SZ sets. */
  predicate InputSized(t0sz: nat, a: Address)
    requires t0sz <= 64
  {
    a < Pow2(64 - t0sz)
  }

  /** The descriptor for a in the root table is a level-0 block, which the
      format does not have: the architecture takes it for an invalid one. */
  ghost predicate Level0Block(mem: seq<Byte>, ttbr0: Address, t0sz: nat, a: Address)
    requires Whole(mem) && ttbr0 <= TWO48 && MIN_T0SZ <= t0sz <= MAX_T0SZ
  {
    StartLevel(t0sz) == 0 && Word(mem, EntryFor(ttbr0, 0, a)) % 4 == TT_TYPE_BLOCK_ENTRY
  }

  lemma RootStep(mem: seq<Byte>, ttbr0: Address, t0sz: nat, root: Node<Grant>, a: Address)
    requires Whole(mem) && ttbr0 <= TWO48 && MIN_T0SZ <= t0sz <= MAX_T0SZ
    requires RootLaid(mem, ttbr0, t0sz, root) && Shaped(root, RootDepth(t0sz))
    requires InputSized(t0sz, a) && Extent(root, RootDepth(t0sz)) == Pow2(64 - t0sz)
    ensures var lookup, leaf := ParsePageTableLevel(mem, ttbr0, StartLevel(t0sz), a), Descend(root, RootDepth(t0sz), a);
            if Level0Block(mem, ttbr0, t0sz, a)
            then leaf == Absent && lookup == Found(AttributesOf(Word(mem, EntryFor(ttbr0, 0, a))))
            else lookup == LookupOf(leaf)
  {
    hide Word, AttributesOf, NextTable, Pow2;
    var level := StartLevel(t0sz);
    var s := Span(3 - level);
    IndexBound(a, |root.children|, s);
    var k := a / s;
    assert k % 512 == k;
    var w := Word(mem, ttbr0 + 8 * k);
    assert Laid(mem, w, root.children[k], 3 - level, false);
    if !Level0Block(mem, ttbr0, t0sz, a) {
      EntryStep(mem, w, root.children[k], level, a, false);
    }
  }

  /** For every address of the input size, the lookup agrees with the tables
      exactly if it does not come across a level-0 block. */
  lemma AgreesIffNoLevel0Block(mem: seq<Byte>, ttbr0: Address, t0sz: nat, root: Node<Grant>, a: Address)
    requires Whole(mem) && ttbr0 <= TWO48 && MIN_T0SZ <= t0sz <= MAX_T0SZ
    requires RootLaid(mem, ttbr0, t0sz, root) && Shaped(root, RootDepth(t0sz))
    requires InputSized(t0sz, a)
    ensures Agrees(mem, ttbr0, t0sz, root, a) <==> !Level0Block(mem, ttbr0, t0sz, a)
    ensures Level0Block(mem, ttbr0, t0sz, a) ==>
              && (forall iv :: Owns(root, RootDepth(t0sz), 0, iv) ==> !Contains(iv, a))
              && ParsePageTableLevel(mem, ttbr0, StartLevel(t0sz), a)
                 == Found(AttributesOf(Word(mem, EntryFor(ttbr0, 0, a))))
  {
    hide RootLaid, ParsePageTableLevel, Pow2, RootDepth, StartLevel, AttributesOf, Word, Level0Block, EntryFor;
    RootIsShaped(mem, ttbr0, t0sz, root);
    RootStep(mem, ttbr0, t0sz, root, a);
    var d := RootDepth(t0sz);
    forall iv | Owns(root, d, 0, iv) && Contains(iv, a)
      ensures Descend(root, d, a) == Leaf(iv.info)
    {
      OwnerIsDescended(root, d, 0, a, iv);
    }
    if Descend(root, d, a).Leaf? {
      var iv := DescendedOwns(root, d, 0, a);
    }
  }

  /** What the tables let the agent write: the leaf's access flag is set, since
      any access through it faults otherwise, its AP[2] is clear, and no table
      descriptor above denies writes. Reads need the access flag alone. */
  predicate ArchWritable(grant: Grant) {
    AccessFlag(grant.attributes) && AccessPermissions(grant.attributes) < 2 && !grant.noWrite
  }

  predicate ArchReadable(grant: Grant) {
    AccessFlag(grant.attributes)
  }

  /** The verdict on a mapped address is about the owning leaf's attributes
      alone. Device memory is always refused. On other memory the read verdict is
      the architecture's; the write verdict is if and only if AP is 0b10, or
      AP[2] is clear, the access flag set and no table above denies writes. */
  lemma AccessVerdicts(mem: seq<Byte>, ttbr0: Address, t0sz: nat, root: Node<Grant>, a: Address,
                       iv: Interval<Grant>)
    requires Whole(mem) && ttbr0 <= TWO48 && MIN_T0SZ <= t0sz <= MAX_T0SZ
    requires RootLaid(mem, ttbr0, t0sz, root) && Shaped(root, RootDepth(t0sz))
    requires InputSized(t0sz, a)
    requires Owns(root, RootDepth(t0sz), 0, iv) && Contains(iv, a)
    ensures forall write :: CheckPageAccess(mem, ttbr0, t0sz, a, write) == Allows(iv.info.attributes, write)
    ensures AttrIndex(iv.info.attributes) == TT_ATTR_INDX_DEVICE_MEMORY ==>
              forall write :: !CheckPageAccess(mem, ttbr0, t0sz, a, write)
    ensures AttrIndex(iv.info.attributes) != TT_ATTR_INDX_DEVICE_MEMORY ==>
              && CheckPageAccess(mem, ttbr0, t0sz, a, false) == ArchReadable(iv.info)
              && (CheckPageAccess(mem, ttbr0, t0sz, a, true) == ArchWritable(iv.info) <==> WriteVerdictIsRight(iv.info))
  {
    hide ParsePageTableLevel, InputSized, RootLaid, AttrIndex, AccessFlag, AccessPermissions, Pow2, RootDepth;
    hide Level0Block;
    AgreesIffNoLevel0Block(mem, ttbr0, t0sz, root, a);
    BelowKernel(t0sz, a);
    PermissionsBound(iv.info.attributes);
  }

  predicate WriteVerdictIsRight(grant: Grant) {
    var ap := AccessPermissions(grant.attributes);
    ap == 2 || (ap < 2 && AccessFlag(grant.attributes) && !grant.noWrite)
  }

  lemma PermissionsBound(attributes: nat)
    ensures 0 <= AccessPermissions(attributes) < 4
  {
  }

  lemma BelowKernel(t0sz: nat, a: Address)
    requires MIN_T0SZ <= t0sz && t0sz <= 64 && InputSized(t0sz, a)
    ensures a < 0xffff_f000_0000_0000
  {
    FourLevels();
    var d := 4;
    SpanIsPow2(d);
    Pow2Monotone(64 - t0sz, 12 + 9 * d);
  }

  lemma FourLevels()
    ensures Span(4) == TWO48
  {
    assert Span(1) == 512 * Span(0);
    assert Span(2) == 512 * Span(1);
    assert Span(3) == 512 * Span(2);
  }

  /** An address that no leaf owns is refused, unless a level-0 block in its
      place passes for a leaf. */
  lemma UnmappedIsRefused(mem: seq<Byte>, ttbr0: Address, t0sz: nat, root: Node<Grant>, a: Address, write: bool)
    requires Whole(mem) && ttbr0 <= TWO48 && MIN_T0SZ <= t0sz <= MAX_T0SZ
    requires RootLaid(mem, ttbr0, t0sz, root) && Shaped(root, RootDepth(t0sz))
    requires InputSized(t0sz, a)
    requires forall iv :: Owns(root, RootDepth(t0sz), 0, iv) ==> !Contains(iv, a)
    ensures CheckPageAccess(mem, ttbr0, t0sz, a, write) <==>
            && Level0Block(mem, ttbr0, t0sz, a)
            && Allows(AttributesOf(Word(mem, EntryFor(ttbr0, 0, a))), write)
  {
    hide ParsePageTableLevel, RootLaid, Level0Block, Pow2, InputSized, Allows, AttributesOf, Word, RootDepth;
    AgreesIffNoLevel0Block(mem, ttbr0, t0sz, root, a);
    BelowKernel(t0sz, a);
  }

  // ----------------------------------------- where the write verdict is wrong

  /** Tables of two levels for T0SZ 25, one entry each: 0x1000[0] -> 0x2000[0],
      a 2 MiB block with these low 16 bits. `high`: the top byte of the table descriptor. */
  ghost function TwoLevels(high: Byte, low: Byte, next: Byte): (mem: seq<Byte>)
    ensures Whole(mem)
  {
    seq(SPACE, x requires 0 <= x < SPACE => TwoLevelByte(high, low, next, x))
  }

  function TwoLevelByte(high: Byte, low: Byte, next: Byte, x: int): Byte {
    if x == 0x1000 then 0x03
    else if x == 0x1001 then 0x20
    else if x == 0x1007 then high
    else if x == 0x2000 then low
    else if x == 0x2001 then next
    else 0
  }

  lemma TwoLevelWord(high: Byte, low: Byte, next: Byte, i: nat)
    requires i < 512
    ensures Word(TwoLevels(high, low, next), 0x1000 + 8 * i)
         == if i == 0 then 0x2003 + high * 0x100_0000_0000_0000 else 0
    ensures Word(TwoLevels(high, low, next), 0x2000 + 8 * i) == if i == 0 then low + next * 0x100 else 0
  {
    var mem := TwoLevels(high, low, next);
    assert forall b: nat, j: nat :: b < 0x10000 && j < 8 ==> ByteAt(mem, b, j) == TwoLevelByte(high, low, next, b + j);
  }

  function OneEntry(node: Node<Grant>): (children: seq<Node<Grant>>)
    ensures |children| == 512
  {
    seq(512, i => if i == 0 then node else Absent)
  }

  function TwoLevelRoot(grant: Grant): (root: Node<Grant>)
    ensures FullyShaped(root, 3) && Shaped(root, 3)
  {
    var leaf: Node<Grant> := Leaf(grant);
    var inner := Table(OneEntry(leaf));
    assert FullyShaped(inner, 2);
    Table(OneEntry(inner))
  }

  lemma TwoLevelsLaid(high: Byte, low: Byte, next: Byte, grant: Grant)
    requires low % 4 == 1
    requires grant == Grant(AttributesOf(low + next * 0x100), DeniesWrite(0x2003 + high * 0x100_0000_0000_0000))
    ensures RootLaid(TwoLevels(high, low, next), 0x1000, 25, TwoLevelRoot(grant))
  {
    hide Word, TwoLevels, AttributesOf, DeniesWrite, NextTable, Pow2;
    var mem, leaf: Node<Grant>, w := TwoLevels(high, low, next), Leaf(grant), 0x2003 + high * 0x100_0000_0000_0000;
    NextOf(high);
    forall i: nat | i < 512
      ensures Laid(mem, Word(mem, 0x2000 + 8 * i), OneEntry(leaf)[i], 1, DeniesWrite(w))
    {
      TwoLevelWord(high, low, next, i);
    }
    assert Laid(mem, w, Table(OneEntry(leaf)), 2, false);
    forall i: nat | i < 512
      ensures Laid(mem, Word(mem, 0x1000 + 8 * i), OneEntry(Table(OneEntry(leaf)))[i], 2, false)
    {
      TwoLevelWord(high, low, next, i);
    }
    FullRoot();
  }

  lemma FullRoot()
    ensures RootEntries(25) == 512 && InputSized(25, 0x1000) && RootDepth(25) == 3
  {
    assert Pow2(9) == 512 && Pow2(13) == 0x2000;
    Pow2Monotone(13, 39);
  }

  lemma TwoLevelsOwn(grant: Grant)
    ensures Owns(TwoLevelRoot(grant), 3, 0, Interval(0, 0x20_0000, grant))
  {
    hide Span;
    var leaf: Node<Grant> := Leaf(grant);
    var iv := Interval(0, 0x20_0000, grant);
    SpanStep(0);
    assert Owns(OneEntry(leaf)[0], 1, ChildLo(0, 2, 0), iv);
    assert Owns(OneEntry(Table(OneEntry(leaf)))[0], 2, ChildLo(0, 3, 0), iv);
  }

  lemma SpanStep(d: nat)
    ensures Span(0) == 0x1000 && Span(d + 1) == 512 * Span(d)
  {
  }

  lemma NextOf(high: Byte)
    ensures NextTable(0x2003 + high * 0x100_0000_0000_0000) == 0x2000
  {
    var w := 0x2003 + high * 0x100_0000_0000_0000;
    assert w / 0x1000 == 2 + TWO36 * (high * 0x100);
  }

  /** Three pages of normal memory that are wrongly found writable: one whose
      leaf is read-only at every exception level (AP 0b11), one whose leaf has
      AP 0b00 and the access flag clear, and one whose leaf is in order but
      below a table descriptor that denies writes. */
  lemma WriteVerdictMisleads()
    ensures Misleads(TwoLevels(0, 0xC5, 4), Grant(0x4C4, false))
    ensures Misleads(TwoLevels(0, 5, 0), Grant(4, false))
    ensures Misleads(TwoLevels(0x40, 5, 4), Grant(0x404, true))
  {
    hide Misleads, TwoLevels;
    MisleadsIf(0, 0xC5, 4, Grant(0x4C4, false));
    MisleadsIf(0, 5, 0, Grant(4, false));
    MisleadsIf(0x40, 5, 4, Grant(0x404, true));
  }

  /** Address 0x1000 is found writable, and the tables do not let it be written. */
  ghost predicate Misleads(mem: seq<Byte>, grant: Grant) {
    && Whole(mem) && CheckPageAccess(mem, 0x1000, 25, 0x1000, true) && !ArchWritable(grant)
    && exists root, iv :: Maps(mem, root, iv, grant)
  }

  /** The tables grant this at address 0x1000. */
  ghost predicate Maps(mem: seq<Byte>, root: Node<Grant>, iv: Interval<Grant>, grant: Grant)
    requires Whole(mem)
  {
    && RootLaid(mem, 0x1000, 25, root) && Shaped(root, RootDepth(25))
    && Owns(root, RootDepth(25), 0, iv) && Contains(iv, 0x1000) && iv.info == grant
  }

  lemma MisleadsIf(high: Byte, low: Byte, next: Byte, grant: Grant)
    requires low % 4 == 1 && next < 16
    requires grant == Grant(low + next * 0x100 - 1, high / 0x40 % 2 == 1)
    requires AttrIndex(grant.attributes) == 1 && !WriteVerdictIsRight(grant)
    ensures Misleads(TwoLevels(high, low, next), grant)
  {
    hide TwoLevels, CheckPageAccess, AttrIndex, AccessPermissions, AccessFlag, RootLaid, InputSized, RootDepth;
    hide AttributesOf, DeniesWrite, TwoLevelRoot;
    var mem, root, iv := TwoLevels(high, low, next), TwoLevelRoot(grant), Interval(0, 0x20_0000, grant);
    GrantOf(high, low, next);
    TwoLevelsLaid(high, low, next, grant);
    TwoLevelsOwn(grant);
    FullRoot();
    AccessVerdicts(mem, 0x1000, 25, root, 0x1000, iv);
    PermissionsBound(grant.attributes);
    assert Maps(mem, root, iv, grant);
  }

  lemma GrantOf(high: Byte, low: Byte, next: Byte)
    requires low % 4 == 1 && next < 16
    ensures AttributesOf(low + next * 0x100) == low + next * 0x100 - 1
    ensures DeniesWrite(0x2003 + high * 0x100_0000_0000_0000) <==> high / 0x40 % 2 == 1
  {
    TopBits(high);
    LowBits(low + next * 0x100);
  }

  lemma TopBits(high: Byte)
    ensures (0x2003 + high * 0x100_0000_0000_0000) / 0x4000_0000_0000_0000 == high / 0x40
  {
  }

  lemma LowBits(w: nat)
    requires w < 0x1000 && w % 4 == 1
    ensures AttributesOf(w) == w - 1
  {
    assert w / 0x10_0000_0000_0000 == 0;
    assert w / 4 % 0x400 == w / 4;
  }

  // --------------------------- addresses beyond the input size wrap around

  /** Memory in which every aligned word is a block descriptor of normal memory
      with the access flag set, except that with
      a root table of level 0, at 0x1000, its words are table descriptors. */
  ghost function AllBlocks(level: nat): (mem: seq<Byte>)
    ensures Whole(mem)
  {
    seq(SPACE, x requires 0 <= x < SPACE => AllBlocksByte(level, x))
  }

  function AllBlocksByte(level: nat, x: int): Byte {
    var inRoot := level == 0 && 0x1000 <= x < 0x2000;
    if x % 8 == 0 then (if inRoot then 3 else 5)
    else if x % 8 == 1 then (if inRoot then 0x20 else 4)
    else 0
  }

  lemma AllBlocksWord(level: nat, i: nat)
    requires i < 512
    ensures Word(AllBlocks(level), 0x1000 + 8 * i) == if level == 0 then 0x2003 else 0x405
    ensures Word(AllBlocks(level), 0x2000 + 8 * i) == 0x405
  {
    hide Word;
    AllBlocksBytes(level, 0x1000 + 8 * i);
    AllBlocksBytes(level, 0x2000 + 8 * i);
  }

  lemma AllBlocksBytes(level: nat, e: Address)
    requires e % 8 == 0 && 0x1000 <= e < 0x3000
    ensures Word(AllBlocks(level), e) == if level == 0 && e < 0x2000 then 0x2003 else 0x405
  {
    var mem := AllBlocks(level);
    assert e / 0x1000 == 1 <==> e < 0x2000;
    forall j: nat | j < 8
      ensures ByteAt(mem, e, j) == if j < 2 then AllBlocksByte(level, e + j) else 0
    {
      assert ByteAt(mem, e, j) == AllBlocksByte(level, e + j);
    }
    TwoByteWord(mem, e);
  }

  lemma TwoByteWord(mem: seq<Byte>, e: Address)
    requires Whole(mem) && forall j: nat :: 2 <= j < 8 ==> ByteAt(mem, e, j) == 0
    ensures Word(mem, e) == ByteAt(mem, e, 0) + 0x100 * ByteAt(mem, e, 1)
  {
  }

  /** Leaves of a root table stay within what it covers. */
  lemma RootLeavesInside<T>(root: Node<T>, d: nat, iv: Interval<T>)
    requires Shaped(root, d) && root.Table? && Owns(root, d, 0, iv)
    ensures iv.lo + iv.size <= Extent(root, d)
  {
    hide Span;
    var i :| 0 <= i < |root.children| && Owns(root.children[i], d - 1, ChildLo(0, d, i), iv);
    LeavesInside(root.children[i], d - 1, ChildLo(0, d, i), iv);
    MulLe(i + 1, |root.children|, Span(d - 1));
    assert ChildLo(0, d, i) + Span(d - 1) == (i + 1) * Span(d - 1);
  }

  /** The lookup says what the tables say about a, whatever tables there are
      without level-0 blocks. */
  ghost predicate AlwaysAgrees(t0sz: nat, a: Address)
    requires MIN_T0SZ <= t0sz <= MAX_T0SZ
  {
    forall mem: seq<Byte>, ttbr0: Address, root: Node<Grant> ::
      Whole(mem) && ttbr0 <= TWO48 && RootLaid(mem, ttbr0, t0sz, root) && Shaped(root, RootDepth(t0sz))
      && !Level0Block(mem, ttbr0, t0sz, a) ==>
        Agrees(mem, ttbr0, t0sz, root, a)
  }

  /** The lookup is right for every table tree at exactly the addresses below
      2^(64 - T0SZ): beyond, there are tables in which it finds a leaf that owns nothing there. */
  lemma AgreesIffInputSized(t0sz: nat, a: Address)
    requires MIN_T0SZ <= t0sz <= MAX_T0SZ
    ensures AlwaysAgrees(t0sz, a) <==> InputSized(t0sz, a)
  {
    hide RootLaid, Agrees, InputSized, Level0Block, AllBlocks;
    if InputSized(t0sz, a) {
      forall mem: seq<Byte>, ttbr0: Address, root: Node<Grant> |
        Whole(mem) && ttbr0 <= TWO48 && RootLaid(mem, ttbr0, t0sz, root) && Shaped(root, RootDepth(t0sz))
        && !Level0Block(mem, ttbr0, t0sz, a)
        ensures Agrees(mem, ttbr0, t0sz, root, a)
      {
        AgreesIffNoLevel0Block(mem, ttbr0, t0sz, root, a);
      }
    } else {
      var root := BlocksMislead(t0sz, a);
    }
  }

  lemma BlocksMislead(t0sz: nat, a: Address) returns (root: Node<Grant>)
    requires MIN_T0SZ <= t0sz <= MAX_T0SZ && !InputSized(t0sz, a)
    ensures RootLaid(AllBlocks(StartLevel(t0sz)), 0x1000, t0sz, root) && Shaped(root, RootDepth(t0sz))
    ensures !Level0Block(AllBlocks(StartLevel(t0sz)), 0x1000, t0sz, a)
    ensures !Agrees(AllBlocks(StartLevel(t0sz)), 0x1000, t0sz, root, a)
  {
    hide Word, AllBlocks, Pow2, Span, RootLaid, Laid;
    var level := StartLevel(t0sz);
    var mem := AllBlocks(level);
    root := BlocksLaid(t0sz);
    RootIsShaped(mem, 0x1000, t0sz, root);
    DigitBound(a, Span(3 - level));
    AllBlocksWord(level, a / Span(3 - level) % 512);
    if level == 0 {
      assert NextTable(0x2003) == 0x2000;
      DigitBound(a, Span(2));
      AllBlocksWord(level, a / Span(2) % 512);
    }
    forall iv | Owns(root, RootDepth(t0sz), 0, iv)
      ensures !Contains(iv, a)
    {
      RootLeavesInside(root, RootDepth(t0sz), iv);
    }
  }

  /** Blocks wherever the format has them: in the root table, or one level below. */
  lemma BlocksLaid(t0sz: nat) returns (root: Node<Grant>)
    requires MIN_T0SZ <= t0sz <= MAX_T0SZ
    ensures root.Table? && RootLaid(AllBlocks(StartLevel(t0sz)), 0x1000, t0sz, root)
  {
    hide Word, AllBlocks, Pow2, AttributesOf;
    var level, leaf: Node<Grant> := StartLevel(t0sz), Leaf(Grant(AttributesOf(0x405), false));
    var mem := AllBlocks(level);
    var inner := Table(seq(512, _ => leaf));
    assert NextTable(0x2003) == 0x2000 && !DeniesWrite(0x2003);
    forall i: nat | i < 512
      ensures Laid(mem, Word(mem, 0x2000 + 8 * i), leaf, 2, false)
    {
      AllBlocksWord(level, i);
    }
    assert Laid(mem, 0x2003, inner, 3, false);
    root := Table(seq(RootEntries(t0sz), _ => if level == 0 then inner else leaf));
    forall i | 0 <= i < RootEntries(t0sz)
      ensures Laid(mem, Word(mem, 0x1000 + 8 * i), root.children[i], RootDepth(t0sz) - 1, false)
    {
      AllBlocksWord(level, i);
    }
  }

  // --------------------------------------------- the verdict on any tables

  /** From 0xffff_f000_0000_0000 on nothing is ever accessible; below that, every
      address is, for some tables. */
  lemma CutOff(a: Address, write: bool)
    ensures Reachable(a, write) <==> a < 0xffff_f000_0000_0000
  {
    if a < 0xffff_f000_0000_0000 {
      hide CheckPageAccess, AllBlocks;
      AllAccessible(a, write);
    }
  }

  lemma AllAccessible(a: Address, write: bool)
    requires a < 0xffff_f000_0000_0000
    ensures CheckPageAccess(AllBlocks(1), 0x1000, 25, a, write)
  {
    hide Word, AllBlocks, Pow2, Span, Allows, AttributesOf;
    assert StartLevel(25) == 1;
    DigitBound(a, Span(2));
    AllBlocksWord(1, a / Span(2) % 512);
    LowBits(0x405);
    NormalBlock(write);
  }

  lemma NormalBlock(write: bool)
    ensures Allows(0x404, write)
  {
  }

  ghost predicate Reachable(a: Address, write: bool) {
    exists mem: seq<Byte>, ttbr0: Address, t0sz: nat ::
      Whole(mem) && ttbr0 <= TWO48 && MIN_T0SZ <= t0sz <= MAX_T0SZ && CheckPageAccess(mem, ttbr0, t0sz, a, write)
  }

  /** Whether 0x1000 is found readable, and whether writable, below this block
      descriptor. */
  ghost predicate Verdicts(low: Byte, next: Byte, read: bool, write: bool) {
    && CheckPageAccess(TwoLevels(0, low, next), 0x1000, 25, 0x1000, false) == read
    && CheckPageAccess(TwoLevels(0, low, next), 0x1000, 25, 0x1000, true) == write
  }

  /** The verdict on every kind of block: AttrIndx in bits 2 to 4, AP in bits 6
      and 7, the access flag in bit 10. */
  lemma BlockVerdicts()
    ensures Verdicts(0x05, 4, true, true) && Verdicts(0x45, 4, true, true)   // AP 0b00, 0b01
    ensures Verdicts(0x85, 4, true, false) && Verdicts(0xC5, 4, true, true)  // AP 0b10, 0b11
    ensures Verdicts(0x05, 0, false, true) && Verdicts(0x85, 0, false, false) // no access flag
    ensures Verdicts(0x01, 4, false, false) && Verdicts(0x41, 4, false, false) // device memory
    ensures Verdicts(0x09, 4, true, true) && Verdicts(0x11, 4, true, true)   // AttrIndx 2, 4
    ensures Verdicts(0x04, 4, false, false)                                  // not valid
  {
    hide Verdicts, Allows;
    Blocks();
    BlockVerdict(0x05, 4);
    BlockVerdict(0x45, 4);
    BlockVerdict(0x85, 4);
    BlockVerdict(0xC5, 4);
    BlockVerdict(0x05, 0);
    BlockVerdict(0x85, 0);
    BlockVerdict(0x01, 4);
    BlockVerdict(0x41, 4);
    BlockVerdict(0x09, 4);
    BlockVerdict(0x11, 4);
    BlockVerdict(0x04, 4);
  }

  lemma Blocks()
    ensures forall write :: Allows(0x404, write) && Allows(0x444, write) && Allows(0x408, write) && Allows(0x410, write)
    ensures Allows(0x484, false) && !Allows(0x484, true) && Allows(0x4C4, false) && Allows(0x4C4, true)
    ensures !Allows(0x04, false) && Allows(0x04, true) && !Allows(0x84, false) && !Allows(0x84, true)
    ensures forall write :: !Allows(0x400, write) && !Allows(0x440, write)
  {
  }

  lemma BlockVerdict(low: Byte, next: Byte)
    requires next < 16 && low % 4 <= 1
    ensures var v := low + 0x100 * (next as int);
            if low % 4 == 1 then Verdicts(low, next, Allows(v - 1, false), Allows(v - 1, true))
            else Verdicts(low, next, false, false)
  {
    hide ParsePageTableLevel, TwoLevels, Allows;
    TwoLevelLookup(low, next);
  }

  lemma TwoLevelLookup(low: Byte, next: Byte)
    requires next < 16 && low % 4 <= 1
    ensures StartLevel(25) == 1
    ensures ParsePageTableLevel(TwoLevels(0, low, next), 0x1000, 1, 0x1000)
         == if low % 4 == 1 then Found(low + 0x100 * (next as int) - 1) else NotFound
  {
    hide Word, TwoLevels, AttributesOf, NextTable;
    TwoLevelWord(0, low, next, 0);
    NextOf(0);
    Spans();
    if low % 4 == 1 { LowBits(low + next * 0x100); }
  }

  lemma Spans()
    ensures Span(1) == 0x20_0000 && Span(2) == 0x4000_0000
  {
    SpanStep(0);
    SpanStep(1);
  }
}
