/** The X64 page walk, against page tables laid out in memory as section 4.5 of
    Intel SDM volume 3A describes them. */
module PageWalkX64 {
  import opened Bytes
  import opened Memory
  import opened PageTree
  import opened BitFields

  datatype PageIs = NotValid | IsReadOnly | IsReadWrite

  const TWO24: int := 0x100_0000
  const TWO36: int := 0x10_0000_0000
  const TWO39: int := 0x80_0000_0000
  const TWO40: int := 0x100_0000_0000
  const TWO48: int := 0x1_0000_0000_0000
  const TWO57: int := 0x200_0000_0000_0000

  // Bits of an entry.

  predicate Present(w: nat) { w % 2 == 1 }

  predicate ReadWrite(w: nat) { w / 2 % 2 == 1 }

  predicate MustBe1(w: nat) { w / 128 % 2 == 1 }

  // ------------------------------------------------ the code (AddressCheck.c)

  /** w & ADDRESS_BITS: bits 12 to 35 only. */
  function AddressBits(w: nat): (base: Address)
    ensures base < TWO36
  {
    w / 0x1000 % TWO24 * 0x1000
  }

  function Pml5Index(a: Address): nat { a / TWO48 % 512 * 2 } // shifted by 47, not 48

  function Pml4Index(a: Address): nat { a / TWO39 % 512 }

  function PdpteIndex(a: Address): nat { a / 0x4000_0000 % 512 }

  function PdeIndex(a: Address): nat { a / 0x20_0000 % 512 }

  function PteIndex(a: Address): nat { a / 0x1000 % 512 }

  function Verdict(w: nat): PageIs {
    if ReadWrite(w) then IsReadWrite else IsReadOnly
  }

  ghost function CheckPte(mem: seq<Byte>, pde: nat, a: Address): PageIs
    requires Whole(mem)
  {
    var pte := AddressBits(pde) + 8 * PteIndex(a);
    if pte == 0 then NotValid
    else if !Present(Word(mem, pte)) then NotValid
    else Verdict(Word(mem, pte))
  }

  ghost function CheckPde(mem: seq<Byte>, pdpte: nat, a: Address): PageIs
    requires Whole(mem)
  {
    var pde := AddressBits(pdpte) + 8 * PdeIndex(a);
    if pde == 0 then NotValid
    else if !Present(Word(mem, pde)) then NotValid
    else if MustBe1(Word(mem, pde)) then Verdict(Word(mem, pde))
    else CheckPte(mem, Word(mem, pde), a)
  }

  ghost function CheckPdpte(mem: seq<Byte>, pml4e: nat, a: Address): PageIs
    requires Whole(mem)
  {
    var pdpte := AddressBits(pml4e) + 8 * PdpteIndex(a);
    if pdpte == 0 then NotValid
    else if !Present(Word(mem, pdpte)) then NotValid
    else if MustBe1(Word(mem, pdpte)) then Verdict(Word(mem, pdpte))
    else CheckPde(mem, Word(mem, pdpte), a)
  }

  predicate Excluded(a: Address) {
    a == 0 || 0x8300_0000 <= a <= 0x87c0_0000
  }

  /** GetPageIs. The indices into the top one or two tables are added as byte
      offsets, as the casts in the source have it. */
  ghost function GetPageIs(mem: seq<Byte>, cr3: nat, la57: bool, a: Address): PageIs
    requires Whole(mem)
  {
    if Excluded(a) then NotValid
    else
      var top := AddressBits(cr3);
      if top == 0 then NotValid
      else if la57 && !Present(Word(mem, top + Pml5Index(a))) then NotValid
      else
        var pml4 := (if la57 then AddressBits(Word(mem, top + Pml5Index(a))) else top) + Pml4Index(a);
        if pml4 == 0 then NotValid
        else if !Present(Word(mem, pml4)) then NotValid
        else CheckPdpte(mem, Word(mem, pml4), a)
  }

  ghost predicate IsPageReadable(mem: seq<Byte>, cr3: nat, la57: bool, a: Address)
    requires Whole(mem)
  {
    GetPageIs(mem, cr3, la57, a) != NotValid
  }

  ghost predicate IsPageWritable(mem: seq<Byte>, cr3: nat, la57: bool, a: Address)
    requires Whole(mem)
  {
    GetPageIs(mem, cr3, la57, a) == IsReadWrite
  }

  // ---------------------------------------------------- the architecture

  /** The table address in an entry: bits 12 to 51. */
  function Frame(w: nat): Address {
    w / 0x1000 % TWO40 * 0x1000
  }

  /** What a leaf grants: its own R/W bit, and whether all entries above have theirs. */
  datatype Rights = Rights(readWrite: bool, above: bool)

  /** Which tables there are: their addresses are from lo up to but not
      including hi, and some present entries may have reserved bits set. */
  datatype Layout = Layout(lo: nat, hi: nat, reserved: bool)

  predicate InPlace(w: nat, layout: Layout) {
    layout.lo <= Frame(w) < layout.hi
  }

  /** Reserved bits set, given that bit 7 is: in the top tables that bit itself,
      in a large page the low address bits above bit 12. Any access faults. */
  predicate Reserved(w: nat, d: nat) {
    && MustBe1(w)
    && (d >= 3 || (d == 2 && w / 0x2000 % 0x2_0000 != 0) || (d == 1 && w / 0x2000 % 0x100 != 0))
  }

  /** The entry w, d levels above the page entries, stands for this node;
      `above`: all entries above it have their R/W bit. */
  ghost predicate Laid(mem: seq<Byte>, w: nat, node: Node<Rights>, d: nat, above: bool, layout: Layout)
    requires Whole(mem)
    decreases node
  {
    match node
    case Absent => !Present(w) || (layout.reserved && Reserved(w, d))
    case Leaf(rights) =>
      && d <= 2 && Present(w) && (d > 0 ==> MustBe1(w) && !Reserved(w, d))
      && rights == Rights(ReadWrite(w), above)
    case Table(children) =>
      && d > 0 && Present(w) && !MustBe1(w)
      && TableLaid(mem, w, children, d, above && ReadWrite(w), layout)
  }

  ghost predicate TableLaid(mem: seq<Byte>, w: nat, children: seq<Node<Rights>>, d: nat, above: bool, layout: Layout)
    requires Whole(mem) && d > 0
    decreases children
  {
    && InPlace(w, layout) && |children| == 512
    && forall i :: 0 <= i < 512 ==> Laid(mem, Word(mem, Frame(w) + 8 * i), children[i], d - 1, above, layout)
  }

  function Levels(la57: bool): nat {
    if la57 then 5 else 4
  }

  /** CR3 points at a top table that stands for root. */
  ghost predicate RootLaid(mem: seq<Byte>, cr3: nat, la57: bool, root: Node<Rights>, layout: Layout)
    requires Whole(mem)
  {
    root.Table? && TableLaid(mem, cr3, root.children, Levels(la57), true, layout)
  }

  lemma {:induction false} LaidIsShaped(mem: seq<Byte>, w: nat, node: Node<Rights>, d: nat, above: bool,
                                         layout: Layout)
    requires Whole(mem) && Laid(mem, w, node, d, above, layout)
    ensures FullyShaped(node, d)
    decreases node
  {
    if node.Table? {
      forall i | 0 <= i < 512
        ensures FullyShaped(node.children[i], d - 1)
      {
        LaidIsShaped(mem, Word(mem, Frame(w) + 8 * i), node.children[i], d - 1, above && ReadWrite(w), layout);
      }
    }
  }

  lemma RootIsShaped(mem: seq<Byte>, cr3: nat, la57: bool, root: Node<Rights>, layout: Layout)
    requires Whole(mem) && RootLaid(mem, cr3, la57, root, layout)
    ensures FullyShaped(root, Levels(la57)) && Shaped(root, Levels(la57))
  {
    forall i | 0 <= i < 512
      ensures FullyShaped(root.children[i], Levels(la57) - 1)
    {
      LaidIsShaped(mem, Word(mem, Frame(cr3) + 8 * i), root.children[i], Levels(la57) - 1, true, layout);
    }
  }

  /** Tables that the walk can tell: not at address 0, below 2^36, and without
      reserved bits set. */
  predicate Suits(layout: Layout) {
    0 < layout.lo && layout.hi <= TWO36 && !layout.reserved
  }

  lemma LowFrame(w: nat, layout: Layout)
    requires InPlace(w, layout) && Suits(layout)
    ensures AddressBits(w) == Frame(w) != 0
  {
    var x := w / 0x1000;
    var y := x % TWO40;
    assert y < TWO24;
    assert x == y + TWO24 * (0x1_0000 * (x / TWO40));
    DivModUnique(y, TWO24, 0x1_0000 * (x / TWO40));
  }

  function VerdictOf(node: Node<Rights>): PageIs
    requires !node.Table?
  {
    match node
    case Absent => NotValid
    case Leaf(rights) => if rights.readWrite then IsReadWrite else IsReadOnly
  }

  // One level of the walk at a time.

  lemma Spans()
    ensures Span(0) == 0x1000 && Span(1) == 0x20_0000 && Span(2) == 0x4000_0000 && Span(3) == TWO39
    ensures Span(4) == TWO48
  {
    assert Span(1) == 512 * Span(0);
    assert Span(2) == 512 * Span(1);
    assert Span(3) == 512 * Span(2);
    assert Span(4) == 512 * Span(3);
  }

  lemma Digits(a: Address)
    ensures a % 0x20_0000 / 0x1000 == PteIndex(a)
    ensures a % 0x4000_0000 / 0x20_0000 == PdeIndex(a) && a % 0x4000_0000 % 0x20_0000 == a % 0x20_0000
    ensures a % TWO39 / 0x4000_0000 == PdpteIndex(a) && a % TWO39 % 0x4000_0000 == a % 0x4000_0000
  {
    Digit(a, 0x1000);
    Digit(a, 0x20_0000);
    Digit(a, 0x4000_0000);
  }

  lemma PteStep(mem: seq<Byte>, pde: nat, node: Node<Rights>, a: Address, above: bool, layout: Layout)
    requires Whole(mem) && node.Table? && Laid(mem, pde, node, 1, above, layout)
    requires FullyShaped(node, 1) && Suits(layout)
    ensures a % 0x20_0000 < Extent(node, 1)
    ensures CheckPte(mem, pde, a) == VerdictOf(Descend(node, 1, a % 0x20_0000))
  {
    hide Word, PteIndex, PdeIndex, PdpteIndex;
    Spans();
    var above' := above && ReadWrite(pde);
    LowFrame(pde, layout);
    var k := PteIndex(a);
    Digits(a);
    assert Laid(mem, Word(mem, Frame(pde) + 8 * k), node.children[k], 0, above', layout);
  }

  lemma PdeStep(mem: seq<Byte>, pdpte: nat, node: Node<Rights>, a: Address, above: bool, layout: Layout)
    requires Whole(mem) && node.Table? && Laid(mem, pdpte, node, 2, above, layout)
    requires FullyShaped(node, 2) && Suits(layout)
    ensures a % 0x4000_0000 < Extent(node, 2)
    ensures CheckPde(mem, pdpte, a) == VerdictOf(Descend(node, 2, a % 0x4000_0000))
  {
    hide Word, PteIndex, PdeIndex, PdpteIndex;
    Spans();
    var above' := above && ReadWrite(pdpte);
    LowFrame(pdpte, layout);
    var k := PdeIndex(a);
    Digits(a);
    assert Laid(mem, Word(mem, Frame(pdpte) + 8 * k), node.children[k], 1, above', layout);
    if node.children[k].Table? { PteStep(mem, Word(mem, Frame(pdpte) + 8 * k), node.children[k], a, above', layout); }
  }

  lemma PdpteStep(mem: seq<Byte>, pml4e: nat, node: Node<Rights>, a: Address, above: bool, layout: Layout)
    requires Whole(mem) && node.Table? && Laid(mem, pml4e, node, 3, above, layout)
    requires FullyShaped(node, 3) && Suits(layout)
    ensures a % TWO39 < Extent(node, 3)
    ensures CheckPdpte(mem, pml4e, a) == VerdictOf(Descend(node, 3, a % TWO39))
  {
    hide Word, PteIndex, PdeIndex, PdpteIndex;
    Spans();
    var above' := above && ReadWrite(pml4e);
    LowFrame(pml4e, layout);
    var k := PdpteIndex(a);
    Digits(a);
    assert Laid(mem, Word(mem, Frame(pml4e) + 8 * k), node.children[k], 2, above', layout);
    if node.children[k].Table? { PdeStep(mem, Word(mem, Frame(pml4e) + 8 * k), node.children[k], a, above', layout); }
  }

  // ------------------------------------------------------- main results

  /** The walk says what the tables say about a: not valid exactly when no leaf
      owns it, and otherwise the R/W bit of the leaf that does. */
  ghost predicate Agrees(mem: seq<Byte>, cr3: nat, la57: bool, root: Node<Rights>, a: Address)
    requires Whole(mem) && Shaped(root, Levels(la57))
  {
    var v := GetPageIs(mem, cr3, la57, a);
    && (v == NotValid <==> forall iv :: Owns(root, Levels(la57), 0, iv) ==> !Contains(iv, a))
    && forall iv :: Owns(root, Levels(la57), 0, iv) && Contains(iv, a) ==>
         v == if iv.info.readWrite then IsReadWrite else IsReadOnly
  }

  /** The condition on an address under which the top-level indices vanish. */
  predicate LowIndices(la57: bool, a: Address) {
    Pml4Index(a) == 0 && (la57 ==> Pml5Index(a) == 0)
  }

  /** Addresses that the top table covers. */
  predicate Covered(la57: bool, a: Address) {
    if la57 then a < TWO57 else a < TWO48
  }

  lemma LowIsBelow(la57: bool, a: Address)
    requires Covered(la57, a)
    ensures LowIndices(la57, a) <==> a < TWO39
  {
    if LowIndices(la57, a) {
      assert a / TWO48 == 0;
    }
  }

  /** The top table of a four-level walk, below 2^39: its first entry decides. */
  lemma Pml4Step(mem: seq<Byte>, e: nat, node: Node<Rights>, a: Address, above: bool, layout: Layout)
    requires Whole(mem) && node.Table? && TableLaid(mem, e, node.children, 4, above, layout) && FullyShaped(node, 4)
    requires a < TWO39 && Suits(layout)
    ensures Shaped(node, 4) && a < TWO39 <= Extent(node, 4)
    ensures var w := Word(mem, AddressBits(e));
            (if Present(w) then CheckPdpte(mem, w, a) else NotValid) == VerdictOf(Descend(node, 4, a))
  {
    hide Word, CheckPdpte, AddressBits;
    Spans();
    LowFrame(e, layout);
    var w := Word(mem, Frame(e) + 8 * 0);
    var top := node.children[0];
    assert Laid(mem, w, top, 3, above, layout);
    assert FullyShaped(top, 3);
    assert a / TWO39 == 0 && a % TWO39 == a;
    assert Descend(node, 4, a) == Descend(top, 3, a);
    if top.Table? { PdpteStep(mem, w, top, a, above, layout); }
  }

  lemma WalkIsDescend(mem: seq<Byte>, cr3: nat, la57: bool, root: Node<Rights>, a: Address, layout: Layout)
    requires Whole(mem) && RootLaid(mem, cr3, la57, root, layout) && FullyShaped(root, Levels(la57)) && Suits(layout)
    requires !Excluded(a) && Covered(la57, a) && LowIndices(la57, a)
    ensures a < TWO39 <= Extent(root, Levels(la57))
    ensures GetPageIs(mem, cr3, la57, a) == VerdictOf(Descend(root, Levels(la57), a))
  {
    hide Word, CheckPdpte, AddressBits;
    Spans();
    LowFrame(cr3, layout);
    assert a < TWO39;
    if la57 {
      var w := Word(mem, Frame(cr3) + 8 * 0);
      var top := root.children[0];
      assert Laid(mem, w, top, 4, true, layout);
      assert FullyShaped(top, 4);
      assert a / TWO48 == 0 && a % TWO48 == a;
      assert Descend(root, 5, a) == Descend(top, 4, a);
      if top.Table? {
        assert TableLaid(mem, w, top.children, 4, ReadWrite(w), layout);
        LowFrame(w, layout);
        Pml4Step(mem, w, top, a, ReadWrite(w), layout);
      }
    } else {
      Pml4Step(mem, cr3, root, a, true, layout);
    }
  }

  /** Below 2^39 the walk agrees with every table tree that suits it. */
  lemma WalkAgrees(mem: seq<Byte>, cr3: nat, la57: bool, root: Node<Rights>, a: Address, layout: Layout)
    requires Whole(mem) && RootLaid(mem, cr3, la57, root, layout) && Shaped(root, Levels(la57))
    requires !Excluded(a) && a < TWO39 && Suits(layout)
    ensures Agrees(mem, cr3, la57, root, a)
  {
    hide Word;
    LowIsBelow(la57, a);
    RootIsShaped(mem, cr3, la57, root, layout);
    WalkIsDescend(mem, cr3, la57, root, a, layout);
    var d := Levels(la57);
    forall iv | Owns(root, d, 0, iv) && Contains(iv, a)
      ensures Descend(root, d, a) == Leaf(iv.info)
    {
      OwnerIsDescended(root, d, 0, a, iv);
    }
    if Descend(root, d, a).Leaf? {
      var iv := DescendedOwns(root, d, 0, a);
    }
  }

  /** What the tables let the agent write under CR0.WP: every entry on the way
      has its R/W bit. */
  predicate ArchWritable(rights: Rights) {
    rights.readWrite && rights.above
  }

  /** Where the walk agrees with the tables, a mapped page is found readable, and
      its write verdict is the architecture's if and only if the leaf is
      read-only or nothing above it is. */
  lemma WriteVerdict(mem: seq<Byte>, cr3: nat, la57: bool, root: Node<Rights>, a: Address, iv: Interval<Rights>)
    requires Whole(mem) && Shaped(root, Levels(la57)) && Agrees(mem, cr3, la57, root, a)
    requires Owns(root, Levels(la57), 0, iv) && Contains(iv, a)
    ensures IsPageReadable(mem, cr3, la57, a)
    ensures IsPageWritable(mem, cr3, la57, a) == ArchWritable(iv.info) <==> !iv.info.readWrite || iv.info.above
  {
    hide GetPageIs;
  }

  /** Within a page the verdict can only turn better after the first byte. */
  lemma PageUniform(mem: seq<Byte>, cr3: nat, la57: bool, a: Address, b: Address)
    requires Whole(mem) && a / PAGE == b / PAGE && a <= b
    requires IsPageReadable(mem, cr3, la57, a)
    ensures GetPageIs(mem, cr3, la57, b) == GetPageIs(mem, cr3, la57, a)
  {
    hide Word, AddressBits, Present, MustBe1, ReadWrite;
    SameIndices(a, b);
  }

  /** The verdict varies inside a page only at the first byte of page 0 and at
      the first byte of page 0x87c00000, both of them refused. */
  lemma PageVaries(mem: seq<Byte>, cr3: nat, la57: bool, a: Address, b: Address)
    requires Whole(mem) && a / PAGE == b / PAGE && a <= b
    requires GetPageIs(mem, cr3, la57, a) != GetPageIs(mem, cr3, la57, b)
    ensures a in {0, 0x87c0_0000} && GetPageIs(mem, cr3, la57, a) == NotValid
  {
    hide Word, AddressBits, Present, MustBe1, ReadWrite, PteIndex, PdeIndex, PdpteIndex, Pml4Index, Pml5Index;
    SameIndices(a, b);
    SamePageEnds(a, b);
  }

  lemma SamePageEnds(a: Address, b: Address)
    requires a / PAGE == b / PAGE && a <= b
    ensures Excluded(a) != Excluded(b) ==> a in {0, 0x87c0_0000}
  {
    assert a >= a / PAGE * PAGE && b < a / PAGE * PAGE + PAGE;
  }

  lemma SameIndices(a: Address, b: Address)
    requires a / PAGE == b / PAGE
    ensures PteIndex(a) == PteIndex(b) && PdeIndex(a) == PdeIndex(b) && PdpteIndex(a) == PdpteIndex(b)
    ensures Pml4Index(a) == Pml4Index(b) && Pml5Index(a) == Pml5Index(b)
  {
    IndicesOfPage(a);
    IndicesOfPage(b);
  }

  lemma IndicesOfPage(a: Address)
    ensures a / 0x20_0000 == a / PAGE / 0x200 && a / 0x4000_0000 == a / PAGE / 0x4_0000
    ensures a / TWO39 == a / PAGE / 0x800_0000 && a / TWO48 == a / PAGE / 0x10_0000_0000
  {
  }

  // --------------------------------------------- where the walk goes wrong

  /** One entry in each of three tables, at t5, t4 and t3: t5[k5] -> t4[k4] ->
      t3[k3], a 1 GiB leaf. `flags`: the low byte of the entry in t4. */
  datatype Chain = Chain(t5: nat, t4: nat, t3: nat, k5: nat, k4: nat, k3: nat, flags: Byte, leaf: nat)

  predicate Well(c: Chain) {
    && TableAddress(c.t5) && TableAddress(c.t4) && TableAddress(c.t3)
    && Apart(c.t5, c.t4) && Apart(c.t5, c.t3) && Apart(c.t4, c.t3)
    && c.k5 < 512 && c.k4 < 512 && c.k3 < 512
    && c.flags in {1, 3} && c.leaf in {0x83, 0x2083}
  }

  predicate TableAddress(t: int) {
    t in {0, 0x1000, 0x2000, 0x3000, TWO36}
  }

  predicate Apart(t: nat, u: nat) {
    t + 0x1000 <= u || u + 0x1000 <= t
  }

  ghost function Sparse(c: Chain): (mem: seq<Byte>)
    ensures Whole(mem)
  {
    seq(SPACE, x requires 0 <= x < SPACE => SparseByte(c, x))
  }

  function SparseByte(c: Chain, x: int): Byte {
    if c.t5 + 8 * c.k5 <= x < c.t5 + 8 * c.k5 + 8 then EntryByte(c.t4, 3, x - c.t5 - 8 * c.k5)
    else if c.t4 + 8 * c.k4 <= x < c.t4 + 8 * c.k4 + 8 then EntryByte(c.t3, c.flags, x - c.t4 - 8 * c.k4)
    else if c.t3 + 8 * c.k3 <= x < c.t3 + 8 * c.k3 + 8 then EntryByte(c.leaf - 0x83, 0x83, x - c.t3 - 8 * c.k3)
    else 0
  }

  /** Byte j of t + flags. */
  function EntryByte(t: int, flags: Byte, j: int): Byte {
    if j == 0 then flags else if j == 1 then t / 0x100 % 0x100 else if j == 4 then t / 0x1_0000_0000 % 0x100 else 0
  }

  lemma EntryWord(mem: seq<Byte>, e: Address, t: int, flags: Byte)
    requires Whole(mem) && TableAddress(t)
    requires forall j :: 0 <= j < 8 ==> ByteAt(mem, e, j) == EntryByte(t, flags, j)
    ensures Word(mem, e) == t + flags
  {
  }

  lemma ZeroWord(mem: seq<Byte>, e: Address)
    requires Whole(mem) && forall j :: 0 <= j < 8 ==> ByteAt(mem, e, j) == 0
    ensures Word(mem, e) == 0
  {
  }

  /** One table: the entry at k, and zeros elsewhere. */
  lemma TableWord(c: Chain, t: nat, k: nat, i: nat, value: int, flags: Byte)
    requires Well(c) && i < 512 && k < 512 && t <= TWO36 && TableAddress(value)
    requires forall x :: t <= x < t + 0x1000 ==>
               SparseByte(c, x) == if 0 <= x - t - 8 * k < 8 then EntryByte(value, flags, x - t - 8 * k) else 0
    ensures Word(Sparse(c), t + 8 * i) == if i == k then value + flags else 0
  {
    hide SparseByte, EntryByte, TableAddress, Word, Well;
    var mem, e := Sparse(c), t + 8 * i;
    forall j | 0 <= j < 8
      ensures ByteAt(mem, e, j) == if i == k then EntryByte(value, flags, j) else 0
    {
      assert ByteAt(mem, e, j) == SparseByte(c, e + j);
    }
    if i == k { EntryWord(mem, e, value, flags); } else { ZeroWord(mem, e); }
  }

  lemma SparseWord(c: Chain, i: nat)
    requires Well(c) && i < 512
    ensures Word(Sparse(c), c.t5 + 8 * i) == if i == c.k5 then c.t4 + 3 else 0
    ensures Word(Sparse(c), c.t4 + 8 * i) == if i == c.k4 then c.t3 + c.flags else 0
    ensures Word(Sparse(c), c.t3 + 8 * i) == if i == c.k3 then c.leaf else 0
  {
    hide Word, Sparse, EntryByte;
    TableWord(c, c.t5, c.k5, i, c.t4, 3);
    TableWord(c, c.t4, c.k4, i, c.t3, c.flags);
    TableWord(c, c.t3, c.k3, i, c.leaf - 0x83, 0x83);
  }

  function OneEntry(k: nat, node: Node<Rights>): (children: seq<Node<Rights>>)
    ensures |children| == 512
  {
    seq(512, i => if i == k then node else Absent)
  }

  /** What the chain stands for: a page with a reserved bit set maps nothing. */
  function SparseLeaf(c: Chain): (leaf: Node<Rights>)
    ensures !leaf.Table?
  {
    if c.leaf == 0x83 then Leaf(Rights(true, c.flags == 3)) else Absent
  }

  function SparsePml4(c: Chain): (root: Node<Rights>)
    ensures FullyShaped(root, 4)
  {
    var pdpt := Table(OneEntry(c.k3, SparseLeaf(c)));
    assert FullyShaped(pdpt, 3);
    Table(OneEntry(c.k4, pdpt))
  }

  function SparseRoot(c: Chain, la57: bool): (root: Node<Rights>)
    ensures root.Table? && FullyShaped(root, Levels(la57))
  {
    if la57 then Table(OneEntry(c.k5, SparsePml4(c))) else SparsePml4(c)
  }

  function SparseCr3(c: Chain, la57: bool): nat {
    if la57 then c.t5 else c.t4
  }

  lemma FrameOf(t: int, flags: Byte)
    requires TableAddress(t)
    ensures Frame(t + flags) == t && AddressBits(t + flags) == if t == TWO36 then 0 else t
  {
  }

  lemma SparseIsLaid(c: Chain, la57: bool, layout: Layout)
    requires Well(c) && (c.leaf == 0x83 || layout.reserved)
    requires layout.lo <= SparseCr3(c, la57) < layout.hi
    requires layout.lo <= c.t4 < layout.hi && layout.lo <= c.t3 < layout.hi
    ensures RootLaid(Sparse(c), SparseCr3(c, la57), la57, SparseRoot(c, la57), layout)
  {
    hide Word, Sparse, Frame, TableAddress;
    var mem := Sparse(c);
    FrameOf(c.t5, 0);
    FrameOf(c.t4, 0);
    FrameOf(c.t4, 3);
    FrameOf(c.t3, c.flags);
    forall i: nat | i < 512
      ensures Laid(mem, Word(mem, c.t3 + 8 * i), OneEntry(c.k3, SparseLeaf(c))[i], 2, c.flags == 3, layout)
    {
      SparseWord(c, i);
    }
    var pdpt := Table(OneEntry(c.k3, SparseLeaf(c)));
    EntryFlags(c.t3, c.flags);
    assert Laid(mem, c.t3 + c.flags, pdpt, 3, true, layout);
    forall i: nat | i < 512
      ensures Laid(mem, Word(mem, c.t4 + 8 * i), OneEntry(c.k4, pdpt)[i], 3, true, layout)
    {
      SparseWord(c, i);
    }
    if la57 {
      EntryFlags(c.t4, 3);
      assert Laid(mem, c.t4 + 3, SparsePml4(c), 4, true, layout);
      forall i: nat | i < 512
        ensures Laid(mem, Word(mem, c.t5 + 8 * i), OneEntry(c.k5, SparsePml4(c))[i], 4, true, layout)
      {
        SparseWord(c, i);
      }
    }
  }

  lemma EntryFlags(t: int, flags: Byte)
    requires TableAddress(t) && flags in {1, 3}
    ensures Present(t + flags) && !MustBe1(t + flags) && (ReadWrite(t + flags) <==> flags == 3)
  {
  }

  /** The chain whose indices are those of a. */
  function ChainTo(a: Address, t5: nat, t4: nat, t3: nat, flags: Byte, leaf: nat): Chain {
    Chain(t5, t4, t3, a / TWO48 % 512, Pml4Index(a), PdpteIndex(a), flags, leaf)
  }

  /** The one leaf of the chain to a owns a. */
  lemma SparseOwner(c: Chain, a: Address, la57: bool) returns (iv: Interval<Rights>)
    requires Covered(la57, a) && c.leaf == 0x83
    requires c == ChainTo(a, c.t5, c.t4, c.t3, c.flags, c.leaf)
    ensures Shaped(SparseRoot(c, la57), Levels(la57))
    ensures Owns(SparseRoot(c, la57), Levels(la57), 0, iv) && Contains(iv, a) && iv.info == Rights(true, c.flags == 3)
  {
    Spans();
    var lo4 := if la57 then ChildLo(0, 5, c.k5) else 0;
    var lo3 := ChildLo(lo4, 4, c.k4);
    var lo2 := ChildLo(lo3, 3, c.k3);
    iv := Interval(lo2, Span(2), Rights(true, c.flags == 3));
    var pdpt := Table(OneEntry(c.k3, SparseLeaf(c)));
    assert Owns(OneEntry(c.k3, SparseLeaf(c))[c.k3], 2, lo2, iv);
    assert Owns(pdpt, 3, lo3, iv);
    assert Owns(OneEntry(c.k4, pdpt)[c.k4], 3, lo3, iv);
    assert Owns(SparsePml4(c), 4, lo4, iv);
    if la57 {
      assert Owns(OneEntry(c.k5, SparsePml4(c))[c.k5], 4, lo4, iv);
    }
    SparsePlace(a);
  }

  lemma SparsePlace(a: Address)
    requires a < TWO57
    ensures var lo := a / TWO48 % 512 * TWO48 + Pml4Index(a) * TWO39 + PdpteIndex(a) * 0x4000_0000;
            lo <= a < lo + 0x4000_0000
  {
    assert a / TWO48 < 512;
    Digit(a, 0x4000_0000);
    Digit(a, TWO39);
  }

  lemma NothingOwns(c: Chain, la57: bool, iv: Interval<Rights>)
    requires c.leaf != 0x83
    ensures Shaped(SparseRoot(c, la57), Levels(la57)) && !Owns(SparseRoot(c, la57), Levels(la57), 0, iv)
  {
    var pdpt := Table(OneEntry(c.k3, SparseLeaf(c)));
    assert forall lo :: !Owns(pdpt, 3, lo, iv);
    assert forall lo :: !Owns(SparsePml4(c), 4, lo, iv);
  }

  /** The walk says what the tables say about a, whatever tables of this layout there are. */
  ghost predicate AlwaysAgrees(la57: bool, a: Address, layout: Layout) {
    forall mem: seq<Byte>, cr3: nat, root: Node<Rights> ::
      Whole(mem) && RootLaid(mem, cr3, la57, root, layout) && Shaped(root, Levels(la57)) ==>
        Agrees(mem, cr3, la57, root, a)
  }

  /** The walk says the opposite of what the tables of this chain say about a. */
  ghost predicate ChainMisleads(c: Chain, la57: bool, a: Address, layout: Layout) {
    var mem, cr3, root := Sparse(c), SparseCr3(c, la57), SparseRoot(c, la57);
    && RootLaid(mem, cr3, la57, root, layout) && Shaped(root, Levels(la57))
    && !Agrees(mem, cr3, la57, root, a)
  }

  lemma MissedMisleads(c: Chain, a: Address, la57: bool, layout: Layout)
    requires Well(c) && Covered(la57, a) && c.leaf == 0x83 && c == ChainTo(a, c.t5, c.t4, c.t3, c.flags, c.leaf)
    requires layout.lo <= SparseCr3(c, la57) < layout.hi
    requires layout.lo <= c.t4 < layout.hi && layout.lo <= c.t3 < layout.hi
    requires GetPageIs(Sparse(c), SparseCr3(c, la57), la57, a) == NotValid
    ensures ChainMisleads(c, la57, a, layout)
  {
    hide RootLaid, GetPageIs, Sparse, SparseRoot, TableAddress;
    SparseIsLaid(c, la57, layout);
    var iv := SparseOwner(c, a, la57);
  }

  lemma Parity(mem: seq<Byte>, a: Address)
    requires Whole(mem)
    ensures Present(Word(mem, a)) <==> mem[a] % 2 == 1
  {
  }

  /** In the top tables only the first byte of the entry is odd. */
  lemma SparseParity(c: Chain, x: int)
    requires Well(c) && c.t5 == 0x1000 && c.t4 == 0x2000 && c.t3 == 0x3000 && 0 <= x < 0x1000
    ensures Sparse(c)[0x1000 + x] % 2 == 1 <==> x == 8 * c.k5
    ensures Sparse(c)[0x2000 + x] % 2 == 1 <==> x == 8 * c.k4
  {
  }

  /** Addresses with upper index bits, and excluded ones, are missed: the byte
      offsets lead between the entries. */
  lemma HighMisleads(a: Address, la57: bool, layout: Layout)
    requires Covered(la57, a) && (Excluded(a) || !LowIndices(la57, a)) && layout.lo <= 0x1000 && layout.hi > 0x3000
    ensures ChainMisleads(ChainTo(a, 0x1000, 0x2000, 0x3000, 3, 0x83), la57, a, layout)
  {
    hide Word, ChainMisleads, Sparse;
    var c := ChainTo(a, 0x1000, 0x2000, 0x3000, 3, 0x83);
    var mem := Sparse(c);
    FrameOf(0x1000, 0);
    FrameOf(0x2000, 0);
    FrameOf(0x2000, 3);
    Parity(mem, 0x1000 + 2 * c.k5);
    Parity(mem, 0x2000 + c.k4);
    SparseParity(c, 2 * c.k5);
    SparseParity(c, c.k4);
    SparseWord(c, 0);
    MissedMisleads(c, a, la57, layout);
  }

  /** A table at 2^36 is missed: its address is cut down to 0. */
  lemma BeyondMisleads(a: Address, la57: bool, layout: Layout)
    requires Covered(la57, a) && a < TWO39 && !Excluded(a) && layout.lo <= 0x1000 && layout.hi > TWO36
    ensures ChainMisleads(ChainTo(a, 0x1000, 0x2000, TWO36, 3, 0x83), la57, a, layout)
  {
    hide Word, ChainMisleads, Sparse;
    var c := ChainTo(a, 0x1000, 0x2000, TWO36, 3, 0x83);
    var mem := Sparse(c);
    LowIsBelow(la57, a);
    FrameOf(0x1000, 0);
    FrameOf(0x2000, 0);
    FrameOf(0x2000, 3);
    FrameOf(TWO36, 3);
    SparseWord(c, 0);
    Parity(mem, 8 * c.k3);
    assert mem[8 * c.k3] == 0 by { NothingAtZero(c, 8 * c.k3); }
    MissedMisleads(c, a, la57, layout);
  }

  lemma NothingAtZero(c: Chain, x: int)
    requires Well(c) && c.t5 != 0 && c.t4 != 0 && c.t3 != 0 && 0 <= x < 0x1000
    ensures Sparse(c)[x] == 0
  {
  }

  /** The chain to a whose top table is at 0. */
  function NullChain(a: Address, la57: bool): (c: Chain)
    ensures Well(c)
  {
    assert 0 <= PdpteIndex(a) && 0 <= Pml4Index(a) && 0 <= a / TWO48 % 512;
    if la57 then ChainTo(a, 0, 0x1000, 0x3000, 3, 0x83) else ChainTo(a, 0x1000, 0, 0x3000, 3, 0x83)
  }

  /** A top table at 0 is missed: it passes for none. */
  lemma NullMisleads(a: Address, la57: bool, layout: Layout)
    requires Covered(la57, a) && layout.lo == 0 && layout.hi > 0x3000
    ensures ChainMisleads(NullChain(a, la57), la57, a, layout)
  {
    hide ChainMisleads, Sparse, Word, Well, PdpteIndex, Pml4Index, CheckPdpte;
    assert SparseCr3(NullChain(a, la57), la57) == 0 && AddressBits(0) == 0;
    MissedMisleads(NullChain(a, la57), a, la57, layout);
  }

  /** A page with a reserved bit set is found writable though any access faults. */
  lemma ReservedMisleads(a: Address, la57: bool, layout: Layout)
    requires Covered(la57, a) && a < TWO39 && !Excluded(a)
    requires layout.lo <= 0x1000 && layout.hi > 0x3000 && layout.reserved
    ensures ChainMisleads(ChainTo(a, 0x1000, 0x2000, 0x3000, 3, 0x2083), la57, a, layout)
  {
    var c := ChainTo(a, 0x1000, 0x2000, 0x3000, 3, 0x2083);
    hide Sparse, RootLaid, SparseRoot, GetPageIs;
    SparseIsLaid(c, la57, layout);
    LowChainIsFound(c, a, la57);
    forall iv
      ensures Shaped(SparseRoot(c, la57), Levels(la57)) && !Owns(SparseRoot(c, la57), Levels(la57), 0, iv)
    {
      NothingOwns(c, la57, iv);
    }
  }

  lemma LowChainIsFound(c: Chain, a: Address, la57: bool)
    requires Well(c) && Covered(la57, a) && a < TWO39 && !Excluded(a)
    requires c == ChainTo(a, 0x1000, 0x2000, 0x3000, c.flags, c.leaf)
    ensures GetPageIs(Sparse(c), SparseCr3(c, la57), la57, a) == IsReadWrite
  {
    hide Word, Sparse;
    LowIsBelow(la57, a);
    FrameOf(0x1000, 0);
    FrameOf(0x2000, 0);
    FrameOf(0x2000, 3);
    FrameOf(0x3000, c.flags);
    SparseWord(c, 0);
    SparseWord(c, c.k3);
  }

  /** Of the addresses that the top table covers, the walk is right for every
      table tree at exactly those below 2^39 that are not excluded, provided that
      no table is at address 0 or at 2^36 or above and that no present entry has
      reserved bits set. In all other cases there are tables that mislead it, if
      there is room for the three pages of a chain. */
  lemma AgreesIffLow(la57: bool, a: Address, layout: Layout)
    requires Covered(la57, a) && layout.lo <= 0x1000 && layout.hi > 0x3000
    ensures AlwaysAgrees(la57, a, layout) <==>
            && a < 0x80_0000_0000 && a != 0 && !(0x8300_0000 <= a <= 0x87c0_0000)
            && 0 < layout.lo && layout.hi <= 0x10_0000_0000 && !layout.reserved
  {
    LowIsBelow(la57, a);
    hide RootLaid, Agrees, LowIndices, Sparse, SparseRoot;
    if a >= TWO39 || Excluded(a) {
      HighMisleads(a, la57, layout);
    } else if layout.hi > TWO36 {
      BeyondMisleads(a, la57, layout);
    } else if layout.lo == 0 {
      NullMisleads(a, la57, layout);
    } else if layout.reserved {
      ReservedMisleads(a, la57, layout);
    } else {
      forall mem: seq<Byte>, cr3: nat, root: Node<Rights> |
        Whole(mem) && RootLaid(mem, cr3, la57, root, layout) && Shaped(root, Levels(la57))
        ensures Agrees(mem, cr3, la57, root, a)
      {
        WalkAgrees(mem, cr3, la57, root, a, layout);
      }
    }
  }

  /** A page is found writable though the tables do not let it be written: its
      leaf has the R/W bit, the entry above the leaf's table does not. */
  lemma WriteVerdictMisleads(a: Address, la57: bool) returns (c: Chain, iv: Interval<Rights>)
    requires a < TWO39 && !Excluded(a)
    ensures RootLaid(Sparse(c), SparseCr3(c, la57), la57, SparseRoot(c, la57), Layout(0x1000, 0x4000, false))
    ensures Shaped(SparseRoot(c, la57), Levels(la57))
    ensures Owns(SparseRoot(c, la57), Levels(la57), 0, iv) && Contains(iv, a) && !ArchWritable(iv.info)
    ensures IsPageWritable(Sparse(c), SparseCr3(c, la57), la57, a)
  {
    hide RootLaid, Sparse, SparseRoot, GetPageIs, Excluded;
    c := ChainTo(a, 0x1000, 0x2000, 0x3000, 1, 0x83);
    SparseIsLaid(c, la57, Layout(0x1000, 0x4000, false));
    iv := SparseOwner(c, a, la57);
    LowChainIsFound(c, a, la57);
  }
}
