/** Multi-level page tables as trees, and the address intervals their leaves own. */
module PageTree {
  import opened BitFields

  /** What one table entry stands for. */
  datatype Node<T> = Absent | Leaf(info: T) | Table(children: seq<Node<T>>)

  /** Bytes mapped by an entry d levels above the 4 KiB page entries. */
  function Span(d: nat): (s: nat)
    ensures s > 0
  {
    if d == 0 then 0x1000 else 512 * Span(d - 1)
  }

  /** A table has 512 entries, except that a root table may have fewer. */
  ghost predicate Shaped<T>(node: Node<T>, d: nat)
    decreases node
  {
    node.Table? ==>
      && d > 0
      && |node.children| <= 512
      && forall i :: 0 <= i < |node.children| ==> FullyShaped(node.children[i], d - 1)
  }

  ghost predicate FullyShaped<T>(node: Node<T>, d: nat)
    decreases node
  {
    node.Table? ==>
      && d > 0
      && |node.children| == 512
      && forall i :: 0 <= i < |node.children| ==> FullyShaped(node.children[i], d - 1)
  }

  datatype Interval<T> = Interval(lo: int, size: nat, info: T)

  predicate Contains<T>(iv: Interval<T>, a: int) {
    iv.lo <= a < iv.lo + iv.size
  }

  /** Where child i of an entry at lo starts. */
  function ChildLo(lo: int, d: nat, i: int): int
    requires d > 0
  {
    lo + i * Span(d - 1)
  }

  /** iv is the interval of a leaf below an entry that starts at lo. */
  ghost predicate Owns<T>(node: Node<T>, d: nat, lo: int, iv: Interval<T>)
    requires Shaped(node, d)
    decreases node
  {
    match node
    case Absent => false
    case Leaf(info) => iv == Interval(lo, Span(d), info)
    case Table(children) =>
      exists i :: 0 <= i < |children| && Owns(children[i], d - 1, ChildLo(lo, d, i), iv)
  }

  /** Bytes an entry covers. */
  ghost function Extent<T>(node: Node<T>, d: nat): (s: nat)
    requires Shaped(node, d)
  {
    if node.Table? then |node.children| * Span(d - 1) else Span(d)
  }

  /** The entry that a walk by index digits ends at, `off` bytes in. */
  ghost function Descend<T>(node: Node<T>, d: nat, off: nat): (r: Node<T>)
    requires Shaped(node, d) && off < Extent(node, d)
    ensures !r.Table?
    decreases node
  {
    match node
    case Absent => Absent
    case Leaf(_) => node
    case Table(children) =>
      IndexBound(off, |children|, Span(d - 1));
      Descend(children[off / Span(d - 1)], d - 1, off % Span(d - 1))
  }

  lemma IndexBound(off: nat, n: nat, s: nat)
    requires s > 0 && off < n * s
    ensures 0 <= off / s < n && 0 <= off % s < s && off == off / s * s + off % s
  {
    assert off == s * (off / s) + off % s;
    if off / s >= n { MulLe(n, off / s, s); }
  }

  lemma MulLe(m: int, n: int, s: nat)
    requires m <= n
    ensures m * s <= n * s
  {
  }

  /** Children lie one after the other inside their parent. */
  lemma ChildrenInOrder(lo: int, d: nat, i: int, j: int)
    requires d > 0 && i <= j
    ensures i < j ==> ChildLo(lo, d, i) + Span(d - 1) <= ChildLo(lo, d, j)
    ensures 0 <= i ==> lo <= ChildLo(lo, d, i)
    ensures j <= 511 ==> ChildLo(lo, d, j) + Span(d - 1) <= lo + Span(d)
  {
    if i < j { MulLe(i + 1, j, Span(d - 1)); }
    if 0 <= i { MulLe(0, i, Span(d - 1)); }
    if j <= 511 { MulLe(j + 1, 512, Span(d - 1)); }
  }

  /** Leaves stay inside the entry they are below. */
  lemma {:induction false} LeavesInside<T>(node: Node<T>, d: nat, lo: int, iv: Interval<T>)
    requires FullyShaped(node, d) && Shaped(node, d) && Owns(node, d, lo, iv)
    ensures lo <= iv.lo && iv.lo + iv.size <= lo + Span(d)
    decreases node
  {
    hide Span, ChildLo;
    if node.Table? {
      var i :| 0 <= i < |node.children| && Owns(node.children[i], d - 1, ChildLo(lo, d, i), iv);
      LeavesInside(node.children[i], d - 1, ChildLo(lo, d, i), iv);
      ChildrenInOrder(lo, d, i, i);
    }
  }

  /** Only the child that the index digit picks can own the address. */
  lemma OwnerIsBelowIndex<T>(node: Node<T>, d: nat, lo: int, a: int, k: nat, iv: Interval<T>)
    requires Shaped(node, d) && node.Table? && k < |node.children|
    requires ChildLo(lo, d, k) <= a < ChildLo(lo, d, k) + Span(d - 1)
    requires Owns(node, d, lo, iv) && Contains(iv, a)
    ensures Owns(node.children[k], d - 1, ChildLo(lo, d, k), iv)
  {
    hide Span, ChildLo;
    var i :| 0 <= i < |node.children| && Owns(node.children[i], d - 1, ChildLo(lo, d, i), iv);
    LeavesInside(node.children[i], d - 1, ChildLo(lo, d, i), iv);
    if i < k { ChildrenInOrder(lo, d, i, k); }
    if i > k { ChildrenInOrder(lo, d, k, i); }
  }

  /** One step of the walk: the index picks the child that covers a. */
  lemma DescendStep<T>(node: Node<T>, d: nat, lo: int, a: int) returns (k: nat)
    requires Shaped(node, d) && node.Table? && lo <= a < lo + Extent(node, d)
    ensures k < |node.children| && ChildLo(lo, d, k) <= a < ChildLo(lo, d, k) + Span(d - 1)
    ensures Extent(node.children[k], d - 1) == Span(d - 1)
    ensures Descend(node, d, a - lo) == Descend(node.children[k], d - 1, a - ChildLo(lo, d, k))
  {
    var s := Span(d - 1);
    IndexBound(a - lo, |node.children|, s);
    k := (a - lo) / s;
    ChildExtent(node.children[k], d - 1);
    assert a - ChildLo(lo, d, k) == (a - lo) % s;
  }

  lemma ChildExtent<T>(node: Node<T>, d: nat)
    requires FullyShaped(node, d)
    ensures Extent(node, d) == Span(d)
  {
  }

  /** The index digits of an address lead to the leaf that owns it: a leaf below
      this entry owns a exactly when it is the one the walk ends at. */
  lemma {:induction false} OwnerIsDescended<T>(node: Node<T>, d: nat, lo: int, a: int, iv: Interval<T>)
    requires Shaped(node, d) && lo <= a < lo + Extent(node, d)
    requires Owns(node, d, lo, iv) && Contains(iv, a)
    ensures Descend(node, d, a - lo) == Leaf(iv.info)
    decreases node
  {
    hide Span, ChildLo, Extent;
    if node.Table? {
      var k := DescendStep(node, d, lo, a);
      OwnerIsBelowIndex(node, d, lo, a, k, iv);
      OwnerIsDescended(node.children[k], d - 1, ChildLo(lo, d, k), a, iv);
    }
  }

  lemma {:induction false} DescendedOwns<T>(node: Node<T>, d: nat, lo: int, a: int) returns (iv: Interval<T>)
    requires Shaped(node, d) && lo <= a < lo + Extent(node, d)
    requires Descend(node, d, a - lo).Leaf?
    ensures Owns(node, d, lo, iv) && Contains(iv, a)
    decreases node
  {
    if node.Table? {
      var k := DescendStep(node, d, lo, a);
      hide Span, ChildLo, Extent;
      iv := DescendedOwns(node.children[k], d - 1, ChildLo(lo, d, k), a);
    } else {
      iv := Interval(lo, Span(d), node.info);
    }
  }

  /** The index digit read off the whole address is the one read off its offset. */
  lemma Digit(a: nat, s: nat)
    requires s > 0
    ensures a % (512 * s) / s == a / s % 512 && a % (512 * s) % s == a % s
  {
    var q, r := a / s, a % s;
    var h, g := q / 512, q % 512;
    DivModSplit(a, s);
    Regroup(s, h, g);
    MulAddBelow(r, s, g, 512);
    DivModUnique(r + s * g, 512 * s, h);
    DivModUnique(r, s, g);
  }

  lemma Regroup(s: nat, h: nat, g: nat)
    ensures s * (512 * h + g) == s * g + (512 * s) * h
  {
  }
}
