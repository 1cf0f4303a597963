/** A register seen through a union of bit fields, lowest field first. */
module BitFields {

  function Pow2(k: nat): (p: nat)
    ensures p > 0
  {
    if k == 0 then 1 else 2 * Pow2(k - 1)
  }

  /** Every value fits the width of its field. */
  predicate Fit(fields: seq<nat>, widths: seq<nat>) {
    |fields| == |widths| && forall i :: 0 <= i < |fields| ==> fields[i] < Pow2(widths[i])
  }

  function Pack(fields: seq<nat>, widths: seq<nat>): nat
    requires |fields| == |widths|
  {
    if fields == [] then 0 else fields[0] + Pow2(widths[0]) * Pack(fields[1..], widths[1..])
  }

  function Unpack(value: nat, widths: seq<nat>): (fields: seq<nat>)
    ensures Fit(fields, widths)
    decreases |widths|
  {
    if widths == [] then []
    else DivModBounds(value, Pow2(widths[0])); [value % Pow2(widths[0])] + Unpack(value / Pow2(widths[0]), widths[1..])
  }

  lemma DivModBounds(v: nat, p: nat)
    requires p > 0
    ensures 0 <= v % p < p && 0 <= v / p
  {
  }

  lemma DivModSplit(v: nat, p: nat)
    requires p > 0
    ensures v % p + p * (v / p) == v
  {
  }

  lemma MulMonotone(p: nat, x: int, y: int)
    requires x <= y
    ensures p * x <= p * y
  {
  }

  lemma DivModUnique(f: nat, p: nat, q: nat)
    requires f < p
    ensures (f + p * q) % p == f && (f + p * q) / p == q
  {
    var v := f + p * q;
    assert v == p * (v / p) + v % p;
    if v / p < q { MulMonotone(p, v / p, q - 1); }
    if v / p > q { MulMonotone(p, q + 1, v / p); }
  }

  lemma DivBelow(v: nat, p: nat, q: nat)
    requires p > 0 && v < p * q
    ensures v / p < q
  {
    if v / p >= q { MulMonotone(p, q, v / p); }
  }

  lemma MulAddBelow(f: nat, p: nat, x: nat, q: nat)
    requires f < p && x < q
    ensures f + p * x < p * q
  {
    MulMonotone(p, x, q - 1);
  }

  /** Rounding down to a multiple of 2q rounds the half down to a multiple of q. */
  lemma RoundHalf(v: nat, q: nat)
    requires q > 0
    ensures v % (2 * q) == 2 * (v / 2 % q) + v % 2 <= v
    ensures (v - v % (2 * q)) % 2 == 0 && (v - v % (2 * q)) / 2 == v / 2 - v / 2 % q
  {
    var h := v / 2;
    var r, d := h % q, h / q;
    assert h == q * d + r;
    assert v == (2 * r + v % 2) + (2 * q) * d;
    DivModUnique(2 * r + v % 2, 2 * q, d);
  }

  /** Writing the fields back reads as the same fields. */
  lemma {:induction false} UnpackPack(fields: seq<nat>, widths: seq<nat>)
    requires Fit(fields, widths)
    ensures Unpack(Pack(fields, widths), widths) == fields
    decreases |fields|
  {
    if fields != [] {
      UnpackPack(fields[1..], widths[1..]);
      DivModUnique(fields[0], Pow2(widths[0]), Pack(fields[1..], widths[1..]));
    }
  }

  function Sum(widths: seq<nat>): nat {
    if widths == [] then 0 else widths[0] + Sum(widths[1..])
  }

  /** Bits `at` to `at + width - 1` of a register. */
  function BitsAt(value: nat, at: nat, width: nat): (f: nat)
  {
    DivModBounds(value, Pow2(at));
    DivModBounds(value / Pow2(at), Pow2(width));
    value / Pow2(at) % Pow2(width)
  }

  lemma DivDiv(v: nat, p: nat, q: nat)
    requires p > 0 && q > 0
    ensures 0 <= v / p && p * q > 0 && v / p / q == v / (p * q)
  {
    DivModBounds(v, p);
    var m, r := v / p, v % p;
    DivModBounds(m, q);
    var a, b := m / q, m % q;
    DivModSplit(v, p);
    DivModSplit(m, q);
    MulAddBelow(r, p, b, q);
    MulMonotone(p, 1, q);
    Regrouped(r, p, b, q, a);
    DivModUnique(r + p * b, p * q, a);
  }

  lemma Regrouped(r: nat, p: nat, b: nat, q: nat, a: nat)
    ensures r + p * (b + q * a) == (r + p * b) + p * q * a
  {
  }

  /** Field k is the bits above the fields before it. */
  lemma {:induction false} UnpackAt(value: nat, widths: seq<nat>, k: nat)
    requires k < |widths|
    ensures Unpack(value, widths)[k] == BitsAt(value, Sum(widths[..k]), widths[k])
    decreases k
  {
    var p := Pow2(widths[0]);
    DivModBounds(value, p);
    if k == 0 {
      assert Pow2(0) == 1;
    } else {
      UnpackAt(value / p, widths[1..], k - 1);
      assert widths[..k][1..] == widths[1..][..k - 1];
      Pow2Sum(widths[0], Sum(widths[1..][..k - 1]));
      DivDiv(value, p, Pow2(Sum(widths[1..][..k - 1])));
    }
  }

  lemma {:induction false} SumSnoc(widths: seq<nat>, k: nat)
    requires k < |widths|
    ensures Sum(widths[..k + 1]) == Sum(widths[..k]) + widths[k]
    decreases k
  {
    if k == 0 {
      assert widths[..1][1..] == [];
    } else {
      SumSnoc(widths[1..], k - 1);
      assert widths[..k + 1][1..] == widths[1..][..k] && widths[..k][1..] == widths[1..][..k - 1];
    }
  }

  lemma {:induction false} Pow2Sum(a: nat, b: nat)
    ensures Pow2(a + b) == Pow2(a) * Pow2(b)
  {
    if a > 0 { Pow2Sum(a - 1, b); }
  }

  /** Reading the fields of a value that has no bits above them loses nothing. */
  lemma {:induction false} PackUnpack(value: nat, widths: seq<nat>)
    requires value < Pow2(Sum(widths))
    ensures Pack(Unpack(value, widths), widths) == value
    decreases |widths|
  {
    if widths != [] {
      UpperFits(value, widths[0], Sum(widths[1..]));
      PackUnpack(value / Pow2(widths[0]), widths[1..]);
      PackUnpackCons(value, widths);
    }
  }

  lemma UpperFits(value: nat, w: nat, s: nat)
    requires value < Pow2(w + s)
    ensures 0 <= value / Pow2(w) < Pow2(s)
  {
    var p, q := Pow2(w), Pow2(s);
    assert Pow2(w + s) == p * q by { Pow2Sum(w, s); }
    assert value / p < q by { DivBelow(value, p, q); }
    DivModBounds(value, p);
  }

  lemma PackUnpackCons(value: nat, widths: seq<nat>)
    requires widths != [] && 0 <= value / Pow2(widths[0])
    requires Pack(Unpack(value / Pow2(widths[0]), widths[1..]), widths[1..]) == value / Pow2(widths[0])
    ensures Pack(Unpack(value, widths), widths) == value
  {
    var p, upper := Pow2(widths[0]), Unpack(value / Pow2(widths[0]), widths[1..]);
    DivModSplit(value, p);
    PackCons(value % p, upper, widths);
  }

  lemma PackCons(f: nat, fields: seq<nat>, widths: seq<nat>)
    requires |widths| == |fields| + 1
    ensures Pack([f] + fields, widths) == f + Pow2(widths[0]) * Pack(fields, widths[1..])
  {
    assert ([f] + fields)[1..] == fields;
  }

  /** Packed fields leave no bits above them. */
  lemma {:induction false} PackBound(fields: seq<nat>, widths: seq<nat>)
    requires Fit(fields, widths)
    ensures Pack(fields, widths) < Pow2(Sum(widths))
    decreases |fields|
  {
    if fields != [] {
      Pow2Sum(widths[0], Sum(widths[1..]));
      PackBound(fields[1..], widths[1..]);
      MulAddBelow(fields[0], Pow2(widths[0]), Pack(fields[1..], widths[1..]), Pow2(Sum(widths[1..])));
    }
  }

  /** Masking off the low m bits zeroes the m single-bit fields there. */
  lemma {:induction false} ClearLowFields(value: nat, widths: seq<nat>, m: nat)
    requires m <= |widths| && forall i :: 0 <= i < m ==> widths[i] == 1
    ensures value % Pow2(m) <= value
    ensures Unpack(value - value % Pow2(m), widths) == seq(m, _ => 0) + Unpack(value, widths)[m..]
    decreases m
  {
    hide Unpack;
    if m == 0 {
      assert Pow2(0) == 1;
    } else {
      RoundHalf(value, Pow2(m - 1));
      ClearLowFields(value / 2, widths[1..], m - 1);
      ClearedBit(value, value - value % Pow2(m), widths, m);
    }
  }

  lemma UnpackBit(value: nat, widths: seq<nat>)
    requires widths != [] && widths[0] == 1
    ensures 0 <= value / 2 && Unpack(value, widths) == [value % 2] + Unpack(value / 2, widths[1..])
  {
    assert Pow2(widths[0]) == 2 * Pow2(0);
  }

  lemma ClearedBit(value: nat, cleared: nat, widths: seq<nat>, m: nat)
    requires 0 < m <= |widths| && widths[0] == 1 && cleared % 2 == 0 && 0 <= cleared / 2
    requires Unpack(cleared / 2, widths[1..]) == seq(m - 1, _ => 0) + Unpack(value / 2, widths[1..])[m - 1..]
    ensures Unpack(cleared, widths) == seq(m, _ => 0) + Unpack(value, widths)[m..]
  {
    hide Unpack;
    UnpackBit(value, widths);
    UnpackBit(cleared, widths);
    assert [0] + seq(m - 1, _ => 0) == seq(m, _ => 0);
    assert Unpack(value, widths)[m..] == Unpack(value / 2, widths[1..])[m - 1..];
  }
}
