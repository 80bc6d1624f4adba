/** Bounding boxes over exact coordinates: one interval an axis. */
module Boxes {

  datatype Edge = Edge(lo: real, hi: real)

  type Box = seq<Edge>

  function Min(a: real, b: real): real { if b < a then b else a }
  function Max(a: real, b: real): real { if a < b then b else a }

  function UnionBox(a: Box, b: Box): (u: Box)
    requires |a| == |b|
    ensures |u| == |a|
  {
    seq(|a|, i requires 0 <= i < |a| => Edge(Min(a[i].lo, b[i].lo), Max(a[i].hi, b[i].hi)))
  }

  predicate Encloses(a: Box, b: Box) {
    |a| == |b| && forall i | 0 <= i < |a| :: a[i].lo <= b[i].lo && b[i].hi <= a[i].hi
  }

  predicate IsOverlap(a: Box, b: Box) {
    |a| == |b| && forall i | 0 <= i < |a| :: a[i].lo < b[i].hi && b[i].lo < a[i].hi
  }

  /** The product of the edge lengths, in the order of the axes. */
  function Area(b: Box): real {
    if b == [] then 1.0 else Product(Area(b[..|b| - 1]), b[|b| - 1].hi - b[|b| - 1].lo)
  }

  function Product(x: real, y: real): real {
    x * y
  }

  // ---------------------------------------------------------------- union is a least upper bound

  lemma EnclosesItself(a: Box)
    ensures Encloses(a, a)
  {
  }

  lemma EnclosesBothWays(a: Box, b: Box)
    requires Encloses(a, b) && Encloses(b, a)
    ensures a == b
  {
  }

  /** A box encloses the union exactly when it encloses both. */
  lemma UnionLeast(a: Box, b: Box, c: Box)
    requires |a| == |b|
    ensures Encloses(c, UnionBox(a, b)) <==> Encloses(c, a) && Encloses(c, b)
  {
    var u := UnionBox(a, b);
    if Encloses(c, u) {
      assert forall i | 0 <= i < |a| :: u[i].lo <= a[i].lo && a[i].hi <= u[i].hi && u[i].lo <= b[i].lo && b[i].hi <= u[i].hi;
    }
  }

  /** Two boxes enclosed by the same boxes are the same. */
  lemma SameEnclosers(a: Box, b: Box)
    requires forall c :: Encloses(c, a) <==> Encloses(c, b)
    ensures a == b
  {
    EnclosesItself(a);
    EnclosesItself(b);
    EnclosesBothWays(a, b);
  }

  /** Enclosing a box that overlaps a target means overlapping it too. */
  lemma EncloserOverlaps(c: Box, b: Box, target: Box)
    requires Encloses(c, b) && IsOverlap(b, target)
    ensures IsOverlap(c, target)
  {
  }

  // ---------------------------------------------------------------- what the area is

  function Width(e: Edge): real {
    e.hi - e.lo
  }

  /** Extent on every axis. */
  predicate Wide(b: Box) {
    forall i | 0 <= i < |b| :: b[i].lo < b[i].hi
  }

  lemma {:induction false} UnitArea(b: Box)
    requires forall i | 0 <= i < |b| :: Width(b[i]) == 1.0
    ensures Area(b) == 1.0
  {
    if b != [] {
      UnitArea(b[..|b| - 1]);
    }
  }

  /** The area is proportional to the width of each axis. */
  lemma {:induction false} AreaOfAxis(b: Box, i: nat, e: Edge)
    requires i < |b|
    ensures Product(Area(b[i := e]), Width(b[i])) == Product(Area(b), Width(e))
  {
    var n := |b| - 1;
    var rest := b[..n];
    if i < n {
      AreaOfAxis(rest, i, e);
      assert b[i := e][..n] == rest[i := e];
      ProductSwap(Area(rest[i := e]), Width(b[n]), Width(b[i]));
      ProductSwap(Area(rest), Width(b[n]), Width(e));
    } else {
      assert b[i := e][..n] == rest;
      ProductSwap(Area(rest), Width(e), Width(b[n]));
    }
  }

  lemma ProductSwap(x: real, y: real, z: real)
    ensures Product(Product(x, y), z) == Product(Product(x, z), y)
  {
    assert (x * y) * z == (x * z) * y;
  }

  /** Cutting a box at a point of one axis splits its area. */
  lemma {:induction false} AreaCut(b: Box, i: nat, c: real)
    requires i < |b|
    ensures Area(b) == Area(b[i := Edge(b[i].lo, c)]) + Area(b[i := Edge(c, b[i].hi)])
  {
    var n := |b| - 1;
    var l, r := b[i := Edge(b[i].lo, c)], b[i := Edge(c, b[i].hi)];
    if i < n {
      AreaCut(b[..n], i, c);
      assert l[..n] == b[..n][i := Edge(b[i].lo, c)] && r[..n] == b[..n][i := Edge(c, b[i].hi)];
      ProductSum(Area(l[..n]), Area(r[..n]), Width(b[n]));
    } else {
      assert l[..n] == b[..n] && r[..n] == b[..n];
      SumProduct(Area(b[..n]), c - b[n].lo, b[n].hi - c);
    }
  }

  lemma ProductSum(x: real, y: real, z: real)
    ensures Product(x + y, z) == Product(x, z) + Product(y, z)
  {
  }

  lemma SumProduct(x: real, y: real, z: real)
    ensures Product(x, y + z) == Product(x, y) + Product(x, z)
  {
  }

  /** A box around a box with extent has a larger area, unless the two are the same. */
  lemma {:induction false} AreaGrows(a: Box, b: Box)
    requires Encloses(a, b) && Wide(b)
    ensures Area(a) >= Area(b) > 0.0
    ensures a != b ==> Area(a) > Area(b)
  {
    if a != [] {
      var n := |a| - 1;
      AreaGrows(a[..n], b[..n]);
      if a[n] == b[n] && a[..n] == b[..n] {
        assert a == a[..n] + [a[n]] == b;
      }
      ProductGrows(Area(a[..n]), Area(b[..n]), Width(a[n]), Width(b[n]));
    }
  }

  lemma ProductGrows(x: real, u: real, y: real, v: real)
    requires x >= u > 0.0 && y >= v > 0.0
    ensures Product(x, y) >= Product(u, v) > 0.0
    ensures x > u || y > v ==> Product(x, y) > Product(u, v)
  {
    assert x * y - u * v == (x - u) * y + u * (y - v);
  }

  lemma UnionCommutes(a: Box, b: Box)
    requires |a| == |b|
    ensures UnionBox(a, b) == UnionBox(b, a)
  {
  }

  /** What a box with extent must grow by to take in another: nothing if it encloses it, else something. */
  lemma GrowthOfUnion(a: Box, b: Box)
    requires |a| == |b| && Wide(b)
    ensures Area(UnionBox(a, b)) - Area(b) >= 0.0
    ensures Area(UnionBox(a, b)) - Area(b) == 0.0 <==> Encloses(b, a)
  {
    var u := UnionBox(a, b);
    EnclosesItself(u);
    UnionLeast(a, b, u);
    AreaGrows(u, b);
    EnclosesItself(b);
    UnionLeast(a, b, b);
    if Encloses(b, a) {
      EnclosesBothWays(u, b);
    }
  }

  // ---------------------------------------------------------------- overlap

  function OverlapEdge(a: Edge, b: Edge): real {
    Max(0.0, Min(a.hi, b.hi) - Max(a.lo, b.lo))
  }

  /** The size of the common part: the product over the axes of what the two intervals share. */
  function OverlapArea(a: Box, b: Box): real
    requires |a| == |b|
  {
    if a == [] then 1.0
    else Product(OverlapArea(a[..|a| - 1], b[..|b| - 1]), OverlapEdge(a[|a| - 1], b[|b| - 1]))
  }

  /** The interval that begins inside the other one ends before it begins. */
  predicate Backward(a: Edge, b: Edge) {
    if a.lo < b.lo then b.lo < a.hi && b.hi < b.lo else a.lo < b.hi && a.hi < a.lo
  }

  /** What the loop takes an axis for: the shared length, or the negative length of a backward interval. */
  function MeasuredEdge(a: Edge, b: Edge): real {
    if !Backward(a, b) then OverlapEdge(a, b) else if a.lo < b.lo then b.hi - b.lo else a.hi - a.lo
  }

  function MeasuredArea(a: Box, b: Box): real
    requires |a| == |b|
  {
    if a == [] then 1.0
    else Product(MeasuredArea(a[..|a| - 1], b[..|b| - 1]), MeasuredEdge(a[|a| - 1], b[|b| - 1]))
  }

  /** No axis is backward, or some axis has nothing in common. */
  predicate Measurable(a: Box, b: Box)
    requires |a| == |b|
  {
    || (forall i | 0 <= i < |a| :: !Backward(a[i], b[i]))
    || (exists i :: 0 <= i < |a| && MeasuredEdge(a[i], b[i]) == 0.0)
  }

  /** The source's loop, which stops as soon as the product is zero. It computes the size of the common part if and
      only if no backward axis counts. */
  method Overlap(a: Box, b: Box) returns (area: real)
    requires |a| == |b|
    ensures area == OverlapArea(a, b) <==> Measurable(a, b)
    ensures area == MeasuredArea(a, b)
  {
    MeasuredRight(a, b);
    area := 1.0;
    var i := 0;
    while area != 0.0 && i < |a|
      invariant 0 <= i <= |a|
      invariant area == MeasuredArea(a[..i], b[..i])
      decreases |a| - i
    {
      var x1, x2, y1, y2 := a[i].lo, a[i].hi, b[i].lo, b[i].hi;
      var shared;
      if x1 < y1 {
        if !(y1 < x2) {
          MeasuredZero(a, b);
          return 0.0;
        }
        shared := if y2 < x2 then y2 - y1 else x2 - y1;
      } else if x1 < y2 {
        shared := if x2 < y2 then x2 - x1 else y2 - x1;
      } else {
        MeasuredZero(a, b);
        return 0.0;
      }
      assert shared == MeasuredEdge(a[i], b[i]);
      assert a[..i + 1][..i] == a[..i] && b[..i + 1][..i] == b[..i];
      area := Product(area, shared);
      i := i + 1;
    }
    if area == 0.0 {
      MeasuredZero(a[..i], b[..i]);
      MeasuredZero(a, b);
    } else {
      assert a[..i] == a && b[..i] == b;
    }
  }

  lemma {:induction false} MeasuredZero(a: Box, b: Box)
    requires |a| == |b|
    ensures MeasuredArea(a, b) == 0.0 <==> exists i :: 0 <= i < |a| && MeasuredEdge(a[i], b[i]) == 0.0
  {
    if a != [] {
      var n := |a| - 1;
      var c, d := a[..n], b[..n];
      MeasuredZero(c, d);
      ProductZero(MeasuredArea(c, d), MeasuredEdge(a[n], b[n]));
      if i :| 0 <= i < |c| && MeasuredEdge(c[i], d[i]) == 0.0 {
        assert MeasuredEdge(a[i], b[i]) == 0.0;
      }
      if i :| 0 <= i < |a| && MeasuredEdge(a[i], b[i]) == 0.0 {
        assert i < n ==> MeasuredEdge(c[i], d[i]) == 0.0;
      }
    }
  }

  lemma ProductZero(x: real, y: real)
    ensures Product(x, y) == 0.0 <==> x == 0.0 || y == 0.0
  {
  }

  lemma {:induction false} MeasuredForward(a: Box, b: Box)
    requires |a| == |b| && forall i | 0 <= i < |a| :: !Backward(a[i], b[i])
    ensures MeasuredArea(a, b) == OverlapArea(a, b)
  {
    if a != [] {
      MeasuredForward(a[..|a| - 1], b[..|b| - 1]);
    }
  }

  /** The loop's product is the size of the common part exactly for measurable boxes. */
  lemma MeasuredRight(a: Box, b: Box)
    requires |a| == |b|
    ensures MeasuredArea(a, b) == OverlapArea(a, b) <==> Measurable(a, b)
  {
    MeasuredZero(a, b);
    if forall i | 0 <= i < |a| :: !Backward(a[i], b[i]) {
      MeasuredForward(a, b);
    } else {
      var i :| 0 <= i < |a| && Backward(a[i], b[i]);
      assert OverlapEdge(a[i], b[i]) == 0.0;
      NoOverlap(a, b, i);
    }
  }

  /** An axis set to 5..1 inside 0..10 is measured as -4, though the two share nothing. */
  lemma BackwardMeasured()
    ensures var a, b := [Edge(5.0, 1.0)], [Edge(0.0, 10.0)];
            MeasuredArea(a, b) == -4.0 && OverlapArea(a, b) == 0.0 && !Measurable(a, b)
  {
    var a, b := [Edge(5.0, 1.0)], [Edge(0.0, 10.0)];
    assert a[..0] == [] && b[..0] == [];
    MeasuredRight(a, b);
  }

  lemma OverlapNext(a: Box, b: Box, i: nat)
    requires |a| == |b| && i < |a|
    ensures OverlapArea(a[..i + 1], b[..i + 1]) == Product(OverlapArea(a[..i], b[..i]), OverlapEdge(a[i], b[i]))
  {
    assert a[..i + 1][..i] == a[..i] && b[..i + 1][..i] == b[..i];
  }

  lemma {:induction false} OverlapZero(a: Box, b: Box, i: nat)
    requires |a| == |b| && i <= |a| && OverlapArea(a[..i], b[..i]) == 0.0
    ensures OverlapArea(a, b) == 0.0
    decreases |a| - i
  {
    if i == |a| {
      assert a[..i] == a && b[..i] == b;
    } else {
      OverlapNext(a, b, i);
      OverlapZero(a, b, i + 1);
    }
  }

  lemma NoOverlap(a: Box, b: Box, i: nat)
    requires |a| == |b| && i < |a| && OverlapEdge(a[i], b[i]) == 0.0
    ensures OverlapArea(a, b) == 0.0
  {
    OverlapNext(a, b, i);
    OverlapZero(a, b, i + 1);
  }

  lemma {:induction false} OverlapSymmetric(a: Box, b: Box)
    requires |a| == |b|
    ensures OverlapArea(a, b) == OverlapArea(b, a)
  {
    if a != [] {
      OverlapSymmetric(a[..|a| - 1], b[..|b| - 1]);
    }
  }

  lemma {:induction false} OverlapNonNegative(a: Box, b: Box)
    requires |a| == |b|
    ensures OverlapArea(a, b) >= 0.0
  {
    if a != [] {
      var n := |a| - 1;
      OverlapNonNegative(a[..n], b[..n]);
      ProductPositive(OverlapArea(a[..n], b[..n]), OverlapEdge(a[n], b[n]));
    }
  }

  /** A positive overlap means overlapping; for boxes with extent on every axis the two say the same. */
  lemma {:induction false} OverlapPositive(a: Box, b: Box)
    requires |a| == |b|
    ensures OverlapArea(a, b) > 0.0 ==> IsOverlap(a, b)
    ensures Wide(a) && Wide(b) && IsOverlap(a, b) ==> OverlapArea(a, b) > 0.0
  {
    if a != [] {
      var n := |a| - 1;
      var c, d := a[..n], b[..n];
      OverlapPositive(c, d);
      OverlapNonNegative(c, d);
      ProductPositive(OverlapArea(c, d), OverlapEdge(a[n], b[n]));
      assert a == c + [a[n]] && b == d + [b[n]];
      assert Wide(a) ==> Wide(c) && a[n].lo < a[n].hi;
      assert Wide(b) ==> Wide(d) && b[n].lo < b[n].hi;
      assert IsOverlap(a, b) <==> IsOverlap(c, d) && a[n].lo < b[n].hi && b[n].lo < a[n].hi;
    }
  }

  lemma ProductPositive(x: real, y: real)
    requires x >= 0.0 && y >= 0.0
    ensures Product(x, y) >= 0.0 && (Product(x, y) > 0.0 <==> x > 0.0 && y > 0.0)
  {
  }
}
