/** The loops of a split: choosing the seeds, choosing the next entry, filling the groups. */
module GroupAssigns {
  import opened Boxes
  import opened SplitSpec

  // ---------------------------------------------------------------- floating-point special values

  /** Exact numbers with the special values a division by zero brings in. */
  datatype Ext = NaN | NegInf | PosInf | Fin(value: real)

  /** One over a difference of equal numbers is plus infinity. */
  function Reciprocal(d: real): Ext {
    if d == 0.0 then PosInf else Fin(1.0 / d)
  }

  function Scale(r: real, e: Ext): Ext {
    match e
    case NaN => NaN
    case Fin(x) => Fin(r * x)
    case PosInf => if r > 0.0 then PosInf else if r < 0.0 then NegInf else NaN
    case NegInf => if r > 0.0 then NegInf else if r < 0.0 then PosInf else NaN
  }

  /** Comparisons with NaN are false. */
  predicate Exceeds(a: Ext, b: Ext) {
    match (a, b)
    case (NaN, _) => false
    case (_, NaN) => false
    case (PosInf, _) => !b.PosInf?
    case (NegInf, _) => false
    case (Fin(x), NegInf) => true
    case (Fin(x), PosInf) => false
    case (Fin(x), Fin(y)) => x > y
  }

  /** The extremes of one axis. */
  method AxisExtremes(boxes: seq<Box>, dimensions: nat, dim: nat)
    returns (minIndex: nat, maxIndex: nat, minLower: real, maxUpper: real)
    requires SameSize(boxes, dimensions) && |boxes| > 0 && dim < dimensions
    ensures FirstLowest(boxes, dim, minIndex) && FirstHighest(boxes, dim, maxIndex)
    ensures minLower == boxes[minIndex][dim].lo && maxUpper == boxes[maxIndex][dim].lo
  {
    minIndex, maxIndex := 0, 0;
    minLower, maxUpper := BoxMin(boxes[0], dim), BoxMax(boxes[0], dim);
    for index := 1 to |boxes|
      invariant 0 <= minIndex < index && 0 <= maxIndex < index
      invariant minLower == boxes[minIndex][dim].lo && maxUpper == boxes[maxIndex][dim].lo
      invariant forall k | 0 <= k < index :: boxes[minIndex][dim].lo <= boxes[k][dim].lo <= boxes[maxIndex][dim].lo
      invariant forall k | 0 <= k < minIndex :: boxes[minIndex][dim].lo < boxes[k][dim].lo
      invariant forall k | 0 <= k < maxIndex :: boxes[k][dim].lo < boxes[maxIndex][dim].lo
    {
      if BoxMin(boxes[index], dim) < minLower {
        minLower, minIndex := BoxMin(boxes[index], dim), index;
      }
      if BoxMax(boxes[index], dim) > maxUpper {
        maxUpper, maxIndex := BoxMax(boxes[index], dim), index;
      }
    }
  }

  /** The best normalized separation. The extent it divides by is always zero, so the first spread axis wins. */
  method PickSeeds(boxes: seq<Box>, boundingBox: Box, dimensions: nat) returns (seed0: nat, seed1: nat)
    requires SameSize(boxes, dimensions) && |boxes| > 0 && |boundingBox| == dimensions
    ensures Seeds(boxes, dimensions, seed0, seed1)
  {
    seed0, seed1 := 0, 0;
    var best := NegInf;
    for dim := 0 to dimensions
      invariant best == NegInf || best == PosInf
      invariant best == NegInf ==> seed0 == 0 && seed1 == 0 && forall e: nat | e < dim :: LevelAt(boxes, e)
      invariant best == PosInf ==> exists d: nat :: SpreadSeeds(boxes, dimensions, d, seed0, seed1)
    {
      var minIndex, maxIndex, minLower, maxUpper := AxisExtremes(boxes, dimensions, dim);
      var denominator := BoxMax(boundingBox, dim) - BoxMin(boundingBox, dim);
      var separation := Scale(maxUpper - minLower, Reciprocal(denominator));
      SpreadOrLevel(boxes, dimensions, dim, minIndex, maxIndex);
      if Exceeds(separation, best) {
        best := separation;
        seed0, seed1 := minIndex, maxIndex;
        assert SpreadSeeds(boxes, dimensions, dim, seed0, seed1);
      }
    }
  }

  lemma SpreadOrLevel(boxes: seq<Box>, dimensions: nat, d: nat, s0: int, s1: int)
    requires SameSize(boxes, dimensions) && |boxes| > 0 && d < dimensions
    requires FirstLowest(boxes, d, s0) && FirstHighest(boxes, d, s1)
    ensures boxes[s0][d].lo <= boxes[s1][d].lo
    ensures boxes[s0][d].lo == boxes[s1][d].lo <==> LevelAt(boxes, d)
  {
  }

  class GroupAssign {
    const size: nat
    const groupAssign: array<int>
    const groups: array<Group>

    constructor (maxChildren: nat)
      ensures size == maxChildren + 1
      ensures fresh(groupAssign) && fresh(groups) && groupAssign.Length == size && groups.Length == 2
      ensures Value() == Start(size)
    {
      size := maxChildren + 1;
      groupAssign := new int[maxChildren + 1];
      groups := new Group[2](_ => Group([], 0));
      new;
      for i := 0 to maxChildren + 1
        invariant forall k | 0 <= k < i :: groupAssign[k] == -1
        invariant groups[0] == Group([], 0) && groups[1] == Group([], 0)
      {
        groupAssign[i] := -1;
      }
    }

    ghost function Value(): State
      reads groupAssign, groups
    {
      State(groupAssign[..], groups[..])
    }

    /** False where the source's assertion fires: the entry has a group already. */
    method AssignGroup(index: nat, group: nat, box: Box) returns (ok: bool)
      requires index < groupAssign.Length && group < groups.Length
      requires groups[group].count > 0 ==> |groups[group].box| == |box|
      modifies groupAssign, groups
      ensures ok <==> old(groupAssign[index]) == -1
      ensures ok ==> Value() == AssignTo(old(Value()), index, group, box)
      ensures !ok ==> Value() == old(Value())
    {
      if groupAssign[index] != -1 {
        return false;
      }
      groupAssign[index] := group;
      var newBox;
      if groups[group].count == 0 {
        newBox := box;
      } else {
        newBox := UnionBox(groups[group].box, box);
      }
      groups[group] := Group(newBox, groups[group].count + 1);
      ok := true;
    }

    /** The scan over the unassigned entries. */
    method PickNext(boxes: seq<Box>, ghost dimensions: nat) returns (chosen: nat, betterGroup: nat)
      requires groupAssign.Length == |boxes| && groups.Length == 2
      requires BothStarted(Value(), boxes, dimensions)
      requires Count(groupAssign[..], -1) > 0
      ensures IsNext(Value(), boxes, dimensions, chosen)
      ensures betterGroup == Side(Diff(Value(), boxes[chosen]))
      ensures GrowsLess(Value(), boxes[chosen], betterGroup)
      ensures Foremost(Value(), boxes, dimensions, chosen, betterGroup)
      ensures Wide(groups[0].box) && Wide(groups[1].box) ==> GoesInside(Value(), boxes[chosen], betterGroup)
    {
      var firstTime := true;
      var biggestDiff := 0.0;
      chosen, betterGroup := 0, 0;
      for index := 0 to |boxes|
        invariant firstTime ==> forall k | 0 <= k < index :: groupAssign[k] != -1
        invariant !firstTime ==> ScanBest(Value(), boxes, dimensions, index, chosen)
        invariant !firstTime ==> biggestDiff == Gap(Diff(Value(), boxes[chosen]))
        invariant !firstTime ==> betterGroup == Side(Diff(Value(), boxes[chosen]))
      {
        if groupAssign[index] == -1 {
          var box0 := UnionBox(boxes[index], groups[0].box);
          var box1 := UnionBox(boxes[index], groups[1].box);
          var growth0 := Area(box0) - Area(groups[0].box);
          var growth1 := Area(box1) - Area(groups[1].box);
          var diff := growth1 - growth0;
          assert diff == Diff(Value(), boxes[index]);
          var group;
          if diff >= 0.0 {
            group := 0;
          } else {
            group := 1;
            diff := -diff;
          }
          if !firstTime {
            ScanNext(Value(), boxes, dimensions, index, chosen);
          }
          if firstTime || diff > biggestDiff {
            firstTime := false;
            biggestDiff := diff;
            chosen := index;
            betterGroup := group;
          } else if diff == biggestDiff && groups[group].count < groups[betterGroup].count {
            chosen := index;
            betterGroup := group;
          }
        }
      }
      if firstTime {
        CountZero(groupAssign[..], -1);
      }
      NextGrowsLess(Value(), boxes, dimensions, chosen);
    }

    /** Runs the assignment to its end, from two different seeds. */
    method Distribute(boxes: seq<Box>, ghost dimensions: nat, minChildren: nat)
      requires groupAssign.Length == |boxes| == size && groups.Length == 2
      requires BothStarted(Value(), boxes, dimensions)
      modifies groupAssign, groups
      ensures Greedy(old(Value()), boxes, dimensions, minChildren, groupAssign[..])
      ensures groups[0].count == Count(groupAssign[..], 0) && groups[1].count == Count(groupAssign[..], 1)
    {
      ghost var st := Value();
      while groups[0].count + groups[1].count < size && groups[0].count < size - minChildren
            && groups[1].count < size - minChildren
        invariant BothStarted(Value(), boxes, dimensions)
        invariant forall r | Greedy(Value(), boxes, dimensions, minChildren, r) ::
                    Greedy(st, boxes, dimensions, minChildren, r)
        decreases Count(groupAssign[..], -1)
      {
        ghost var before := Value();
        CountsAddUp(groupAssign[..]);
        var chosen, betterGroup := PickNext(boxes, dimensions);
        AssignKeepsConsistent(before, boxes, dimensions, chosen, betterGroup);
        var ok := AssignGroup(chosen, betterGroup, boxes[chosen]);
        GreedyBackwards(st, before, boxes, dimensions, minChildren, chosen);
      }
      ghost var last := Value();
      if groups[0].count + groups[1].count < size {
        var group := if groups[0].count >= size - minChildren then 1 else 0;
        FillRest(boxes, dimensions, group);
      } else {
        CountsAddUp(groupAssign[..]);
        CountZero(groupAssign[..], -1);
        assert groupAssign[..] == Filled(groupAssign[..], RestSide(last, minChildren));
      }
      assert Greedy(last, boxes, dimensions, minChildren, groupAssign[..]);
    }

    method FillRest(boxes: seq<Box>, ghost dimensions: nat, group: nat)
      requires groupAssign.Length == |boxes| == size && groups.Length == 2 && group <= 1
      requires Consistent(Value(), boxes, dimensions)
      modifies groupAssign, groups
      ensures groupAssign[..] == Filled(old(groupAssign[..]), group)
      ensures Consistent(Value(), boxes, dimensions)
    {
      for i := 0 to size
        invariant Consistent(Value(), boxes, dimensions)
        invariant forall k | 0 <= k < size :: groupAssign[k] == if k < i then Filled(old(groupAssign[..]), group)[k]
                                                                else old(groupAssign[k])
      {
        if groupAssign[i] == -1 {
          AssignKeepsConsistent(Value(), boxes, dimensions, i, group);
          var ok := AssignGroup(i, group, boxes[i]);
        }
      }
    }
  }

  ghost predicate ScanBest(st: State, boxes: seq<Box>, dimensions: nat, n: nat, i: int)
    requires BothStarted(st, boxes, dimensions) && n <= |boxes|
  {
    && 0 <= i < n && st.assign[i] == -1
    && forall k | 0 <= k < n && st.assign[k] == -1 :: Precedes(st, boxes, i, k)
  }

  /** The scan takes the new entry or keeps the one it has. */
  lemma ScanNext(st: State, boxes: seq<Box>, dimensions: nat, n: nat, i: int)
    requires BothStarted(st, boxes, dimensions) && n < |boxes| && ScanBest(st, boxes, dimensions, n, i) && st.assign[n] == -1
    ensures ScanBest(st, boxes, dimensions, n + 1, if Precedes(st, boxes, i, n) then i else n)
  {
    if !Precedes(st, boxes, i, n) {
      forall k | 0 <= k < n && st.assign[k] == -1
        ensures Precedes(st, boxes, n, k)
      {
        assert Precedes(st, boxes, i, k);
      }
    }
  }

  /** What is reached after a step is reached from before it. */
  lemma GreedyBackwards(first: State, before: State, boxes: seq<Box>, dimensions: nat, minChildren: nat, i: int)
    requires BothStarted(first, boxes, dimensions) && BothStarted(before, boxes, dimensions)
    requires !Stopped(before, minChildren) && IsNext(before, boxes, dimensions, i)
    requires forall r | Greedy(before, boxes, dimensions, minChildren, r) :: Greedy(first, boxes, dimensions, minChildren, r)
    ensures BothStarted(AssignTo(before, i, Side(Diff(before, boxes[i])), boxes[i]), boxes, dimensions)
    ensures forall r | Greedy(AssignTo(before, i, Side(Diff(before, boxes[i])), boxes[i]), boxes, dimensions, minChildren, r) ::
              Greedy(first, boxes, dimensions, minChildren, r)
  {
    var g := Side(Diff(before, boxes[i]));
    AssignKeepsConsistent(before, boxes, dimensions, i, g);
    forall r | Greedy(AssignTo(before, i, g, boxes[i]), boxes, dimensions, minChildren, r)
      ensures Greedy(first, boxes, dimensions, minChildren, r)
    {
      assert GreedyStep(before, boxes, dimensions, minChildren, r, i);
      assert Greedy(before, boxes, dimensions, minChildren, r);
    }
  }
}
