/** How an overflowing node divides its entries: which two are the seeds, and in which order the rest follow. */
module SplitSpec {
  import opened Boxes

  // ---------------------------------------------------------------- seeds

  /** What the source calls the minimum and the maximum of an axis; both are the lower bound. */
  function BoxMin(b: Box, d: nat): real requires d < |b| { b[d].lo }
  function BoxMax(b: Box, d: nat): real requires d < |b| { b[d].lo }

  ghost predicate SameSize(boxes: seq<Box>, dimensions: nat) {
    forall i | 0 <= i < |boxes| :: |boxes[i]| == dimensions
  }

  ghost predicate LevelAt(boxes: seq<Box>, d: nat)
    requires forall b <- boxes :: d < |b|
  {
    forall i, j | 0 <= i < |boxes| && 0 <= j < |boxes| :: boxes[i][d].lo == boxes[j][d].lo
  }

  /** The boxes share their lower corner. */
  ghost predicate SameLowers(boxes: seq<Box>, dimensions: nat)
    requires SameSize(boxes, dimensions)
  {
    forall d: nat | d < dimensions :: LevelAt(boxes, d)
  }

  /** The first index with the smallest lower bound on axis `d`. */
  ghost predicate FirstLowest(boxes: seq<Box>, d: nat, s: int)
    requires forall b <- boxes :: d < |b|
  {
    && 0 <= s < |boxes|
    && (forall k | 0 <= k < |boxes| :: boxes[s][d].lo <= boxes[k][d].lo)
    && (forall k | 0 <= k < s :: boxes[s][d].lo < boxes[k][d].lo)
  }

  /** The first index with the largest lower bound on axis `d`. */
  ghost predicate FirstHighest(boxes: seq<Box>, d: nat, s: int)
    requires forall b <- boxes :: d < |b|
  {
    && 0 <= s < |boxes|
    && (forall k | 0 <= k < |boxes| :: boxes[k][d].lo <= boxes[s][d].lo)
    && (forall k | 0 <= k < s :: boxes[k][d].lo < boxes[s][d].lo)
  }

  /** `d` is the first axis on which the lower bounds differ. */
  ghost predicate FirstSpread(boxes: seq<Box>, dimensions: nat, d: nat)
    requires SameSize(boxes, dimensions)
  {
    d < dimensions && !LevelAt(boxes, d) && forall e: nat | e < d :: LevelAt(boxes, e)
  }

  ghost predicate SpreadSeeds(boxes: seq<Box>, dimensions: nat, d: nat, s0: int, s1: int)
    requires SameSize(boxes, dimensions)
  {
    FirstSpread(boxes, dimensions, d) && FirstLowest(boxes, d, s0) && FirstHighest(boxes, d, s1)
  }

  /** The seeds: the extremes of the first axis with a spread, and twice the first entry if there is none. */
  ghost predicate Seeds(boxes: seq<Box>, dimensions: nat, s0: int, s1: int)
    requires SameSize(boxes, dimensions)
  {
    if SameLowers(boxes, dimensions) then s0 == 0 && s1 == 0
    else exists d: nat :: SpreadSeeds(boxes, dimensions, d, s0, s1)
  }

  /** The seeds differ exactly when the lower corners do. */
  lemma SeedsDiffer(boxes: seq<Box>, dimensions: nat, s0: int, s1: int)
    requires SameSize(boxes, dimensions) && |boxes| > 0
    requires Seeds(boxes, dimensions, s0, s1)
    ensures 0 <= s0 < |boxes| && 0 <= s1 < |boxes|
    ensures s0 == s1 <==> SameLowers(boxes, dimensions)
  {
    if !SameLowers(boxes, dimensions) {
      var d: nat :| SpreadSeeds(boxes, dimensions, d, s0, s1);
      var i, j :| 0 <= i < |boxes| && 0 <= j < |boxes| && boxes[i][d].lo != boxes[j][d].lo;
    }
  }

  // ---------------------------------------------------------------- groups

  datatype Group = Group(box: Box, count: nat)

  /** The assignment of each entry (-1 for none yet) and the two groups. */
  datatype State = State(assign: seq<int>, groups: seq<Group>)

  function Start(size: nat): State {
    State(seq(size, _ => -1), [Group([], 0), Group([], 0)])
  }

  function Grown(group: Group, box: Box): Group
    requires group.count > 0 ==> |group.box| == |box|
  {
    Group(if group.count == 0 then box else UnionBox(group.box, box), group.count + 1)
  }

  /** Occurrences of `v`. */
  function Count(assign: seq<int>, v: int): nat {
    if assign == [] then 0 else Count(assign[..|assign| - 1], v) + (if assign[|assign| - 1] == v then 1 else 0)
  }

  /** The counts of the groups are true, and the boxes have their axes. */
  ghost predicate Consistent(st: State, boxes: seq<Box>, dimensions: nat) {
    && SameSize(boxes, dimensions)
    && |st.assign| == |boxes| && |st.groups| == 2
    && (forall i | 0 <= i < |st.assign| :: -1 <= st.assign[i] <= 1)
    && st.groups[0].count == Count(st.assign, 0) && st.groups[1].count == Count(st.assign, 1)
    && (st.groups[0].count > 0 ==> |st.groups[0].box| == dimensions)
    && (st.groups[1].count > 0 ==> |st.groups[1].box| == dimensions)
  }

  function AssignTo(st: State, i: int, g: int, box: Box): State
    requires 0 <= i < |st.assign| && 0 <= g < |st.groups|
    requires st.groups[g].count > 0 ==> |st.groups[g].box| == |box|
  {
    State(st.assign[i := g], st.groups[g := Grown(st.groups[g], box)])
  }

  lemma {:induction false} CountUpdate(assign: seq<int>, i: int, g: int, v: int)
    requires 0 <= i < |assign|
    ensures Count(assign[i := g], v)
         == Count(assign, v) - (if assign[i] == v then 1 else 0) + (if g == v then 1 else 0)
  {
    var n := |assign| - 1;
    if i < n {
      assert assign[i := g][..n] == assign[..n][i := g];
      CountUpdate(assign[..n], i, g, v);
    } else {
      assert assign[i := g][..n] == assign[..n];
    }
  }

  lemma {:induction false} CountsAddUp(assign: seq<int>)
    requires forall i | 0 <= i < |assign| :: -1 <= assign[i] <= 1
    ensures Count(assign, -1) + Count(assign, 0) + Count(assign, 1) == |assign|
  {
    if assign != [] {
      CountsAddUp(assign[..|assign| - 1]);
    }
  }

  lemma {:induction false} CountZero(assign: seq<int>, v: int)
    ensures Count(assign, v) == 0 <==> v !in assign
  {
    if assign != [] {
      var n := |assign| - 1;
      CountZero(assign[..n], v);
      assert assign == assign[..n] + [assign[n]];
    }
  }

  lemma AssignKeepsConsistent(st: State, boxes: seq<Box>, dimensions: nat, i: int, g: int)
    requires Consistent(st, boxes, dimensions) && 0 <= i < |boxes| && 0 <= g <= 1 && st.assign[i] == -1
    ensures Consistent(AssignTo(st, i, g, boxes[i]), boxes, dimensions)
    ensures Count(AssignTo(st, i, g, boxes[i]).assign, -1) + 1 == Count(st.assign, -1)
  {
    CountUpdate(st.assign, i, g, 0);
    CountUpdate(st.assign, i, g, 1);
    CountUpdate(st.assign, i, g, -1);
  }

  // ---------------------------------------------------------------- the next entry to assign

  function Growth(st: State, box: Box, g: int): real
    requires 0 <= g < |st.groups| && |st.groups[g].box| == |box|
  {
    Area(UnionBox(box, st.groups[g].box)) - Area(st.groups[g].box)
  }

  function Diff(st: State, box: Box): real
    requires |st.groups| == 2 && |st.groups[0].box| == |box| && |st.groups[1].box| == |box|
  {
    Growth(st, box, 1) - Growth(st, box, 0)
  }

  /** The group that grows less. */
  function Side(diff: real): int {
    if diff >= 0.0 then 0 else 1
  }

  function Gap(diff: real): real {
    if diff >= 0.0 then diff else -diff
  }

  /** Entry `i` comes before entry `k`: a larger difference, then the smaller group, then the smaller index. */
  predicate Precedes(st: State, boxes: seq<Box>, i: int, k: int)
    requires 0 <= i < |boxes| && 0 <= k < |boxes|
    requires |st.groups| == 2 && |st.groups[0].box| == |st.groups[1].box| == |boxes[i]| == |boxes[k]|
  {
    var di, dk := Diff(st, boxes[i]), Diff(st, boxes[k]);
    var ci, ck := st.groups[Side(di)].count, st.groups[Side(dk)].count;
    Gap(di) > Gap(dk) || (Gap(di) == Gap(dk) && (ci < ck || (ci == ck && i <= k)))
  }

  ghost predicate BothStarted(st: State, boxes: seq<Box>, dimensions: nat) {
    Consistent(st, boxes, dimensions) && st.groups[0].count > 0 && st.groups[1].count > 0
  }

  /** `i` is the unassigned entry that precedes all others. */
  ghost predicate IsNext(st: State, boxes: seq<Box>, dimensions: nat, i: int)
    requires BothStarted(st, boxes, dimensions)
  {
    && 0 <= i < |boxes| && st.assign[i] == -1
    && forall k | 0 <= k < |boxes| && st.assign[k] == -1 :: Precedes(st, boxes, i, k)
  }

  /** The loop ends when all are assigned or a group has taken all it may. */
  predicate Stopped(st: State, minChildren: nat)
    requires |st.groups| == 2
  {
    var size := |st.assign|;
    !(st.groups[0].count + st.groups[1].count < size
      && st.groups[0].count < size - minChildren && st.groups[1].count < size - minChildren)
  }

  /** Whatever is left goes to the group that is not full. */
  function RestSide(st: State, minChildren: nat): int
    requires |st.groups| == 2
  {
    if st.groups[0].count >= |st.assign| - minChildren then 1 else 0
  }

  function Filled(assign: seq<int>, g: int): seq<int> {
    seq(|assign|, i requires 0 <= i < |assign| => if assign[i] == -1 then g else assign[i])
  }

  /** From `st` the loop arrives at the assignment `result`. */
  ghost predicate Greedy(st: State, boxes: seq<Box>, dimensions: nat, minChildren: nat, result: seq<int>)
    requires BothStarted(st, boxes, dimensions)
    decreases Count(st.assign, -1)
  {
    if Stopped(st, minChildren) then result == Filled(st.assign, RestSide(st, minChildren))
    else exists i: int :: GreedyStep(st, boxes, dimensions, minChildren, result, i)
  }

  ghost predicate GreedyStep(st: State, boxes: seq<Box>, dimensions: nat, minChildren: nat, result: seq<int>, i: int)
    requires BothStarted(st, boxes, dimensions)
    decreases Count(st.assign, -1), 0
  {
    && IsNext(st, boxes, dimensions, i)
    && (AssignKeepsConsistent(st, boxes, dimensions, i, Side(Diff(st, boxes[i])));
        Greedy(AssignTo(st, i, Side(Diff(st, boxes[i])), boxes[i]), boxes, dimensions, minChildren, result))
  }

  function Seeded(boxes: seq<Box>, s0: int, s1: int): State
    requires 0 <= s0 < |boxes| && 0 <= s1 < |boxes|
  {
    AssignTo(AssignTo(Start(|boxes|), s0, 0, boxes[s0]), s1, 1, boxes[s1])
  }

  lemma SeededStarted(boxes: seq<Box>, dimensions: nat, s0: int, s1: int)
    requires SameSize(boxes, dimensions) && 0 <= s0 < |boxes| && 0 <= s1 < |boxes| && s0 != s1
    ensures BothStarted(Seeded(boxes, s0, s1), boxes, dimensions)
    ensures Seeded(boxes, s0, s1).groups[0].count == 1 && Seeded(boxes, s0, s1).groups[1].count == 1
  {
    var st := Start(|boxes|);
    CountZero(st.assign, 0);
    CountZero(st.assign, 1);
    AssignKeepsConsistent(st, boxes, dimensions, s0, 0);
    AssignKeepsConsistent(AssignTo(st, s0, 0, boxes[s0]), boxes, dimensions, s1, 1);
  }

  /** The division a split settles on. */
  ghost predicate Divides(boxes: seq<Box>, dimensions: nat, minChildren: nat, result: seq<int>)
    requires SameSize(boxes, dimensions)
  {
    exists s0: int, s1: int :: DividesFrom(boxes, dimensions, minChildren, result, s0, s1)
  }

  ghost predicate DividesFrom(boxes: seq<Box>, dimensions: nat, minChildren: nat, result: seq<int>, s0: int, s1: int)
    requires SameSize(boxes, dimensions)
  {
    && 0 <= s0 < |boxes| && 0 <= s1 < |boxes| && s0 != s1
    && Seeds(boxes, dimensions, s0, s1)
    && (SeededStarted(boxes, dimensions, s0, s1);
        Greedy(Seeded(boxes, s0, s1), boxes, dimensions, minChildren, result))
  }

  // ---------------------------------------------------------------- what a division is worth

  /** Neither group has taken more than it may. */
  ghost predicate Bounded(st: State, minChildren: nat)
    requires |st.groups| == 2
  {
    st.groups[0].count <= |st.assign| - minChildren && st.groups[1].count <= |st.assign| - minChildren
  }

  lemma {:induction false} FilledCounts(assign: seq<int>, g: int)
    requires 0 <= g <= 1 && forall i | 0 <= i < |assign| :: -1 <= assign[i] <= 1
    ensures Count(Filled(assign, g), g) == Count(assign, g) + Count(assign, -1)
    ensures Count(Filled(assign, g), 1 - g) == Count(assign, 1 - g)
    ensures Count(Filled(assign, g), -1) == 0
  {
    if assign != [] {
      var n := |assign| - 1;
      assert Filled(assign, g)[..n] == Filled(assign[..n], g);
      FilledCounts(assign[..n], g);
    }
  }

  /** Every entry ends up in a group, and each group gets at least its minimum if the entries can be so divided. */
  lemma {:induction false} GreedyDivides(st: State, boxes: seq<Box>, dimensions: nat, minChildren: nat, result: seq<int>)
    requires BothStarted(st, boxes, dimensions) && Bounded(st, minChildren)
    requires Greedy(st, boxes, dimensions, minChildren, result)
    ensures |result| == |boxes| && forall i | 0 <= i < |result| :: 0 <= result[i] <= 1
    ensures Count(result, 0) + Count(result, 1) == |boxes|
    ensures 2 * minChildren <= |boxes| ==> Count(result, 0) >= minChildren && Count(result, 1) >= minChildren
    decreases Count(st.assign, -1)
  {
    if Stopped(st, minChildren) {
      FilledCounts(st.assign, RestSide(st, minChildren));
      CountsAddUp(st.assign);
    } else {
      var i: int :| GreedyStep(st, boxes, dimensions, minChildren, result, i);
      var g := Side(Diff(st, boxes[i]));
      AssignKeepsConsistent(st, boxes, dimensions, i, g);
      GreedyDivides(AssignTo(st, i, g, boxes[i]), boxes, dimensions, minChildren, result);
    }
  }

  /** A division leaves each side at least its minimum if and only if there are enough entries for both. */
  lemma DivisionFair(boxes: seq<Box>, dimensions: nat, minChildren: nat, result: seq<int>)
    requires SameSize(boxes, dimensions) && minChildren + 1 <= |boxes|
    requires Divides(boxes, dimensions, minChildren, result)
    ensures |result| == |boxes| && forall i | 0 <= i < |result| :: 0 <= result[i] <= 1
    ensures Count(result, 0) + Count(result, 1) == |boxes|
    ensures Count(result, 0) >= minChildren && Count(result, 1) >= minChildren <==> 2 * minChildren <= |boxes|
  {
    var s0: int, s1: int :| DividesFrom(boxes, dimensions, minChildren, result, s0, s1);
    SeededStarted(boxes, dimensions, s0, s1);
    GreedyDivides(Seeded(boxes, s0, s1), boxes, dimensions, minChildren, result);
  }

  /** The division is determined by the boxes. */
  lemma DivisionUnique(boxes: seq<Box>, dimensions: nat, minChildren: nat, r1: seq<int>, r2: seq<int>)
    requires SameSize(boxes, dimensions)
    requires Divides(boxes, dimensions, minChildren, r1) && Divides(boxes, dimensions, minChildren, r2)
    ensures r1 == r2
  {
    var s0: int, s1: int :| DividesFrom(boxes, dimensions, minChildren, r1, s0, s1);
    var t0: int, t1: int :| DividesFrom(boxes, dimensions, minChildren, r2, t0, t1);
    SeedsUnique(boxes, dimensions, s0, s1, t0, t1);
    SeededStarted(boxes, dimensions, s0, s1);
    GreedyUnique(Seeded(boxes, s0, s1), boxes, dimensions, minChildren, r1, r2);
  }

  lemma SeedsUnique(boxes: seq<Box>, dimensions: nat, s0: int, s1: int, t0: int, t1: int)
    requires SameSize(boxes, dimensions)
    requires Seeds(boxes, dimensions, s0, s1) && Seeds(boxes, dimensions, t0, t1)
    ensures s0 == t0 && s1 == t1
  {
    if !SameLowers(boxes, dimensions) {
      var d: nat :| SpreadSeeds(boxes, dimensions, d, s0, s1);
      var e: nat :| SpreadSeeds(boxes, dimensions, e, t0, t1);
      assert d == e;
    }
  }

  lemma {:induction false} GreedyUnique(st: State, boxes: seq<Box>, dimensions: nat, minChildren: nat,
                                        r1: seq<int>, r2: seq<int>)
    requires BothStarted(st, boxes, dimensions)
    requires Greedy(st, boxes, dimensions, minChildren, r1) && Greedy(st, boxes, dimensions, minChildren, r2)
    ensures r1 == r2
    decreases Count(st.assign, -1)
  {
    if !Stopped(st, minChildren) {
      var i: int :| GreedyStep(st, boxes, dimensions, minChildren, r1, i);
      var j: int :| GreedyStep(st, boxes, dimensions, minChildren, r2, j);
      assert Precedes(st, boxes, i, j) && Precedes(st, boxes, j, i);
      var g := Side(Diff(st, boxes[i]));
      AssignKeepsConsistent(st, boxes, dimensions, i, g);
      GreedyUnique(AssignTo(st, i, g, boxes[i]), boxes, dimensions, minChildren, r1, r2);
    }
  }

  // ---------------------------------------------------------------- where a division puts an entry

  /** How much larger the group's box must become to take in another. */
  function Swelling(groupBox: Box, box: Box): real
    requires |groupBox| == |box|
  {
    Area(UnionBox(groupBox, box)) - Area(groupBox)
  }

  /** Group `g` grows less than the other; the first group also takes what suits both alike. */
  ghost predicate GrowsLess(st: State, box: Box, g: int)
    requires |st.groups| == 2 && |st.groups[0].box| == |st.groups[1].box| == |box|
  {
    || (g == 0 && Swelling(st.groups[0].box, box) <= Swelling(st.groups[1].box, box))
    || (g == 1 && Swelling(st.groups[1].box, box) < Swelling(st.groups[0].box, box))
  }

  /** How much the choice of the group matters. */
  function Stake(st: State, box: Box): real
    requires |st.groups| == 2 && |st.groups[0].box| == |st.groups[1].box| == |box|
  {
    var s0, s1 := Swelling(st.groups[0].box, box), Swelling(st.groups[1].box, box);
    if s0 <= s1 then s1 - s0 else s0 - s1
  }

  /** No other waiting entry has more at stake; among equals this one's group is smaller, and then it comes first. */
  ghost predicate Foremost(st: State, boxes: seq<Box>, dimensions: nat, i: int, g: int)
    requires BothStarted(st, boxes, dimensions) && 0 <= i < |boxes| && 0 <= g <= 1
  {
    forall k, h | 0 <= k < |boxes| && st.assign[k] == -1 && GrowsLess(st, boxes[k], h) ::
      || Stake(st, boxes[i]) > Stake(st, boxes[k])
      || (&& Stake(st, boxes[i]) == Stake(st, boxes[k])
          && (st.groups[g].count < st.groups[h].count || (st.groups[g].count == st.groups[h].count && i <= k)))
  }

  /** If one group's box alone encloses the entry, the entry goes there. */
  ghost predicate GoesInside(st: State, box: Box, g: int)
    requires |st.groups| == 2 && 0 <= g <= 1
  {
    Encloses(st.groups[1 - g].box, box) ==> Encloses(st.groups[g].box, box)
  }

  lemma UnionOtherWay(a: Box, b: Box)
    requires |a| == |b|
    ensures Swelling(a, b) == Area(UnionBox(b, a)) - Area(a)
  {
    UnionCommutes(a, b);
  }

  /** The next entry to assign, in terms of areas. */
  lemma NextGrowsLess(st: State, boxes: seq<Box>, dimensions: nat, i: int)
    requires BothStarted(st, boxes, dimensions) && IsNext(st, boxes, dimensions, i)
    ensures var g := Side(Diff(st, boxes[i]));
            && 0 <= g <= 1 && GrowsLess(st, boxes[i], g) && Foremost(st, boxes, dimensions, i, g)
            && (Wide(st.groups[0].box) && Wide(st.groups[1].box) ==> GoesInside(st, boxes[i], g))
  {
    var b0, b1, g := st.groups[0].box, st.groups[1].box, Side(Diff(st, boxes[i]));
    UnionOtherWay(b0, boxes[i]);
    UnionOtherWay(b1, boxes[i]);
    forall k, h | 0 <= k < |boxes| && st.assign[k] == -1 && GrowsLess(st, boxes[k], h)
      ensures Precedes(st, boxes, i, k) && h == Side(Diff(st, boxes[k])) && Stake(st, boxes[k]) == Gap(Diff(st, boxes[k]))
    {
      UnionOtherWay(b0, boxes[k]);
      UnionOtherWay(b1, boxes[k]);
    }
    if Wide(b0) && Wide(b1) {
      GrowthOfUnion(boxes[i], b0);
      GrowthOfUnion(boxes[i], b1);
    }
  }

  // ---------------------------------------------------------------- every step of a division

  /** Each group's box is the least around the entries assigned to the group. */
  ghost predicate Covering(st: State, boxes: seq<Box>)
    requires |st.groups| == 2 && |st.assign| == |boxes|
  {
    && (forall b: Box :: Encloses(b, st.groups[0].box) <==> EnclosesAll(b, boxes, st.assign, 0))
    && (forall b: Box :: Encloses(b, st.groups[1].box) <==> EnclosesAll(b, boxes, st.assign, 1))
  }

  ghost predicate EnclosesAll(b: Box, boxes: seq<Box>, assign: seq<int>, g: int)
    requires |assign| == |boxes|
  {
    forall i | 0 <= i < |boxes| && assign[i] == g :: Encloses(b, boxes[i])
  }

  lemma EnclosesOneMore(b: Box, boxes: seq<Box>, assign: seq<int>, i: int, g: int)
    requires |assign| == |boxes| && 0 <= i < |boxes| && assign[i] == -1 && 0 <= g <= 1
    ensures EnclosesAll(b, boxes, assign[i := g], g) <==> EnclosesAll(b, boxes, assign, g) && Encloses(b, boxes[i])
    ensures EnclosesAll(b, boxes, assign[i := g], 1 - g) <==> EnclosesAll(b, boxes, assign, 1 - g)
  {
    var next := assign[i := g];
    if EnclosesAll(b, boxes, next, g) {
      assert next[i] == g;
      forall k | 0 <= k < |boxes| && assign[k] == g
        ensures Encloses(b, boxes[k])
      {
        assert next[k] == g;
      }
    }
    if EnclosesAll(b, boxes, next, 1 - g) {
      forall k | 0 <= k < |boxes| && assign[k] == 1 - g
        ensures Encloses(b, boxes[k])
      {
        assert next[k] == 1 - g;
      }
    }
  }

  lemma CoveringKept(st: State, boxes: seq<Box>, dimensions: nat, i: int, g: int)
    requires BothStarted(st, boxes, dimensions) && Covering(st, boxes)
    requires 0 <= i < |boxes| && st.assign[i] == -1 && 0 <= g <= 1
    ensures Covering(AssignTo(st, i, g, boxes[i]), boxes)
  {
    var next := AssignTo(st, i, g, boxes[i]);
    forall b: Box
      ensures Encloses(b, next.groups[0].box) <==> EnclosesAll(b, boxes, next.assign, 0)
      ensures Encloses(b, next.groups[1].box) <==> EnclosesAll(b, boxes, next.assign, 1)
    {
      UnionLeast(st.groups[g].box, boxes[i], b);
      EnclosesOneMore(b, boxes, st.assign, i, g);
    }
  }

  lemma SeededCovering(boxes: seq<Box>, dimensions: nat, s0: int, s1: int)
    requires SameSize(boxes, dimensions) && 0 <= s0 < |boxes| && 0 <= s1 < |boxes| && s0 != s1
    ensures Covering(Seeded(boxes, s0, s1), boxes)
  {
    var st := Seeded(boxes, s0, s1);
    assert st.groups[0].box == boxes[s0] && st.groups[1].box == boxes[s1];
    assert st.assign[s0] == 0 && st.assign[s1] == 1;
  }

  /** The box of a group with an entry has extent if all entries have. */
  lemma GroupsWide(st: State, boxes: seq<Box>, dimensions: nat)
    requires BothStarted(st, boxes, dimensions) && Covering(st, boxes) && forall b <- boxes :: Wide(b)
    ensures Wide(st.groups[0].box) && Wide(st.groups[1].box)
  {
    CountZero(st.assign, 0);
    CountZero(st.assign, 1);
    forall g | 0 <= g <= 1
      ensures Wide(st.groups[g].box)
    {
      var i :| 0 <= i < |st.assign| && st.assign[i] == g;
      EnclosesItself(st.groups[g].box);
      assert Encloses(st.groups[g].box, boxes[i]) && Wide(boxes[i]);
    }
  }

  /** From `st` on, each entry in turn is the foremost and goes to the group that grows less, up to the point where a
      group is full; the boxes of the groups are the covers of their entries all along. */
  ghost predicate LeastGrowth(st: State, boxes: seq<Box>, dimensions: nat, minChildren: nat, result: seq<int>)
    requires BothStarted(st, boxes, dimensions) && |result| == |boxes|
    decreases Count(st.assign, -1)
  {
    && Covering(st, boxes)
    && (Stopped(st, minChildren) || exists i: int :: LeastGrowthBy(st, boxes, dimensions, minChildren, result, i))
  }

  ghost predicate LeastGrowthBy(st: State, boxes: seq<Box>, dimensions: nat, minChildren: nat, result: seq<int>, i: int)
    requires BothStarted(st, boxes, dimensions) && |result| == |boxes|
    decreases Count(st.assign, -1), 0
  {
    && 0 <= i < |boxes| && st.assign[i] == -1 && 0 <= result[i] <= 1
    && GrowsLess(st, boxes[i], result[i])
    && Foremost(st, boxes, dimensions, i, result[i])
    && ((forall b <- boxes :: Wide(b)) ==> GoesInside(st, boxes[i], result[i]))
    && (AssignKeepsConsistent(st, boxes, dimensions, i, result[i]);
        LeastGrowth(AssignTo(st, i, result[i], boxes[i]), boxes, dimensions, minChildren, result))
  }

  /** What is assigned stays assigned. */
  lemma {:induction false} GreedyKeeps(st: State, boxes: seq<Box>, dimensions: nat, minChildren: nat, result: seq<int>)
    requires BothStarted(st, boxes, dimensions) && Greedy(st, boxes, dimensions, minChildren, result)
    ensures |result| == |boxes| && forall k | 0 <= k < |boxes| && st.assign[k] != -1 :: result[k] == st.assign[k]
    decreases Count(st.assign, -1)
  {
    if !Stopped(st, minChildren) {
      var i: int :| GreedyStep(st, boxes, dimensions, minChildren, result, i);
      var g := Side(Diff(st, boxes[i]));
      AssignKeepsConsistent(st, boxes, dimensions, i, g);
      GreedyKeeps(AssignTo(st, i, g, boxes[i]), boxes, dimensions, minChildren, result);
    }
  }

  lemma {:induction false} GreedyGrowsLeast(st: State, boxes: seq<Box>, dimensions: nat, minChildren: nat, result: seq<int>)
    requires BothStarted(st, boxes, dimensions) && Covering(st, boxes) && |result| == |boxes|
    requires Greedy(st, boxes, dimensions, minChildren, result)
    ensures LeastGrowth(st, boxes, dimensions, minChildren, result)
    decreases Count(st.assign, -1)
  {
    if !Stopped(st, minChildren) {
      var i: int :| GreedyStep(st, boxes, dimensions, minChildren, result, i);
      var g := Side(Diff(st, boxes[i]));
      AssignKeepsConsistent(st, boxes, dimensions, i, g);
      var next := AssignTo(st, i, g, boxes[i]);
      GreedyKeeps(next, boxes, dimensions, minChildren, result);
      assert next.assign[i] == g == result[i];
      NextGrowsLess(st, boxes, dimensions, i);
      if forall b <- boxes :: Wide(b) {
        GroupsWide(st, boxes, dimensions);
      }
      CoveringKept(st, boxes, dimensions, i, g);
      GreedyGrowsLeast(next, boxes, dimensions, minChildren, result);
      assert LeastGrowthBy(st, boxes, dimensions, minChildren, result, i);
    }
  }

  /** A division starts with the lowest entry on the first axis with a spread in the first group and the highest in the
      second, and goes on by least growth. */
  lemma DivisionGrowsLeast(boxes: seq<Box>, dimensions: nat, minChildren: nat, result: seq<int>)
    returns (d: nat, s0: int, s1: int)
    requires SameSize(boxes, dimensions) && Divides(boxes, dimensions, minChildren, result)
    ensures SpreadSeeds(boxes, dimensions, d, s0, s1) && s0 != s1
    ensures |result| == |boxes| && result[s0] == 0 && result[s1] == 1
    ensures BothStarted(Seeded(boxes, s0, s1), boxes, dimensions)
    ensures LeastGrowth(Seeded(boxes, s0, s1), boxes, dimensions, minChildren, result)
  {
    s0, s1 :| DividesFrom(boxes, dimensions, minChildren, result, s0, s1);
    SeedsDiffer(boxes, dimensions, s0, s1);
    d :| SpreadSeeds(boxes, dimensions, d, s0, s1);
    SeededStarted(boxes, dimensions, s0, s1);
    SeededCovering(boxes, dimensions, s0, s1);
    var st := Seeded(boxes, s0, s1);
    GreedyKeeps(st, boxes, dimensions, minChildren, result);
    assert st.assign[s0] == 0 && st.assign[s1] == 1;
    GreedyGrowsLeast(st, boxes, dimensions, minChildren, result);
  }
}
