/** An insertion is decided by the tree and the item: it has one outcome, and never two. */
module RTreeDecided {
  import opened Boxes
  import opened SplitSpec
  import opened RTrees
  import opened RTreeInvariant

  lemma DividedUnique(c: Config, over: seq<Entry>, l1: seq<Entry>, r1: seq<Entry>, l2: seq<Entry>, r2: seq<Entry>)
    requires SizedEntries(over, c.dimensions) && Divided(c, over, l1, r1) && Divided(c, over, l2, r2)
    ensures l1 == l2 && r1 == r2
  {
    var a1: seq<int> :| DividedBy(c, over, l1, r1, a1);
    var a2: seq<int> :| DividedBy(c, over, l2, r2, a2);
    DivisionUnique(BoxesOf(over), c.dimensions, c.minChildren, a1, a2);
  }

  /** Entries that were divided could be divided: their lower corners are not all the same. */
  lemma DividedHasSeeds(c: Config, over: seq<Entry>, l: seq<Entry>, r: seq<Entry>)
    requires SizedEntries(over, c.dimensions) && Divided(c, over, l, r)
    ensures CannotDivide(c, over) <==> |over| < 2 * c.minChildren
  {
    var a: seq<int> :| DividedBy(c, over, l, r, a);
    var s0: int, s1: int :| DividesFrom(BoxesOf(over), c.dimensions, c.minChildren, a, s0, s1);
    SeedsDiffer(BoxesOf(over), c.dimensions, s0, s1);
  }

  lemma DescendsUnique(c: Config, t: Tree, box: Box, i: int, j: int)
    requires Descends(c, t, box, i) && Descends(c, t, box, j)
    ensures i == j
  {
    BestUnique(c, t.entries, box, i, j);
  }

  lemma OverflowPath(c: Config, t: Tree, box: Box, data: Data, over: seq<Entry>) returns (i: int)
    requires Overflows(c, t, box, data, over) && t.height > 0
    ensures OverflowsVia(c, t, box, data, over, i)
  {
    i :| OverflowsVia(c, t, box, data, over, i);
  }

  lemma FitPath(c: Config, t: Tree, box: Box, data: Data, t': Tree) returns (i: int)
    requires Fits(c, t, box, data, t') && t.height > 0
    ensures FitsVia(c, t, box, data, t', i)
  {
    i :| FitsVia(c, t, box, data, t', i);
  }

  lemma {:induction false} OverflowsUnique(c: Config, t: Tree, box: Box, data: Data, over1: seq<Entry>, over2: seq<Entry>)
    requires Overflows(c, t, box, data, over1) && Overflows(c, t, box, data, over2)
    ensures over1 == over2
    decreases t, 0
  {
    if t.height > 0 {
      var i: int :| OverflowsVia(c, t, box, data, over1, i);
      var j: int :| OverflowsVia(c, t, box, data, over2, j);
      DescendsUnique(c, t, box, i, j);
      var n := |t.entries|;
      SplitsUnique(c, t.entries[i].child, box, data, over1[i].child, over1[n].child, over2[i].child, over2[n].child);
    }
  }

  lemma {:induction false} SplitsUnique(c: Config, t: Tree, box: Box, data: Data, l1: Tree, r1: Tree, l2: Tree, r2: Tree)
    requires Splits(c, t, box, data, l1, r1) && Splits(c, t, box, data, l2, r2)
    ensures l1 == l2 && r1 == r2
    decreases t, 1
  {
    var over1: seq<Entry> :| Overflows(c, t, box, data, over1) && |over1| >= 2 * c.minChildren
                             && Divided(c, over1, l1.entries, r1.entries);
    var over2: seq<Entry> :| Overflows(c, t, box, data, over2) && |over2| >= 2 * c.minChildren
                             && Divided(c, over2, l2.entries, r2.entries);
    OverflowsUnique(c, t, box, data, over1, over2);
    DividedUnique(c, over1, l1.entries, r1.entries, l2.entries, r2.entries);
  }

  /** A node whose insertion fits does not overflow. */
  lemma {:induction false} FitsOrOverflows(c: Config, t: Tree, box: Box, data: Data, t': Tree, over: seq<Entry>)
    requires Fits(c, t, box, data, t')
    ensures !Overflows(c, t, box, data, over)
    decreases t, 0
  {
    if t.height > 0 && Overflows(c, t, box, data, over) {
      var i := FitPath(c, t, box, data, t');
      var j := OverflowPath(c, t, box, data, over);
      DescendsUnique(c, t, box, i, j);
      FitsOrSplits(c, t.entries[i].child, box, data, t'.entries[i].child, over[i].child, over[|t.entries|].child);
    }
  }

  lemma {:induction false} FitsOrSplits(c: Config, t: Tree, box: Box, data: Data, t': Tree, l: Tree, r: Tree)
    ensures !Fits(c, t, box, data, t') || !Splits(c, t, box, data, l, r)
    decreases t, 1
  {
    if Fits(c, t, box, data, t') && Splits(c, t, box, data, l, r) {
      var over: seq<Entry> :| Overflows(c, t, box, data, over) && |over| >= 2 * c.minChildren
                              && Divided(c, over, l.entries, r.entries);
      FitsOrOverflows(c, t, box, data, t', over);
    }
  }

  lemma {:induction false} FitsUnique(c: Config, t: Tree, box: Box, data: Data, t1: Tree, t2: Tree)
    requires Fits(c, t, box, data, t1) && Fits(c, t, box, data, t2)
    ensures t1 == t2
    decreases t
  {
    if t.height > 0 {
      var i: int :| FitsVia(c, t, box, data, t1, i);
      var j: int :| FitsVia(c, t, box, data, t2, j);
      DescendsUnique(c, t, box, i, j);
      FitsViaUnique(c, t, box, data, t1, t2, i);
    }
  }

  lemma {:induction false} FitsViaUnique(c: Config, t: Tree, box: Box, data: Data, t1: Tree, t2: Tree, i: int)
    requires FitsVia(c, t, box, data, t1, i) && FitsVia(c, t, box, data, t2, i)
    ensures t1.entries == t2.entries
    decreases t, 0
  {
    var n, child, c1, c2 := |t.entries|, t.entries[i].child, t1.entries[i].child, t2.entries[i].child;
    if |t1.entries| == n && |t2.entries| == n {
      FitsUnique(c, child, box, data, c1, c2);
    } else if |t1.entries| == n {
      FitsOrSplits(c, child, box, data, c1, c2, t2.entries[n].child);
    } else if |t2.entries| == n {
      FitsOrSplits(c, child, box, data, c2, c1, t1.entries[n].child);
    } else {
      SplitsUnique(c, child, box, data, c1, t1.entries[n].child, c2, t2.entries[n].child);
    }
  }

  /** The tree after an insertion is determined. */
  lemma InsertedUnique(c: Config, t: Tree, box: Box, data: Data, t1: Tree, t2: Tree)
    requires Inserted(c, t, box, data, t1) && Inserted(c, t, box, data, t2)
    ensures t1 == t2
  {
    if Fits(c, t, box, data, t1) && Fits(c, t, box, data, t2) {
      FitsUnique(c, t, box, data, t1, t2);
    } else if Fits(c, t, box, data, t1) {
      FitsOrSplits(c, t, box, data, t1, t2.entries[0].child, t2.entries[1].child);
    } else if Fits(c, t, box, data, t2) {
      FitsOrSplits(c, t, box, data, t2, t1.entries[0].child, t1.entries[1].child);
    } else {
      SplitsUnique(c, t, box, data, t1.entries[0].child, t1.entries[1].child, t2.entries[0].child, t2.entries[1].child);
    }
  }

  /** An insertion stops at an overflow of the node, or for want of a child, or further down. */
  ghost predicate StopsHere(c: Config, t: Tree, box: Box, data: Data, over: seq<Entry>) {
    Overflows(c, t, box, data, over) && CannotDivide(c, over)
  }

  lemma AbortPath(c: Config, t: Tree, box: Box, data: Data, i: int)
    requires Aborts(c, t, box, data) && Descends(c, t, box, i)
    ensures (exists over :: StopsHere(c, t, box, data, over)) || Aborts(c, t.entries[i].child, box, data)
  {
    if over: seq<Entry> :| Overflows(c, t, box, data, over) && CannotDivide(c, over) {
      assert StopsHere(c, t, box, data, over);
    } else if Best(c, t.entries, box, -1) {
      BestUnique(c, t.entries, box, i, -1);
    } else {
      var j: int :| AbortsBelow(c, t, box, data, j);
      DescendsUnique(c, t, box, i, j);
    }
  }

  /** An insertion that fits does not stop the program. */
  lemma {:induction false} FitsGoesThrough(c: Config, t: Tree, box: Box, data: Data, t': Tree)
    requires Fits(c, t, box, data, t')
    ensures !Aborts(c, t, box, data)
    decreases t
  {
    forall over
      ensures !StopsHere(c, t, box, data, over)
    {
      FitsOrOverflows(c, t, box, data, t', over);
    }
    if t.height > 0 {
      var i := FitPath(c, t, box, data, t');
      var child, child' := t.entries[i].child, t'.entries[i].child;
      if Fits(c, child, box, data, child') {
        FitsGoesThrough(c, child, box, data, child');
      } else {
        SplitsGoesThrough(c, child, box, data, child', t'.entries[|t.entries|].child);
      }
      GoesThrough(c, t, box, data, i);
    }
  }

  lemma GoesThrough(c: Config, t: Tree, box: Box, data: Data, i: int)
    requires Descends(c, t, box, i) && !Aborts(c, t.entries[i].child, box, data)
    requires forall over :: !StopsHere(c, t, box, data, over)
    ensures !Aborts(c, t, box, data)
  {
    if Aborts(c, t, box, data) {
      AbortPath(c, t, box, data, i);
    }
  }

  lemma SplitPath(c: Config, t: Tree, box: Box, data: Data, l: Tree, r: Tree) returns (over: seq<Entry>)
    requires Splits(c, t, box, data, l, r)
    ensures Overflows(c, t, box, data, over) && !CannotDivide(c, over)
  {
    over :| Overflows(c, t, box, data, over) && |over| >= 2 * c.minChildren
            && Divided(c, over, l.entries, r.entries);
    DividedHasSeeds(c, over, l.entries, r.entries);
  }

  lemma StopsNowhere(c: Config, t: Tree, box: Box, data: Data, over: seq<Entry>, other: seq<Entry>)
    requires Overflows(c, t, box, data, over) && !CannotDivide(c, over)
    ensures !StopsHere(c, t, box, data, other)
  {
    if StopsHere(c, t, box, data, other) {
      OverflowsUnique(c, t, box, data, over, other);
    }
  }

  lemma {:induction false} SplitsGoesThrough(c: Config, t: Tree, box: Box, data: Data, l: Tree, r: Tree)
    requires Splits(c, t, box, data, l, r)
    ensures !Aborts(c, t, box, data)
    decreases t
  {
    var over := SplitPath(c, t, box, data, l, r);
    forall other
      ensures !StopsHere(c, t, box, data, other)
    {
      StopsNowhere(c, t, box, data, over, other);
    }
    if t.height > 0 {
      var i := OverflowPath(c, t, box, data, over);
      SplitsGoesThrough(c, t.entries[i].child, box, data, over[i].child, over[|t.entries|].child);
      GoesThrough(c, t, box, data, i);
    }
  }

  /** An insertion that has a result does not stop the program. */
  lemma InsertedGoesThrough(c: Config, t: Tree, box: Box, data: Data, t': Tree)
    requires Inserted(c, t, box, data, t')
    ensures !Aborts(c, t, box, data)
  {
    if Fits(c, t, box, data, t') {
      FitsGoesThrough(c, t, box, data, t');
    } else {
      SplitsGoesThrough(c, t, box, data, t'.entries[0].child, t'.entries[1].child);
    }
  }

  // ---------------------------------------------------------------- when nothing can ever be split

  function Leaves(items: seq<(Box, Data)>): (es: seq<Entry>)
    ensures |es| == |items|
  {
    seq(|items|, i requires 0 <= i < |items| => LeafEntry(items[i].0, items[i].1))
  }

  ghost predicate OneCorner(dimensions: nat, items: seq<(Box, Data)>) {
    && (forall i | 0 <= i < |items| :: |items[i].0| == dimensions)
    && SameLowers(BoxesOf(Leaves(items)), dimensions)
  }

  /** With a minimum above half a full node, or with boxes that share their lower corner, no insertion ever splits
      a node: such an index never grows beyond its first leaf. */
  lemma {:induction false} StuckRun(c: Config, trees: seq<Tree>, items: seq<(Box, Data)>)
    requires Legal(c) && Run(c, trees, items)
    requires c.maxChildren + 1 < 2 * c.minChildren || OneCorner(c.dimensions, items)
    ensures trees[|items|] == Tree(0, Leaves(items)) && |items| <= c.maxChildren
    decreases |items|
  {
    var n := |items| - 1;
    if n >= 0 {
      assert Run(c, trees[..n + 1], items[..n]);
      if OneCorner(c.dimensions, items) {
        OneCornerPrefix(c.dimensions, items, n);
      }
      StuckRun(c, trees[..n + 1], items[..n]);
      var (box, data) := items[n];
      var over := Leaves(items[..n]) + [LeafEntry(box, data)];
      assert over == Leaves(items);
      if !Fits(c, trees[n], box, data, trees[n + 1]) {
        SplitNeedsSeeds(c, trees[n], box, data, over, trees[n + 1].entries[0].child, trees[n + 1].entries[1].child);
      }
    }
  }

  lemma OneCornerPrefix(dimensions: nat, items: seq<(Box, Data)>, n: nat)
    requires OneCorner(dimensions, items) && n <= |items|
    ensures OneCorner(dimensions, items[..n])
  {
    var boxes, prefix := BoxesOf(Leaves(items)), BoxesOf(Leaves(items[..n]));
    assert prefix == boxes[..n];
    forall d: nat | d < dimensions
      ensures LevelAt(prefix, d)
    {
      assert LevelAt(boxes, d);
    }
  }

  /** A leaf is split only if there are entries enough for two nodes and their lower corners differ. */
  lemma SplitNeedsSeeds(c: Config, t: Tree, box: Box, data: Data, over: seq<Entry>, l: Tree, r: Tree)
    requires t.height == 0 && Splits(c, t, box, data, l, r) && over == t.entries + [LeafEntry(box, data)]
    ensures SizedEntries(over, c.dimensions) && !CannotDivide(c, over) && |over| == c.maxChildren + 1
  {
    DividedHasSeeds(c, over, l.entries, r.entries);
  }

  /** The other way round: a full leaf that cannot be divided stops the program, and only that does. */
  lemma FullLeafStops(c: Config, t: Tree, box: Box, data: Data)
    requires t.height == 0 && |t.entries| == c.maxChildren
    requires Sound(c, t) && |box| == c.dimensions
    ensures SameSize(BoxesOf(t.entries + [LeafEntry(box, data)]), c.dimensions)
    ensures Aborts(c, t, box, data)
       <==> SameLowers(BoxesOf(t.entries + [LeafEntry(box, data)]), c.dimensions) || c.maxChildren + 1 < 2 * c.minChildren
  {
    LeafAppended(c, t, box, data);
    var over := t.entries + [LeafEntry(box, data)];
    forall i | 0 <= i < |over|
      ensures |BoxesOf(over)[i]| == c.dimensions
    {
      assert over[i] in over;
    }
    assert Overflows(c, t, box, data, over);
  }
}
