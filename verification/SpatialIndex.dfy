/** The spatial index: an R-tree grown by insertion, split where it overflows, searched by overlap. */
module SpatialIndexes {
  import opened Boxes
  import opened SplitSpec
  import opened GroupAssigns
  import opened RTrees
  import opened RTreeDecided
  import opened RTreeInvariant
  import opened RTreeSearch
  import opened SpatialNodes

  /** `Aborted` stands for a failed assertion, or for indexing with -1. */
  datatype AddResult = Added | SplitInto(sibling: Node) | Aborted

  // ---------------------------------------------------------------- the parts of a split

  /** Entries taken out of their node: each is ready to be stored, and no two share anything. */
  ghost predicate Loose(buf: seq<SubNode>, height: nat, maxChildren: nat, pool: set<object>)
    reads set k | 0 <= k < |buf| && buf[k].child != null :: buf[k].child
    reads pool
  {
    && (forall k {:trigger LooseSlot(buf[k], height, maxChildren, pool)} | 0 <= k < |buf| ::
          LooseSlot(buf[k], height, maxChildren, pool))
    && forall k, l {:trigger ChildRepr(buf[k]), ChildRepr(buf[l])} | 0 <= k < l < |buf| ::
         ChildRepr(buf[k]) !! ChildRepr(buf[l])
  }

  ghost predicate LooseSlot(s: SubNode, height: nat, maxChildren: nat, pool: set<object>)
    reads s.child, pool
  {
    if height == 0 then s.child == null
    else
      && s.child != null && s.child in pool && s.child.Repr <= pool
      && s.child.height + 1 == height && s.child.subNodes.Length == maxChildren && s.child.Valid()
  }

  /** Two nodes being filled from the loose entries, of which those from `index` on are still to come. */
  ghost predicate Placing(a: Node, b: Node, buf: seq<SubNode>, index: nat, over: seq<Entry>, pool: set<object>)
    reads a, b, a.Repr, b.Repr, pool
    reads set k | 0 <= k < |buf| && buf[k].child != null :: buf[k].child
  {
    && a.Valid() && b.Valid() && a.Repr !! b.Repr
    && a.height == b.height && a.subNodes.Length == b.subNodes.Length
    && a !in pool && a.subNodes !in pool && b !in pool && b.subNodes !in pool
    && a.Repr <= {a, a.subNodes} + pool && b.Repr <= {b, b.subNodes} + pool
    && Loose(buf, a.height, a.subNodes.Length, pool)
    && |buf| == |over| && (forall k | 0 <= k < |buf| :: EntryOf(buf[k]) == over[k])
    && forall k | index <= k < |buf| :: ChildRepr(buf[k]) !! a.Repr && ChildRepr(buf[k]) !! b.Repr
  }

  /** Puts the next entry into `a`. */
  method Place(a: Node, b: Node, buf: seq<SubNode>, index: nat, ghost over: seq<Entry>, ghost pool: set<object>)
    requires Placing(a, b, buf, index, over, pool) && index < |buf| && a.csize < a.subNodes.Length
    modifies a, a.subNodes
    ensures Placing(a, b, buf, index + 1, over, pool)
    ensures a.view == Tree(a.height, old(a.view.entries) + [over[index]]) && b.view == old(b.view)
  {
    assert LooseSlot(buf[index], a.height, a.subNodes.Length, pool);
    a.Append(buf[index]);
    forall k | 0 <= k < |buf|
      ensures LooseSlot(buf[k], a.height, a.subNodes.Length, pool)
      ensures ChildRepr(buf[k]) == old(ChildRepr(buf[k])) && EntryOf(buf[k]) == old(EntryOf(buf[k]))
    {
      assert old(LooseSlot(buf[k], a.height, a.subNodes.Length, pool));
    }
  }

  /** Puts each entry into the node its group names. */
  method Redistribute(buf: seq<SubNode>, assign: seq<int>, node: Node, ghost over: seq<Entry>, ghost pool: set<object>)
    returns (sibling: Node)
    requires |buf| == |assign| == |over|
    requires Loose(buf, node.height, node.subNodes.Length, pool)
    requires node !in pool && node.subNodes !in pool
    requires node.Valid()
    requires forall i | 0 <= i < |assign| :: 0 <= assign[i] <= 1
    requires Count(assign, 0) <= node.subNodes.Length && Count(assign, 1) <= node.subNodes.Length
    requires forall k | 0 <= k < |buf| :: EntryOf(buf[k]) == over[k]
    modifies node, node.subNodes
    ensures node.Valid() && node.view == Tree(node.height, Picked(over, assign, 0))
    ensures sibling.Valid() && sibling.view == Tree(node.height, Picked(over, assign, 1))
    ensures fresh(sibling) && fresh(sibling.subNodes)
    ensures sibling.height == node.height && sibling.subNodes.Length == node.subNodes.Length
    ensures node.Repr <= {node, node.subNodes} + pool && sibling.Repr <= {sibling, sibling.subNodes} + pool
    ensures node.Repr !! sibling.Repr
  {
    node.Clear();
    sibling := new Node(node.subNodes.Length, node.height);
    forall k | 0 <= k < |buf|
      ensures LooseSlot(buf[k], node.height, node.subNodes.Length, pool) && ChildRepr(buf[k]) <= pool
      ensures ChildRepr(buf[k]) == old(ChildRepr(buf[k]))
    {
      assert old(LooseSlot(buf[k], node.height, node.subNodes.Length, pool));
    }
    for index := 0 to |buf|
      invariant Placing(node, sibling, buf, index, over, pool)
      invariant node.view == Tree(node.height, Picked(over[..index], assign[..index], 0))
      invariant sibling.view == Tree(node.height, Picked(over[..index], assign[..index], 1))
    {
      PickedNext(over, assign, index);
      PickedFits(over, assign, index, assign[index]);
      if assign[index] == 0 {
        Place(node, sibling, buf, index, over, pool);
      } else {
        Place(sibling, node, buf, index, over, pool);
      }
    }
    assert over[..|buf|] == over && assign[..|buf|] == assign;
  }

  lemma PickedNext(es: seq<Entry>, assign: seq<int>, i: nat)
    requires |es| == |assign| && i < |es|
    ensures forall g :: Picked(es[..i + 1], assign[..i + 1], g)
                        == Picked(es[..i], assign[..i], g) + (if assign[i] == g then [es[i]] else [])
  {
    assert es[..i + 1][..i] == es[..i] && assign[..i + 1][..i] == assign[..i];
  }

  /** A node still has room for an entry of its group. */
  lemma PickedFits(es: seq<Entry>, assign: seq<int>, i: nat, g: int)
    requires |es| == |assign| && i < |es|
    ensures assign[i] == g ==> |Picked(es[..i], assign[..i], g)| < Count(assign, g)
  {
    PickedCount(es[..i], assign[..i], g);
    CountPrefix(assign, i + 1, g);
    assert assign[..i + 1][..i] == assign[..i];
  }

  lemma {:induction false} CountPrefix(assign: seq<int>, i: nat, g: int)
    requires i <= |assign|
    ensures Count(assign[..i], g) <= Count(assign, g)
    decreases |assign| - i
  {
    if i == |assign| {
      assert assign[..i] == assign;
    } else {
      CountPrefix(assign, i + 1, g);
      assert assign[..i + 1][..i] == assign[..i];
    }
  }

  /** Chooses the seeds and runs the assignment; fails where an assertion of the source does. */
  method Divide(boxes: seq<Box>, boundingBox: Box, dimensions: nat, minChildren: nat)
    returns (ok: bool, assign: seq<int>)
    requires SameSize(boxes, dimensions) && |boundingBox| == dimensions
    requires minChildren + 1 <= |boxes|
    ensures ok <==> !SameLowers(boxes, dimensions) && 2 * minChildren <= |boxes|
    ensures ok ==> Divides(boxes, dimensions, minChildren, assign)
  {
    assign := [];
    var seed0, seed1 := PickSeeds(boxes, boundingBox, dimensions);
    SeedsDiffer(boxes, dimensions, seed0, seed1);
    var groupAssign := new GroupAssign(|boxes| - 1);
    var first := groupAssign.AssignGroup(seed0, 0, boxes[seed0]);
    ok := groupAssign.AssignGroup(seed1, 1, boxes[seed1]);
    if !ok {
      return;
    }
    SeededStarted(boxes, dimensions, seed0, seed1);
    assert groupAssign.Value() == Seeded(boxes, seed0, seed1);
    groupAssign.Distribute(boxes, dimensions, minChildren);
    assign := groupAssign.groupAssign[..];
    assert DividesFrom(boxes, dimensions, minChildren, assign, seed0, seed1);
    DivisionFair(boxes, dimensions, minChildren, assign);
    ok := groupAssign.groups[0].count >= minChildren && groupAssign.groups[1].count >= minChildren;
  }

  // ---------------------------------------------------------------- the index

  class SpatialIndex {
    const config: Config
    var root: Node
    var size: nat

    ghost predicate Valid()
      reads this, root, root.Repr
    {
      && Legal(config)
      && root.Valid() && this !in root.Repr
      && root.subNodes.Length == config.maxChildren
      && Indexed(config, root.view)
      && size == |Items(root.view)|
    }

    constructor (config: Config)
      requires Legal(config)
      ensures Valid() && fresh(root) && fresh(root.Repr)
      ensures this.config == config && root.view == EMPTY && size == 0
    {
      this.config := config;
      root := new Node(config.maxChildren, 0);
      size := 0;
    }

    /** The covering box of a node that is not empty. */
    method NodeCover(node: Node) returns (box: Box)
      requires node.Valid() && Coverable(node.view)
      ensures box == Cover(node.view.entries)
    {
      ghost var es := node.view.entries;
      node.InPlace(0);
      box := node.subNodes[0].box;
      for index := 1 to node.csize
        invariant forall e <- es[..index] :: |e.box| == |es[..index][0].box|
        invariant box == Cover(es[..index])
      {
        node.InPlace(index);
        assert es[index] in es && es[0] in es;
        assert es[..index + 1][..index] == es[..index];
        box := UnionBox(box, node.subNodes[index].box);
      }
      assert es[..node.csize] == es;
    }

    /** The first entry that is cheapest to enlarge, or -1. */
    method SelectBestSubNode(box: Box, node: Node) returns (bestIndex: int)
      requires node.Valid() && SizedEntries(node.view.entries, |box|)
      ensures Best(config, node.view.entries, box, bestIndex)
      ensures bestIndex >= 0 && (forall e <- node.view.entries :: Wide(e.box))
              && (exists e <- node.view.entries :: Encloses(e.box, box)) ==>
                TakesIn(node.view.entries, box, bestIndex)
    {
      ghost var es := node.view.entries;
      bestIndex := -1;
      var bestIncr, bestArea := config.areaMax, config.areaMax;
      for index := 0 to node.csize
        invariant -1 <= bestIndex < index
        invariant bestIndex == -1 ==> bestIncr == config.areaMax && bestArea == config.areaMax
        invariant bestIndex >= 0 ==> bestIncr == Increase(box, es[bestIndex]) && bestArea == Area(es[bestIndex].box)
        invariant BestSoFar(config, es, box, bestIndex, index)
      {
        assert es[index] in es;
        node.InPlace(index);
        var tBox := UnionBox(box, node.subNodes[index].box);
        var area := Area(node.subNodes[index].box);
        var increase := Area(tBox) - area;
        BestNext(config, es, box, bestIndex, index);
        if increase < bestIncr || (increase == bestIncr && area < bestArea) {
          bestIndex, bestIncr, bestArea := index, increase, area;
        }
      }
      if bestIndex >= 0 && forall e <- es :: Wide(e.box) {
        forall k | 0 <= k < |es| && Encloses(es[k].box, box)
          ensures TakesIn(es, box, bestIndex)
        {
          BestTakesIn(config, es, box, bestIndex, k);
        }
      }
    }

    /** Stores the entry, splitting a full node. */
    method AddSubNode(s: SubNode, node: Node) returns (r: AddResult)
      requires Legal(config)
      requires node.Valid() && node.subNodes.Length == config.maxChildren && node.Accepts(s)
      requires SizedEntries(node.view.entries + [EntryOf(s)], config.dimensions)
      modifies node, node.subNodes
      ensures r.Added? <==> old(node.csize) < config.maxChildren
      ensures r.Added? ==> node.Valid() && node.Repr == old(node.Repr) + old(ChildRepr(s))
                           && node.view == Tree(node.height, old(node.view.entries) + [old(EntryOf(s))])
      ensures r.SplitInto? ==> SplitDone(config, node, r.sibling, old(node.view.entries) + [old(EntryOf(s))])
                               && node.Repr <= old(node.Repr) + old(ChildRepr(s))
                               && fresh(r.sibling.Repr - (old(node.Repr) + old(ChildRepr(s))))
      ensures r.Aborted? ==> CannotDivide(config, old(node.view.entries) + [old(EntryOf(s))])
    {
      if node.csize < config.maxChildren {
        node.Append(s);
        r := Added;
      } else {
        r := SplitNode(s, node);
      }
    }

    /** Divides the entries of a full node and one more between the node and a new sibling. */
    method SplitNode(s: SubNode, node: Node) returns (r: AddResult)
      requires Legal(config)
      requires node.Valid() && node.subNodes.Length == config.maxChildren == node.csize && node.Accepts(s)
      requires SizedEntries(node.view.entries + [EntryOf(s)], config.dimensions)
      modifies node, node.subNodes
      ensures !r.Added?
      ensures r.SplitInto? ==> SplitDone(config, node, r.sibling, old(node.view.entries) + [old(EntryOf(s))])
                               && node.Repr <= old(node.Repr) + old(ChildRepr(s))
                               && fresh(r.sibling.Repr - (old(node.Repr) + old(ChildRepr(s))))
      ensures r.Aborted? <==> CannotDivide(config, old(node.view.entries) + [old(EntryOf(s))])
    {
      ghost var over := node.view.entries + [EntryOf(s)];
      ghost var pool := node.Repr + ChildRepr(s) - {node, node.subNodes};
      PoolInside(node.Repr, ChildRepr(s), node, node.subNodes);
      var ok, buf, assign := PrepareSplit(s, node, over, pool);
      if !ok {
        return Aborted;
      }
      var sibling := Redistribute(buf, assign, node, over, pool);
      r := SplitInto(sibling);
    }

    /** Collects the entries and settles who goes where. */
    method PrepareSplit(s: SubNode, node: Node, ghost over: seq<Entry>, ghost pool: set<object>)
      returns (ok: bool, buf: seq<SubNode>, assign: seq<int>)
      requires Legal(config)
      requires node.Valid() && node.subNodes.Length == config.maxChildren == node.csize && node.Accepts(s)
      requires over == node.view.entries + [EntryOf(s)] && SizedEntries(over, config.dimensions)
      requires pool == node.Repr + ChildRepr(s) - {node, node.subNodes}
      ensures node.Valid() && |buf| == |over|
      ensures !ok <==> CannotDivide(config, over)
      ensures Loose(buf, node.height, node.subNodes.Length, pool)
      ensures forall k | 0 <= k < |buf| :: EntryOf(buf[k]) == over[k]
      ensures ok ==>
                && |assign| == |over| && |over| >= 2 * config.minChildren
                && (forall i | 0 <= i < |assign| :: 0 <= assign[i] <= 1)
                && Count(assign, 0) <= config.maxChildren && Count(assign, 1) <= config.maxChildren
                && Divided(config, over, Picked(over, assign, 0), Picked(over, assign, 1))
    {
      var boundingBox;
      buf, boundingBox := Overflow(s, node);
      ok, assign := DivideEntries(buf, boundingBox, over);
      LooseOverflow(s, node, buf, pool);
    }

    method DivideEntries(buf: seq<SubNode>, boundingBox: Box, ghost over: seq<Entry>) returns (ok: bool, assign: seq<int>)
      requires Legal(config) && |buf| == |over| == config.maxChildren + 1
      requires SizedEntries(over, config.dimensions) && |boundingBox| == config.dimensions
      requires forall k | 0 <= k < |buf| :: EntryOf(buf[k]) == over[k]
      ensures !ok <==> CannotDivide(config, over)
      ensures ok ==>
                && |assign| == |over| && |over| >= 2 * config.minChildren
                && (forall i | 0 <= i < |assign| :: 0 <= assign[i] <= 1)
                && Count(assign, 0) <= config.maxChildren && Count(assign, 1) <= config.maxChildren
                && Divided(config, over, Picked(over, assign, 0), Picked(over, assign, 1))
    {
      var boxes := seq(|buf|, i requires 0 <= i < |buf| => buf[i].box);
      assert boxes == BoxesOf(over);
      OverSized(config, over);
      ok, assign := Divide(boxes, boundingBox, config.dimensions, config.minChildren);
      if ok {
        DivisionFair(boxes, config.dimensions, config.minChildren, assign);
        assert DividedBy(config, over, Picked(over, assign, 0), Picked(over, assign, 1), assign);
      }
    }

    /** Copies the entries and the new one, and unites their boxes. */
    method Overflow(s: SubNode, node: Node) returns (buf: seq<SubNode>, boundingBox: Box)
      requires Legal(config)
      requires node.Valid() && node.subNodes.Length == config.maxChildren == node.csize && node.Accepts(s)
      requires SizedEntries(node.view.entries + [EntryOf(s)], config.dimensions)
      ensures buf == node.subNodes[..] + [s]
      ensures forall k | 0 <= k < |buf| :: EntryOf(buf[k]) == (node.view.entries + [EntryOf(s)])[k]
      ensures |boundingBox| == config.dimensions
    {
      ghost var over := node.view.entries + [EntryOf(s)];
      var overflowBuffer := new SubNode[config.maxChildren + 1](_ => SubNode([], null, 0));
      assert over[0] in over;
      node.InPlace(0);
      boundingBox := node.subNodes[0].box;
      for i := 0 to config.maxChildren
        invariant forall k | 0 <= k < i :: overflowBuffer[k] == node.subNodes[k]
        invariant |boundingBox| == config.dimensions
      {
        assert over[i] in over;
        node.InPlace(i);
        overflowBuffer[i] := node.subNodes[i];
        boundingBox := UnionBox(boundingBox, overflowBuffer[i].box);
      }
      overflowBuffer[config.maxChildren] := s;
      assert over[config.maxChildren] in over;
      boundingBox := UnionBox(boundingBox, s.box);
      buf := overflowBuffer[..];
      forall k | 0 <= k < |buf|
        ensures EntryOf(buf[k]) == over[k]
      {
        if k < config.maxChildren {
          node.InPlace(k);
        }
      }
    }

    /** Inserts below `node`: into a leaf, or into the best child. */
    method RecursivelyInsertSubNode(box: Box, data: Data, node: Node) returns (r: AddResult)
      requires Legal(config) && |box| == config.dimensions
      requires node.Valid() && node.subNodes.Length == config.maxChildren && Sound(config, node.view)
      modifies node.Repr
      ensures Reached(config, old(node.view), box, data, node, r)
      ensures !r.Aborted? ==> fresh(node.Repr - old(node.Repr))
      ensures r.SplitInto? ==> fresh(r.sibling.Repr - old(node.Repr))
      decreases node.height, 2
    {
      ghost var t := node.view;
      if node.height == 0 {
        r := InsertIntoLeaf(box, data, node);
        return;
      }
      var index := SelectBestSubNode(box, node);
      if index == -1 {
        return Aborted;
      }
      node.InPlace(index);
      assert EntrySound(config, t.height, t.entries[index]);
      assert Descends(config, t, box, index);
      r := InsertIntoChild(box, data, node, index);
    }

    /** Inserts below the chosen child, whose stored box follows. */
    method InsertIntoChild(box: Box, data: Data, node: Node, index: nat) returns (r: AddResult)
      requires Legal(config) && |box| == config.dimensions
      requires node.Valid() && node.subNodes.Length == config.maxChildren && Sound(config, node.view)
      requires Descends(config, node.view, box, index)
      modifies node.Repr
      ensures Reached(config, old(node.view), box, data, node, r)
      ensures !r.Aborted? ==> fresh(node.Repr - old(node.Repr))
      ensures r.SplitInto? ==> fresh(r.sibling.Repr - old(node.Repr))
      decreases node.height, 1
    {
      ghost var t := node.view;
      node.InPlace(index);
      assert EntrySound(config, t.height, t.entries[index]);
      var child := node.subNodes[index].child;
      ghost var gone := child.Repr;
      var below;
      ghost var pool;
      below, pool := InsertBelow(box, data, node, index, child);
      if below.Aborted? {
        assert AbortsBelow(config, t, box, data, index);
        r := Aborted;
      } else if below.SplitInto? {
        r := StoreHalves(box, data, node, index, child, below, t, gone, pool);
        assert r.SplitInto? ==> fresh(r.sibling.Repr - pool);
      } else {
        StoreGrown(box, data, node, index, child, t, gone, pool);
        r := Added;
      }
    }

    method InsertIntoLeaf(box: Box, data: Data, node: Node) returns (r: AddResult)
      requires Legal(config) && |box| == config.dimensions
      requires node.Valid() && node.subNodes.Length == config.maxChildren && Sound(config, node.view) && node.height == 0
      modifies node, node.subNodes
      ensures Reached(config, old(node.view), box, data, node, r)
      ensures !r.Aborted? ==> node.Repr <= old(node.Repr)
      ensures r.SplitInto? ==> fresh(r.sibling.Repr - old(node.Repr))
    {
      LeafAppended(config, node.view, box, data);
      ghost var over := node.view.entries + [LeafEntry(box, data)];
      r := AddTo(box, data, SubNode(box, null, data), node, node.view, over, node.Repr);
    }

    /** Adds the entry that turns the entries of `t` into `over`; `pool` holds all there is below. */
    method AddTo(box: Box, data: Data, s: SubNode, node: Node,
                 ghost t: Tree, ghost over: seq<Entry>, ghost pool: set<object>)
      returns (r: AddResult)
      requires Legal(config)
      requires node.Valid() && node.subNodes.Length == config.maxChildren && node.Accepts(s)
      requires node.height == t.height && node.csize == |t.entries| && node.view.entries + [EntryOf(s)] == over
      requires AddsUp(config, t, box, data, over)
      requires node.Repr + ChildRepr(s) <= pool
      modifies node, node.subNodes
      ensures Reached(config, t, box, data, node, r)
      ensures !r.Aborted? ==> node.Repr <= pool
      ensures r.SplitInto? ==> fresh(r.sibling.Repr - pool)
    {
      r := AddSubNode(s, node);
    }

    /** The recursive call; the node itself and its other children stay as they are. */
    method InsertBelow(box: Box, data: Data, node: Node, index: nat, child: Node)
      returns (r: AddResult, ghost pool: set<object>)
      requires Legal(config) && |box| == config.dimensions
      requires node.Valid() && node.subNodes.Length == config.maxChildren && Sound(config, node.view)
      requires Descends(config, node.view, box, index) && node.subNodes[index].child == child
      modifies child.Repr
      ensures unchanged(node) && unchanged(node.subNodes)
      ensures Stored(config, node.view, box, data, node, index, child, r, old(child.Repr), pool)
      ensures !r.Aborted? ==> fresh(child.Repr - old(child.Repr))
      ensures fresh(pool - old(node.Repr))
      decreases node.height, 0
    {
      ghost var gone := child.Repr;
      node.InPlace(index);
      assert node.ChildAt(index) == child && node.ReprAt(index) == gone;
      assert EntrySound(config, node.height, node.view.entries[index]);
      r := RecursivelyInsertSubNode(box, data, child);
      pool := node.Repr;
      if r.Aborted? {
        return;
      }
      pool := node.Repr + child.Repr + (if r.SplitInto? then r.sibling.Repr else {});
      forall j | 0 <= j < node.csize && j != index
        ensures node.Within(j)
      {
        assert old(node.Within(j));
      }
      forall j | 0 <= j < node.csize && j != index
        ensures node.Inside(j) && node.Slot(j) && node.Spared(j, child, gone)
      {
        assert old(node.Slot(j)) && old(node.Within(j)) && old(node.Inside(j));
        assert old(node.Apart(if j < index then j else index, if j < index then index else j));
      }
      forall j, k | 0 <= j < k < node.csize && j != index && k != index
        ensures node.Apart(j, k)
      {
        assert old(node.Slot(j)) && old(node.Slot(k)) && old(node.Apart(j, k));
        assert node.Spared(j, child, gone) && node.Spared(k, child, gone);
      }
    }

    /** The child was not split: its box is united with the new one. */
    method StoreGrown(box: Box, data: Data, node: Node, index: nat, child: Node,
                      ghost t: Tree, ghost gone: set<object>, ghost pool: set<object>)
      requires |box| == config.dimensions && Sound(config, t)
      requires t == node.view && Descends(config, t, box, index)
      requires index < node.subNodes.Length && node.subNodes[index].box == t.entries[index].box
      requires Stored(config, t, box, data, node, index, child, Added, gone, pool)
      modifies node, node.subNodes
      ensures node.Valid() && node.Repr == old(node.Repr) - gone + child.Repr
      ensures Fits(config, t, box, data, node.view)
    {
      assert EntrySound(config, t.height, t.entries[index]);
      DescentFits(config, t, box, data, index, child.view);
      node.Refresh(index, child, UnionBox(node.subNodes[index].box, box), gone);
    }

    /** The child was split: its box is recomputed and its new sibling becomes an entry of the node. */
    method StoreHalves(box: Box, data: Data, node: Node, index: nat, child: Node, below: AddResult,
                       ghost t: Tree, ghost gone: set<object>, ghost pool: set<object>)
      returns (r: AddResult)
      requires Legal(config) && |box| == config.dimensions && Sound(config, t)
      requires t == node.view && Descends(config, t, box, index) && node.subNodes.Length == config.maxChildren
      requires below.SplitInto? && Stored(config, t, box, data, node, index, child, below, gone, pool)
      modifies node, node.subNodes
      ensures Reached(config, t, box, data, node, r)
      ensures !r.Aborted? ==> node.Repr <= pool
      ensures r.SplitInto? ==> fresh(r.sibling.Repr - pool)
    {
      var sibling := below.sibling;
      DescentSplits(config, t, box, data, index, child.view, sibling.view);
      ghost var over := t.entries[index := Covered(child.view)] + [Covered(sibling.view)];
      var s := CoverHalves(node, index, child, sibling, gone, pool);
      assert node.view.entries + [EntryOf(s)] == over;
      r := AddTo(box, data, s, node, t, over, pool);
    }

    /** Recomputes the box of the split child and makes an entry of its sibling. */
    method CoverHalves(node: Node, index: nat, child: Node, sibling: Node, ghost gone: set<object>, ghost pool: set<object>)
      returns (s: SubNode)
      requires node.ValidBut(index, child, gone) && Coverable(child.view) && Coverable(sibling.view)
      requires sibling.Valid() && child.Repr !! sibling.Repr && sibling.Repr !! node.Repr - gone
      requires sibling.height + 1 == node.height && sibling.subNodes.Length == node.subNodes.Length
      requires node.Repr - gone + child.Repr + sibling.Repr <= pool
      modifies node, node.subNodes
      ensures node.Valid() && node.Accepts(s) && s.child == sibling && EntryOf(s) == Covered(old(sibling.view))
      ensures node.csize == old(node.csize)
      ensures node.view == Tree(node.height, old(node.view.entries)[index := Covered(old(child.view))])
      ensures node.Repr + ChildRepr(s) <= pool
    {
      var childBox := NodeCover(child);
      var siblingBox := NodeCover(sibling);
      node.Refresh(index, child, childBox, gone);
      s := SubNode(siblingBox, sibling, 0);
    }

    /** The root grows by a level when it was split. */
    method InsertSubNode(box: Box, data: Data) returns (ok: bool)
      requires Valid() && |box| == config.dimensions
      modifies this`root, root.Repr
      ensures ok ==> root.Valid() && root.subNodes.Length == config.maxChildren && fresh(root.Repr - old(root.Repr))
      ensures ok ==> Inserted(config, old(root.view), box, data, root.view)
      ensures !ok ==> Aborts(config, old(root.view), box, data)
    {
      ghost var t := root.view;
      var r := RecursivelyInsertSubNode(box, data, root);
      if r.Aborted? {
        return false;
      }
      if r.SplitInto? {
        SplitsKeeps(config, t, box, data, root.view, r.sibling.view);
        HalvesCoverable(config, t, root.view, r.sibling.view, box, data);
        root := GrowRoot(root, r.sibling);
      }
      ok := true;
    }

    /** A new root over the two halves of the old one. */
    method GrowRoot(left: Node, right: Node) returns (newRoot: Node)
      requires Legal(config)
      requires left.Valid() && right.Valid() && left.Repr !! right.Repr && left.height == right.height
      requires left.subNodes.Length == right.subNodes.Length == config.maxChildren
      requires Coverable(left.view) && Coverable(right.view)
      ensures newRoot.Valid() && newRoot.subNodes.Length == config.maxChildren
      ensures newRoot.view == Tree(left.height + 1, [Covered(left.view), Covered(right.view)])
      ensures fresh(newRoot.Repr - left.Repr - right.Repr)
    {
      var leftBox := NodeCover(left);
      var rightBox := NodeCover(right);
      newRoot := new Node(config.maxChildren, left.height + 1);
      newRoot.Append(SubNode(leftBox, left, 0));
      newRoot.Append(SubNode(rightBox, right, 0));
    }

    /** Adds one item, or stops where the program would. */
    method Insert(box: Box, data: Data) returns (ok: bool)
      requires Valid() && |box| == config.dimensions
      modifies this, root.Repr
      ensures ok ==> Valid() && fresh(root.Repr - old(root.Repr))
      ensures ok ==> Inserted(config, old(root.view), box, data, root.view)
      ensures ok ==> Items(root.view) == old(Items(root.view)) + multiset{(box, data)} && size == old(size) + 1
      ensures ok <==> !Aborts(config, old(root.view), box, data)
    {
      ghost var t := root.view;
      ok := InsertSubNode(box, data);
      if !ok {
        return;
      }
      InsertedKeeps(config, t, box, data, root.view);
      InsertedGoesThrough(config, t, box, data, root.view);
      size := size + 1;
    }

    /** Hands the overlapping items to the callback, in the order of the tree. */
    method SearchTag(target: Box, callback: Callback) returns (delivered: seq<Item>)
      requires Valid()
      ensures delivered == SearchTree(root.view, target, callback, [])
      ensures forall x: Item :: multiset(delivered)[x] <= Wanted(Items(root.view), target, x)
      ensures AlwaysGoesOn(callback) ==> forall x: Item :: multiset(delivered)[x] == Wanted(Items(root.view), target, x)
    {
      delivered := RecursivelySearchTag(target, root, callback, []);
      SoundIsLeveled(config, root.view);
      forall x: Item
        ensures multiset(delivered)[x] <= Wanted(Items(root.view), target, x)
        ensures AlwaysGoesOn(callback) ==> multiset(delivered)[x] == Wanted(Items(root.view), target, x)
      {
        SearchDelivers(root.view, target, callback, [], x);
        assert Delivers([], delivered, Items(root.view), target, x, AlwaysGoesOn(callback));
      }
    }

    method RecursivelySearchTag(target: Box, node: Node, callback: Callback, out: seq<Item>) returns (delivered: seq<Item>)
      requires node.Valid()
      ensures delivered == SearchTree(node.view, target, callback, out)
      ensures node.height == 0 ==>
                exists m :: AskedUpTo(Overlapping(node.view.entries, target), callback, out, delivered, m)
      decreases node.height
    {
      delivered := out;
      ghost var es := node.view.entries;
      assert es[0..] == es;
      for i := 0 to node.csize
        invariant SearchEntries(node.height == 0, es, target, callback, out)
               == SearchEntries(node.height == 0, es[i..], target, callback, delivered)
      {
        node.InPlace(i);
        assert es[i..][0] == es[i] && es[i..][1..] == es[i + 1..];
        var s := node.subNodes[i];
        if node.height == 0 && IsOverlap(s.box, target) {
          delivered := delivered + [(s.box, s.data)];
          if !callback(delivered) {
            break;
          }
        }
        if s.child != null {
          delivered := RecursivelySearchTag(target, s.child, callback, delivered);
        }
      }
      if node.height == 0 {
        forall k | 0 <= k < |es|
          ensures es[k].LeafEntry?
        {
          node.InPlace(k);
        }
        ghost var m := LeafAsks(es, target, callback, out);
      }
    }
  }

  /** The entries of `t` with the new item below or among them, as they are stored when nothing is split here. */
  ghost predicate AddsUp(c: Config, t: Tree, box: Box, data: Data, over: seq<Entry>) {
    && SizedEntries(over, c.dimensions)
    && (|t.entries| < c.maxChildren ==> Fits(c, t, box, data, Tree(t.height, over)))
    && (|t.entries| == c.maxChildren ==> Overflows(c, t, box, data, over))
  }

  lemma HalvesCoverable(c: Config, t: Tree, left: Tree, right: Tree, box: Box, data: Data)
    requires HalvesSound(c, t, left, right, box, data) && c.minChildren > 0
    ensures Coverable(left) && Coverable(right)
  {
    assert left.entries[0] in left.entries && right.entries[0] in right.entries;
  }

  /** The scan after `n` entries. */
  ghost predicate BestSoFar(c: Config, es: seq<Entry>, box: Box, i: int, n: nat)
    requires SizedEntries(es, |box|) && n <= |es|
  {
    if i == -1 then forall k | 0 <= k < n :: !Affordable(c, box, es[k])
    else
      && 0 <= i < n && Affordable(c, box, es[i])
      && (forall k | 0 <= k < n :: !CheaperEntry(box, es[k], es[i]))
      && (forall k | 0 <= k < i :: CheaperEntry(box, es[i], es[k]))
  }

  /** One more entry: it is the best so far, or what was the best stays so. */
  lemma BestNext(c: Config, es: seq<Entry>, box: Box, i: int, n: nat)
    requires SizedEntries(es, |box|) && n < |es| && BestSoFar(c, es, box, i, n)
    ensures var better := if i == -1 then Affordable(c, box, es[n]) else CheaperEntry(box, es[n], es[i]);
            BestSoFar(c, es, box, if better then n else i, n + 1)
  {
  }

  lemma OverSized(c: Config, over: seq<Entry>)
    requires SizedEntries(over, c.dimensions)
    ensures SameSize(BoxesOf(over), c.dimensions)
  {
    forall i | 0 <= i < |over|
      ensures |BoxesOf(over)[i]| == c.dimensions
    {
      assert over[i] in over;
    }
  }

  lemma PoolInside<T>(a: set<T>, b: set<T>, x: T, y: T)
    requires x in a && y in a
    ensures {x, y} + (a + b - {x, y}) <= a + b
    ensures x !in a + b - {x, y} && y !in a + b - {x, y}
  {
  }

  /** Two valid nodes of one size and one height that share nothing. */
  ghost predicate Twins(node: Node, sibling: Node)
    reads node, node.Repr, sibling, sibling.Repr
  {
    && node.Valid() && sibling.Valid() && node.Repr !! sibling.Repr
    && sibling.height == node.height && sibling.subNodes.Length == node.subNodes.Length
  }

  /** What an insertion below the `i`-th child has left: everything is in place but that child, which used to be
      `gone`; `pool` holds all there is below now. */
  ghost predicate Stored(c: Config, t: Tree, box: Box, data: Data, node: Node, i: nat, child: Node, r: AddResult,
                         gone: set<object>, pool: set<object>)
    requires Descends(c, t, box, i)
    reads node, node.Repr, node.subNodes, child, child.Repr
    reads if r.SplitInto? then {r.sibling} + r.sibling.Repr else {}
  {
    && Reached(c, t.entries[i].child, box, data, child, r)
    && (!r.Aborted? ==> node.ValidBut(i, child, gone) && node.Repr - gone + child.Repr <= pool)
    && (r.SplitInto? ==> r.sibling.Repr <= pool && r.sibling.Repr !! node.Repr - gone)
  }

  /** What an insertion into `t`, which was the tree below `node`, has come to. */
  ghost predicate Reached(c: Config, t: Tree, box: Box, data: Data, node: Node, r: AddResult)
    reads node, node.Repr
    reads if r.SplitInto? then {r.sibling} + r.sibling.Repr else {}
  {
    match r
    case Added => node.Valid() && Fits(c, t, box, data, node.view)
    case SplitInto(sibling) => Twins(node, sibling) && Splits(c, t, box, data, node.view, sibling.view)
    case Aborted => Aborts(c, t, box, data)
  }

  /** The two nodes of a finished split. */
  ghost predicate SplitDone(c: Config, node: Node, sibling: Node, over: seq<Entry>)
    requires SizedEntries(over, c.dimensions)
    reads node, node.Repr, sibling, sibling.Repr
  {
    && Twins(node, sibling)
    && |over| >= 2 * c.minChildren
    && Divided(c, over, node.view.entries, sibling.view.entries)
  }

  /** The entries of a full node and one it accepts are loose once the node itself is left out. */
  lemma LooseOverflow(s: SubNode, node: Node, buf: seq<SubNode>, pool: set<object>)
    requires node.Valid() && node.csize == node.subNodes.Length && node.Accepts(s)
    requires buf == node.subNodes[..] + [s]
    requires pool == node.Repr + ChildRepr(s) - {node, node.subNodes}
    ensures Loose(buf, node.height, node.subNodes.Length, pool)
  {
    forall k | 0 <= k < |buf|
      ensures LooseSlot(buf[k], node.height, node.subNodes.Length, pool)
    {
      if k < node.csize {
        node.InPlace(k);
      }
    }
    forall k, l | 0 <= k < l < |buf|
      ensures ChildRepr(buf[k]) !! ChildRepr(buf[l])
    {
      node.InPlace(k);
      if l < node.csize {
        node.InPlace(l);
        assert node.Apart(k, l);
      }
    }
  }
}
