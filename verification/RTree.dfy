/** The tree as a value: what an insertion may turn it into, and what every such step keeps. */
module RTrees {
  import opened Boxes
  import opened SplitSpec

  /** Stands for the data type parameter; the index only copies it. */
  type Data = int

  datatype Entry =
    | LeafEntry(box: Box, data: Data)
    | InnerEntry(box: Box, child: Tree)

  datatype Tree = Tree(height: nat, entries: seq<Entry>)

  /** The template parameters, and the largest number of the area type. */
  datatype Config = Config(dimensions: nat, maxChildren: nat, minChildren: nat, areaMax: real)

  /** What the class asserts at compile time. */
  predicate Legal(c: Config) {
    c.dimensions > 0 && c.maxChildren > c.minChildren > 0
  }

  // ---------------------------------------------------------------- covers

  /** The union of all boxes, from the first on. */
  function Cover(es: seq<Entry>): Box
    requires es != [] && forall e <- es :: |e.box| == |es[0].box|
    ensures |Cover(es)| == |es[0].box|
  {
    var n := |es| - 1;
    if n == 0 then es[0].box else UnionBox(Cover(es[..n]), es[n].box)
  }

  ghost predicate SizedEntries(es: seq<Entry>, dimensions: nat) {
    forall e <- es :: |e.box| == dimensions
  }

  /** The box encloses every entry's box. */
  ghost predicate Bounds(b: Box, es: seq<Entry>) {
    forall e <- es :: Encloses(b, e.box)
  }

  /** The cover is the least such box. */
  lemma {:induction false} CoverLeast(es: seq<Entry>, dimensions: nat, b: Box)
    requires es != [] && SizedEntries(es, dimensions)
    ensures Encloses(b, Cover(es)) <==> Bounds(b, es)
  {
    var n := |es| - 1;
    var first, last := es[..n], es[n];
    assert es == first + [last];
    BoundsAppend(b, first, last);
    if first != [] {
      CoverLeast(first, dimensions, b);
      CoverUnion(first, last, dimensions);
      UnionLeast(Cover(first), last.box, b);
    }
  }

  lemma CoverUnion(es: seq<Entry>, e: Entry, dimensions: nat)
    requires es != [] && SizedEntries(es, dimensions) && |e.box| == dimensions
    ensures SizedEntries(es + [e], dimensions) && |Cover(es)| == dimensions
    ensures Cover(es + [e]) == UnionBox(Cover(es), e.box)
  {
    assert (es + [e])[..|es|] == es;
  }

  lemma BoundsAppend(b: Box, es: seq<Entry>, e: Entry)
    ensures Bounds(b, es + [e]) <==> Bounds(b, es) && Encloses(b, e.box)
  {
    if Bounds(b, es + [e]) {
      assert e in es + [e];
      forall f | f in es
        ensures Encloses(b, f.box)
      {
        assert f in es + [e];
      }
    }
  }

  // ---------------------------------------------------------------- contents

  function Items(t: Tree): multiset<(Box, Data)>
    decreases t, 1
  {
    ItemsOf(t.entries)
  }

  function ItemsOf(es: seq<Entry>): multiset<(Box, Data)>
    decreases es, 0
  {
    if es == [] then multiset{} else ItemsOf(es[..|es| - 1]) + EntryItems(es[|es| - 1])
  }

  function EntryItems(e: Entry): multiset<(Box, Data)>
    decreases e, 2
  {
    match e
    case LeafEntry(box, data) => multiset{(box, data)}
    case InnerEntry(_, child) => Items(child)
  }

  lemma ItemsAppend(es: seq<Entry>, e: Entry)
    ensures ItemsOf(es + [e]) == ItemsOf(es) + EntryItems(e)
  {
    assert (es + [e])[..|es|] == es;
  }

  lemma AddBetween<T>(a: multiset<T>, b: multiset<T>, c: multiset<T>, d: multiset<T>, x: multiset<T>)
    requires a + b == c + d
    ensures (a + x) + b == (c + x) + d
  {
    assert (a + x) + b == (a + b) + x && (c + x) + d == (c + d) + x;
  }

  lemma AddOnEitherSide<T>(a: multiset<T>, b: multiset<T>, x: multiset<T>)
    ensures (a + x) + b == (a + b) + x && a + (b + x) == (a + b) + x
  {
  }

  lemma {:induction false} ItemsUpdate(es: seq<Entry>, i: nat, e: Entry)
    requires i < |es|
    ensures ItemsOf(es[i := e]) + EntryItems(es[i]) == ItemsOf(es) + EntryItems(e)
  {
    var n := |es| - 1;
    if i < n {
      assert es[i := e][..n] == es[..n][i := e];
      ItemsUpdate(es[..n], i, e);
      AddBetween(ItemsOf(es[..n][i := e]), EntryItems(es[i]), ItemsOf(es[..n]), EntryItems(e), EntryItems(es[n]));
    } else {
      assert es[i := e][..n] == es[..n];
    }
  }

  // ---------------------------------------------------------------- the invariant of a tree

  ghost predicate EntrySound(c: Config, height: nat, e: Entry)
    decreases e
  {
    && |e.box| == c.dimensions
    && match e
       case LeafEntry(_, _) => height == 0
       case InnerEntry(box, child) =>
         && height == child.height + 1
         && child.entries != [] && c.minChildren <= |child.entries|
         && Sound(c, child)
         && box == Cover(child.entries)
  }

  /** All leaves at one depth, every stored box the cover of its child, every node below within its limits. */
  ghost predicate Sound(c: Config, t: Tree)
    decreases t
  {
    && |t.entries| <= c.maxChildren
    && SizedEntries(t.entries, c.dimensions)
    && (t.height > 0 ==> t.entries != [])
    && forall e {:trigger EntrySound(c, t.height, e)} | e in t.entries :: EntrySound(c, t.height, e)
  }

  /** A sound tree whose root, if it is not a leaf, has at least two entries. */
  ghost predicate Indexed(c: Config, t: Tree) {
    Sound(c, t) && (t.height > 0 ==> |t.entries| >= 2)
  }

  // ---------------------------------------------------------------- the best child

  function Increase(box: Box, e: Entry): real
    requires |box| == |e.box|
  {
    Area(UnionBox(box, e.box)) - Area(e.box)
  }

  /** Smaller increase, then smaller area. */
  predicate Cheaper(inc1: real, area1: real, inc2: real, area2: real) {
    inc1 < inc2 || (inc1 == inc2 && area1 < area2)
  }

  predicate CheaperEntry(box: Box, e: Entry, f: Entry)
    requires |box| == |e.box| == |f.box|
  {
    Cheaper(Increase(box, e), Area(e.box), Increase(box, f), Area(f.box))
  }

  /** The entry is below the largest number, so the scan can take it at all. */
  predicate Affordable(c: Config, box: Box, e: Entry)
    requires |box| == |e.box|
  {
    Cheaper(Increase(box, e), Area(e.box), c.areaMax, c.areaMax)
  }

  /** The first cheapest entry, or -1 when none is below the largest number. */
  ghost predicate Best(c: Config, es: seq<Entry>, box: Box, i: int)
    requires SizedEntries(es, |box|)
  {
    if i == -1 then forall k | 0 <= k < |es| :: !Affordable(c, box, es[k])
    else
      && 0 <= i < |es| && Affordable(c, box, es[i])
      && (forall k | 0 <= k < |es| :: !CheaperEntry(box, es[k], es[i]))
      && (forall k | 0 <= k < i :: CheaperEntry(box, es[i], es[k]))
  }

  lemma BestUnique(c: Config, es: seq<Entry>, box: Box, i: int, j: int)
    requires SizedEntries(es, |box|) && Best(c, es, box, i) && Best(c, es, box, j)
    ensures i == j
  {
  }

  /** Entry `i` encloses the box, and of those that do it is an innermost, and the first of its kind. */
  ghost predicate TakesIn(es: seq<Entry>, box: Box, i: int) {
    && 0 <= i < |es| && Encloses(es[i].box, box)
    && forall k | 0 <= k < |es| && Encloses(es[k].box, box) && Encloses(es[i].box, es[k].box) ::
         es[k].box == es[i].box && i <= k
  }

  /** For boxes with extent: if some entry encloses the new box, the best entry is one that takes it in. */
  lemma BestTakesIn(c: Config, es: seq<Entry>, box: Box, i: int, k: int)
    requires SizedEntries(es, |box|) && Best(c, es, box, i) && i >= 0 && forall e <- es :: Wide(e.box)
    requires 0 <= k < |es| && Encloses(es[k].box, box)
    ensures TakesIn(es, box, i)
  {
    GrowthOfUnion(box, es[k].box);
    GrowthOfUnion(box, es[i].box);
    assert !CheaperEntry(box, es[k], es[i]);
    forall j | 0 <= j < |es| && Encloses(es[j].box, box) && Encloses(es[i].box, es[j].box)
      ensures es[j].box == es[i].box && i <= j
    {
      GrowthOfUnion(box, es[j].box);
      AreaGrows(es[i].box, es[j].box);
      assert !CheaperEntry(box, es[j], es[i]);
      assert j < i ==> CheaperEntry(box, es[i], es[j]);
    }
  }

  // ---------------------------------------------------------------- dividing an overflowing node

  function BoxesOf(es: seq<Entry>): (bs: seq<Box>)
    ensures |bs| == |es|
  {
    seq(|es|, i requires 0 <= i < |es| => es[i].box)
  }

  /** The entries assigned to group `g`, in order. */
  function Picked(es: seq<Entry>, assign: seq<int>, g: int): seq<Entry>
    requires |es| == |assign|
  {
    if es == [] then []
    else
      var n := |es| - 1;
      Picked(es[..n], assign[..n], g) + (if assign[n] == g then [es[n]] else [])
  }

  /** The two nodes hold the entries of the two groups of the division. */
  ghost predicate Divided(c: Config, over: seq<Entry>, left: seq<Entry>, right: seq<Entry>)
    requires SizedEntries(over, c.dimensions)
  {
    exists assign: seq<int> :: DividedBy(c, over, left, right, assign)
  }

  ghost predicate DividedBy(c: Config, over: seq<Entry>, left: seq<Entry>, right: seq<Entry>, assign: seq<int>)
    requires SizedEntries(over, c.dimensions)
  {
    && |assign| == |over|
    && SameSize(BoxesOf(over), c.dimensions)
    && Divides(BoxesOf(over), c.dimensions, c.minChildren, assign)
    && left == Picked(over, assign, 0) && right == Picked(over, assign, 1)
  }

  /** The split stops the program: equal seeds, or too few entries for two nodes. */
  ghost predicate CannotDivide(c: Config, over: seq<Entry>)
    requires SizedEntries(over, c.dimensions)
  {
    (SameSize(BoxesOf(over), c.dimensions) ==> SameLowers(BoxesOf(over), c.dimensions)) || |over| < 2 * c.minChildren
  }

  lemma {:induction false} PickedCount(es: seq<Entry>, assign: seq<int>, g: int)
    requires |es| == |assign|
    ensures |Picked(es, assign, g)| == Count(assign, g)
  {
    if es != [] {
      var n := |es| - 1;
      PickedCount(es[..n], assign[..n], g);
    }
  }

  lemma {:induction false} PickedCovers(es: seq<Entry>, assign: seq<int>)
    requires |es| == |assign| && forall i | 0 <= i < |assign| :: 0 <= assign[i] <= 1
    ensures forall e :: e in es <==> e in Picked(es, assign, 0) || e in Picked(es, assign, 1)
  {
    if es != [] {
      var n := |es| - 1;
      PickedCovers(es[..n], assign[..n]);
      assert es == es[..n] + [es[n]];
    }
  }

  lemma {:induction false} PickedItems(es: seq<Entry>, assign: seq<int>)
    requires |es| == |assign| && forall i | 0 <= i < |assign| :: 0 <= assign[i] <= 1
    ensures ItemsOf(Picked(es, assign, 0)) + ItemsOf(Picked(es, assign, 1)) == ItemsOf(es)
  {
    if es != [] {
      var n := |es| - 1;
      PickedItems(es[..n], assign[..n]);
      var p0, p1 := Picked(es[..n], assign[..n], 0), Picked(es[..n], assign[..n], 1);
      AddOnEitherSide(ItemsOf(p0), ItemsOf(p1), EntryItems(es[n]));
      if assign[n] == 0 {
        ItemsAppend(p0, es[n]);
        assert Picked(es, assign, 1) == p1;
      } else {
        ItemsAppend(p1, es[n]);
        assert Picked(es, assign, 0) == p0;
      }
    }
  }

  /** A division loses and invents nothing, and both nodes are within their limits. */
  lemma DivisionKeeps(c: Config, over: seq<Entry>, left: seq<Entry>, right: seq<Entry>)
    requires Legal(c) && SizedEntries(over, c.dimensions) && |over| == c.maxChildren + 1
    requires Divided(c, over, left, right) && 2 * c.minChildren <= |over|
    ensures c.minChildren <= |left| <= c.maxChildren && c.minChildren <= |right| <= c.maxChildren
    ensures forall e :: e in over <==> e in left || e in right
    ensures ItemsOf(left) + ItemsOf(right) == ItemsOf(over)
  {
    var assign: seq<int> :| DividedBy(c, over, left, right, assign);
    DivisionFair(BoxesOf(over), c.dimensions, c.minChildren, assign);
    PickedCount(over, assign, 0);
    PickedCount(over, assign, 1);
    PickedItems(over, assign);
    PickedCovers(over, assign);
  }

  // ---------------------------------------------------------------- an insertion, step by step

  /** The path an insertion takes at an inner node. */
  ghost predicate Descends(c: Config, t: Tree, box: Box, i: int) {
    && t.height > 0 && SizedEntries(t.entries, |box|) && Best(c, t.entries, box, i)
    && 0 <= i < |t.entries| && t.entries[i].InnerEntry?
  }

  lemma {:induction false} EntryItemsInside(es: seq<Entry>, i: nat)
    requires i < |es|
    ensures EntryItems(es[i]) <= ItemsOf(es)
  {
    if i < |es| - 1 {
      EntryItemsInside(es[..|es| - 1], i);
    }
  }

  /** In a tree of boxes with extent every stored box has extent. */
  lemma {:induction false} StoredWide(c: Config, t: Tree, i: nat)
    requires Legal(c) && Sound(c, t) && (forall x <- Items(t) :: Wide(x.0)) && i < |t.entries|
    ensures Wide(t.entries[i].box)
    decreases t
  {
    var e := t.entries[i];
    assert EntrySound(c, t.height, e);
    EntryItemsInside(t.entries, i);
    if e.InnerEntry? {
      StoredWide(c, e.child, 0);
      EnclosesItself(e.box);
      CoverLeast(e.child.entries, c.dimensions, e.box);
      assert e.child.entries[0] in e.child.entries;
    } else {
      assert (e.box, e.data) in EntryItems(e);
    }
  }

  /** In such a tree an insertion goes down into an innermost child that encloses the new box, if there is one. */
  lemma DescentTakesIn(c: Config, t: Tree, box: Box, i: int, k: int)
    requires Legal(c) && Sound(c, t) && forall x <- Items(t) :: Wide(x.0)
    requires Descends(c, t, box, i) && 0 <= k < |t.entries| && Encloses(t.entries[k].box, box)
    ensures TakesIn(t.entries, box, i)
  {
    forall e | e in t.entries
      ensures Wide(e.box)
    {
      var j :| 0 <= j < |t.entries| && t.entries[j] == e;
      StoredWide(c, t, j);
    }
    BestTakesIn(c, t.entries, box, i, k);
  }

  function Covered(t: Tree): Entry
    requires t.entries != [] && forall e <- t.entries :: |e.box| == |t.entries[0].box|
  {
    InnerEntry(Cover(t.entries), t)
  }

  ghost predicate Coverable(t: Tree) {
    t.entries != [] && forall e <- t.entries :: |e.box| == |t.entries[0].box|
  }

  /** `t` with the new item is `t'`, and its node was not split. */
  ghost predicate Fits(c: Config, t: Tree, box: Box, data: Data, t': Tree)
    decreases t
  {
    && t'.height == t.height
    && if t.height == 0 then
         |t.entries| < c.maxChildren && t'.entries == t.entries + [LeafEntry(box, data)]
       else exists i: int :: FitsVia(c, t, box, data, t', i)
  }

  ghost predicate FitsVia(c: Config, t: Tree, box: Box, data: Data, t': Tree, i: int)
    decreases t, 0
  {
    && Descends(c, t, box, i) && i < |t'.entries| && t'.entries[i].InnerEntry?
    && var child, child' := t.entries[i].child, t'.entries[i].child;
    && (|| (&& Fits(c, child, box, data, child')
            && t'.entries == t.entries[i := InnerEntry(UnionBox(t.entries[i].box, box), child')])
        || (&& |t.entries| < c.maxChildren && |t'.entries| == |t.entries| + 1
            && t'.entries[|t.entries|].InnerEntry?
            && var sibling := t'.entries[|t.entries|].child;
            && Coverable(child') && Coverable(sibling)
            && Splits(c, child, box, data, child', sibling)
            && t'.entries == t.entries[i := Covered(child')] + [Covered(sibling)]))
  }

  /** The overflowing list of entries at the node: all of them and one more. */
  ghost predicate Overflows(c: Config, t: Tree, box: Box, data: Data, over: seq<Entry>)
    decreases t, 0
  {
    && |t.entries| == c.maxChildren && SizedEntries(over, c.dimensions)
    && if t.height == 0 then over == t.entries + [LeafEntry(box, data)]
       else exists i: int :: OverflowsVia(c, t, box, data, over, i)
  }

  ghost predicate OverflowsVia(c: Config, t: Tree, box: Box, data: Data, over: seq<Entry>, i: int)
    decreases t, 0, 0
  {
    && Descends(c, t, box, i) && |over| == |t.entries| + 1
    && over[i].InnerEntry? && over[|t.entries|].InnerEntry?
    && Coverable(over[i].child) && Coverable(over[|t.entries|].child)
    && Splits(c, t.entries[i].child, box, data, over[i].child, over[|t.entries|].child)
    && over == t.entries[i := Covered(over[i].child)] + [Covered(over[|t.entries|].child)]
  }

  /** `t` with the new item is split into `left` and `right`. */
  ghost predicate Splits(c: Config, t: Tree, box: Box, data: Data, left: Tree, right: Tree)
    decreases t, 1
  {
    && left.height == right.height == t.height
    && exists over: seq<Entry> :: Overflows(c, t, box, data, over) && |over| >= 2 * c.minChildren
                                  && Divided(c, over, left.entries, right.entries)
  }

  /** The insertion stops the program on the way: no child can be chosen, or a split fails. */
  ghost predicate Aborts(c: Config, t: Tree, box: Box, data: Data)
    decreases t
  {
    || (exists over: seq<Entry> :: Overflows(c, t, box, data, over) && CannotDivide(c, over))
    || (t.height > 0 && SizedEntries(t.entries, |box|) && Best(c, t.entries, box, -1))
    || (exists i: int :: AbortsBelow(c, t, box, data, i))
  }

  ghost predicate AbortsBelow(c: Config, t: Tree, box: Box, data: Data, i: int)
    decreases t, 0
  {
    Descends(c, t, box, i) && Aborts(c, t.entries[i].child, box, data)
  }
}
