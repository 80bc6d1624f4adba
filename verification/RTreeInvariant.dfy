/** Every insertion keeps the tree sound and adds exactly its item. */
module RTreeInvariant {
  import opened Boxes
  import opened RTrees

  ghost predicate AllSound(c: Config, height: nat, es: seq<Entry>) {
    forall e {:trigger EntrySound(c, height, e)} | e in es :: EntrySound(c, height, e)
  }

  /** What is enclosed grows by the box, and nothing else. */
  ghost predicate GrowsBy(es: seq<Entry>, es': seq<Entry>, box: Box) {
    forall b: Box :: Bounds(b, es') <==> Bounds(b, es) && Encloses(b, box)
  }

  /** One more item, and the cover grown by its box. */
  ghost predicate Gains(es: seq<Entry>, es': seq<Entry>, box: Box, data: Data) {
    ItemsOf(es') == ItemsOf(es) + multiset{(box, data)} && GrowsBy(es, es', box)
  }

  // ---------------------------------------------------------------- one entry replaced

  lemma UpdateBounds(es: seq<Entry>, i: nat, e: Entry, box: Box)
    requires i < |es|
    requires forall b: Box :: Encloses(b, e.box) <==> Encloses(b, es[i].box) && Encloses(b, box)
    ensures GrowsBy(es, es[i := e], box)
  {
    forall b: Box
      ensures Bounds(b, es[i := e]) <==> Bounds(b, es) && Encloses(b, box)
    {
      var es' := es[i := e];
      if Bounds(b, es') {
        assert es'[i] in es';
        forall f | f in es
          ensures Encloses(b, f.box)
        {
          var k :| 0 <= k < |es| && es[k] == f;
          assert es'[k] in es';
        }
      }
      if Bounds(b, es) && Encloses(b, box) {
        assert es[i] in es;
      }
    }
  }

  lemma UpdateSound(c: Config, height: nat, es: seq<Entry>, i: nat, e: Entry)
    requires i < |es| && AllSound(c, height, es) && EntrySound(c, height, e)
    ensures AllSound(c, height, es[i := e])
  {
    forall f | f in es[i := e]
      ensures EntrySound(c, height, f)
    {
      assert f == e || f in es;
    }
  }

  lemma AppendSound(c: Config, height: nat, es: seq<Entry>, e: Entry)
    requires AllSound(c, height, es) && EntrySound(c, height, e)
    ensures AllSound(c, height, es + [e])
  {
  }

  /** Two trees covered by boxes grow together when their entries do. */
  lemma CoverGrows(es: seq<Entry>, es': seq<Entry>, dimensions: nat, box: Box)
    requires es != [] && es' != [] && SizedEntries(es, dimensions) && SizedEntries(es', dimensions) && |box| == dimensions
    requires GrowsBy(es, es', box)
    ensures Cover(es') == UnionBox(Cover(es), box)
  {
    assert es[0] in es && es'[0] in es';
    forall b: Box
      ensures Encloses(b, Cover(es')) <==> Encloses(b, UnionBox(Cover(es), box))
    {
      CoverLeast(es', dimensions, b);
      CoverLeast(es, dimensions, b);
      UnionLeast(Cover(es), box, b);
    }
    SameEnclosers(Cover(es'), UnionBox(Cover(es), box));
  }

  // ---------------------------------------------------------------- a child without a split

  /** The stored box united with the new one is the cover recomputed. */
  lemma ChildFits(c: Config, height: nat, e: Entry, child': Tree, box: Box, data: Data)
    requires e.InnerEntry? && EntrySound(c, height, e) && |box| == c.dimensions
    requires child'.height == e.child.height && Sound(c, child') && |e.child.entries| <= |child'.entries|
    requires Gains(e.child.entries, child'.entries, box, data)
    ensures EntrySound(c, height, InnerEntry(UnionBox(e.box, box), child'))
    ensures EntryItems(InnerEntry(UnionBox(e.box, box), child')) == EntryItems(e) + multiset{(box, data)}
    ensures forall b: Box :: Encloses(b, UnionBox(e.box, box)) <==> Encloses(b, e.box) && Encloses(b, box)
  {
    CoverGrows(e.child.entries, child'.entries, c.dimensions, box);
    forall b: Box
      ensures Encloses(b, UnionBox(e.box, box)) <==> Encloses(b, e.box) && Encloses(b, box)
    {
      UnionLeast(e.box, box, b);
    }
  }

  lemma ReplacedGains(es: seq<Entry>, i: nat, e: Entry, box: Box, data: Data)
    requires i < |es|
    requires EntryItems(e) == EntryItems(es[i]) + multiset{(box, data)}
    requires forall b: Box :: Encloses(b, e.box) <==> Encloses(b, es[i].box) && Encloses(b, box)
    ensures Gains(es, es[i := e], box, data)
  {
    UpdateBounds(es, i, e, box);
    ItemsUpdate(es, i, e);
    CancelItems(ItemsOf(es[i := e]), EntryItems(es[i]), ItemsOf(es), multiset{(box, data)});
  }

  lemma CancelItems<T>(a: multiset<T>, x: multiset<T>, b: multiset<T>, y: multiset<T>)
    requires a + x == b + (x + y)
    ensures a == b + y
  {
    forall k
      ensures a[k] == (b + y)[k]
    {
      assert (a + x)[k] == (b + (x + y))[k];
    }
  }

  // ---------------------------------------------------------------- a child that was split

  /** Both halves of a split, stored with their covers, in place of the one child. */
  lemma SplitChildGains(c: Config, height: nat, es: seq<Entry>, i: nat, left: Tree, right: Tree, box: Box, data: Data)
    requires i < |es| && es[i].InnerEntry? && AllSound(c, height, es)
    requires SizedEntries(es, c.dimensions) && |box| == c.dimensions
    requires HalvesSound(c, es[i].child, left, right, box, data) && c.minChildren > 0
    ensures Coverable(left) && Coverable(right)
    ensures AllSound(c, height, es[i := Covered(left)] + [Covered(right)])
    ensures SizedEntries(es[i := Covered(left)] + [Covered(right)], c.dimensions)
    ensures Gains(es, es[i := Covered(left)] + [Covered(right)], box, data)
  {
    assert es[i] in es && EntrySound(c, height, es[i]);
    assert left.entries[0] in left.entries && right.entries[0] in right.entries;
    var l, r := Covered(left), Covered(right);
    assert EntrySound(c, height, l) && EntrySound(c, height, r);
    UpdateSound(c, height, es, i, l);
    AppendSound(c, height, es[i := l], r);
    SplitChildItems(es, i, l, r, box, data);
    assert Sound(c, es[i].child) && es[i].child.entries[0] in es[i].child.entries;
    SplitChildBounds(c, es, i, left, right, box, data);
  }

  lemma SplitChildItems(es: seq<Entry>, i: nat, l: Entry, r: Entry, box: Box, data: Data)
    requires i < |es|
    requires EntryItems(l) + EntryItems(r) == EntryItems(es[i]) + multiset{(box, data)}
    ensures ItemsOf(es[i := l] + [r]) == ItemsOf(es) + multiset{(box, data)}
  {
    ItemsUpdate(es, i, l);
    ItemsAppend(es[i := l], r);
    MergeHalves(ItemsOf(es[i := l]), EntryItems(es[i]), ItemsOf(es), EntryItems(l), EntryItems(r), multiset{(box, data)});
  }

  lemma MergeHalves<T>(a: multiset<T>, x: multiset<T>, b: multiset<T>, l: multiset<T>, r: multiset<T>, y: multiset<T>)
    requires a + x == b + l && l + r == x + y
    ensures a + r == b + y
  {
    forall k
      ensures (a + r)[k] == (b + y)[k]
    {
      assert (a + x)[k] == (b + l)[k] && (l + r)[k] == (x + y)[k];
    }
  }

  lemma SplitChildBounds(c: Config, es: seq<Entry>, i: nat, left: Tree, right: Tree, box: Box, data: Data)
    requires i < |es| && es[i].InnerEntry? && Coverable(es[i].child) && es[i].box == Cover(es[i].child.entries)
    requires SizedEntries(es[i].child.entries, c.dimensions)
    requires SizedEntries(left.entries, c.dimensions) && SizedEntries(right.entries, c.dimensions)
    requires Coverable(left) && Coverable(right)
    requires forall b: Box :: Bounds(b, left.entries) && Bounds(b, right.entries)
                              <==> Bounds(b, es[i].child.entries) && Encloses(b, box)
    ensures GrowsBy(es, es[i := Covered(left)] + [Covered(right)], box)
  {
    var l, r := Covered(left), Covered(right);
    forall b: Box
      ensures Bounds(b, es[i := l] + [r]) <==> Bounds(b, es) && Encloses(b, box)
    {
      BoundsAppend(b, es[i := l], r);
      CoverLeast(left.entries, c.dimensions, b);
      CoverLeast(right.entries, c.dimensions, b);
      CoverLeast(es[i].child.entries, c.dimensions, b);
      BoundsAround(es, i, l, b);
    }
  }

  /** Bounding a list is bounding one entry and all the others. */
  lemma BoundsAround(es: seq<Entry>, i: nat, l: Entry, b: Box)
    requires i < |es|
    ensures Bounds(b, es) <==> Encloses(b, es[i].box) && Bounds(b, es[..i] + es[i + 1..])
    ensures Bounds(b, es[i := l]) <==> Encloses(b, l.box) && Bounds(b, es[..i] + es[i + 1..])
  {
    var others := es[..i] + es[i + 1..];
    assert es[i] in es && l == es[i := l][i];
    assert forall e :: e in es <==> e == es[i] || e in others by {
      assert es == es[..i] + [es[i]] + es[i + 1..];
    }
    assert forall e :: e in es[i := l] <==> e == l || e in others by {
      assert es[i := l] == es[..i] + [l] + es[i + 1..];
    }
  }

  // ---------------------------------------------------------------- whole trees

  /** The halves of a split: sound, within their limits, holding the old items and the new one. */
  ghost predicate HalvesSound(c: Config, t: Tree, left: Tree, right: Tree, box: Box, data: Data) {
    && left.height == right.height == t.height
    && Sound(c, left) && Sound(c, right)
    && c.minChildren <= |left.entries| && c.minChildren <= |right.entries|
    && Items(left) + Items(right) == Items(t) + multiset{(box, data)}
    && forall b: Box :: Bounds(b, left.entries) && Bounds(b, right.entries) <==> Bounds(b, t.entries) && Encloses(b, box)
  }

  lemma LeafAppended(c: Config, t: Tree, box: Box, data: Data)
    requires Sound(c, t) && t.height == 0 && |box| == c.dimensions
    ensures AllSound(c, 0, t.entries + [LeafEntry(box, data)])
    ensures SizedEntries(t.entries + [LeafEntry(box, data)], c.dimensions)
    ensures Gains(t.entries, t.entries + [LeafEntry(box, data)], box, data)
  {
    var e := LeafEntry(box, data);
    assert EntrySound(c, 0, e);
    AppendSound(c, 0, t.entries, e);
    ItemsAppend(t.entries, e);
    forall b: Box
      ensures Bounds(b, t.entries + [e]) <==> Bounds(b, t.entries) && Encloses(b, box)
    {
      BoundsAppend(b, t.entries, e);
    }
  }

  /** An insertion without a split at the root of the subtree. */
  lemma {:induction false} FitsKeeps(c: Config, t: Tree, box: Box, data: Data, t': Tree)
    requires Legal(c) && Sound(c, t) && |box| == c.dimensions && Fits(c, t, box, data, t')
    ensures t'.height == t.height && Sound(c, t') && t'.entries != [] && |t.entries| <= |t'.entries|
    ensures Gains(t.entries, t'.entries, box, data)
    decreases t, 1
  {
    if t.height == 0 {
      LeafAppended(c, t, box, data);
    } else {
      var i: int :| FitsVia(c, t, box, data, t', i);
      FitsViaKeeps(c, t, box, data, t', i);
    }
  }

  lemma {:induction false} FitsViaKeeps(c: Config, t: Tree, box: Box, data: Data, t': Tree, i: int)
    requires Legal(c) && Sound(c, t) && |box| == c.dimensions && t'.height == t.height && FitsVia(c, t, box, data, t', i)
    ensures Sound(c, t') && t'.entries != [] && |t.entries| <= |t'.entries|
    ensures Gains(t.entries, t'.entries, box, data)
    decreases t, 0
  {
    var e, child' := t.entries[i], t'.entries[i].child;
    assert EntrySound(c, t.height, e);
    if Fits(c, e.child, box, data, child') && t'.entries == t.entries[i := InnerEntry(UnionBox(e.box, box), child')] {
      FitsKeeps(c, e.child, box, data, child');
      ChildFits(c, t.height, e, child', box, data);
      UpdateSound(c, t.height, t.entries, i, InnerEntry(UnionBox(e.box, box), child'));
      ReplacedGains(t.entries, i, InnerEntry(UnionBox(e.box, box), child'), box, data);
    } else {
      var sibling := t'.entries[|t.entries|].child;
      SplitsKeeps(c, e.child, box, data, child', sibling);
      SplitChildGains(c, t.height, t.entries, i, child', sibling, box, data);
    }
  }

  lemma {:induction false} OverflowKeeps(c: Config, t: Tree, box: Box, data: Data, over: seq<Entry>)
    requires Legal(c) && Sound(c, t) && |box| == c.dimensions && Overflows(c, t, box, data, over)
    ensures |over| == c.maxChildren + 1 && AllSound(c, t.height, over)
    ensures Gains(t.entries, over, box, data)
    decreases t, 0
  {
    if t.height == 0 {
      LeafAppended(c, t, box, data);
    } else {
      var i: int :| OverflowsVia(c, t, box, data, over, i);
      assert EntrySound(c, t.height, t.entries[i]);
      SplitsKeeps(c, t.entries[i].child, box, data, over[i].child, over[|t.entries|].child);
      SplitChildGains(c, t.height, t.entries, i, over[i].child, over[|t.entries|].child, box, data);
    }
  }

  /** An insertion that splits the node: the two halves together gain the item. */
  lemma {:induction false} SplitsKeeps(c: Config, t: Tree, box: Box, data: Data, left: Tree, right: Tree)
    requires Legal(c) && Sound(c, t) && |box| == c.dimensions && Splits(c, t, box, data, left, right)
    ensures HalvesSound(c, t, left, right, box, data)
    decreases t, 1
  {
    var over: seq<Entry> :| Overflows(c, t, box, data, over) && |over| >= 2 * c.minChildren
                            && Divided(c, over, left.entries, right.entries);
    OverflowKeeps(c, t, box, data, over);
    DivisionKeeps(c, over, left.entries, right.entries);
    HalvesAreSound(c, t, left, right, over, box, data);
  }

  lemma HalvesAreSound(c: Config, t: Tree, left: Tree, right: Tree, over: seq<Entry>, box: Box, data: Data)
    requires Legal(c) && SizedEntries(over, c.dimensions) && AllSound(c, t.height, over)
    requires left.height == right.height == t.height
    requires c.minChildren <= |left.entries| <= c.maxChildren && c.minChildren <= |right.entries| <= c.maxChildren
    requires forall e :: e in over <==> e in left.entries || e in right.entries
    requires ItemsOf(left.entries) + ItemsOf(right.entries) == ItemsOf(over)
    requires Gains(t.entries, over, box, data)
    ensures HalvesSound(c, t, left, right, box, data)
  {
  }

  // ---------------------------------------------------------------- the root

  /** The tree after an insertion at the root, which may have grown by one level. */
  ghost predicate Inserted(c: Config, t: Tree, box: Box, data: Data, t': Tree) {
    || Fits(c, t, box, data, t')
    || (&& t'.height == t.height + 1 && |t'.entries| == 2 && t'.entries[0].InnerEntry? && t'.entries[1].InnerEntry?
        && var left, right := t'.entries[0].child, t'.entries[1].child;
        && Splits(c, t, box, data, left, right) && Coverable(left) && Coverable(right)
        && t'.entries == [Covered(left), Covered(right)])
  }

  /** Every insertion keeps the index invariant and adds exactly its item. */
  lemma InsertedKeeps(c: Config, t: Tree, box: Box, data: Data, t': Tree)
    requires Legal(c) && Indexed(c, t) && |box| == c.dimensions && Inserted(c, t, box, data, t')
    ensures Indexed(c, t')
    ensures Items(t') == Items(t) + multiset{(box, data)}
  {
    if Fits(c, t, box, data, t') {
      FitsKeeps(c, t, box, data, t');
    } else {
      var left, right := t'.entries[0].child, t'.entries[1].child;
      SplitsKeeps(c, t, box, data, left, right);
      assert left.entries[0] in left.entries && right.entries[0] in right.entries;
      var l, r := Covered(left), Covered(right);
      assert EntrySound(c, t'.height, l) && EntrySound(c, t'.height, r);
      assert forall e :: e in t'.entries <==> e == l || e == r;
      ItemsAppend([], l);
      ItemsAppend([l], r);
      assert [] + [l] == [l] && [l] + [r] == t'.entries;
    }
  }

  const EMPTY := Tree(0, [])

  /** `trees` are the states of an index into which `items` go one after the other. */
  ghost predicate Run(c: Config, trees: seq<Tree>, items: seq<(Box, Data)>) {
    && |trees| == |items| + 1 && trees[0] == EMPTY
    && (forall i | 0 <= i < |items| :: |items[i].0| == c.dimensions)
    && forall i | 0 <= i < |items| :: Inserted(c, trees[i], items[i].0, items[i].1, trees[i + 1])
  }

  /** After any run the index is sound and holds what was inserted, as often as it was inserted. */
  lemma {:induction false} RunKeeps(c: Config, trees: seq<Tree>, items: seq<(Box, Data)>)
    requires Legal(c) && Run(c, trees, items)
    ensures Indexed(c, trees[|items|]) && Items(trees[|items|]) == multiset(items)
    decreases |items|
  {
    var n := |items|;
    if n > 0 {
      assert Run(c, trees[..n], items[..n - 1]);
      RunKeeps(c, trees[..n], items[..n - 1]);
      var (box, data) := items[n - 1];
      InsertedKeeps(c, trees[n - 1], box, data, trees[n]);
      assert items == items[..n - 1] + [(box, data)];
    }
  }

  // ---------------------------------------------------------------- the steps, for the code that takes them

  lemma DescentFits(c: Config, t: Tree, box: Box, data: Data, i: int, child': Tree)
    requires Descends(c, t, box, i) && |t.entries[i].box| == |box| && Fits(c, t.entries[i].child, box, data, child')
    ensures Fits(c, t, box, data, Tree(t.height, t.entries[i := InnerEntry(UnionBox(t.entries[i].box, box), child')]))
  {
    var t' := Tree(t.height, t.entries[i := InnerEntry(UnionBox(t.entries[i].box, box), child')]);
    assert FitsVia(c, t, box, data, t', i);
  }

  /** The child was split; what becomes of this node depends on its room. */
  lemma DescentSplits(c: Config, t: Tree, box: Box, data: Data, i: int, left: Tree, right: Tree)
    requires Legal(c) && Sound(c, t) && |box| == c.dimensions
    requires Descends(c, t, box, i) && Splits(c, t.entries[i].child, box, data, left, right)
    ensures Coverable(left) && Coverable(right)
    ensures var over := t.entries[i := Covered(left)] + [Covered(right)];
            && SizedEntries(over, c.dimensions)
            && (|t.entries| < c.maxChildren ==> Fits(c, t, box, data, Tree(t.height, over)))
            && (|t.entries| == c.maxChildren ==> Overflows(c, t, box, data, over))
  {
    assert EntrySound(c, t.height, t.entries[i]);
    SplitsKeeps(c, t.entries[i].child, box, data, left, right);
    SplitChildGains(c, t.height, t.entries, i, left, right, box, data);
    var over := t.entries[i := Covered(left)] + [Covered(right)];
    assert over[i] == Covered(left) && over[|t.entries|] == Covered(right);
    if |t.entries| < c.maxChildren {
      assert FitsVia(c, t, box, data, Tree(t.height, over), i);
    } else {
      assert OverflowsVia(c, t, box, data, over, i);
    }
  }
}
