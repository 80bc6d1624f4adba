/** The search as a function of the tree, and what it delivers. */
module RTreeSearch {
  import opened Boxes
  import opened RTrees
  import opened RTreeInvariant

  type Item = (Box, Data)

  /** The callback sees everything delivered so far, the newest last, and says whether to go on. */
  type Callback = seq<Item> -> bool

  /** Visits every node; a callback that says no ends only the leaf it was called from. */
  function SearchTree(t: Tree, target: Box, callback: Callback, out: seq<Item>): seq<Item>
    decreases t, 1
  {
    SearchEntries(t.height == 0, t.entries, target, callback, out)
  }

  function SearchEntries(leaf: bool, es: seq<Entry>, target: Box, callback: Callback, out: seq<Item>): seq<Item>
    decreases es, 0
  {
    if es == [] then out
    else
      match es[0]
      case LeafEntry(box, data) =>
        if leaf && IsOverlap(box, target) then
          var out' := out + [(box, data)];
          if callback(out') then SearchEntries(leaf, es[1..], target, callback, out') else out'
        else SearchEntries(leaf, es[1..], target, callback, out)
      case InnerEntry(box, child) =>
        SearchEntries(leaf, es[1..], target, callback, SearchTree(child, target, callback, out))
  }

  /** How often an item must be delivered. */
  function Wanted(items: multiset<Item>, target: Box, x: Item): nat {
    if IsOverlap(x.0, target) then items[x] else 0
  }

  ghost predicate AlwaysGoesOn(callback: Callback) {
    forall out :: callback(out)
  }

  /** The list has its leaf entries in leaves only. */
  ghost predicate Leveled(leaf: bool, es: seq<Entry>) {
    forall e <- es :: e.LeafEntry? <==> leaf
  }

  ghost predicate LeveledTree(t: Tree)
    decreases t
  {
    Leveled(t.height == 0, t.entries) && forall e <- t.entries :: e.InnerEntry? ==> LeveledTree(e.child)
  }

  lemma {:induction false} SoundIsLeveled(c: Config, t: Tree)
    requires Sound(c, t)
    ensures LeveledTree(t)
    decreases t
  {
    forall e | e in t.entries
      ensures (e.LeafEntry? <==> t.height == 0) && (e.InnerEntry? ==> LeveledTree(e.child))
    {
      assert EntrySound(c, t.height, e);
      if e.InnerEntry? {
        SoundIsLeveled(c, e.child);
      }
    }
  }

  lemma {:induction false} ItemsFirst(es: seq<Entry>)
    requires es != []
    ensures ItemsOf(es) == EntryItems(es[0]) + ItemsOf(es[1..])
  {
    var n := |es| - 1;
    if n == 0 {
      assert es[..0] == [] && es[1..] == [];
    } else {
      ItemsFirst(es[..n]);
      var mid := es[..n][1..];
      assert mid == es[1..][..n - 1] && es[1..][n - 1] == es[n];
      AddOnEitherSide(EntryItems(es[0]), ItemsOf(mid), EntryItems(es[n]));
      assert ItemsOf(es[1..]) == ItemsOf(mid) + EntryItems(es[n]);
    }
  }

  /** From `out` to `result`, `x` was delivered no more often than wanted, and just as often if `all`. */
  ghost predicate Delivers(out: seq<Item>, result: seq<Item>, items: multiset<Item>, target: Box, x: Item, all: bool) {
    && multiset(out)[x] <= multiset(result)[x] <= multiset(out)[x] + Wanted(items, target, x)
    && (all ==> multiset(result)[x] == multiset(out)[x] + Wanted(items, target, x))
  }

  lemma DeliversBoth(out: seq<Item>, mid: seq<Item>, result: seq<Item>, first: multiset<Item>, rest: multiset<Item>,
                     target: Box, x: Item, all: bool)
    requires Delivers(out, mid, first, target, x, all) && Delivers(mid, result, rest, target, x, all)
    ensures Delivers(out, result, first + rest, target, x, all)
  {
  }

  lemma DeliversFirst(out: seq<Item>, mid: seq<Item>, first: multiset<Item>, rest: multiset<Item>, target: Box, x: Item)
    requires Delivers(out, mid, first, target, x, false)
    ensures Delivers(out, mid, first + rest, target, x, false)
  {
  }

  /** Only overlapping items are delivered, none more often than it is stored; all of them if the callback never
      says no. */
  lemma {:induction false} SearchDelivers(t: Tree, target: Box, callback: Callback, out: seq<Item>, x: Item)
    requires LeveledTree(t)
    ensures Delivers(out, SearchTree(t, target, callback, out), Items(t), target, x, AlwaysGoesOn(callback))
    decreases t, 1
  {
    EntriesDeliver(t.height == 0, t.entries, target, callback, out, x);
  }

  lemma {:induction false} EntriesDeliver(leaf: bool, es: seq<Entry>, target: Box, callback: Callback,
                                          out: seq<Item>, x: Item)
    requires Leveled(leaf, es) && forall e <- es :: e.InnerEntry? ==> LeveledTree(e.child)
    ensures Delivers(out, SearchEntries(leaf, es, target, callback, out), ItemsOf(es), target, x, AlwaysGoesOn(callback))
    decreases es, 0
  {
    if es != [] {
      ItemsFirst(es);
      var first, rest, all := EntryItems(es[0]), ItemsOf(es[1..]), AlwaysGoesOn(callback);
      var result := SearchEntries(leaf, es, target, callback, out);
      match es[0]
      case LeafEntry(box, data) =>
        var mid := if IsOverlap(box, target) then out + [(box, data)] else out;
        LeafDelivers(out, box, data, target, x);
        if IsOverlap(box, target) && !callback(mid) {
          DeliversFirst(out, mid, first, rest, target, x);
        } else {
          EntriesDeliver(leaf, es[1..], target, callback, mid, x);
          DeliversBoth(out, mid, result, first, rest, target, x, all);
        }
      case InnerEntry(_, child) =>
        var mid := SearchTree(child, target, callback, out);
        SearchDelivers(child, target, callback, out, x);
        EntriesDeliver(leaf, es[1..], target, callback, mid, x);
        DeliversBoth(out, mid, result, first, rest, target, x, all);
    }
  }

  lemma LeafDelivers(out: seq<Item>, box: Box, data: Data, target: Box, x: Item)
    ensures Delivers(out, if IsOverlap(box, target) then out + [(box, data)] else out,
                     multiset{(box, data)}, target, x, true)
  {
  }

  /** After any run of insertions, a search with a willing callback finds every overlapping item that went in, as
      often as it went in, and nothing else. */
  lemma RunDelivers(c: Config, trees: seq<Tree>, items: seq<Item>, target: Box, callback: Callback, x: Item)
    requires Legal(c) && Run(c, trees, items) && AlwaysGoesOn(callback)
    ensures multiset(SearchTree(trees[|items|], target, callback, []))[x] == Wanted(multiset(items), target, x)
  {
    RunKeeps(c, trees, items);
    SoundIsLeveled(c, trees[|items|]);
    SearchDelivers(trees[|items|], target, callback, [], x);
    assert Delivers([], SearchTree(trees[|items|], target, callback, []), multiset(items), target, x, true);
  }

  // ---------------------------------------------------------------- what a "no" ends

  /** The overlapping items among leaf entries, in order. */
  function Overlapping(es: seq<Entry>, target: Box): seq<Item> {
    if es == [] then []
    else
      (if es[0].LeafEntry? && IsOverlap(es[0].box, target) then [(es[0].box, es[0].data)] else [])
      + Overlapping(es[1..], target)
  }

  /** The first `m` overlapping items were handed over; all but the last of them were answered yes, and if there are
      more, the last was answered no. */
  ghost predicate AskedUpTo(found: seq<Item>, callback: Callback, out: seq<Item>, result: seq<Item>, m: nat) {
    && m <= |found| && result == out + found[..m]
    && (forall j | 0 < j < m :: callback(out + found[..j]))
    && (m < |found| ==> m > 0 && !callback(out + found[..m]))
  }

  /** A leaf hands over its overlapping items in order, up to the first that is answered no. */
  lemma {:induction false} LeafAsks(es: seq<Entry>, target: Box, callback: Callback, out: seq<Item>) returns (m: nat)
    requires forall e <- es :: e.LeafEntry?
    ensures AskedUpTo(Overlapping(es, target), callback, out, SearchEntries(true, es, target, callback, out), m)
  {
    m := 0;
    if es == [] {
      assert out + [] == out;
    } else {
      var x, rest := (es[0].box, es[0].data), Overlapping(es[1..], target);
      if !IsOverlap(es[0].box, target) {
        m := LeafAsks(es[1..], target, callback, out);
        assert Overlapping(es, target) == rest;
      } else {
        var found := Overlapping(es, target);
        assert found == [x] + rest && found[..1] == [x];
        m := 1;
        if callback(out + [x]) {
          var n := LeafAsks(es[1..], target, callback, out + [x]);
          m := n + 1;
          AskedAfterOne(x, rest, callback, out, SearchEntries(true, es, target, callback, out), n);
        }
      }
    }
  }

  lemma AskedAfterOne(x: Item, rest: seq<Item>, callback: Callback, out: seq<Item>, result: seq<Item>, n: nat)
    requires callback(out + [x]) && AskedUpTo(rest, callback, out + [x], result, n)
    ensures AskedUpTo([x] + rest, callback, out, result, n + 1)
  {
    var found := [x] + rest;
    assert forall j | 0 <= j <= |rest| :: out + found[..j + 1] == (out + [x]) + rest[..j];
    forall j | 0 < j < n + 1
      ensures callback(out + found[..j])
    {
      assert out + found[..j] == (out + [x]) + rest[..j - 1];
      if j == 1 {
        assert (out + [x]) + rest[..0] == out + [x];
      }
    }
  }

  /** Whatever was answered in the leaves before, the next child of an inner node is searched as well. */
  lemma {:induction false} NextChildSearched(es: seq<Entry>, e: Entry, target: Box, callback: Callback, out: seq<Item>)
    requires e.InnerEntry? && forall f <- es :: f.InnerEntry?
    ensures SearchEntries(false, es + [e], target, callback, out)
         == SearchTree(e.child, target, callback, SearchEntries(false, es, target, callback, out))
  {
    if es == [] {
      assert [] + [e] == [e] && [e][1..] == [];
    } else {
      assert (es + [e])[0] == es[0] && (es + [e])[1..] == es[1..] + [e];
      NextChildSearched(es[1..], e, target, callback, SearchTree(es[0].child, target, callback, out));
    }
  }

  // ---------------------------------------------------------------- pruning

  /** A stored box that does not overlap the target has no overlapping item anywhere below it. */
  lemma {:induction false} NothingBelow(c: Config, height: nat, e: Entry, target: Box, x: Item)
    requires EntrySound(c, height, e) && !IsOverlap(e.box, target)
    ensures Wanted(EntryItems(e), target, x) == 0
    decreases e, 1
  {
    if e.InnerEntry? {
      CoverLeast(e.child.entries, c.dimensions, e.box);
      EnclosesItself(e.box);
      NothingIn(c, e.child.height, e.box, e.child.entries, target, x);
    }
  }

  lemma {:induction false} NothingIn(c: Config, height: nat, cover: Box, es: seq<Entry>, target: Box, x: Item)
    requires es != [] ==> SizedEntries(es, c.dimensions)
    requires forall e {:trigger EntrySound(c, height, e)} | e in es :: EntrySound(c, height, e)
    requires !IsOverlap(cover, target) && Bounds(cover, es)
    ensures Wanted(ItemsOf(es), target, x) == 0
    decreases es, 0
  {
    if es != [] {
      var n := |es| - 1;
      assert es[n] in es && EntrySound(c, height, es[n]);
      NothingIn(c, height, cover, es[..n], target, x);
      if IsOverlap(es[n].box, target) {
        EncloserOverlaps(cover, es[n].box, target);
      } else {
        NothingBelow(c, height, es[n], target, x);
      }
    }
  }
}
