/** The nodes of the index in memory. */
module SpatialNodes {
  import opened Boxes
  import opened RTrees

  /** An entry of a node: a stored item, or a child with the box that covers it. */
  datatype SubNode = SubNode(box: Box, child: Node?, data: Data)

  ghost function ChildRepr(s: SubNode): set<object>
    reads s.child
  {
    if s.child == null then {} else s.child.Repr
  }

  ghost function EntryOf(s: SubNode): Entry
    reads s.child
  {
    if s.child == null then LeafEntry(s.box, s.data) else InnerEntry(s.box, s.child.view)
  }

  class Node {
    var csize: nat
    const height: nat
    const subNodes: array<SubNode>

    /** The objects of the subtree, and the subtree as a value. */
    ghost var Repr: set<object>
    ghost var view: Tree

    ghost predicate Valid()
      reads this, Repr
      decreases height, 1
    {
      && this in Repr && subNodes in Repr
      && csize <= subNodes.Length
      && view.height == height && |view.entries| == csize
      && (forall i {:trigger ChildAt(i)} | 0 <= i < csize :: Within(i))
      && (forall i {:trigger Slot(i)} | 0 <= i < csize :: Inside(i) && Slot(i))
      && (forall i, j {:trigger Apart(i, j)} | 0 <= i < j < csize :: Apart(i, j))
    }

    ghost function ChildAt(i: int): Node?
      reads this, subNodes
    {
      if 0 <= i < subNodes.Length then subNodes[i].child else null
    }

    ghost function ReprAt(i: int): set<object>
      reads this, subNodes, ChildAt(i)
    {
      if ChildAt(i) == null then {} else ChildAt(i).Repr
    }

    /** The `i`-th child is an object of this subtree. */
    ghost predicate Within(i: int)
      reads this, subNodes
    {
      ChildAt(i) == null || ChildAt(i) in Repr
    }

    /** The `i`-th child lies inside this subtree, but not around this node. */
    ghost predicate Inside(i: int)
      reads this, subNodes, ChildAt(i)
    {
      ChildAt(i) != null ==>
        && ChildAt(i) in ReprAt(i) && ReprAt(i) <= Repr
        && this !in ReprAt(i) && subNodes !in ReprAt(i)
    }

    /** The `i`-th entry matches the value. */
    ghost predicate Slot(i: int)
      reads this, subNodes, ChildAt(i), ReprAt(i)
      decreases height, 0
    {
      && 0 <= i < csize <= subNodes.Length && csize == |view.entries|
      && var s := subNodes[i];
      if height == 0 then s.child == null && view.entries[i] == LeafEntry(s.box, s.data)
      else
        && s.child != null
        && s.child.height + 1 == height && s.child.subNodes.Length == subNodes.Length
        && s.child.Valid()
        && view.entries[i] == InnerEntry(s.box, s.child.view)
    }

    lemma InPlace(i: int)
      requires Valid() && 0 <= i < csize
      ensures Slot(i) && Within(i) && Inside(i)
    {
      assert Slot(i) && Within(i);
    }

    ghost predicate Apart(i: int, j: int)
      reads this, subNodes, ChildAt(i), ChildAt(j)
    {
      ReprAt(i) !! ReprAt(j)
    }

    /** A new entry may be stored here. */
    ghost predicate Accepts(s: SubNode)
      reads this, Repr, s.child, ChildRepr(s)
    {
      if height == 0 then s.child == null
      else
        && s.child != null && s.child.Valid()
        && s.child.height + 1 == height && s.child.subNodes.Length == subNodes.Length
        && s.child.Repr !! Repr
    }

    constructor (maxChildren: nat, height: nat)
      ensures Valid() && fresh(Repr) && Repr == {this, subNodes}
      ensures this.height == height && subNodes.Length == maxChildren && view == Tree(height, []) && csize == 0
    {
      this.csize := 0;
      this.height := height;
      this.subNodes := new SubNode[maxChildren](_ => SubNode([], null, 0));
      this.view := Tree(height, []);
      new;
      Repr := {this, subNodes};
    }

    method Append(s: SubNode)
      requires Valid() && csize < subNodes.Length && Accepts(s)
      modifies this, subNodes
      ensures Valid()
      ensures csize == old(csize) + 1
      ensures view == Tree(height, old(view.entries) + [old(EntryOf(s))])
      ensures Repr == old(Repr) + old(ChildRepr(s))
    {
      assert forall i | 0 <= i < csize :: Slot(i) && Inside(i);
      assert forall i, j | 0 <= i < j < csize :: Apart(i, j);
      subNodes[csize] := s;
      csize := csize + 1;
      Repr := Repr + ChildRepr(s);
      view := Tree(height, view.entries + [EntryOf(s)]);
      forall i | 0 <= i < csize
        ensures Within(i)
      {
        assert i < csize - 1 ==> old(Inside(i)) && old(Within(i));
      }
      forall i | 0 <= i < csize
        ensures Inside(i) && Slot(i)
      {
        assert i < csize - 1 ==> old(Slot(i)) && old(Inside(i));
      }
      forall i, j | 0 <= i < j < csize
        ensures Apart(i, j)
      {
        assert old(Slot(i)) && old(Inside(i));
        if j < csize - 1 {
          assert old(Slot(j)) && old(Inside(j)) && old(Apart(i, j));
        }
      }
    }

    /** Empties the node; its former entries are on their own. */
    method Clear()
      requires Valid()
      modifies this
      ensures Valid() && csize == 0 && view == Tree(height, []) && Repr == {this, subNodes}
    {
      csize := 0;
      view := Tree(height, []);
      Repr := {this, subNodes};
    }

    /** Everything is in place except that the `i`-th child has changed under this node; `gone` is what it was. */
    ghost predicate ValidBut(i: int, child: Node, gone: set<object>)
      reads this, Repr, subNodes, child, child.Repr
    {
      && this in Repr && subNodes in Repr && this !in gone && subNodes !in gone
      && 0 <= i < csize <= subNodes.Length && height > 0
      && view.height == height && |view.entries| == csize
      && ChildAt(i) == child && child.Valid() && child in child.Repr && this !in child.Repr && subNodes !in child.Repr
      && child.height + 1 == height && child.subNodes.Length == subNodes.Length
      && (forall j {:trigger ChildAt(j)} | 0 <= j < csize && j != i :: Within(j))
      && (forall j {:trigger Slot(j)} | 0 <= j < csize && j != i :: Inside(j) && Slot(j))
      && (forall j {:trigger Spared(j, child, gone)} | 0 <= j < csize && j != i :: Spared(j, child, gone))
      && (forall j, k {:trigger Apart(j, k)} | 0 <= j < k < csize && j != i && k != i :: Apart(j, k))
    }

    /** Another child shares nothing with the changed one, nor with what that one used to be. */
    ghost predicate Spared(j: int, child: Node, gone: set<object>)
      reads this, subNodes, child, ChildAt(j)
    {
      ReprAt(j) !! child.Repr && ReprAt(j) !! gone
    }

    /** Gives the changed child its box. */
    method Refresh(i: nat, child: Node, box: Box, ghost gone: set<object>)
      requires ValidBut(i, child, gone)
      modifies this, subNodes
      ensures Valid()
      ensures csize == old(csize)
      ensures Repr == old(Repr) - gone + child.Repr
      ensures view == Tree(height, old(view.entries)[i := InnerEntry(box, child.view)])
    {
      subNodes[i] := SubNode(box, subNodes[i].child, subNodes[i].data);
      Repr := Repr - gone + child.Repr;
      view := Tree(height, view.entries[i := InnerEntry(box, child.view)]);
      forall j | 0 <= j < csize
        ensures Within(j)
      {
        assert j != i ==> old(Slot(j)) && old(Inside(j)) && old(Within(j)) && old(Spared(j, child, gone));
      }
      forall j | 0 <= j < csize
        ensures Inside(j) && Slot(j)
      {
        assert j != i ==> old(Slot(j)) && old(Inside(j)) && old(Spared(j, child, gone));
      }
      forall j, k | 0 <= j < k < csize
        ensures Apart(j, k)
      {
        assert j != i ==> old(Slot(j)) && old(Inside(j)) && old(Spared(j, child, gone));
        assert k != i ==> old(Slot(k)) && old(Inside(k)) && old(Spared(k, child, gone));
        assert j != i && k != i ==> old(Apart(j, k));
      }
    }
  }
}
