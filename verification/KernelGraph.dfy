/** The item-set automaton: kernels, their closures and the edges between them, grown by a worklist. */
module KernelGraphs {
  import opened LrGrammar
  import opened LrItems
  import FiniteSets

  datatype Kernel = Kernel(index: nat, items: set<Item>, closure: set<Item>,
                           gotos: map<Symbol, nat>, keys: seq<Symbol>)

  function NewKernel(index: nat, items: set<Item>): Kernel {
    Kernel(index, items, items, map[], [])
  }

  /** Equality of kernels: as many items, and every item of one among the items of the other. */
  predicate SameKernel(a: Kernel, b: Kernel)
    ensures SameKernel(a, b) <==> a.items == b.items
  {
    FiniteSets.EqualWhenContained(a.items, b.items);
    |a.items| == |b.items| && forall it <- a.items :: it in b.items
  }

  ghost function NextSymbols(closure: set<Item>): set<Symbol> {
    set it | it in closure && CanShift(it) :: NextSymbol(it)
  }

  /** What every kernel of the list has, processed or not. */
  ghost predicate KernelOk(g: Grammar, k: Kernel, i: nat)
    requires Readable(g)
  {
    && k.index == i
    && (forall it <- k.items :: ItemOk(g, it))
    && (i == 0 ==> k.items == {StartItem(g)})
    && (i > 0 ==> k.items != {} && forall it <- k.items :: it.dot > 0)
  }

  /** The edge of `k` on `x` leads to a kernel made of the items with `x` after the dot, shifted once. */
  ghost predicate EdgeOk(ks: seq<Kernel>, k: Kernel, x: Symbol)
    requires x in k.gotos
  {
    k.gotos[x] < |ks| && Selected(Shifted(k.closure, x), ks[k.gotos[x]].items)
  }

  /** The kernel is closed and has exactly one edge for each symbol that can be shifted. */
  ghost predicate Processed(g: Grammar, ks: seq<Kernel>, k: Kernel)
    requires Readable(g)
  {
    && k.closure == ClosureOf(g, k.items)
    && (forall x :: x in k.keys <==> x in NextSymbols(k.closure))
    && k.gotos.Keys == NextSymbols(k.closure)
    && forall x {:trigger EdgeOk(ks, k, x)} | x in k.gotos :: EdgeOk(ks, k, x)
  }

  ghost predicate Unprocessed(k: Kernel) {
    k.closure == k.items && k.gotos == map[] && k.keys == []
  }

  ghost predicate Different(ks: seq<Kernel>) {
    forall i, j | 0 <= i < j < |ks| :: ks[i].items != ks[j].items
  }

  ghost predicate Shape(g: Grammar, ks: seq<Kernel>)
    requires Readable(g)
  {
    1 <= |ks| && Different(ks) && forall i {:trigger KernelOk(g, ks[i], i)} | 0 <= i < |ks| :: KernelOk(g, ks[i], i)
  }

  ghost predicate ProcessedBelow(g: Grammar, ks: seq<Kernel>, n: nat)
    requires Readable(g)
  {
    n <= |ks| && forall i {:trigger Processed(g, ks, ks[i])} | 0 <= i < n :: Processed(g, ks, ks[i])
  }

  ghost predicate UnprocessedFrom(ks: seq<Kernel>, n: nat) {
    n <= |ks| && forall i {:trigger Unprocessed(ks[i])} | n <= i < |ks| :: Unprocessed(ks[i])
  }

  /** The first `n` kernels are finished, the others wait. */
  ghost predicate Progress(g: Grammar, ks: seq<Kernel>, n: nat)
    requires Readable(g)
  {
    Shape(g, ks) && ProcessedBelow(g, ks, n) && UnprocessedFrom(ks, n)
  }

  /** A finished automaton. */
  ghost predicate Automaton(g: Grammar, ks: seq<Kernel>)
    requires Readable(g)
  {
    Progress(g, ks, |ks|)
  }

  lemma KernelFacts(g: Grammar, ks: seq<Kernel>, i: nat)
    requires Readable(g) && Automaton(g, ks) && i < |ks|
    ensures KernelOk(g, ks[i], i) && Processed(g, ks, ks[i])
    ensures forall it <- ks[i].closure :: ItemOk(g, it)
  {
    assert KernelOk(g, ks[i], i) && Processed(g, ks, ks[i]);
    ClosureOk(g, ks[i].items);
  }

  /** The item has `x` after its dot. */
  ghost predicate HasNext(it: Item, x: Symbol) {
    it.dot < |it.rule.development| && it.rule.development[it.dot] == x
  }

  /** `b` is an item of `closure` with its dot moved over `x`. */
  ghost predicate MovedOver(closure: set<Item>, x: Symbol, b: Item) {
    && 0 < b.dot <= |b.rule.development| && b.rule.development[b.dot - 1] == x
    && Item(b.rule, b.dot - 1) in closure
  }

  /** `b` has the development of `it`, and its dot is where that of `it` moves to, or its left side is the same. */
  ghost predicate StandsFor(b: Item, it: Item) {
    && b.rule.development == it.rule.development
    && (b.dot == it.dot + 1 || b.rule.nonTerminal == it.rule.nonTerminal)
  }

  /** An edge on `x` is there exactly when an item has `x` after its dot, and `x` is not the empty word. */
  lemma EdgeIffNext(g: Grammar, ks: seq<Kernel>, s: nat, x: Symbol)
    requires Readable(g) && Automaton(g, ks) && s < |ks|
    ensures x in ks[s].gotos <==> x != "ε" && exists it :: it in ks[s].closure && HasNext(it, x)
    ensures x in ks[s].gotos ==> ks[s].gotos[x] < |ks|
  {
    KernelFacts(g, ks, s);
    if it :| it in ks[s].closure && HasNext(it, x) && x != "ε" {
      assert CanShift(it) && NextSymbol(it) == x;
    }
    if x in ks[s].gotos {
      assert EdgeOk(ks, ks[s], x);
      var next :| next in ks[s].closure && CanShift(next) && NextSymbol(next) == x;
      assert HasNext(next, x);
    }
  }

  /** It leads to items moved over `x`, and none is missing but where another stands for it. */
  lemma EdgeItems(g: Grammar, ks: seq<Kernel>, s: nat, x: Symbol)
    requires Readable(g) && Automaton(g, ks) && s < |ks| && x in ks[s].gotos && ks[s].gotos[x] < |ks|
    ensures forall b <- ks[ks[s].gotos[x]].items :: MovedOver(ks[s].closure, x, b)
    ensures forall it <- ks[s].closure | HasNext(it, x) :: exists b :: b in ks[ks[s].gotos[x]].items && StandsFor(b, it)
  {
    KernelFacts(g, ks, s);
    assert EdgeOk(ks, ks[s], x);
    var closure, items := ks[s].closure, ks[ks[s].gotos[x]].items;
    EdgeIffNext(g, ks, s, x);
    forall b <- items
      ensures MovedOver(closure, x, b)
    {
      var it :| it in closure && CanShift(it) && NextSymbol(it) == x && b == Advance(it);
      assert Item(b.rule, b.dot - 1) == it;
    }
    forall it <- closure | HasNext(it, x)
      ensures exists b :: b in items && StandsFor(b, it)
    {
      assert Advance(it) in Shifted(closure, x);
      var b :| b in items && LooksEqual(b, Advance(it));
      assert StandsFor(b, it);
    }
  }

  /** An edge of an earlier kernel leads to kernel `i`. */
  ghost predicate Entered(ks: seq<Kernel>, i: nat) {
    exists j: nat, x: Symbol :: EntersFrom(ks, i, j, x)
  }

  ghost predicate EntersFrom(ks: seq<Kernel>, i: nat, j: nat, x: Symbol) {
    j < i && j < |ks| && x in ks[j].gotos && ks[j].gotos[x] == i
  }

  /** No kernel is there without a way to it. */
  ghost predicate Rooted(ks: seq<Kernel>) {
    forall i: nat {:trigger Entered(ks, i)} | 0 < i < |ks| :: Entered(ks, i)
  }

  /** Edges that stay keep every kernel entered. */
  lemma EnteredKept(before: seq<Kernel>, after: seq<Kernel>, i: nat)
    requires Entered(before, i) && |before| <= |after|
    requires forall j, x | 0 <= j < |before| && x in before[j].gotos ::
               x in after[j].gotos && after[j].gotos[x] == before[j].gotos[x]
    ensures Entered(after, i)
  {
    var j: nat, x: Symbol :| EntersFrom(before, i, j, x);
    assert EntersFrom(after, i, j, x);
  }

  lemma RootedKept(before: seq<Kernel>, after: seq<Kernel>)
    requires Rooted(before) && |before| == |after|
    requires forall j | 0 <= j < |before| :: after[j].gotos == before[j].gotos
    ensures Rooted(after)
  {
    forall i: nat | 0 < i < |after|
      ensures Entered(after, i)
    {
      EnteredKept(before, after, i);
    }
  }

  /** A new kernel is entered by the edge it was made for. */
  lemma RootedGrown(before: seq<Kernel>, after: seq<Kernel>, n: nat, key: Symbol, items: set<Item>, target: nat)
    requires Rooted(before) && n < |before| && key !in before[n].gotos
    requires ConnectedTo(before, after, n, key, items, target)
    ensures Rooted(after)
  {
    forall i: nat | 0 < i < |after|
      ensures Entered(after, i)
    {
      if i < |before| {
        EnteredKept(before, after, i);
      } else {
        assert EntersFrom(after, i, n, key);
      }
    }
  }

  // ---------------------------------------------------------------- a bound on the number of kernels

  lemma KernelsBounded(g: Grammar, ks: seq<Kernel>)
    requires Readable(g)
    requires Shape(g, ks)
    ensures |ks| <= FiniteSets.Pow2(|AllItems(g)|)
  {
    var sets := seq(|ks|, i requires 0 <= i < |ks| => ks[i].items);
    forall i | 0 <= i < |sets|
      ensures sets[i] <= AllItems(g)
    {
      assert KernelOk(g, ks[i], i);
    }
    FiniteSets.DistinctSubsetsBounded(AllItems(g), sets);
  }

  // ---------------------------------------------------------------- the construction

  class KernelGraph {
    const grammar: Grammar
    var kernels: seq<Kernel>

    constructor (g: Grammar)
      requires Readable(g)
      ensures grammar == g && Automaton(g, kernels) && Rooted(kernels)
      ensures |kernels| <= FiniteSets.Pow2(|AllItems(g)|)
    {
      grammar := g;
      kernels := [];
      new;
      Initialize();
    }

    method Initialize()
      requires Readable(grammar)
      requires kernels == []
      modifies this
      ensures Automaton(grammar, kernels) && Rooted(kernels)
      ensures |kernels| <= FiniteSets.Pow2(|AllItems(grammar)|)
    {
      var kernelIndex := 0;
      kernels := kernels + [NewKernel(0, {StartItem(grammar)})];
      while kernelIndex < |kernels|
        invariant 0 <= kernelIndex <= |kernels|
        invariant Progress(grammar, kernels, kernelIndex) && Rooted(kernels)
        invariant kernelIndex <= FiniteSets.Pow2(|AllItems(grammar)|)
        decreases FiniteSets.Pow2(|AllItems(grammar)|) - kernelIndex
      {
        ghost var progress := kernels;
        assert Unprocessed(kernels[kernelIndex]);
        UpdateClosure(kernelIndex);
        ClosureUpdated(grammar, progress, kernels, kernelIndex);
        RootedKept(progress, kernels);
        var propagated := AddGotos(kernelIndex);
        if !propagated {
          kernelIndex := kernelIndex + 1;
        }
        KernelsBounded(grammar, kernels);
      }
      KernelsBounded(grammar, kernels);
    }

    /** Expands every item the closure held on entry. */
    method UpdateClosure(kernelIndex: nat)
      requires Readable(grammar)
      requires kernelIndex < |kernels| && kernels[kernelIndex].closure == kernels[kernelIndex].items
      modifies this
      ensures kernels == old(kernels)[kernelIndex := old(kernels)[kernelIndex].(
                           closure := ClosureOf(grammar, old(kernels)[kernelIndex].items))]
    {
      ghost var items := kernels[kernelIndex].items;
      var rest := kernels[kernelIndex].closure;
      assert items + ExpansionsOf(grammar, items - rest) == items;
      while rest != {}
        invariant rest <= items
        invariant |kernels| == |old(kernels)|
        invariant kernels == old(kernels)[kernelIndex := old(kernels)[kernelIndex].(closure := kernels[kernelIndex].closure)]
        invariant kernels[kernelIndex].closure == items + ExpansionsOf(grammar, items - rest)
      {
        var it :| it in rest;
        var newItems := NewItemsFromSymbolAfterDot(grammar, it);
        ghost var before := items - rest;
        rest := rest - {it};
        assert items - rest == before + {it};
        ExpansionsAppend(grammar, before, it);
        kernels := kernels[kernelIndex := kernels[kernelIndex].(closure := kernels[kernelIndex].closure + newItems)];
      }
      assert items - rest == items;
    }

    /** Groups the shifted items of the closure by the symbol shifted over and notes the symbols in `keys`. */
    method CollectShifts(kernelIndex: nat) returns (mapping: map<Symbol, set<Item>>)
      requires kernelIndex < |kernels| && kernels[kernelIndex].keys == []
      modifies this
      ensures |kernels| == |old(kernels)|
      ensures kernels == old(kernels)[kernelIndex := old(kernels)[kernelIndex].(keys := kernels[kernelIndex].keys)]
      ensures ShiftsCollected(kernels[kernelIndex].closure, kernels[kernelIndex].keys, mapping)
    {
      mapping := map[];
      var closure := kernels[kernelIndex].closure;
      var rest := closure;
      ghost var visited: set<Item> := {};
      while rest != {}
        invariant visited + rest == closure
        invariant |kernels| == |old(kernels)|
        invariant kernels == old(kernels)[kernelIndex := old(kernels)[kernelIndex].(keys := kernels[kernelIndex].keys)]
        invariant ShiftsCollected(visited, kernels[kernelIndex].keys, mapping)
      {
        var it :| it in rest;
        var shiftedItems := NewItemAfterShift(it);
        if shiftedItems != {} {
          var key := NextSymbol(it);
          var keys := kernels[kernelIndex].keys;
          CollectOneMore(visited, it, keys, mapping);
          kernels := kernels[kernelIndex := kernels[kernelIndex].(keys := AddUnique(keys, key))];
          mapping := AppendMap(mapping, key, Advance(it));
        } else {
          CollectNothing(visited, it, kernels[kernelIndex].keys, mapping);
        }
        rest := rest - {it};
        visited := visited + {it};
      }
      assert visited == closure;
    }

    /** Gives kernel `kernelIndex` its edges; the result says whether the last item merged was a new one. */
    method AddGotos(kernelIndex: nat) returns (propagated: bool)
      requires Readable(grammar)
      requires Connecting(grammar, kernels, kernelIndex, 0) && kernels[kernelIndex].keys == [] && Rooted(kernels)
      modifies this
      ensures Progress(grammar, kernels, kernelIndex + 1) && Rooted(kernels)
      ensures !propagated
    {
      propagated := false;
      var mapping := CollectShifts(kernelIndex);
      var keys := kernels[kernelIndex].keys;
      KeysCollected(grammar, old(kernels), kernels, kernelIndex);
      RootedKept(old(kernels), kernels);
      for j := 0 to |keys|
        invariant Connecting(grammar, kernels, kernelIndex, j) && Rooted(kernels)
        invariant kernels[kernelIndex].keys == keys
        invariant ShiftsCollected(kernels[kernelIndex].closure, keys, mapping)
        invariant !propagated
      {
        ghost var before := kernels;
        MappedItemsOk(grammar, kernels, kernelIndex, keys, j, mapping);
        var target;
        target, propagated := ConnectKey(kernelIndex, keys[j], mapping[keys[j]]);
        OneMoreEdge(grammar, before, kernels, kernelIndex, j, mapping[keys[j]], target);
        NewKey(before[kernelIndex], j);
        RootedGrown(before, kernels, kernelIndex, keys[j], mapping[keys[j]], target);
      }
      AllConnected(grammar, kernels, kernelIndex);
    }

    /** Finds or appends the kernel made of `items` and points the edge at it. */
    method ConnectKey(kernelIndex: nat, key: Symbol, items: set<Item>) returns (target: nat, propagated: bool)
      requires kernelIndex < |kernels|
      modifies this
      ensures !propagated
      ensures ConnectedTo(old(kernels), kernels, kernelIndex, key, items, target)
    {
      propagated := false;
      var newKernel := NewKernel(|kernels|, items);
      var index := 0;
      while index < |kernels| && !SameKernel(kernels[index], newKernel)
        invariant 0 <= index <= |kernels|
        invariant forall k | 0 <= k < index :: kernels[k].items != items
      {
        index := index + 1;
      }
      target := index;
      if target == |kernels| {
        kernels := kernels + [newKernel];
      } else {
        var rest := newKernel.items;
        while rest != {}
          invariant rest <= items
          invariant kernels == old(kernels)
          invariant !propagated
        {
          var it :| it in rest;
          rest := rest - {it};
          propagated := it !in kernels[target].items;
          assert kernels[target].items + {it} == kernels[target].items;
          kernels := kernels[target := kernels[target].(items := kernels[target].items + {it})];
        }
      }
      kernels := kernels[kernelIndex := kernels[kernelIndex].(gotos := kernels[kernelIndex].gotos[key := target])];
    }
  }

  /** The list before and after one edge is added. */
  ghost predicate ConnectedTo(before: seq<Kernel>, after: seq<Kernel>, n: nat, key: Symbol, items: set<Item>, target: nat)
    requires n < |before|
  {
    && target <= |before|
    && (target < |before| ==> before[target].items == items)
    && (target == |before| ==> forall k | 0 <= k < |before| :: before[k].items != items)
    && var grown := if target < |before| then before else before + [NewKernel(target, items)];
    && after == grown[n := grown[n].(gotos := grown[n].gotos[key := target])]
  }

  /** The edges of `k` are those of the first `j` keys. */
  ghost predicate EdgesBelow(ks: seq<Kernel>, k: Kernel, j: nat) {
    && j <= |k.keys|
    && k.gotos.Keys == FiniteSets.Elements(k.keys[..j])
    && forall x {:trigger EdgeOk(ks, k, x)} | x in k.gotos :: EdgeOk(ks, k, x)
  }

  /** Kernel `n` is closed and its first `j` keys have their edges; the kernels before it are finished. */
  ghost predicate Connecting(g: Grammar, ks: seq<Kernel>, n: nat, j: nat)
    requires Readable(g)
  {
    && Shape(g, ks) && ProcessedBelow(g, ks, n) && n < |ks| && UnprocessedFrom(ks, n + 1)
    && ks[n].closure == ClosureOf(g, ks[n].items)
    && EdgesBelow(ks, ks[n], j)
  }

  lemma NewKey(k: Kernel, j: nat)
    requires j < |k.keys| && k.gotos.Keys == FiniteSets.Elements(k.keys[..j])
    requires forall a, b | 0 <= a < b < |k.keys| :: k.keys[a] != k.keys[b]
    ensures k.keys[j] !in k.gotos
  {
  }

  lemma ClosureUpdated(g: Grammar, before: seq<Kernel>, after: seq<Kernel>, n: nat)
    requires Readable(g)
    requires Progress(g, before, n) && n < |before|
    requires after == before[n := before[n].(closure := ClosureOf(g, before[n].items))]
    ensures Connecting(g, after, n, 0) && after[n].keys == []
  {
    assert Unprocessed(before[n]);
    ShapeKept(g, before, after);
    StaysProcessed(g, before, after, n);
  }

  lemma KeysCollected(g: Grammar, before: seq<Kernel>, after: seq<Kernel>, n: nat)
    requires Readable(g)
    requires Connecting(g, before, n, 0)
    requires |before| == |after| && after == before[n := before[n].(keys := after[n].keys)]
    ensures Connecting(g, after, n, 0)
  {
    ShapeKept(g, before, after);
    StaysProcessed(g, before, after, n);
  }

  lemma ShapeKept(g: Grammar, before: seq<Kernel>, after: seq<Kernel>)
    requires Readable(g)
    requires Shape(g, before)
    requires |before| == |after|
    requires forall i | 0 <= i < |before| :: before[i].items == after[i].items && before[i].index == after[i].index
    ensures Shape(g, after)
  {
    forall i | 0 <= i < |after|
      ensures KernelOk(g, after[i], i)
    {
      assert KernelOk(g, before[i], i);
    }
  }

  /** An edge stays right while the list only grows and the items of its members stay put. */
  lemma EdgeKept(before: seq<Kernel>, after: seq<Kernel>, k: Kernel, k': Kernel, x: Symbol)
    requires |before| <= |after|
    requires forall i | 0 <= i < |before| :: before[i].items == after[i].items
    requires x in k.gotos && x in k'.gotos && k.gotos[x] == k'.gotos[x] && k.closure == k'.closure
    requires EdgeOk(before, k, x)
    ensures EdgeOk(after, k', x)
  {
  }

  lemma StaysProcessed(g: Grammar, before: seq<Kernel>, after: seq<Kernel>, n: nat)
    requires Readable(g)
    requires ProcessedBelow(g, before, n) && |before| <= |after|
    requires forall i | 0 <= i < |before| :: before[i].items == after[i].items
    requires forall i | 0 <= i < n :: after[i] == before[i]
    ensures ProcessedBelow(g, after, n)
  {
    forall i | 0 <= i < n
      ensures Processed(g, after, after[i])
    {
      assert Processed(g, before, before[i]);
      forall x | x in after[i].gotos
        ensures EdgeOk(after, after[i], x)
      {
        EdgeKept(before, after, before[i], after[i], x);
      }
    }
  }

  /** What is collected under a key makes a kernel: it is not empty and every dot has moved. */
  lemma MappedItemsOk(g: Grammar, ks: seq<Kernel>, n: nat, keys: seq<Symbol>, j: nat, mapping: map<Symbol, set<Item>>)
    requires Readable(g)
    requires Connecting(g, ks, n, j) && j < |keys|
    requires ShiftsCollected(ks[n].closure, keys, mapping)
    ensures keys[j] in mapping
    ensures KernelOk(g, NewKernel(|ks|, mapping[keys[j]]), |ks|)
  {
    var x := keys[j];
    assert x in keys;
    assert KernelOk(g, ks[n], n);
    var closure := ks[n].closure;
    ClosureOk(g, ks[n].items);
    forall a | a in mapping[x]
      ensures ItemOk(g, a) && a.dot > 0
    {
      var it :| it in closure && CanShift(it) && NextSymbol(it) == x && a == Advance(it);
      AdvanceOk(g, it);
    }
    var it :| it in closure && CanShift(it) && NextSymbol(it) == x;
    assert Advance(it) in Shifted(closure, x);
  }

  lemma OneMoreEdge(g: Grammar, before: seq<Kernel>, after: seq<Kernel>, n: nat, j: nat, items: set<Item>, target: nat)
    requires Readable(g)
    requires Connecting(g, before, n, j) && j < |before[n].keys|
    requires Selected(Shifted(before[n].closure, before[n].keys[j]), items)
    requires KernelOk(g, NewKernel(|before|, items), |before|)
    requires ConnectedTo(before, after, n, before[n].keys[j], items, target)
    ensures Connecting(g, after, n, j + 1)
    ensures after[n].closure == before[n].closure && after[n].keys == before[n].keys
  {
    ListGrown(g, before, after, n, before[n].keys[j], items, target);
    StaysProcessed(g, before, after, n);
    EdgeAdded(before, after, before[n], after[n], j, items, target);
  }

  lemma EdgeAdded(before: seq<Kernel>, after: seq<Kernel>, k: Kernel, k': Kernel, j: nat, items: set<Item>, target: nat)
    requires |before| <= |after|
    requires forall i | 0 <= i < |before| :: before[i].items == after[i].items
    requires EdgesBelow(before, k, j) && j < |k.keys|
    requires k' == k.(gotos := k.gotos[k.keys[j] := target])
    requires target < |after| && after[target].items == items
    requires Selected(Shifted(k.closure, k.keys[j]), items)
    ensures EdgesBelow(after, k', j + 1)
  {
    FiniteSets.ElementsOfPrefix(k.keys, j);
    forall x | x in k'.gotos
      ensures EdgeOk(after, k', x)
    {
      if x != k.keys[j] {
        EdgeKept(before, after, k, k', x);
      }
    }
  }

  /** Adding an edge changes no items, and keeps the kernels different and well formed. */
  lemma ListGrown(g: Grammar, before: seq<Kernel>, after: seq<Kernel>, n: nat, key: Symbol, items: set<Item>, target: nat)
    requires Readable(g) && n < |before|
    requires Shape(g, before) && UnprocessedFrom(before, n + 1)
    requires KernelOk(g, NewKernel(|before|, items), |before|)
    requires ConnectedTo(before, after, n, key, items, target)
    ensures |before| <= |after| && target < |after| && after[target].items == items
    ensures after[n] == before[n].(gotos := before[n].gotos[key := target])
    ensures forall i | 0 <= i < |before| :: before[i].items == after[i].items
    ensures forall i | 0 <= i < n :: before[i] == after[i]
    ensures Shape(g, after) && UnprocessedFrom(after, n + 1)
  {
    forall i | 0 <= i < |after|
      ensures KernelOk(g, after[i], i)
    {
      if i < |before| {
        assert KernelOk(g, before[i], i);
      }
    }
  }

  lemma AllConnected(g: Grammar, ks: seq<Kernel>, n: nat)
    requires Readable(g)
    requires n < |ks| && Connecting(g, ks, n, |ks[n].keys|)
    requires forall x :: x in ks[n].keys <==> x in NextSymbols(ks[n].closure)
    ensures Progress(g, ks, n + 1)
  {
    assert ks[n].keys[..|ks[n].keys|] == ks[n].keys;
    assert ks[n].gotos.Keys == NextSymbols(ks[n].closure);
    assert Processed(g, ks, ks[n]);
  }

  function AddUnique(keys: seq<Symbol>, key: Symbol): seq<Symbol> {
    if key in keys then keys else keys + [key]
  }

  function AppendMap(m: map<Symbol, set<Item>>, key: Symbol, it: Item): map<Symbol, set<Item>> {
    m[key := AppendUnlessSeen(if key in m then m[key] else {}, it)]
  }

  /** `keys` lists the symbols after a dot, and `mapping` holds for each what is kept of its shifted items. */
  ghost predicate ShiftsCollected(closure: set<Item>, keys: seq<Symbol>, mapping: map<Symbol, set<Item>>) {
    && (forall x :: x in keys <==> x in NextSymbols(closure))
    && (forall i, j | 0 <= i < j < |keys| :: keys[i] != keys[j])
    && mapping.Keys == NextSymbols(closure)
    && forall x | x in mapping :: Selected(Shifted(closure, x), mapping[x])
  }

  lemma CollectOneMore(visited: set<Item>, it: Item, keys: seq<Symbol>, mapping: map<Symbol, set<Item>>)
    requires ShiftsCollected(visited, keys, mapping) && CanShift(it)
    ensures ShiftsCollected(visited + {it}, AddUnique(keys, NextSymbol(it)), AppendMap(mapping, NextSymbol(it), Advance(it)))
  {
    var key := NextSymbol(it);
    var m := AppendMap(mapping, key, Advance(it));
    assert NextSymbols(visited + {it}) == NextSymbols(visited) + {key};
    forall x | x in m
      ensures Selected(Shifted(visited + {it}, x), m[x])
    {
      ShiftedAppend(visited, it, x);
      if x == key {
        if key !in mapping {
          assert Shifted(visited, key) == {};
        }
        SelectedAppend(Shifted(visited, x), if key in mapping then mapping[key] else {}, Advance(it));
      } else {
        assert Shifted(visited + {it}, x) == Shifted(visited, x);
      }
    }
  }

  lemma CollectNothing(visited: set<Item>, it: Item, keys: seq<Symbol>, mapping: map<Symbol, set<Item>>)
    requires ShiftsCollected(visited, keys, mapping) && !CanShift(it)
    ensures ShiftsCollected(visited + {it}, keys, mapping)
  {
    assert NextSymbols(visited + {it}) == NextSymbols(visited);
    forall x | x in mapping
      ensures Selected(Shifted(visited + {it}, x), mapping[x])
    {
      ShiftedAppend(visited, it, x);
      assert Shifted(visited + {it}, x) == Shifted(visited, x);
    }
  }
}
