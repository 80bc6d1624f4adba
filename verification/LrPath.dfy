/** Paths through the automaton: what lies on the parser's stack, and what the table entries mean there. */
module LrPaths {
  import opened LrGrammar
  import opened LrItems
  import opened KernelGraphs
  import opened LrStrategies
  import opened ParseTrees

  // ---------------------------------------------------------------- paths through the automaton

  ghost predicate Edge(ks: seq<Kernel>, s: nat, x: Symbol, t: nat) {
    s < |ks| && x in ks[s].gotos && ks[s].gotos[x] == t && t < |ks|
  }

  /** `path` leaves the start state and follows the edges labelled by `symbols`. */
  ghost predicate Walk(ks: seq<Kernel>, path: seq<nat>, symbols: seq<Symbol>) {
    && |path| == |symbols| + 1
    && path[0] == 0 && 0 < |ks|
    && forall k {:trigger Follows(ks, path, symbols, k)} | 0 <= k < |symbols| :: Follows(ks, path, symbols, k)
  }

  ghost predicate Follows(ks: seq<Kernel>, path: seq<nat>, symbols: seq<Symbol>, k: int) {
    0 <= k < |symbols| && k + 1 < |path| && Edge(ks, path[k], symbols[k], path[k + 1])
  }

  lemma WalkInside(ks: seq<Kernel>, path: seq<nat>, symbols: seq<Symbol>, k: nat)
    requires Walk(ks, path, symbols) && k < |path|
    ensures path[k] < |ks|
  {
    if k > 0 {
      assert Follows(ks, path, symbols, k - 1);
    }
  }

  /** Every kernel is reached from the start state. */
  lemma {:induction false} KernelReached(ks: seq<Kernel>, i: nat) returns (path: seq<nat>, symbols: seq<Symbol>)
    requires Rooted(ks) && i < |ks|
    ensures Walk(ks, path, symbols) && path[|symbols|] == i
  {
    if i == 0 {
      path, symbols := [0], [];
    } else {
      assert Entered(ks, i);
      var j: nat, x: Symbol :| EntersFrom(ks, i, j, x);
      path, symbols := KernelReached(ks, j);
      WalkOn(ks, path, symbols, x, i);
      path, symbols := path + [i], symbols + [x];
    }
  }

  /** Shifting an item of `closure` over `x` gives `it`. */
  ghost predicate ShiftedFrom(closure: set<Item>, x: Symbol, it: Item) {
    && 0 < it.dot <= |it.rule.development|
    && it.rule.development[it.dot - 1] == x
    && Item(it.rule, it.dot - 1) in closure
  }

  /** The items an edge leads to are shifted items of its source. */
  lemma EdgeShifts(g: Grammar, ks: seq<Kernel>, s: nat, x: Symbol, t: nat, it: Item)
    requires WellFormed(g) && Automaton(g, ks)
    requires Edge(ks, s, x, t) && it in ks[t].items
    ensures ShiftedFrom(ks[s].closure, x, it)
  {
    KernelFacts(g, ks, s);
    assert EdgeOk(ks, ks[s], x);
    assert it in Shifted(ks[s].closure, x);
  }

  lemma EdgeNotToStart(g: Grammar, ks: seq<Kernel>, s: nat, x: Symbol, t: nat)
    requires WellFormed(g) && Automaton(g, ks) && Edge(ks, s, x, t)
    ensures t > 0
  {
    assert KernelOk(g, ks[t], t);
    if StartItem(g) in ks[t].items {
      EdgeShifts(g, ks, s, x, t, StartItem(g));
    }
  }

  ghost function Closures(ks: seq<Kernel>, path: seq<nat>): (cs: seq<set<Item>>)
    ensures |cs| == |path|
  {
    seq(|path|, k requires 0 <= k < |path| => if path[k] < |ks| then ks[path[k]].closure else {})
  }

  /** Looking back along an edge: every item whose dot has moved is a shifted item of the edge's source. */
  ghost predicate LooksBack(ks: seq<Kernel>) {
    && (|ks| > 0 ==> forall it | it in ks[0].closure :: it.dot == 0)
    && forall s: nat, x, t: nat, it | Edge(ks, s, x, t) && it in ks[t].closure && it.dot > 0 ::
         ShiftedFrom(ks[s].closure, x, it)
  }

  lemma AutomatonLooksBack(g: Grammar, ks: seq<Kernel>)
    requires WellFormed(g) && Automaton(g, ks)
    ensures LooksBack(ks)
  {
    forall it | it in ks[0].closure
      ensures it.dot == 0
    {
      MovedItemsAreKernelItems(g, ks, 0, it);
    }
    forall s: nat, x, t: nat, it | Edge(ks, s, x, t) && it in ks[t].closure && it.dot > 0
      ensures ShiftedFrom(ks[s].closure, x, it)
    {
      EdgeLooksBack(g, ks, s, x, t, it);
    }
  }

  lemma EdgeLooksBack(g: Grammar, ks: seq<Kernel>, s: nat, x: Symbol, t: nat, it: Item)
    requires WellFormed(g) && Automaton(g, ks)
    requires Edge(ks, s, x, t) && it in ks[t].closure && it.dot > 0
    ensures ShiftedFrom(ks[s].closure, x, it)
  {
    MovedItemsAreKernelItems(g, ks, t, it);
    EdgeShifts(g, ks, s, x, t, it);
  }

  lemma MovedItemsAreKernelItems(g: Grammar, ks: seq<Kernel>, t: nat, it: Item)
    requires WellFormed(g) && Automaton(g, ks) && t < |ks|
    requires it in ks[t].closure
    ensures it.dot > 0 ==> it in ks[t].items && t > 0
  {
    KernelFacts(g, ks, t);
    if it !in ks[t].items {
      AddedIsAskedFor(g, ks[t].items, it);
    }
  }

  ghost predicate ComesFromBelow(symbols: seq<Symbol>, cs: seq<set<Item>>, n: nat, it: Item) {
    0 < n <= |symbols| && n <= |cs| && ShiftedFrom(cs[n - 1], symbols[n - 1], it)
  }

  /** Every item whose dot has moved has its predecessor one state below. */
  ghost predicate Linked(symbols: seq<Symbol>, cs: seq<set<Item>>) {
    && |cs| == |symbols| + 1
    && forall n: nat, it | n < |cs| && it in cs[n] && it.dot > 0 :: ComesFromBelow(symbols, cs, n, it)
  }

  lemma WalkIsLinked(ks: seq<Kernel>, path: seq<nat>, symbols: seq<Symbol>)
    requires LooksBack(ks) && Walk(ks, path, symbols)
    ensures Linked(symbols, Closures(ks, path))
  {
    var cs := Closures(ks, path);
    forall n: nat, it: Item | n < |cs| && it in cs[n] && it.dot > 0
      ensures ComesFromBelow(symbols, cs, n, it)
    {
      if n > 0 {
        assert Follows(ks, path, symbols, n - 1);
      }
    }
  }

  /** What lies before the dot of an item of a state is what lies on top of the stack when the state is reached. */
  lemma {:induction false} ItemHistory(symbols: seq<Symbol>, cs: seq<set<Item>>, n: nat, it: Item)
    requires Linked(symbols, cs) && n < |cs| && it in cs[n]
    ensures it.dot <= n && (it.dot > 0 ==> it.dot <= |it.rule.development|)
    ensures it.dot > 0 ==> symbols[n - it.dot..n] == it.rule.development[..it.dot]
    ensures Item(it.rule, 0) in cs[n - it.dot]
    decreases it.dot
  {
    if it.dot == 0 {
      assert it == Item(it.rule, 0);
    } else {
      assert ComesFromBelow(symbols, cs, n, it);
      ItemHistory(symbols, cs, n - 1, Item(it.rule, it.dot - 1));
      assert symbols[n - it.dot..n] == symbols[n - it.dot..n - 1] + [symbols[n - 1]];
      assert it.rule.development[..it.dot] == it.rule.development[..it.dot - 1] + [it.rule.development[it.dot - 1]];
    }
  }

  /** The same, along a path of the automaton. */
  lemma ViablePrefix(g: Grammar, ks: seq<Kernel>, path: seq<nat>, symbols: seq<Symbol>, it: Item) returns (m: nat)
    requires WellFormed(g) && Automaton(g, ks) && Walk(ks, path, symbols)
    requires it in Closures(ks, path)[|symbols|] && it.dot <= |it.rule.development|
    ensures m <= |symbols| && m + it.dot == |symbols|
    ensures symbols[m..] == it.rule.development[..it.dot]
    ensures Item(it.rule, 0) in Closures(ks, path)[m]
  {
    AutomatonLooksBack(g, ks);
    WalkIsLinked(ks, path, symbols);
    ItemHistory(symbols, Closures(ks, path), |symbols|, it);
    m := |symbols| - it.dot;
    assert symbols[m..|symbols|] == symbols[m..];
  }

  /** Once the dot is back at the front of a rule other than the start rule, its nonterminal has an edge. */
  lemma NonTerminalHasEdge(g: Grammar, ks: seq<Kernel>, s: nat, it: Item)
    requires WellFormed(g) && Automaton(g, ks) && s < |ks|
    requires it in ks[s].closure && it.dot == 0 && it.rule != g.rules[0]
    ensures it.rule.nonTerminal in ks[s].gotos
  {
    KernelFacts(g, ks, s);
    assert it !in ks[s].items;
    AddedIsAskedFor(g, ks[s].items, it);
    var k :| k in ks[s].closure && CanShift(k) && NextSymbol(k) == it.rule.nonTerminal;
  }

  /** The start rule with the dot at the front is found in the start state only. */
  lemma StartItemOnlyAtStart(g: Grammar, ks: seq<Kernel>, s: nat, it: Item)
    requires WellFormed(g) && Automaton(g, ks) && s < |ks|
    requires it in ks[s].closure && it.dot == 0 && it.rule == g.rules[0]
    ensures s == 0
  {
    KernelFacts(g, ks, s);
    if it !in ks[s].items {
      AddedIsAskedFor(g, ks[s].items, it);
    }
  }

  lemma OnlyStartIsZero(g: Grammar, ks: seq<Kernel>, path: seq<nat>, symbols: seq<Symbol>, m: nat)
    requires WellFormed(g) && Automaton(g, ks) && Walk(ks, path, symbols)
    requires m < |path| && path[m] == 0
    ensures m == 0
  {
    if m > 0 {
      assert Follows(ks, path, symbols, m - 1);
      EdgeNotToStart(g, ks, path[m - 1], symbols[m - 1], path[m]);
    }
  }

  // ---------------------------------------------------------------- what the actions mean

  lemma ReductionIsNoShift(g: Grammar, closure: set<Item>, a: Symbol, action: Action)
    requires WellFormed(g) && Reduces(g, closure, a, action)
    ensures !action.Shift?
  {
    var it, r: nat :| ReducesBy(g, closure, a, action, it, r);
  }

  /** A shift follows an edge on a terminal other than the end mark. */
  lemma ShiftMeans(g: Grammar, ks: seq<Kernel>, states: seq<State>, s: nat, a: Symbol)
    requires WellFormed(g) && TablesOk(g, ks, states) && s < |states|
    requires a in states[s].lrAction && states[s].lrAction[a].Shift?
    ensures a in Terminals(g) && a != END
    ensures Edge(ks, s, a, states[s].lrAction[a].state)
  {
    assert StateOk(g, ks[s], states[s]);
    assert ActionOk(g, ks[s], ks[s].closure, states[s].lrAction, a);
    if Reduces(g, ks[s].closure, a, states[s].lrAction[a]) {
      ReductionIsNoShift(g, ks[s].closure, a, states[s].lrAction[a]);
    }
    KernelFacts(g, ks, s);
    assert EdgeOk(ks, ks[s], a);
  }

  /** A reduction finds the right-hand side of its rule on top of the stack and an edge below it. */
  lemma ReduceMeans(g: Grammar, ks: seq<Kernel>, states: seq<State>, path: seq<nat>, symbols: seq<Symbol>, a: Symbol)
    returns (m: nat)
    requires WellFormed(g) && TablesOk(g, ks, states) && Walk(ks, path, symbols)
    requires path[|symbols|] < |states|
    requires a in states[path[|symbols|]].lrAction && states[path[|symbols|]].lrAction[a].Reduce?
    ensures var r := states[path[|symbols|]].lrAction[a].rule;
            && r < |g.rules|
            && m <= |symbols| && symbols[m..] == Rhs(g.rules[r]) && path[m] < |states|
            && g.rules[r].nonTerminal in states[path[m]].lrGoto
            && Edge(ks, path[m], g.rules[r].nonTerminal, states[path[m]].lrGoto[g.rules[r].nonTerminal])
  {
    var s := path[|symbols|];
    var it, r := ReducedItem(g, ks, states, s, a);
    RootsAreRhs(g, ks, s, it);
    m := ViablePrefix(g, ks, path, symbols, it);
    WalkInside(ks, path, symbols, m);
    GotoOfReduction(g, ks, states, path[m], Item(it.rule, 0));
  }

  lemma GotoOfReduction(g: Grammar, ks: seq<Kernel>, states: seq<State>, s: nat, first: Item)
    requires WellFormed(g) && TablesOk(g, ks, states) && s < |ks|
    requires first in ks[s].closure && first.dot == 0 && first.rule != g.rules[0] && first.rule in g.rules
    ensures first.rule.nonTerminal in states[s].lrGoto
    ensures Edge(ks, s, first.rule.nonTerminal, states[s].lrGoto[first.rule.nonTerminal])
  {
    NonTerminalHasEdge(g, ks, s, first);
    assert StateOk(g, ks[s], states[s]);
    assert first.rule.nonTerminal in NonTerminals(g);
    KernelFacts(g, ks, s);
    assert EdgeOk(ks, ks[s], first.rule.nonTerminal);
  }

  /** The item behind a reduction. */
  lemma ReducedItem(g: Grammar, ks: seq<Kernel>, states: seq<State>, s: nat, a: Symbol) returns (it: Item, r: nat)
    requires WellFormed(g) && TablesOk(g, ks, states) && s < |states|
    requires a in states[s].lrAction && !states[s].lrAction[a].Shift?
    ensures ReducesBy(g, ks[s].closure, a, states[s].lrAction[a], it, r)
  {
    assert StateOk(g, ks[s], states[s]);
    assert ActionOk(g, ks[s], ks[s].closure, states[s].lrAction, a);
    it, r :| ReducesBy(g, ks[s].closure, a, states[s].lrAction[a], it, r);
  }

  lemma RootsAreRhs(g: Grammar, ks: seq<Kernel>, s: nat, it: Item)
    requires WellFormed(g) && Automaton(g, ks) && s < |ks|
    requires it in ks[s].closure && |it.rule.development| > 0 && Complete(it)
    ensures it.dot <= |it.rule.development| && it.rule.development[..it.dot] == Rhs(it.rule)
  {
    KernelFacts(g, ks, s);
    if it.rule.development[0] == EPSILON {
      assert it.dot == 0;
    }
  }

  /** Acceptance finds the whole right-hand side of the start rule on the stack, and nothing else. */
  lemma AcceptMeans(g: Grammar, ks: seq<Kernel>, states: seq<State>, path: seq<nat>, symbols: seq<Symbol>, a: Symbol)
    requires WellFormed(g) && TablesOk(g, ks, states) && Walk(ks, path, symbols)
    requires path[|symbols|] < |states|
    requires a in states[path[|symbols|]].lrAction && states[path[|symbols|]].lrAction[a].Accept?
    ensures a == END
    ensures symbols == g.rules[0].development
  {
    var s := path[|symbols|];
    var it, r := ReducedItem(g, ks, states, s, a);
    KernelFacts(g, ks, s);
    RootsAreRhs(g, ks, s, it);
    var m := ViablePrefix(g, ks, path, symbols, it);
    WalkInside(ks, path, symbols, m);
    StartItemOnlyAtStart(g, ks, path[m], Item(it.rule, 0));
    OnlyStartIsZero(g, ks, path, symbols, m);
    assert symbols[m..] == symbols;
  }

  // ---------------------------------------------------------------- the stack

  /** The stack above `base`: the states of `path` alternate with what stands for `trees`. */
  ghost predicate Mirrors(g: Grammar, handlers: seq<string>, stack: seq<Stackable>, base: nat,
                          path: seq<nat>, trees: seq<Parse>)
  {
    && |path| == |trees| + 1
    && |stack| == base + 2 * |trees| + 1
    && (forall k | 0 <= k < |path| :: stack[base + 2 * k] == Goto(path[k]))
    && forall k | 0 <= k < |trees| :: stack[base + 2 * k + 1] == Abstract(g, handlers, trees[k])
  }

  /** The parser's state, for parse trees nobody builds: they are valid, they follow the automaton from the start
      state, the stack mirrors them, and their leaves are the tokens consumed. */
  ghost predicate Invariant(g: Grammar, handlers: seq<string>, ks: seq<Kernel>, below: seq<Stackable>,
                            stack: seq<Stackable>, consumed: seq<Token>, path: seq<nat>, trees: seq<Parse>)
    requires WellFormed(g)
  {
    && below <= stack
    && Mirrors(g, handlers, stack, |below|, path, trees)
    && Walk(ks, path, Roots(g, trees))
    && (forall t <- trees :: Valid(g, t))
    && FrontierAll(trees) == consumed
  }

  lemma WalkOn(ks: seq<Kernel>, path: seq<nat>, symbols: seq<Symbol>, x: Symbol, t: nat)
    requires Walk(ks, path, symbols) && Edge(ks, path[|symbols|], x, t)
    ensures Walk(ks, path + [t], symbols + [x])
  {
    forall k | 0 <= k < |symbols + [x]|
      ensures Follows(ks, path + [t], symbols + [x], k)
    {
      assert k < |symbols| ==> Follows(ks, path, symbols, k);
    }
  }

  lemma WalkBack(ks: seq<Kernel>, path: seq<nat>, symbols: seq<Symbol>, m: nat)
    requires Walk(ks, path, symbols) && m <= |symbols|
    ensures Walk(ks, path[..m + 1], symbols[..m])
  {
    var p, s := path[..m + 1], symbols[..m];
    forall k | 0 <= k < |s|
      ensures Follows(ks, p, s, k)
    {
      assert Follows(ks, path, symbols, k);
    }
  }

  /** Popping back to the first `m` trees. */
  lemma Pops(g: Grammar, handlers: seq<string>, ks: seq<Kernel>, below: seq<Stackable>,
             stack: seq<Stackable>, consumed: seq<Token>, path: seq<nat>, trees: seq<Parse>, m: nat)
    requires WellFormed(g) && Invariant(g, handlers, ks, below, stack, consumed, path, trees)
    requires m <= |trees|
    ensures |stack| - 2 * (|trees| - m) >= 0
    ensures Invariant(g, handlers, ks, below, stack[..|stack| - 2 * (|trees| - m)],
                      FrontierAll(trees[..m]), path[..m + 1], trees[..m])
    ensures consumed == FrontierAll(trees[..m]) + FrontierAll(trees[m..])
  {
    assert trees == trees[..m] + trees[m..];
    FrontierConcat(trees[..m], trees[m..]);
    WalkBack(ks, path, Roots(g, trees), m);
    assert Roots(g, trees[..m]) == Roots(g, trees)[..m];
  }

  lemma PushMirrors(g: Grammar, handlers: seq<string>, stack: seq<Stackable>, base: nat,
                    path: seq<nat>, trees: seq<Parse>, t: Parse, state: nat)
    requires Mirrors(g, handlers, stack, base, path, trees)
    ensures Mirrors(g, handlers, stack + [Abstract(g, handlers, t), Goto(state)], base, path + [state], trees + [t])
  {
  }

  lemma Pushes(g: Grammar, handlers: seq<string>, ks: seq<Kernel>, below: seq<Stackable>,
               stack: seq<Stackable>, consumed: seq<Token>, path: seq<nat>, trees: seq<Parse>, t: Parse, state: nat)
    requires WellFormed(g) && Invariant(g, handlers, ks, below, stack, consumed, path, trees)
    requires Valid(g, t) && Edge(ks, path[|trees|], Root(g, t), state)
    ensures Invariant(g, handlers, ks, below, stack + [Abstract(g, handlers, t), Goto(state)],
                      consumed + Frontier(t), path + [state], trees + [t])
  {
    PushMirrors(g, handlers, stack, |below|, path, trees, t, state);
    FrontierConcat(trees, [t]);
    assert FrontierAll([t]) == Frontier(t) + FrontierAll([]);
    WalkOn(ks, path, Roots(g, trees), Root(g, t), state);
    assert Roots(g, trees + [t]) == Roots(g, trees) + [Root(g, t)];
  }
}
