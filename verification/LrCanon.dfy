/** The automaton a grammar is meant to have, and for which grammars the construction builds it. */
module LrCanon {
  import opened LrGrammar
  import opened LrItems
  import opened KernelGraphs
  import opened LrPaths
  import FiniteSets

  // ---------------------------------------------------------------- the canonical item sets

  /** The items after reading `w`: the start item, closed and shifted over each symbol in turn. */
  ghost function Canon(g: Grammar, w: seq<Symbol>): set<Item>
    requires Readable(g)
  {
    if w == [] then {StartItem(g)} else Shifted(ClosureOf(g, Canon(g, w[..|w| - 1])), w[|w| - 1])
  }

  lemma CanonNext(g: Grammar, w: seq<Symbol>, x: Symbol)
    requires Readable(g)
    ensures Canon(g, w + [x]) == Shifted(ClosureOf(g, Canon(g, w)), x)
  {
    assert (w + [x])[..|w|] == w;
  }

  /** No word leads to two items that the equality operator confuses. */
  ghost predicate TellsApart(g: Grammar)
    requires Readable(g)
  {
    forall w :: Distinguished(Canon(g, w))
  }

  /** The edge leads to exactly the shifted items. */
  ghost predicate ExactEdge(ks: seq<Kernel>, k: Kernel, x: Symbol)
    requires x in k.gotos
  {
    k.gotos[x] < |ks| && ks[k.gotos[x]].items == Shifted(k.closure, x)
  }

  ghost predicate Exact(ks: seq<Kernel>) {
    forall s: nat, x {:trigger ExactEdge(ks, ks[s], x)} | s < |ks| && x in ks[s].gotos :: ExactEdge(ks, ks[s], x)
  }

  /** An edge leads to exactly the shifted items if and only if no two of them look equal to the linear search. */
  lemma EdgeExactlyShifted(g: Grammar, ks: seq<Kernel>, s: nat, x: Symbol)
    requires Readable(g) && Automaton(g, ks) && s < |ks| && x in ks[s].gotos
    ensures ks[s].gotos[x] < |ks| && Distinguished(ks[ks[s].gotos[x]].items)
    ensures ExactEdge(ks, ks[s], x) <==> Distinguished(Shifted(ks[s].closure, x))
  {
    KernelFacts(g, ks, s);
    assert EdgeOk(ks, ks[s], x);
    SelectedExactly(Shifted(ks[s].closure, x), ks[ks[s].gotos[x]].items);
  }

  // ---------------------------------------------------------------- which grammars get theirs

  /** Where either side holds, the kernel at the end of a path holds what its word leads to. */
  lemma {:induction false} PathSpells(g: Grammar, ks: seq<Kernel>, path: seq<nat>, w: seq<Symbol>)
    requires Readable(g) && Automaton(g, ks) && (Exact(ks) || TellsApart(g)) && Walk(ks, path, w)
    ensures path[|w|] < |ks| && ks[path[|w|]].items == Canon(g, w)
    decreases |w|
  {
    KernelFacts(g, ks, 0);
    if w != [] {
      var n := |w| - 1;
      WalkBack(ks, path, w, n);
      PathSpells(g, ks, path[..n + 1], w[..n]);
      assert Follows(ks, path, w, n);
      var s, x := path[n], w[n];
      KernelFacts(g, ks, s);
      EdgeExactlyShifted(g, ks, s, x);
      assert Shifted(ks[s].closure, x) == Canon(g, w);
      assert ExactEdge(ks, ks[s], x);
    }
  }

  lemma PathGoesOn(g: Grammar, ks: seq<Kernel>, path: seq<nat>, w: seq<Symbol>, x: Symbol) returns (t: nat)
    requires Readable(g) && Automaton(g, ks) && (Exact(ks) || TellsApart(g)) && Walk(ks, path, w)
    requires Canon(g, w + [x]) != {}
    ensures Walk(ks, path + [t], w + [x])
  {
    PathSpells(g, ks, path, w);
    CanonNext(g, w, x);
    var s := path[|w|];
    KernelFacts(g, ks, s);
    var it :| it in Shifted(ks[s].closure, x);
    assert x in NextSymbols(ks[s].closure);
    EdgeExactlyShifted(g, ks, s, x);
    t := ks[s].gotos[x];
    WalkOn(ks, path, w, x, t);
  }

  /** Every word that leads to an item is then spelled by a path. */
  lemma {:induction false} WordHasPath(g: Grammar, ks: seq<Kernel>, w: seq<Symbol>) returns (path: seq<nat>)
    requires Readable(g) && Automaton(g, ks) && (Exact(ks) || TellsApart(g)) && Canon(g, w) != {}
    ensures Walk(ks, path, w)
    decreases |w|
  {
    path := [0];
    if w != [] {
      var n := |w| - 1;
      assert w == w[..n] + [w[n]];
      var before := WordHasPath(g, ks, w[..n]);
      var t := PathGoesOn(g, ks, before, w[..n], w[n]);
      path := before + [t];
    }
  }

  /** Every edge of the automaton is exact if and only if the grammar never leads to two items that look equal. */
  lemma AutomatonExact(g: Grammar, ks: seq<Kernel>)
    requires Readable(g) && Automaton(g, ks) && Rooted(ks)
    ensures Exact(ks) <==> TellsApart(g)
  {
    if Exact(ks) {
      forall w
        ensures Distinguished(Canon(g, w))
      {
        if Canon(g, w) != {} {
          PathEndsApart(g, ks, w);
        }
      }
    }
    if TellsApart(g) {
      forall s: nat, x | s < |ks| && x in ks[s].gotos
        ensures ExactEdge(ks, ks[s], x)
      {
        var path, w := KernelReached(ks, s);
        PathSpells(g, ks, path, w);
        KernelFacts(g, ks, s);
        CanonNext(g, w, x);
        EdgeExactlyShifted(g, ks, s, x);
      }
    }
  }

  lemma PathEndsApart(g: Grammar, ks: seq<Kernel>, w: seq<Symbol>)
    requires Readable(g) && Automaton(g, ks) && Exact(ks) && Canon(g, w) != {}
    ensures Distinguished(Canon(g, w))
  {
    var path := WordHasPath(g, ks, w);
    PathSpells(g, ks, path, w);
    if w != [] {
      assert Follows(ks, path, w, |w| - 1);
      EdgeExactlyShifted(g, ks, path[|w| - 1], w[|w| - 1]);
    }
  }

  /** The automaton of such a grammar is the canonical one: a path spells a word exactly when the word leads to an
      item, and the kernel at its end holds exactly the items the word leads to. */
  lemma KernelsAreCanonical(g: Grammar, ks: seq<Kernel>, w: seq<Symbol>)
    requires Readable(g) && Automaton(g, ks) && TellsApart(g)
    ensures (exists path :: Walk(ks, path, w)) <==> Canon(g, w) != {}
    ensures forall path | Walk(ks, path, w) :: path[|w|] < |ks| && ks[path[|w|]].items == Canon(g, w)
  {
    forall path | Walk(ks, path, w)
      ensures path[|w|] < |ks| && ks[path[|w|]].items == Canon(g, w) != {}
    {
      PathSpells(g, ks, path, w);
      KernelFacts(g, ks, path[|w|]);
    }
    if Canon(g, w) != {} {
      var path := WordHasPath(g, ks, w);
    }
  }

  /** The two are not one rule with two dots, nor two left sides of one development with the same dot. */
  ghost predicate KeptApart(a: Item, b: Item) {
    && (a.rule == b.rule ==> a.dot == b.dot)
    && (a.rule.development == b.rule.development && a.dot == b.dot ==> a.rule.nonTerminal == b.rule.nonTerminal)
  }

  /** What telling apart means: any two items a word leads to are kept apart. */
  lemma ApartMeans(g: Grammar)
    requires Readable(g)
    ensures TellsApart(g) <==> forall w, a, b | a in Canon(g, w) && b in Canon(g, w) :: KeptApart(a, b)
  {
    if TellsApart(g) {
      forall w, a, b | a in Canon(g, w) && b in Canon(g, w)
        ensures KeptApart(a, b)
      {
        assert Distinguished(Canon(g, w));
        PairApart(a, b);
      }
    } else {
      var w :| !Distinguished(Canon(g, w));
      var a, b :| a in Canon(g, w) && b in Canon(g, w) && LooksEqual(a, b) && a != b;
      PairApart(a, b);
      assert a in Canon(g, w) && b in Canon(g, w) && !KeptApart(a, b);
    }
  }

  lemma PairApart(a: Item, b: Item)
    ensures (LooksEqual(a, b) ==> a == b) <==> KeptApart(a, b)
  {
  }

  // ---------------------------------------------------------------- deciding it

  lemma LastApart(u: seq<Symbol>, w: seq<Symbol>)
    requires w != []
    ensures u + w == (u + w[..|w| - 1]) + [w[|w| - 1]]
  {
  }

  lemma {:induction false} CanonAppend(g: Grammar, u: seq<Symbol>, v: seq<Symbol>, w: seq<Symbol>)
    requires Readable(g) && Canon(g, u) == Canon(g, v)
    ensures Canon(g, u + w) == Canon(g, v + w)
  {
    if w == [] {
      assert u + w == u && v + w == v;
    } else {
      var n := |w| - 1;
      CanonAppend(g, u, v, w[..n]);
      LastApart(u, w);
      LastApart(v, w);
      CanonNext(g, u + w[..n], w[n]);
      CanonNext(g, v + w[..n], w[n]);
    }
  }

  /** What a word leads to, a short word leads to as well: a longer one visits some item set twice. */
  lemma {:induction false} ShortWord(g: Grammar, w: seq<Symbol>) returns (v: seq<Symbol>)
    requires Readable(g)
    ensures Canon(g, v) == Canon(g, w) && |v| < FiniteSets.Pow2(|AllItems(g)|)
    decreases |w|
  {
    v := w;
    if |w| >= FiniteSets.Pow2(|AllItems(g)|) {
      var sets := seq(|w| + 1, i requires 0 <= i <= |w| => Canon(g, w[..i]));
      forall i | 0 <= i < |sets|
        ensures sets[i] <= AllItems(g)
      {
        CanonOk(g, w[..i]);
      }
      if forall i, j | 0 <= i < j < |sets| :: sets[i] != sets[j] {
        FiniteSets.DistinctSubsetsBounded(AllItems(g), sets);
      }
      var i, j :| 0 <= i < j < |sets| && sets[i] == sets[j];
      CanonAppend(g, w[..i], w[..j], w[j..]);
      assert w[..j] + w[j..] == w;
      v := ShortWord(g, w[..i] + w[j..]);
    }
  }

  /** So the condition is decided by finitely many words. */
  lemma ShortWordsSuffice(g: Grammar)
    requires Readable(g)
    ensures TellsApart(g) <==> forall w | |w| < FiniteSets.Pow2(|AllItems(g)|) :: Distinguished(Canon(g, w))
  {
    if forall w | |w| < FiniteSets.Pow2(|AllItems(g)|) :: Distinguished(Canon(g, w)) {
      forall w
        ensures Distinguished(Canon(g, w))
      {
        var v := ShortWord(g, w);
      }
    }
  }

  // ---------------------------------------------------------------- a condition on the rules alone

  /** Different nonterminals never share a development, and no development has a symbol twice. */
  ghost predicate Clear(g: Grammar) {
    && (forall q, r | q in g.rules && r in g.rules && q.development == r.development :: q == r)
    && forall r | r in g.rules :: forall i, j | 0 <= i < j < |r.development| :: r.development[i] != r.development[j]
  }

  lemma {:induction false} CanonOk(g: Grammar, w: seq<Symbol>)
    requires Readable(g)
    ensures forall it <- Canon(g, w) :: ItemOk(g, it)
    ensures w != [] ==> forall it <- Canon(g, w) :: it.dot > 0 && it.rule.development[it.dot - 1] == w[|w| - 1]
  {
    if w == [] {
      assert g.rules[0] in g.rules;
    } else {
      CanonOk(g, w[..|w| - 1]);
      ClosureOk(g, Canon(g, w[..|w| - 1]));
    }
  }

  /** That suffices for the grammar to get its automaton. */
  lemma ClearTellsApart(g: Grammar)
    requires Readable(g) && Clear(g)
    ensures TellsApart(g)
  {
    forall w
      ensures Distinguished(Canon(g, w))
    {
      CanonOk(g, w);
      forall a, b | a in Canon(g, w) && b in Canon(g, w) && LooksEqual(a, b)
        ensures a == b
      {
        assert a.rule == b.rule;
      }
    }
  }

  /** A grammar in which two nonterminals share the development `a`. */
  function LookAlikeGrammar(follows: map<Symbol, set<Symbol>>): Grammar {
    Grammar([Rule("S'", ["S"]), Rule("S", ["T", "x"]), Rule("S", ["U", "y"]), Rule("T", ["a"]), Rule("U", ["a"])], follows)
  }

  /** There `a` leads to two reductions that look equal, and whatever the follow sets are, one of them is lost. */
  lemma LookAlikesLost(follows: map<Symbol, set<Symbol>>, ks: seq<Kernel>)
    requires Readable(LookAlikeGrammar(follows)) && Automaton(LookAlikeGrammar(follows), ks)
    ensures !Distinguished(Canon(LookAlikeGrammar(follows), ["a"]))
    ensures "a" in ks[0].gotos && ks[0].gotos["a"] < |ks|
    ensures ks[ks[0].gotos["a"]].items < Canon(LookAlikeGrammar(follows), ["a"])
  {
    var g := LookAlikeGrammar(follows);
    KernelFacts(g, ks, 0);
    var t, u := FreshItem(g, 3), FreshItem(g, 4);
    LookAlikesInClosure(follows);
    CanonNext(g, [], "a");
    assert [] + ["a"] == ["a"];
    assert CanShift(t) && NextSymbol(t) == "a" && CanShift(u) && NextSymbol(u) == "a";
    assert "a" in NextSymbols(ks[0].closure);
    var a, b := Advance(t), Advance(u);
    assert a in Shifted(ks[0].closure, "a") && b in Shifted(ks[0].closure, "a");
    assert a.rule.nonTerminal != b.rule.nonTerminal && LooksEqual(a, b);
    EdgeExactlyShifted(g, ks, 0, "a");
    assert EdgeOk(ks, ks[0], "a");
  }

  lemma LookAlikesInClosure(follows: map<Symbol, set<Symbol>>)
    requires Readable(LookAlikeGrammar(follows))
    ensures var g := LookAlikeGrammar(follows);
            {FreshItem(g, 3), FreshItem(g, 4)} <= ClosureOf(g, {StartItem(g)})
  {
    var g := LookAlikeGrammar(follows);
    assert ChainTo(g, "S", [1, 3], 3) && ChainTo(g, "S", [2, 4], 4);
    ClosersAreChained(g, "S", 3);
    ClosersAreChained(g, "S", 4);
    assert FreshItem(g, 3) in Expansion(g, StartItem(g)) && FreshItem(g, 4) in Expansion(g, StartItem(g));
  }

  /** The requirement of the lemma above is met by that grammar. */
  lemma LookAlikeGrammarWellFormed(follows: map<Symbol, set<Symbol>>)
    ensures WellFormed(LookAlikeGrammar(follows))
  {
    var g := LookAlikeGrammar(follows);
    assert forall r <- g.rules :: r in {g.rules[0], g.rules[1], g.rules[2], g.rules[3], g.rules[4]};
  }

  // ---------------------------------------------------------------- one rule, two dots

  /** Expressions in postfix notation. */
  function PostfixGrammar(follows: map<Symbol, set<Symbol>>): Grammar {
    Grammar([Rule("S'", ["E"]), Rule("E", ["E", "E", "+"]), Rule("E", ["#ID"])], follows)
  }

  lemma PostfixWellFormed(follows: map<Symbol, set<Symbol>>)
    ensures WellFormed(PostfixGrammar(follows))
  {
    var g := PostfixGrammar(follows);
    assert forall r <- g.rules :: r in {g.rules[0], g.rules[1], g.rules[2]};
  }

  /** After `E E` the rule for `+` appears with two dots, and every automaton loses one of them. */
  lemma PostfixLost(follows: map<Symbol, set<Symbol>>, ks: seq<Kernel>)
    requires Readable(PostfixGrammar(follows)) && Automaton(PostfixGrammar(follows), ks)
    ensures var g := PostfixGrammar(follows);
            {Item(g.rules[1], 1), Item(g.rules[1], 2)} <= Canon(g, ["E", "E"])
    ensures exists path :: Walk(ks, path, ["E", "E"])
    ensures forall path | Walk(ks, path, ["E", "E"]) ::
              path[2] < |ks| && ks[path[2]].items < Canon(PostfixGrammar(follows), ["E", "E"])
  {
    PostfixItems(follows);
    var s := PostfixFirst(follows, ks);
    var t := PostfixSecond(follows, ks, s);
    TwoEdges(ks, s, t, "E");
  }

  lemma TwoEdges(ks: seq<Kernel>, s: nat, t: nat, x: Symbol)
    requires Edge(ks, 0, x, s) && Edge(ks, s, x, t)
    ensures Walk(ks, [0, s, t], [x, x])
    ensures forall path | Walk(ks, path, [x, x]) :: path[2] == t
  {
    var w := [x, x];
    assert Follows(ks, [0, s, t], w, 0) && Follows(ks, [0, s, t], w, 1);
    forall path | Walk(ks, path, w)
      ensures path[2] == t
    {
      assert Follows(ks, path, w, 0) && Follows(ks, path, w, 1);
    }
  }

  /** The second edge loses an item. */
  lemma PostfixSecond(follows: map<Symbol, set<Symbol>>, ks: seq<Kernel>, s: nat) returns (t: nat)
    requires Readable(PostfixGrammar(follows)) && Automaton(PostfixGrammar(follows), ks)
    requires s < |ks| && ks[s].items == Canon(PostfixGrammar(follows), ["E"])
    ensures Edge(ks, s, "E", t) && ks[t].items < Canon(PostfixGrammar(follows), ["E", "E"])
  {
    var g := PostfixGrammar(follows);
    PostfixItems(follows);
    var a, b := Item(g.rules[1], 1), Item(g.rules[1], 2);
    KernelFacts(g, ks, s);
    CanonNext(g, ["E"], "E");
    assert ["E"] + ["E"] == ["E", "E"];
    assert a in ks[s].closure && CanShift(a) && NextSymbol(a) == "E";
    assert "E" in NextSymbols(ks[s].closure);
    EdgeExactlyShifted(g, ks, s, "E");
    assert EdgeOk(ks, ks[s], "E");
    t := ks[s].gotos["E"];
    assert LooksEqual(a, b) && a != b;
  }

  lemma PostfixItems(follows: map<Symbol, set<Symbol>>)
    requires Readable(PostfixGrammar(follows))
    ensures var g := PostfixGrammar(follows);
            && Item(g.rules[1], 1) in Canon(g, ["E"])
            && {Item(g.rules[1], 1), Item(g.rules[1], 2)} <= Canon(g, ["E", "E"])
  {
    var g := PostfixGrammar(follows);
    var first, a, b := FreshItem(g, 1), Item(g.rules[1], 1), Item(g.rules[1], 2);
    assert ChainTo(g, "E", [1], 1);
    ClosersAreChained(g, "E", 1);
    CanonNext(g, [], "E");
    CanonNext(g, ["E"], "E");
    assert [] + ["E"] == ["E"] && ["E"] + ["E"] == ["E", "E"];
    assert first in Expansion(g, StartItem(g)) && first in ClosureOf(g, Canon(g, []));
    assert Advance(first) == a && a in Canon(g, ["E"]);
    assert first in Expansion(g, a) && first in ClosureOf(g, Canon(g, ["E"]));
    assert a in ClosureOf(g, Canon(g, ["E"])) && Advance(a) == b;
  }

  /** The first edge on an expression is still exact. */
  lemma PostfixFirst(follows: map<Symbol, set<Symbol>>, ks: seq<Kernel>) returns (s: nat)
    requires Readable(PostfixGrammar(follows)) && Automaton(PostfixGrammar(follows), ks)
    ensures Edge(ks, 0, "E", s) && ks[s].items == Canon(PostfixGrammar(follows), ["E"])
  {
    var g := PostfixGrammar(follows);
    KernelFacts(g, ks, 0);
    CanonNext(g, [], "E");
    assert [] + ["E"] == ["E"];
    var start := StartItem(g);
    assert start in ks[0].closure && CanShift(start) && NextSymbol(start) == "E";
    assert "E" in NextSymbols(ks[0].closure);
    s := ks[0].gotos["E"];
    forall a, b | a in Canon(g, ["E"]) && b in Canon(g, ["E"]) && LooksEqual(a, b)
      ensures a == b
    {
      PostfixAfterOne(follows, a);
      PostfixAfterOne(follows, b);
    }
    EdgeExactlyShifted(g, ks, 0, "E");
    assert EdgeOk(ks, ks[0], "E");
  }

  lemma PostfixAfterOne(follows: map<Symbol, set<Symbol>>, a: Item)
    requires Readable(PostfixGrammar(follows)) && a in Canon(PostfixGrammar(follows), ["E"])
    ensures a.dot == 1 && (a.rule == Rule("S'", ["E"]) || a.rule == Rule("E", ["E", "E", "+"]))
  {
    var g := PostfixGrammar(follows);
    CanonNext(g, [], "E");
    assert [] + ["E"] == ["E"];
    CanonOk(g, ["E"]);
    var it :| it in ClosureOf(g, {StartItem(g)}) && CanShift(it) && NextSymbol(it) == "E" && a == Advance(it);
    if it !in {StartItem(g)} {
      var k, chain := ClosureJustified(g, {StartItem(g)}, it);
    }
    assert a.rule in {g.rules[0], g.rules[1], g.rules[2]};
  }
}
