/** From the automaton to the action and goto tables. */
module LrStrategies {
  import opened LrGrammar
  import opened LrItems
  import opened KernelGraphs

  /** A table entry; the source writes these as "s3", "r2" and "accept". */
  datatype Action = Shift(state: nat) | Reduce(rule: nat) | Accept

  datatype State = State(index: nat, lrAction: map<Symbol, Action>, lrGoto: map<Symbol, nat>)

  function ReductionBy(rule: nat): Action {
    if rule == 0 then Accept else Reduce(rule)
  }

  /** The look-aheads of a rule's items. Every item of rule 0 descends from the start item, which was given the end
      mark; every other item descends from one that was given what may follow its nonterminal. */
  function LookAheads(g: Grammar, r: Rule): set<Symbol>
    requires |g.rules| > 0
  {
    if r == g.rules[0] then {END} else FollowsOf(g, r.nonTerminal)
  }

  /** The item asks for a reduction on `a`: it is complete, and `a` is the end mark for rule 0, and for any other rule
      one of those recorded to follow its left side. */
  ghost predicate ReducesOn(g: Grammar, it: Item, a: Symbol)
    requires |g.rules| > 0
  {
    && |it.rule.development| > 0
    && (it.dot == |it.rule.development| || it.rule.development[0] == "ε")
    && if it.rule == g.rules[0] then a == "$"
       else it.rule.nonTerminal in g.follows && a in g.follows[it.rule.nonTerminal]
  }

  lemma ReducesOnLookAheads(g: Grammar, it: Item, a: Symbol)
    requires |g.rules| > 0 && |it.rule.development| > 0
    ensures ReducesOn(g, it, a) <==> Complete(it) && a in LookAheads(g, it.rule)
  {
  }

  /** The action is the reduction an item of the closure asks for on `a`. */
  ghost predicate ReducesBy(g: Grammar, closure: set<Item>, a: Symbol, action: Action, it: Item, r: nat)
    requires WellFormed(g)
  {
    && it in closure && ReducesOn(g, it, a)
    && r < |g.rules| && g.rules[r] == it.rule && (it.rule == g.rules[0] ==> r == 0)
    && action == ReductionBy(r)
  }

  ghost predicate Reduces(g: Grammar, closure: set<Item>, a: Symbol, action: Action)
    requires WellFormed(g)
  {
    exists it, r: nat :: ReducesBy(g, closure, a, action, it, r)
  }

  /** Some item of the closure asks for a reduction on `a`. */
  ghost predicate Reducible(g: Grammar, closure: set<Item>, a: Symbol)
    requires |g.rules| > 0
  {
    exists it :: it in closure && ReducesOn(g, it, a)
  }

  /** The entry for `a`: a reduction if any item asks for one, else the shift of a terminal edge, else nothing. */
  ghost predicate ActionOk(g: Grammar, k: Kernel, reducing: set<Item>, actions: map<Symbol, Action>, a: Symbol)
    requires WellFormed(g)
  {
    if Reducible(g, reducing, a) then a in actions && Reduces(g, reducing, a, actions[a])
    else if a in k.gotos && a in Terminals(g) then a in actions && actions[a] == Shift(k.gotos[a])
    else a !in actions
  }

  ghost predicate GotoOk(g: Grammar, k: Kernel, gotos: map<Symbol, nat>)
    requires WellFormed(g)
  {
    && (forall x :: x in gotos <==> x in k.gotos && x !in Terminals(g))
    && forall x | x in gotos :: gotos[x] == k.gotos[x]
  }

  ghost predicate StateOk(g: Grammar, k: Kernel, st: State)
    requires WellFormed(g)
  {
    GotoOk(g, k, st.lrGoto) && forall a :: ActionOk(g, k, k.closure, st.lrAction, a)
  }

  /** One state for each kernel of an automaton of the grammar. */
  ghost predicate TablesOk(g: Grammar, ks: seq<Kernel>, states: seq<State>)
    requires WellFormed(g)
  {
    && Automaton(g, ks)
    && |states| == |ks|
    && forall i {:trigger StateOk(g, ks[i], states[i])} | 0 <= i < |ks| ::
         states[i].index == i && StateOk(g, ks[i], states[i])
  }

  // ---------------------------------------------------------------- what the entries mean

  /** The symbol is a terminal, and the item has it after its dot. */
  ghost predicate ShiftsOn(g: Grammar, it: Item, a: Symbol) {
    && it.dot < |it.rule.development| && it.rule.development[it.dot] == a
    && a != "ε" && forall r <- g.rules :: r.nonTerminal != a
  }

  ghost predicate Offers(g: Grammar, closure: set<Item>, a: Symbol)
    requires |g.rules| > 0
  {
    exists it :: it in closure && (ShiftsOn(g, it, a) || ReducesOn(g, it, a))
  }

  ghost predicate EntryMeans(g: Grammar, k: Kernel, st: State, a: Symbol)
    requires |g.rules| > 0
  {
    ActionEntryMeans(g, k, st, a) && GotoEntryMeans(g, k, st, a)
  }

  /** There is an action exactly for what an item offers, and a shift only if no item asks for a reduction. A shift
      follows the kernel's edge; accepting is for rule 0 on the end mark, reducing for the rule of an item that asks
      for it. */
  ghost predicate ActionEntryMeans(g: Grammar, k: Kernel, st: State, a: Symbol)
    requires |g.rules| > 0
  {
    && (a in st.lrAction <==> Offers(g, k.closure, a))
    && (a in st.lrAction ==>
          match st.lrAction[a]
          case Shift(t) => !Reducible(g, k.closure, a) && a in k.gotos && t == k.gotos[a]
          case Accept => a == "$" && exists it :: it in k.closure && it.rule == g.rules[0] && ReducesOn(g, it, a)
          case Reduce(r) =>
            && r < |g.rules| && g.rules[r] != g.rules[0]
            && exists it :: it in k.closure && it.rule == g.rules[r] && ReducesOn(g, it, a))
  }

  /** The gotos are the kernel's edges on nonterminals. */
  ghost predicate GotoEntryMeans(g: Grammar, k: Kernel, st: State, x: Symbol) {
    && (x in st.lrGoto <==> x in k.gotos && exists r :: r in g.rules && r.nonTerminal == x)
    && (x in st.lrGoto ==> st.lrGoto[x] == k.gotos[x])
  }

  lemma TablesMean(g: Grammar, ks: seq<Kernel>, states: seq<State>, s: nat, a: Symbol)
    requires WellFormed(g) && TablesOk(g, ks, states) && s < |ks|
    ensures EntryMeans(g, ks[s], states[s], a)
  {
    assert StateOk(g, ks[s], states[s]);
    KernelFacts(g, ks, s);
    ActionMeans(g, ks[s], states[s], a);
    GotoMeans(g, ks[s], states[s], a);
  }

  lemma ActionMeans(g: Grammar, k: Kernel, st: State, a: Symbol)
    requires WellFormed(g) && k.gotos.Keys == NextSymbols(k.closure) && forall it <- k.closure :: ItemOk(g, it)
    requires ActionOk(g, k, k.closure, st.lrAction, a)
    ensures ActionEntryMeans(g, k, st, a)
  {
    ShiftableIsNext(g, k.closure, a);
    if Reducible(g, k.closure, a) {
      var it, r: nat :| ReducesBy(g, k.closure, a, st.lrAction[a], it, r);
    }
  }

  lemma GotoMeans(g: Grammar, k: Kernel, st: State, a: Symbol)
    requires WellFormed(g) && k.gotos.Keys == NextSymbols(k.closure) && forall it <- k.closure :: ItemOk(g, it)
    requires GotoOk(g, k, st.lrGoto)
    ensures GotoEntryMeans(g, k, st, a)
  {
    if a in k.gotos {
      var it :| it in k.closure && CanShift(it) && NextSymbol(it) == a;
      assert it.rule in g.rules && (a in Terminals(g) <==> a !in NonTerminals(g));
    }
  }

  lemma ShiftableIsNext(g: Grammar, closure: set<Item>, a: Symbol)
    requires WellFormed(g) && forall it <- closure :: ItemOk(g, it)
    ensures a in NextSymbols(closure) && a in Terminals(g) <==> exists it :: it in closure && ShiftsOn(g, it, a)
  {
    if it :| it in closure && ShiftsOn(g, it, a) {
      assert it.rule in g.rules && a in it.rule.development && a !in NonTerminals(g);
      assert CanShift(it) && NextSymbol(it) == a;
      assert a in NextSymbols(closure) && a in Terminals(g);
    }
    if a in NextSymbols(closure) && a in Terminals(g) {
      var it :| it in closure && CanShift(it) && NextSymbol(it) == a;
      assert ShiftsOn(g, it, a);
    }
  }

  /** The strategy owns the grammar, the handler names of its rules and the tables. */
  class LrStrategy {
    const grammar: Grammar
    const handlerName: seq<string>
    var states: seq<State>

    constructor (grammar: Grammar, handlerName: seq<string>)
      ensures this.grammar == grammar && this.handlerName == handlerName && states == []
    {
      this.grammar := grammar;
      this.handlerName := handlerName;
      this.states := [];
    }

    method BuildState() returns (ghost kernels: seq<Kernel>)
      requires WellFormed(grammar) && states == []
      modifies this
      ensures TablesOk(grammar, kernels, states) && Rooted(kernels)
      ensures forall s, a | 0 <= s < |states| :: EntryMeans(grammar, kernels[s], states[s], a)
    {
      var graph := new KernelGraph(grammar);
      kernels := graph.kernels;
      for n := 0 to |graph.kernels|
        invariant graph.kernels == kernels && |states| == n
        invariant forall i | 0 <= i < n :: states[i].index == i && StateOk(grammar, kernels[i], states[i])
      {
        var kernel := graph.kernels[n];
        KernelFacts(grammar, kernels, n);
        var lrAction, lrGoto := FillEdges(kernel);
        lrAction := FillReductions(kernel, lrAction);
        var state := State(|states|, lrAction, lrGoto);
        assert StateOk(grammar, kernel, state);
        states := states + [state];
      }
      forall s, a | 0 <= s < |states|
        ensures EntryMeans(grammar, kernels[s], states[s], a)
      {
        TablesMean(grammar, kernels, states, s, a);
      }
    }

    method FillEdges(kernel: Kernel) returns (lrAction: map<Symbol, Action>, lrGoto: map<Symbol, nat>)
      requires WellFormed(grammar)
      requires forall x :: x in kernel.keys <==> x in kernel.gotos
      ensures GotoOk(grammar, kernel, lrGoto)
      ensures forall a :: ActionOk(grammar, kernel, {}, lrAction, a)
    {
      lrAction, lrGoto := map[], map[];
      for i := 0 to |kernel.keys|
        invariant forall x :: x in lrGoto <==> x in kernel.keys[..i] && x !in Terminals(grammar)
        invariant forall x | x in lrGoto :: x in kernel.gotos && lrGoto[x] == kernel.gotos[x]
        invariant forall x :: x in lrAction <==> x in kernel.keys[..i] && x in Terminals(grammar)
        invariant forall x | x in lrAction :: x in kernel.gotos && lrAction[x] == Shift(kernel.gotos[x])
      {
        var key := kernel.keys[i];
        assert key in kernel.keys;
        var nextStateIndex := kernel.gotos[key];
        if key in Terminals(grammar) {
          lrAction := lrAction[key := Shift(nextStateIndex)];
        } else {
          lrGoto := lrGoto[key := nextStateIndex];
        }
        assert kernel.keys[..i + 1] == kernel.keys[..i] + [key];
      }
      assert kernel.keys[..|kernel.keys|] == kernel.keys;
    }

    /** Reductions overwrite whatever stands in the row, in an order nobody fixes. */
    method FillReductions(kernel: Kernel, edges: map<Symbol, Action>) returns (lrAction: map<Symbol, Action>)
      requires WellFormed(grammar)
      requires forall it <- kernel.closure :: it.rule in grammar.rules
      requires forall a :: ActionOk(grammar, kernel, {}, edges, a)
      ensures forall a :: ActionOk(grammar, kernel, kernel.closure, lrAction, a)
    {
      lrAction := edges;
      var rest := kernel.closure;
      ghost var visited: set<Item> := {};
      while rest != {}
        invariant visited + rest == kernel.closure
        invariant forall a :: ActionOk(grammar, kernel, visited, lrAction, a)
      {
        var it :| it in rest;
        rest := rest - {it};
        if Complete(it) {
          var r :| 0 <= r < |grammar.rules| && grammar.rules[r] == it.rule && (it.rule == grammar.rules[0] ==> r == 0);
          var written := WriteReduction(lrAction, LookAheads(grammar, it.rule), ReductionBy(r));
          ReductionWritten(grammar, kernel, visited, it, r, lrAction, written);
          lrAction := written;
        } else {
          NothingWritten(grammar, kernel, visited, it, lrAction);
        }
        visited := visited + {it};
      }
      assert visited == kernel.closure;
    }

    method WriteReduction(row: map<Symbol, Action>, lookAheads: set<Symbol>, action: Action)
      returns (written: map<Symbol, Action>)
      ensures written == map a | a in row.Keys + lookAheads :: if a in lookAheads then action else row[a]
    {
      written := row;
      var rest := lookAheads;
      while rest != {}
        invariant rest <= lookAheads
        invariant written == map a | a in row.Keys + (lookAheads - rest) ::
                               if a in lookAheads - rest then action else row[a]
      {
        var a :| a in rest;
        written := written[a := action];
        rest := rest - {a};
      }
    }
  }

  lemma ReductionWritten(g: Grammar, k: Kernel, visited: set<Item>, it: Item, r: nat,
                         row: map<Symbol, Action>, written: map<Symbol, Action>)
    requires WellFormed(g)
    requires |it.rule.development| > 0 && Complete(it)
    requires r < |g.rules| && g.rules[r] == it.rule && (it.rule == g.rules[0] ==> r == 0)
    requires forall a :: ActionOk(g, k, visited, row, a)
    requires var ahead := LookAheads(g, it.rule);
             written == map a | a in row.Keys + ahead :: if a in ahead then ReductionBy(r) else row[a]
    ensures forall a :: ActionOk(g, k, visited + {it}, written, a)
  {
    forall a
      ensures ActionOk(g, k, visited + {it}, written, a)
    {
      assert ActionOk(g, k, visited, row, a);
      ReducesOnLookAheads(g, it, a);
      if a in LookAheads(g, it.rule) {
        assert it in visited + {it};
        assert ReducesBy(g, visited + {it}, a, ReductionBy(r), it, r);
      } else {
        ReductionsUnchanged(g, visited, it, a);
      }
    }
  }

  lemma NothingWritten(g: Grammar, k: Kernel, visited: set<Item>, it: Item, row: map<Symbol, Action>)
    requires WellFormed(g)
    requires |it.rule.development| > 0 && !Complete(it)
    requires forall a :: ActionOk(g, k, visited, row, a)
    ensures forall a :: ActionOk(g, k, visited + {it}, row, a)
  {
    forall a
      ensures ActionOk(g, k, visited + {it}, row, a)
    {
      assert ActionOk(g, k, visited, row, a);
      ReducesOnLookAheads(g, it, a);
      ReductionsUnchanged(g, visited, it, a);
    }
  }

  lemma ReductionsUnchanged(g: Grammar, visited: set<Item>, it: Item, a: Symbol)
    requires WellFormed(g)
    requires !ReducesOn(g, it, a)
    ensures Reducible(g, visited + {it}, a) == Reducible(g, visited, a)
    ensures forall action | Reduces(g, visited, a, action) :: Reduces(g, visited + {it}, a, action)
  {
    if Reducible(g, visited, a) {
      var i :| i in visited && ReducesOn(g, i, a);
      assert i in visited + {it};
    }
    forall action | Reduces(g, visited, a, action)
      ensures Reduces(g, visited + {it}, a, action)
    {
      var i, r: nat :| ReducesBy(g, visited, a, action, i, r);
      assert ReducesBy(g, visited + {it}, a, action, i, r);
    }
  }
}
