/** The parser as a machine over its stack and index, and what every run of it keeps. */
module LrMachines {
  import opened Wrappers
  import opened LrGrammar
  import opened KernelGraphs
  import opened LrStrategies
  import opened ParseTrees
  import opened LrPaths

  /** How a call of `Parse` ends: with what it returns (`Ended` is its null), with an exception, with a read past the
      last token, or at the bound on its loop. */
  datatype Outcome =
    | Accepted(tree: Option<Ast>)
    | EmptyInput
    | NoGoto
    | NoAction
    | Ended
    | PastEnd
    | OutOfFuel

  function AsTree(s: Stackable): Option<Ast> {
    if s.Tree? then Some(s.ast) else None
  }

  // ---------------------------------------------------------------- what acceptance promises

  ghost predicate FirstEnd(tokens: seq<Token>, n: nat) {
    && n < |tokens| && Says(tokens[n], "$")
    && forall i | 0 <= i < n :: !Says(tokens[i], "$")
  }

  /** `trees` parse the tokens before the end mark by the start rule, and `tree` is the syntax tree of the last. */
  ghost predicate ParsedBy(g: Grammar, handlers: seq<string>, tokens: seq<Token>, n: nat,
                           tree: Option<Ast>, trees: seq<Parse>)
    requires WellFormed(g)
  {
    && FirstEnd(tokens, n)
    && (forall t <- trees :: Valid(g, t))
    && Roots(g, trees) == g.rules[0].development
    && FrontierAll(trees) == tokens[..n]
    && trees != [] && tree == AsTree(Abstract(g, handlers, trees[|trees| - 1]))
  }

  ghost predicate Parsed(g: Grammar, handlers: seq<string>, tokens: seq<Token>, n: nat, tree: Option<Ast>)
    requires WellFormed(g)
  {
    exists trees: seq<Parse> :: ParsedBy(g, handlers, tokens, n, tree, trees)
  }

  /** The words of the tokens before the end mark form a sentence of the grammar. */
  ghost predicate Sentence(g: Grammar, tokens: seq<Token>, n: nat)
    requires WellFormed(g)
  {
    FirstEnd(tokens, n) && exists w :: SentenceAs(g, tokens, n, w)
  }

  ghost predicate SentenceAs(g: Grammar, tokens: seq<Token>, n: nat, w: seq<Symbol>)
    requires WellFormed(g) && n <= |tokens|
  {
    && |w| == n && (forall i | 0 <= i < n :: Says(tokens[i], w[i]))
    && Derives(g, [g.rules[0].nonTerminal], w)
  }

  /** Soundness: what was parsed is derived from the start symbol, word for word. */
  lemma ParsedIsDerivable(g: Grammar, handlers: seq<string>, tokens: seq<Token>, n: nat, tree: Option<Ast>)
    requires WellFormed(g) && Parsed(g, handlers, tokens, n, tree)
    ensures Sentence(g, tokens, n)
  {
    var trees :| ParsedBy(g, handlers, tokens, n, tree, trees);
    var w := Keys(tokens[..n]);
    ForestDerives(g, trees);
    DerivesStep(g, [g.rules[0].nonTerminal], 0);
    DerivesTransitive(g, [g.rules[0].nonTerminal], g.rules[0].development, w);
    KeysSay(tokens[..n]);
    assert SentenceAs(g, tokens, n, w);
  }

  /** The tree handed back bears the left sides and handlers of rules, at its root the last symbol of rule 0. */
  lemma ParsedIsLabelled(g: Grammar, handlers: seq<string>, tokens: seq<Token>, n: nat, tree: Option<Ast>)
    requires WellFormed(g) && Parsed(g, handlers, tokens, n, tree) && tree.Some?
    ensures Labelled(g, handlers, tree.value)
    ensures tree.value.InterNode? ==> tree.value.typ == g.rules[0].development[|g.rules[0].development| - 1]
  {
    var trees :| ParsedBy(g, handlers, tokens, n, tree, trees);
    AbstractLabelled(g, handlers, trees[|trees| - 1]);
    assert |trees| == |Roots(g, trees)|;
  }

  /** With a single symbol on the right of the start rule, the tree keeps every identifier, in order. */
  lemma ParsedKeepsIdentifiers(g: Grammar, handlers: seq<string>, tokens: seq<Token>, n: nat, tree: Option<Ast>)
    requires WellFormed(g) && Parsed(g, handlers, tokens, n, tree) && |handlers| >= |g.rules|
    requires |g.rules[0].development| == 1
    ensures n < |tokens|
    ensures Identifiers(tokens[..n]) == if tree.Some? then Reading(tree.value) else []
  {
    var trees :| ParsedBy(g, handlers, tokens, n, tree, trees);
    assert |Roots(g, trees)| == 1;
    assert trees[1..] == [];
    assert FrontierAll(trees) == Frontier(trees[0]) + [] == Frontier(trees[0]);
    ReadingIsIdentifiers(g, handlers, trees[0]);
  }

  /** The children found when `symbols` are popped, last first. */
  function Children(symbols: seq<Stackable>): seq<Ast> {
    if symbols == [] then [] else Children(symbols[1..]) + (if symbols[0].Tree? then [symbols[0].ast] else [])
  }

  lemma ChildrenFrom(symbols: seq<Stackable>, j: nat)
    requires 0 < j <= |symbols|
    ensures Children(symbols[j - 1..])
         == Children(symbols[j..]) + (if symbols[j - 1].Tree? then [symbols[j - 1].ast] else [])
  {
    assert symbols[j - 1..][1..] == symbols[j..];
  }

  /** The `n` symbols that lie on `stack` from position `from`, every other element. */
  function EveryOther(stack: seq<Stackable>, from: nat, n: nat): (symbols: seq<Stackable>)
    requires from + 2 * n <= |stack|
    ensures |symbols| == n
  {
    seq(n, k requires 0 <= k < n => stack[from + 2 * k])
  }

  /** What one reduction leaves on the stack for the nonterminal. */
  function ReducedNode(g: Grammar, handlers: seq<string>, rule: nat, children: seq<Ast>): Stackable
    requires rule < |g.rules| && rule < |handlers| && |g.rules[rule].development| > 0
  {
    if g.rules[rule].development == [EPSILON] then NullNode
    else Tree(InterNode(g.rules[rule].nonTerminal, children, handlers[rule]))
  }

  lemma {:induction false} ChildrenAreAbstract(g: Grammar, handlers: seq<string>, symbols: seq<Stackable>, ts: seq<Parse>)
    requires |symbols| == |ts| && forall k | 0 <= k < |ts| :: symbols[k] == Abstract(g, handlers, ts[k])
    ensures Children(symbols) == AbstractChildren(g, handlers, ts)
  {
    if ts != [] {
      ChildrenAreAbstract(g, handlers, symbols[1..], ts[1..]);
    }
  }

  ghost predicate Entry(states: seq<State>, s: nat, a: Symbol, action: Action) {
    s < |states| && a in states[s].lrAction && states[s].lrAction[a] == action
  }

  lemma TakeOneMore<T>(s: seq<T>, i: nat)
    requires i < |s|
    ensures s[..i + 1] == s[..i] + [s[i]]
  {
  }

  /** A shift keeps the invariant, and the token is not the end mark. */
  lemma ShiftKeeps(g: Grammar, handlers: seq<string>, ks: seq<Kernel>, states: seq<State>, below: seq<Stackable>,
                   stack: seq<Stackable>, tokens: seq<Token>, i: nat, path: seq<nat>, trees: seq<Parse>, state: nat)
    requires WellFormed(g) && TablesOk(g, ks, states) && i < |tokens|
    requires Invariant(g, handlers, ks, below, stack, tokens[..i], path, trees)
    requires Entry(states, path[|trees|], Key(tokens[i]), Shift(state))
    ensures !Says(tokens[i], "$")
    ensures Invariant(g, handlers, ks, below, stack + [Abstract(g, handlers, Leaf(tokens[i])), Goto(state)],
                      tokens[..i + 1], path + [state], trees + [Leaf(tokens[i])])
  {
    ShiftMeans(g, ks, states, path[|trees|], Key(tokens[i]));
    KeySays(tokens[i], "$");
    Pushes(g, handlers, ks, below, stack, tokens[..i], path, trees, Leaf(tokens[i]), state);
    TakeOneMore(tokens, i);
  }

  lemma TopState(g: Grammar, handlers: seq<string>, ks: seq<Kernel>, below: seq<Stackable>,
                 stack: seq<Stackable>, consumed: seq<Token>, path: seq<nat>, trees: seq<Parse>)
    requires WellFormed(g) && Invariant(g, handlers, ks, below, stack, consumed, path, trees)
    ensures |stack| > 0 && stack[|stack| - 1] == Goto(path[|trees|]) && path[|trees|] < |ks|
  {
    WalkInside(ks, path, Roots(g, trees), |trees|);
  }

  lemma StackBottom(g: Grammar, handlers: seq<string>, ks: seq<Kernel>, below: seq<Stackable>,
                    stack: seq<Stackable>, consumed: seq<Token>, path: seq<nat>, trees: seq<Parse>)
    requires WellFormed(g) && Invariant(g, handlers, ks, below, stack, consumed, path, trees)
    ensures below + [Goto(0)] <= stack && |stack| > 0
    ensures stack[|stack| - 1] == Goto(path[|trees|]) && path[|trees|] < |ks|
  {
    TopState(g, handlers, ks, below, stack, consumed, path, trees);
    assert stack[|below| + 2 * 0] == Goto(path[0]);
  }

  /** The stack after a reduction by `rule`. */
  function ReducedStack(g: Grammar, handlers: seq<string>, stack: seq<Stackable>, rule: nat, gotoState: nat): seq<Stackable>
    requires rule < |g.rules| && rule < |handlers| && |g.rules[rule].development| > 0
    requires |stack| >= 2 * |Rhs(g.rules[rule])|
  {
    var n := |Rhs(g.rules[rule])|;
    stack[..|stack| - 2 * n]
      + [ReducedNode(g, handlers, rule, Children(EveryOther(stack, |stack| - 2 * n, n))), Goto(gotoState)]
  }

  /** A reduction keeps the invariant: no pop underflows, and the goto entry it looks up exists. */
  lemma ReduceKeeps(g: Grammar, handlers: seq<string>, ks: seq<Kernel>, states: seq<State>, below: seq<Stackable>,
                    stack: seq<Stackable>, consumed: seq<Token>, path: seq<nat>, trees: seq<Parse>, a: Symbol, rule: nat)
    returns (path': seq<nat>, trees': seq<Parse>)
    requires WellFormed(g) && TablesOk(g, ks, states) && |handlers| >= |g.rules|
    requires Invariant(g, handlers, ks, below, stack, consumed, path, trees)
    requires Entry(states, path[|trees|], a, Reduce(rule))
    ensures rule < |g.rules| && |g.rules[rule].development| > 0
    ensures g.rules[rule].development[0] == EPSILON ==> |g.rules[rule].development| == 1
    ensures |stack| > 2 * |Rhs(g.rules[rule])|
    ensures var top := stack[|stack| - 2 * |Rhs(g.rules[rule])| - 1];
            && top.Goto? && top.state < |states|
            && g.rules[rule].nonTerminal in states[top.state].lrGoto
            && Invariant(g, handlers, ks, below,
                         ReducedStack(g, handlers, stack, rule, states[top.state].lrGoto[g.rules[rule].nonTerminal]),
                         consumed, path', trees')
  {
    var m := ReduceMeans(g, ks, states, path, Roots(g, trees), a);
    assert g.rules[rule] in g.rules;
    var gotoState := states[path[m]].lrGoto[g.rules[rule].nonTerminal];
    ReduceOnStack(g, handlers, ks, below, stack, consumed, path, trees, m, rule, gotoState);
    path', trees' := path[..m + 1] + [gotoState], trees[..m] + [Node(rule, trees[m..])];
  }

  /** The stack side of a reduction: the last trees become the children of a new one. */
  lemma ReduceOnStack(g: Grammar, handlers: seq<string>, ks: seq<Kernel>, below: seq<Stackable>, stack: seq<Stackable>,
                      consumed: seq<Token>, path: seq<nat>, trees: seq<Parse>, m: nat, rule: nat, gotoState: nat)
    requires WellFormed(g) && Invariant(g, handlers, ks, below, stack, consumed, path, trees)
    requires rule < |g.rules| && rule < |handlers| && |g.rules[rule].development| > 0
    requires m <= |trees| && Roots(g, trees)[m..] == Rhs(g.rules[rule])
    requires Edge(ks, path[m], g.rules[rule].nonTerminal, gotoState)
    ensures |stack| > 2 * |Rhs(g.rules[rule])|
    ensures stack[|stack| - 2 * |Rhs(g.rules[rule])| - 1] == Goto(path[m])
    ensures Invariant(g, handlers, ks, below, ReducedStack(g, handlers, stack, rule, gotoState), consumed,
                      path[..m + 1] + [gotoState], trees[..m] + [Node(rule, trees[m..])])
  {
    RootsOfRest(g, trees, m);
    ReducedStackIs(g, handlers, stack, |below|, path, trees, m, rule, gotoState);
    Pops(g, handlers, ks, below, stack, consumed, path, trees, m);
    var popped := stack[..|stack| - 2 * (|trees| - m)];
    TopState(g, handlers, ks, below, popped, FrontierAll(trees[..m]), path[..m + 1], trees[..m]);
    Pushes(g, handlers, ks, below, popped, FrontierAll(trees[..m]), path[..m + 1], trees[..m],
           Node(rule, trees[m..]), gotoState);
  }

  lemma ReducedStackIs(g: Grammar, handlers: seq<string>, stack: seq<Stackable>, base: nat,
                       path: seq<nat>, trees: seq<Parse>, m: nat, rule: nat, gotoState: nat)
    requires WellFormed(g) && Mirrors(g, handlers, stack, base, path, trees)
    requires m <= |trees| && rule < |g.rules| && rule < |handlers| && |g.rules[rule].development| > 0
    requires Roots(g, trees[m..]) == Rhs(g.rules[rule])
    ensures |Rhs(g.rules[rule])| == |trees| - m && 2 * (|trees| - m) < |stack|
    ensures ReducedStack(g, handlers, stack, rule, gotoState)
         == stack[..|stack| - 2 * (|trees| - m)] + [Abstract(g, handlers, Node(rule, trees[m..])), Goto(gotoState)]
  {
    ReducedIsAbstract(g, handlers, stack, base, path, trees, m, rule);
  }

  /** Acceptance: the trees on the stack parse everything before the end mark. */
  lemma AcceptKeeps(g: Grammar, handlers: seq<string>, ks: seq<Kernel>, states: seq<State>, below: seq<Stackable>,
                    stack: seq<Stackable>, tokens: seq<Token>, i: nat, path: seq<nat>, trees: seq<Parse>)
    requires WellFormed(g) && TablesOk(g, ks, states) && i < |tokens|
    requires forall k | 0 <= k < i :: !Says(tokens[k], "$")
    requires Invariant(g, handlers, ks, below, stack, tokens[..i], path, trees)
    requires Entry(states, path[|trees|], Key(tokens[i]), Accept)
    ensures |stack| >= |below| + 3 && below + [Goto(0)] <= stack[..|stack| - 1]
    ensures Parsed(g, handlers, tokens, i, AsTree(stack[|stack| - 2]))
  {
    AcceptMeans(g, ks, states, path, Roots(g, trees), Key(tokens[i]));
    KeySays(tokens[i], "$");
    AcceptOnStack(g, handlers, ks, below, stack, tokens, i, path, trees);
  }

  lemma AcceptOnStack(g: Grammar, handlers: seq<string>, ks: seq<Kernel>, below: seq<Stackable>,
                      stack: seq<Stackable>, tokens: seq<Token>, i: nat, path: seq<nat>, trees: seq<Parse>)
    requires WellFormed(g) && FirstEnd(tokens, i)
    requires Invariant(g, handlers, ks, below, stack, tokens[..i], path, trees)
    requires Roots(g, trees) == g.rules[0].development
    ensures |stack| >= |below| + 3 && below + [Goto(0)] <= stack[..|stack| - 1]
    ensures Parsed(g, handlers, tokens, i, AsTree(stack[|stack| - 2]))
  {
    assert g.rules[0] in g.rules;
    assert |trees| == |Roots(g, trees)|;
    StackEnds(g, handlers, stack, |below|, path, trees);
    assert ParsedBy(g, handlers, tokens, i, AsTree(stack[|stack| - 2]), trees);
  }

  lemma StackEnds(g: Grammar, handlers: seq<string>, stack: seq<Stackable>, base: nat, path: seq<nat>, trees: seq<Parse>)
    requires Mirrors(g, handlers, stack, base, path, trees) && trees != []
    ensures stack[base] == Goto(path[0]) && stack[|stack| - 2] == Abstract(g, handlers, trees[|trees| - 1])
  {
    assert stack[base + 2 * 0] == Goto(path[0]);
    assert stack[base + 2 * (|trees| - 1) + 1] == Abstract(g, handlers, trees[|trees| - 1]);
  }

  lemma RootsOfRest(g: Grammar, trees: seq<Parse>, m: nat)
    requires m <= |trees|
    ensures Roots(g, trees)[m..] == Roots(g, trees[m..])
  {
  }

  /** The children the pops collect are those of the trees on top of the stack. */
  lemma PoppedChildren(g: Grammar, handlers: seq<string>, stack: seq<Stackable>, base: nat,
                       path: seq<nat>, trees: seq<Parse>, m: nat)
    requires Mirrors(g, handlers, stack, base, path, trees) && m <= |trees|
    ensures var n := |trees| - m;
            && 2 * n < |stack|
            && Children(EveryOther(stack, |stack| - 2 * n, n)) == AbstractChildren(g, handlers, trees[m..])
  {
    var n := |trees| - m;
    var symbols := EveryOther(stack, |stack| - 2 * n, n);
    forall k | 0 <= k < n
      ensures symbols[k] == Abstract(g, handlers, trees[m..][k])
    {
      assert stack[base + 2 * (m + k) + 1] == Abstract(g, handlers, trees[m + k]);
    }
    ChildrenAreAbstract(g, handlers, symbols, trees[m..]);
  }

  /** The node a reduction pushes is the abstraction of the parse tree it stands for. */
  lemma ReducedIsAbstract(g: Grammar, handlers: seq<string>, stack: seq<Stackable>, base: nat,
                          path: seq<nat>, trees: seq<Parse>, m: nat, rule: nat)
    requires WellFormed(g) && Mirrors(g, handlers, stack, base, path, trees)
    requires m <= |trees| && rule < |g.rules| && rule < |handlers|
    requires Roots(g, trees[m..]) == Rhs(g.rules[rule])
    ensures var n := |trees| - m;
            && n == |Rhs(g.rules[rule])| && 2 * n < |stack|
            && ReducedNode(g, handlers, rule, Children(EveryOther(stack, |stack| - 2 * n, n)))
               == Abstract(g, handlers, Node(rule, trees[m..]))
  {
    PoppedChildren(g, handlers, stack, base, path, trees, m);
    assert g.rules[rule] in g.rules;
  }

  // ---------------------------------------------------------------- the machine

  datatype Machine = Machine(stack: seq<Stackable>, index: nat)

  /** `Breaks` is a step the source has no answer for: a pop from an empty stack, a goto that is not in the table. */
  datatype Step = Moves(next: Machine) | Stops(outcome: Outcome, last: Machine) | Breaks

  /** The reduction finds what it pops and the goto it looks up. */
  predicate CanReduce(g: Grammar, handlers: seq<string>, states: seq<State>, stack: seq<Stackable>, rule: nat) {
    && rule < |g.rules| && rule < |handlers| && |g.rules[rule].development| > 0
    && (g.rules[rule].development[0] == EPSILON ==> |g.rules[rule].development| == 1)
    && |stack| > 2 * |Rhs(g.rules[rule])|
    && var top := stack[|stack| - 2 * |Rhs(g.rules[rule])| - 1];
    && top.Goto? && top.state < |states| && g.rules[rule].nonTerminal in states[top.state].lrGoto
  }

  function GotoAfter(g: Grammar, handlers: seq<string>, states: seq<State>, stack: seq<Stackable>, rule: nat): nat
    requires CanReduce(g, handlers, states, stack, rule)
  {
    states[stack[|stack| - 2 * |Rhs(g.rules[rule])| - 1].state].lrGoto[g.rules[rule].nonTerminal]
  }

  function Reduced(g: Grammar, handlers: seq<string>, states: seq<State>, m: Machine, rule: nat): Machine
    requires CanReduce(g, handlers, states, m.stack, rule)
  {
    Machine(ReducedStack(g, handlers, m.stack, rule, GotoAfter(g, handlers, states, m.stack, rule)), m.index)
  }

  /** The loop ends with nothing left to do. */
  predicate Over(tokens: seq<Token>, m: Machine) {
    m.stack == [] || m.index > |tokens|
  }

  /** What the loop does in one turn. */
  function StepOf(g: Grammar, handlers: seq<string>, states: seq<State>, tokens: seq<Token>, m: Machine): Step {
    if Over(tokens, m) then Stops(Ended, m)
    else if !m.stack[|m.stack| - 1].Goto? then Stops(NoGoto, m)
    else if m.index == |tokens| then Stops(PastEnd, m)
    else
      var top, a := m.stack[|m.stack| - 1], Key(tokens[m.index]);
      if top.state >= |states| then Breaks
      else if a !in states[top.state].lrAction then Stops(NoAction, m)
      else
        match states[top.state].lrAction[a]
        case Accept =>
          if |m.stack| == 1 then Breaks
          else Stops(Accepted(AsTree(m.stack[|m.stack| - 2])), Machine(m.stack[..|m.stack| - 1], m.index))
        case Shift(state) =>
          Moves(Machine(m.stack + [Abstract(g, handlers, Leaf(tokens[m.index])), Goto(state)], m.index + 1))
        case Reduce(rule) =>
          if !CanReduce(g, handlers, states, m.stack, rule) then Breaks
          else Moves(Reduced(g, handlers, states, m, rule))
  }

  /** A turn on a token that says `a` does what the row of the top state has for `a`. */
  ghost predicate Took(states: seq<State>, before: Machine, tokens: seq<Token>, a: Symbol,
                              finished: bool, outcome: Outcome, index: nat)
  {
    && before.index < |tokens| && Says(tokens[before.index], a)
    && before.stack != [] && before.stack[|before.stack| - 1].Goto?
    && before.stack[|before.stack| - 1].state < |states|
    && var row := states[before.stack[|before.stack| - 1].state].lrAction;
    && (a !in row <==> finished && outcome.NoAction?)
    && (a in row && row[a].Accept? <==> finished && outcome.Accepted?)
    && index == if a in row && row[a].Shift? then before.index + 1 else before.index
  }

  function Turning(g: Grammar, handlers: seq<string>, states: seq<State>, tokens: seq<Token>): Machine -> Step {
    m => StepOf(g, handlers, states, tokens, m)
  }

  /** The run from `m`, for at most `fuel` turns. */
  function RunOf(g: Grammar, handlers: seq<string>, states: seq<State>, tokens: seq<Token>, m: Machine, fuel: nat): Step {
    RunFrom(Turning(g, handlers, states, tokens), tokens, m, fuel)
  }

  function RunFrom(turn: Machine -> Step, tokens: seq<Token>, m: Machine, fuel: nat): Step
    decreases fuel
  {
    if fuel == 0 then Stops(if Over(tokens, m) then Ended else OutOfFuel, m)
    else
      match turn(m)
      case Moves(next) => RunFrom(turn, tokens, next, fuel - 1)
      case Stops(outcome, last) => Stops(outcome, last)
      case Breaks => Breaks
  }

  ghost predicate Settled(r: Step) {
    r.Breaks? || (r.Stops? && !r.outcome.OutOfFuel?)
  }

  /** A run that ends within its fuel ends the same way with more. */
  lemma MoreFuel(g: Grammar, handlers: seq<string>, states: seq<State>, tokens: seq<Token>,
                 m: Machine, fuel: nat, more: nat)
    requires fuel <= more && Settled(RunOf(g, handlers, states, tokens, m, fuel))
    ensures RunOf(g, handlers, states, tokens, m, more) == RunOf(g, handlers, states, tokens, m, fuel)
  {
    MoreTurns(Turning(g, handlers, states, tokens), tokens, m, fuel, more);
  }

  lemma {:induction false} MoreTurns(turn: Machine -> Step, tokens: seq<Token>, m: Machine, fuel: nat, more: nat)
    requires fuel <= more && Settled(RunFrom(turn, tokens, m, fuel))
    requires forall x {:trigger Over(tokens, x)} | Over(tokens, x) :: turn(x) == Stops(Ended, x)
    ensures RunFrom(turn, tokens, m, more) == RunFrom(turn, tokens, m, fuel)
    decreases fuel
  {
    if fuel > 0 && turn(m).Moves? {
      MoreTurns(turn, tokens, turn(m).next, fuel - 1, more - 1);
    }
  }

  // ---------------------------------------------------------------- every run

  /** The machine's state stands for some parse trees over the tokens consumed, none of them the end mark. */
  ghost predicate Sound(g: Grammar, handlers: seq<string>, ks: seq<Kernel>, below: seq<Stackable>,
                        tokens: seq<Token>, m: Machine, path: seq<nat>, trees: seq<Parse>)
    requires WellFormed(g)
  {
    && m.index <= |tokens|
    && (forall k | 0 <= k < m.index :: !Says(tokens[k], "$"))
    && Invariant(g, handlers, ks, below, m.stack, tokens[..m.index], path, trees)
  }

  ghost predicate Standing(g: Grammar, handlers: seq<string>, ks: seq<Kernel>, below: seq<Stackable>,
                           tokens: seq<Token>, m: Machine)
    requires WellFormed(g)
  {
    exists path, trees :: Sound(g, handlers, ks, below, tokens, m, path, trees)
  }

  /** The parser stands before a token whose word no item of its state offers. */
  ghost predicate Refuses(g: Grammar, ks: seq<Kernel>, tokens: seq<Token>, m: Machine)
    requires |g.rules| > 0
  {
    && m.stack != [] && m.index < |tokens|
    && var top := m.stack[|m.stack| - 1];
    && top.Goto? && top.state < |ks|
    && exists a :: Says(tokens[m.index], a) && !Offers(g, ks[top.state].closure, a)
  }

  /** How a turn may end. */
  ghost predicate GoodStep(g: Grammar, handlers: seq<string>, ks: seq<Kernel>, below: seq<Stackable>,
                           tokens: seq<Token>, step: Step)
    requires WellFormed(g)
  {
    match step
    case Breaks => false
    case Moves(next) => Standing(g, handlers, ks, below, tokens, next)
    case Stops(outcome, last) => GoodEnd(g, handlers, ks, below, tokens, outcome, last)
  }

  /** How a run may end: at an accepted sentence, before a token that is refused, for want of fuel, or, when there is
      no end mark, behind the last token. */
  ghost predicate GoodEnd(g: Grammar, handlers: seq<string>, ks: seq<Kernel>, below: seq<Stackable>,
                          tokens: seq<Token>, outcome: Outcome, last: Machine)
    requires WellFormed(g)
  {
    && below + [Goto(0)] <= last.stack && last.index <= |tokens|
    && match outcome
       case Accepted(tree) => Parsed(g, handlers, tokens, last.index, tree)
       case NoAction => Standing(g, handlers, ks, below, tokens, last) && Refuses(g, ks, tokens, last)
       case OutOfFuel => Standing(g, handlers, ks, below, tokens, last)
       case PastEnd => last.index == |tokens| && forall t <- tokens :: !Says(t, "$")
       case _ => false
  }

  /** A sound machine has a state on top of its stack. */
  lemma StandingTop(g: Grammar, handlers: seq<string>, ks: seq<Kernel>, below: seq<Stackable>,
                    tokens: seq<Token>, m: Machine)
    returns (s: nat)
    requires WellFormed(g) && Standing(g, handlers, ks, below, tokens, m)
    ensures below + [Goto(0)] <= m.stack && m.index <= |tokens|
    ensures m.index == |tokens| ==> forall t <- tokens :: !Says(t, "$")
    ensures AtTop(m, s) && s < |ks|
  {
    var path, trees :| Sound(g, handlers, ks, below, tokens, m, path, trees);
    StackBottom(g, handlers, ks, below, m.stack, tokens[..m.index], path, trees);
    s := path[|trees|];
  }

  ghost predicate AtTop(m: Machine, s: nat) {
    m.stack != [] && m.stack[|m.stack| - 1] == Goto(s)
  }

  lemma RefusalIsGood(g: Grammar, handlers: seq<string>, ks: seq<Kernel>, states: seq<State>, below: seq<Stackable>,
                      tokens: seq<Token>, m: Machine, s: nat)
    requires WellFormed(g) && TablesOk(g, ks, states) && Standing(g, handlers, ks, below, tokens, m)
    requires AtTop(m, s) && s < |states| && m.index < |tokens| && Key(tokens[m.index]) !in states[s].lrAction
    ensures StepOf(g, handlers, states, tokens, m) == Stops(NoAction, m) && Refuses(g, ks, tokens, m)
  {
    var a := Key(tokens[m.index]);
    TablesMean(g, ks, states, s, a);
    KeySays(tokens[m.index], a);
  }

  lemma AcceptedIsParsed(g: Grammar, handlers: seq<string>, ks: seq<Kernel>, states: seq<State>, below: seq<Stackable>,
                         tokens: seq<Token>, m: Machine, s: nat)
    requires WellFormed(g) && TablesOk(g, ks, states) && Standing(g, handlers, ks, below, tokens, m)
    requires AtTop(m, s) && m.index < |tokens| && Entry(states, s, Key(tokens[m.index]), Accept)
    ensures |m.stack| >= |below| + 3 && below + [Goto(0)] <= m.stack[..|m.stack| - 1]
    ensures Parsed(g, handlers, tokens, m.index, AsTree(m.stack[|m.stack| - 2]))
  {
    var path, trees :| Sound(g, handlers, ks, below, tokens, m, path, trees);
    TopState(g, handlers, ks, below, m.stack, tokens[..m.index], path, trees);
    AcceptKeeps(g, handlers, ks, states, below, m.stack, tokens, m.index, path, trees);
  }

  lemma AcceptIsGood(g: Grammar, handlers: seq<string>, ks: seq<Kernel>, states: seq<State>, below: seq<Stackable>,
                     tokens: seq<Token>, m: Machine, s: nat)
    requires WellFormed(g) && TablesOk(g, ks, states) && Standing(g, handlers, ks, below, tokens, m)
    requires AtTop(m, s) && m.index < |tokens| && Entry(states, s, Key(tokens[m.index]), Accept)
    ensures |m.stack| >= 2
    ensures var last := Machine(m.stack[..|m.stack| - 1], m.index);
            && below + [Goto(0)] <= last.stack
            && StepOf(g, handlers, states, tokens, m) == Stops(Accepted(AsTree(m.stack[|m.stack| - 2])), last)
            && Parsed(g, handlers, tokens, m.index, AsTree(m.stack[|m.stack| - 2]))
  {
    AcceptedIsParsed(g, handlers, ks, states, below, tokens, m, s);
  }

  /** The step a table entry leads to. */
  lemma StepByEntry(g: Grammar, handlers: seq<string>, states: seq<State>, tokens: seq<Token>,
                    m: Machine, s: nat, action: Action)
    requires AtTop(m, s) && m.index < |tokens| && Entry(states, s, Key(tokens[m.index]), action)
    ensures action.Shift? ==>
              StepOf(g, handlers, states, tokens, m)
              == Moves(Machine(m.stack + [Abstract(g, handlers, Leaf(tokens[m.index])), Goto(action.state)], m.index + 1))
    ensures action.Reduce? && CanReduce(g, handlers, states, m.stack, action.rule) ==>
              StepOf(g, handlers, states, tokens, m) == Moves(Reduced(g, handlers, states, m, action.rule))
  {
  }

  lemma ShiftIsGood(g: Grammar, handlers: seq<string>, ks: seq<Kernel>, states: seq<State>, below: seq<Stackable>,
                    tokens: seq<Token>, m: Machine, s: nat, state: nat)
    requires WellFormed(g) && TablesOk(g, ks, states) && Standing(g, handlers, ks, below, tokens, m)
    requires AtTop(m, s) && m.index < |tokens| && Entry(states, s, Key(tokens[m.index]), Shift(state))
    ensures Standing(g, handlers, ks, below, tokens,
                     Machine(m.stack + [Abstract(g, handlers, Leaf(tokens[m.index])), Goto(state)], m.index + 1))
  {
    var path, trees :| Sound(g, handlers, ks, below, tokens, m, path, trees);
    TopState(g, handlers, ks, below, m.stack, tokens[..m.index], path, trees);
    ShiftKeeps(g, handlers, ks, states, below, m.stack, tokens, m.index, path, trees, state);
    var next := Machine(m.stack + [Abstract(g, handlers, Leaf(tokens[m.index])), Goto(state)], m.index + 1);
    assert Sound(g, handlers, ks, below, tokens, next, path + [state], trees + [Leaf(tokens[m.index])]);
  }

  lemma StaysStanding(g: Grammar, handlers: seq<string>, ks: seq<Kernel>, below: seq<Stackable>, tokens: seq<Token>,
                      m: Machine, path: seq<nat>, trees: seq<Parse>,
                      stack': seq<Stackable>, path': seq<nat>, trees': seq<Parse>)
    requires WellFormed(g) && Sound(g, handlers, ks, below, tokens, m, path, trees)
    requires Invariant(g, handlers, ks, below, stack', tokens[..m.index], path', trees')
    ensures Standing(g, handlers, ks, below, tokens, Machine(stack', m.index))
  {
    assert Sound(g, handlers, ks, below, tokens, Machine(stack', m.index), path', trees');
  }

  lemma ReduceIsGood(g: Grammar, handlers: seq<string>, ks: seq<Kernel>, states: seq<State>, below: seq<Stackable>,
                     tokens: seq<Token>, m: Machine, s: nat, rule: nat)
    requires WellFormed(g) && TablesOk(g, ks, states) && |handlers| >= |g.rules|
    requires Standing(g, handlers, ks, below, tokens, m)
    requires AtTop(m, s) && m.index < |tokens| && Entry(states, s, Key(tokens[m.index]), Reduce(rule))
    ensures CanReduce(g, handlers, states, m.stack, rule)
    ensures Standing(g, handlers, ks, below, tokens, Reduced(g, handlers, states, m, rule))
  {
    var path, trees :| Sound(g, handlers, ks, below, tokens, m, path, trees);
    TopState(g, handlers, ks, below, m.stack, tokens[..m.index], path, trees);
    var path', trees' := ReduceKeeps(g, handlers, ks, states, below, m.stack, tokens[..m.index], path, trees,
                                     Key(tokens[m.index]), rule);
    assert CanReduce(g, handlers, states, m.stack, rule);
    var stack' := ReducedStack(g, handlers, m.stack, rule, GotoAfter(g, handlers, states, m.stack, rule));
    StaysStanding(g, handlers, ks, below, tokens, m, path, trees, stack', path', trees');
  }

  lemma StepIsGood(g: Grammar, handlers: seq<string>, ks: seq<Kernel>, states: seq<State>, below: seq<Stackable>,
                   tokens: seq<Token>, m: Machine)
    requires WellFormed(g) && TablesOk(g, ks, states) && |handlers| >= |g.rules|
    requires Standing(g, handlers, ks, below, tokens, m)
    ensures GoodStep(g, handlers, ks, below, tokens, StepOf(g, handlers, states, tokens, m))
  {
    var s := StandingTop(g, handlers, ks, below, tokens, m);
    if m.index == |tokens| {
      return;
    }
    var a := Key(tokens[m.index]);
    if a !in states[s].lrAction {
      RefusalIsGood(g, handlers, ks, states, below, tokens, m, s);
    } else {
      match states[s].lrAction[a]
      case Accept =>
        AcceptIsGood(g, handlers, ks, states, below, tokens, m, s);
      case Shift(state) =>
        ShiftIsGood(g, handlers, ks, states, below, tokens, m, s, state);
        StepByEntry(g, handlers, states, tokens, m, s, Shift(state));
      case Reduce(rule) =>
        ReduceIsGood(g, handlers, ks, states, below, tokens, m, s, rule);
        StepByEntry(g, handlers, states, tokens, m, s, Reduce(rule));
    }
  }

  /** A step from what satisfies `inv` goes on there, or ends as `end` says. */
  ghost predicate StepKeeps(g: Grammar, handlers: seq<string>, states: seq<State>, tokens: seq<Token>,
                            inv: Machine -> bool, end: (Outcome, Machine) -> bool, m: Machine)
  {
    match StepOf(g, handlers, states, tokens, m)
    case Breaks => false
    case Moves(next) => inv(next)
    case Stops(outcome, last) => end(outcome, last)
  }

  /** What every step keeps, every run keeps. */
  lemma {:induction false} RunKeeps(g: Grammar, handlers: seq<string>, states: seq<State>, tokens: seq<Token>,
                                    inv: Machine -> bool, end: (Outcome, Machine) -> bool, m: Machine, fuel: nat)
    requires inv(m)
    requires forall m' {:trigger inv(m')} | inv(m') ::
               StepKeeps(g, handlers, states, tokens, inv, end, m') && !Over(tokens, m') && end(OutOfFuel, m')
    ensures var r := RunOf(g, handlers, states, tokens, m, fuel); r.Stops? && end(r.outcome, r.last)
    decreases fuel
  {
    if fuel > 0 {
      assert StepKeeps(g, handlers, states, tokens, inv, end, m);
      var step := StepOf(g, handlers, states, tokens, m);
      if step.Moves? {
        RunKeeps(g, handlers, states, tokens, inv, end, step.next, fuel - 1);
      }
    }
  }

  /** Every run ends well, however long it may go on. */
  lemma RunIsGood(g: Grammar, handlers: seq<string>, ks: seq<Kernel>, states: seq<State>,
                  below: seq<Stackable>, tokens: seq<Token>, m: Machine, fuel: nat)
    requires WellFormed(g) && TablesOk(g, ks, states) && |handlers| >= |g.rules|
    requires Standing(g, handlers, ks, below, tokens, m)
    ensures var r := RunOf(g, handlers, states, tokens, m, fuel);
            r.Stops? && GoodEnd(g, handlers, ks, below, tokens, r.outcome, r.last)
  {
    var inv := (m': Machine) => WellFormed(g) && Standing(g, handlers, ks, below, tokens, m');
    var end := (o: Outcome, l: Machine) => WellFormed(g) && GoodEnd(g, handlers, ks, below, tokens, o, l);
    forall m' {:trigger inv(m')} | inv(m')
      ensures StepKeeps(g, handlers, states, tokens, inv, end, m') && !Over(tokens, m') && end(OutOfFuel, m')
    {
      StepIsGood(g, handlers, ks, states, below, tokens, m');
      var s := StandingTop(g, handlers, ks, below, tokens, m');
    }
    RunKeeps(g, handlers, states, tokens, inv, end, m, fuel);
  }

  /** A run starts out sound. */
  lemma StartIsStanding(g: Grammar, handlers: seq<string>, ks: seq<Kernel>, below: seq<Stackable>, tokens: seq<Token>)
    requires WellFormed(g) && |ks| > 0
    ensures Standing(g, handlers, ks, below, tokens, Machine(below + [Goto(0)], 0))
  {
    var m := Machine(below + [Goto(0)], 0);
    var trees: seq<Parse> := [];
    assert tokens[..0] == [];
    assert Sound(g, handlers, ks, below, tokens, m, [0], trees);
  }
}
