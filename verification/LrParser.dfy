/** The parser object: a member stack worked on by shift, reduce and goTo. */
module LrParsers {
  import opened LrGrammar
  import opened KernelGraphs
  import opened LrStrategies
  import opened ParseTrees
  import opened LrMachines

  class LrParser {
    const strategy: LrStrategy
    var stack: seq<Stackable>
    var tokens: seq<Token>
    var currIndex: nat

    constructor (strategy: LrStrategy)
      ensures this.strategy == strategy && stack == [] && tokens == []
    {
      this.strategy := strategy;
      stack := [];
      tokens := [];
      currIndex := 0;
    }

    method SetTokens(tokens: seq<Token>)
      modifies this`tokens
      ensures this.tokens == tokens
    {
      this.tokens := tokens;
    }

    ghost function Now(): Machine
      reads this`stack, this`currIndex
    {
      Machine(stack, currIndex)
    }

    /** The run of the machine over the tokens and the tables. */
    ghost function Ahead(m: Machine, fuel: nat): Step
      reads this`tokens, strategy
    {
      RunOf(strategy.grammar, strategy.handlerName, strategy.states, tokens, m, fuel)
    }

    /** Runs the machine for at most `fuel` turns of the loop. Whatever earlier calls left on the stack stays below. */
    method Parse(fuel: nat, ghost ks: seq<Kernel>) returns (outcome: Outcome)
      requires WellFormed(strategy.grammar) && TablesOk(strategy.grammar, ks, strategy.states)
      requires |strategy.handlerName| >= |strategy.grammar.rules|
      modifies this`stack, this`currIndex
      ensures outcome.EmptyInput? <==> tokens == []
      ensures tokens == [] ==> Now() == Machine(old(stack) + [Goto(0)], 0)
      ensures tokens != [] ==> Stops(outcome, Now()) == Ahead(Machine(old(stack) + [Goto(0)], 0), fuel)
      ensures tokens != [] ==>
                GoodEnd(strategy.grammar, strategy.handlerName, ks, old(stack), tokens, outcome, Now())
      ensures outcome.Accepted? ==> Sentence(strategy.grammar, tokens, currIndex)
    {
      currIndex := 0;
      stack := stack + [Goto(0)];
      if tokens == [] {
        return EmptyInput;
      }
      StartIsStanding(strategy.grammar, strategy.handlerName, ks, old(stack), tokens);
      RunIsGood(strategy.grammar, strategy.handlerName, ks, strategy.states, old(stack), tokens, Now(), fuel);
      outcome := Loop(fuel);
      if outcome.Accepted? {
        ParsedIsDerivable(strategy.grammar, strategy.handlerName, tokens, currIndex, outcome.tree);
      }
    }

    /** The loop, for at most `fuel` turns. */
    method Loop(fuel: nat) returns (outcome: Outcome)
      requires Ahead(Now(), fuel).Stops?
      modifies this`stack, this`currIndex
      ensures Stops(outcome, Now()) == old(Ahead(Now(), fuel))
    {
      var turns: nat := fuel;
      while stack != [] && turns > 0
        invariant Ahead(Now(), turns) == old(Ahead(Now(), fuel))
        decreases turns
      {
        turns := turns - 1;
        if currIndex > |tokens| {
          break;
        }
        var finished;
        finished, outcome := Turn();
        if finished {
          return;
        }
      }
      outcome := if stack != [] && currIndex <= |tokens| then OutOfFuel else Ended;
    }

    /** One turn of the loop: looks up the action for the top state and the next token and carries it out. */
    method Turn() returns (finished: bool, outcome: Outcome)
      requires stack != [] && currIndex <= |tokens|
      requires !StepOf(strategy.grammar, strategy.handlerName, strategy.states, tokens, Now()).Breaks?
      modifies this`stack, this`currIndex
      ensures StepOf(strategy.grammar, strategy.handlerName, strategy.states, tokens, old(Now()))
           == if finished then Stops(outcome, Now()) else Moves(Now())
      ensures !(finished && (outcome.NoGoto? || outcome.PastEnd?)) ==>
                exists a :: Took(strategy.states, old(Now()), tokens, a, finished, outcome, currIndex)
    {
      finished, outcome := true, NoAction;
      var top := stack[|stack| - 1];
      if !top.Goto? {
        return true, NoGoto;
      }
      var targetState := top.state;
      if currIndex == |tokens| {
        return true, PastEnd;
      }
      var tokenKey: Symbol := "";
      match tokens[currIndex].kind {
        case IDENTIFIER => tokenKey := IDENTIFIER_KEY;
        case SYMBOL => tokenKey := tokens[currIndex].value;
        case KEYWORD => tokenKey := tokens[currIndex].value;
        case STRING =>
      }
      KeySays(tokens[currIndex], tokenKey);
      if tokenKey !in strategy.states[targetState].lrAction {
        assert Took(strategy.states, old(Now()), tokens, tokenKey, finished, outcome, currIndex);
        return;
      }
      var action := strategy.states[targetState].lrAction[tokenKey];
      match action {
        case Accept =>
          stack := stack[..|stack| - 1];
          outcome := Accepted(AsTree(stack[|stack| - 1]));
        case Shift(state) =>
          ShiftToken(state, tokens[currIndex].kind);
          finished := false;
        case Reduce(rule) =>
          ReduceAndGoTo(rule);
          finished := false;
      }
      assert Took(strategy.states, old(Now()), tokens, tokenKey, finished, outcome, currIndex);
    }

    method ReduceAndGoTo(rule: nat)
      requires rule < |strategy.grammar.rules| && rule < |strategy.handlerName|
      requires |strategy.grammar.rules[rule].development| > 0
      requires strategy.grammar.rules[rule].development[0] == EPSILON ==> |strategy.grammar.rules[rule].development| == 1
      requires |stack| > 2 * |Rhs(strategy.grammar.rules[rule])|
      requires var top := stack[|stack| - 2 * |Rhs(strategy.grammar.rules[rule])| - 1];
               && top.Goto? && top.state < |strategy.states|
               && strategy.grammar.rules[rule].nonTerminal in strategy.states[top.state].lrGoto
      modifies this`stack
      ensures var top := old(stack)[|old(stack)| - 2 * |Rhs(strategy.grammar.rules[rule])| - 1];
              stack == ReducedStack(strategy.grammar, strategy.handlerName, old(stack), rule,
                                    strategy.states[top.state].lrGoto[strategy.grammar.rules[rule].nonTerminal])
    {
      var node := ReduceBy(rule);
      var newTop := stack[|stack| - 1];
      var gotoState := strategy.states[newTop.state].lrGoto[strategy.grammar.rules[rule].nonTerminal];
      GoTo(gotoState, node);
    }

    /** Pushes the token, as an identifier leaf or as a terminal, and the next state. */
    method ShiftToken(nextState: nat, kind: TokenType)
      requires currIndex < |tokens| && kind == tokens[currIndex].kind
      modifies this`stack, this`currIndex
      ensures currIndex == old(currIndex) + 1
      ensures forall g, handlers ::
                stack == old(stack) + [Abstract(g, handlers, Leaf(tokens[old(currIndex)])), Goto(nextState)]
    {
      var tokenValue := tokens[currIndex].value;
      match kind {
        case IDENTIFIER => stack := stack + [Tree(ValueNode(tokenValue))];
        case _ => stack := stack + [Terminal(tokenValue)];
      }
      stack := stack + [Goto(nextState)];
      currIndex := currIndex + 1;
    }

    /** Pops a state and a symbol for each symbol of the rule; an empty rule pops nothing and yields the null node. */
    method ReduceBy(rule: nat) returns (node: Stackable)
      requires rule < |strategy.grammar.rules| && rule < |strategy.handlerName|
      requires |strategy.grammar.rules[rule].development| > 0
      requires strategy.grammar.rules[rule].development[0] == EPSILON ==> |strategy.grammar.rules[rule].development| == 1
      requires |stack| > 2 * |Rhs(strategy.grammar.rules[rule])|
      modifies this`stack
      ensures var n := |Rhs(strategy.grammar.rules[rule])|;
              && stack == old(stack)[..|old(stack)| - 2 * n]
              && node == ReducedNode(strategy.grammar, strategy.handlerName, rule,
                                     Children(EveryOther(old(stack), |old(stack)| - 2 * n, n)))
    {
      var development := strategy.grammar.rules[rule].development;
      if |development| == 1 && development[0] == EPSILON {
        return NullNode;
      }
      var children := PopSymbols(|development|);
      node := Tree(InterNode(strategy.grammar.rules[rule].nonTerminal, children, strategy.handlerName[rule]));
    }

    /** Pops `n` states and `n` symbols in turn; the symbols that are syntax trees become children. */
    method PopSymbols(n: nat) returns (children: seq<Ast>)
      requires |stack| > 2 * n
      modifies this`stack
      ensures stack == old(stack)[..|old(stack)| - 2 * n]
      ensures children == Children(EveryOther(old(stack), |old(stack)| - 2 * n, n))
    {
      children := [];
      ghost var symbols := EveryOther(stack, |stack| - 2 * n, n);
      for i := 0 to n * 2
        invariant stack == old(stack)[..|old(stack)| - i]
        invariant children == Children(symbols[n - i / 2..])
      {
        var topElement := stack[|stack| - 1];
        stack := stack[..|stack| - 1];
        if i % 2 == 1 {
          ChildrenFrom(symbols, n - i / 2);
          if topElement.Tree? {
            children := children + [topElement.ast];
          }
        }
      }
      assert symbols[0..] == symbols;
    }

    method GoTo(nextState: nat, node: Stackable)
      modifies this`stack
      ensures stack == old(stack) + [node, Goto(nextState)]
    {
      stack := stack + [node];
      stack := stack + [Goto(nextState)];
    }
  }
}
