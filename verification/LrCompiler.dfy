/** The compiler front end: tables built once, any number of parses, and what follows for all of them. */
module LrCompilers {
  import opened LrGrammar
  import opened KernelGraphs
  import opened LrStrategies
  import opened ParseTrees
  import opened LrMachines
  import opened LrParsers

  class LrCompiler {
    const strategy: LrStrategy
    const parser: LrParser
    ghost const kernels: seq<Kernel>

    ghost predicate Valid()
      reads strategy
    {
      && parser.strategy == strategy
      && WellFormed(strategy.grammar)
      && |strategy.handlerName| >= |strategy.grammar.rules|
      && TablesOk(strategy.grammar, kernels, strategy.states)
      && Rooted(kernels)
    }

    constructor (grammar: Grammar, handlerName: seq<string>)
      requires WellFormed(grammar) && |handlerName| >= |grammar.rules|
      ensures Valid() && fresh(strategy) && fresh(parser)
      ensures strategy.grammar == grammar && strategy.handlerName == handlerName
    {
      var s := new LrStrategy(grammar, handlerName);
      ghost var ks := s.BuildState();
      var p := new LrParser(s);
      strategy, parser, kernels := s, p, ks;
    }

    /** Parses on top of whatever earlier calls left behind. An accepted input is a sentence of the grammar up to
        its end mark, and with a one-symbol start rule the tree holds its identifiers in order. A refused token is
        one that no item of the state offers. A list without an end mark may be read past its end. Nothing else ends
        the run, unless the fuel does. */
    method Run(tokens: seq<Token>, fuel: nat) returns (outcome: Outcome)
      requires Valid()
      modifies parser
      ensures Valid()
      ensures outcome.EmptyInput? <==> tokens == []
      ensures outcome.EmptyInput? || outcome.Accepted? || outcome.NoAction? || outcome.OutOfFuel? || outcome.PastEnd?
      ensures outcome.PastEnd? ==> forall t <- tokens :: !Says(t, "$")
      ensures old(parser.stack) + [Goto(0)] <= parser.stack
      ensures outcome.Accepted? ==>
                var g, n := strategy.grammar, parser.currIndex;
                && Sentence(g, tokens, n)
                && (outcome.tree.Some? ==> Labelled(g, strategy.handlerName, outcome.tree.value))
                && (|g.rules[0].development| == 1 ==>
                      Identifiers(tokens[..n]) == if outcome.tree.Some? then Reading(outcome.tree.value) else [])
      ensures outcome.NoAction? ==> Refuses(strategy.grammar, kernels, tokens, parser.Now())
      ensures tokens != [] ==> Stops(outcome, parser.Now()) == parser.Ahead(Machine(old(parser.stack) + [Goto(0)], 0), fuel)
    {
      parser.SetTokens(tokens);
      outcome := parser.Parse(fuel, kernels);
      if outcome.Accepted? {
        ghost var g, n := strategy.grammar, parser.currIndex;
        assert Parsed(g, strategy.handlerName, tokens, n, outcome.tree);
        if outcome.tree.Some? {
          ParsedIsLabelled(g, strategy.handlerName, tokens, n, outcome.tree);
        }
        if |g.rules[0].development| == 1 {
          ParsedKeepsIdentifiers(g, strategy.handlerName, tokens, n, outcome.tree);
        }
      }
    }
  }
}
