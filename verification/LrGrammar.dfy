/** Grammars as the LR compiler reads them, and what a grammar derives.
  *
  * A symbol is a word of the grammar text. A rule's development is never empty: the reader splits a text,
  * and a split always yields at least one word. The word EPSILON alone stands for the empty development.
  */
module LrGrammar {

  type Symbol = string

  const EPSILON: Symbol := "ε"
  const END: Symbol := "$"

  datatype Rule = Rule(nonTerminal: Symbol, development: seq<Symbol>)

  /** `follows` is whatever the follow computation left behind; nothing below depends on its contents. */
  datatype Grammar = Grammar(rules: seq<Rule>, follows: map<Symbol, set<Symbol>>)

  function NonTerminals(g: Grammar): set<Symbol> {
    set r | r in g.rules :: r.nonTerminal
  }

  function Terminals(g: Grammar): set<Symbol> {
    set r, s | r in g.rules && s in r.development && s != EPSILON && s !in NonTerminals(g) :: s
  }

  /** A missing entry reads as the empty set, as indexing an unordered_map does. */
  function FollowsOf(g: Grammar, s: Symbol): set<Symbol> {
    if s in g.follows then g.follows[s] else {}
  }

  function RulesFor(g: Grammar, s: Symbol): set<int> {
    set i | 0 <= i < |g.rules| && g.rules[i].nonTerminal == s
  }

  /** What the item sets and their automaton take for granted: there is a rule 0, and every rule has a first symbol. */
  ghost predicate Readable(g: Grammar) {
    |g.rules| > 0 && forall r <- g.rules :: |r.development| > 0
  }

  /** What the parser takes for granted besides. */
  ghost predicate WellFormed(g: Grammar) {
    && Readable(g)
    && (forall r <- g.rules :: r.development[0] == EPSILON ==> |r.development| == 1)
    && (forall r <- g.rules :: r.nonTerminal != EPSILON)
    && (forall r <- g.rules :: g.rules[0].nonTerminal !in r.development)
    && g.rules[0].development[0] != EPSILON
    && END !in Terminals(g)
  }

  /** The symbols a rule really stands for. */
  function Rhs(r: Rule): seq<Symbol>
    requires |r.development| > 0
  {
    if r.development[0] == EPSILON then [] else r.development
  }

  // ---------------------------------------------------------------- rewriting

  /** `v` is `u` with the nonterminal at `i` replaced by the right-hand side of rule `r`. */
  ghost predicate RewritesAt(g: Grammar, u: seq<Symbol>, v: seq<Symbol>, i: nat, r: nat)
    requires WellFormed(g)
  {
    && i < |u|
    && r < |g.rules|
    && u[i] == g.rules[r].nonTerminal
    && v == u[..i] + Rhs(g.rules[r]) + u[i + 1..]
  }

  ghost predicate Rewrites(g: Grammar, u: seq<Symbol>, v: seq<Symbol>)
    requires WellFormed(g)
  {
    exists i: nat, r: nat :: RewritesAt(g, u, v, i, r)
  }

  ghost predicate IsDerivation(g: Grammar, chain: seq<seq<Symbol>>)
    requires WellFormed(g)
  {
    && |chain| > 0
    && forall k | 0 <= k < |chain| - 1 :: Rewrites(g, chain[k], chain[k + 1])
  }

  ghost predicate DerivationOf(g: Grammar, chain: seq<seq<Symbol>>, u: seq<Symbol>, v: seq<Symbol>)
    requires WellFormed(g)
  {
    IsDerivation(g, chain) && chain[0] == u && chain[|chain| - 1] == v
  }

  /** `u` rewrites to `v` in finitely many steps. */
  ghost predicate Derives(g: Grammar, u: seq<Symbol>, v: seq<Symbol>)
    requires WellFormed(g)
  {
    exists chain: seq<seq<Symbol>> :: DerivationOf(g, chain, u, v)
  }

  lemma DerivesSelf(g: Grammar, u: seq<Symbol>)
    requires WellFormed(g)
    ensures Derives(g, u, u)
  {
    assert DerivationOf(g, [u], u, u);
  }

  lemma DerivesStep(g: Grammar, u: seq<Symbol>, r: nat)
    requires WellFormed(g)
    requires r < |g.rules| && u == [g.rules[r].nonTerminal]
    ensures Derives(g, u, Rhs(g.rules[r]))
  {
    var v := Rhs(g.rules[r]);
    assert RewritesAt(g, u, v, 0, r);
    assert DerivationOf(g, [u, v], u, v);
  }

  lemma DerivesTransitive(g: Grammar, u: seq<Symbol>, v: seq<Symbol>, w: seq<Symbol>)
    requires WellFormed(g)
    requires Derives(g, u, v) && Derives(g, v, w)
    ensures Derives(g, u, w)
  {
    var c := DerivationChain(g, u, v);
    var d := DerivationChain(g, v, w);
    var e := c + d[1..];
    forall k | 0 <= k < |e| - 1
      ensures Rewrites(g, e[k], e[k + 1])
    {
      if k >= |c| - 1 {
        assert e[k] == d[k - (|c| - 1)] && e[k + 1] == d[k - (|c| - 1) + 1];
      }
    }
    assert DerivationOf(g, e, u, w);
  }

  lemma DerivationChain(g: Grammar, u: seq<Symbol>, v: seq<Symbol>) returns (chain: seq<seq<Symbol>>)
    requires WellFormed(g)
    requires Derives(g, u, v)
    ensures DerivationOf(g, chain, u, v)
  {
    chain :| DerivationOf(g, chain, u, v);
  }

  lemma RewritesInContext(g: Grammar, p: seq<Symbol>, u: seq<Symbol>, v: seq<Symbol>, s: seq<Symbol>)
    requires WellFormed(g) && Rewrites(g, u, v)
    ensures Rewrites(g, p + u + s, p + v + s)
  {
    var i: nat, r: nat :| RewritesAt(g, u, v, i, r);
    var x, y := p + u + s, p + v + s;
    assert x[..|p| + i] == p + u[..i] && x[|p| + i + 1..] == u[i + 1..] + s;
    assert RewritesAt(g, x, y, |p| + i, r);
  }

  /** Rewriting inside a context. */
  lemma DerivesInContext(g: Grammar, p: seq<Symbol>, u: seq<Symbol>, v: seq<Symbol>, s: seq<Symbol>)
    requires WellFormed(g)
    requires Derives(g, u, v)
    ensures Derives(g, p + u + s, p + v + s)
  {
    var c := DerivationChain(g, u, v);
    var d := seq(|c|, k requires 0 <= k < |c| => p + c[k] + s);
    forall k | 0 <= k < |d| - 1
      ensures Rewrites(g, d[k], d[k + 1])
    {
      assert Rewrites(g, c[k], c[k + 1]);
      RewritesInContext(g, p, c[k], c[k + 1], s);
    }
    assert DerivationOf(g, d, p + u + s, p + v + s);
  }

  lemma DerivesSideBySide(g: Grammar, a: seq<Symbol>, c: seq<Symbol>, b: seq<Symbol>, d: seq<Symbol>)
    requires WellFormed(g)
    requires Derives(g, a, c) && Derives(g, b, d)
    ensures Derives(g, a + b, c + d)
  {
    DerivesInContext(g, [], a, c, b);
    DerivesInContext(g, c, b, d, []);
    assert [] + a + b == a + b && [] + c + b == c + b && c + b + [] == c + b && c + d + [] == c + d;
    DerivesTransitive(g, a + b, c + b, c + d);
  }
}
