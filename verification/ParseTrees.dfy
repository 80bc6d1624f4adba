/** Tokens, parse trees and the syntax trees the parser hands to its handlers. */
module ParseTrees {
  import opened LrGrammar

  datatype TokenType = IDENTIFIER | KEYWORD | SYMBOL | STRING
  datatype Token = Token(kind: TokenType, value: string)

  const IDENTIFIER_KEY: Symbol := "#ID"

  /** The table column a token selects. A STRING token has no case in the source and keeps the empty key. */
  function Key(t: Token): Symbol {
    match t.kind
    case IDENTIFIER => IDENTIFIER_KEY
    case KEYWORD => t.value
    case SYMBOL => t.value
    case STRING => ""
  }

  /** The word a token stands for in a grammar: "#ID" for any identifier, its own text for a keyword or a symbol. */
  ghost predicate Says(t: Token, word: Symbol) {
    match t.kind
    case IDENTIFIER => word == "#ID"
    case KEYWORD => word == t.value
    case SYMBOL => word == t.value
    case STRING => word == ""
  }

  lemma KeySays(t: Token, word: Symbol)
    ensures Says(t, word) <==> word == Key(t)
  {
  }

  function Keys(ts: seq<Token>): (ks: seq<Symbol>)
    ensures |ks| == |ts|
  {
    if ts == [] then [] else [Key(ts[0])] + Keys(ts[1..])
  }

  lemma {:induction false} KeysSay(ts: seq<Token>)
    ensures forall i | 0 <= i < |ts| :: Says(ts[i], Keys(ts)[i])
  {
    if ts != [] {
      KeySays(ts[0], Key(ts[0]));
      KeysSay(ts[1..]);
      assert forall i | 0 < i < |ts| :: ts[i] == ts[1..][i - 1] && Keys(ts)[i] == Keys(ts[1..])[i - 1];
    }
  }

  lemma {:induction false} KeysConcat(a: seq<Token>, b: seq<Token>)
    ensures Keys(a + b) == Keys(a) + Keys(b)
  {
    if a == [] {
      assert a + b == b;
    } else {
      assert (a + b)[0] == a[0] && (a + b)[1..] == a[1..] + b;
      KeysConcat(a[1..], b);
    }
  }

  // ---------------------------------------------------------------- parse trees

  /** A full parse tree: what the stack of the parser stands for, although the parser never builds it. */
  datatype Parse =
    | Leaf(token: Token)
    | Node(rule: nat, children: seq<Parse>)

  function Root(g: Grammar, t: Parse): Symbol
  {
    match t
    case Leaf(token) => Key(token)
    case Node(rule, _) => if rule < |g.rules| then g.rules[rule].nonTerminal else EPSILON
  }

  function Roots(g: Grammar, ts: seq<Parse>): (ss: seq<Symbol>)
    ensures |ss| == |ts|
    ensures forall i | 0 <= i < |ts| :: ss[i] == Root(g, ts[i])
  {
    seq(|ts|, i requires 0 <= i < |ts| => Root(g, ts[i]))
  }

  /** Every node expands its rule, every leaf is a terminal. */
  ghost predicate Valid(g: Grammar, t: Parse)
    requires WellFormed(g)
    decreases t
  {
    match t
    case Leaf(token) => Key(token) in Terminals(g)
    case Node(rule, children) =>
      && rule < |g.rules|
      && Roots(g, children) == Rhs(g.rules[rule])
      && forall c <- children :: Valid(g, c)
  }

  function Frontier(t: Parse): seq<Token>
    decreases t, 0
  {
    match t
    case Leaf(token) => [token]
    case Node(_, children) => FrontierAll(children)
  }

  function FrontierAll(ts: seq<Parse>): seq<Token>
    decreases ts, 1
  {
    if ts == [] then [] else Frontier(ts[0]) + FrontierAll(ts[1..])
  }

  lemma {:induction false} FrontierConcat(a: seq<Parse>, b: seq<Parse>)
    ensures FrontierAll(a + b) == FrontierAll(a) + FrontierAll(b)
  {
    if a == [] {
      assert a + b == b;
    } else {
      assert (a + b)[0] == a[0] && (a + b)[1..] == a[1..] + b;
      FrontierConcat(a[1..], b);
    }
  }

  /** A valid tree is a derivation of its frontier from its root. */
  lemma {:induction false} TreeDerives(g: Grammar, t: Parse)
    requires WellFormed(g) && Valid(g, t)
    ensures Derives(g, [Root(g, t)], Keys(Frontier(t)))
    decreases t, 0
  {
    match t
    case Leaf(token) =>
      assert Keys([token]) == [Key(token)];
      DerivesSelf(g, [Key(token)]);
    case Node(rule, children) =>
      DerivesStep(g, [Root(g, t)], rule);
      ForestDerives(g, children);
      DerivesTransitive(g, [Root(g, t)], Rhs(g.rules[rule]), Keys(Frontier(t)));
  }

  lemma {:induction false} ForestDerives(g: Grammar, ts: seq<Parse>)
    requires WellFormed(g) && (forall t <- ts :: Valid(g, t))
    ensures Derives(g, Roots(g, ts), Keys(FrontierAll(ts)))
    decreases ts, 1
  {
    if ts == [] {
      assert Roots(g, ts) == [];
      DerivesSelf(g, []);
    } else {
      var head, tail := ts[0], ts[1..];
      TreeDerives(g, head);
      ForestDerives(g, tail);
      DerivesSideBySide(g, [Root(g, head)], Keys(Frontier(head)), Roots(g, tail), Keys(FrontierAll(tail)));
      assert Roots(g, ts) == [Root(g, head)] + Roots(g, tail);
      KeysConcat(Frontier(head), FrontierAll(tail));
    }
  }

  // ---------------------------------------------------------------- syntax trees

  /** The nodes the parser builds: identifiers, and rule applications with their handler's name. */
  datatype Ast =
    | ValueNode(value: string)
    | InterNode(typ: Symbol, children: seq<Ast>, handler: string)

  /** What can lie on the parser's stack. `NullNode` is the null pointer an empty reduction pushes. */
  datatype Stackable =
    | Goto(state: nat)
    | Terminal(value: string)
    | Tree(ast: Ast)
    | NullNode

  /** The stack element that stands for a parse tree: terminals and empty nodes leave no syntax tree. */
  function Abstract(g: Grammar, handlers: seq<string>, t: Parse): Stackable
    decreases t, 0
  {
    match t
    case Leaf(token) => if token.kind == IDENTIFIER then Tree(ValueNode(token.value)) else Terminal(token.value)
    case Node(rule, children) =>
      if rule < |g.rules| && rule < |handlers| && children != [] then
        Tree(InterNode(g.rules[rule].nonTerminal, AbstractChildren(g, handlers, children), handlers[rule]))
      else NullNode
  }

  /** The children in the order the pops find them: last first, and only those with a syntax tree. */
  function AbstractChildren(g: Grammar, handlers: seq<string>, ts: seq<Parse>): seq<Ast>
    decreases ts, 1
  {
    if ts == [] then [] else
      var s := Abstract(g, handlers, ts[0]);
      AbstractChildren(g, handlers, ts[1..]) + (if s.Tree? then [s.ast] else [])
  }

  function Identifiers(ts: seq<Token>): seq<string> {
    if ts == [] then [] else (if ts[0].kind == IDENTIFIER then [ts[0].value] else []) + Identifiers(ts[1..])
  }

  lemma {:induction false} IdentifiersConcat(a: seq<Token>, b: seq<Token>)
    ensures Identifiers(a + b) == Identifiers(a) + Identifiers(b)
  {
    if a == [] {
      assert a + b == b;
    } else {
      assert (a + b)[0] == a[0] && (a + b)[1..] == a[1..] + b;
      IdentifiersConcat(a[1..], b);
    }
  }

  /** The identifier leaves of a syntax tree, reading children last to first as the printer does. */
  function Reading(a: Ast): seq<string>
    decreases a, 0
  {
    match a
    case ValueNode(value) => [value]
    case InterNode(_, children, _) => ReadingAll(children)
  }

  function ReadingAll(cs: seq<Ast>): seq<string>
    decreases cs, 1
  {
    if cs == [] then [] else Reading(cs[|cs| - 1]) + ReadingAll(cs[..|cs| - 1])
  }

  function ReadingOf(s: Stackable): seq<string> {
    if s.Tree? then Reading(s.ast) else []
  }

  /** The syntax tree keeps exactly the identifiers of the tokens under the parse tree, in their order. */
  lemma {:induction false} ReadingIsIdentifiers(g: Grammar, handlers: seq<string>, t: Parse)
    requires WellFormed(g) && Valid(g, t) && |handlers| >= |g.rules|
    ensures ReadingOf(Abstract(g, handlers, t)) == Identifiers(Frontier(t))
    decreases t, 0
  {
    match t
    case Leaf(token) =>
    case Node(rule, children) => ReadingAllIsIdentifiers(g, handlers, children);
  }

  lemma {:induction false} ReadingAllIsIdentifiers(g: Grammar, handlers: seq<string>, ts: seq<Parse>)
    requires WellFormed(g) && (forall t <- ts :: Valid(g, t)) && |handlers| >= |g.rules|
    ensures ReadingAll(AbstractChildren(g, handlers, ts)) == Identifiers(FrontierAll(ts))
    decreases ts, 1
  {
    if ts != [] {
      ReadingIsIdentifiers(g, handlers, ts[0]);
      ReadingAllIsIdentifiers(g, handlers, ts[1..]);
      IdentifiersConcat(Frontier(ts[0]), FrontierAll(ts[1..]));
      var rest := AbstractChildren(g, handlers, ts[1..]);
      var s := Abstract(g, handlers, ts[0]);
      if s.Tree? {
        assert (rest + [s.ast])[..|rest|] == rest;
      } else {
        assert rest + [] == rest;
      }
    }
  }

  // ---------------------------------------------------------------- labels

  /** Every inner node bears the left side of a rule and the name of that rule's handler. */
  ghost predicate Labelled(g: Grammar, handlers: seq<string>, a: Ast)
    decreases a
  {
    match a
    case ValueNode(_) => true
    case InterNode(typ, children, handler) =>
      && (exists r :: 0 <= r < |g.rules| && r < |handlers| && g.rules[r].nonTerminal == typ && handlers[r] == handler)
      && forall c <- children :: Labelled(g, handlers, c)
  }

  lemma {:induction false} AbstractLabelled(g: Grammar, handlers: seq<string>, t: Parse)
    requires WellFormed(g) && Valid(g, t)
    ensures var s := Abstract(g, handlers, t);
            s.Tree? ==> Labelled(g, handlers, s.ast) && (s.ast.InterNode? ==> s.ast.typ == Root(g, t))
    decreases t, 0
  {
    match t
    case Leaf(_) =>
    case Node(rule, children) => ChildrenLabelled(g, handlers, children);
  }

  lemma {:induction false} ChildrenLabelled(g: Grammar, handlers: seq<string>, ts: seq<Parse>)
    requires WellFormed(g) && forall t <- ts :: Valid(g, t)
    ensures forall a <- AbstractChildren(g, handlers, ts) :: Labelled(g, handlers, a)
    decreases ts, 1
  {
    if ts != [] {
      AbstractLabelled(g, handlers, ts[0]);
      ChildrenLabelled(g, handlers, ts[1..]);
    }
  }
}
