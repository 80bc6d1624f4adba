/** Items: a rule with a dot in its development.
  *
  * Two items are kept apart by the hash (nonterminal, dot, development); the equality operator is weaker
  * and is what a linear search sees. `LooksEqual` below is that operator. Look-aheads take part in neither.
  */
module LrItems {
  import opened LrGrammar

  datatype Item = Item(rule: Rule, dot: nat)

  function StartItem(g: Grammar): Item
    requires Readable(g)
  {
    Item(g.rules[0], 0)
  }

  predicate LooksEqual(a: Item, b: Item) {
    && a.rule.development == b.rule.development
    && (a.dot == b.dot || a.rule.nonTerminal == b.rule.nonTerminal)
  }

  /** The dot stands before a symbol that can be shifted. */
  predicate CanShift(it: Item) {
    it.dot < |it.rule.development| && it.rule.development[it.dot] != EPSILON
  }

  function NextSymbol(it: Item): Symbol
    requires CanShift(it)
  {
    it.rule.development[it.dot]
  }

  function Advance(it: Item): Item {
    Item(it.rule, it.dot + 1)
  }

  function NewItemAfterShift(it: Item): set<Item> {
    if CanShift(it) then {Advance(it)} else {}
  }

  /** The item calls for a reduction. */
  predicate Complete(it: Item)
    requires |it.rule.development| > 0
  {
    it.dot == |it.rule.development| || it.rule.development[0] == EPSILON
  }

  // ---------------------------------------------------------------- closers of a symbol

  /** `s` holds the rules for `x` and, with each rule, the rules for the first symbol of its development. */
  ghost predicate ClosedFor(g: Grammar, x: Symbol, s: set<int>)
    requires Readable(g)
  {
    && RulesFor(g, x) <= s
    && forall r | r in s && 0 <= r < |g.rules| :: RulesFor(g, g.rules[r].development[0]) <= s
  }

  /** The smallest such set. */
  ghost function Closers(g: Grammar, x: Symbol): set<int>
    requires Readable(g)
  {
    set r | 0 <= r < |g.rules| && InEvery(g, x, r)
  }

  ghost predicate InEvery(g: Grammar, x: Symbol, r: int)
    requires Readable(g)
  {
    forall s: set<int> | ClosedFor(g, x, s) :: r in s
  }

  lemma ClosersClosed(g: Grammar, x: Symbol)
    requires Readable(g)
    ensures ClosedFor(g, x, Closers(g, x))
  {
    forall q | q in RulesFor(g, x)
      ensures q in Closers(g, x)
    {
      assert forall s: set<int> | ClosedFor(g, x, s) :: q in RulesFor(g, x) && RulesFor(g, x) <= s;
    }
    forall r, q | r in Closers(g, x) && q in RulesFor(g, g.rules[r].development[0])
      ensures q in Closers(g, x)
    {
      forall s: set<int> | ClosedFor(g, x, s)
        ensures q in s
      {
        assert r in s;
      }
    }
  }

  /** A chain of rules from `x` to `r`: the first rewrites `x`, each next one the first symbol of the one before. */
  ghost predicate ChainTo(g: Grammar, x: Symbol, chain: seq<int>, r: int)
    requires Readable(g)
  {
    && |chain| > 0 && chain[|chain| - 1] == r
    && (forall k | 0 <= k < |chain| :: 0 <= chain[k] < |g.rules|)
    && g.rules[chain[0]].nonTerminal == x
    && forall k | 0 < k < |chain| :: g.rules[chain[k]].nonTerminal == g.rules[chain[k - 1]].development[0]
  }

  ghost predicate Chained(g: Grammar, x: Symbol, r: int)
    requires Readable(g)
  {
    exists chain :: ChainTo(g, x, chain, r)
  }

  lemma {:induction false} ChainInside(g: Grammar, x: Symbol, chain: seq<int>, r: int)
    requires Readable(g) && ChainTo(g, x, chain, r)
    ensures forall k | 0 <= k < |chain| :: chain[k] in Closers(g, x)
    decreases |chain|
  {
    ClosersClosed(g, x);
    var n := |chain| - 1;
    if n == 0 {
      assert r in RulesFor(g, x);
    } else {
      ChainInside(g, x, chain[..n], chain[n - 1]);
      assert chain[..n][n - 1] == chain[n - 1];
      assert r in RulesFor(g, g.rules[chain[n - 1]].development[0]);
      assert forall k | 0 <= k < n :: chain[k] == chain[..n][k];
    }
  }

  /** The least closed set holds exactly the rules that a chain leads to. */
  lemma ClosersAreChained(g: Grammar, x: Symbol, r: int)
    requires Readable(g)
    ensures r in Closers(g, x) <==> Chained(g, x, r)
  {
    var s := set q | 0 <= q < |g.rules| && Chained(g, x, q);
    forall q | q in RulesFor(g, x)
      ensures q in s
    {
      assert ChainTo(g, x, [q], q);
    }
    forall p, q | p in s && q in RulesFor(g, g.rules[p].development[0])
      ensures q in s
    {
      var chain :| ChainTo(g, x, chain, p);
      assert ChainTo(g, x, chain + [q], q);
    }
    assert ClosedFor(g, x, s);
    if chain :| ChainTo(g, x, chain, r) {
      ChainInside(g, x, chain, r);
      assert chain[|chain| - 1] == r;
    }
  }

  /** The closers of a closer's first symbol are closers already: one level of expansion is enough. */
  lemma ClosersNested(g: Grammar, x: Symbol, r: int)
    requires Readable(g)
    requires r in Closers(g, x)
    ensures Closers(g, g.rules[r].development[0]) <= Closers(g, x)
  {
    ClosersClosed(g, x);
    var y := g.rules[r].development[0];
    assert ClosedFor(g, y, Closers(g, x));
  }

  function FreshItem(g: Grammar, r: int): Item
    requires 0 <= r < |g.rules|
  {
    Item(g.rules[r], 0)
  }

  /** The items the symbol after the dot brings in. */
  ghost function Expansion(g: Grammar, it: Item): set<Item>
    requires Readable(g)
  {
    if it.dot >= |it.rule.development| then {}
    else set r | r in Closers(g, it.rule.development[it.dot]) :: FreshItem(g, r)
  }

  /** A worklist of rules; the order in which a set hands out its elements is arbitrary. */
  method NewItemsFromSymbolAfterDot(g: Grammar, it: Item) returns (newItems: set<Item>)
    requires Readable(g)
    ensures newItems == Expansion(g, it)
  {
    newItems := {};
    if it.dot >= |it.rule.development| {
      return;
    }
    ghost var x := it.rule.development[it.dot];
    var closers := CollectClosers(g, it.rule.development[it.dot]);
    var rest := closers;
    while rest != {}
      invariant rest <= closers
      invariant newItems == set r | r in closers - rest :: FreshItem(g, r)
    {
      var r :| r in rest;
      newItems := newItems + {FreshItem(g, r)};
      rest := rest - {r};
    }
    assert closers - rest == closers;
  }

  method CollectClosers(g: Grammar, x: Symbol) returns (closers: set<int>)
    requires Readable(g)
    ensures closers == Closers(g, x)
  {
    ClosersClosed(g, x);
    closers := RulesFor(g, x);
    var queue := SomeOrder(closers);
    while queue != []
      invariant Collecting(g, x, closers, queue)
      decreases Closers(g, x) - closers, |queue|
    {
      var top, rest := queue[0], queue[1..];
      assert queue == [top] + rest;
      var newRules := RulesFor(g, g.rules[top].development[0]) - closers;
      var order := SomeOrder(newRules);
      CollectMore(g, x, closers, top, rest, newRules, order);
      CollectProgress(Closers(g, x), closers, newRules, order);
      queue := rest + order;
      closers := closers + newRules;
    }
    assert forall r | r in closers && 0 <= r < |g.rules| :: Expanded(g, r, closers);
    assert ClosedFor(g, x, closers);
  }

  ghost predicate Expanded(g: Grammar, r: int, closers: set<int>)
    requires Readable(g)
  {
    0 <= r < |g.rules| && RulesFor(g, g.rules[r].development[0]) <= closers
  }

  /** Everything found belongs there, and what is not queued has had its first symbol looked up. */
  ghost predicate Collecting(g: Grammar, x: Symbol, closers: set<int>, queue: seq<int>)
    requires Readable(g)
  {
    && RulesFor(g, x) <= closers <= Closers(g, x)
    && (forall i | 0 <= i < |queue| :: queue[i] in closers)
    && forall r {:trigger Expanded(g, r, closers)} | r in closers && r !in queue :: Expanded(g, r, closers)
  }

  lemma CollectMore(g: Grammar, x: Symbol, closers: set<int>, top: int, rest: seq<int>,
                    newRules: set<int>, order: seq<int>)
    requires Readable(g) && Collecting(g, x, closers, [top] + rest)
    requires 0 <= top < |g.rules| && newRules == RulesFor(g, g.rules[top].development[0]) - closers
    requires forall r :: r in order <==> r in newRules
    ensures Collecting(g, x, closers + newRules, rest + order)
    ensures newRules <= Closers(g, x)
  {
    ClosersClosed(g, x);
    QueueInside(closers, top, rest, newRules, order);
    forall r | r in closers + newRules && r !in rest + order
      ensures Expanded(g, r, closers + newRules)
    {
      StillExpanded(g, x, closers, top, rest, newRules, order, r);
    }
  }

  lemma QueueInside(closers: set<int>, top: int, rest: seq<int>, newRules: set<int>, order: seq<int>)
    requires forall i | 0 <= i < |[top] + rest| :: ([top] + rest)[i] in closers
    requires forall r :: r in order <==> r in newRules
    ensures top in closers
    ensures forall i | 0 <= i < |rest + order| :: (rest + order)[i] in closers + newRules
  {
    assert ([top] + rest)[0] in closers;
    forall i | 0 <= i < |rest + order|
      ensures (rest + order)[i] in closers + newRules
    {
      if i < |rest| {
        assert ([top] + rest)[i + 1] in closers;
      } else {
        var r := order[i - |rest|];
        assert r in order && r in newRules;
      }
    }
  }

  /** Either more has been found, or nothing was queued. */
  lemma CollectProgress<T>(all: set<T>, found: set<T>, more: set<T>, order: seq<T>)
    requires more <= all && more !! found && |order| == |more|
    ensures if more == {} then found + more == found && order == [] else all - (found + more) < all - found
  {
    if more != {} {
      var n :| n in more;
      assert n in all - found && n !in all - (found + more);
    }
  }

  lemma StillExpanded(g: Grammar, x: Symbol, closers: set<int>, top: int, rest: seq<int>,
                      newRules: set<int>, order: seq<int>, r: int)
    requires Readable(g) && Collecting(g, x, closers, [top] + rest)
    requires 0 <= top < |g.rules| && newRules == RulesFor(g, g.rules[top].development[0]) - closers
    requires forall r :: r in order <==> r in newRules
    requires r in closers + newRules && r !in rest + order
    ensures Expanded(g, r, closers + newRules)
  {
    if r != top {
      assert r !in [top] + rest;
      assert Expanded(g, r, closers);
    }
  }

  /** The elements of a set, once each, in an order nobody may rely on. */
  method SomeOrder<T(==)>(s: set<T>) returns (order: seq<T>)
    ensures forall x :: x in order <==> x in s
    ensures |order| == |s|
  {
    order := [];
    var rest := s;
    while rest != {}
      invariant rest <= s
      invariant forall x :: x in order <==> x in s - rest
      invariant |order| + |rest| == |s|
    {
      var x :| x in rest;
      order := order + [x];
      rest := rest - {x};
    }
  }

  // ---------------------------------------------------------------- items of a grammar

  function AllItems(g: Grammar): set<Item> {
    set r, d | r in g.rules && 0 <= d <= |r.development| :: Item(r, d)
  }

  /** The item belongs to the grammar, and its dot has only crossed symbols. */
  ghost predicate ItemOk(g: Grammar, it: Item) {
    && it.rule in g.rules
    && it.dot <= |it.rule.development|
    && forall i | 0 <= i < it.dot :: it.rule.development[i] != EPSILON
  }

  lemma AdvanceOk(g: Grammar, it: Item)
    requires Readable(g) && ItemOk(g, it) && CanShift(it)
    ensures ItemOk(g, Advance(it))
  {
    assert Advance(it).rule in g.rules;
  }

  // ---------------------------------------------------------------- closure

  ghost function ClosureOf(g: Grammar, items: set<Item>): set<Item>
    requires Readable(g)
  {
    items + ExpansionsOf(g, items)
  }

  ghost function ExpansionsOf(g: Grammar, items: set<Item>): set<Item>
    requires Readable(g)
  {
    set it, n | it in items && n in Expansion(g, it) :: n
  }

  lemma ExpansionsAppend(g: Grammar, items: set<Item>, it: Item)
    requires Readable(g)
    ensures ExpansionsOf(g, items + {it}) == ExpansionsOf(g, items) + Expansion(g, it)
  {
  }

  /** One pass over the items already reaches the closure: expanding it again adds nothing. */
  lemma ClosureClosed(g: Grammar, items: set<Item>, it: Item)
    requires Readable(g)
    requires it in ClosureOf(g, items)
    ensures Expansion(g, it) <= ClosureOf(g, items)
  {
    if it !in items {
      var k, n :| k in items && n in Expansion(g, k) && it == n;
      var x := k.rule.development[k.dot];
      var r :| r in Closers(g, x) && it == FreshItem(g, r);
      ClosersNested(g, x, r);
      assert Expansion(g, it) <= Expansion(g, k);
    }
  }

  lemma ClosureOk(g: Grammar, items: set<Item>)
    requires Readable(g)
    requires forall it <- items :: ItemOk(g, it)
    ensures forall it <- ClosureOf(g, items) :: ItemOk(g, it)
  {
    forall it | it in ClosureOf(g, items) && it !in items
      ensures ItemOk(g, it)
    {
      var k, n :| k in items && n in Expansion(g, k) && it == n;
      var r :| r in Closers(g, k.rule.development[k.dot]) && it == FreshItem(g, r);
    }
  }

  /** An item the closure added is fresh, and a chain of fresh items of the closure leads to it from the dot of an
      item that was there. */
  lemma ClosureJustified(g: Grammar, items: set<Item>, it: Item) returns (k: Item, chain: seq<int>)
    requires Readable(g) && it in ClosureOf(g, items) && it !in items
    ensures it.dot == 0
    ensures k in items && k.dot < |k.rule.development|
    ensures |chain| > 0 && ChainTo(g, k.rule.development[k.dot], chain, chain[|chain| - 1])
    ensures it == FreshItem(g, chain[|chain| - 1])
    ensures forall j | 0 <= j < |chain| :: FreshItem(g, chain[j]) in ClosureOf(g, items)
  {
    var n :| n in ExpansionsOf(g, items) && n == it;
    k :| k in items && it in Expansion(g, k);
    var x := k.rule.development[k.dot];
    var r :| r in Closers(g, x) && it == FreshItem(g, r);
    ClosersAreChained(g, x, r);
    chain :| ChainTo(g, x, chain, r);
    ChainInside(g, x, chain, r);
    forall j | 0 <= j < |chain|
      ensures FreshItem(g, chain[j]) in ClosureOf(g, items)
    {
      assert FreshItem(g, chain[j]) in Expansion(g, k);
    }
  }

  /** So its nonterminal can be shifted, and it is not the start symbol. */
  lemma AddedIsAskedFor(g: Grammar, items: set<Item>, it: Item)
    requires WellFormed(g) && forall k <- items :: ItemOk(g, k)
    requires it in ClosureOf(g, items) && it !in items
    ensures it.dot == 0 && it.rule.nonTerminal != g.rules[0].nonTerminal
    ensures exists k :: k in ClosureOf(g, items) && CanShift(k) && NextSymbol(k) == it.rule.nonTerminal
  {
    var k, chain := ClosureJustified(g, items, it);
    var n := |chain| - 1;
    assert g.rules[chain[n]] in g.rules;
    var w := k;
    if n > 0 {
      w := FreshItem(g, chain[n - 1]);
      assert g.rules[chain[n - 1]] in g.rules;
    }
    assert w.rule in g.rules && w in ClosureOf(g, items);
    assert w.rule.development[w.dot] == it.rule.nonTerminal;
    assert CanShift(w) && NextSymbol(w) == it.rule.nonTerminal;
  }

  // ---------------------------------------------------------------- shifting a set of items

  function Shifted(closure: set<Item>, x: Symbol): set<Item> {
    set it | it in closure && CanShift(it) && NextSymbol(it) == x :: Advance(it)
  }

  /** No two items of the set are confused by the equality operator. */
  ghost predicate Distinguished(s: set<Item>) {
    forall a, b | a in s && b in s && LooksEqual(a, b) :: a == b
  }

  /** What remains of `s` when it is added one by one, skipping an item that looks equal to one already there. */
  ghost predicate Selected(s: set<Item>, t: set<Item>) {
    && t <= s
    && Distinguished(t)
    && forall a | a in s :: exists b :: b in t && LooksEqual(b, a)
  }

  /** Nothing is lost exactly when no two items of the set look equal. */
  lemma SelectedExactly(s: set<Item>, t: set<Item>)
    requires Selected(s, t)
    ensures t == s <==> Distinguished(s)
  {
    if Distinguished(s) {
      forall a | a in s
        ensures a in t
      {
        var b :| b in t && LooksEqual(b, a);
      }
    }
  }

  /** One more item, skipped when one that looks equal is there already. */
  function AppendUnlessSeen(t: set<Item>, a: Item): set<Item> {
    if exists b :: b in t && LooksEqual(b, a) then t else t + {a}
  }

  lemma SelectedAppend(s: set<Item>, t: set<Item>, a: Item)
    requires Selected(s, t)
    ensures Selected(s + {a}, AppendUnlessSeen(t, a))
  {
    var u := AppendUnlessSeen(t, a);
    assert Distinguished(u) by {
      forall b, c | b in u && c in u && LooksEqual(b, c)
        ensures b == c
      {
        LooksEqualSymmetric(b, c);
      }
    }
    forall c | c in s + {a}
      ensures exists b :: b in u && LooksEqual(b, c)
    {
      if c in s {
        var b :| b in t && LooksEqual(b, c);
        assert b in u;
      } else if u != t {
        assert a in u && LooksEqual(a, c);
      }
    }
  }

  lemma LooksEqualSymmetric(a: Item, b: Item)
    ensures LooksEqual(a, b) == LooksEqual(b, a)
  {
  }

  lemma ShiftedAppend(visited: set<Item>, it: Item, x: Symbol)
    ensures Shifted(visited + {it}, x)
         == Shifted(visited, x) + (if CanShift(it) && NextSymbol(it) == x then {Advance(it)} else {})
  {
  }
}
