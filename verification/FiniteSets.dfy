/** Counting facts about finite sets. */
module FiniteSets {

  lemma EqualWhenContained<T>(a: set<T>, b: set<T>)
    ensures |a| == |b| && a <= b ==> a == b
  {
    if |a| == |b| && a <= b {
      assert |b - a| == |b| - |a|;
    }
  }

  function Pow2(n: nat): (p: nat)
    ensures p >= 1
  {
    if n == 0 then 1 else 2 * Pow2(n - 1)
  }

  function Elements<T>(s: seq<T>): set<T> {
    set x | x in s
  }

  lemma ElementsOfPrefix<T>(s: seq<T>, j: nat)
    requires j < |s|
    ensures Elements(s[..j + 1]) == Elements(s[..j]) + {s[j]}
  {
    assert s[..j + 1] == s[..j] + [s[j]];
  }

  lemma {:induction false} DistinctCount<T>(s: seq<T>)
    requires forall i, j | 0 <= i < j < |s| :: s[i] != s[j]
    ensures |Elements(s)| == |s|
  {
    if s != [] {
      var n := |s| - 1;
      DistinctCount(s[..n]);
      assert s == s[..n] + [s[n]];
      assert s[n] !in s[..n];
      assert Elements(s) == Elements(s[..n]) + {s[n]};
    }
  }

  /** A family of different subsets of `u` has at most two to the size of `u` members. */
  lemma {:induction false} SubsetsBounded<T>(u: set<T>, family: set<set<T>>)
    requires forall s <- family :: s <= u
    ensures |family| <= Pow2(|u|)
    decreases |u|
  {
    if u == {} {
      forall s | s in family
        ensures s in {u}
      {
        assert s == u;
      }
      SubsetCardinality(family, {u});
    } else {
      var x :| x in u;
      var without := set s | s in family && x !in s;
      var withX := set s | s in family && x in s;
      var trimmed := set s | s in withX :: s - {x};
      assert family == without + withX;
      SubsetsBounded(u - {x}, without);
      SubsetsBounded(u - {x}, trimmed);
      TrimKeepsCount(withX, x);
      assert |family| <= |without| + |withX|;
    }
  }

  lemma SubsetCardinality<T>(a: set<T>, b: set<T>)
    requires a <= b
    ensures |a| <= |b|
  {
    assert |b - a| == |b| - |a|;
  }

  lemma {:induction false} TrimKeepsCount<T>(family: set<set<T>>, x: T)
    requires forall s <- family :: x in s
    ensures |set s | s in family :: s - {x}| == |family|
    decreases |family|
  {
    var trimmed := set s | s in family :: s - {x};
    if family != {} {
      var f :| f in family;
      var rest := family - {f};
      TrimKeepsCount(rest, x);
      var trimmedRest := set s | s in rest :: s - {x};
      forall s | s in rest
        ensures s - {x} != f - {x}
      {
        assert s == (s - {x}) + {x} && f == (f - {x}) + {x};
      }
      assert trimmed == trimmedRest + {f - {x}};
    }
  }

  lemma DistinctSubsetsBounded<T>(u: set<T>, sets: seq<set<T>>)
    requires forall i | 0 <= i < |sets| :: sets[i] <= u
    requires forall i, j | 0 <= i < j < |sets| :: sets[i] != sets[j]
    ensures |sets| <= Pow2(|u|)
  {
    DistinctCount(sets);
    SubsetsBounded(u, Elements(sets));
  }
}
