/** Closed integer intervals; an interval whose end lies below its start is empty. */
module Ranges {

  datatype Range = Range(start: int, end: int) {

    predicate StartsBeforeDisjoint(other: Range) {
      start < other.start && end < other.start
    }

    predicate StartsAfterDisjoint(other: Range) {
      start > other.end
    }

    predicate StartsAfterNonDisjoint(other: Range) {
      start > other.start && start <= other.end
    }

    predicate Disjoint(other: Range) {
      StartsBeforeDisjoint(other) || StartsAfterDisjoint(other)
    }

    predicate Adjacent(other: Range) {
      start == other.end + 1 || end == other.start - 1
    }

    predicate ProperlyContains(other: Range) {
      other.start >= start && other.end <= end
    }

    function Merge(other: Range): Range {
      Range(if start <= other.start then start else other.start, if end >= other.end then end else other.end)
    }

    function Overlap(other: Range): Range {
      Range(if start >= other.start then start else other.start, if end <= other.end then end else other.end)
    }
  }

  /** The default range, empty by its bounds. */
  const INVALID := Range(-1, -2)

  predicate In(r: Range, x: int) {
    r.start <= x <= r.end
  }

  /** For intervals that are not empty, `Disjoint` says that they have no point in common. */
  lemma DisjointMeans(a: Range, b: Range)
    requires a.start <= a.end && b.start <= b.end
    ensures a.Disjoint(b) <==> forall x :: !(In(a, x) && In(b, x))
  {
    if !a.Disjoint(b) {
      var x := if a.start >= b.start then a.start else b.start;
      assert In(a, x) && In(b, x);
    }
  }

  /** Touching or overlapping intervals merge into exactly their union. */
  lemma MergeMeans(a: Range, b: Range, x: int)
    requires a.start <= a.end && b.start <= b.end
    requires a.Adjacent(b) || !a.Disjoint(b)
    ensures In(a.Merge(b), x) <==> In(a, x) || In(b, x)
  {
  }

  // ---------------------------------------------------------------- lists of ranges

  ghost predicate Has(rs: seq<Range>, x: int) {
    exists r :: r in rs && In(r, x)
  }

  /** Sorted, none empty, no two overlapping or adjacent. */
  ghost predicate Normal(rs: seq<Range>) {
    && (forall i | 0 <= i < |rs| :: rs[i].start <= rs[i].end)
    && forall i, j | 0 <= i < j < |rs| :: rs[i].end + 1 < rs[j].start
  }

  lemma HasConcat(a: seq<Range>, b: seq<Range>, x: int)
    ensures Has(a + b, x) <==> Has(a, x) || Has(b, x)
  {
    if Has(a, x) {
      var r :| r in a && In(r, x);
      assert r in a + b;
    }
    if Has(b, x) {
      var r :| r in b && In(r, x);
      assert r in a + b;
    }
  }

  /** The list with everything from `i` up to `k` replaced by the single range `m`. */
  function Spliced(rs: seq<Range>, i: nat, k: nat, m: Range): seq<Range>
    requires i <= k <= |rs|
  {
    rs[..i] + [m] + rs[k..]
  }

  lemma SplicedHas(rs: seq<Range>, i: nat, k: nat, m: Range, x: int)
    requires i <= k <= |rs|
    ensures Has(Spliced(rs, i, k, m), x) <==> Has(rs[..i], x) || In(m, x) || Has(rs[k..], x)
  {
    HasConcat(rs[..i] + [m], rs[k..], x);
    HasConcat(rs[..i], [m], x);
    assert m in [m];
  }

  lemma SplitHas(rs: seq<Range>, i: nat, x: int)
    requires i <= |rs|
    ensures Has(rs, x) <==> Has(rs[..i], x) || Has(rs[i..], x)
  {
    assert rs == rs[..i] + rs[i..];
    HasConcat(rs[..i], rs[i..], x);
  }

  /** The first range of a suffix holds its smallest points. */
  lemma SuffixAbove(rs: seq<Range>, i: nat, x: int)
    requires Normal(rs) && i <= |rs|
    ensures Has(rs[i..], x) ==> i < |rs| && x >= rs[i].start
  {
    if Has(rs[i..], x) {
      var r :| r in rs[i..] && In(r, x);
      var k :| i <= k < |rs| && rs[k] == r;
    }
  }

  lemma PrefixBelow(rs: seq<Range>, i: nat, x: int)
    requires Normal(rs) && i <= |rs|
    ensures Has(rs[..i], x) ==> i > 0 && x <= rs[i - 1].end
  {
    if Has(rs[..i], x) {
      var r :| r in rs[..i] && In(r, x);
      var k :| 0 <= k < i && rs[k] == r;
    }
  }

  /** One set, one normal list. */
  lemma {:induction false} NormalIsCanonical(a: seq<Range>, b: seq<Range>)
    requires Normal(a) && Normal(b)
    requires forall x :: Has(a, x) <==> Has(b, x)
    ensures a == b
    decreases |a|
  {
    if a != [] {
      HasFirst(a);
    }
    if b != [] {
      HasFirst(b);
    }
    if a != [] && b != [] {
      FirstRangeAgrees(a, b);
      FirstRangeAgrees(b, a);
      assert a[0] == b[0];
      forall x
        ensures Has(a[1..], x) <==> Has(b[1..], x)
      {
        TailHas(a, x);
        TailHas(b, x);
      }
      NormalIsCanonical(a[1..], b[1..]);
    }
  }

  lemma HasFirst(a: seq<Range>)
    requires Normal(a) && a != []
    ensures Has(a, a[0].start)
  {
    assert a[0] in a && In(a[0], a[0].start);
  }

  lemma TailHas(a: seq<Range>, x: int)
    requires Normal(a) && a != []
    ensures Has(a[1..], x) <==> Has(a, x) && x > a[0].end
  {
    SplitHas(a, 1, x);
    SuffixAbove(a, 1, x);
    PrefixBelow(a, 1, x);
  }

  lemma FirstRangeAgrees(a: seq<Range>, b: seq<Range>)
    requires Normal(a) && Normal(b) && a != [] && b != []
    requires forall x :: Has(a, x) <==> Has(b, x)
    ensures a[0].start >= b[0].start && (a[0].start == b[0].start ==> a[0].end <= b[0].end)
  {
    HasFirst(a);
    assert b[0..] == b;
    SuffixAbove(b, 0, a[0].start);
    if a[0].start == b[0].start && a[0].end > b[0].end {
      var x := b[0].end + 1;
      SuffixAbove(b, 1, x);
      assert a[0] in a && In(a[0], x) && Has(a, x);
      TailHas(b, x);
    }
  }
}
