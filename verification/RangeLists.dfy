/** What the loops of the range set do to its list, as facts about normal lists. */
module RangeLists {
  import opened Ranges

  // ---------------------------------------------------------------- one range in

  /** Where an addition that touches range `i` ends up: everything up to `k` merged into one range. */
  ghost predicate Absorbing(rs: seq<Range>, addition: Range, i: nat, k: nat, bigger: Range, merged: Range) {
    && i < k <= |rs|
    && bigger == addition.Merge(rs[i])
    && merged.start == bigger.start
    && merged.end == (if bigger.end >= rs[k - 1].end then bigger.end else rs[k - 1].end)
    && (k > i + 1 ==> rs[k - 1].start <= bigger.end + 1)
  }

  /** The merged range is the addition together with the ranges it swallowed. */
  lemma AbsorbedHas(rs: seq<Range>, addition: Range, i: nat, k: nat, bigger: Range, merged: Range, x: int)
    requires Normal(rs) && addition.start <= addition.end
    requires Absorbing(rs, addition, i, k, bigger, merged)
    requires addition.Adjacent(rs[i]) || !addition.Disjoint(rs[i])
    ensures In(merged, x) <==> In(addition, x) || Has(rs[i..k], x)
  {
    var mid := rs[i..k];
    if Has(mid, x) {
      var r :| r in mid && In(r, x);
      var j :| i <= j < k && rs[j] == r;
    }
    if In(merged, x) && !In(addition, x) {
      var r := if In(rs[i], x) then rs[i] else rs[k - 1];
      assert mid[0] == rs[i] && mid[k - 1 - i] == rs[k - 1];
      assert r in mid && In(r, x);
    }
  }

  lemma AbsorbedNormal(rs: seq<Range>, addition: Range, i: nat, k: nat, bigger: Range, merged: Range)
    requires Normal(rs) && addition.start <= addition.end
    requires Absorbing(rs, addition, i, k, bigger, merged)
    requires forall j | 0 <= j < i :: rs[j].end + 1 < addition.start
    requires k < |rs| ==> !bigger.Adjacent(rs[k]) && bigger.Disjoint(rs[k])
    ensures Normal(Spliced(rs, i, k, merged))
  {
  }

  /** The result of an addition that touches range `i` and stops before range `k`. */
  lemma AbsorbedResult(rs: seq<Range>, addition: Range, i: nat, k: nat, bigger: Range, merged: Range)
    requires Normal(rs) && addition.start <= addition.end
    requires Absorbing(rs, addition, i, k, bigger, merged)
    requires addition.Adjacent(rs[i]) || !addition.Disjoint(rs[i])
    requires forall j | 0 <= j < i :: rs[j].end + 1 < addition.start
    requires k < |rs| ==> !bigger.Adjacent(rs[k]) && bigger.Disjoint(rs[k])
    ensures Normal(Spliced(rs, i, k, merged))
    ensures forall x :: Has(Spliced(rs, i, k, merged), x) <==> Has(rs, x) || In(addition, x)
  {
    AbsorbedNormal(rs, addition, i, k, bigger, merged);
    forall x
      ensures Has(Spliced(rs, i, k, merged), x) <==> Has(rs, x) || In(addition, x)
    {
      SplicedHas(rs, i, k, merged, x);
      AbsorbedHas(rs, addition, i, k, bigger, merged, x);
      SplitHas(rs, k, x);
      SplitHas(rs[..k], i, x);
      assert rs[..k][..i] == rs[..i] && rs[..k][i..] == rs[i..k];
    }
  }

  lemma SpliceFurther(rs: seq<Range>, i: nat, k: nat, m: Range, m': Range)
    requires i <= k < |rs|
    ensures var s := Spliced(rs, i, k, m);
            (s[..i + 1] + s[i + 2..])[i := m'] == Spliced(rs, i, k + 1, m')
  {
  }

  lemma InsertedResult(rs: seq<Range>, addition: Range, i: nat)
    requires Normal(rs) && addition.start <= addition.end && i <= |rs|
    requires forall j | 0 <= j < i :: rs[j].end + 1 < addition.start
    requires i < |rs| ==> addition.end + 1 < rs[i].start
    ensures Normal(Spliced(rs, i, i, addition))
    ensures forall x :: Has(Spliced(rs, i, i, addition), x) <==> Has(rs, x) || In(addition, x)
  {
    forall x
      ensures Has(Spliced(rs, i, i, addition), x) <==> Has(rs, x) || In(addition, x)
    {
      SplicedHas(rs, i, i, addition, x);
      SplitHas(rs, i, x);
    }
  }

  // ---------------------------------------------------------------- two lists side by side

  /** Nothing of `a[i]` is met when it ends before `b[j]` starts. */
  lemma DropBelow(a: seq<Range>, i: nat, b: seq<Range>, j: nat)
    requires Normal(a) && Normal(b) && i < |a| && j < |b|
    requires a[i].end < b[j].start
    ensures forall x :: Has(a[i..], x) && Has(b[j..], x) <==> Has(a[i + 1..], x) && Has(b[j..], x)
  {
    forall x | Has(a[i..], x) && Has(b[j..], x)
      ensures Has(a[i + 1..], x)
    {
      HeadOrTail(a, i, x);
      SuffixAbove(b, j, x);
    }
    forall x | Has(a[i + 1..], x)
      ensures Has(a[i..], x)
    {
      HeadOrTail(a, i, x);
    }
  }

  /** When `a[i]` does not outlast `b[j]`, all of `a[i]` that is met is the overlap of the two. */
  lemma DropOverlap(a: seq<Range>, i: nat, b: seq<Range>, j: nat)
    requires Normal(a) && Normal(b) && i < |a| && j < |b|
    requires !a[i].Disjoint(b[j]) && a[i].end <= b[j].end
    ensures forall x :: Has(a[i..], x) && Has(b[j..], x) <==>
                          In(a[i].Overlap(b[j]), x) || (Has(a[i + 1..], x) && Has(b[j..], x))
    ensures a[i].Overlap(b[j]) == b[j].Overlap(a[i])
  {
    forall x
      ensures Has(a[i..], x) && Has(b[j..], x) <==>
                In(a[i].Overlap(b[j]), x) || (Has(a[i + 1..], x) && Has(b[j..], x))
    {
      HeadOrTail(a, i, x);
      HeadOrTail(b, j, x);
      SuffixAbove(b, j + 1, x);
    }
  }

  lemma HeadOrTail(a: seq<Range>, i: nat, x: int)
    requires i < |a|
    ensures Has(a[i..], x) <==> In(a[i], x) || Has(a[i + 1..], x)
  {
    assert a[i..] == [a[i]] + a[i + 1..];
    HasConcat([a[i]], a[i + 1..], x);
    assert a[i] in [a[i]];
  }

  // ---------------------------------------------------------------- listing

  /** The integers from `a` to `b`, none if `b` lies below `a`. */
  function Interval(a: int, b: int): (s: seq<int>)
    ensures |s| == if b < a then 0 else b - a + 1
    ensures forall k | 0 <= k < |s| :: s[k] == a + k
  {
    seq(if b < a then 0 else b - a + 1, k => a + k)
  }

  lemma IntervalNext(a: int, b: int)
    requires a <= b
    ensures Interval(a, b) == Interval(a, b - 1) + [b]
  {
  }

  /** All elements in the order of the list. */
  function Listed(rs: seq<Range>): seq<int> {
    if rs == [] then [] else Listed(rs[..|rs| - 1]) + Interval(rs[|rs| - 1].start, rs[|rs| - 1].end)
  }

  lemma ListedNext(rs: seq<Range>, i: nat)
    requires i < |rs|
    ensures Listed(rs[..i + 1]) == Listed(rs[..i]) + Interval(rs[i].start, rs[i].end)
  {
    assert rs[..i + 1][..i] == rs[..i];
  }

  lemma {:induction false} ListedPrefix(rs: seq<Range>, k: nat)
    requires k <= |rs|
    ensures Listed(rs[..k]) <= Listed(rs)
    decreases |rs| - k
  {
    if k == |rs| {
      assert rs[..k] == rs;
    } else {
      ListedNext(rs, k);
      ListedPrefix(rs, k + 1);
    }
  }

  /** The listing is strictly increasing and lists exactly the set. */
  lemma {:induction false} ListedIsTheSet(rs: seq<Range>)
    requires Normal(rs)
    ensures forall i, j | 0 <= i < j < |Listed(rs)| :: Listed(rs)[i] < Listed(rs)[j]
    ensures forall x :: x in Listed(rs) <==> Has(rs, x)
  {
    if rs != [] {
      var n := |rs| - 1;
      var before, last := rs[..n], rs[n];
      ListedIsTheSet(before);
      assert rs[..|rs|] == rs;
      forall x
        ensures x in Listed(rs) <==> Has(rs, x)
      {
        SplitHas(rs, n, x);
        assert rs[n..] == [last];
        IntervalHas(last, x);
        assert Has([last], x) <==> In(last, x) by {
          assert last in [last];
        }
      }
      forall i, j | 0 <= i < j < |Listed(rs)|
        ensures Listed(rs)[i] < Listed(rs)[j]
      {
        if i < |Listed(before)| <= j {
          assert Listed(before)[i] in Listed(before);
          PrefixBelow(rs, n, Listed(before)[i]);
        }
      }
    }
  }

  lemma IntervalHas(r: Range, x: int)
    ensures x in Interval(r.start, r.end) <==> In(r, x)
  {
    if In(r, x) {
      assert Interval(r.start, r.end)[x - r.start] == x;
    }
  }
}
