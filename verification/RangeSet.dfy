/** Sets of integers kept as sorted lists of disjoint, non-adjacent ranges. */
module RangeSets {
  import opened Ranges
  import opened RangeLists
  import opened RangeCuts

  class RangeSet {
    var ranges: seq<Range>

    ghost predicate Valid()
      reads this
    {
      Normal(ranges)
    }

    constructor ()
      ensures Valid() && ranges == []
    {
      ranges := [];
    }

    constructor Copy(other: RangeSet)
      ensures ranges == other.ranges
    {
      ranges := other.ranges;
    }

    method Add(addition: Range)
      requires Valid()
      modifies this
      ensures Valid()
      ensures forall x :: Has(ranges, x) <==> Has(old(ranges), x) || In(addition, x)
    {
      if addition.end < addition.start {
        return;
      }
      ghost var rs := ranges;
      var i := 0;
      while i < |ranges|
        invariant 0 <= i <= |rs| && ranges == rs
        invariant forall j | 0 <= j < i :: rs[j].end + 1 < addition.start
      {
        var r := ranges[i];
        if addition == r {
          assert r in rs;
          return;
        }
        if addition.Adjacent(r) || !addition.Disjoint(r) {
          Absorb(i, addition);
          return;
        }
        if addition.StartsBeforeDisjoint(r) {
          ranges := ranges[..i] + [addition] + ranges[i..];
          InsertedResult(rs, addition, i);
          return;
        }
        i := i + 1;
      }
      ranges := ranges + [addition];
      assert ranges == Spliced(rs, i, i, addition);
      InsertedResult(rs, addition, i);
    }

    /** Merges the addition into range `i` and then into the ranges that follow. The loop compares with `bigger`,
        which it never updates; that normal ranges lie apart makes up for it. */
    method Absorb(i: nat, addition: Range)
      requires Valid() && i < |ranges| && addition.start <= addition.end
      requires addition.Adjacent(ranges[i]) || !addition.Disjoint(ranges[i])
      requires forall j | 0 <= j < i :: ranges[j].end + 1 < addition.start
      modifies this
      ensures Valid()
      ensures forall x :: Has(ranges, x) <==> Has(old(ranges), x) || In(addition, x)
    {
      var bigger := addition.Merge(ranges[i]);
      ranges := ranges[i := bigger];
      ghost var rs, k, merged := old(ranges), i + 1, bigger;
      assert ranges == Spliced(rs, i, k, merged);
      while i + 1 != |ranges|
        invariant Absorbing(rs, addition, i, k, bigger, merged)
        invariant ranges == Spliced(rs, i, k, merged)
        decreases |rs| - k
      {
        var next := ranges[i + 1];
        assert next == rs[k];
        if !bigger.Adjacent(next) && bigger.Disjoint(next) {
          break;
        }
        SpliceFurther(rs, i, k, merged, bigger.Merge(next));
        ranges := ranges[..i + 1] + ranges[i + 2..];
        ranges := ranges[i := bigger.Merge(next)];
        k, merged := k + 1, bigger.Merge(next);
      }
      AbsorbedResult(rs, addition, i, k, bigger, merged);
    }

    method AddAll(other: RangeSet)
      requires Valid() && other.Valid()
      modifies this
      ensures Valid()
      ensures forall x :: Has(ranges, x) <==> Has(old(ranges), x) || Has(old(other.ranges), x)
    {
      var source := other.ranges;
      for i := 0 to |source|
        invariant Valid()
        invariant forall x :: Has(ranges, x) <==> Has(old(ranges), x) || Has(source[..i], x)
      {
        Add(source[i]);
        forall x
          ensures Has(source[..i + 1], x) <==> Has(source[..i], x) || In(source[i], x)
        {
          assert source[..i + 1] == source[..i] + [source[i]];
          HasConcat(source[..i], [source[i]], x);
          assert source[i] in [source[i]];
        }
      }
      assert source[..|source|] == source;
    }

    method Or(a: RangeSet) returns (result: RangeSet)
      requires Valid() && a.Valid()
      ensures fresh(result) && result.Valid()
      ensures forall x :: Has(result.ranges, x) <==> Has(ranges, x) || Has(a.ranges, x)
    {
      result := new RangeSet();
      result.AddAll(this);
      result.AddAll(a);
    }

    static method OrOf(sets: seq<RangeSet>) returns (result: RangeSet)
      requires forall s <- sets :: s.Valid()
      ensures fresh(result) && result.Valid()
      ensures forall x :: Has(result.ranges, x) <==> exists s :: s in sets && Has(s.ranges, x)
    {
      result := new RangeSet();
      for i := 0 to |sets|
        invariant fresh(result) && result.Valid()
        invariant forall s <- sets :: s.Valid()
        invariant forall x :: Has(result.ranges, x) <==> exists s :: s in sets[..i] && Has(s.ranges, x)
      {
        result.AddAll(sets[i]);
        assert sets[..i + 1] == sets[..i] + [sets[i]];
      }
      assert sets[..|sets|] == sets;
    }

    /** Two indices move through the lists; at least one of them on every turn. */
    method And(other: RangeSet) returns (intersection: RangeSet)
      requires Valid() && other.Valid()
      ensures fresh(intersection) && intersection.Valid()
      ensures forall x :: Has(intersection.ranges, x) <==> Has(ranges, x) && Has(other.ranges, x)
    {
      intersection := new RangeSet();
      var i, j := 0, 0;
      while i < |ranges| && j < |other.ranges|
        invariant fresh(intersection) && intersection.Valid()
        invariant 0 <= i <= |ranges| && 0 <= j <= |other.ranges|
        invariant forall x :: Has(ranges, x) && Has(other.ranges, x) <==>
                                Has(intersection.ranges, x) || (Has(ranges[i..], x) && Has(other.ranges[j..], x))
        decreases |ranges| - i + |other.ranges| - j
      {
        var mine, theirs := ranges[i], other.ranges[j];
        if mine.StartsBeforeDisjoint(theirs) {
          DropBelow(ranges, i, other.ranges, j);
          i := i + 1;
        } else if theirs.StartsBeforeDisjoint(mine) {
          DropBelow(other.ranges, j, ranges, i);
          j := j + 1;
        } else if mine.ProperlyContains(theirs) {
          DropOverlap(other.ranges, j, ranges, i);
          intersection.Add(mine.Overlap(theirs));
          j := j + 1;
        } else if theirs.ProperlyContains(mine) {
          DropOverlap(ranges, i, other.ranges, j);
          intersection.Add(mine.Overlap(theirs));
          i := i + 1;
        } else if !mine.Disjoint(theirs) {
          intersection.Add(mine.Overlap(theirs));
          if mine.StartsAfterNonDisjoint(theirs) {
            DropOverlap(other.ranges, j, ranges, i);
            j := j + 1;
          } else if theirs.StartsAfterNonDisjoint(mine) {
            DropOverlap(ranges, i, other.ranges, j);
            i := i + 1;
          }
        }
      }
    }

    /** The difference, on a copy worked on in place. -1 marks "no piece", so a piece that starts below zero is lost:
        the result is the difference exactly when no right range cuts such a piece off a left range. */
    static method Subtract(left: RangeSet, right: RangeSet) returns (result: RangeSet)
      requires left.Valid() && right.Valid()
      ensures fresh(result) && result.Valid()
      ensures forall x :: Has(result.ranges, x) ==> Has(left.ranges, x) && !Has(right.ranges, x)
      ensures (forall x :: Has(result.ranges, x) <==> Has(left.ranges, x) && !Has(right.ranges, x))
              <==> !CutsNegative(left.ranges, right.ranges)
    {
      if left.ranges == [] {
        result := new RangeSet();
        return;
      }
      if right.ranges == [] {
        result := new RangeSet.Copy(left);
        return;
      }
      result := new RangeSet.Copy(left);
      ghost var l, r := left.ranges, right.ranges;
      ghost var lost: set<int> := {};
      var resultI, rightI := 0, 0;
      assert result.ranges[..0] == [];
      while resultI < |result.ranges| && rightI < |right.ranges|
        invariant fresh(result) && left.ranges == l && right.ranges == r
        invariant 0 <= resultI && 0 <= rightI
        invariant Subtracting(l, r, result.ranges, resultI, rightI, lost)
        decreases |right.ranges| - rightI + |result.ranges| - resultI
      {
        var resultInterval, rightInterval := result.ranges[resultI], right.ranges[rightI];
        if rightInterval.end < resultInterval.start {
          SkipRight(l, r, result.ranges, resultI, rightI, lost);
          rightI := rightI + 1;
          continue;
        }
        if rightInterval.start > resultInterval.end {
          SkipResult(l, r, result.ranges, resultI, rightI, lost);
          resultI := resultI + 1;
          continue;
        }
        var nextResult, nextRight, nowLost := result.CutCurrent(resultI, rightI, rightInterval, l, r, lost);
        resultI, rightI, lost := nextResult, nextRight, nowLost;
      }
      Subtracted(l, r, result.ranges, resultI, rightI, lost);
    }

    /** Takes a right range out of the overlapping range at `resultI`: splits it, shrinks it or erases it. */
    method CutCurrent(resultI: nat, rightI: nat, rightInterval: Range,
                      ghost l: seq<Range>, ghost r: seq<Range>, ghost lost: set<int>)
      returns (nextResult: nat, nextRight: nat, ghost nowLost: set<int>)
      requires Subtracting(l, r, ranges, resultI, rightI, lost)
      requires resultI < |ranges| && rightI < |r| && r[rightI] == rightInterval
      requires !(rightInterval.end < ranges[resultI].start) && !(rightInterval.start > ranges[resultI].end)
      modifies this`ranges
      ensures Subtracting(l, r, ranges, nextResult, nextRight, nowLost)
      ensures |r| - nextRight + |ranges| - nextResult < |r| - rightI + |old(ranges)| - resultI
    {
      ghost var rs := ranges;
      var resultInterval := ranges[resultI];
      EditsAreCuts(rs, resultI, rightInterval);
      var beforeCurrent, afterCurrent := INVALID, INVALID;
      if rightInterval.start > resultInterval.start {
        beforeCurrent := Range(resultInterval.start, rightInterval.start - 1);
      }
      if rightInterval.end < resultInterval.end {
        afterCurrent := Range(rightInterval.end + 1, resultInterval.end);
      }
      nextResult, nextRight := resultI, rightI;
      if beforeCurrent.start > -1 {
        if afterCurrent.start > -1 {
          ranges := ranges[resultI := beforeCurrent];
          ranges := ranges[..resultI + 1] + [afterCurrent] + ranges[resultI + 1..];
          nowLost := Cut(l, r, rs, resultI, rightI, lost, true, true);
          nextResult, nextRight := resultI + 1, rightI + 1;
        } else {
          ranges := ranges[resultI := beforeCurrent];
          nowLost := Cut(l, r, rs, resultI, rightI, lost, true, false);
          nextResult := resultI + 1;
        }
      } else {
        if afterCurrent.start > -1 {
          ranges := ranges[resultI := afterCurrent];
          nowLost := Cut(l, r, rs, resultI, rightI, lost, false, true);
          nextRight := rightI + 1;
        } else {
          ranges := ranges[..resultI] + ranges[resultI + 1..];
          nowLost := Cut(l, r, rs, resultI, rightI, lost, false, false);
        }
      }
    }

    /** Membership by binary search: the standard lower bound, for the order "ends before the other starts". */
    method Contains(el: int) returns (found: bool)
      requires Valid()
      ensures found <==> Has(ranges, el)
    {
      if ranges == [] || el < ranges[0].start || el > ranges[|ranges| - 1].end {
        SuffixAbove(ranges, 0, el);
        PrefixBelow(ranges, |ranges|, el);
        assert ranges[0..] == ranges && ranges[..|ranges|] == ranges;
        return false;
      }
      var first, count := 0, |ranges|;
      while count > 0
        invariant 0 <= first && 0 <= count && first + count <= |ranges|
        invariant forall i | 0 <= i < first :: ranges[i].end < el
        invariant forall i | first + count <= i < |ranges| :: ranges[i].end >= el
      {
        var step := count / 2;
        if ranges[first + step].end < el {
          first, count := first + step + 1, count - (step + 1);
        } else {
          count := step;
        }
      }
      found := first != |ranges| && !(el < ranges[first].start);
      SplitHas(ranges, first, el);
      PrefixBelow(ranges, first, el);
      SuffixAbove(ranges, first, el);
      if found {
        assert ranges[first] in ranges && In(ranges[first], el);
      }
    }

    /** Equality compares the lists, and that is equality of the sets. */
    method Equals(other: RangeSet) returns (equal: bool)
      requires Valid() && other.Valid()
      ensures equal <==> forall x :: Has(ranges, x) <==> Has(other.ranges, x)
    {
      if ranges == [] && other.ranges == [] {
        return true;
      }
      equal := |ranges| == |other.ranges|;
      var i := 0;
      while equal && i < |ranges|
        invariant 0 <= i <= |ranges|
        invariant equal ==> |ranges| == |other.ranges| && ranges[..i] == other.ranges[..i]
        invariant !equal ==> ranges != other.ranges
        decreases |ranges| - i, if equal then 1 else 0
      {
        equal := ranges[i] == other.ranges[i];
        i := if equal then i + 1 else i;
      }
      if equal {
        assert ranges[..i] == ranges && other.ranges[..i] == other.ranges;
      } else if forall x :: Has(ranges, x) <==> Has(other.ranges, x) {
        NormalIsCanonical(ranges, other.ranges);
      }
    }

    /** Takes one element out, splitting the range around it by a call of `Add`. */
    method Remove(el: int)
      requires Valid()
      modifies this
      ensures Valid()
      ensures forall x :: Has(ranges, x) <==> Has(old(ranges), x) && x != el
    {
      ghost var rs := ranges;
      var i := 0;
      while i < |ranges|
        invariant 0 <= i <= |ranges| && ranges == rs
        invariant forall k | 0 <= k < i :: rs[k].end < el
      {
        var a, b := ranges[i].start, ranges[i].end;
        if el < a {
          break;
        }
        if el == a && el == b {
          ranges := ranges[..i] + ranges[i + 1..];
          RemovedFrom(rs, i, el);
          return;
        }
        if el == a {
          ranges := ranges[i := ranges[i].(start := a + 1)];
          RemovedFrom(rs, i, el);
          return;
        }
        if el == b {
          ranges := ranges[i := ranges[i].(end := b - 1)];
          RemovedFrom(rs, i, el);
          return;
        }
        if el > a && el < b {
          ranges := ranges[i := ranges[i].(end := el - 1)];
          SplitAround(rs, i, el);
          Add(Range(el + 1, b));
          return;
        }
        i := i + 1;
      }
      BetweenRights(rs, i, el);
    }

    method Size() returns (result: nat)
      requires Valid()
      ensures result == |Listed(ranges)|
    {
      result := 0;
      for i := 0 to |ranges|
        invariant result == |Listed(ranges[..i])|
      {
        result := result + (ranges[i].end - ranges[i].start + 1);
        ListedNext(ranges, i);
      }
      assert ranges[..|ranges|] == ranges;
    }

    method ToList() returns (result: seq<int>)
      requires Valid()
      ensures result == Listed(ranges)
    {
      result := [];
      for i := 0 to |ranges|
        invariant result == Listed(ranges[..i])
      {
        var a, b := ranges[i].start, ranges[i].end;
        ghost var before := result;
        for v := a to b + 1
          invariant result == before + Interval(a, v - 1)
        {
          IntervalNext(a, v);
          result := result + [v];
        }
        ListedNext(ranges, i);
      }
      assert ranges[..|ranges|] == ranges;
    }

    /** The `i`-th element counting from zero, or -1 when there are not that many. */
    method Get(i: nat) returns (el: int)
      requires Valid()
      ensures el == if i < |Listed(ranges)| then Listed(ranges)[i] else -1
    {
      var index := 0;
      for k := 0 to |ranges|
        invariant index == |Listed(ranges[..k])| && index <= i
      {
        var a, b := ranges[k].start, ranges[k].end;
        ListedNext(ranges, k);
        for v := a to b + 1
          invariant index == |Listed(ranges[..k])| + (v - a) && index <= i
        {
          if index == i {
            ListedPrefix(ranges, k + 1);
            return v;
          }
          index := index + 1;
        }
      }
      assert ranges[..|ranges|] == ranges;
      return -1;
    }

    method GetMinElement() returns (el: int)
      requires Valid()
      ensures ranges == [] ==> el == -1
      ensures ranges != [] ==> Has(ranges, el) && forall x | Has(ranges, x) :: el <= x
    {
      if ranges == [] {
        return -1;
      }
      HasFirst(ranges);
      assert ranges[0..] == ranges;
      forall x | Has(ranges, x)
        ensures ranges[0].start <= x
      {
        SuffixAbove(ranges, 0, x);
      }
      return ranges[0].start;
    }

    method GetMaxElement() returns (el: int)
      requires Valid()
      ensures ranges == [] ==> el == -1
      ensures ranges != [] ==> Has(ranges, el) && forall x | Has(ranges, x) :: x <= el
    {
      if ranges == [] {
        return -1;
      }
      el := ranges[|ranges| - 1].end;
      assert ranges[|ranges| - 1] in ranges && In(ranges[|ranges| - 1], el);
      assert ranges[..|ranges|] == ranges;
      forall x | Has(ranges, x)
        ensures x <= el
      {
        PrefixBelow(ranges, |ranges|, x);
      }
    }

    /** What `vocabulary` has and this set has not. */
    method Complement(vocabulary: RangeSet) returns (result: RangeSet)
      requires Valid() && vocabulary.Valid()
      ensures fresh(result) && result.Valid()
      ensures (forall x :: Has(result.ranges, x) <==> Has(vocabulary.ranges, x) && !Has(ranges, x))
              <==> !CutsNegative(vocabulary.ranges, ranges)
    {
      result := Subtract(vocabulary, this);
    }
  }
}
