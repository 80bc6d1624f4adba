/** Cutting ranges out of a normal list: subtraction and the removal of one element. */
module RangeCuts {
  import opened Ranges
  import opened RangeLists

  // ---------------------------------------------------------------- subtraction

  /** Some range of `right` meets a range of `left` that also has a negative point outside `right`. */
  ghost predicate CutsNegative(left: seq<Range>, right: seq<Range>) {
    exists l, x, y :: l in left && In(l, x) && x < 0 && !Has(right, x) && In(l, y) && Has(right, y)
  }

  /** Nothing is cut off below zero when the left set has no negative element. */
  lemma NonNegativeNotCut(left: seq<Range>, right: seq<Range>)
    requires forall l <- left :: l.start >= 0
    ensures !CutsNegative(left, right)
  {
  }

  /** The smallest kind of failure: -5..5 minus 0 loses -5..-1. */
  lemma NegativePieceCut()
    ensures CutsNegative([Range(-5, 5)], [Range(0, 0)])
  {
    var l, r := Range(-5, 5), Range(0, 0);
    assert l in [l] && In(l, -5) && In(l, 0);
    assert r in [r] && In(r, 0) && Has([r], 0);
  }

  /** A point of the difference that has gone missing, with the range it came from. */
  ghost predicate Lost(left: seq<Range>, right: seq<Range>, rs: seq<Range>, x: int) {
    Has(left, x) && !Has(right, x) && !Has(rs, x) && CutsNegative(left, right)
  }

  /** The list `rs` during the subtraction, with indices `i` into it and `j` into `right`. */
  ghost predicate Subtracting(left: seq<Range>, right: seq<Range>, rs: seq<Range>, i: nat, j: nat, lost: set<int>) {
    && Normal(left) && Normal(right) && Normal(rs)
    && i <= |rs| && j <= |right|
    && (forall x :: Has(rs, x) ==> Has(left, x))
    && (forall x :: Has(rs[..i], x) ==> !Has(right, x))
    && (0 < i && j < |right| ==> rs[i - 1].end < right[j].start)
    && (i < |rs| && 0 < j ==> right[j - 1].end < rs[i].start)
    && (forall x <- lost :: Lost(left, right, rs, x))
    && (lost == {} ==> forall x :: Has(left, x) && !Has(right, x) ==> Has(rs, x))
    && (lost == {} ==> forall r <- rs :: r.start < 0 ==> r in left)
  }

  lemma SkipRight(left: seq<Range>, right: seq<Range>, rs: seq<Range>, i: nat, j: nat, lost: set<int>)
    requires Subtracting(left, right, rs, i, j, lost) && i < |rs| && j < |right|
    requires right[j].end < rs[i].start
    ensures Subtracting(left, right, rs, i, j + 1, lost)
  {
  }

  lemma SkipResult(left: seq<Range>, right: seq<Range>, rs: seq<Range>, i: nat, j: nat, lost: set<int>)
    requires Subtracting(left, right, rs, i, j, lost) && i < |rs| && j < |right|
    requires right[j].start > rs[i].end
    ensures Subtracting(left, right, rs, i + 1, j, lost)
  {
    forall x | Has(rs[..i + 1], x)
      ensures !Has(right, x)
    {
      assert rs[..i + 1] == rs[..i] + [rs[i]];
      HasConcat(rs[..i], [rs[i]], x);
      if In(rs[i], x) {
        BetweenRights(right, j, x);
      }
    }
  }

  /** A point above every range before `j` and below range `j` is in none of them. */
  lemma BetweenRights(right: seq<Range>, j: nat, x: int)
    requires Normal(right) && j <= |right|
    requires j > 0 ==> right[j - 1].end < x
    requires j < |right| ==> x < right[j].start
    ensures !Has(right, x)
  {
    SplitHas(right, j, x);
    PrefixBelow(right, j, x);
    SuffixAbove(right, j, x);
  }

  /** What is kept of `c` when `q` is cut out of it: the piece before, the piece after. */
  function Pieces(c: Range, q: Range, keepBefore: bool, keepAfter: bool): seq<Range> {
    (if keepBefore then [Range(c.start, q.start - 1)] else []) + (if keepAfter then [Range(q.end + 1, c.end)] else [])
  }

  function CutList(rs: seq<Range>, i: nat, q: Range, keepBefore: bool, keepAfter: bool): seq<Range>
    requires i < |rs|
  {
    rs[..i] + Pieces(rs[i], q, keepBefore, keepAfter) + rs[i + 1..]
  }

  /** The four in-place edits of the subtraction. */
  lemma EditsAreCuts(rs: seq<Range>, i: nat, q: Range)
    requires i < |rs|
    ensures var b, a := Range(rs[i].start, q.start - 1), Range(q.end + 1, rs[i].end);
            && rs[i := b][..i + 1] + [a] + rs[i := b][i + 1..] == CutList(rs, i, q, true, true)
            && rs[i := b] == CutList(rs, i, q, true, false)
            && rs[i := a] == CutList(rs, i, q, false, true)
            && rs[..i] + rs[i + 1..] == CutList(rs, i, q, false, false)
  {
  }

  lemma PiecesHas(c: Range, q: Range, keepBefore: bool, keepAfter: bool, x: int)
    ensures Has(Pieces(c, q, keepBefore, keepAfter), x)
       <==> (keepBefore && c.start <= x < q.start) || (keepAfter && q.end < x <= c.end)
  {
    var b, a := Range(c.start, q.start - 1), Range(q.end + 1, c.end);
    assert keepBefore ==> b in Pieces(c, q, keepBefore, keepAfter);
    assert keepAfter ==> a in Pieces(c, q, keepBefore, keepAfter);
    assert In(b, x) <==> c.start <= x < q.start;
    assert In(a, x) <==> q.end < x <= c.end;
  }

  lemma CutListHas(rs: seq<Range>, i: nat, q: Range, keepBefore: bool, keepAfter: bool, x: int)
    requires i < |rs|
    ensures Has(CutList(rs, i, q, keepBefore, keepAfter), x)
       <==> Has(rs[..i], x) || Has(Pieces(rs[i], q, keepBefore, keepAfter), x) || Has(rs[i + 1..], x)
    ensures Has(rs, x) <==> Has(rs[..i], x) || In(rs[i], x) || Has(rs[i + 1..], x)
  {
    var p := Pieces(rs[i], q, keepBefore, keepAfter);
    HasConcat(rs[..i] + p, rs[i + 1..], x);
    HasConcat(rs[..i], p, x);
    SplitHas(rs, i, x);
    HeadOrTail(rs, i, x);
  }

  /** The pieces `q` leaves of range `i`, and whether they are kept: a piece that starts below zero is not. */
  ghost predicate Cutting(rs: seq<Range>, i: nat, q: Range, keepBefore: bool, keepAfter: bool) {
    && i < |rs| && !q.Disjoint(rs[i])
    && (keepBefore <==> q.start > rs[i].start && rs[i].start > -1)
    && (keepAfter <==> q.end < rs[i].end && q.end + 1 > -1)
  }

  lemma CutNormal(rs: seq<Range>, i: nat, q: Range, keepBefore: bool, keepAfter: bool)
    requires Normal(rs) && q.start <= q.end
    requires Cutting(rs, i, q, keepBefore, keepAfter)
    ensures Normal(CutList(rs, i, q, keepBefore, keepAfter))
  {
  }

  /** The common part of the four cases: the list is cut, and the next indices are past the pieces. */
  lemma Cut(left: seq<Range>, right: seq<Range>, rs: seq<Range>, i: nat, j: nat, lost: set<int>,
            keepBefore: bool, keepAfter: bool) returns (lost': set<int>)
    requires Subtracting(left, right, rs, i, j, lost) && i < |rs| && j < |right|
    requires Cutting(rs, i, right[j], keepBefore, keepAfter)
    ensures Subtracting(left, right, CutList(rs, i, right[j], keepBefore, keepAfter),
                        if keepBefore then i + 1 else i, if keepAfter then j + 1 else j, lost')
  {
    var c, q := rs[i], right[j];
    var cut := CutList(rs, i, q, keepBefore, keepAfter);
    CutNormal(rs, i, q, keepBefore, keepAfter);
    lost' := lost + CutLoss(left, right, rs, i, j, lost, keepBefore, keepAfter);
    CutPrefix(left, right, rs, i, j, lost, keepBefore, keepAfter);
    CutShrinks(left, right, rs, i, j, lost, keepBefore, keepAfter);
    CutLoses(left, right, rs, i, j, lost, keepBefore, keepAfter);
    if lost' == {} {
      CutKeepsRest(left, right, rs, i, j, lost, keepBefore, keepAfter);
    }
  }

  lemma CutPrefix(left: seq<Range>, right: seq<Range>, rs: seq<Range>, i: nat, j: nat, lost: set<int>,
                  keepBefore: bool, keepAfter: bool)
    requires Subtracting(left, right, rs, i, j, lost) && i < |rs| && j < |right|
    requires Cutting(rs, i, right[j], keepBefore, keepAfter)
    ensures var cut, n := CutList(rs, i, right[j], keepBefore, keepAfter), if keepBefore then i + 1 else i;
            n <= |cut| && forall x :: Has(cut[..n], x) ==> !Has(right, x)
  {
    var c, q := rs[i], right[j];
    var cut := CutList(rs, i, q, keepBefore, keepAfter);
    if keepBefore {
      var b := Range(c.start, q.start - 1);
      assert cut[..i + 1] == rs[..i] + [b];
      forall x | Has(cut[..i + 1], x)
        ensures !Has(right, x)
      {
        HasConcat(rs[..i], [b], x);
        if In(b, x) {
          BetweenRights(right, j, x);
        }
      }
    } else {
      assert cut[..i] == rs[..i];
    }
  }

  lemma CutShrinks(left: seq<Range>, right: seq<Range>, rs: seq<Range>, i: nat, j: nat, lost: set<int>,
                   keepBefore: bool, keepAfter: bool)
    requires Subtracting(left, right, rs, i, j, lost) && i < |rs| && j < |right|
    requires Cutting(rs, i, right[j], keepBefore, keepAfter)
    ensures forall x :: Has(CutList(rs, i, right[j], keepBefore, keepAfter), x) ==> Has(rs, x)
  {
    forall x | Has(CutList(rs, i, right[j], keepBefore, keepAfter), x)
      ensures Has(rs, x)
    {
      CutListHas(rs, i, right[j], keepBefore, keepAfter, x);
      PiecesHas(rs[i], right[j], keepBefore, keepAfter, x);
    }
  }

  /** A witness for what this cut drops, if it drops anything. */
  ghost function CutLoss(left: seq<Range>, right: seq<Range>, rs: seq<Range>, i: nat, j: nat, lost: set<int>,
                         keepBefore: bool, keepAfter: bool): set<int>
    requires i < |rs| && j < |right|
  {
    var c, q := rs[i], right[j];
    if lost != {} then {}
    else if !keepBefore && q.start > c.start then {c.start}
    else if !keepAfter && q.end < c.end then {q.end + 1}
    else {}
  }

  lemma CutLoses(left: seq<Range>, right: seq<Range>, rs: seq<Range>, i: nat, j: nat, lost: set<int>,
                 keepBefore: bool, keepAfter: bool)
    requires Subtracting(left, right, rs, i, j, lost) && i < |rs| && j < |right|
    requires Cutting(rs, i, right[j], keepBefore, keepAfter)
    ensures forall x <- CutLoss(left, right, rs, i, j, lost, keepBefore, keepAfter) ::
              Lost(left, right, CutList(rs, i, right[j], keepBefore, keepAfter), x)
  {
    var c, q := rs[i], right[j];
    forall x | x in CutLoss(left, right, rs, i, j, lost, keepBefore, keepAfter)
      ensures Lost(left, right, CutList(rs, i, q, keepBefore, keepAfter), x)
    {
      CutListHas(rs, i, q, keepBefore, keepAfter, x);
      PiecesHas(c, q, keepBefore, keepAfter, x);
      BetweenRights(right, if x < q.start then j else j + 1, x);
      var y := if q.start >= c.start then q.start else c.start;
      assert c in left && In(c, x) && In(c, y);
      assert q in right && In(q, y) && Has(right, y);
      OnlyIn(rs, i, x);
    }
  }

  /** A point of one range is in none of the others. */
  lemma OnlyIn(rs: seq<Range>, i: nat, x: int)
    requires Normal(rs) && i < |rs| && In(rs[i], x)
    ensures !Has(rs[..i], x) && !Has(rs[i + 1..], x)
  {
    PrefixBelow(rs, i, x);
    SuffixAbove(rs, i + 1, x);
  }

  lemma CutKeepsRest(left: seq<Range>, right: seq<Range>, rs: seq<Range>, i: nat, j: nat, lost: set<int>,
                     keepBefore: bool, keepAfter: bool)
    requires Subtracting(left, right, rs, i, j, lost) && i < |rs| && j < |right|
    requires Cutting(rs, i, right[j], keepBefore, keepAfter)
    requires lost == {} && CutLoss(left, right, rs, i, j, lost, keepBefore, keepAfter) == {}
    ensures var cut := CutList(rs, i, right[j], keepBefore, keepAfter);
            && (forall x :: Has(left, x) && !Has(right, x) ==> Has(cut, x))
            && (forall r <- cut :: r.start < 0 ==> r in left)
  {
    var c, q := rs[i], right[j];
    assert keepBefore <==> q.start > c.start;
    assert keepAfter <==> q.end < c.end;
    forall x | Has(left, x) && !Has(right, x)
      ensures Has(CutList(rs, i, q, keepBefore, keepAfter), x)
    {
      assert q in right;
      CutListHas(rs, i, q, keepBefore, keepAfter, x);
      PiecesHas(c, q, keepBefore, keepAfter, x);
    }
    forall r | r in CutList(rs, i, q, keepBefore, keepAfter) && r.start < 0
      ensures r in left
    {
      assert r in rs[..i] || r in Pieces(c, q, keepBefore, keepAfter) || r in rs[i + 1..];
    }
  }

  /** When either list is used up, the result is the difference exactly if nothing was lost. */
  lemma Subtracted(left: seq<Range>, right: seq<Range>, rs: seq<Range>, i: nat, j: nat, lost: set<int>)
    requires Subtracting(left, right, rs, i, j, lost)
    requires right != [] && (i == |rs| || j == |right|)
    ensures forall x :: Has(rs, x) ==> Has(left, x) && !Has(right, x)
    ensures (forall x :: Has(rs, x) <==> Has(left, x) && !Has(right, x)) <==> !CutsNegative(left, right)
  {
    forall x | Has(rs, x)
      ensures !Has(right, x)
    {
      SplitHas(rs, i, x);
      if Has(rs[i..], x) && i < |rs| {
        SuffixAbove(rs, i, x);
        BetweenRights(right, |right|, x);
      }
    }
    if x :| x in lost {
      assert Lost(left, right, rs, x);
    } else {
      assert forall x :: x !in lost;
      assert lost == {};
      NothingCut(left, right, rs);
    }
  }

  lemma NothingCut(left: seq<Range>, right: seq<Range>, rs: seq<Range>)
    requires Normal(left) && Normal(rs)
    requires forall x :: Has(rs, x) <==> Has(left, x) && !Has(right, x)
    requires forall r <- rs :: r.start < 0 ==> r in left
    ensures !CutsNegative(left, right)
  {
    forall l, x, y | l in left && In(l, x) && x < 0 && !Has(right, x) && In(l, y)
      ensures !Has(right, y)
    {
      assert Has(left, x);
      var r :| r in rs && In(r, x);
      SameRange(left, l, r, x);
      assert Has(rs, y);
    }
  }

  lemma SameRange(rs: seq<Range>, a: Range, b: Range, x: int)
    requires Normal(rs) && a in rs && b in rs && In(a, x) && In(b, x)
    ensures a == b
  {
    var i :| 0 <= i < |rs| && rs[i] == a;
    var j :| 0 <= j < |rs| && rs[j] == b;
  }

  // ---------------------------------------------------------------- one element out

  lemma CutOut(rs: seq<Range>, i: nat, el: int, keepBefore: bool, keepAfter: bool)
    requires Normal(rs) && i < |rs| && In(rs[i], el)
    requires keepBefore == (rs[i].start < el) && keepAfter == (el < rs[i].end)
    ensures Normal(CutList(rs, i, Range(el, el), keepBefore, keepAfter))
    ensures forall x :: Has(CutList(rs, i, Range(el, el), keepBefore, keepAfter), x) <==> Has(rs, x) && x != el
  {
    var q := Range(el, el);
    forall x
      ensures Has(CutList(rs, i, q, keepBefore, keepAfter), x) <==> Has(rs, x) && x != el
    {
      CutListHas(rs, i, q, keepBefore, keepAfter, x);
      PiecesHas(rs[i], q, keepBefore, keepAfter, x);
      OnlyIn(rs, i, el);
    }
  }

  /** Range `i` without its end point `el`: gone, or one shorter on that side. */
  function Trimmed(rs: seq<Range>, i: nat, el: int): seq<Range>
    requires i < |rs| && (el == rs[i].start || el == rs[i].end)
  {
    if rs[i].start == rs[i].end then rs[..i] + rs[i + 1..]
    else if el == rs[i].start then rs[i := rs[i].(start := rs[i].start + 1)]
    else rs[i := rs[i].(end := rs[i].end - 1)]
  }

  lemma RemovedFrom(rs: seq<Range>, i: nat, el: int)
    requires Normal(rs) && i < |rs| && (el == rs[i].start || el == rs[i].end)
    ensures Normal(Trimmed(rs, i, el))
    ensures forall x :: Has(Trimmed(rs, i, el), x) <==> Has(rs, x) && x != el
  {
    EditsAreCuts(rs, i, Range(el, el));
    if rs[i].start == rs[i].end {
      CutOut(rs, i, el, false, false);
    } else if el == rs[i].start {
      CutOut(rs, i, el, false, true);
    } else {
      CutOut(rs, i, el, true, false);
    }
  }

  /** Shortening the range to the part before `el` drops `el` and the part after it, and nothing else. */
  lemma SplitAround(rs: seq<Range>, i: nat, el: int)
    requires Normal(rs) && i < |rs| && rs[i].start < el < rs[i].end
    ensures Normal(rs[i := rs[i].(end := el - 1)])
    ensures forall x :: Has(rs[i := rs[i].(end := el - 1)], x) || In(Range(el + 1, rs[i].end), x)
                        <==> Has(rs, x) && x != el
  {
    var q := Range(el, el);
    EditsAreCuts(rs, i, q);
    forall x
      ensures Has(rs[i := rs[i].(end := el - 1)], x) || In(Range(el + 1, rs[i].end), x) <==> Has(rs, x) && x != el
    {
      CutListHas(rs, i, q, true, false, x);
      PiecesHas(rs[i], q, true, false, x);
      OnlyIn(rs, i, el);
    }
  }
}
