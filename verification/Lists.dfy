/** Lists filtered by a condition. */
module Lists {
  function Filter<T>(xs: seq<T>, keep: T -> bool): seq<T> {
    if xs == [] then [] else
      Filter(xs[..|xs| - 1], keep) + if keep(xs[|xs| - 1]) then [xs[|xs| - 1]] else []
  }

  lemma FilterAppend<T>(xs: seq<T>, x: T, keep: T -> bool)
    ensures Filter(xs + [x], keep) == Filter(xs, keep) + if keep(x) then [x] else []
  {
  }

  /** Filtering by a condition and by its opposite takes every element once. */
  lemma {:induction false} FilterSplits<T>(xs: seq<T>, keep: T -> bool, other: T -> bool)
    requires forall x :: x in xs ==> other(x) == !keep(x)
    ensures |Filter(xs, keep)| + |Filter(xs, other)| == |xs|
    ensures multiset(Filter(xs, keep)) + multiset(Filter(xs, other)) == multiset(xs)
  {
    if xs != [] {
      hide Filter;
      var front, last := xs[..|xs| - 1], xs[|xs| - 1];
      assert xs == front + [last];
      FilterSplits(front, keep, other);
      FilterAppend(front, last, keep);
      FilterAppend(front, last, other);
      assert other(last) == !keep(last);
    }
  }

  lemma {:induction false} FilterMember<T>(xs: seq<T>, keep: T -> bool, x: T)
    ensures x in Filter(xs, keep) <==> x in xs && keep(x)
  {
    if xs != [] {
      FilterMember(xs[..|xs| - 1], keep, x);
      assert xs == xs[..|xs| - 1] + [xs[|xs| - 1]];
    }
  }

  lemma {:induction false} FilterAll<T>(xs: seq<T>, keep: T -> bool)
    requires forall x :: x in xs ==> keep(x)
    ensures Filter(xs, keep) == xs
  {
    if xs != [] {
      var front := xs[..|xs| - 1];
      FilterAll(front, keep);
      assert Filter(front, keep) == front && keep(xs[|xs| - 1]);
      assert front + [xs[|xs| - 1]] == xs;
    }
  }

  /**
   * Two ways to count the elements that satisfy p or q: those of q and the others of p, or those of p and
   * the others of q.
   */
  lemma {:induction false} CountedOnce<T>(
    xs: seq<T>, p: T -> bool, q: T -> bool, notQ: T -> bool, onlyQ: T -> bool, either: T -> bool)
    requires forall x :: x in xs ==>
               notQ(x) == !q(x) && onlyQ(x) == (!p(x) && q(x)) && either(x) == (p(x) || q(x))
    ensures |Filter(xs, q)| + |Filter(Filter(xs, p), notQ)| == |Filter(xs, either)|
    ensures |Filter(xs, p)| + |Filter(xs, onlyQ)| == |Filter(xs, either)|
  {
    if xs == [] {
      assert Filter(xs, p) == [];
    } else {
      var front, last := xs[..|xs| - 1], xs[|xs| - 1];
      CountedOnce(front, p, q, notQ, onlyQ, either);
      assert last in xs && front + [last] == xs;
      FilterAppend(front, last, q);
      FilterAppend(front, last, p);
      FilterAppend(front, last, onlyQ);
      FilterAppend(front, last, either);
      FilterAppend(Filter(front, p), last, notQ);
      assert Filter(front, p) + [] == Filter(front, p);
      assert notQ(last) == !q(last) && onlyQ(last) == (!p(last) && q(last));
    }
  }

  lemma {:induction false} FilterSame<T>(xs: seq<T>, p: T -> bool, q: T -> bool)
    requires forall x :: x in xs ==> p(x) == q(x)
    ensures Filter(xs, p) == Filter(xs, q)
  {
    if xs != [] {
      var front, last := xs[..|xs| - 1], xs[|xs| - 1];
      assert front + [last] == xs;
      FilterSame(front, p, q);
      assert p(last) == q(last);
    }
  }

  lemma {:induction false} FilterTwice<T>(xs: seq<T>, p: T -> bool, q: T -> bool, both: T -> bool)
    requires forall x :: x in xs ==> both(x) == (p(x) && q(x))
    ensures Filter(Filter(xs, p), q) == Filter(xs, both)
  {
    if xs != [] {
      var front, last := xs[..|xs| - 1], xs[|xs| - 1];
      assert front + [last] == xs;
      FilterTwice(front, p, q, both);
      assert both(last) == (p(last) && q(last));
      FilterAppend(Filter(front, p), last, q);
      assert Filter(front, p) + [] == Filter(front, p);
    }
  }

  lemma {:induction false} FilterLength<T>(xs: seq<T>, keep: T -> bool)
    ensures |Filter(xs, keep)| <= |xs|
    ensures |Filter(xs, keep)| == |xs| <==> forall x :: x in xs ==> keep(x)
    ensures |Filter(xs, keep)| == 0 <==> forall x :: x in xs ==> !keep(x)
  {
    if xs != [] {
      var front, last := xs[..|xs| - 1], xs[|xs| - 1];
      FilterLength(front, keep);
      assert front + [last] == xs;
    }
  }

  /** A filtered list has as many elements as that of any rearrangement. */
  lemma {:induction false} FilterCounts<T>(xs: seq<T>, keep: T -> bool, x: T)
    ensures multiset(Filter(xs, keep))[x] == if keep(x) then multiset(xs)[x] else 0
  {
    if xs != [] {
      FilterCounts(xs[..|xs| - 1], keep, x);
      assert xs == xs[..|xs| - 1] + [xs[|xs| - 1]];
    }
  }
}
