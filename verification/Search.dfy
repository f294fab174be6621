/** Searching for a piece of a sequence, as `indexOf` and `includes` do. */
module Search {
  /** `p` stands in `s` at position `i`. */
  predicate MatchAt<T(==)>(s: seq<T>, p: seq<T>, i: int) {
    0 <= i <= |s| - |p| && s[i..i + |p|] == p
  }

  ghost predicate Occurs<T>(s: seq<T>, p: seq<T>) {
    exists i :: MatchAt(s, p, i)
  }

  /** Position of the first `p` at or after `from`, or -1. */
  function IndexFrom<T(==)>(s: seq<T>, p: seq<T>, from: nat): (r: int)
    requires from <= |s|
    ensures r == -1 <==> forall i :: from <= i ==> !MatchAt(s, p, i)
    ensures r != -1 ==> from <= r && MatchAt(s, p, r) && forall i :: from <= i < r ==> !MatchAt(s, p, i)
    decreases |s| - from
  {
    if MatchAt(s, p, from) then from
    else if from == |s| then -1
    else IndexFrom(s, p, from + 1)
  }

  function IndexOf<T(==)>(s: seq<T>, p: seq<T>): (r: int)
    ensures r == -1 <==> !Occurs(s, p)
    ensures r != -1 ==> 0 <= r <= |s| - |p| && MatchAt(s, p, r) && forall i :: i < r ==> !MatchAt(s, p, i)
  {
    IndexFrom(s, p, 0)
  }

  lemma FirstMatch<T>(s: seq<T>, p: seq<T>, k: nat)
    requires MatchAt(s, p, k)
    requires forall i :: 0 <= i < k ==> !MatchAt(s, p, i)
    ensures IndexOf(s, p) == k
  {
  }

  /** First position of one element. */
  lemma FirstByte<T>(s: seq<T>, b: T, k: nat)
    requires k < |s| && s[k] == b && b !in s[..k]
    ensures IndexOf(s, [b]) == k
  {
    assert s[k..k + 1] == [b];
    forall i | 0 <= i < k ensures !MatchAt(s, [b], i) {
      assert s[i..i + 1][0] == s[i] == s[..k][i];
    }
    FirstMatch(s, [b], k);
  }

  lemma NoByte<T>(s: seq<T>, b: T)
    requires b !in s
    ensures IndexOf(s, [b]) == -1
  {
    forall i | 0 <= i < |s| ensures !MatchAt(s, [b], i) {
      assert s[i..i + 1] == [s[i]];
    }
  }

  /** What starts with an element that does not occur does not occur. */
  lemma NoFirst<T>(s: seq<T>, p: seq<T>)
    requires p != [] && p[0] !in s
    ensures !Occurs(s, p)
  {
    forall i | 0 <= i <= |s| - |p| ensures !MatchAt(s, p, i) {
      assert s[i..i + |p|][0] == s[i];
    }
  }

  /** A match inside the first part of a concatenation is a match of that part, and the other way round. */
  lemma MatchInPrefix<T>(a: seq<T>, b: seq<T>, p: seq<T>, i: int)
    requires 0 <= i <= |a| - |p|
    ensures MatchAt(a + b, p, i) <==> MatchAt(a, p, i)
  {
  }

  lemma MatchInSuffix<T>(s: seq<T>, p: seq<T>, d: nat, i: int)
    requires d <= |s| && 0 <= i
    ensures MatchAt(s[d..], p, i) <==> MatchAt(s, p, i + d)
  {
  }

  lemma NoMatchInPrefix<T>(a: seq<T>, b: seq<T>, p: seq<T>)
    requires !Occurs(a + b, p)
    ensures !Occurs(a, p)
  {
    if Occurs(a, p) {
      var i :| MatchAt(a, p, i);
      MatchInPrefix(a, b, p, i);
    }
  }

  lemma NoMatchInSuffix<T>(s: seq<T>, p: seq<T>, d: nat)
    requires d <= |s| && !Occurs(s, p)
    ensures !Occurs(s[d..], p)
  {
    if Occurs(s[d..], p) {
      var i :| MatchAt(s[d..], p, i);
      MatchInSuffix(s, p, d, i);
    }
  }
}
