/** The three binary searches of Python's `bisect` module that the ring uses,
    written out and proved against linear reference definitions. */
module Bisect {

  /** Non-decreasing: what `bisect` demands of the list it searches. */
  ghost predicate Sorted(s: seq<int>)
  {
    forall i, j :: 0 <= i < j < |s| ==> s[i] <= s[j]
  }

  /** Strictly increasing: sorted and free of duplicates. */
  ghost predicate StrictlyIncreasing(s: seq<int>)
  {
    forall i, j :: 0 <= i < j < |s| ==> s[i] < s[j]
  }

  /** Reference definition by linear scan: the first index whose element is
      strictly greater than `x`, or `|s|` when there is none. */
  function FirstAbove(s: seq<int>, x: int): (i: nat)
    ensures i <= |s|
    ensures forall j :: 0 <= j < i ==> s[j] <= x
    ensures i < |s| ==> s[i] > x
  {
    if s == [] || s[0] > x then 0 else 1 + FirstAbove(s[1..], x)
  }

  /** Reference definition by linear scan: the first index whose element is
      at least `x`, or `|s|` when there is none. */
  function FirstAtLeast(s: seq<int>, x: int): (i: nat)
    ensures i <= |s|
    ensures forall j :: 0 <= j < i ==> s[j] < x
    ensures i < |s| ==> s[i] >= x
  {
    if s == [] || s[0] >= x then 0 else 1 + FirstAtLeast(s[1..], x)
  }

  /** Any index that splits `s` into "at most x" before and "above x" at the
      index is the one FirstAbove finds. */
  lemma FirstAboveIs(s: seq<int>, x: int, i: nat)
    requires i <= |s|
    requires forall j :: 0 <= j < i ==> s[j] <= x
    requires i < |s| ==> s[i] > x
    ensures FirstAbove(s, x) == i
  {
  }

  /** Any index that splits `s` into "below x" before and "at least x" at the
      index is the one FirstAtLeast finds. */
  lemma FirstAtLeastIs(s: seq<int>, x: int, i: nat)
    requires i <= |s|
    requires forall j :: 0 <= j < i ==> s[j] < x
    requires i < |s| ==> s[i] >= x
    ensures FirstAtLeast(s, x) == i
  {
  }

  /** `bisect_right(a, x)` (also spelled `bisect`): the insertion point after
      every element equal to `x`. */
  method BisectRight(a: seq<int>, x: int) returns (i: nat)
    requires Sorted(a)
    ensures i == FirstAbove(a, x)
  {
    var lo, hi := 0, |a|;
    while lo < hi
      invariant 0 <= lo <= hi <= |a|
      invariant forall j :: 0 <= j < lo ==> a[j] <= x
      invariant forall j :: hi <= j < |a| ==> a[j] > x
    {
      var mid := (lo + hi) / 2;
      if x < a[mid] {
        hi := mid;
      } else {
        lo := mid + 1;
      }
    }
    FirstAboveIs(a, x, lo);
    i := lo;
  }

  /** `bisect_left(a, x)`: the insertion point before every element equal
      to `x`. */
  method BisectLeft(a: seq<int>, x: int) returns (i: nat)
    requires Sorted(a)
    ensures i == FirstAtLeast(a, x)
  {
    var lo, hi := 0, |a|;
    while lo < hi
      invariant 0 <= lo <= hi <= |a|
      invariant forall j :: 0 <= j < lo ==> a[j] < x
      invariant forall j :: hi <= j < |a| ==> a[j] >= x
    {
      var mid := (lo + hi) / 2;
      if a[mid] < x {
        lo := mid + 1;
      } else {
        hi := mid;
      }
    }
    FirstAtLeastIs(a, x, lo);
    i := lo;
  }

  /** After a right bisect, `x` is present exactly when it sits just before
      the insertion point. */
  lemma BisectRightFinds(s: seq<int>, x: int)
    requires Sorted(s)
    ensures var i := FirstAbove(s, x); (i > 0 && s[i - 1] == x) <==> x in s
  {
    var i := FirstAbove(s, x);
    if x in s {
      var j :| 0 <= j < |s| && s[j] == x;
      assert s[j] <= s[i - 1] <= x;
    }
  }

  /** After a left bisect, `x` is present exactly when it sits at the
      insertion point. */
  lemma BisectLeftFinds(s: seq<int>, x: int)
    requires Sorted(s)
    ensures var i := FirstAtLeast(s, x); (i < |s| && s[i] == x) <==> x in s
  {
    var i := FirstAtLeast(s, x);
    if x in s {
      var j :| 0 <= j < |s| && s[j] == x;
      assert x <= s[i] <= s[j];
    }
  }
}
