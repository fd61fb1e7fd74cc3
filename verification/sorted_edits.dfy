/** How the ring's two list edits interact with sortedness and with the
    successor search, stated on plain sequences of slots. */
module SortedEdits {
  import opened Lists
  import opened Bisect

  /** Inserting a new value at its right-bisect point keeps a strictly
      increasing list strictly increasing. */
  lemma InsertKeepsIncreasing(s: seq<int>, x: int)
    requires StrictlyIncreasing(s) && x !in s
    ensures StrictlyIncreasing(Insert(s, FirstAbove(s, x), x))
  {
    var i := FirstAbove(s, x);
    var r := Insert(s, i, x);
    forall a, b | 0 <= a < b < |r|
      ensures r[a] < r[b]
    {
      if b == i {
        assert s[a] <= x && s[a] != x;
      } else if a == i {
        assert s[b - 1] > x;
      } else if a < i < b {
        assert s[a] <= x < s[b - 1];
      }
    }
  }

  /** Popping any index keeps a strictly increasing list strictly increasing,
      and the popped value no longer occurs. */
  lemma RemoveKeepsIncreasing(s: seq<int>, i: nat)
    requires StrictlyIncreasing(s) && i < |s|
    ensures StrictlyIncreasing(RemoveAt(s, i))
    ensures s[i] !in RemoveAt(s, i)
  {
    var r := RemoveAt(s, i);
    forall a, b | 0 <= a < b < |r|
      ensures r[a] < r[b]
    {
      if a < i <= b {
        assert s[a] < s[b + 1];
      }
    }
    forall j | 0 <= j < |r|
      ensures r[j] != s[i]
    {
      if j >= i {
        assert s[i] < s[j + 1];
      }
    }
  }

  /** Where the successor search lands after index `i` is popped: unchanged
      before `i`, one earlier after `i`. */
  lemma SuccessorAfterRemove(s: seq<int>, i: nat, h: int)
    requires i < |s|
    ensures var k := FirstAbove(s, h);
            && (k < i ==> FirstAbove(RemoveAt(s, i), h) == k)
            && (k > i ==> FirstAbove(RemoveAt(s, i), h) == k - 1)
  {
    var k := FirstAbove(s, h);
    var r := RemoveAt(s, i);
    if k < i {
      FirstAboveIs(r, h, k);
    } else if k > i {
      FirstAboveIs(r, h, k - 1);
    }
  }

  /** Where the successor search lands after `x` is inserted at its
      right-bisect point `p`: unchanged before `p`, at the new entry when `x`
      is above `h`, otherwise one later. */
  lemma SuccessorAfterInsert(s: seq<int>, x: int, h: int)
    ensures var p := FirstAbove(s, x);
            var k := FirstAbove(s, h);
            var r := Insert(s, p, x);
            && (k < p ==> FirstAbove(r, h) == k)
            && (p <= k && h < x ==> FirstAbove(r, h) == p)
            && (p <= k && x <= h ==> FirstAbove(r, h) == k + 1)
  {
    var p := FirstAbove(s, x);
    var k := FirstAbove(s, h);
    var r := Insert(s, p, x);
    if k < p {
      FirstAboveIs(r, h, k);
    } else if h < x {
      FirstAboveIs(r, h, p);
    } else {
      FirstAboveIs(r, h, k + 1);
    }
  }

  /** In a strictly increasing list the search for a present value `s[i]`
      by left bisect lands on `i`, and the right bisect for `s[i]` in the
      list without it lands on `i` too. */
  lemma PresentValueIndex(s: seq<int>, i: nat)
    requires StrictlyIncreasing(s) && i < |s|
    ensures FirstAtLeast(s, s[i]) == i
    ensures FirstAbove(RemoveAt(s, i), s[i]) == i
  {
    FirstAtLeastIs(s, s[i], i);
    var r := RemoveAt(s, i);
    forall j | i <= j < |r|
      ensures r[j] > s[i]
    {
      assert s[i] < s[j + 1];
    }
    FirstAboveIs(r, s[i], i);
  }

  /** Left bisect for a value just inserted at its right-bisect point finds it. */
  lemma InsertedValueIndex(s: seq<int>, x: int)
    requires x !in s
    ensures FirstAtLeast(Insert(s, FirstAbove(s, x), x), x) == FirstAbove(s, x)
  {
    var i := FirstAbove(s, x);
    var r := Insert(s, i, x);
    forall j | 0 <= j < i
      ensures r[j] < x
    {
      assert s[j] <= x && s[j] != x;
    }
    FirstAtLeastIs(r, x, i);
  }

  /** `bisect_right(s, h) % len(s)`: the index of the first slot strictly
      above `h`, wrapping round to index 0 past the end. */
  function SuccessorIndex(s: seq<int>, h: int): (j: nat)
    requires |s| > 0
    ensures j < |s|
  {
    CircularIndex(FirstAbove(s, h), |s|)
  }

  /** `k % n` for a bisect result `k`, which never exceeds the list length
      `n`: the index past the end wraps round to the first entry. */
  function CircularIndex(k: nat, n: nat): (i: nat)
    requires 0 < n && k <= n
    ensures i == if k == n then 0 else k
  {
    k % n
  }

  /** After popping index `i`, an item whose successor was not at `i` still
      finds the same entry, now shifted down by one if it lay after `i`. */
  lemma SuccessorIndexAfterRemove(s: seq<int>, i: nat, h: int)
    requires i < |s|
    requires SuccessorIndex(s, h) != i
    ensures |s| > 1
    ensures var j := SuccessorIndex(s, h);
            SuccessorIndex(RemoveAt(s, i), h) == if j < i then j else j - 1
  {
    SuccessorAfterRemove(s, i, h);
  }

  /** After inserting `x` at its right-bisect point `p`, an item whose
      successor lay before `p` keeps it; an item below `x` whose successor lay
      at or after `p` now finds the new entry; an item at or above `x` finds
      its former successor shifted up by one, wrapping round to index 0 when
      it had none above. */
  lemma SuccessorIndexAfterInsert(s: seq<int>, x: int, h: int)
    ensures var p := FirstAbove(s, x);
            var k := FirstAbove(s, h);
            var j' := SuccessorIndex(Insert(s, p, x), h);
            && (k < p ==> j' == SuccessorIndex(s, h) == k)
            && (p <= k && h < x ==> j' == p)
            && (p <= k && x <= h ==> j' == CircularIndex(k + 1, |s| + 1))
  {
    SuccessorAfterInsert(s, x, h);
  }

  /** Inserting `y` into a list kept in lockstep with `s`, at the index where
      `x` enters `s`, leaves every item's successor entry either the new `y`
      or the entry it had before. */
  lemma SuccessorEntryAfterInsert<T>(s: seq<int>, v: seq<T>, x: int, y: T, h: int)
    requires |v| == |s|
    ensures var p := FirstAbove(s, x);
            var e := Insert(v, p, y)[SuccessorIndex(Insert(s, p, x), h)];
            e == y || (|s| > 0 && e == v[SuccessorIndex(s, h)])
  {
    var p := FirstAbove(s, x);
    var k := FirstAbove(s, h);
    var v' := Insert(v, p, y);
    SuccessorIndexAfterInsert(s, x, h);
    var j' := SuccessorIndex(Insert(s, p, x), h);
    if k < p {
      assert j' == k == SuccessorIndex(s, h);
      assert v'[k] == v[k];
    } else if x <= h && k < |s| {
      assert j' == k + 1 && SuccessorIndex(s, h) == k;
      assert v'[k + 1] == v[k];
    } else if x <= h && 0 < p {
      assert j' == 0 == SuccessorIndex(s, h);
      assert v'[0] == v[0];
    }
  }

  /** An item whose search lands on the entry just inserted for `x` had, before
      the insertion, the same successor as `x` itself. */
  lemma SuccessorIndexOntoInserted(s: seq<int>, x: int, h: int)
    requires |s| > 0
    ensures var p := FirstAbove(s, x);
            SuccessorIndex(Insert(s, p, x), h) == p ==> SuccessorIndex(s, h) == SuccessorIndex(s, x)
  {
    SuccessorIndexAfterInsert(s, x, h);
  }

  /** Popping index `i` sends the items whose successor was `i` to the entry
      that followed it, which now sits at index `i` (or at 0 when `i` was the
      last index). */
  lemma SuccessorIndexAfterRemoveOwn(s: seq<int>, i: nat, h: int)
    requires StrictlyIncreasing(s)
    requires 1 < |s| && i < |s|
    requires SuccessorIndex(s, h) == i
    ensures SuccessorIndex(RemoveAt(s, i), h) == CircularIndex(i, |s| - 1)
  {
    var k := FirstAbove(s, h);
    var r := RemoveAt(s, i);
    if k == i {
      forall j | i <= j < |r|
        ensures r[j] > h
      {
        assert s[i] < s[j + 1];
      }
      FirstAboveIs(r, h, i);
    } else {
      assert k == |s| && i == 0;
      FirstAboveIs(r, h, |r|);
    }
  }
}
