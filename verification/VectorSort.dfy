/** The stable insertion sort of VectorImpl and the binary search of SortedVectorImpl. */
module VectorSort {
  import opened Basics

  /** A three-way comparison whose sign orders all items consistently. */
  ghost predicate Consistent<T(!new)>(cmp: (T, T) -> int) {
    && (forall a, b :: cmp(a, b) > 0 <==> cmp(b, a) < 0)
    && (forall a, b, c {:trigger Through(a, b, c)} :: cmp(a, b) <= 0 && cmp(b, c) <= 0 ==> cmp(a, c) <= 0)
  }

  ghost predicate Ordered<T>(s: seq<T>, cmp: (T, T) -> int) {
    forall i, j :: 0 <= i < j < |s| ==> cmp(s[i], s[j]) <= 0
  }

  /** The item goes behind the last item that is not greater. */
  function InsertRight<T>(s: seq<T>, x: T, cmp: (T, T) -> int): (r: seq<T>)
    ensures |r| == |s| + 1
  {
    if s == [] || cmp(s[|s| - 1], x) <= 0 then s + [x]
    else InsertRight(s[..|s| - 1], x, cmp) + [s[|s| - 1]]
  }

  function Sorted<T>(s: seq<T>, cmp: (T, T) -> int): (r: seq<T>)
    ensures |r| == |s|
  {
    if s == [] then [] else InsertRight(Sorted(s[..|s| - 1], cmp), s[|s| - 1], cmp)
  }

  lemma {:induction false} InsertRightMultiset<T>(s: seq<T>, x: T, cmp: (T, T) -> int)
    ensures multiset(InsertRight(s, x, cmp)) == multiset(s) + multiset{x}
  {
    if s != [] && cmp(s[|s| - 1], x) > 0 {
      var front, last := s[..|s| - 1], s[|s| - 1];
      InsertRightMultiset(front, x, cmp);
      assert s == front + [last];
    }
  }

  lemma {:induction false} InsertRightOrdered<T(!new)>(s: seq<T>, x: T, cmp: (T, T) -> int)
    requires Consistent(cmp) && Ordered(s, cmp)
    ensures Ordered(InsertRight(s, x, cmp), cmp)
  {
    if s == [] {
    } else if cmp(s[|s| - 1], x) <= 0 {
      forall i | 0 <= i < |s| ensures cmp(s[i], x) <= 0 {
        assert i == |s| - 1 || cmp(s[i], s[|s| - 1]) <= 0;
        assert Through(s[i], s[|s| - 1], x);
      }
    } else {
      var front, last := s[..|s| - 1], s[|s| - 1];
      InsertRightOrdered(front, x, cmp);
      InsertRightMultiset(front, x, cmp);
      var r := InsertRight(front, x, cmp);
      assert cmp(x, last) <= 0 && forall k :: 0 <= k < |front| ==> cmp(front[k], last) <= 0;
      forall i | 0 <= i < |r| ensures cmp(r[i], last) <= 0 {
        MemberAfterInsert(front, x, r, i);
      }
    }
  }

  lemma MemberAfterInsert<T>(s: seq<T>, x: T, r: seq<T>, i: nat)
    requires multiset(r) == multiset(s) + multiset{x} && i < |r|
    ensures r[i] == x || exists k :: 0 <= k < |s| && s[k] == r[i]
  {
    assert r[i] in multiset(r);
    if r[i] != x {
      assert r[i] in multiset(s);
    }
  }

  function Filter<T>(s: seq<T>, p: T -> bool): seq<T> {
    if s == [] then [] else Filter(s[..|s| - 1], p) + if p(s[|s| - 1]) then [s[|s| - 1]] else []
  }

  /** Items that compare equal to y. */
  function Peers<T>(y: T, cmp: (T, T) -> int): T -> bool {
    a => cmp(a, y) == 0
  }

  lemma {:induction false} InsertRightStable<T(!new)>(s: seq<T>, x: T, y: T, cmp: (T, T) -> int)
    requires Consistent(cmp)
    ensures Filter(InsertRight(s, x, cmp), Peers(y, cmp)) == Filter(s + [x], Peers(y, cmp))
  {
    var p := Peers(y, cmp);
    assert (s + [x])[..|s|] == s;
    if s != [] && cmp(s[|s| - 1], x) > 0 {
      var front, last := s[..|s| - 1], s[|s| - 1];
      InsertRightStable(front, x, y, cmp);
      var r := InsertRight(front, x, cmp);
      assert (r + [last])[..|r|] == r;
      assert (front + [x])[..|front|] == front;
      assert Through(last, y, x);
      assert !(p(x) && p(last));
    }
  }

  /** The sort gives an ordered permutation that keeps the order of items that compare equal. */
  lemma {:induction false} SortedIsStableSort<T(!new)>(s: seq<T>, cmp: (T, T) -> int, y: T)
    requires Consistent(cmp)
    ensures Ordered(Sorted(s, cmp), cmp) && multiset(Sorted(s, cmp)) == multiset(s)
    ensures Filter(Sorted(s, cmp), Peers(y, cmp)) == Filter(s, Peers(y, cmp))
  {
    if s != [] {
      var front, x := s[..|s| - 1], s[|s| - 1];
      var t := Sorted(front, cmp);
      SortedIsStableSort(front, cmp, y);
      InsertRightOrdered(t, x, cmp);
      InsertRightMultiset(t, x, cmp);
      InsertRightStable(t, x, y, cmp);
      assert s == front + [x];
      assert (t + [x])[..|t|] == t;
    }
  }

  lemma {:induction false} InsertAtSplit<T>(s: seq<T>, x: T, cmp: (T, T) -> int, k: nat)
    requires k <= |s| && (forall j :: k <= j < |s| ==> cmp(s[j], x) > 0) && (k == 0 || cmp(s[k - 1], x) <= 0)
    ensures InsertRight(s, x, cmp) == s[..k] + [x] + s[k..]
    decreases |s|
  {
    if k == |s| {
      assert s[..k] == s && s[k..] == [];
    } else {
      var front := s[..|s| - 1];
      InsertAtSplit(front, x, cmp, k);
      assert s[..k] == front[..k] && s[k..] == front[k..] + [s[|s| - 1]];
    }
  }

  /**
    VectorImpl::sort in place on the first n items: an out-of-order item is lifted out and
    the greater items before it move up one place.
   */
  method Sort<T>(a: array<T>, n: nat, cmp: (T, T) -> int)
    requires n <= a.Length
    modifies a
    ensures a[..n] == Sorted(old(a[..n]), cmp) && forall k :: n <= k < a.Length ==> a[k] == old(a[k])
  {
    if n <= 1 {
      ghost var s := a[..n];
      if n == 1 {
        assert s[..0] == [] && Sorted([], cmp) == [];
      }
      return;
    }
    var i := 1;
    ghost var s := a[..n];
    assert s[..1][..0] == [] && s[..1] == [s[0]];
    while i < n
      invariant 1 <= i <= n && a[..i] == Sorted(s[..i], cmp)
      invariant forall k :: i <= k < a.Length ==> a[k] == old(a[k])
    {
      ghost var sorted := a[..i];
      assert a[i] == s[i] && s[..i + 1][..i] == s[..i];
      if cmp(a[i - 1], a[i]) > 0 {
        Lift(a, i, cmp);
      } else {
        assert a[..i + 1] == sorted + [s[i]];
      }
      i := i + 1;
    }
    assert s[..n] == s;
  }

  /** Moves a[i] down to its place among the sorted items before it. */
  method Lift<T>(a: array<T>, i: nat, cmp: (T, T) -> int)
    requires 0 < i < a.Length && cmp(a[i - 1], a[i]) > 0
    modifies a
    ensures a[..i + 1] == InsertRight(old(a[..i]), old(a[i]), cmp)
    ensures forall k :: i < k < a.Length ==> a[k] == old(a[k])
  {
    ghost var s := a[..i];
    var temp := a[i];
    var next := ShiftUp(a, i, temp, cmp);
    assert forall k :: next <= k < |s| ==> cmp(s[k], temp) > 0;
    InsertAtSplit(s, temp, cmp, next);
    a[next] := temp;
    ghost var r := s[..next] + [temp] + s[next..];
    assert forall k :: 0 <= k <= i ==> a[k] == r[k];
    assert a[..i + 1] == r;
  }

  /** Moves the items greater than temp up one place, from i - 1 down, and returns the gap. */
  method ShiftUp<T>(a: array<T>, i: nat, temp: T, cmp: (T, T) -> int) returns (next: nat)
    requires 0 < i < a.Length && cmp(a[i - 1], temp) > 0
    modifies a
    ensures next < i && (next == 0 || cmp(old(a[next - 1]), temp) <= 0)
    ensures forall k :: next <= k < i ==> cmp(old(a[k]), temp) > 0
    ensures forall k :: 0 <= k < next ==> a[k] == old(a[k])
    ensures forall k :: next < k <= i ==> a[k] == old(a[k - 1])
    ensures forall k :: i < k < a.Length ==> a[k] == old(a[k])
  {
    var j := i - 1;
    next := i;
    while true
      invariant 0 <= j == next - 1 < i
      invariant forall k :: 0 <= k < next ==> a[k] == old(a[k])
      invariant forall k :: next < k <= i ==> a[k] == old(a[k - 1])
      invariant forall k :: i < k < a.Length ==> a[k] == old(a[k])
      invariant forall k :: j <= k < i ==> cmp(old(a[k]), temp) > 0
      decreases j
    {
      a[next] := a[j];
      next := j;
      j := j - 1;
      if j < 0 || cmp(a[j], temp) <= 0 {
        break;
      }
    }
  }

  // ---------- sorted vectors ----------

  /** No two items compare equal, and each is less than the ones behind it. */
  ghost predicate StrictlyOrdered<T>(s: seq<T>, cmp: (T, T) -> int) {
    forall i, j :: 0 <= i < j < |s| ==> cmp(s[i], s[j]) < 0
  }

  /**
    _indexOrderOf: where the item is, or where it belongs: everything before is less and
    everything from there on is greater.
   */
  method IndexOrderOf<T(!new)>(s: seq<T>, item: T, cmp: (T, T) -> int) returns (found: bool, order: nat)
    requires Consistent(cmp) && StrictlyOrdered(s, cmp)
    ensures Located(s, item, cmp, found, order)
  {
    var l, h := 0, |s| - 1;
    while l <= h
      invariant 0 <= l <= h + 1 <= |s|
      invariant forall i :: 0 <= i < l ==> cmp(s[i], item) < 0
      invariant forall i :: h < i < |s| ==> cmp(s[i], item) > 0
    {
      var mid := l + (h - l) / 2;
      var c := cmp(s[mid], item);
      BothSides(s, item, cmp, mid);
      if c == 0 {
        return true, mid;
      } else if c < 0 {
        l := mid + 1;
      } else {
        h := mid - 1;
      }
    }
    return false, l;
  }

  lemma BothSides<T(!new)>(s: seq<T>, item: T, cmp: (T, T) -> int, mid: nat)
    requires Consistent(cmp) && StrictlyOrdered(s, cmp) && mid < |s|
    ensures cmp(s[mid], item) <= 0 ==> forall i :: 0 <= i < mid ==> cmp(s[i], item) < 0
    ensures cmp(s[mid], item) >= 0 ==> forall i :: mid < i < |s| ==> cmp(s[i], item) > 0
  {
    forall i | 0 <= i < mid && cmp(s[mid], item) <= 0 ensures cmp(s[i], item) < 0 {
      LessThrough(s[i], s[mid], item, cmp);
    }
    forall i | mid < i < |s| && cmp(s[mid], item) >= 0 ensures cmp(s[i], item) > 0 {
      assert cmp(item, s[mid]) <= 0;
      LessThrough'(item, s[mid], s[i], cmp);
    }
  }

  lemma LessThrough<T(!new)>(a: T, b: T, c: T, cmp: (T, T) -> int)
    requires Consistent(cmp) && cmp(a, b) < 0 && cmp(b, c) <= 0
    ensures cmp(a, c) < 0
  {
    assert Through(b, c, a);
  }

  lemma LessThrough'<T(!new)>(a: T, b: T, c: T, cmp: (T, T) -> int)
    requires Consistent(cmp) && cmp(a, b) <= 0 && cmp(b, c) < 0
    ensures cmp(a, c) < 0
  {
    assert Through(c, a, b);
  }

  /** SortedVectorImpl::add on the items: replace an equal item, or insert in order. */
  function Added<T>(s: seq<T>, item: T, found: bool, order: nat): seq<T>
    requires order <= |s| && (found ==> order < |s|)
  {
    if found then s[order := item] else s[..order] + [item] + s[order..]
  }

  /** What _indexOrderOf found out about an item. */
  ghost predicate Located<T>(s: seq<T>, item: T, cmp: (T, T) -> int, found: bool, order: nat) {
    && order <= |s| && (forall i :: 0 <= i < order ==> cmp(s[i], item) < 0)
    && (found ==> order < |s| && cmp(s[order], item) == 0)
    && (forall i :: (if found then order + 1 else order) <= i < |s| ==> cmp(s[i], item) > 0)
  }

  /** Where position k of the new items comes from, the new item's own place aside. */
  function Source(found: bool, order: nat, k: nat): nat {
    if !found && k > order then k - 1 else k
  }

  lemma AddedAt<T>(s: seq<T>, item: T, found: bool, order: nat, k: nat)
    requires order <= |s| && (found ==> order < |s|) && k < |Added(s, item, found, order)|
    ensures Added(s, item, found, order)[k] == if k == order then item else s[Source(found, order, k)]
  {
  }

  /** Adding keeps the order strict, keeps every unequal item, and leaves exactly the new item among its equals. */
  lemma AddKeepsOrder<T(!new)>(s: seq<T>, item: T, cmp: (T, T) -> int, found: bool, order: nat)
    requires Consistent(cmp) && StrictlyOrdered(s, cmp) && Located(s, item, cmp, found, order)
    ensures StrictlyOrdered(Added(s, item, found, order), cmp)
    ensures forall x :: x in Added(s, item, found, order) <==> x == item || (x in s && cmp(x, item) != 0)
  {
    var r := Added(s, item, found, order);
    forall i, j | 0 <= i < j < |r| ensures cmp(r[i], r[j]) < 0 {
      AddedAt(s, item, found, order, i);
      AddedAt(s, item, found, order, j);
    }
    forall x ensures x in r <==> x == item || (x in s && cmp(x, item) != 0) {
      AddedMember(s, item, cmp, found, order, x);
    }
  }

  lemma AddedMember<T(!new)>(s: seq<T>, item: T, cmp: (T, T) -> int, found: bool, order: nat, x: T)
    requires Located(s, item, cmp, found, order)
    ensures x in Added(s, item, found, order) <==> x == item || (x in s && cmp(x, item) != 0)
  {
    var r := Added(s, item, found, order);
    if x in r {
      var i :| 0 <= i < |r| && r[i] == x;
      AddedAt(s, item, found, order, i);
    }
    assert r[order] == item;
    if x in s && cmp(x, item) != 0 {
      var i :| 0 <= i < |s| && s[i] == x;
      AddedAt(s, item, found, order, if !found && i >= order then i + 1 else i);
    }
  }
}
