/** A stable sort driven by a three-way comparator, as `Array.prototype.sort`
    is: `cmp(x, y)` negative puts `x` first, positive puts `y` first, zero
    keeps the input order.

    The sort is specified by a functional insertion sort, SortSpec, and the
    in-place method is proved to compute it. Provided the comparator is
    consistent (a total preorder), the lemmas show that SortSpec is a
    permutation of its input, ordered, stable and idempotent. They also show
    that it is the ONLY sequence that is both ordered and stable, so any
    stable sort computes it. */
module StableSort {

  /** The comparator is consistent: reflexive, sign-antisymmetric and
      transitive, i.e. a total preorder. */
  ghost predicate TotalPreorder<T(!new)>(cmp: (T, T) -> int) {
    && (forall x :: cmp(x, x) == 0)
    && (forall x, y :: cmp(x, y) < 0 <==> cmp(y, x) > 0)
    && (forall x, y, z :: cmp(x, y) <= 0 && cmp(y, z) <= 0 ==> cmp(x, z) <= 0)
  }

  /** Every adjacent pair is in comparator order. */
  ghost predicate Sorted<T>(s: seq<T>, cmp: (T, T) -> int) {
    forall i :: 0 <= i < |s| - 1 ==> cmp(s[i], s[i + 1]) <= 0
  }

  /** The subsequence of `s` made of the elements equivalent to `e`. */
  function Equivalents<T>(s: seq<T>, e: T, cmp: (T, T) -> int): seq<T> {
    if s == [] then []
    else Equivalents(s[..|s| - 1], e, cmp) + (if cmp(e, s[|s| - 1]) == 0 then [s[|s| - 1]] else [])
  }

  /** `t` keeps, for every class of equivalent elements, the relative order
      those elements have in `s`. */
  ghost predicate Stable<T(!new)>(t: seq<T>, s: seq<T>, cmp: (T, T) -> int) {
    forall e :: Equivalents(t, e, cmp) == Equivalents(s, e, cmp)
  }

  /** Insert `x` into `s` from the right: it moves left past every element
      that compares greater than it, and stops at the first that does not. */
  function InsertSorted<T>(s: seq<T>, x: T, cmp: (T, T) -> int): (r: seq<T>)
    ensures |r| == |s| + 1
    ensures r[|r| - 1] == x || (s != [] && r[|r| - 1] == s[|s| - 1])
  {
    if s == [] then [x]
    else if cmp(s[|s| - 1], x) > 0 then
      InsertSorted(s[..|s| - 1], x, cmp) + [s[|s| - 1]]
    else s + [x]
  }

  /** Stable insertion sort: sort all but the last element, then insert it. */
  function SortSpec<T>(s: seq<T>, cmp: (T, T) -> int): (r: seq<T>)
    ensures |r| == |s|
  {
    if s == [] then []
    else
      InsertSorted(SortSpec(s[..|s| - 1], cmp), s[|s| - 1], cmp)
  }

  lemma {:induction false} InsertSortedPermutation<T>(s: seq<T>, x: T, cmp: (T, T) -> int)
    ensures multiset(InsertSorted(s, x, cmp)) == multiset(s) + multiset{x}
  {
    if s != [] && cmp(s[|s| - 1], x) > 0 {
      InsertSortedPermutation(s[..|s| - 1], x, cmp);
      assert s == s[..|s| - 1] + [s[|s| - 1]];
    }
  }

  /** The result is a permutation of the input. */
  lemma {:induction false} SortSpecPermutation<T>(s: seq<T>, cmp: (T, T) -> int)
    ensures multiset(SortSpec(s, cmp)) == multiset(s)
  {
    if s != [] {
      SortSpecPermutation(s[..|s| - 1], cmp);
      InsertSortedPermutation(SortSpec(s[..|s| - 1], cmp), s[|s| - 1], cmp);
      assert s == s[..|s| - 1] + [s[|s| - 1]];
    }
  }

  /** Appending an element that is "not before" the last keeps order. */
  lemma SortedSnoc<T>(q: seq<T>, y: T, cmp: (T, T) -> int)
    requires Sorted(q, cmp)
    requires q != [] ==> cmp(q[|q| - 1], y) <= 0
    ensures Sorted(q + [y], cmp)
  {
    var r := q + [y];
    forall i | 0 <= i < |r| - 1 ensures cmp(r[i], r[i + 1]) <= 0 {
      if i < |q| - 1 {
        assert r[i] == q[i] && r[i + 1] == q[i + 1];
      }
    }
  }

  lemma {:induction false} InsertSortedSorted<T(!new)>(s: seq<T>, x: T, cmp: (T, T) -> int)
    requires TotalPreorder(cmp) && Sorted(s, cmp)
    ensures Sorted(InsertSorted(s, x, cmp), cmp)
  {
    if s == [] {
      assert InsertSorted(s, x, cmp) == [] + [x];
      SortedSnoc([], x, cmp);
    } else if cmp(s[|s| - 1], x) > 0 {
      var init, last := s[..|s| - 1], s[|s| - 1];
      SortedPrefix(s, cmp);
      InsertSortedSorted(init, x, cmp);
      var q := InsertSorted(init, x, cmp);
      assert cmp(x, last) < 0;
      if q[|q| - 1] != x {
        assert q[|q| - 1] == s[|s| - 2] && cmp(s[|s| - 2], s[|s| - 1]) <= 0;
      }
      SortedSnoc(q, last, cmp);
    } else {
      SortedSnoc(s, x, cmp);
    }
  }

  /** The result is ordered: each element compares "not after" its successor. */
  lemma {:induction false} SortSpecSorted<T(!new)>(s: seq<T>, cmp: (T, T) -> int)
    requires TotalPreorder(cmp)
    ensures Sorted(SortSpec(s, cmp), cmp)
  {
    if s != [] {
      SortSpecSorted(s[..|s| - 1], cmp);
      InsertSortedSorted(SortSpec(s[..|s| - 1], cmp), s[|s| - 1], cmp);
    }
  }

  /** Adjacent order extends to every pair, by transitivity. */
  lemma {:induction false} SortedPairwise<T(!new)>(s: seq<T>, cmp: (T, T) -> int, i: int, j: int)
    requires TotalPreorder(cmp) && Sorted(s, cmp)
    requires 0 <= i < j < |s|
    ensures cmp(s[i], s[j]) <= 0
    decreases j - i
  {
    if i + 1 < j {
      SortedPairwise(s, cmp, i + 1, j);
      assert cmp(s[i], s[i + 1]) <= 0;
    }
  }

  /** The sorted result is ordered for every pair of positions. */
  lemma SortSpecOrdered<T(!new)>(s: seq<T>, cmp: (T, T) -> int)
    requires TotalPreorder(cmp)
    ensures var t := SortSpec(s, cmp);
            forall i, j :: 0 <= i < j < |t| ==> cmp(t[i], t[j]) <= 0
  {
    var t := SortSpec(s, cmp);
    SortSpecSorted(s, cmp);
    forall i, j | 0 <= i < j < |t| ensures cmp(t[i], t[j]) <= 0 {
      SortedPairwise(t, cmp, i, j);
    }
  }

  lemma {:induction false} EquivalentsAppend<T>(s: seq<T>, u: seq<T>, e: T, cmp: (T, T) -> int)
    ensures Equivalents(s + u, e, cmp) == Equivalents(s, e, cmp) + Equivalents(u, e, cmp)
    decreases |u|
  {
    if u == [] {
      assert s + u == s;
    } else {
      assert (s + u)[..|s + u| - 1] == s + u[..|u| - 1];
      EquivalentsAppend(s, u[..|u| - 1], e, cmp);
    }
  }

  /** Every member of Equivalents(s, e) is an element of `s` equivalent to `e`. */
  lemma {:induction false} EquivalentsMembers<T>(s: seq<T>, e: T, cmp: (T, T) -> int, z: T)
    requires z in Equivalents(s, e, cmp)
    ensures z in s && cmp(e, z) == 0
  {
    if s != [] && z in Equivalents(s[..|s| - 1], e, cmp) {
      EquivalentsMembers(s[..|s| - 1], e, cmp, z);
      assert z in s[..|s| - 1];
    }
  }

  /** An element cannot be equivalent to two elements that compare unequal. */
  lemma NotEquivalentToBoth<T(!new)>(x: T, e: T, y: T, cmp: (T, T) -> int)
    requires TotalPreorder(cmp) && cmp(y, x) > 0
    ensures !(cmp(e, x) == 0 && cmp(e, y) == 0)
  {
  }

  /** Inserting `x` adds `x` at the end of its own class and leaves every
      other class as it was. */
  lemma {:induction false} InsertSortedEquivalents<T(!new)>(s: seq<T>, x: T, e: T, cmp: (T, T) -> int)
    requires TotalPreorder(cmp)
    ensures Equivalents(InsertSorted(s, x, cmp), e, cmp)
         == Equivalents(s, e, cmp) + (if cmp(e, x) == 0 then [x] else [])
  {
    var r := InsertSorted(s, x, cmp);
    var xs := if cmp(e, x) == 0 then [x] else [];
    if s != [] && cmp(s[|s| - 1], x) > 0 {
      var init, last := s[..|s| - 1], s[|s| - 1];
      var q := InsertSorted(init, x, cmp);
      var ls := if cmp(e, last) == 0 then [last] else [];
      assert r == q + [last];
      assert r[..|r| - 1] == q;
      assert Equivalents(r, e, cmp) == Equivalents(q, e, cmp) + ls;
      InsertSortedEquivalents(init, x, e, cmp);
      assert Equivalents(s, e, cmp) == Equivalents(init, e, cmp) + ls;
      NotEquivalentToBoth(x, e, last, cmp);
      assert xs + ls == ls + xs;
    } else {
      assert r == s + [x];
      assert r[..|r| - 1] == s;
    }
  }

  /** The sort is stable: each class of equivalent elements keeps its input
      order. */
  lemma {:induction false} SortSpecStable<T(!new)>(s: seq<T>, cmp: (T, T) -> int)
    requires TotalPreorder(cmp)
    ensures Stable(SortSpec(s, cmp), s, cmp)
  {
    if s != [] {
      var init, last := s[..|s| - 1], s[|s| - 1];
      SortSpecStable(init, cmp);
      forall e ensures Equivalents(SortSpec(s, cmp), e, cmp) == Equivalents(s, e, cmp) {
        InsertSortedEquivalents(SortSpec(init, cmp), last, e, cmp);
      }
    }
  }

  lemma SortedPrefix<T>(s: seq<T>, cmp: (T, T) -> int)
    requires Sorted(s, cmp) && s != []
    ensures Sorted(s[..|s| - 1], cmp)
  {
    var p := s[..|s| - 1];
    forall i | 0 <= i < |p| - 1 ensures cmp(p[i], p[i + 1]) <= 0 {
      assert p[i] == s[i] && p[i + 1] == s[i + 1];
    }
  }

  /** The last element of a sorted sequence is "not before" any element. */
  lemma LastIsGreatest<T(!new)>(s: seq<T>, cmp: (T, T) -> int, z: T)
    requires TotalPreorder(cmp) && Sorted(s, cmp) && z in s
    ensures cmp(z, s[|s| - 1]) <= 0
  {
    var k :| 0 <= k < |s| && s[k] == z;
    if k < |s| - 1 {
      SortedPairwise(s, cmp, k, |s| - 1);
    }
  }

  /** The last element of Equivalents(s, e) when `e` is equivalent to the
      last element of `s`. */
  lemma EquivalentsLast<T>(s: seq<T>, e: T, cmp: (T, T) -> int)
    requires s != [] && cmp(e, s[|s| - 1]) == 0
    ensures var q := Equivalents(s, e, cmp);
            q != [] && q[|q| - 1] == s[|s| - 1]
  {
  }

  /** A stable rearrangement of an empty sequence is empty. */
  lemma StableEmpty<T(!new)>(t: seq<T>, u: seq<T>, cmp: (T, T) -> int)
    requires TotalPreorder(cmp) && Stable(t, u, cmp) && t == []
    ensures u == []
  {
    if u != [] {
      var y := u[|u| - 1];
      EquivalentsLast(u, y, cmp);
      assert false;
    }
  }

  /** Two sorted, mutually stable, non-empty sequences end in the same element. */
  lemma StableLastsAgree<T(!new)>(t: seq<T>, u: seq<T>, cmp: (T, T) -> int)
    requires TotalPreorder(cmp) && Sorted(t, cmp) && Sorted(u, cmp)
    requires Stable(t, u, cmp) && t != [] && u != []
    ensures t[|t| - 1] == u[|u| - 1]
  {
    var x, y := t[|t| - 1], u[|u| - 1];
    // x belongs to u, so x is not after y; symmetrically y is not after x
    assert cmp(x, y) <= 0 by {
      EquivalentsLast(t, x, cmp);
      assert Equivalents(t, x, cmp) == Equivalents(u, x, cmp);
      EquivalentsMembers(u, x, cmp, x);
      LastIsGreatest(u, cmp, x);
    }
    assert cmp(y, x) <= 0 by {
      EquivalentsLast(u, y, cmp);
      assert Equivalents(t, y, cmp) == Equivalents(u, y, cmp);
      EquivalentsMembers(t, y, cmp, y);
      LastIsGreatest(t, cmp, y);
    }
    // x and y are then the last members of one and the same class
    EquivalentsLast(t, x, cmp);
    EquivalentsLast(u, x, cmp);
    assert Equivalents(t, x, cmp) == Equivalents(u, x, cmp);
  }

  /** Dropping a shared last element keeps two sequences mutually stable. */
  lemma StablePrefixes<T(!new)>(t: seq<T>, u: seq<T>, cmp: (T, T) -> int)
    requires Stable(t, u, cmp) && t != [] && u != [] && t[|t| - 1] == u[|u| - 1]
    ensures Stable(t[..|t| - 1], u[..|u| - 1], cmp)
  {
    var x, t', u' := t[|t| - 1], t[..|t| - 1], u[..|u| - 1];
    forall e ensures Equivalents(t', e, cmp) == Equivalents(u', e, cmp) {
      var a, b := Equivalents(t', e, cmp), Equivalents(u', e, cmp);
      var c := if cmp(e, x) == 0 then [x] else [];
      assert Equivalents(t, e, cmp) == a + c;
      assert Equivalents(u, e, cmp) == b + c;
      assert a == (a + c)[..|a|] && b == (b + c)[..|b|];
    }
  }

  /** Two sorted sequences with the same classes of equivalent elements, in
      the same order, are identical. */
  lemma {:induction false} SortedStableUnique<T(!new)>(t: seq<T>, u: seq<T>, cmp: (T, T) -> int)
    requires TotalPreorder(cmp) && Sorted(t, cmp) && Sorted(u, cmp)
    requires Stable(t, u, cmp)
    ensures t == u
    decreases |t|
  {
    if t == [] {
      StableEmpty(t, u, cmp);
    } else if u == [] {
      StableEmpty(u, t, cmp);
    } else {
      StableLastsAgree(t, u, cmp);
      StablePrefixes(t, u, cmp);
      SortedPrefix(t, cmp);
      SortedPrefix(u, cmp);
      SortedStableUnique(t[..|t| - 1], u[..|u| - 1], cmp);
      assert t == t[..|t| - 1] + [t[|t| - 1]] && u == u[..|u| - 1] + [u[|u| - 1]];
    }
  }

  /** SortSpec is the one stable sort: any ordered sequence that keeps every
      class of equivalent elements in input order is SortSpec's result. */
  lemma SortSpecUnique<T(!new)>(s: seq<T>, t: seq<T>, cmp: (T, T) -> int)
    requires TotalPreorder(cmp) && Sorted(t, cmp) && Stable(t, s, cmp)
    ensures t == SortSpec(s, cmp)
  {
    SortSpecSorted(s, cmp);
    SortSpecStable(s, cmp);
    SortedStableUnique(t, SortSpec(s, cmp), cmp);
  }

  /** An already sorted sequence is returned unchanged. */
  lemma SortedIsFixpoint<T(!new)>(s: seq<T>, cmp: (T, T) -> int)
    requires TotalPreorder(cmp) && Sorted(s, cmp)
    ensures SortSpec(s, cmp) == s
  {
    SortSpecUnique(s, s, cmp);
  }

  /** Sorting a sorted result again returns the identical sequence. */
  lemma SortSpecIdempotent<T(!new)>(s: seq<T>, cmp: (T, T) -> int)
    requires TotalPreorder(cmp)
    ensures SortSpec(SortSpec(s, cmp), cmp) == SortSpec(s, cmp)
  {
    SortSpecSorted(s, cmp);
    SortedIsFixpoint(SortSpec(s, cmp), cmp);
  }

  /** One step of the right-to-left scan: `x` moves past `p[j - 1]`. */
  lemma InsertSortedStep<T>(p: seq<T>, x: T, j: nat, cmp: (T, T) -> int)
    requires 0 < j <= |p| && cmp(p[j - 1], x) > 0
    ensures InsertSorted(p[..j], x, cmp) + p[j..] == InsertSorted(p[..j - 1], x, cmp) + p[j - 1..]
  {
    assert p[..j][..j - 1] == p[..j - 1];
    assert [p[j - 1]] + p[j..] == p[j - 1..];
  }

  /** The scan stops in front of the first element that is not greater. */
  lemma InsertSortedStop<T>(p: seq<T>, x: T, j: nat, cmp: (T, T) -> int)
    requires j <= |p| && (j == 0 || cmp(p[j - 1], x) <= 0)
    ensures InsertSorted(p[..j], x, cmp) == p[..j] + [x]
  {
    if j == 0 {
      assert p[..j] == [];
    }
  }

  /** One shift of the scan: copying `b[j - 1]` into the slot at `j` moves
      the slot one place to the left. */
  lemma ShiftStep<T>(b: seq<T>, b': seq<T>, p: seq<T>, j: nat, i: nat)
    requires 0 < j <= i == |p| < |b|
    requires b[..i + 1] == p[..j] + [b[j]] + p[j..]
    requires b' == b[j := b[j - 1]]
    ensures b[j - 1] == p[j - 1]
    ensures b'[..i + 1] == p[..j - 1] + [b'[j - 1]] + p[j - 1..]
    ensures b'[i + 1..] == b[i + 1..]
  {
    assert b[j - 1] == b[..i + 1][j - 1];
    assert b'[..i + 1] == b[..i + 1][j := b[j - 1]];
  }

  /** Writing `x` into the slot completes the insertion. */
  lemma FillSlot<T>(b: seq<T>, b': seq<T>, p: seq<T>, x: T, j: nat, i: nat)
    requires j <= i == |p| < |b|
    requires b[..i + 1] == p[..j] + [b[j]] + p[j..]
    requires b' == b[j := x]
    ensures b'[..i + 1] == p[..j] + [x] + p[j..]
    ensures b'[i + 1..] == b[i + 1..]
  {
    assert b'[..i + 1] == b[..i + 1][j := x];
  }

  /** Moves `a[i]` left into the sorted prefix `a[..i]`, shifting every
      element that compares greater than it one place to the right. */
  method InsertLast<T>(a: array<T>, i: nat, cmp: (T, T) -> int)
    requires i < a.Length
    modifies a
    ensures a[..i + 1] == InsertSorted(old(a[..i]), old(a[i]), cmp)
    ensures a[i + 1..] == old(a[i + 1..])
  {
    ghost var p := a[..i];
    var x := a[i];
    var j := i;
    assert p[..j] == p && p[j..] == [];
    assert a[..i + 1] == p[..j] + [a[j]] + p[j..];
    while j > 0 && cmp(a[j - 1], x) > 0
      invariant 0 <= j <= i
      invariant a[..i + 1] == p[..j] + [a[j]] + p[j..]
      invariant a[i + 1..] == old(a[i + 1..])
      invariant InsertSorted(p, x, cmp) == InsertSorted(p[..j], x, cmp) + p[j..]
    {
      ghost var before := a[..];
      a[j] := a[j - 1];
      ShiftStep(before, a[..], p, j, i);
      InsertSortedStep(p, x, j, cmp);
      j := j - 1;
    }
    ghost var before := a[..];
    if j > 0 {
      assert a[j - 1] == a[..i + 1][j - 1] == p[j - 1];
    }
    InsertSortedStop(p, x, j, cmp);
    a[j] := x;
    FillSlot(before, a[..], p, x, j, i);
  }

  /** Sorts `a` in place by insertion from the right. */
  method SortInPlace<T>(a: array<T>, cmp: (T, T) -> int)
    modifies a
    ensures a[..] == SortSpec(old(a[..]), cmp)
  {
    ghost var input := a[..];
    var i := 0;
    while i < a.Length
      invariant 0 <= i <= a.Length
      invariant a[..i] == SortSpec(input[..i], cmp)
      invariant forall k :: i <= k < a.Length ==> a[k] == input[k]
    {
      ghost var before := a[..];
      InsertLast(a, i, cmp);
      assert a[..i + 1] == SortSpec(input[..i + 1], cmp) by {
        assert before[..i] == SortSpec(input[..i], cmp);
        assert input[..i + 1][..i] == input[..i];
      }
      i := i + 1;
    }
    assert a[..] == a[..a.Length] && input == input[..a.Length];
  }
}
