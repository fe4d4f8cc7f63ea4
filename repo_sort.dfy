/** `sortRepoSummaries`: copy the input array and sort the copy stably with
    the repository comparator for the chosen field and direction. */
module RepoSort {
  import opened Collation
  import opened RepoCompare
  import opened StableSort

  /** The comparator function passed to the sort. */
  function Comparator(field: RepoSortField, direction: SortDirection): (RepoSummary, RepoSummary) -> int {
    (a: RepoSummary, b: RepoSummary) => Compare(a, b, field, direction)
  }

  /** For every field and direction the comparator is consistent, so the
      sort's result is fully determined (no implementation-defined order). */
  lemma ComparatorConsistent(field: RepoSortField, direction: SortDirection)
    ensures TotalPreorder(Comparator(field, direction))
  {
    var cmp := Comparator(field, direction);
    forall x ensures cmp(x, x) == 0 {
      CompareReflexive(x, field, direction);
    }
    forall x, y ensures cmp(x, y) < 0 <==> cmp(y, x) > 0 {
      CompareAntisymmetric(x, y, field, direction);
    }
    forall x, y, z | cmp(x, y) <= 0 && cmp(y, z) <= 0 ensures cmp(x, z) <= 0 {
      CompareTransitive(x, y, z, field, direction);
    }
  }

  /** The sorted summaries: the input's stable sort under the comparator. */
  function SortedSummaries(s: seq<RepoSummary>, field: RepoSortField, direction: SortDirection): seq<RepoSummary> {
    SortSpec(s, Comparator(field, direction))
  }

  /** The result is a permutation of the input, ordered by the comparator for
      every pair of positions, stable, and the only sequence with the last
      two properties. */
  lemma SortedSummariesCorrect(s: seq<RepoSummary>, field: RepoSortField, direction: SortDirection)
    ensures var t := SortedSummaries(s, field, direction);
            && multiset(t) == multiset(s)
            && (forall i, j :: 0 <= i < j < |t| ==> Compare(t[i], t[j], field, direction) <= 0)
            && Stable(t, s, Comparator(field, direction))
    ensures forall u :: Sorted(u, Comparator(field, direction)) && Stable(u, s, Comparator(field, direction))
              ==> u == SortedSummaries(s, field, direction)
  {
    var cmp := Comparator(field, direction);
    ComparatorConsistent(field, direction);
    SortSpecPermutation(s, cmp);
    SortSpecOrdered(s, cmp);
    SortSpecStable(s, cmp);
    forall u | Sorted(u, cmp) && Stable(u, s, cmp) ensures u == SortSpec(s, cmp) {
      SortSpecUnique(s, u, cmp);
    }
  }

  /** Sorting an already sorted result again by the same field and direction
      returns the identical sequence. */
  lemma SortedSummariesIdempotent(s: seq<RepoSummary>, field: RepoSortField, direction: SortDirection)
    ensures SortedSummaries(SortedSummaries(s, field, direction), field, direction)
         == SortedSummaries(s, field, direction)
  {
    ComparatorConsistent(field, direction);
    SortSpecIdempotent(s, Comparator(field, direction));
  }

  /** The result is ordered for every pair of positions. */
  lemma Ordered(s: seq<RepoSummary>, field: RepoSortField, direction: SortDirection)
    ensures var t := SortedSummaries(s, field, direction);
            forall i, j :: 0 <= i < j < |t| ==> Compare(t[i], t[j], field, direction) <= 0
  {
    var t, cmp := SortedSummaries(s, field, direction), Comparator(field, direction);
    ComparatorConsistent(field, direction);
    SortSpecOrdered(s, cmp);
    assert t == SortSpec(s, cmp);
    forall i, j | 0 <= i < j < |t| ensures Compare(t[i], t[j], field, direction) <= 0 {
      assert cmp(t[i], t[j]) <= 0;
    }
  }

  /** By a date field under `asc`, every record with a date comes before every
      record without one. */
  lemma NullDatesLastAscending(s: seq<RepoSummary>, field: RepoSortField)
    requires IsDateField(field)
    ensures var t := SortedSummaries(s, field, Asc);
            forall i, j :: 0 <= i < j < |t| && DateOf(t[i], field).None? ==> DateOf(t[j], field).None?
  {
    Ordered(s, field, Asc);
  }

  /** By a date field under `desc`, every record without a date comes before
      every record with one: negating the comparator moves nulls to the front. */
  lemma NullDatesFirstDescending(s: seq<RepoSummary>, field: RepoSortField)
    requires IsDateField(field)
    ensures var t := SortedSummaries(s, field, Desc);
            forall i, j :: 0 <= i < j < |t| && DateOf(t[j], field).None? ==> DateOf(t[i], field).None?
  {
    Ordered(s, field, Desc);
  }

  /** By total commits, the commit count never decreases along an `asc`
      result and never increases along a `desc` result. */
  lemma TotalCommitsMonotone(s: seq<RepoSummary>)
    ensures var t := SortedSummaries(s, TotalCommits, Asc);
            forall i, j :: 0 <= i < j < |t| ==> t[i].commitsAll <= t[j].commitsAll
    ensures var t := SortedSummaries(s, TotalCommits, Desc);
            forall i, j :: 0 <= i < j < |t| ==> t[i].commitsAll >= t[j].commitsAll
  {
    Ordered(s, TotalCommits, Asc);
    Ordered(s, TotalCommits, Desc);
  }

  /** By last commit date under `asc`, records with the same date appear in
      push-timestamp order, so one without a push timestamp never follows one
      with a non-empty timestamp. */
  lemma LastCommitTiesByPush(s: seq<RepoSummary>)
    ensures var t := SortedSummaries(s, LastCommitDate, Asc);
            forall i, j :: 0 <= i < j < |t| && t[i].lastCommitDate.Some? && t[i].lastCommitDate == t[j].lastCommitDate
              ==> CompareStrings(PushedKey(t[i]), PushedKey(t[j])) <= 0
                  && !(t[j].lastPushedAt.None? && t[i].lastPushedAt.Some? && t[i].lastPushedAt.value != "")
  {
    var t := SortedSummaries(s, LastCommitDate, Asc);
    Ordered(s, LastCommitDate, Asc);
    forall i, j | 0 <= i < j < |t| && t[i].lastCommitDate.Some? && t[i].lastCommitDate == t[j].lastCommitDate
      ensures CompareStrings(PushedKey(t[i]), PushedKey(t[j])) <= 0
    {
      LastCommitDateTieBreak(t[i], t[j], t[i].lastCommitDate.value);
    }
  }

  /** By name, the `owner/name` keys ascend case-insensitively, and records
      whose keys differ only in letter case keep their input order. */
  lemma NameOrderStable(s: seq<RepoSummary>, e: RepoSummary)
    ensures var t := SortedSummaries(s, Name, Asc);
            && Equivalents(t, e, Comparator(Name, Asc)) == Equivalents(s, e, Comparator(Name, Asc))
            && forall i, j :: 0 <= i < j < |t| ==> CompareStrings(NameKey(t[i]), NameKey(t[j])) <= 0
  {
    ComparatorConsistent(Name, Asc);
    SortSpecStable(s, Comparator(Name, Asc));
    Ordered(s, Name, Asc);
  }

  /** No two records of `s` compare equal under the field. */
  predicate NoTies(s: seq<RepoSummary>, field: RepoSortField) {
    forall i, j :: 0 <= i < |s| && 0 <= j < |s| && i != j ==> Compare(s[i], s[j], field, Asc) != 0
  }

  function Reverse<T>(s: seq<T>): (r: seq<T>)
    ensures |r| == |s|
    ensures forall i :: 0 <= i < |s| ==> r[i] == s[|s| - 1 - i]
  {
    if s == [] then [] else [s[|s| - 1]] + Reverse(s[..|s| - 1])
  }

  /** Negation does not change which records are equivalent. */
  lemma {:induction false} EquivalentsDirection(s: seq<RepoSummary>, e: RepoSummary, field: RepoSortField)
    ensures Equivalents(s, e, Comparator(field, Desc)) == Equivalents(s, e, Comparator(field, Asc))
  {
    if s != [] {
      EquivalentsDirection(s[..|s| - 1], e, field);
    }
  }

  /** Without ties each class has at most one member. */
  lemma {:induction false} EquivalentsAtMostOne(s: seq<RepoSummary>, e: RepoSummary, field: RepoSortField)
    requires NoTies(s, field)
    ensures |Equivalents(s, e, Comparator(field, Asc))| <= 1
  {
    if s != [] {
      var cmp := Comparator(field, Asc);
      var init, last := s[..|s| - 1], s[|s| - 1];
      assert NoTies(init, field) by {
        forall i, j | 0 <= i < |init| && 0 <= j < |init| && i != j ensures Compare(init[i], init[j], field, Asc) != 0 {
          assert init[i] == s[i] && init[j] == s[j];
        }
      }
      EquivalentsAtMostOne(init, e, field);
      var q := Equivalents(init, e, cmp);
      if q != [] && Compare(e, last, field, Asc) == 0 {
        EquivalentsMembers(init, e, cmp, q[0]);
        var k :| 0 <= k < |init| && init[k] == q[0];
        ComparatorConsistent(field, Asc);
        assert false;
      }
    }
  }

  lemma {:induction false} EquivalentsReverse<T>(s: seq<T>, e: T, cmp: (T, T) -> int)
    ensures Equivalents(Reverse(s), e, cmp) == Reverse(Equivalents(s, e, cmp))
  {
    if s != [] {
      var init, last := s[..|s| - 1], s[|s| - 1];
      EquivalentsReverse(init, e, cmp);
      var tail := if cmp(e, last) == 0 then [last] else [];
      EquivalentsAppend([last], Reverse(init), e, cmp);
      assert Equivalents([last], e, cmp) == tail by {
        assert [last][..0] == [];
      }
      var q := Equivalents(init, e, cmp);
      assert Reverse(q + tail) == tail + Reverse(q);
    }
  }

  /** Reversing an `asc`-ordered sequence gives a `desc`-ordered one. */
  lemma ReverseOrder(a: seq<RepoSummary>, field: RepoSortField)
    requires Sorted(a, Comparator(field, Asc))
    ensures Sorted(Reverse(a), Comparator(field, Desc))
  {
    var t := Reverse(a);
    forall i | 0 <= i < |t| - 1 ensures Compare(t[i], t[i + 1], field, Desc) <= 0 {
      assert t[i] == a[|a| - 1 - i] && t[i + 1] == a[|a| - 2 - i];
      assert Comparator(field, Asc)(a[|a| - 2 - i], a[|a| - 1 - i]) <= 0;
      CompareByFieldAntisymmetric(t[i], t[i + 1], field);
    }
  }

  /** Every class of equivalent records of `s`, taken in input order, reads
      the same backwards: for instance it has at most one member, or it is
      `[x, y, x]`. */
  ghost predicate PalindromicTies(s: seq<RepoSummary>, field: RepoSortField) {
    forall e :: Reverse(Equivalents(s, e, Comparator(field, Asc))) == Equivalents(s, e, Comparator(field, Asc))
  }

  /** Without ties every class has at most one member, so reads the same
      backwards. */
  lemma NoTiesPalindromic(s: seq<RepoSummary>, field: RepoSortField)
    requires NoTies(s, field)
    ensures PalindromicTies(s, field)
  {
    forall e ensures Reverse(Equivalents(s, e, Comparator(field, Asc))) == Equivalents(s, e, Comparator(field, Asc)) {
      EquivalentsAtMostOne(s, e, field);
    }
  }

  /** When every class reads the same backwards, reversing a stable `asc`
      arrangement is a stable `desc` arrangement. */
  lemma ReverseStable(a: seq<RepoSummary>, s: seq<RepoSummary>, field: RepoSortField)
    requires PalindromicTies(s, field) && Stable(a, s, Comparator(field, Asc))
    ensures Stable(Reverse(a), s, Comparator(field, Desc))
  {
    var up, down := Comparator(field, Asc), Comparator(field, Desc);
    forall e ensures Equivalents(Reverse(a), e, down) == Equivalents(s, e, down) {
      EquivalentsReverse(a, e, down);
      EquivalentsDirection(a, e, field);
      EquivalentsDirection(s, e, field);
      assert Equivalents(a, e, up) == Equivalents(s, e, up);
      assert Reverse(Equivalents(s, e, up)) == Equivalents(s, e, up);
    }
  }

  /** If `desc` returns the reversed `asc` result, every class reads the same
      backwards: stability makes the class's order under `desc` both its
      input order and the reverse of its input order. */
  lemma ReversedIsPalindromic(s: seq<RepoSummary>, field: RepoSortField)
    requires SortedSummaries(s, field, Desc) == Reverse(SortedSummaries(s, field, Asc))
    ensures PalindromicTies(s, field)
  {
    var up, down := Comparator(field, Asc), Comparator(field, Desc);
    var a := SortedSummaries(s, field, Asc);
    ComparatorConsistent(field, Asc);
    ComparatorConsistent(field, Desc);
    SortSpecStable(s, up);
    SortSpecStable(s, down);
    forall e ensures Reverse(Equivalents(s, e, up)) == Equivalents(s, e, up) {
      EquivalentsReverse(a, e, down);
      EquivalentsDirection(a, e, field);
      EquivalentsDirection(s, e, field);
      assert Equivalents(a, e, up) == Equivalents(s, e, up);
      assert Equivalents(Reverse(a), e, down) == Equivalents(s, e, down);
    }
  }

  /** `desc` returns exactly the reverse of `asc` if and only if every class
      of tied records reads the same backwards in the input. Under `desc`,
      the negated comparator keeps tied records in input order rather than
      reversing them. */
  lemma DescendingIsReverseIff(s: seq<RepoSummary>, field: RepoSortField)
    ensures SortedSummaries(s, field, Desc) == Reverse(SortedSummaries(s, field, Asc))
        <==> PalindromicTies(s, field)
  {
    if PalindromicTies(s, field) {
      var a := SortedSummaries(s, field, Asc);
      ComparatorConsistent(field, Asc);
      ComparatorConsistent(field, Desc);
      SortSpecSorted(s, Comparator(field, Asc));
      SortSpecStable(s, Comparator(field, Asc));
      ReverseOrder(a, field);
      ReverseStable(a, s, field);
      SortSpecUnique(s, Reverse(a), Comparator(field, Desc));
    }
    if SortedSummaries(s, field, Desc) == Reverse(SortedSummaries(s, field, Asc)) {
      ReversedIsPalindromic(s, field);
    }
  }

  /** In particular, when no two records tie, `desc` returns exactly the
      reverse of `asc`; records with a missing date then come first under
      `desc`, as the reverse of coming last under `asc`. */
  lemma DescendingIsReverseWithoutTies(s: seq<RepoSummary>, field: RepoSortField)
    requires NoTies(s, field)
    ensures SortedSummaries(s, field, Desc) == Reverse(SortedSummaries(s, field, Asc))
  {
    NoTiesPalindromic(s, field);
    DescendingIsReverseIff(s, field);
  }

  /** Ties break the reversal: two records that both lack a first commit date
      keep their input order under both directions. */
  lemma TiedNullsNotReversed()
    ensures var a := RepoSummary("o", "a", None, None, None, 0);
            var b := RepoSummary("o", "b", None, None, None, 0);
            && SortedSummaries([a, b], FirstCommitDate, Asc) == [a, b]
            && SortedSummaries([a, b], FirstCommitDate, Desc) == [a, b]
            && SortedSummaries([a, b], FirstCommitDate, Desc) != Reverse(SortedSummaries([a, b], FirstCommitDate, Asc))
  {
    var a := RepoSummary("o", "a", None, None, None, 0);
    var b := RepoSummary("o", "b", None, None, None, 0);
    assert [a, b][..1] == [a];
    assert [a][..0] == [];
    assert Reverse([a, b])[0] == b;
  }

  /** A record without a first commit date sorts after one with a date under
      `asc`, and before it under `desc`. */
  lemma NullFirstCommitDateExample()
    ensures var a := RepoSummary("o", "a", None, None, None, 0);
            var b := RepoSummary("o", "b", Some("2025-01-01"), None, None, 0);
            && SortedSummaries([a, b], FirstCommitDate, Asc) == [b, a]
            && SortedSummaries([a, b], FirstCommitDate, Desc) == [a, b]
            && SortedSummaries([a, b], FirstCommitDate, Desc) == Reverse(SortedSummaries([a, b], FirstCommitDate, Asc))
  {
    var a := RepoSummary("o", "a", None, None, None, 0);
    var b := RepoSummary("o", "b", Some("2025-01-01"), None, None, 0);
    assert [a, b][..1] == [a];
    assert [a][..0] == [];
    assert Reverse([b, a]) == [a, b];
  }

  /** Ties without null dates break the reversal too: two records with the
      same first commit date keep their input order under both directions. */
  lemma SameDateNotReversed()
    ensures var a := RepoSummary("o", "a", Some("2025-01-01"), None, None, 0);
            var b := RepoSummary("o", "b", Some("2025-01-01"), None, None, 0);
            && SortedSummaries([a, b], FirstCommitDate, Asc) == [a, b]
            && SortedSummaries([a, b], FirstCommitDate, Desc) == [a, b]
            && SortedSummaries([a, b], FirstCommitDate, Desc) != Reverse(SortedSummaries([a, b], FirstCommitDate, Asc))
  {
    var a := RepoSummary("o", "a", Some("2025-01-01"), None, None, 0);
    var b := RepoSummary("o", "b", Some("2025-01-01"), None, None, 0);
    assert [a, b][..1] == [a];
    assert [a][..0] == [];
    assert Reverse([a, b])[0] == b;
  }

  /** Returns a fresh sorted copy of `repos`; `repos` itself is not modified. */
  method SortRepoSummaries(repos: array<RepoSummary>, field: RepoSortField, direction: SortDirection)
    returns (sorted: array<RepoSummary>)
    ensures fresh(sorted)
    ensures sorted[..] == SortedSummaries(repos[..], field, direction)
    ensures repos[..] == old(repos[..])
  {
    sorted := new RepoSummary[repos.Length](k requires 0 <= k < repos.Length reads repos => repos[k]);
    assert sorted[..] == repos[..];
    SortInPlace(sorted, Comparator(field, direction));
  }
}
