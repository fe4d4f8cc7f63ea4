# Repository summary sort (git-diary)

This project models `sortRepoSummaries` from `src/lib/domain/repoSort.ts`.
The function orders repository summaries for display. It takes a sort field
(`name`, `firstCommitDate`, `totalCommits` or `lastCommitDate`) and a
direction (`asc` or `desc`). It copies the input array, sorts the copy in
place with a three-way comparator, and returns the copy.

The model has four modules:

- `Collation` (`collation.dfy`): an ordinal three-way string comparison and
  ASCII lower-casing. These stand in for `localeCompare` and `toLowerCase`.
- `RepoCompare` (`repo_compare.dfy`): the record fields the comparator reads,
  `RepoSortField`, `SortDirection`, and the comparator. The comparator is a
  `match` over the field followed by negation for `desc`, as in the source.
  Lemmas cover null-date placement, the `lastPushedAt` tie-break,
  case-insensitive names, and that the comparator is a consistent total
  preorder for every field and direction.
- `StableSort` (`stable_sort.dfy`): the built-in stable `Array.prototype.sort`
  applied to a comparator function.
  - It is specified by a functional insertion sort, `SortSpec`.
  - `SortInPlace` sorts an array in place by right-to-left insertion and is
    proved to compute `SortSpec`.
  - For any consistent comparator, the result is proved to be a permutation,
    ordered, stable and idempotent.
  - It is also proved to be the only sequence that is both ordered and stable.
    Any stable sort therefore gives the same result, so the choice of
    insertion sort loses nothing.
- `RepoSort` (`repo_sort.dfy`): `SortRepoSummaries` and the properties of its
  result.
  - `SortRepoSummaries` allocates a fresh array, copies the input into it and
    sorts the copy; the input array is unchanged.
  - Stated properties: nulls last under `asc` and first under `desc`;
    commit counts monotone; same-date records ordered by push timestamp;
    names in case-insensitive order, with case-only variants kept in input
    order.
  - `desc` is exactly the reverse of `asc` if and only if every class of
    tied records, taken in input order, reads the same backwards.

The descending quirk is preserved. `desc` negates the whole comparison,
null handling included, so records without a date come first under `desc`.

One might expect `desc` to return the reversed `asc` result whenever no dates
are missing, and never when some are. That is not how it behaves. Negating
the comparison keeps records that compare equal in their input order, so
reversal depends on ties, not on missing dates:

- `DescendingIsReverseIff`: `desc` is the reversed `asc` exactly when each
  tie class reads the same backwards, e.g. it has one member, or it is
  `[x, y, x]`.
- `DescendingIsReverseWithoutTies`: having no ties at all is therefore
  enough, though not necessary.
- `NullFirstCommitDateExample`: a missing date is present, and `desc` is
  still the reversed `asc`.
- `SameDateNotReversed`: two records with the same first commit date.
  No date is missing, yet `desc` is not the reversed `asc`.
- `TiedNullsNotReversed`: two records that both lack a first commit date
  tie in the same way.

What ties depends on the field:

- Name: `owner/name` strings that are equal up to letter case.
- First commit date: the same date, or both missing.
- Total commits: the same commit count.
- Last commit date: both missing, or the same date with the same push
  timestamp. Equal last commit dates with different push timestamps do
  not tie.

## Model

| member | source | states |
|---|---|---|
| `Collation.CompareStrings` | src/lib/domain/repoSort.ts:36 | the string comparison returns -1, 0 or 1, and 0 exactly when the strings are equal |
| `Collation.CompareStringsAntisymmetric` | src/lib/domain/repoSort.ts:36 | swapping the two strings negates the result |
| `Collation.CompareStringsTransitive` | src/lib/domain/repoSort.ts:36 | "not after" is transitive, so the string order is total |
| `Collation.EmptyIsLeast` | src/lib/domain/repoSort.ts:56-58 | the empty string (what a missing push timestamp becomes) sorts before every non-empty string |
| `Collation.LowerAsciiEqual` | src/lib/domain/repoSort.ts:21-22 | two lower-cased strings are equal exactly when the originals have the same length and differ only in letter case |
| `RepoCompare.CompareReflexive` | src/lib/domain/repoSort.ts:16-65 | every record compares equal to itself, for every field and direction |
| `RepoCompare.CompareAntisymmetric` | src/lib/domain/repoSort.ts:16-65 | swapping the two records flips the sign of the comparison, for every field and direction |
| `RepoCompare.CompareTransitive` | src/lib/domain/repoSort.ts:16-65 | "not after" is transitive for every field and direction |
| `RepoCompare.NullDateGreatest` | src/lib/domain/repoSort.ts:29-52 | for both date fields, a record without the date compares greater than one with it under `asc`, and smaller under `desc` |
| `RepoCompare.FirstCommitDateEquivalent` | src/lib/domain/repoSort.ts:29-36 | by first commit date, two records compare equal exactly when both dates are null or both are present and equal |
| `RepoCompare.LastCommitDateEquivalent` | src/lib/domain/repoSort.ts:47-59 | by last commit date, two records compare equal exactly when both dates are null, or both are equal and their push timestamps (null read as "") are equal too |
| `RepoCompare.LastCommitDateTieBreak` | src/lib/domain/repoSort.ts:55-59 | equal last commit dates compare as their push timestamps, and a record without a push timestamp comes before one with a non-empty timestamp |
| `RepoCompare.NameCaseInsensitive` | src/lib/domain/repoSort.ts:21-23 | by name, two records compare equal exactly when their `owner/name` strings differ at most in letter case |
| `RepoCompare.TotalCommitsOrder` | src/lib/domain/repoSort.ts:41-43 | by total commits, `asc` puts the smaller commit count first and `desc` the larger |
| `RepoSort.ComparatorConsistent` | src/lib/domain/repoSort.ts:16-66 | the comparator handed to the sort is a total preorder (reflexive, sign-antisymmetric, transitive) for every field and direction |
| `RepoSort.SortedSummariesCorrect` | src/lib/domain/repoSort.ts:14-68 | the result is a permutation of the input, is ordered for every pair of positions, is stable, and is the only sequence that is both ordered and stable |
| `RepoSort.SortedSummariesIdempotent` | src/lib/domain/repoSort.ts:14-68 | sorting the result again by the same field and direction returns the identical sequence |
| `RepoSort.Ordered` | src/lib/domain/repoSort.ts:16-66 | every earlier record compares "not after" every later one, under the direction-adjusted comparator |
| `RepoSort.NullDatesLastAscending` | src/lib/domain/repoSort.ts:29-52 | by a date field under `asc`, no record with the date follows a record without it |
| `RepoSort.NullDatesFirstDescending` | src/lib/domain/repoSort.ts:65 | by a date field under `desc`, no record without the date follows a record with it |
| `RepoSort.TotalCommitsMonotone` | src/lib/domain/repoSort.ts:41-43 | by total commits, `commitsAll` is non-decreasing along an `asc` result and non-increasing along a `desc` result |
| `RepoSort.LastCommitTiesByPush` | src/lib/domain/repoSort.ts:55-59 | by last commit date under `asc`, records with the same date appear in push-timestamp order, and one without a push timestamp never follows one with a non-empty timestamp |
| `RepoSort.NameOrderStable` | src/lib/domain/repoSort.ts:16-23 | by name under `asc`, lower-cased `owner/name` keys ascend, and records whose keys differ only in case keep their input order |
| `RepoSort.DescendingIsReverseIff` | src/lib/domain/repoSort.ts:16-65 | the `desc` result is exactly the reversed `asc` result if and only if every class of tied records, in input order, reads the same backwards |
| `RepoSort.DescendingIsReverseWithoutTies` | src/lib/domain/repoSort.ts:65 | when no two records compare equal, the `desc` result is exactly the reversed `asc` result |
| `RepoSort.TiedNullsNotReversed` | src/lib/domain/repoSort.ts:29-30 | two records that both lack a first commit date keep their input order in both directions, so `desc` is then not the reversed `asc` |
| `RepoSort.NullFirstCommitDateExample` | src/lib/domain/repoSort.ts:27-39 | a record without a first commit date sorts after one dated 2025-01-01 under `asc`, and before it under `desc`, so here `desc` is the reversed `asc` |
| `RepoSort.SameDateNotReversed` | src/lib/domain/repoSort.ts:35-36 | two records with the same first commit date keep their input order in both directions, so `desc` is then not the reversed `asc` |
| `RepoSort.SortRepoSummaries` | src/lib/domain/repoSort.ts:9-68 | returns a freshly allocated array holding the stable sort of the input by the chosen comparator, and leaves the input array unchanged |
| `StableSort.SortInPlace` | src/lib/domain/repoSort.ts:16 | the in-place sort leaves the array holding the stable insertion sort of its old contents |
| `StableSort.InsertLast` | src/lib/domain/repoSort.ts:16 | one insertion step leaves the first i+1 cells holding the old prefix with the old element at i inserted into it, and all later cells unchanged |
| `StableSort.SortSpecPermutation` | src/lib/domain/repoSort.ts:14-16 | the sorted sequence has the same multiset of elements as the input |
| `StableSort.SortSpecSorted` | src/lib/domain/repoSort.ts:16 | for a consistent comparator, each element of the result compares "not after" its successor |
| `StableSort.SortSpecStable` | src/lib/domain/repoSort.ts:16 | for a consistent comparator, every class of equivalent elements appears in the result in its input order |
| `StableSort.SortSpecUnique` | src/lib/domain/repoSort.ts:16 | every ordered sequence that keeps each equivalence class in input order equals the sort's result |
| `StableSort.SortSpecIdempotent` | src/lib/domain/repoSort.ts:16 | for a consistent comparator, sorting the result again changes nothing |

## Left out

- Locale collation: `localeCompare` is modelled as ordinal comparison of characters, returning -1, 0 or 1. For ISO `YYYY-MM-DD` dates this gives the same order. For names and push timestamps it may order punctuation and digits differently from a locale's rules.
- Unicode lower-casing: `toLowerCase` is modelled as ASCII lower-casing. Names that differ only in the case of non-ASCII letters compare unequal in the model.
- Number representation: `commitsAll` is an unbounded integer. The source subtracts two JavaScript numbers. The model does not cover floating-point rounding or a missing `commitsAll`, which would make the difference `NaN`.
- Sorting algorithm: the engine's own `Array.prototype.sort` algorithm is not modelled; insertion sort takes its place. `StableSort.SortSpecUnique` shows that every stable sort gives the same result with this comparator, so the output is the same.
- The `RepoSummary` type module `types.ts` is not part of this model. The record carries only the six fields the comparator reads. A missing and a null `lastPushedAt` are both `None`, since `??` treats them alike.
- Everything outside `repoSort.ts` is left out because it is I/O or is not shown:
  - the database queries and their test;
  - the HTTP and page handlers;
  - the snapshot script;
  - the streak, gap and regularity functions of `stats.ts`, which are not part of this model.
