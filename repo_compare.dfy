/** The record the repository comparator reads, the sort field and
    direction, and the three-way comparator itself with its properties. */
module RepoCompare {
  import opened Collation

  datatype Option<T> = None | Some(value: T)

  /** The fields of a repository summary that the comparator reads.
      `commitsAll` is the repository's total commit count. */
  datatype RepoSummary = RepoSummary(
    owner: string,
    name: string,
    firstCommitDate: Option<string>,
    lastCommitDate: Option<string>,
    lastPushedAt: Option<string>,
    commitsAll: int)

  datatype RepoSortField = Name | FirstCommitDate | TotalCommits | LastCommitDate

  datatype SortDirection = Asc | Desc

  /** The case-insensitive sort key `owner/name`. */
  function NameKey(r: RepoSummary): string {
    LowerAscii(r.owner + "/" + r.name)
  }

  /** The push timestamp used as a tie-break, with a missing one read as "". */
  function PushedKey(r: RepoSummary): string {
    match r.lastPushedAt
    case None => ""
    case Some(p) => p
  }

  predicate IsDateField(field: RepoSortField) {
    field == FirstCommitDate || field == LastCommitDate
  }

  /** The date a date field sorts by. */
  function DateOf(r: RepoSummary, field: RepoSortField): Option<string>
    requires IsDateField(field)
  {
    if field == FirstCommitDate then r.firstCommitDate else r.lastCommitDate
  }

  /** Comparison of nullable dates: a missing date is greater than any date. */
  function CompareDates(x: Option<string>, y: Option<string>): int {
    match (x, y)
    case (None, None) => 0
    case (None, Some(_)) => 1
    case (Some(_), None) => -1
    case (Some(dx), Some(dy)) => CompareStrings(dx, dy)
  }

  /** The comparison for one field, before the direction is applied. */
  function CompareByField(a: RepoSummary, b: RepoSummary, field: RepoSortField): int {
    match field
    case Name => CompareStrings(NameKey(a), NameKey(b))
    case FirstCommitDate => CompareDates(a.firstCommitDate, b.firstCommitDate)
    case TotalCommits => a.commitsAll - b.commitsAll
    case LastCommitDate =>
      match (a.lastCommitDate, b.lastCommitDate)
      case (Some(da), Some(db)) =>
        var c := CompareStrings(da, db);
        if c == 0 then CompareStrings(PushedKey(a), PushedKey(b)) else c
      case _ => CompareDates(a.lastCommitDate, b.lastCommitDate)
  }

  /** The comparator handed to the sort: `desc` negates the whole
      comparison, null handling included. */
  function Compare(a: RepoSummary, b: RepoSummary, field: RepoSortField, direction: SortDirection): int {
    var c := CompareByField(a, b, field);
    if direction == Asc then c else -c
  }

  function Sign(x: int): int {
    if x < 0 then -1 else if x > 0 then 1 else 0
  }

  /** Every record is equivalent to itself. */
  lemma CompareReflexive(a: RepoSummary, field: RepoSortField, direction: SortDirection)
    ensures Compare(a, a, field, direction) == 0
  {
  }

  lemma CompareByFieldAntisymmetric(a: RepoSummary, b: RepoSummary, field: RepoSortField)
    ensures Sign(CompareByField(a, b, field)) == -Sign(CompareByField(b, a, field))
  {
    match field
    case Name => CompareStringsAntisymmetric(NameKey(a), NameKey(b));
    case FirstCommitDate =>
      if a.firstCommitDate.Some? && b.firstCommitDate.Some? {
        CompareStringsAntisymmetric(a.firstCommitDate.value, b.firstCommitDate.value);
      }
    case TotalCommits =>
    case LastCommitDate =>
      if a.lastCommitDate.Some? && b.lastCommitDate.Some? {
        CompareStringsAntisymmetric(a.lastCommitDate.value, b.lastCommitDate.value);
        CompareStringsAntisymmetric(PushedKey(a), PushedKey(b));
      }
  }

  /** Swapping the operands flips the sign of the comparison, for every
      field and both directions. */
  lemma CompareAntisymmetric(a: RepoSummary, b: RepoSummary, field: RepoSortField, direction: SortDirection)
    ensures Sign(Compare(a, b, field, direction)) == -Sign(Compare(b, a, field, direction))
  {
    CompareByFieldAntisymmetric(a, b, field);
  }

  lemma CompareByFieldTransitive(a: RepoSummary, b: RepoSummary, c: RepoSummary, field: RepoSortField)
    requires CompareByField(a, b, field) <= 0 && CompareByField(b, c, field) <= 0
    ensures CompareByField(a, c, field) <= 0
  {
    match field
    case Name => CompareStringsTransitive(NameKey(a), NameKey(b), NameKey(c));
    case FirstCommitDate =>
      if a.firstCommitDate.Some? && b.firstCommitDate.Some? && c.firstCommitDate.Some? {
        CompareStringsTransitive(a.firstCommitDate.value, b.firstCommitDate.value, c.firstCommitDate.value);
      }
    case TotalCommits =>
    case LastCommitDate =>
      if a.lastCommitDate.Some? && b.lastCommitDate.Some? && c.lastCommitDate.Some? {
        var da, db, dc := a.lastCommitDate.value, b.lastCommitDate.value, c.lastCommitDate.value;
        CompareStringsAntisymmetric(da, db);
        CompareStringsAntisymmetric(db, dc);
        CompareStringsAntisymmetric(da, dc);
        if db == dc && da == db {
          CompareStringsTransitive(PushedKey(a), PushedKey(b), PushedKey(c));
        } else {
          CompareStringsTransitive(da, db, dc);
        }
      }
  }

  /** "Not after" is transitive, for every field and both directions, so the
      comparator is a consistent total preorder. */
  lemma CompareTransitive(a: RepoSummary, b: RepoSummary, c: RepoSummary, field: RepoSortField, direction: SortDirection)
    requires Compare(a, b, field, direction) <= 0 && Compare(b, c, field, direction) <= 0
    ensures Compare(a, c, field, direction) <= 0
  {
    if direction == Asc {
      CompareByFieldTransitive(a, b, c, field);
    } else {
      CompareByFieldAntisymmetric(a, b, field);
      CompareByFieldAntisymmetric(b, c, field);
      CompareByFieldAntisymmetric(a, c, field);
      CompareByFieldTransitive(c, b, a, field);
    }
  }

  /** A missing date compares greater than any date: after it under `asc`,
      and, because `desc` negates, before it under `desc`. */
  lemma NullDateGreatest(a: RepoSummary, b: RepoSummary, field: RepoSortField)
    requires IsDateField(field)
    requires DateOf(a, field).None? && DateOf(b, field).Some?
    ensures Compare(a, b, field, Asc) > 0 && Compare(b, a, field, Asc) < 0
    ensures Compare(a, b, field, Desc) < 0 && Compare(b, a, field, Desc) > 0
  {
  }

  /** By first commit date, two records are equivalent exactly when both
      dates are missing or both are present and equal. */
  lemma FirstCommitDateEquivalent(a: RepoSummary, b: RepoSummary, direction: SortDirection)
    ensures Compare(a, b, FirstCommitDate, direction) == 0 <==> a.firstCommitDate == b.firstCommitDate
  {
  }

  /** By last commit date, two records are equivalent exactly when both dates
      are missing, or both are present, equal, and the push timestamps (a
      missing one read as "") are equal too. */
  lemma LastCommitDateEquivalent(a: RepoSummary, b: RepoSummary, direction: SortDirection)
    ensures Compare(a, b, LastCommitDate, direction) == 0
        <==> a.lastCommitDate == b.lastCommitDate
             && (a.lastCommitDate.Some? ==> PushedKey(a) == PushedKey(b))
  {
  }

  /** Equal last commit dates are ordered by push timestamp; a record with no
      push timestamp comes before one with a non-empty timestamp under `asc`. */
  lemma LastCommitDateTieBreak(a: RepoSummary, b: RepoSummary, d: string)
    requires a.lastCommitDate == Some(d) && b.lastCommitDate == Some(d)
    ensures Compare(a, b, LastCommitDate, Asc) == CompareStrings(PushedKey(a), PushedKey(b))
    ensures a.lastPushedAt.None? && b.lastPushedAt.Some? && b.lastPushedAt.value != ""
            ==> Compare(a, b, LastCommitDate, Asc) < 0
  {
    EmptyIsLeast(PushedKey(b));
  }

  /** By name, two records are equivalent exactly when their `owner/name`
      strings have the same length and differ only in the case of letters. */
  lemma NameCaseInsensitive(a: RepoSummary, b: RepoSummary, direction: SortDirection)
    ensures var ka, kb := a.owner + "/" + a.name, b.owner + "/" + b.name;
            Compare(a, b, Name, direction) == 0
            <==> |ka| == |kb| && forall i :: 0 <= i < |ka| ==> SameIgnoringCase(ka[i], kb[i])
  {
    LowerAsciiEqual(a.owner + "/" + a.name, b.owner + "/" + b.name);
  }

  /** By total commits, `asc` puts the record with fewer commits first. */
  lemma TotalCommitsOrder(a: RepoSummary, b: RepoSummary)
    ensures Compare(a, b, TotalCommits, Asc) <= 0 <==> a.commitsAll <= b.commitsAll
    ensures Compare(a, b, TotalCommits, Desc) <= 0 <==> a.commitsAll >= b.commitsAll
  {
  }
}
