/** The per-repository rows of the storage summary and the records
    `extractRepoSummary` builds from them before anything is emitted. */
module RepoSummaries {
  import opened Wrappers
  import opened Text
  import opened Numerals
  import opened Units

  /** One element of `storageSummary.repositoriesSummaryList` as decoded from JSON. */
  datatype RepoEntry = RepoEntry(
    repoKey: string,
    repoType: string,
    foldersCount: int,
    filesCount: int,
    usedSpace: string,
    itemsCount: int,
    packageType: string,
    percentage: string)

  /** `repoSummary`: one repository with every number converted. */
  datatype RepoSummary = RepoSummary(
    name: string,
    repoType: string,
    foldersCount: real,
    filesCount: real,
    usedSpace: real,
    itemsCount: real,
    packageType: string,
    percentage: real)

  /** Which conversion of a row failed. */
  datatype RowError = BadUsedSpace(sizeError: ConvertError) | BadPercentage(numberError: NumError)

  /** The key of the aggregate row, which is not a repository. */
  const TotalKey: string := "TOTAL"

  /** Both display strings of the row convert. */
  predicate Parses(e: RepoEntry)
  {
    BytesConverter(e.usedSpace).Success? && RemoveCommas(e.percentage).Success?
  }

  /** `s` is the record for row `e`: the key as name, both type strings
      lower-cased, the three counts unchanged, the used space converted to bytes
      and the percentage read as a number. */
  predicate Summarizes(e: RepoEntry, s: RepoSummary)
  {
    && s.name == e.repoKey
    && s.repoType == ToLower(e.repoType)
    && s.packageType == ToLower(e.packageType)
    && s.foldersCount == e.foldersCount as real
    && s.filesCount == e.filesCount as real
    && s.itemsCount == e.itemsCount as real
    && BytesConverter(e.usedSpace) == Success(s.usedSpace)
    && RemoveCommas(e.percentage) == Success(s.percentage)
  }

  /** The body of the loop in `extractRepoSummary` for one non-TOTAL row: the
      used space is converted first, then the percentage. */
  function Summarize(e: RepoEntry): (r: Result<RepoSummary, RowError>)
    ensures r.Success? <==> Parses(e)
    ensures r.Success? ==> Summarizes(e, r.value)
    ensures BytesConverter(e.usedSpace).Failure? ==> r == Failure(BadUsedSpace(BytesConverter(e.usedSpace).error))
    ensures BytesConverter(e.usedSpace).Success? && RemoveCommas(e.percentage).Failure?
            ==> r == Failure(BadPercentage(RemoveCommas(e.percentage).error))
  {
    match BytesConverter(e.usedSpace)
    case Failure(err) => Failure(BadUsedSpace(err))
    case Success(used) =>
      match RemoveCommas(e.percentage)
      case Failure(err) => Failure(BadPercentage(err))
      case Success(pct) =>
        Success(RepoSummary(e.repoKey, ToLower(e.repoType), e.foldersCount as real,
                            e.filesCount as real, used, e.itemsCount as real,
                            ToLower(e.packageType), pct))
  }

  /** One turn of the loop in `extractRepoSummary`: a list already aborted
      stays aborted, a TOTAL row is skipped, any other row is converted and
      appended or aborts the list with its error. */
  function Extend(sofar: Result<seq<RepoSummary>, RowError>, row: RepoEntry): Result<seq<RepoSummary>, RowError>
  {
    if sofar.Failure? || row.repoKey == TotalKey then sofar
    else
      match Summarize(row)
      case Failure(err) => Failure(err)
      case Success(s) => Success(sofar.value + [s])
  }

  /** The list `extractRepoSummary` hands to `exportRepo`, row by row in source
      order: TOTAL rows are skipped, and the first row that does not convert
      ends the whole list with that row's error. */
  function Summaries(rows: seq<RepoEntry>): (r: Result<seq<RepoSummary>, RowError>)
    ensures r.Success? ==> |r.value| <= |rows|
  {
    if rows == [] then Success([])
    else Extend(Summaries(rows[..|rows| - 1]), rows[|rows| - 1])
  }

  /** The rows that are repositories, in source order. */
  function Kept(rows: seq<RepoEntry>): seq<RepoEntry>
  {
    if rows == [] then []
    else if rows[0].repoKey == TotalKey then Kept(rows[1..])
    else [rows[0]] + Kept(rows[1..])
  }

  /** Kept keeps exactly the non-TOTAL rows. */
  lemma {:induction false} KeptMembers(rows: seq<RepoEntry>)
    ensures forall e :: e in Kept(rows) <==> e in rows && e.repoKey != TotalKey
  {
    if rows != [] {
      KeptMembers(rows[1..]);
      assert forall e :: e in rows <==> e == rows[0] || e in rows[1..];
    }
  }

  lemma {:induction false} KeptAppend(a: seq<RepoEntry>, b: seq<RepoEntry>)
    ensures Kept(a + b) == Kept(a) + Kept(b)
  {
    if a == [] {
      assert a + b == b;
    } else {
      assert (a + b)[0] == a[0];
      assert (a + b)[1..] == a[1..] + b;
      KeptAppend(a[1..], b);
    }
  }

  /** Once a row has failed, later rows change nothing: the list stays aborted
      with the first error. */
  lemma {:induction false} AbortSticks(a: seq<RepoEntry>, b: seq<RepoEntry>)
    requires Summaries(a).Failure?
    ensures Summaries(a + b) == Summaries(a)
    decreases |b|
  {
    if b != [] {
      var ab := a + b;
      assert ab[..|ab| - 1] == a + b[..|b| - 1];
      AbortSticks(a, b[..|b| - 1]);
      assert Summaries(ab) == Extend(Summaries(ab[..|ab| - 1]), ab[|ab| - 1]);
    } else {
      assert a + b == a;
    }
  }

  /** The list of the first i + 1 rows is the list of the first i extended by row i. */
  lemma SummariesPrefixStep(rows: seq<RepoEntry>, i: nat)
    requires i < |rows|
    ensures Summaries(rows[..i + 1]) == Extend(Summaries(rows[..i]), rows[i])
  {
    assert rows[..i + 1][..i] == rows[..i];
  }

  /** A prefix whose list is aborted aborts the list of all the rows. */
  lemma AbortedPrefix(rows: seq<RepoEntry>, i: nat)
    requires i <= |rows| && Summaries(rows[..i]).Failure?
    ensures Summaries(rows) == Summaries(rows[..i])
  {
    AbortSticks(rows[..i], rows[i..]);
    assert rows[..i] + rows[i..] == rows;
  }

  /** Every non-TOTAL row converts. */
  predicate AllParse(rows: seq<RepoEntry>)
  {
    forall i :: 0 <= i < |rows| && rows[i].repoKey != TotalKey ==> Parses(rows[i])
  }

  /** One more row keeps every row converting exactly when it converts or is TOTAL. */
  lemma AllParseSnoc(rows: seq<RepoEntry>)
    requires rows != []
    ensures AllParse(rows)
        <==> AllParse(rows[..|rows| - 1]) && (rows[|rows| - 1].repoKey != TotalKey ==> Parses(rows[|rows| - 1]))
  {
    var front := rows[..|rows| - 1];
    assert forall i :: 0 <= i < |front| ==> front[i] == rows[i];
  }

  /** The list is built exactly when every non-TOTAL row converts. */
  lemma {:induction false} SummariesSucceedIff(rows: seq<RepoEntry>)
    ensures Summaries(rows).Success? <==> AllParse(rows)
  {
    if rows != [] {
      SummariesSucceedIff(rows[..|rows| - 1]);
      AllParseSnoc(rows);
    }
  }

  /** A failed list carries the error of the first non-TOTAL row that does not
      convert; every non-TOTAL row before it converts. */
  lemma {:induction false} SummariesFirstFailure(rows: seq<RepoEntry>)
    requires Summaries(rows).Failure?
    ensures exists i :: && 0 <= i < |rows|
                        && rows[i].repoKey != TotalKey
                        && Summarize(rows[i]) == Failure(Summaries(rows).error)
                        && forall j :: 0 <= j < i && rows[j].repoKey != TotalKey ==> Parses(rows[j])
  {
    var n := |rows|;
    var front := rows[..n - 1];
    assert forall i :: 0 <= i < |front| ==> front[i] == rows[i];
    if Summaries(front).Failure? {
      SummariesFirstFailure(front);
      var i :| && 0 <= i < |front|
               && front[i].repoKey != TotalKey
               && Summarize(front[i]) == Failure(Summaries(front).error)
               && forall j :: 0 <= j < i && front[j].repoKey != TotalKey ==> Parses(front[j]);
      assert rows[i] == front[i];
    } else {
      SummariesSucceedIff(front);
      assert Summarize(rows[n - 1]) == Failure(Summaries(rows).error);
    }
  }

  /** A built list holds one record per non-TOTAL row, in source order, each
      made from its row as `Summarizes` says. */
  lemma {:induction false} SummariesAreKeptRows(rows: seq<RepoEntry>)
    requires Summaries(rows).Success?
    ensures Pairwise(Kept(rows), Summaries(rows).value)
  {
    if rows != [] {
      var n := |rows|;
      var front := rows[..n - 1];
      var last := rows[n - 1];
      assert rows == front + [last];
      assert Summaries(front).Success?;
      SummariesAreKeptRows(front);
      KeptAppend(front, [last]);
      assert [last][1..] == [];
      if last.repoKey == TotalKey {
        assert Kept([last]) == [];
        assert Kept(front) + [] == Kept(front);
      } else {
        assert Kept([last]) == [last];
        PairwiseAppend(Kept(front), Summaries(front).value, last, Summarize(last).value);
      }
    }
  }

  /** Record `j` of `ss` is the record for row `j` of `es`, for every `j`. */
  predicate Pairwise(es: seq<RepoEntry>, ss: seq<RepoSummary>)
  {
    |es| == |ss| && forall j :: 0 <= j < |es| ==> Summarizes(es[j], ss[j])
  }

  lemma PairwiseAppend(es: seq<RepoEntry>, ss: seq<RepoSummary>, e: RepoEntry, s: RepoSummary)
    requires Pairwise(es, ss) && Summarizes(e, s)
    ensures Pairwise(es + [e], ss + [s])
  {
  }

  /** No record is ever named TOTAL. */
  lemma SummariesExcludeTotal(rows: seq<RepoEntry>)
    requires Summaries(rows).Success?
    ensures forall j :: 0 <= j < |Summaries(rows).value| ==> Summaries(rows).value[j].name != TotalKey
  {
    SummariesAreKeptRows(rows);
    KeptMembers(rows);
    assert |Summaries(rows).value| == |Kept(rows)|;
    forall j | 0 <= j < |Summaries(rows).value|
      ensures Summaries(rows).value[j].name != TotalKey
    {
      assert Kept(rows)[j] in Kept(rows);
    }
  }
}
