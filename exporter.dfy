/** The storage collector of the exporter: a failure counter, the stream of
    gauge observations it sends, and the methods of storage.go that feed them. */
module Storage {
  import opened Wrappers
  import opened Numerals
  import opened Units
  import opened RepoSummaries

  /** One gauge sample as handed to the metrics channel: metric name, value, label values. */
  datatype Observation = Observation(metric: string, value: real, labels: seq<string>)

  datatype BinariesSummary = BinariesSummary(
    binariesCount: string,
    binariesSize: string,
    artifactsSize: string,
    optimization: string,
    itemsCount: string,
    artifactsCount: string)

  datatype FileStoreSummary = FileStoreSummary(
    storageType: string,
    storageDirectory: string,
    totalSpace: string,
    usedSpace: string,
    freeSpace: string)

  /** The decoded `storageinfo` document, through its `storageSummary` object. */
  datatype StorageInfo = StorageInfo(
    binariesSummary: BinariesSummary,
    fileStoreSummary: FileStoreSummary,
    repositoriesSummaryList: seq<RepoEntry>)

  /** What the HTTP request and the JSON decoder produced for one scrape. */
  datatype Fetched = TransportFailure | Received(decoded: Option<StorageInfo>)

  datatype FetchError = TransportError | DecodeError

  /** The keys of the metric table that `exportRepo` knows how to fill. */
  const RepoKinds: set<string> := {"repoUsed", "repoFolders", "repoItems", "repoFiles", "repoPercentage"}

  /** The labels of every per-repository observation: name, type, package type. */
  function RepoLabels(s: RepoSummary): seq<string>
  {
    [s.name, s.repoType, s.packageType]
  }

  /** The observation of metric `kind` for repository `s`, valued from the field that kind names. */
  function RepoObservation(s: RepoSummary, kind: string): (r: Observation)
    requires kind in RepoKinds
    ensures r.metric == kind && r.labels == RepoLabels(s)
  {
    var v := if kind == "repoUsed" then s.usedSpace
             else if kind == "repoFolders" then s.foldersCount
             else if kind == "repoItems" then s.itemsCount
             else if kind == "repoFiles" then s.filesCount
             else s.percentage;
    Observation(kind, v, RepoLabels(s))
  }

  /** `block` holds, in some order, exactly one observation of each kind in
      `kinds` for repository `s`, and nothing else. */
  ghost predicate RepoBlock(block: seq<Observation>, s: RepoSummary, kinds: set<string>)
  {
    && kinds <= RepoKinds
    && |block| == |kinds|
    && (forall j :: 0 <= j < |block| ==> block[j].metric in kinds && block[j] == RepoObservation(s, block[j].metric))
    && (forall m :: m in kinds ==> exists j :: 0 <= j < |block| && block[j].metric == m)
  }

  /** `emitted` is one block per summary, in the order of `summaries`: the
      last |kinds| observations are the block of the last summary, and what
      precedes them is the blocks of the others. */
  ghost predicate Blocks(emitted: seq<Observation>, summaries: seq<RepoSummary>, kinds: set<string>)
    decreases |summaries|
  {
    if summaries == [] then emitted == []
    else
      var cut := |emitted| - |kinds|;
      && 0 <= cut
      && RepoBlock(emitted[cut..], summaries[|summaries| - 1], kinds)
      && Blocks(emitted[..cut], summaries[..|summaries| - 1], kinds)
  }

  /** `after` is `before` followed by one block per summary. */
  ghost predicate Appended(before: seq<Observation>, after: seq<Observation>,
                           summaries: seq<RepoSummary>, kinds: set<string>)
  {
    |before| <= |after| && after[..|before|] == before && Blocks(after[|before|..], summaries, kinds)
  }

  /** The block of one more summary extends the blocks. */
  lemma BlocksAppend(emitted: seq<Observation>, summaries: seq<RepoSummary>,
                     block: seq<Observation>, s: RepoSummary, kinds: set<string>)
    requires Blocks(emitted, summaries, kinds) && RepoBlock(block, s, kinds)
    ensures Blocks(emitted + block, summaries + [s], kinds)
  {
    var e := emitted + block;
    assert e[|emitted|..] == block && e[..|emitted|] == emitted;
    assert (summaries + [s])[..|summaries|] == summaries;
  }

  /** Every summary gets exactly |kinds| observations. */
  lemma {:induction false} BlocksLength(emitted: seq<Observation>, summaries: seq<RepoSummary>, kinds: set<string>)
    requires Blocks(emitted, summaries, kinds)
    ensures |emitted| == |summaries| * |kinds|
    decreases |summaries|
  {
    if summaries != [] {
      BlocksLength(emitted[..|emitted| - |kinds|], summaries[..|summaries| - 1], kinds);
      MulSucc(|summaries| - 1, |kinds|);
    }
  }

  lemma MulSucc(r: nat, k: nat)
    ensures 0 <= r * k && r * k + k == (r + 1) * k
  {
  }

  lemma PrefixSlice(e: seq<Observation>, cut: nat, lo: nat, hi: nat)
    requires lo <= hi <= cut <= |e|
    ensures e[..cut][lo..hi] == e[lo..hi]
  {
  }

  /** The observations of the r-th summary are the r-th stretch of |kinds| observations. */
  lemma {:induction false} BlockAt(emitted: seq<Observation>, summaries: seq<RepoSummary>, kinds: set<string>, r: nat)
    requires Blocks(emitted, summaries, kinds) && r < |summaries|
    ensures (r + 1) * |kinds| <= |emitted|
    ensures RepoBlock(emitted[r * |kinds|..(r + 1) * |kinds|], summaries[r], kinds)
    decreases |summaries|
  {
    var k := |kinds|;
    var n := |summaries|;
    if r == n - 1 {
      LastBlock(emitted, summaries, kinds);
    } else {
      var cut := |emitted| - k;
      MulSucc(r, k);
      BlockAt(emitted[..cut], summaries[..n - 1], kinds, r);
      PrefixSlice(emitted, cut, r * k, (r + 1) * k);
    }
  }

  /** The last |kinds| observations are the block of the last summary, and
      they start at (|summaries| - 1) * |kinds|. */
  lemma LastBlock(emitted: seq<Observation>, summaries: seq<RepoSummary>, kinds: set<string>)
    requires Blocks(emitted, summaries, kinds) && summaries != []
    ensures var r := |summaries| - 1;
            && (r + 1) * |kinds| == |emitted|
            && RepoBlock(emitted[r * |kinds|..(r + 1) * |kinds|], summaries[r], kinds)
  {
    var k := |kinds|;
    var r := |summaries| - 1;
    var cut := |emitted| - k;
    BlocksLength(emitted[..cut], summaries[..r], kinds);
    MulSucc(r, k);
    assert r * k == cut && (r + 1) * k == |emitted|;
    assert emitted[r * k..(r + 1) * k] == emitted[cut..];
  }

  /** Adding the observation of a kind not yet in the block keeps it a block. */
  lemma RepoBlockExtend(block: seq<Observation>, s: RepoSummary, done: set<string>, kind: string)
    requires RepoBlock(block, s, done) && kind in RepoKinds && kind !in done
    ensures RepoBlock(block + [RepoObservation(s, kind)], s, done + {kind})
  {
    var block' := block + [RepoObservation(s, kind)];
    forall m | m in done + {kind}
      ensures exists j :: 0 <= j < |block'| && block'[j].metric == m
    {
      if m == kind {
        assert block'[|block|].metric == m;
      } else {
        var j :| 0 <= j < |block| && block[j].metric == m;
        assert block'[j].metric == m;
      }
    }
  }

  /** What the `switch` of `exportRepo` sends for key `name`: one observation
      when the key names a repository metric, nothing otherwise. */
  function Sent(s: RepoSummary, name: string): seq<Observation>
  {
    if name in RepoKinds then [RepoObservation(s, name)] else []
  }

  /** Visiting one more key of the metric table keeps the observations sent
      so far a block of the keys visited so far. */
  lemma EmitStep(block: seq<Observation>, s: RepoSummary, metrics: set<string>,
                 pending: set<string>, name: string)
    requires RepoBlock(block, s, (metrics - pending) * RepoKinds)
    requires name in pending && pending <= metrics
    ensures RepoBlock(block + Sent(s, name), s, (metrics - (pending - {name})) * RepoKinds)
  {
    var done := (metrics - pending) * RepoKinds;
    if name in RepoKinds {
      RepoBlockExtend(block, s, done, name);
      assert (metrics - (pending - {name})) * RepoKinds == done + {name};
    } else {
      assert block + Sent(s, name) == block;
      assert (metrics - (pending - {name})) * RepoKinds == done;
    }
  }

  lemma AppendAssociates(a: seq<Observation>, b: seq<Observation>, c: seq<Observation>)
    ensures (a + b) + c == a + (b + c)
  {
  }

  /** Appending the block of the next summary extends the blocks of a prefix. */
  lemma BlocksStep(emitted: seq<Observation>, summaries: seq<RepoSummary>, i: nat,
                   block: seq<Observation>, kinds: set<string>)
    requires i < |summaries|
    requires Blocks(emitted, summaries[..i], kinds) && RepoBlock(block, summaries[i], kinds)
    ensures Blocks(emitted + block, summaries[..i + 1], kinds)
  {
    BlocksAppend(emitted, summaries[..i], block, summaries[i], kinds);
    assert summaries[..i + 1] == summaries[..i] + [summaries[i]];
  }

  class Exporter {
    /** `jsonParseFailures`: how many parse failures have been counted. */
    var failures: nat
    /** Every observation sent on the metrics channel so far, oldest first. */
    var out: seq<Observation>

    constructor ()
      ensures failures == 0 && out == []
    {
      failures := 0;
      out := [];
    }

    /** `fetchStorageInfo`: a transport error is passed on untouched; a body
        that does not decode counts one failure. */
    method FetchStorageInfo(fetched: Fetched) returns (r: Result<StorageInfo, FetchError>)
      modifies this
      ensures out == old(out)
      ensures fetched.TransportFailure? ==> r == Failure(TransportError) && failures == old(failures)
      ensures fetched.Received? && fetched.decoded.None?
              ==> r == Failure(DecodeError) && failures == old(failures) + 1
      ensures fetched.Received? && fetched.decoded.Some?
              ==> r == Success(fetched.decoded.value) && failures == old(failures)
    {
      if fetched.TransportFailure? {
        return Failure(TransportError);
      }
      if fetched.decoded.None? {
        failures := failures + 1;
        return Failure(DecodeError);
      }
      return Success(fetched.decoded.value);
    }

    /** `exportCount`: an empty string counts one failure and sends nothing;
        otherwise one unlabelled gauge is sent, 0 when the string does not parse. */
    method ExportCount(metric: string, count: string)
      modifies this
      ensures count == "" ==> failures == old(failures) + 1 && out == old(out)
      ensures count != "" ==> (failures == old(failures)
                               && out == old(out) + [Observation(metric, RemoveCommas(count).GetOr(0.0), [])])
      ensures count != "" && !IsDecimalNumeral(KeepNumeralChars(count))
              ==> failures == old(failures) && out == old(out) + [Observation(metric, 0.0, [])]
    {
      if count == "" {
        failures := failures + 1;
        return;
      }
      var value := RemoveCommas(count).GetOr(0.0);
      out := out + [Observation(metric, value, [])];
    }

    /** `exportSize`: as `ExportCount`, with the value converted to bytes. */
    method ExportSize(metric: string, size: string)
      modifies this
      ensures size == "" ==> failures == old(failures) + 1 && out == old(out)
      ensures size != "" ==> (failures == old(failures)
                              && out == old(out) + [Observation(metric, BytesConverter(size).GetOr(0.0), [])])
      ensures size != "" && BytesConverter(size).Failure?
              ==> failures == old(failures) && out == old(out) + [Observation(metric, 0.0, [])]
    {
      if size == "" {
        failures := failures + 1;
        return;
      }
      var value := BytesConverter(size).GetOr(0.0);
      out := out + [Observation(metric, value, [])];
    }

    /** `exportFilestore`: as `ExportSize`, labelled with the store's type and directory. */
    method ExportFilestore(metric: string, size: string, storeType: string, storeDir: string)
      modifies this
      ensures size == "" ==> failures == old(failures) + 1 && out == old(out)
      ensures size != "" ==> (failures == old(failures)
                              && out == old(out) + [Observation(metric, BytesConverter(size).GetOr(0.0), [storeType, storeDir])])
      ensures size != "" && BytesConverter(size).Failure?
              ==> failures == old(failures) && out == old(out) + [Observation(metric, 0.0, [storeType, storeDir])]
    {
      if size == "" {
        failures := failures + 1;
        return;
      }
      var value := BytesConverter(size).GetOr(0.0);
      out := out + [Observation(metric, value, [storeType, storeDir])];
    }

    /** `extractRepoSummary`: builds the summaries of the non-TOTAL rows and
        hands them to `ExportRepo`; the first row whose used space or percentage
        does not convert counts one failure and nothing at all is sent. */
    method ExtractRepoSummary(info: StorageInfo, metrics: set<string>)
      modifies this
      ensures Summaries(info.repositoriesSummaryList).Failure?
              ==> failures == old(failures) + 1 && out == old(out)
      ensures Summaries(info.repositoriesSummaryList).Success?
              ==> (failures == old(failures)
                   && Appended(old(out), out, Summaries(info.repositoriesSummaryList).value, metrics * RepoKinds)
                   && |out| == |old(out)| + |Kept(info.repositoriesSummaryList)| * |metrics * RepoKinds|)
    {
      var rows := info.repositoriesSummaryList;
      var list: seq<RepoSummary> := [];
      var i := 0;
      while i < |rows|
        invariant 0 <= i <= |rows|
        invariant Summaries(rows[..i]) == Success(list)
        invariant failures == old(failures) && out == old(out)
      {
        var repo := rows[i];
        SummariesPrefixStep(rows, i);
        if repo.repoKey == TotalKey {
          i := i + 1;
          continue;
        }
        var used := BytesConverter(repo.usedSpace);
        if used.Failure? {
          failures := failures + 1;
          AbortedPrefix(rows, i + 1);
          return;
        }
        var percentage := RemoveCommas(repo.percentage);
        if percentage.Failure? {
          failures := failures + 1;
          AbortedPrefix(rows, i + 1);
          return;
        }
        var rs := RepoSummary(repo.repoKey, Text.ToLower(repo.repoType),
                              repo.foldersCount as real, repo.filesCount as real,
                              used.value, repo.itemsCount as real,
                              Text.ToLower(repo.packageType), percentage.value);
        list := list + [rs];
        i := i + 1;
      }
      assert rows[..|rows|] == rows;
      SummariesAreKeptRows(rows);
      ExportRepo(list, metrics);
    }

    /** `exportRepo`: for each summary in order, one observation per key of the
        metric table that names a repository metric. The keys are visited in
        no fixed order, so each summary's block is stated up to order. */
    method ExportRepo(summaries: seq<RepoSummary>, metrics: set<string>)
      modifies this
      ensures failures == old(failures)
      ensures Appended(old(out), out, summaries, metrics * RepoKinds)
      ensures |out| == |old(out)| + |summaries| * |metrics * RepoKinds|
    {
      var kinds := metrics * RepoKinds;
      ghost var emitted: seq<Observation> := [];
      var i := 0;
      while i < |summaries|
        invariant 0 <= i <= |summaries|
        invariant failures == old(failures)
        invariant out == old(out) + emitted
        invariant Blocks(emitted, summaries[..i], kinds)
      {
        ghost var block := EmitRepo(summaries[i], metrics);
        AppendAssociates(old(out), emitted, block);
        BlocksStep(emitted, summaries, i, block, kinds);
        emitted := emitted + block;
        i := i + 1;
      }
      assert summaries[..i] == summaries;
      assert out[..|old(out)|] == old(out) && out[|old(out)|..] == emitted;
      BlocksLength(emitted, summaries, kinds);
    }

    /** The inner loop of `exportRepo` for one summary: one observation for
        each key of the metric table that names a repository metric, in
        whatever order the table is visited. */
    method EmitRepo(s: RepoSummary, metrics: set<string>) returns (ghost block: seq<Observation>)
      modifies this
      ensures failures == old(failures)
      ensures out == old(out) + block
      ensures RepoBlock(block, s, metrics * RepoKinds)
    {
      block := [];
      var pending := metrics;
      while pending != {}
        invariant pending <= metrics
        invariant failures == old(failures)
        invariant out == old(out) + block
        invariant RepoBlock(block, s, (metrics - pending) * RepoKinds)
        decreases pending
      {
        var name :| name in pending;
        SendRepoMetric(s, name);
        AppendAssociates(old(out), block, Sent(s, name));
        EmitStep(block, s, metrics, pending, name);
        block := block + Sent(s, name);
        pending := pending - {name};
      }
      assert metrics - pending == metrics;
    }

    /** The `switch` in `exportRepo`: a key that names a repository metric
        sends that metric, with the matching field and the repository's labels;
        any other key sends nothing. */
    method SendRepoMetric(s: RepoSummary, name: string)
      modifies this
      ensures failures == old(failures)
      ensures out == old(out) + Sent(s, name)
    {
      var labels := [s.name, s.repoType, s.packageType];
      if name == "repoUsed" {
        out := out + [Observation(name, s.usedSpace, labels)];
      } else if name == "repoFolders" {
        out := out + [Observation(name, s.foldersCount, labels)];
      } else if name == "repoItems" {
        out := out + [Observation(name, s.itemsCount, labels)];
      } else if name == "repoFiles" {
        out := out + [Observation(name, s.filesCount, labels)];
      } else if name == "repoPercentage" {
        out := out + [Observation(name, s.percentage, labels)];
      }
    }
  }
}
