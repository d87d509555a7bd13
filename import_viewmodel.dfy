/**
  The import tab's bookkeeping: `ImportWorker` drains the importer's row
  results, counting successes and failures until it is told to stop, and
  `ImportViewModel` guards against starting a second import and turns the
  worker's final counts into the summary line.
 */
module ImportViewModel {
  import opened Wrappers
  import opened Storage
  import opened MemberImporter

  /** The `{'success': ..., 'failure': ...}` dictionary `finished` carries. */
  datatype Summary = Summary(success: nat, failure: nat)

  /** The number of results whose status is exactly "success". */
  function SuccessCount(rs: seq<RowResult>): (n: nat)
    ensures n <= |rs|
  {
    if rs == [] then 0
    else SuccessCount(rs[..|rs| - 1]) + (if rs[|rs| - 1].status == SuccessStatus then 1 else 0)
  }

  /** A result counts as a success exactly when its status is "success"; any other status is a failure. */
  lemma {:induction false} SuccessCountSplits(a: seq<RowResult>, b: seq<RowResult>)
    ensures SuccessCount(a + b) == SuccessCount(a) + SuccessCount(b)
    decreases |b|
  {
    if b == [] {
      assert a + b == a;
    } else {
      var n := |b| - 1;
      assert (a + b)[..|a + b| - 1] == a + b[..n];
      SuccessCountSplits(a, b[..n]);
    }
  }

  /** Counting the results whose status is "success", as a set of positions. */
  lemma {:induction false} SuccessCountIsSuccesses(rs: seq<RowResult>)
    ensures SuccessCount(rs) == |set i | 0 <= i < |rs| && rs[i].status == SuccessStatus|
  {
    if rs != [] {
      var n := |rs| - 1;
      SuccessCountIsSuccesses(rs[..n]);
      var before := set i | 0 <= i < n && rs[..n][i].status == SuccessStatus;
      var all := set i | 0 <= i < |rs| && rs[i].status == SuccessStatus;
      assert SuccessCount(rs) == SuccessCount(rs[..n]) + (if rs[n].status == SuccessStatus then 1 else 0);
      hide SuccessCount;
      if rs[n].status == SuccessStatus {
        assert all == before + {n};
      } else {
        assert all == before;
      }
    }
  }

  /** The number of results the worker emits: all of them, or those before the one that found the flag cleared. */
  function Emitted(total: nat, running: bool, stopAt: Option<nat>): (e: nat)
    ensures e <= total
  {
    if !running then 0
    else if stopAt.Some? && stopAt.value < total then stopAt.value
    else total
  }

  /** The number of rows the importer has processed when the worker stops: one more than it emitted, if there was one. */
  function Generated(total: nat, running: bool, stopAt: Option<nat>): (g: nat)
    ensures g <= total
    ensures g == Emitted(total, running, stopAt) || g == Emitted(total, running, stopAt) + 1
  {
    if Emitted(total, running, stopAt) < total then Emitted(total, running, stopAt) + 1 else total
  }

  /** `progress.emit(result)` and the count it belongs to: "success" counts as a success, anything else as a failure. */
  method Emit(progress: seq<RowResult>, successCount: nat, failureCount: nat, result: RowResult)
    returns (progress': seq<RowResult>, successCount': nat, failureCount': nat)
    requires successCount == SuccessCount(progress) && failureCount == |progress| - successCount
    ensures progress' == progress + [result]
    ensures successCount' == SuccessCount(progress') && failureCount' == |progress'| - successCount'
  {
    progress' := progress + [result];
    assert progress'[..|progress|] == progress;
    successCount', failureCount' := successCount, failureCount;
    if result.status == SuccessStatus {
      successCount' := successCount + 1;
    } else {
      failureCount' := failureCount + 1;
    }
  }

  /** `ImportWorker`: the rows to import and the `is_running` flag. */
  class ImportWorker {
    const rows: seq<ImportRow>
    var isRunning: bool

    constructor (rows: seq<ImportRow>)
      ensures this.rows == rows && isRunning
    {
      this.rows := rows;
      isRunning := true;
    }

    /** `stop()`: clear the flag; the loop notices it at its next result. */
    method Stop()
      modifies this`isRunning
      ensures !isRunning
    {
      isRunning := false;
    }

    /**
      The `for` loop of `run()`: the generator's results are emitted one by
      one and counted. `stopAt` places the `stop()` call: it lands while the
      generator is producing result number `stopAt`, so that result, and the
      commit of its row, are produced and then dropped, neither emitted nor
      counted.
     */
    method Drain(run: ImportRun, faults: seq<Option<string>>, stopAt: Option<nat>)
      returns (progress: seq<RowResult>, successCount: nat, failureCount: nat)
      requires run.session.db.Valid() && run.session.working == run.session.db.state && |faults| == |rows|
      modifies this`isRunning, run, run.session, run.session.db
      ensures run.session.db.Valid()
      ensures var start := old(ImportState(run.session.db.state, run.existingMembers));
        var e := Emitted(|rows|, old(isRunning), stopAt);
        var g := Generated(|rows|, old(isRunning), stopAt);
        && progress == ImportAll(start, run.existingRegions, run.existingPositions, rows[..e], faults[..e]).1
        && run.session.db.state == ImportAll(start, run.existingRegions, run.existingPositions, rows[..g], faults[..g]).0.db
      ensures successCount == SuccessCount(progress) && failureCount == |progress| - successCount
    {
      // The loop only chains the generator's contract: the row step's definition is not needed here.
      hide RowStep;
      ghost var start := ImportState(run.session.db.state, run.existingMembers);
      ghost var wasRunning := isRunning;
      successCount := 0;
      failureCount := 0;
      progress := [];
      assert ImportAll(start, run.existingRegions, run.existingPositions, rows[..0], faults[..0]) == (start, []);
      assert SuccessCount(progress) == 0;
      hide ImportAll, SuccessCount;
      var i := 0;
      while i < |rows|
        invariant 0 <= i <= |rows|
        invariant run.session.working == run.session.db.state
        invariant run.session.db.Valid()
        invariant isRunning == wasRunning && (i > 0 ==> wasRunning)
        invariant stopAt.Some? ==> i <= stopAt.value
        invariant var prev := ImportAll(start, run.existingRegions, run.existingPositions, rows[..i], faults[..i]);
          run.session.db.state == prev.0.db && run.existingMembers == prev.0.members && progress == prev.1
        invariant successCount == SuccessCount(progress) && failureCount == |progress| - successCount
      {
        var result := run.Next(start, rows, faults, i);
        if stopAt.Some? && stopAt.value == i {
          Stop();
        }
        if !isRunning {
          assert i == Emitted(|rows|, wasRunning, stopAt) && i + 1 == Generated(|rows|, wasRunning, stopAt);
          break;
        }
        progress, successCount, failureCount := Emit(progress, successCount, failureCount, result);
        i := i + 1;
      }
      if i == |rows| {
        assert i == Emitted(|rows|, wasRunning, stopAt) == Generated(|rows|, wasRunning, stopAt);
      }
    }

    /**
      `run()`: the importer's generator is drained into `progress`, and
      `finished` carries the two counts once, after the loop.
     */
    method Run(db: Database, faults: seq<Option<string>>, stopAt: Option<nat>) returns (progress: seq<RowResult>, finished: Summary)
      requires db.Valid() && |faults| == |rows|
      modifies this`isRunning, db
      ensures db.Valid()
      ensures var start := ImportState(old(db.state), MemberIndex(old(db.state.members)));
        var regions, positions := NameIndex(old(db.state.regions)), NameIndex(old(db.state.positions));
        var e := Emitted(|rows|, old(isRunning), stopAt);
        var g := Generated(|rows|, old(isRunning), stopAt);
        && progress == ImportAll(start, regions, positions, rows, faults).1[..e]
        && db.state == ImportAll(start, regions, positions, rows[..g], faults[..g]).0.db
      ensures finished == Summary(SuccessCount(progress), |progress| - SuccessCount(progress))
    {
      var run := new ImportRun(db);
      var successCount, failureCount;
      progress, successCount, failureCount := Drain(run, faults, stopAt);
      ImportAllPrefix(ImportState(old(db.state), MemberIndex(old(db.state.members))), run.existingRegions, run.existingPositions,
                      rows, faults, Emitted(|rows|, old(isRunning), stopAt));
      finished := Summary(successCount, failureCount);
    }
  }

  // ----- the summary line -----

  /** `str(n)` for a natural number: its decimal digits, most significant first, without leading zeros. */
  function NatToString(n: nat): (s: string)
    ensures |s| >= 1 && AllDigits(s)
    ensures |s| > 1 ==> s[0] != '0'
  {
    if n < 10 then ["0123456789"[n]]
    else NatToString(n / 10) + ["0123456789"[n % 10]]
  }

  /** The number a string of decimal digits denotes. */
  function DigitsValue(s: string): nat
    requires AllDigits(s)
  {
    if s == [] then 0
    else 10 * DigitsValue(s[..|s| - 1]) + (s[|s| - 1] as int - '0' as int)
  }

  /** The digit character for `d` denotes `d`. */
  lemma DigitValue(d: nat)
    requires d < 10
    ensures "0123456789"[d] as int - '0' as int == d
  {
  }

  /** Reading back the digits gives the number: distinct counts print differently. */
  lemma {:induction false} NatToStringRoundTrip(n: nat)
    ensures DigitsValue(NatToString(n)) == n
  {
    var s := NatToString(n);
    if n < 10 {
      DigitValue(n);
      assert s[..0] == [];
    } else {
      NatToStringRoundTrip(n / 10);
      DigitValue(n % 10);
      assert s[..|s| - 1] == NatToString(n / 10);
      assert s[|s| - 1] == "0123456789"[n % 10];
    }
  }

  const SummaryPrefix := "匯入完成！成功: "
  const SummaryMiddle := " 筆, 失敗: "
  const SummarySuffix := " 筆。"

  /** `f"匯入完成！成功: {summary['success']} 筆, 失敗: {summary['failure']} 筆。"`. */
  function SummaryText(summary: Summary): string
  {
    SummaryPrefix + (NatToString(summary.success) + (SummaryMiddle + (NatToString(summary.failure) + SummarySuffix)))
  }

  predicate IsDigit(c: char)
  {
    '0' <= c <= '9'
  }

  predicate AllDigits(s: string)
  {
    forall i :: 0 <= i < |s| ==> IsDigit(s[i])
  }

  /** In digits followed by a non-digit, the digits are exactly the characters before the first non-digit. */
  lemma DigitsThenOther(a: string, b: string)
    requires AllDigits(a) && |b| > 0 && !IsDigit(b[0])
    ensures forall k :: 0 <= k < |a| ==> IsDigit((a + b)[k])
    ensures !IsDigit((a + b)[|a|])
  {
  }

  /** A run of digits followed by text starting with a non-digit can be split in one way only. */
  lemma DigitsSplitUniquely(a: string, b: string, c: string, d: string)
    requires AllDigits(a) && AllDigits(c)
    requires |b| > 0 && |d| > 0 && !IsDigit(b[0]) && !IsDigit(d[0])
    requires a + b == c + d
    ensures a == c && b == d
  {
    DigitsThenOther(a, b);
    DigitsThenOther(c, d);
    assert |a| == |c|;
    assert a == (a + b)[..|a|] && c == (c + d)[..|c|];
    assert b == (a + b)[|a|..] && d == (c + d)[|c|..];
  }

  /** Distinct numbers print differently. */
  lemma NatToStringInjective(m: nat, n: nat)
    requires NatToString(m) == NatToString(n)
    ensures m == n
  {
    NatToStringRoundTrip(m);
    NatToStringRoundTrip(n);
  }

  lemma DropCommonPrefix(p: string, x: string, y: string)
    requires p + x == p + y
    ensures x == y
  {
    assert x == (p + x)[|p|..];
    assert y == (p + y)[|p|..];
  }

  /**
    The summary line reports both counts: it starts with the fixed prefix,
    and two different summaries never give the same line, so the success
    and failure counts can be read back from it.
   */
  lemma SummaryTextReportsCounts(x: Summary, y: Summary)
    ensures SummaryText(x)[..|SummaryPrefix|] == SummaryPrefix
    ensures SummaryText(x) == SummaryText(y) ==> x == y
  {
    if SummaryText(x) == SummaryText(y) {
      var tailX := SummaryMiddle + (NatToString(x.failure) + SummarySuffix);
      var tailY := SummaryMiddle + (NatToString(y.failure) + SummarySuffix);
      DropCommonPrefix(SummaryPrefix, NatToString(x.success) + tailX, NatToString(y.success) + tailY);
      DigitsSplitUniquely(NatToString(x.success), tailX, NatToString(y.success), tailY);
      DropCommonPrefix(SummaryMiddle, NatToString(x.failure) + SummarySuffix, NatToString(y.failure) + SummarySuffix);
      DigitsSplitUniquely(NatToString(x.failure), SummarySuffix, NatToString(y.failure), SummarySuffix);
      NatToStringInjective(x.success, y.success);
      NatToStringInjective(x.failure, y.failure);
    }
  }

  /** `ImportViewModel`: the loaded rows, if any, and the `is_importing` flag. */
  class ImportViewModel {
    var dataframe: Option<seq<ImportRow>>
    var isImporting: bool

    /** No file loaded, no import running. */
    constructor ()
      ensures dataframe == None && !isImporting
    {
      dataframe := None;
      isImporting := false;
    }

    /**
      `_set_is_importing`: the flag takes the value, and `is_importing_changed`
      is emitted with it only when that changes the flag; repeating the
      current value emits nothing.
     */
    method SetIsImporting(value: bool) returns (emitted: Option<bool>)
      modifies this`isImporting
      ensures isImporting == value
      ensures emitted == if old(isImporting) != value then Some(value) else None
    {
      emitted := None;
      if isImporting != value {
        isImporting := value;
        emitted := Some(value);
      }
    }

    /**
      `load_file_for_preview`: the rows the file gave replace the loaded
      ones; a file that could not be read (None) leaves them as they were.
     */
    method LoadFileForPreview(read: Option<seq<ImportRow>>) returns (previewLoaded: Option<seq<ImportRow>>)
      modifies this`dataframe
      ensures dataframe == if read.Some? then read else old(dataframe)
      ensures previewLoaded == read
    {
      previewLoaded := None;
      if read.Some? {
        dataframe := read;
        previewLoaded := read;
      }
    }

    /**
      `start_import`: with no rows loaded, or with an import running, nothing
      happens; otherwise the flag is raised (and announced) and a worker is
      made for the loaded rows.
     */
    method StartImport() returns (worker: Option<ImportWorker>, emitted: Option<bool>)
      modifies this`isImporting
      ensures worker.Some? <==> old(dataframe).Some? && !old(isImporting)
      ensures worker.None? ==> isImporting == old(isImporting) && emitted == None
      ensures worker.Some? ==>
        && isImporting && emitted == Some(true)
        && fresh(worker.value) && worker.value.rows == dataframe.value && worker.value.isRunning
    {
      if dataframe.None? || isImporting {
        return None, None;
      }
      emitted := SetIsImporting(true);
      var w := new ImportWorker(dataframe.value);
      worker := Some(w);
    }

    /** `_on_import_finished`: the flag is lowered (and announced) and the summary line emitted. */
    method OnImportFinished(summary: Summary) returns (emitted: Option<bool>, importFinished: string)
      modifies this`isImporting
      ensures !isImporting
      ensures emitted == if old(isImporting) then Some(false) else None
      ensures importFinished == SummaryText(summary)
    {
      emitted := SetIsImporting(false);
      importFinished := SummaryPrefix + (NatToString(summary.success) + (SummaryMiddle
        + (NatToString(summary.failure) + SummarySuffix)));
    }
  }
}
