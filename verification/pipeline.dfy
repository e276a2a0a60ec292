/** The per-entry loops of `analyze` and `monitor` (whistle/__main__.py):
    gathering the entries from the journalctl outputs, skipping blank ones,
    and counting or alerting on the anomalous verdicts. Running the
    commands, reading the stream and printing are left to the caller. */
module Pipeline {
  import opened Text
  import opened Settings
  import opened Llm

  // ---------------------------------------------------------------------
  // Gathering entries (analyze)
  // ---------------------------------------------------------------------

  /** What one journalctl run returned. */
  datatype CommandResult = CommandResult(returnCode: int, stdout: string, stderr: string)

  /** The entries one run contributes: its output stripped and split into
      lines when it succeeded, nothing when it failed. */
  function OutputEntries(res: CommandResult): (r: seq<string>)
    ensures res.returnCode == 0 ==> |r| >= 1 && Join(r, '\n') == Strip(res.stdout)
    ensures res.returnCode != 0 ==> r == []
    ensures forall k :: 0 <= k < |r| ==> '\n' !in r[k]
    ensures res.returnCode == 0 && '\n' !in Strip(res.stdout) ==> r == [Strip(res.stdout)]
  {
    if res.returnCode == 0 then
      var text := Strip(res.stdout);
      SplitJoin(text, '\n');
      assert '\n' !in text ==> Split(text, '\n') == [text] by {
        if '\n' !in text {
          SplitNoSeparator(text, '\n');
        }
      }
      Split(text, '\n')
    else []
  }

  /** All entries, run after run. */
  function CollectEntries(results: seq<CommandResult>): (r: seq<string>)
    ensures r == [] <==> forall k :: 0 <= k < |results| ==> results[k].returnCode != 0
    decreases |results|
  {
    if |results| == 0 then []
    else OutputEntries(results[0]) + CollectEntries(results[1..])
  }

  /** Runs contribute their entries in command order: gathering the
      results of two groups of runs is gathering each and concatenating. */
  lemma {:induction false} CollectEntriesAppend(x: seq<CommandResult>, y: seq<CommandResult>)
    ensures CollectEntries(x + y) == CollectEntries(x) + CollectEntries(y)
    decreases |x|
  {
    if |x| == 0 {
      assert x + y == y;
    } else {
      assert (x + y)[1..] == x[1..] + y;
      CollectEntriesAppend(x[1..], y);
    }
  }

  /** A single run contributes exactly its own entries. */
  lemma CollectEntriesSingle(r: CommandResult)
    ensures CollectEntries([r]) == OutputEntries(r)
  {
  }

  /** The guard of `analyze`: no entry at all, or the single empty entry a
      successful run with blank output produces. It only stops the command
      when there is no non-empty entry to analyse. */
  predicate NothingFound(entries: seq<string>)
    ensures NothingFound(entries) ==> forall k :: 0 <= k < |entries| ==> entries[k] == ""
  {
    |entries| == 0 || (|entries| == 1 && entries[0] == "")
  }

  /** One successful run whose output is only whitespace yields exactly the
      single empty entry the guard looks for. */
  lemma BlankOutputIsNothingFound(res: CommandResult)
    requires res.returnCode == 0
    requires forall i :: 0 <= i < |res.stdout| ==> IsSpace(res.stdout[i])
    ensures CollectEntries([res]) == [""]
    ensures NothingFound(CollectEntries([res]))
  {
  }

  /** Two successful runs with blank (whitespace-only) output yield two
      empty entries, which the guard does not recognise: the command reports
      two entries found and then analyses none of them. */
  lemma TwoBlankOutputsPassGuard(a: CommandResult, b: CommandResult, conf: Config, search: RegexSearch)
    requires a.returnCode == 0 && b.returnCode == 0
    requires forall i :: 0 <= i < |a.stdout| ==> IsSpace(a.stdout[i])
    requires forall i :: 0 <= i < |b.stdout| ==> IsSpace(b.stdout[i])
    ensures CollectEntries([a, b]) == ["", ""]
    ensures !NothingFound(CollectEntries([a, b]))
    ensures Flagged(CollectEntries([a, b]), conf, search) == []
  {
  }

  // ---------------------------------------------------------------------
  // Flagging anomalies (analyze)
  // ---------------------------------------------------------------------

  /** An anomaly as reported: the entry and its verdict's reason. */
  datatype Anomaly = Anomaly(entry: string, reason: string)

  /** `a` reports a non-empty entry whose verdict is an anomaly, with that
      verdict's reason. */
  predicate Reports(a: Anomaly, conf: Config, search: RegexSearch) {
    a.entry != "" && AnalyzeLog(a.entry, conf, search) == Verdict(true, a.reason)
  }

  /** What the loop does with one entry: nothing for a blank entry or a
      benign verdict, one report for an anomalous verdict. */
  function Step(entry: string, conf: Config, search: RegexSearch): (r: seq<Anomaly>)
    ensures |r| <= 1
    ensures r != [] <==> entry != "" && AnalyzeLog(entry, conf, search).isAnomaly
    ensures r != [] ==> r[0] == Anomaly(entry, AnalyzeLog(entry, conf, search).reason)
  {
    if entry == "" then []
    else
      var v := AnalyzeLog(entry, conf, search);
      if v.isAnomaly then [Anomaly(entry, v.reason)] else []
  }

  function NonBlankCount(entries: seq<string>): nat
    decreases |entries|
  {
    if |entries| == 0 then 0
    else (if entries[0] == "" then 0 else 1) + NonBlankCount(entries[1..])
  }

  /** The anomalies of a list of entries, in order. Every report is a
      non-blank entry of the list whose verdict is an anomaly, and there are
      never more reports than non-blank entries. */
  function Flagged(entries: seq<string>, conf: Config, search: RegexSearch): (r: seq<Anomaly>)
    ensures |r| <= NonBlankCount(entries)
    ensures forall k :: 0 <= k < |r| ==>
              && r[k].entry in entries && r[k].entry != ""
              && AnalyzeLog(r[k].entry, conf, search) == Verdict(true, r[k].reason)
    decreases |entries|
  {
    if |entries| == 0 then []
    else Step(entries[0], conf, search) + Flagged(entries[1..], conf, search)
  }

  /** Every non-blank entry whose verdict is an anomaly is reported. */
  lemma {:induction false} FlaggedComplete(entries: seq<string>, conf: Config, search: RegexSearch, j: nat)
    requires j < |entries| && entries[j] != ""
    requires AnalyzeLog(entries[j], conf, search).isAnomaly
    ensures Anomaly(entries[j], AnalyzeLog(entries[j], conf, search).reason) in Flagged(entries, conf, search)
    decreases |entries|
  {
    if j > 0 {
      assert entries[j] == entries[1..][j - 1];
      FlaggedComplete(entries[1..], conf, search, j - 1);
    }
  }

  /** Reporting distributes over concatenation of entry lists. */
  lemma {:induction false} FlaggedAppend(a: seq<string>, b: seq<string>, conf: Config, search: RegexSearch)
    ensures Flagged(a + b, conf, search) == Flagged(a, conf, search) + Flagged(b, conf, search)
    decreases |a|
  {
    if |a| > 0 {
      assert (a + b)[1..] == a[1..] + b;
      FlaggedAppend(a[1..], b, conf, search);
    } else {
      assert a + b == b;
    }
  }

  /** How many entries are non-empty with an anomalous verdict: the number
      `analyze` reports as `num_anomalies`. */
  function AnomalousCount(entries: seq<string>, conf: Config, search: RegexSearch): nat
    decreases |entries|
  {
    if |entries| == 0 then 0
    else
      (if entries[0] != "" && AnalyzeLog(entries[0], conf, search).isAnomaly then 1 else 0)
      + AnomalousCount(entries[1..], conf, search)
  }

  /** There is one report per non-empty anomalous entry. */
  lemma {:induction false} FlaggedCountsAnomalies(entries: seq<string>, conf: Config, search: RegexSearch)
    ensures |Flagged(entries, conf, search)| == AnomalousCount(entries, conf, search)
    decreases |entries|
  {
    if |entries| > 0 {
      FlaggedCountsAnomalies(entries[1..], conf, search);
    }
  }

  /** Blank entries are skipped: inserting one anywhere changes nothing. */
  lemma BlankEntriesIgnored(a: seq<string>, b: seq<string>, conf: Config, search: RegexSearch)
    ensures Flagged(a + [""] + b, conf, search) == Flagged(a + b, conf, search)
  {
    FlaggedAppend(a + [""], b, conf, search);
    FlaggedAppend(a, [""], conf, search);
    FlaggedAppend(a, b, conf, search);
  }

  /** The outcome of `analyze` once the entries are gathered. */
  datatype AnalyzeReport =
    | NoEntriesFound
    | Analyzed(found: nat, anomalies: seq<Anomaly>, numAnomalies: nat)

  /** The counting loop of `analyze`: after the guard, each non-blank entry
      is analysed and each anomalous verdict is reported and counted. */
  method Analyze(entries: seq<string>, conf: Config, search: RegexSearch) returns (report: AnalyzeReport)
    ensures report.NoEntriesFound? <==> NothingFound(entries)
    ensures report.Analyzed? ==>
              && report.found == |entries|
              && report.anomalies == Flagged(entries, conf, search)
              && report.numAnomalies == |report.anomalies| <= NonBlankCount(entries)
              && report.numAnomalies == AnomalousCount(entries, conf, search)
  {
    if |entries| == 0 || (|entries| == 1 && entries[0] == "") {
      return NoEntriesFound;
    }
    var anomalies: seq<Anomaly> := [];
    var numAnomalies: nat := 0;
    var i := 0;
    while i < |entries|
      invariant 0 <= i <= |entries|
      invariant anomalies == Flagged(entries[..i], conf, search)
      invariant numAnomalies == |anomalies|
    {
      var entry := entries[i];
      if entry != "" {
        var analysis := AnalyzeLog(entry, conf, search);
        if analysis.isAnomaly {
          numAnomalies := numAnomalies + 1;
          anomalies := anomalies + [Anomaly(entry, analysis.reason)];
        }
      }
      FlaggedAppend(entries[..i], [entry], conf, search);
      assert entries[..i + 1] == entries[..i] + [entry];
      i := i + 1;
    }
    assert entries[..i] == entries;
    FlaggedCountsAnomalies(entries, conf, search);
    report := Analyzed(|entries|, anomalies, numAnomalies);
  }

  // ---------------------------------------------------------------------
  // Live monitoring
  // ---------------------------------------------------------------------

  /** What `monitor` does with one line read from the stream. */
  datatype LineOutcome = Skipped | Quiet | Alert(entry: string, reason: string)

  /** One line of the live stream: stripped, skipped when blank, otherwise
      analysed, with an alert for an anomalous verdict. */
  function MonitorLine(line: string, conf: Config, search: RegexSearch): (o: LineOutcome)
    ensures o.Skipped? <==> forall i :: 0 <= i < |line| ==> IsSpace(line[i])
    ensures o.Alert? <==> Strip(line) != "" && AnalyzeLog(Strip(line), conf, search).isAnomaly
    ensures o.Alert? ==> o.entry == Strip(line) && o.reason == AnalyzeLog(o.entry, conf, search).reason
    ensures o.Alert? ==> Reports(Anomaly(o.entry, o.reason), conf, search)
  {
    StripEmptyIff(line);
    var entry := Strip(line);
    if entry == "" then Skipped
    else
      var analysis := AnalyzeLog(entry, conf, search);
      if analysis.isAnomaly then Alert(entry, analysis.reason) else Quiet
  }

  /** The alert one line raises, if any. */
  function LineAlerts(line: string, conf: Config, search: RegexSearch): (r: seq<Anomaly>)
    ensures |r| <= 1 && forall k :: 0 <= k < |r| ==> Reports(r[k], conf, search)
  {
    var o := MonitorLine(line, conf, search);
    if o.Alert? then [Anomaly(o.entry, o.reason)] else []
  }

  /** The alerts raised over a whole stream, in order: each carries a
      non-empty entry whose verdict is an anomaly, with that verdict's
      reason, and there is at most one per line. */
  function MonitorAlerts(lines: seq<string>, conf: Config, search: RegexSearch): (r: seq<Anomaly>)
    ensures |r| <= |lines|
    ensures forall k :: 0 <= k < |r| ==> Reports(r[k], conf, search)
    decreases |lines|
  {
    if |lines| == 0 then []
    else
      LineAlerts(lines[0], conf, search) + MonitorAlerts(lines[1..], conf, search)
  }

  function StripAll(lines: seq<string>): (r: seq<string>)
    ensures |r| == |lines| && forall k :: 0 <= k < |lines| ==> r[k] == Strip(lines[k])
  {
    seq(|lines|, k requires 0 <= k < |lines| => Strip(lines[k]))
  }

  /** Live monitoring alerts on exactly the anomalies `analyze` would report
      for the same lines once each is stripped, in the same order. */
  lemma {:induction false} MonitorAgreesWithAnalyze(lines: seq<string>, conf: Config, search: RegexSearch)
    ensures MonitorAlerts(lines, conf, search) == Flagged(StripAll(lines), conf, search)
    decreases |lines|
  {
    if |lines| > 0 {
      var stripped := StripAll(lines);
      assert stripped[1..] == StripAll(lines[1..]);
      MonitorAgreesWithAnalyze(lines[1..], conf, search);
      var head := Step(stripped[0], conf, search);
      assert Flagged(stripped, conf, search) == head + Flagged(stripped[1..], conf, search);
      assert stripped[0] == Strip(lines[0]);
      var o := MonitorLine(lines[0], conf, search);
      if o.Alert? {
        assert head == [Anomaly(o.entry, o.reason)];
      } else {
        assert head == [];
      }
    }
  }
}
