/** The decisions of the guard daemon (`src/guard.rs`): the status labels of
    the health report, the counting of "ERROR" and "WARN" in the day's log
    files, and the bot-process check. Readings of the machine (usages,
    connectivity) and the file system are inputs here. */
module Guard {
  import opened Results
  import opened Text

  /** `HealthCheck` without its timestamp. Usages are percentages. */
  datatype HealthCheck = HealthCheck(
    botStatus: string,
    guardStatus: string,
    cpuUsage: real,
    memoryUsage: real,
    diskUsage: real,
    internetConnectivity: bool,
    telegramApiStatus: bool,
    errorCount: int,
    warningCount: int)

  const NormalStatus: string := "✅ NORMAL"
  const WarningStatus: string := "⚠️ WARNING"
  const RunningLabel: string := "✅ running"
  const StoppedLabel: string := "❌ stopped"
  const UnknownLabel: string := "❓ unknown"
  /** "normal", for a working link and for counts below their limit. */
  const FineLabel: string := "✅ 正常"
  /** "failing", for a link that is down. */
  const DownLabel: string := "❌ 异常"
  /** "needs attention", for counts at or over their limit. */
  const AttentionLabel: string := "⚠️ 需要关注"
  const OkMark: string := "✅"
  const AlertMark: string := "⚠️"

  const CpuLimit: real := 80.0
  const MemoryLimit: real := 80.0
  const DiskLimit: real := 90.0
  const WarningLimit: int := 5

  /** The labels `format_health_report` places in its text. */
  datatype StatusLabels = StatusLabels(
    overall: string,
    bot: string,
    internet: string,
    telegram: string,
    cpu: string,
    memory: string,
    disk: string,
    errors: string,
    warnings: string)

  function LinkLabel(up: bool): string {
    if up then FineLabel else DownLabel
  }

  function UsageMark(usage: real, limit: real): string {
    if usage < limit then OkMark else AlertMark
  }

  /** The bot-status match: two known states and a catch-all. */
  function BotStatusLabel(status: string): (l: string)
    ensures l == RunningLabel <==> status == "running"
    ensures l == StoppedLabel <==> status == "stopped"
    ensures l == UnknownLabel <==> status != "running" && status != "stopped"
  {
    match status
    case "running" => RunningLabel
    case "stopped" => StoppedLabel
    case _ => UnknownLabel
  }

  /** The labels of `format_health_report`. The overall status repeats the
      thresholds of the per-resource marks, so it is NORMAL exactly when
      every mark and both links show as fine. */
  function FormatHealthLabels(h: HealthCheck): (l: StatusLabels)
    ensures l.overall == NormalStatus || l.overall == WarningStatus
    ensures l.overall == NormalStatus <==>
      l.cpu == OkMark && l.memory == OkMark && l.disk == OkMark
      && l.internet == FineLabel && l.telegram == FineLabel
    ensures l.errors == FineLabel <==> h.errorCount == 0
    ensures l.warnings == FineLabel <==> h.warningCount < WarningLimit
    ensures l.bot == BotStatusLabel(h.botStatus)
    ensures l.cpu == OkMark <==> h.cpuUsage < CpuLimit
    ensures l.memory == OkMark <==> h.memoryUsage < MemoryLimit
    ensures l.disk == OkMark <==> h.diskUsage < DiskLimit
    ensures l.internet == FineLabel <==> h.internetConnectivity
    ensures l.telegram == FineLabel <==> h.telegramApiStatus
  {
    var overall :=
      if h.cpuUsage < CpuLimit && h.memoryUsage < MemoryLimit && h.diskUsage < DiskLimit
         && h.internetConnectivity && h.telegramApiStatus
      then NormalStatus else WarningStatus;
    StatusLabels(
      overall,
      BotStatusLabel(h.botStatus),
      LinkLabel(h.internetConnectivity),
      LinkLabel(h.telegramApiStatus),
      UsageMark(h.cpuUsage, CpuLimit),
      UsageMark(h.memoryUsage, MemoryLimit),
      UsageMark(h.diskUsage, DiskLimit),
      if h.errorCount == 0 then FineLabel else AttentionLabel,
      if h.warningCount < WarningLimit then FineLabel else AttentionLabel)
  }

  /** The overall status in terms of the readings: NORMAL iff cpu and memory
      are under 80%, disk under 90%, and both links are up. */
  lemma OverallStatusReadings(h: HealthCheck)
    ensures FormatHealthLabels(h).overall == NormalStatus <==>
      h.cpuUsage < 80.0 && h.memoryUsage < 80.0 && h.diskUsage < 90.0
      && h.internetConnectivity && h.telegramApiStatus
  {
  }

  /** A healthier machine never reports worse: lower usages and links at
      least as available keep a NORMAL status NORMAL. */
  lemma OverallStatusMonotone(h: HealthCheck, g: HealthCheck)
    requires g.cpuUsage <= h.cpuUsage && g.memoryUsage <= h.memoryUsage && g.diskUsage <= h.diskUsage
    requires h.internetConnectivity ==> g.internetConnectivity
    requires h.telegramApiStatus ==> g.telegramApiStatus
    ensures FormatHealthLabels(h).overall == NormalStatus ==> FormatHealthLabels(g).overall == NormalStatus
  {
  }

  /** The thresholds are strict: a usage at the limit already raises the
      mark and the overall warning. */
  lemma ThresholdsStrict(h: HealthCheck)
    requires h.internetConnectivity && h.telegramApiStatus
    requires h.memoryUsage < 80.0 && h.diskUsage < 90.0
    ensures h.cpuUsage == 80.0 ==>
      FormatHealthLabels(h).cpu == AlertMark && FormatHealthLabels(h).overall == WarningStatus
    ensures h.cpuUsage == 79.9 ==> FormatHealthLabels(h).overall == NormalStatus
  {
  }

  /** `check_bot_process`: a placeholder that always answers "running". */
  function CheckBotProcess(): (status: string)
    ensures BotStatusLabel(status) == RunningLabel
  {
    "running"
  }

  /** The restart condition of `monitor_bot_process`. */
  predicate MonitorAlerts(status: string) {
    status != "running"
  }

  /** Because the process check is constant, the monitor's restart alert
      never fires, and the report always shows the bot as running. */
  lemma MonitorNeverAlerts()
    ensures !MonitorAlerts(CheckBotProcess())
    ensures BotStatusLabel(CheckBotProcess()) == RunningLabel
  {
  }

  // Counting occurrences

  /** `str::matches(p).count()`: occurrences found left to right, each
      search resuming after the previous match, so matches never overlap.
      The empty pattern matches at every character boundary. */
  function CountMatches(s: string, p: string): (n: nat)
    ensures |p| == 0 ==> n == |s| + 1
    ensures |p| > 0 ==> n <= |s|
    decreases |s|
  {
    if |p| == 0 then |s| + 1
    else if |s| < |p| then 0
    else if s[..|p|] == p then 1 + CountMatches(s[|p|..], p)
    else CountMatches(s[1..], p)
  }

  /** Matches do not overlap, so `n` matches of `p` take up `n * |p|`
      characters of `s`. */
  lemma {:induction false} CountMatchesBound(s: string, p: string)
    requires |p| > 0
    ensures CountMatches(s, p) * |p| <= |s|
    decreases |s|
  {
    if |s| >= |p| {
      if s[..|p|] == p {
        CountMatchesBound(s[|p|..], p);
        MulSucc(CountMatches(s[|p|..], p), |p|);
      } else {
        CountMatchesBound(s[1..], p);
      }
    }
  }

  lemma MulSucc(c: nat, k: nat)
    ensures (1 + c) * k == k + c * k
  {
  }

  /** The number of positions at which `p` occurs, overlapping or not. */
  function AllOccurrences(s: string, p: string): nat
    decreases |s|
  {
    if |s| < |p| then 0
    else (if s[..|p|] == p then 1 else 0) + (if s == [] then 0 else AllOccurrences(s[1..], p))
  }

  /** No proper prefix of `p` is also a suffix, so two occurrences cannot
      overlap. */
  predicate SelfOverlapFree(p: string) {
    forall k :: 0 < k < |p| ==> p[k..] != p[..|p| - k]
  }

  /** A non-empty pattern is counted at least once exactly when it occurs. */
  lemma {:induction false} CountMatchesPositive(s: string, p: string)
    requires |p| > 0
    ensures CountMatches(s, p) > 0 <==> Contains(s, p)
    decreases |s|
  {
    if |s| < |p| {
    } else if s[..|p|] == p {
      ContainsAt(s, p, 0);
    } else {
      CountMatchesPositive(s[1..], p);
      ContainsTail(s, p);
    }
  }

  lemma ContainsTail(s: string, p: string)
    requires 0 < |p| <= |s| && s[..|p|] != p
    ensures Contains(s, p) <==> Contains(s[1..], p)
  {
    if Contains(s, p) {
      var i :| 0 <= i <= |s| - |p| && OccursAt(s, p, i);
      assert i != 0;
      assert s[1..][i - 1..i - 1 + |p|] == s[i..i + |p|];
      ContainsAt(s[1..], p, i - 1);
    }
    if Contains(s[1..], p) {
      var i :| 0 <= i <= |s[1..]| - |p| && OccursAt(s[1..], p, i);
      assert s[i + 1..i + 1 + |p|] == s[1..][i..i + |p|];
      ContainsAt(s, p, i + 1);
    }
  }

  /** For a pattern that cannot overlap itself, counting non-overlapping
      matches counts every occurrence. */
  lemma {:induction false} OverlapFreeCountsAll(s: string, p: string)
    requires SelfOverlapFree(p)
    ensures CountMatches(s, p) == AllOccurrences(s, p)
    decreases |s|
  {
    if |p| == 0 {
      if s != [] {
        OverlapFreeCountsAll(s[1..], p);
      }
    } else if |s| < |p| {
    } else if s[..|p|] == p {
      OverlapFreeCountsAll(s[|p|..], p);
      SkipInsideMatch(s, p, 1);
    } else {
      OverlapFreeCountsAll(s[1..], p);
    }
  }

  /** Inside a match of a self-overlap-free pattern no other occurrence
      starts, so the occurrences after position `k` are those after the
      match. */
  lemma {:induction false} SkipInsideMatch(s: string, p: string, k: nat)
    requires SelfOverlapFree(p) && 1 <= k <= |p| <= |s| && s[..|p|] == p
    ensures AllOccurrences(s[k..], p) == AllOccurrences(s[|p|..], p)
    decreases |p| - k
  {
    if k < |p| {
      var t := s[k..];
      assert t[1..] == s[k + 1..];
      if |t| >= |p| && t[..|p|] == p {
        BorderOfTwoMatches(s, p, k);
        assert false;
      }
      SkipInsideMatch(s, p, k + 1);
    }
  }

  /** Two occurrences `k` apart, with `k` shorter than the pattern, make
      the pattern's suffix from `k` equal to its prefix of the same length. */
  lemma BorderOfTwoMatches(s: string, p: string, k: nat)
    requires 0 < k < |p| && k + |p| <= |s|
    requires s[..|p|] == p && s[k..][..|p|] == p
    ensures p[k..] == p[..|p| - k]
  {
    forall i | 0 <= i < |p| - k ensures p[k..][i] == p[..|p| - k][i] {
      assert p[k + i] == s[k + i];
      assert s[k..][..|p|][i] == s[k + i];
    }
  }

  /** Every later character differing from the first rules out overlaps. */
  lemma FirstCharUnique(p: string)
    requires forall k :: 0 < k < |p| ==> p[k] != p[0]
    ensures SelfOverlapFree(p)
  {
    forall k | 0 < k < |p| ensures p[k..] != p[..|p| - k] {
      assert p[k..][0] == p[k];
      assert p[..|p| - k][0] == p[0];
    }
  }

  /** Neither pattern `analyze_logs` counts can overlap itself. */
  lemma PatternsOverlapFree()
    ensures SelfOverlapFree("ERROR") && SelfOverlapFree("WARN")
  {
    FirstCharUnique("ERROR");
    FirstCharUnique("WARN");
  }

  /** "WARNING" holds one "WARN" and no "ERROR", so a warning line counts
      once towards the warnings only. */
  lemma WarningLineCounted()
    ensures CountMatches("WARNING", "WARN") == 1
    ensures CountMatches("WARNING", "ERROR") == 0
  {
    assert "WARNING"[..4] == "WARN";
    assert "WARNING"[4..] == "ING";
    assert "WARNING"[..5][0] == 'W';
    assert "WARNING"[1..][..5][0] == 'A';
    assert "WARNING"[1..][1..][..5][0] == 'R';
  }

  /** For a pattern that overlaps itself the count is below the number of
      occurrences: "aa" occurs twice in "aaa" but is counted once. */
  lemma OverlappingCountedOnce()
    ensures CountMatches("aaa", "aa") == 1
    ensures AllOccurrences("aaa", "aa") == 2
  {
    assert "aaa"[..2] == "aa";
    assert "aaa"[2..] == "a";
    assert "aaa"[1..] == "aa";
    assert "aa"[..2] == "aa";
    assert "aa"[1..] == "a";
  }

  // Log analysis

  /** The file system as `read_to_string` sees it: the content of a file,
      or `None` when it cannot be read. */
  type Reader = string -> Option<string>

  /** The files `analyze_logs` reads, for a date written as YYYYMMDD. */
  function LogFiles(date: string): seq<string> {
    ["bot.log", "guard_" + date + ".log"]
  }

  /** What one file adds to the (errors, warnings) counts. */
  function FileCounts(read: Reader, name: string): (int, int) {
    match read(name)
    case None => (0, 0)
    case Some(content) => (CountMatches(content, "ERROR"), CountMatches(content, "WARN"))
  }

  /** The counts after reading `files` in order. */
  function LogTotals(read: Reader, files: seq<string>): (r: (int, int))
    ensures r.0 >= 0 && r.1 >= 0
    decreases |files|
  {
    if files == [] then (0, 0)
    else
      var t := LogTotals(read, files[..|files| - 1]);
      var c := FileCounts(read, files[|files| - 1]);
      (t.0 + c.0, t.1 + c.1)
  }

  /** `analyze_logs`: the loop over the day's files. It never fails. */
  method AnalyzeLogs(read: Reader, date: string) returns (r: Result<(int, int)>)
    ensures r.Ok? && r.value == LogTotals(read, LogFiles(date))
  {
    var errorCount := 0;
    var warningCount := 0;
    var patterns := LogFiles(date);
    for i := 0 to |patterns|
      invariant (errorCount, warningCount) == LogTotals(read, patterns[..i])
    {
      assert patterns[..i + 1][..i] == patterns[..i];
      match read(patterns[i]) {
        case Some(content) =>
          errorCount := errorCount + CountMatches(content, "ERROR");
          warningCount := warningCount + CountMatches(content, "WARN");
        case None =>
      }
    }
    assert patterns[..|patterns|] == patterns;
    return Ok((errorCount, warningCount));
  }

  /** The same counts as a sum, front to back, of every occurrence. */
  function OccurrenceTotals(read: Reader, files: seq<string>): (int, int)
    decreases |files|
  {
    if files == [] then (0, 0)
    else
      var rest := OccurrenceTotals(read, files[1..]);
      match read(files[0])
      case None => rest
      case Some(content) =>
        (AllOccurrences(content, "ERROR") + rest.0, AllOccurrences(content, "WARN") + rest.1)
  }

  /** The totals are the number of places where "ERROR" and "WARN" occur in
      the readable files; unreadable files contribute nothing. */
  lemma {:induction false} LogTotalsCountOccurrences(read: Reader, files: seq<string>)
    ensures LogTotals(read, files) == OccurrenceTotals(read, files)
    decreases |files|
  {
    if files != [] {
      LogTotalsCons(read, files);
      LogTotalsCountOccurrences(read, files[1..]);
      match read(files[0]) {
        case None =>
        case Some(content) =>
          PatternsOverlapFree();
          OverlapFreeCountsAll(content, "ERROR");
          OverlapFreeCountsAll(content, "WARN");
      }
    }
  }

  /** The first file's counts come first in the totals. */
  lemma {:induction false} LogTotalsCons(read: Reader, files: seq<string>)
    requires files != []
    ensures LogTotals(read, files).0 == FileCounts(read, files[0]).0 + LogTotals(read, files[1..]).0
    ensures LogTotals(read, files).1 == FileCounts(read, files[0]).1 + LogTotals(read, files[1..]).1
    decreases |files|
  {
    var init := files[..|files| - 1];
    if |files| > 1 {
      LogTotalsCons(read, init);
      assert files[1..][..|files| - 2] == init[1..];
      assert files[1..][|files| - 2] == files[|files| - 1];
    } else {
      assert files[1..] == [];
    }
  }

  /** With no readable file the analysis reports no errors and no warnings. */
  lemma {:induction false} LogTotalsUnreadable(read: Reader, files: seq<string>)
    requires forall i :: 0 <= i < |files| ==> read(files[i]).None?
    ensures LogTotals(read, files) == (0, 0)
    decreases |files|
  {
    if files != [] {
      LogTotalsUnreadable(read, files[..|files| - 1]);
    }
  }
}
