/** The arithmetic helpers of `src/utils.rs`: the uptime text of
    `calculate_uptime` and the age test of `should_cleanup_log`. The clock
    readings they take from the system are parameters here. */
module Utils {
  import opened Results
  import opened Numbers

  /** An uptime split into whole days and the time of day. */
  datatype Uptime = Uptime(days: nat, hours: nat, minutes: nat, seconds: nat)

  /** The four divisions of `calculate_uptime`. They give a time of day in
      range, and together they account for every second. */
  function UptimeParts(total: nat): (u: Uptime)
    ensures u.hours < 24 && u.minutes < 60 && u.seconds < 60
    ensures u.days * 86400 + u.hours * 3600 + u.minutes * 60 + u.seconds == total
  {
    var u := Uptime(total / 86400, (total % 86400) / 3600, (total % 3600) / 60, total % 60);
    PartsRecompose(total);
    u
  }

  lemma PartsRecompose(total: nat)
    ensures (total / 86400) * 86400 + ((total % 86400) / 3600) * 3600
      + ((total % 3600) / 60) * 60 + total % 60 == total
  {
    var r := total % 86400;
    assert total == (total / 86400) * 86400 + r;
    assert r == (r / 3600) * 3600 + r % 3600;
    assert r % 3600 == total % 3600 by {
      assert total == (total / 86400) * 24 * 3600 + r;
      ModOfMultiple(total / 86400 * 24, 3600, r);
    }
    var q := total % 3600;
    assert q == (q / 60) * 60 + q % 60;
    assert q % 60 == total % 60 by {
      assert total == (total / 3600) * 60 * 60 + q;
      ModOfMultiple(total / 3600 * 60, 60, q);
    }
  }

  lemma ModOfMultiple(k: nat, m: nat, r: nat)
    requires m > 0
    ensures (k * m + r) % m == r % m
  {
    var q := r / m;
    assert r == q * m + r % m;
    Distribute(k, q, m);
    DivUnique(k * m + r, m, k + q, r % m);
  }

  lemma Distribute(a: nat, b: nat, m: nat)
    ensures (a + b) * m == a * m + b * m
  {
  }

  /** Euclidean division has one quotient and one remainder. */
  lemma DivUnique(n: nat, m: nat, q: nat, r: nat)
    requires m > 0 && r < m && n == q * m + r
    ensures n / m == q && n % m == r
  {
    var q2, r2 := n / m, n % m;
    assert n == q2 * m + r2;
    if q > q2 {
      Distribute(q2, q - q2, m);
      MulAtLeast(q - q2, m);
    } else if q < q2 {
      Distribute(q, q2 - q, m);
      MulAtLeast(q2 - q, m);
    }
  }

  lemma MulAtLeast(a: nat, m: nat)
    requires a >= 1
    ensures a * m >= m
  {
    Distribute(1, a - 1, m);
  }

  /** The split is unique: any days and in-range time of day that add up to
      the total are the ones `UptimeParts` gives. */
  lemma UptimePartsUnique(total: nat, u: Uptime)
    requires u.hours < 24 && u.minutes < 60 && u.seconds < 60
    requires u.days * 86400 + u.hours * 3600 + u.minutes * 60 + u.seconds == total
    ensures UptimeParts(total) == u
  {
    var v := UptimeParts(total);
    var tu := u.hours * 3600 + u.minutes * 60 + u.seconds;
    var tv := v.hours * 3600 + v.minutes * 60 + v.seconds;
    assert tu < 86400 && tv < 86400;
    DivUnique(total, 86400, u.days, tu);
    DivUnique(total, 86400, v.days, tv);
    var mu := u.minutes * 60 + u.seconds;
    var mv := v.minutes * 60 + v.seconds;
    DivUnique(tu, 3600, u.hours, mu);
    DivUnique(tv, 3600, v.hours, mv);
    DivUnique(mu, 60, u.minutes, u.seconds);
    DivUnique(mv, 60, v.minutes, v.seconds);
  }

  /** `{:02}:{:02}:{:02}`. */
  function Clock(hours: nat, minutes: nat, seconds: nat): (c: string)
    requires hours < 100 && minutes < 100 && seconds < 100
    ensures |c| == 8 && c[2] == ':' && c[5] == ':'
  {
    Pad2(hours) + ":" + Pad2(minutes) + ":" + Pad2(seconds)
  }

  /** The three fields of the clock read back as the numbers written. */
  lemma ClockReadsBack(hours: nat, minutes: nat, seconds: nat)
    requires hours < 100 && minutes < 100 && seconds < 100
    ensures var c := Clock(hours, minutes, seconds);
      && AllDigits(c[..2]) && DigitsValue(c[..2]) == hours
      && AllDigits(c[3..5]) && DigitsValue(c[3..5]) == minutes
      && AllDigits(c[6..]) && DigitsValue(c[6..]) == seconds
  {
    var c := Clock(hours, minutes, seconds);
    assert c[..2] == Pad2(hours);
    assert c[3..5] == Pad2(minutes);
    assert c[6..] == Pad2(seconds);
  }

  /** `calculate_uptime`: the seconds since `startTime`, split into days
      and time of day and written out by `UptimeText`, so the text reads
      back as that split (whose parts add up to the elapsed seconds, by
      `UptimeParts`). The source subtracts unsigned seconds, which panics in
      a debug build and wraps in a release build when the start lies in the
      future; callers pass a start time that has passed. */
  function CalculateUptime(startTime: nat, now: nat): (r: string)
    requires startTime <= now
    ensures r == UptimeText(UptimeParts(now - startTime))
    ensures ReadsBackAs(r, UptimeParts(now - startTime))
  {
    UptimeReadsBack(UptimeParts(now - startTime));
    UptimeText(UptimeParts(now - startTime))
  }

  /** The text of an uptime split into days and time of day:
      "<days> days, HH:MM:SS", or the bare "HH:MM:SS" when under a day. */
  function UptimeText(u: Uptime): (r: string)
    requires u.hours < 24 && u.minutes < 60 && u.seconds < 60
    ensures |r| >= 8
    ensures r[|r| - 8..] == Clock(u.hours, u.minutes, u.seconds)
    ensures u.days == 0 <==> |r| == 8
    ensures u.days > 0 ==> r == NatToString(u.days) + " days, " + Clock(u.hours, u.minutes, u.seconds)
  {
    var clock := Clock(u.hours, u.minutes, u.seconds);
    if u.days > 0 then
      var days := NatToString(u.days);
      EndsWithClock(days + " days, ", clock);
      days + " days, " + clock
    else
      clock
  }

  lemma EndsWithClock(prefix: string, clock: string)
    requires |clock| == 8
    ensures |prefix + clock| == |prefix| + 8
    ensures (prefix + clock)[|prefix + clock| - 8..] == clock
  {
    assert (prefix + clock)[|prefix|..] == clock;
  }

  /** Reading `r` back gives `u`: the last eight characters are the clock
      fields holding the time of day, and when there is more the number
      before " days, " holds the days. */
  predicate ReadsBackAs(r: string, u: Uptime) {
    && |r| >= 8
    && AllDigits(r[|r| - 8..|r| - 6]) && DigitsValue(r[|r| - 8..|r| - 6]) == u.hours
    && AllDigits(r[|r| - 5..|r| - 3]) && DigitsValue(r[|r| - 5..|r| - 3]) == u.minutes
    && AllDigits(r[|r| - 2..]) && DigitsValue(r[|r| - 2..]) == u.seconds
    && (|r| == 8 <==> u.days == 0)
    && (|r| > 8 ==> |r| >= 16 && r[|r| - 15..|r| - 8] == " days, "
                    && AllDigits(r[..|r| - 15]) && DigitsValue(r[..|r| - 15]) == u.days)
  }

  /** Reading the text back gives the uptime it was made from. */
  lemma UptimeReadsBack(u: Uptime)
    requires u.hours < 24 && u.minutes < 60 && u.seconds < 60
    ensures ReadsBackAs(UptimeText(u), u)
  {
    ClockReadsBack(u.hours, u.minutes, u.seconds);
    TextReadsBack(UptimeText(u), u, Clock(u.hours, u.minutes, u.seconds));
  }

  lemma TextReadsBack(r: string, u: Uptime, c: string)
    requires |c| == 8 && |r| >= 8 && r[|r| - 8..] == c
    requires AllDigits(c[..2]) && DigitsValue(c[..2]) == u.hours
    requires AllDigits(c[3..5]) && DigitsValue(c[3..5]) == u.minutes
    requires AllDigits(c[6..]) && DigitsValue(c[6..]) == u.seconds
    requires u.days == 0 <==> |r| == 8
    requires u.days > 0 ==> r == NatToString(u.days) + " days, " + c
    ensures ReadsBackAs(r, u)
  {
    SuffixFields(r, c);
    if u.days > 0 {
      DaysPrefix(NatToString(u.days), c);
    }
  }

  lemma SuffixFields(r: string, c: string)
    requires |c| == 8 && |r| >= 8 && r[|r| - 8..] == c
    ensures var n := |r|; r[n - 8..n - 6] == c[..2] && r[n - 5..n - 3] == c[3..5] && r[n - 2..] == c[6..]
  {
  }

  lemma DaysPrefix(d: string, c: string)
    requires |c| == 8
    ensures var r := d + " days, " + c; var n := |r|;
      r[..n - 15] == d && r[n - 15..n - 8] == " days, "
  {
  }

  /** The source's test: 3661 seconds are one hour, one minute and one
      second, shown as "01:01:01". */
  lemma UptimeExample(now: nat)
    requires now >= 3661
    ensures CalculateUptime(now - 3661, now) == "01:01:01"
  {
    var u := Uptime(0, 1, 1, 1);
    UptimePartsUnique(3661, u);
    assert now - (now - 3661) == 3661;
    ClockExample();
  }

  lemma ClockExample()
    ensures UptimeText(Uptime(0, 1, 1, 1)) == "01:01:01"
  {
    assert Pad2(1) == "01";
  }

  /** Seven days in seconds: the age a log file must exceed. */
  const LogRetentionSeconds: nat := 7 * 24 * 3600

  const NanosPerSecond: nat := 1_000_000_000

  /** `should_cleanup_log`. The file's modification time (`None` when its
      metadata cannot be read) and the current time are nanosecond
      readings of the same clock. A modification time in the future is an
      error, as `duration_since` reports it; otherwise the file is due when
      its age in whole seconds is more than seven days. */
  function ShouldCleanupLog(modified: Option<nat>, now: nat): (r: Result<bool>)
    ensures r.Ok? <==> modified.Some? && modified.value <= now
    ensures r.Ok? ==> (r.value <==> now - modified.value >= (LogRetentionSeconds + 1) * NanosPerSecond)
  {
    match modified
    case None => Err("metadata unavailable")
    case Some(m) =>
      if m > now then Err("second time provided was later than self")
      else
        var ageSecs := (now - m) / NanosPerSecond;
        Ok(ageSecs > LogRetentionSeconds)
  }

  /** The threshold is strict: a file exactly seven days old, or less than a
      second over, is kept; one a full second over is removed. */
  lemma CleanupBoundary(m: nat)
    ensures ShouldCleanupLog(Some(m), m + 604800 * NanosPerSecond) == Ok(false)
    ensures ShouldCleanupLog(Some(m), m + 604801 * NanosPerSecond - 1) == Ok(false)
    ensures ShouldCleanupLog(Some(m), m + 604801 * NanosPerSecond) == Ok(true)
  {
  }

  /** Growing older never makes a file ineligible. */
  lemma CleanupMonotone(m: nat, now: nat, later: nat)
    requires m <= now <= later
    requires ShouldCleanupLog(Some(m), now) == Ok(true)
    ensures ShouldCleanupLog(Some(m), later) == Ok(true)
  {
  }
}
