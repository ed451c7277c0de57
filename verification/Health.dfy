/** The stored health record (internal/service/application_health_service.go) against
    the whole probe history it stands for. */
module Health {
  import opened Common

  datatype HealthStatus = Unknown | Healthy | Unhealthy

  datatype Thresholds = Thresholds(success: int, failure: int)

  /** A probe: when it ran and its error, if any. */
  datatype Probe = Probe(at: int, error: Option<string>)

  datatype Record = Record(
    status: HealthStatus,
    successes: nat,
    failures: nat,
    lastSuccessAt: Option<int>,
    lastFailureAt: Option<int>,
    errorMsg: string)

  /** buildHealthResult with its local updates. */
  method BuildResult(th: Thresholds, prev: Option<Record>, p: Probe) returns (r: Record)
    ensures r == Result(th, prev, p)
  {
    var status, successes, failures := Unknown, 0, 0;
    var lastSuccessAt: Option<int>, lastFailureAt: Option<int> := None, None;
    if prev.Some? {
      status, successes, failures := prev.value.status, prev.value.successes, prev.value.failures;
      lastSuccessAt, lastFailureAt := prev.value.lastSuccessAt, prev.value.lastFailureAt;
    }
    var errorMsg := "";
    if p.error.None? {
      successes := successes + 1;
      failures := 0;
      lastSuccessAt := Some(p.at);
      if successes >= th.success {
        status := Healthy;
      }
    } else {
      failures := failures + 1;
      successes := 0;
      lastFailureAt := Some(p.at);
      errorMsg := p.error.value;
      if failures >= th.failure {
        status := Unhealthy;
      }
    }
    r := Record(status, successes, failures, lastSuccessAt, lastFailureAt, errorMsg);
  }

  const BLANK := Record(Unknown, 0, 0, None, None, "")

  function Result(th: Thresholds, prev: Option<Record>, p: Probe): Record {
    var was := if prev.Some? then prev.value else BLANK;
    if p.error.None? then
      Record(if was.successes + 1 >= th.success then Healthy else was.status,
             was.successes + 1, 0, Some(p.at), was.lastFailureAt, "")
    else
      Record(if was.failures + 1 >= th.failure then Unhealthy else was.status,
             0, was.failures + 1, was.lastSuccessAt, Some(p.at), p.error.value)
  }

  /** The record after a history of probes, oldest first. */
  function After(th: Thresholds, history: seq<Probe>): Option<Record> {
    if history == [] then None
    else Some(Result(th, After(th, history[..|history| - 1]), history[|history| - 1]))
  }

  // ----------------------------------------------------- what history says

  /** The `n` probes before position `end` all went one way. */
  ghost predicate Streak(history: seq<Probe>, end: nat, n: nat, ok: bool) {
    n <= end <= |history| && forall i | end - n <= i < end :: history[i].error.None? == ok
  }

  /** `n` is the length of the run of successes (or failures) that ends at `end`. */
  ghost predicate IsRunLength(history: seq<Probe>, end: nat, n: nat, ok: bool) {
    Streak(history, end, n, ok) && (n < end ==> history[end - n - 1].error.None? != ok)
  }

  /** A run of successes (or failures) had reached its threshold at `end`. */
  ghost predicate Reached(th: Thresholds, history: seq<Probe>, end: nat, ok: bool) {
    end > 0 && history != [] && exists n: nat :: n >= (if ok then th.success else th.failure) && n > 0 && Streak(history, end, n, ok)
  }

  /** No run of successes (or failures) reached its threshold after `k`. */
  ghost predicate QuietAfter(th: Thresholds, history: seq<Probe>, k: nat, ok: bool) {
    forall j: nat | k < j <= |history| :: !Reached(th, history, j, ok)
  }

  /** The most recent point where any run had reached its threshold was one of `ok`. */
  ghost predicate LastReached(th: Thresholds, history: seq<Probe>, ok: bool) {
    exists k: nat :: k <= |history| && Reached(th, history, k, ok) && QuietAfter(th, history, k, !ok)
  }

  ghost predicate NeverReached(th: Thresholds, history: seq<Probe>) {
    forall k: nat, ok: bool | k <= |history| :: !Reached(th, history, k, ok)
  }

  ghost predicate Positive(th: Thresholds) {
    th.success > 0 && th.failure > 0
  }

  lemma StreakOfPrefix(history: seq<Probe>, end: nat, n: nat, ok: bool)
    requires history != [] && end < |history|
    ensures Streak(history[..|history| - 1], end, n, ok) <==> Streak(history, end, n, ok)
  {
    assert forall i | 0 <= i < end :: history[..|history| - 1][i] == history[i];
  }

  lemma StreakStep(history: seq<Probe>, n: nat, ok: bool)
    requires history != []
    ensures Streak(history, |history|, n + 1, ok)
            <==> history[|history| - 1].error.None? == ok && Streak(history, |history| - 1, n, ok)
  {
  }

  /** The two counters are the lengths of the trailing runs, so one of them is zero. */
  lemma {:induction false} CountersAreRuns(th: Thresholds, history: seq<Probe>)
    requires history != []
    ensures var r := After(th, history).value;
            && IsRunLength(history, |history|, r.successes, true)
            && IsRunLength(history, |history|, r.failures, false)
            && (r.successes == 0 <==> r.failures > 0)
    decreases |history|
  {
    var h, n := history[..|history| - 1], |history| - 1;
    var ok, r := history[n].error.None?, After(th, history).value;
    if h != [] {
      CountersAreRuns(th, h);
      var p := After(th, h).value;
      StreakOfPrefix(history, n, p.successes, true);
      StreakOfPrefix(history, n, p.failures, false);
      StreakStep(history, if ok then p.successes else p.failures, ok);
    }
  }

  lemma ReachedOfPrefix(th: Thresholds, history: seq<Probe>, end: nat, ok: bool)
    requires |history| > 1 && end < |history|
    ensures Reached(th, history[..|history| - 1], end, ok) <==> Reached(th, history, end, ok)
  {
    var h := history[..|history| - 1];
    if Reached(th, h, end, ok) {
      var n: nat :| n >= (if ok then th.success else th.failure) && n > 0 && Streak(h, end, n, ok);
      StreakOfPrefix(history, end, n, ok);
    }
    if Reached(th, history, end, ok) {
      var n: nat :| n >= (if ok then th.success else th.failure) && n > 0 && Streak(history, end, n, ok);
      StreakOfPrefix(history, end, n, ok);
    }
  }

  /** A longer run than the trailing one does not exist. */
  lemma RunLengthIsLongest(history: seq<Probe>, end: nat, n: nat, m: nat, ok: bool)
    requires IsRunLength(history, end, n, ok) && Streak(history, end, m, ok)
    ensures m <= n
  {
  }

  lemma ReachedNow(th: Thresholds, history: seq<Probe>, ok: bool)
    requires Positive(th) && history != []
    ensures var r := After(th, history).value;
            Reached(th, history, |history|, ok) <==> (if ok then r.successes >= th.success else r.failures >= th.failure)
  {
    CountersAreRuns(th, history);
    var r, n := After(th, history).value, |history|;
    var run := if ok then r.successes else r.failures;
    if Reached(th, history, n, ok) {
      var m: nat :| m >= (if ok then th.success else th.failure) && m > 0 && Streak(history, n, m, ok);
      RunLengthIsLongest(history, n, run, m, ok);
    }
  }

  /** A run that reached its threshold ends with a probe of its kind. */
  lemma ReachedEndsAlike(th: Thresholds, history: seq<Probe>, end: nat, ok: bool)
    requires 0 < end <= |history| && Reached(th, history, end, ok)
    ensures history[end - 1].error.None? == ok
  {
    var n: nat :| n >= (if ok then th.success else th.failure) && n > 0 && Streak(history, end, n, ok);
  }

  /** A threshold reached at the last probe decides. */
  lemma DecidedNow(th: Thresholds, history: seq<Probe>, ok: bool)
    requires Reached(th, history, |history|, ok)
    ensures LastReached(th, history, ok) && !LastReached(th, history, !ok) && !NeverReached(th, history)
  {
    var n := |history|;
    ReachedEndsAlike(th, history, n, ok);
    assert QuietAfter(th, history, n, !ok);
    if Reached(th, history, n, !ok) {
      ReachedEndsAlike(th, history, n, !ok);
    }
    forall k: nat | k < n ensures !QuietAfter(th, history, k, ok) {
      assert k < n <= n && Reached(th, history, n, ok);
    }
    assert !!ok == ok;
  }

  /** Otherwise what was decided before stands. */
  lemma StandsFromBefore(th: Thresholds, history: seq<Probe>, ok: bool)
    requires |history| > 1
    requires forall b: bool :: !Reached(th, history, |history|, b)
    ensures var h := history[..|history| - 1];
            && (LastReached(th, h, ok) <==> LastReached(th, history, ok))
            && (NeverReached(th, h) <==> NeverReached(th, history))
  {
    var h, n := history[..|history| - 1], |history|;
    forall k: nat, b: bool | k < n
      ensures Reached(th, h, k, b) <==> Reached(th, history, k, b)
    {
      ReachedOfPrefix(th, history, k, b);
    }
    forall k: nat, b: bool | k < n ensures QuietAfter(th, h, k, b) <==> QuietAfter(th, history, k, b) {
      QuietOfPrefix(th, history, k, b);
    }
    if LastReached(th, h, ok) {
      var k: nat :| k <= |h| && Reached(th, h, k, ok) && QuietAfter(th, h, k, !ok);
      assert Reached(th, history, k, ok) && QuietAfter(th, history, k, !ok);
    }
    if LastReached(th, history, ok) {
      var k: nat :| k <= n && Reached(th, history, k, ok) && QuietAfter(th, history, k, !ok);
      assert Reached(th, h, k, ok) && QuietAfter(th, h, k, !ok);
    }
  }

  lemma QuietOfPrefix(th: Thresholds, history: seq<Probe>, k: nat, b: bool)
    requires |history| > 1 && k < |history| && !Reached(th, history, |history|, b)
    ensures QuietAfter(th, history[..|history| - 1], k, b) <==> QuietAfter(th, history, k, b)
  {
    var h, n := history[..|history| - 1], |history|;
    forall j: nat | j < n ensures Reached(th, h, j, b) <==> Reached(th, history, j, b) {
      ReachedOfPrefix(th, history, j, b);
    }
  }

  /** The status is the one set at the most recent point where a run reached its
      threshold, or unknown if there was none. */
  lemma {:induction false} StatusIsLastReached(th: Thresholds, history: seq<Probe>)
    requires Positive(th) && history != []
    ensures var s := After(th, history).value.status;
            && (s == Healthy <==> LastReached(th, history, true))
            && (s == Unhealthy <==> LastReached(th, history, false))
            && (s == Unknown <==> NeverReached(th, history))
    decreases |history|
  {
    var h, n := history[..|history| - 1], |history|;
    var ok := history[n - 1].error.None?;
    ReachedNow(th, history, ok);
    if Reached(th, history, n, ok) {
      DecidedNow(th, history, ok);
    } else {
      forall b: bool ensures !Reached(th, history, n, b) {
        if Reached(th, history, n, b) {
          ReachedEndsAlike(th, history, n, b);
        }
      }
      if h == [] {
        NothingReached(th, history);
      } else {
        StandsFromBefore(th, history, true);
        StandsFromBefore(th, history, false);
        StatusIsLastReached(th, h);
      }
    }
  }

  lemma NothingReached(th: Thresholds, history: seq<Probe>)
    requires |history| == 1 && forall b: bool :: !Reached(th, history, 1, b)
    ensures NeverReached(th, history) && !LastReached(th, history, true) && !LastReached(th, history, false)
  {
  }

  /** `at` is the time of the latest probe that went one way, if any did. */
  ghost predicate IsLatest(history: seq<Probe>, ok: bool, at: Option<int>) {
    match at
    case None => forall i | 0 <= i < |history| :: history[i].error.None? != ok
    case Some(v) => exists i :: 0 <= i < |history| && LatestAt(history, ok, i) && history[i].at == v
  }

  ghost predicate LatestAt(history: seq<Probe>, ok: bool, i: nat)
    requires i < |history|
  {
    history[i].error.None? == ok && forall j | i < j < |history| :: history[j].error.None? != ok
  }

  lemma LatestStays(history: seq<Probe>, ok: bool, at: Option<int>, p: Probe)
    requires IsLatest(history, ok, at)
    ensures IsLatest(history + [p], ok, if p.error.None? == ok then Some(p.at) else at)
  {
    var all := history + [p];
    if p.error.None? == ok {
      assert LatestAt(all, ok, |history|);
    } else if at.Some? {
      var i :| 0 <= i < |history| && LatestAt(history, ok, i) && history[i].at == at.value;
      assert LatestAt(all, ok, i) && all[i].at == at.value;
    }
  }

  /** The two timestamps and the error message are those of the latest probe of each kind. */
  lemma {:induction false} TimesAreLatest(th: Thresholds, history: seq<Probe>, ok: bool)
    requires history != []
    ensures var r := After(th, history).value;
            IsLatest(history, ok, if ok then r.lastSuccessAt else r.lastFailureAt)
    ensures var last := history[|history| - 1].error;
            After(th, history).value.errorMsg == if last.None? then "" else last.value
    decreases |history|
  {
    var h, p := history[..|history| - 1], history[|history| - 1];
    assert history == h + [p];
    if h == [] {
      LatestStays([], ok, None, p);
    } else {
      TimesAreLatest(th, h, ok);
      var r := After(th, h).value;
      LatestStays(h, ok, if ok then r.lastSuccessAt else r.lastFailureAt, p);
    }
  }
}
