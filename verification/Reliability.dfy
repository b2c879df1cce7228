/** What is known about providers, and how it tunes the fetch policy. */
module Reliability {
  import opened Basics
  import opened Quorum
  import opened Fetching

  datatype Telemetry = Telemetry(
    attempts: nat,
    successes: nat,
    proofFailures: nat,
    staleFailures: nat,
    otherFailures: nat,
    consecutiveFailures: nat)

  const NO_TELEMETRY := Telemetry(0, 0, 0, 0, 0, 0)

  /** Every attempt is counted once: as a success or as one kind of failure. */
  ghost predicate Balanced(t: Telemetry) {
    && t.attempts == t.successes + t.proofFailures + t.staleFailures + t.otherFailures
    && t.consecutiveFailures <= t.attempts - t.successes
  }

  /** `sub in s` */
  predicate Contains(s: string, sub: string) {
    sub <= s || (s != [] && Contains(s[1..], sub))
  }

  /** `sub` stands somewhere in `s`. */
  ghost predicate HasText(s: string, sub: string) {
    exists i :: TextAt(s, sub, i)
  }

  ghost predicate TextAt(s: string, sub: string, i: int) {
    0 <= i && i + |sub| <= |s| && s[i..i + |sub|] == sub
  }

  lemma {:induction false} ContainsMeans(s: string, sub: string)
    ensures Contains(s, sub) <==> HasText(s, sub)
  {
    if sub <= s {
      assert TextAt(s, sub, 0);
    } else if s != [] {
      ContainsMeans(s[1..], sub);
      if i :| TextAt(s, sub, i) {
        assert s[1..][i - 1..i - 1 + |sub|] == s[i..i + |sub|];
        assert TextAt(s[1..], sub, i - 1);
      }
      if i :| TextAt(s[1..], sub, i) {
        assert s[i + 1..i + 1 + |sub|] == s[1..][i..i + |sub|];
        assert TextAt(s, sub, i + 1);
      }
    }
  }

  type Stats = map<Bytes, Telemetry>

  function Known(stats: Stats, provider: Bytes): Telemetry {
    if provider in stats then stats[provider] else NO_TELEMETRY
  }

  /** One observation about one provider. */
  datatype Report = Report(provider: Bytes, accepted: bool, reason: string)

  function Counted(t: Telemetry, accepted: bool, reason: string): Telemetry {
    if accepted then t.(attempts := t.attempts + 1, successes := t.successes + 1, consecutiveFailures := 0)
    else
      var failed := t.(attempts := t.attempts + 1, consecutiveFailures := t.consecutiveFailures + 1);
      if Contains(reason, "proof") then failed.(proofFailures := t.proofFailures + 1)
      else if Contains(reason, "fresh") || Contains(reason, "stale") then failed.(staleFailures := t.staleFailures + 1)
      else failed.(otherFailures := t.otherFailures + 1)
  }

  function Recorded(stats: Stats, reports: seq<Report>): Stats {
    if reports == [] then stats
    else
      var before, last := Recorded(stats, reports[..|reports| - 1]), reports[|reports| - 1];
      before[last.provider := Counted(Known(before, last.provider), last.accepted, last.reason)]
  }

  /** The reports about one provider. */
  function About(reports: seq<Report>, provider: Bytes): seq<Report> {
    if reports == [] then []
    else
      var last := reports[|reports| - 1];
      About(reports[..|reports| - 1], provider) + (if last.provider == provider then [last] else [])
  }

  /** The failures since the last success. */
  function Streak(reports: seq<Report>): nat {
    if reports == [] || reports[|reports| - 1].accepted then 0 else 1 + Streak(reports[..|reports| - 1])
  }

  function Accepted(reports: seq<Report>): nat {
    if reports == [] then 0
    else Accepted(reports[..|reports| - 1]) + (if reports[|reports| - 1].accepted then 1 else 0)
  }

  /** The kinds of failure, by the text of the reason. */
  ghost predicate ProofFailure(report: Report) {
    !report.accepted && HasText(report.reason, "proof")
  }

  ghost predicate StaleFailure(report: Report) {
    && !report.accepted && !HasText(report.reason, "proof")
    && (HasText(report.reason, "fresh") || HasText(report.reason, "stale"))
  }

  ghost predicate OtherFailure(report: Report) {
    && !report.accepted && !HasText(report.reason, "proof")
    && !HasText(report.reason, "fresh") && !HasText(report.reason, "stale")
  }

  ghost function ProofFailures(reports: seq<Report>): nat {
    if reports == [] then 0
    else ProofFailures(reports[..|reports| - 1]) + (if ProofFailure(reports[|reports| - 1]) then 1 else 0)
  }

  ghost function StaleFailures(reports: seq<Report>): nat {
    if reports == [] then 0
    else StaleFailures(reports[..|reports| - 1]) + (if StaleFailure(reports[|reports| - 1]) then 1 else 0)
  }

  ghost function OtherFailures(reports: seq<Report>): nat {
    if reports == [] then 0
    else OtherFailures(reports[..|reports| - 1]) + (if OtherFailure(reports[|reports| - 1]) then 1 else 0)
  }

  /** What the counters of a provider mean: its reports, its accepted reports, the failures since the
      last accepted one, and every failure filed under exactly one kind, by the text of its reason. */
  lemma {:induction false} TelemetryCountsReports(reports: seq<Report>, provider: Bytes)
    ensures var t, mine := Known(Recorded(map[], reports), provider), About(reports, provider);
            && t.attempts == |mine| && t.successes == Accepted(mine) && t.consecutiveFailures == Streak(mine)
            && t.proofFailures == ProofFailures(mine) && t.staleFailures == StaleFailures(mine)
            && t.otherFailures == OtherFailures(mine)
            && Balanced(t)
  {
    hide Counted, Contains, Balanced, ProofFailure, StaleFailure, OtherFailure;
    if reports == [] {
      NothingCounted();
    } else {
      var earlier, last := reports[..|reports| - 1], reports[|reports| - 1];
      TelemetryCountsReports(earlier, provider);
      var t, mine := Known(Recorded(map[], earlier), provider), About(earlier, provider);
      if last.provider == provider {
        OneMoreCounted(t, last);
        assert (mine + [last])[..|mine|] == mine;
      } else {
        assert mine + [] == mine;
      }
    }
  }

  lemma NothingCounted()
    ensures Balanced(NO_TELEMETRY)
  {
  }

  lemma OneMoreCounted(t: Telemetry, report: Report)
    requires Balanced(t)
    ensures var counted := Counted(t, report.accepted, report.reason);
            && counted.attempts == t.attempts + 1
            && counted.successes == t.successes + (if report.accepted then 1 else 0)
            && counted.consecutiveFailures == (if report.accepted then 0 else t.consecutiveFailures + 1)
            && counted.proofFailures == t.proofFailures + (if ProofFailure(report) then 1 else 0)
            && counted.staleFailures == t.staleFailures + (if StaleFailure(report) then 1 else 0)
            && counted.otherFailures == t.otherFailures + (if OtherFailure(report) then 1 else 0)
            && Balanced(counted)
  {
    hide Contains, HasText;
    ContainsMeans(report.reason, "proof");
    ContainsMeans(report.reason, "fresh");
    ContainsMeans(report.reason, "stale");
  }

  class ProviderReliabilityTracker {
    var stats: Stats

    constructor ()
      ensures stats == map[]
    {
      stats := map[];
    }

    function Get(provider: Bytes): Telemetry
      reads this
    {
      Known(stats, provider)
    }

    method RecordResult(provider: Bytes, accepted: bool, reason: string)
      modifies this
      ensures stats == Recorded(old(stats), [Report(provider, accepted, reason)])
    {
      var t := Get(provider);
      var proofFailures, staleFailures, otherFailures := t.proofFailures, t.staleFailures, t.otherFailures;
      var updated;
      if accepted {
        updated := Telemetry(t.attempts + 1, t.successes + 1, proofFailures, staleFailures, otherFailures, 0);
      } else {
        if Contains(reason, "proof") {
          proofFailures := proofFailures + 1;
        } else if Contains(reason, "fresh") || Contains(reason, "stale") {
          staleFailures := staleFailures + 1;
        } else {
          otherFailures := otherFailures + 1;
        }
        updated := Telemetry(t.attempts + 1, t.successes, proofFailures, staleFailures, otherFailures,
                             t.consecutiveFailures + 1);
      }
      stats := stats[provider := updated];
      assert [Report(provider, accepted, reason)][..0] == [];
    }
  }

  /** How quotients are rounded and lists are summed up. The source computes with floats; whatever is
      said below holds for every rounding. */
  datatype Arithmetic = Arithmetic(round: real -> real, total: seq<real> -> real)

  function SuccessRate(a: Arithmetic, t: Telemetry): real {
    if t.attempts == 0 then 1.0 else a.round(t.successes as real / t.attempts as real)
  }

  function AverageSuccessRate(a: Arithmetic, ts: seq<Telemetry>): real {
    if ts == [] then 1.0
    else
      var rates := seq(|ts|, i requires 0 <= i < |ts| => SuccessRate(a, ts[i]));
      a.round(a.total(rates) / |ts| as real)
  }

  function MaxConsecutiveFailures(ts: seq<Telemetry>): nat {
    if ts == [] then 0 else Max(MaxConsecutiveFailures(ts[..|ts| - 1]), ts[|ts| - 1].consecutiveFailures)
  }

  /** `tune_policy_from_reliability` */
  function TunePolicy(a: Arithmetic, base: Policy, ts: seq<Telemetry>, minSuccessRate: real,
                      failureStreakThreshold: int, maxExtraCover: int, maxExtraRedundancy: int): Result<Policy>
  {
    if !(0.0 < minSuccessRate <= 1.0) then Err("min_success_rate must be in (0, 1]")
    else if failureStreakThreshold <= 0 then Err("failure_streak_threshold must be positive")
    else
      var extra := (if AverageSuccessRate(a, ts) < minSuccessRate then 1 else 0)
                   + (if MaxConsecutiveFailures(ts) >= failureStreakThreshold then 1 else 0);
      var cover := Min(base.coverCount + extra, base.coverCount + maxExtraCover);
      var redundancy := Min(base.providerRedundancy + extra, base.providerRedundancy + maxExtraRedundancy);
      var tuned := base.(coverCount := cover, providerRedundancy := redundancy);
      if ValidPolicy(tuned) then Ok(tuned) else Err("cover_count and provider_redundancy must be non-negative")
  }

  lemma {:induction false} LongStreakMeans(ts: seq<Telemetry>, threshold: int)
    requires threshold > 0
    ensures MaxConsecutiveFailures(ts) >= threshold <==> exists t <- ts :: t.consecutiveFailures >= threshold
  {
    if ts != [] {
      var before, last := ts[..|ts| - 1], ts[|ts| - 1];
      LongStreakMeans(before, threshold);
      assert ts == before + [last];
    }
  }

  /** The average success rate of some providers is below the minimum. Without providers it is 1, and a
      provider without attempts has rate 1. */
  ghost predicate LowRate(a: Arithmetic, ts: seq<Telemetry>, minRate: real) {
    if ts == [] then 1.0 < minRate
    else
      exists rates: seq<real> ::
        && |rates| == |ts|
        && (forall i :: 0 <= i < |ts| ==>
              rates[i] == if ts[i].attempts == 0 then 1.0
                          else a.round(ts[i].successes as real / ts[i].attempts as real))
        && a.round(a.total(rates) / |ts| as real) < minRate
  }

  lemma LowRateMeans(a: Arithmetic, ts: seq<Telemetry>, minRate: real)
    ensures AverageSuccessRate(a, ts) < minRate <==> LowRate(a, ts, minRate)
  {
    if ts != [] {
      var rates := seq(|ts|, i requires 0 <= i < |ts| => SuccessRate(a, ts[i]));
      forall other: seq<real> |
        && |other| == |ts|
        && (forall i :: 0 <= i < |ts| ==>
              other[i] == if ts[i].attempts == 0 then 1.0
                          else a.round(ts[i].successes as real / ts[i].attempts as real))
        ensures other == rates
      {
      }
    }
  }

  /** One more bucket and provider for a low success rate, and one more for a long streak of failures. */
  ghost function Extra(a: Arithmetic, ts: seq<Telemetry>, minRate: real, threshold: int): int {
    (if LowRate(a, ts, minRate) then 1 else 0)
    + (if exists t <- ts :: t.consecutiveFailures >= threshold then 1 else 0)
  }

  /** By how much tuning widens. */
  lemma TuningAdds(a: Arithmetic, base: Policy, ts: seq<Telemetry>, minRate: real, threshold: int, cap1: int, cap2: int)
    requires TunePolicy(a, base, ts, minRate, threshold, cap1, cap2).Ok?
    ensures var tuned, extra := TunePolicy(a, base, ts, minRate, threshold, cap1, cap2).value,
                                Extra(a, ts, minRate, threshold);
            tuned == base.(coverCount := base.coverCount + Min(extra, cap1),
                           providerRedundancy := base.providerRedundancy + Min(extra, cap2))
  {
    hide AverageSuccessRate, MaxConsecutiveFailures, LowRate;
    LowRateMeans(a, ts, minRate);
    LongStreakMeans(ts, threshold);
  }

  /** What tuning does with any caps: a valid policy that differs by at most two buckets and providers, and
      that is wider exactly when neither cap is negative. It raises on bad arguments, and when a negative cap
      leaves less than nothing. */
  lemma TuningWidens(a: Arithmetic, base: Policy, ts: seq<Telemetry>, minRate: real, threshold: int,
                     cap1: int, cap2: int)
    requires ValidPolicy(base)
    ensures var r := TunePolicy(a, base, ts, minRate, threshold, cap1, cap2);
            && (r.Err? <==> || !(0.0 < minRate <= 1.0) || threshold <= 0
                            || base.coverCount + cap1 < 0 || base.providerRedundancy + cap2 < 0)
            && (r.Ok? ==>
                  && ValidPolicy(r.value)
                  && (Widens(base, r.value) <==> cap1 >= 0 && cap2 >= 0)
                  && r.value.coverCount <= base.coverCount + Min(2, cap1)
                  && r.value.providerRedundancy <= base.providerRedundancy + Min(2, cap2))
  {
  }
}
