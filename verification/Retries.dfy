/** The retry loop of a fetch: plan, fetch, evaluate, record, widen. */
module Retries {
  import opened Basics
  import opened Packets
  import opened Quorum
  import opened Fetching
  import opened Reliability

  datatype Response = Response(packets: seq<StemWitnessPacket>, providerIds: seq<Bytes>)

  /** What a packet of a rejected response says about the provider that sent it. */
  ghost function PacketReport(H: Hasher, policy: Policy, root: Bytes, currentEpoch: int, packet: StemWitnessPacket,
                        provider: Bytes): Report
  {
    if packet.blockRoot != root then Report(provider, false, "root mismatch")
    else if !InWindow(policy, currentEpoch, packet) then Report(provider, false, "stale response")
    else if VerifyWitnessPacket(H, packet) != Ok(true) then Report(provider, false, "proof verification failed")
    else Report(provider, true, "ok")
  }

  ghost function PacketReports(H: Hasher, policy: Policy, root: Bytes, currentEpoch: int, response: Response, n: nat)
    : seq<Report>
    requires n <= |response.packets| && n <= |response.providerIds|
  {
    seq(n, i requires 0 <= i < n =>
      PacketReport(H, policy, root, currentEpoch, response.packets[i], response.providerIds[i]))
  }

  /** What a packet's report says: accepted for a packet of the trusted root, within the window, that
      verifies; else a failure, stale for a packet outside the window, of its proof for one that does not
      verify, and of another kind for a foreign root. */
  lemma PacketReportMeans(H: Hasher, policy: Policy, root: Bytes, currentEpoch: int, packet: StemWitnessPacket,
                          provider: Bytes)
    ensures var report := PacketReport(H, policy, root, currentEpoch, packet, provider);
            && report.provider == provider
            && (report.accepted <==> CountsFor(H, root, policy, currentEpoch, packet, packet.key, packet.value)
                                     && policy.maxEpochLag >= 0 && policy.maxFutureEpochSkew >= 0)
            && (OtherFailure(report) <==> packet.blockRoot != root)
            && (StaleFailure(report) <==> packet.blockRoot == root && !InWindow(policy, currentEpoch, packet))
            && (ProofFailure(report) <==> && packet.blockRoot == root && InWindow(policy, currentEpoch, packet)
                                          && VerifyWitnessPacket(H, packet) != Ok(true))
  {
    hide VerifyWitnessPacket, HasText;
    ReasonsMean();
  }

  lemma ReasonsMean()
    ensures HasText("proof verification failed", "proof") && HasText("stale response", "stale")
    ensures !HasText("root mismatch", "proof") && !HasText("stale response", "proof")
    ensures !HasText("root mismatch", "fresh") && !HasText("root mismatch", "stale")
    ensures !HasText("missing response", "proof") && !HasText("missing response", "fresh")
    ensures !HasText("missing response", "stale")
  {
    assert TextAt("proof verification failed", "proof", 0) && TextAt("stale response", "stale", 0);
    NoTextBy("root mismatch", "proof", 1);
    NoTextBy("stale response", "proof", 1);
    NoTextBy("root mismatch", "fresh", 0);
    NoTextBy("root mismatch", "stale", 1);
    NoTextBy("missing response", "proof", 1);
    NoTextBy("missing response", "fresh", 0);
    NoTextBy("missing response", "stale", 1);
  }

  /** No text where the first letter is never followed by the right one. */
  lemma NoTextBy(s: string, sub: string, k: nat)
    requires k < |sub|
    requires forall i :: 0 <= i && i + k < |s| ==> s[i] != sub[0] || s[i + k] != sub[k]
    ensures !HasText(s, sub)
  {
    forall i ensures !TextAt(s, sub, i) {
      TextLetters(s, sub, i, k);
    }
  }

  lemma TextLetters(s: string, sub: string, i: int, k: nat)
    requires k < |sub|
    ensures TextAt(s, sub, i) ==> i + k < |s| && s[i] == sub[0] && s[i + k] == sub[k]
  {
    if TextAt(s, sub, i) {
      assert s[i..i + |sub|][0] == s[i] && s[i..i + |sub|][k] == s[i + k];
    }
  }

  /** A failure for each planned provider that did not respond. */
  function MissingReports(planned: seq<Bytes>, responding: seq<Bytes>): seq<Report> {
    if planned == [] then []
    else
      var last := planned[|planned| - 1];
      MissingReports(planned[..|planned| - 1], responding)
      + (if last in responding then [] else [Report(last, false, "missing response")])
  }

  ghost function ResponseReports(H: Hasher, policy: Policy, root: Bytes, currentEpoch: int, plan: Plan,
                                 response: Response): seq<Report>
  {
    PacketReports(H, policy, root, currentEpoch, response, Min(|response.packets|, |response.providerIds|))
    + MissingReports(plan.providerIds, response.providerIds)
  }

  /** Packet `k` is fresh and makes its verification raise. */
  ghost predicate RaisesAt(root: Bytes, policy: Policy, currentEpoch: int, response: Response, k: nat)
    requires k < |response.packets| && k < |response.providerIds|
  {
    InWindow(policy, currentEpoch, response.packets[k]) && Raises(root, response.packets[k])
  }

  ghost predicate FirstRaises(root: Bytes, policy: Policy, currentEpoch: int, response: Response, k: nat) {
    && k < |response.packets| && k < |response.providerIds|
    && RaisesAt(root, policy, currentEpoch, response, k)
    && forall j :: 0 <= j < k ==> !RaisesAt(root, policy, currentEpoch, response, j)
  }

  lemma {:induction false} RecordedAppend(stats: Stats, a: seq<Report>, b: seq<Report>)
    ensures Recorded(stats, a + b) == Recorded(Recorded(stats, a), b)
  {
    if b == [] {
      assert a + b == a;
    } else {
      RecordedAppend(stats, a, b[..|b| - 1]);
      assert (a + b)[..|a + b| - 1] == a + b[..|b| - 1];
    }
  }

  /** The telemetry of one rejected response: each packet for its provider, and a failure for every
      planned provider that did not respond. */
  method RecordResponse(H: Hasher, tracker: ProviderReliabilityTracker, policy: Policy, plan: Plan,
                        response: Response, root: Bytes, currentEpoch: int) returns (r: Result<()>)
    modifies tracker
    ensures r.Ok? ==>
              && var reports := ResponseReports(H, policy, root, currentEpoch, plan, response);
                 tracker.stats == Recorded(old(tracker.stats), reports)
    ensures r.Err? <==> SomeRaises(root, policy, currentEpoch, response.packets, response.providerIds)
    ensures r.Err? ==>
              exists k ::
                && FirstRaises(root, policy, currentEpoch, response, k)
                && var reports := PacketReports(H, policy, root, currentEpoch, response, k);
                   tracker.stats == Recorded(old(tracker.stats), reports)
  {
    hide VerifyWitnessPacket, InWindow, Fresh, Recorded;
    ghost var start := tracker.stats;
    var n := Min(|response.packets|, |response.providerIds|);
    RecordedNothing(start);
    assert PacketReports(H, policy, root, currentEpoch, response, 0) == [];
    for i := 0 to n
      invariant tracker.stats == Recorded(start, PacketReports(H, policy, root, currentEpoch, response, i))
      invariant forall j :: 0 <= j < i ==> !RaisesAt(root, policy, currentEpoch, response, j)
    {
      var packet, provider := response.packets[i], response.providerIds[i];
      ghost var reports := PacketReports(H, policy, root, currentEpoch, response, i);
      ghost var next := PacketReport(H, policy, root, currentEpoch, packet, provider);
      assert PacketReports(H, policy, root, currentEpoch, response, i + 1) == reports + [next];
      RecordedAppend(start, reports, [next]);
      if packet.blockRoot != root {
        tracker.RecordResult(provider, false, "root mismatch");
        continue;
      }
      FreshMeans(policy, currentEpoch, packet);
      if !Fresh(packet, currentEpoch, policy.maxEpochLag, policy.maxFutureEpochSkew) {
        tracker.RecordResult(provider, false, "stale response");
        continue;
      }
      WhenItRaises(H, packet);
      assert |packet.key| < 2 ==> FirstRaises(root, policy, currentEpoch, response, i);
      var ok :- VerifyWitnessPacket(H, packet);
      if !ok {
        tracker.RecordResult(provider, false, "proof verification failed");
        continue;
      }
      tracker.RecordResult(provider, true, "ok");
    }
    forall j: nat | j < n
      ensures !(InWindow(policy, currentEpoch, response.packets[j]) && Raises(root, response.packets[j]))
    {
      assert !RaisesAt(root, policy, currentEpoch, response, j);
    }
    ghost var received := PacketReports(H, policy, root, currentEpoch, response, n);
    assert received + [] == received;
    for i := 0 to |plan.providerIds|
      invariant tracker.stats
             == Recorded(start, received + MissingReports(plan.providerIds[..i], response.providerIds))
    {
      var provider := plan.providerIds[i];
      ghost var missing := MissingReports(plan.providerIds[..i], response.providerIds);
      assert plan.providerIds[..i + 1][..i] == plan.providerIds[..i];
      if provider !in response.providerIds {
        ghost var next := Report(provider, false, "missing response");
        assert received + (missing + [next]) == (received + missing) + [next];
        RecordedAppend(start, received + missing, [next]);
        tracker.RecordResult(provider, false, "missing response");
      } else {
        assert missing + [] == missing;
      }
    }
    assert plan.providerIds[..|plan.providerIds|] == plan.providerIds;
    r := Ok(());
  }

  lemma RecordedNothing(stats: Stats)
    ensures Recorded(stats, []) == stats
  {
  }

  /** Only the quorum size and the freshness bounds of a policy decide about a response. */
  lemma WideningKeepsQuorum(H: Hasher, root: Bytes, base: Policy, policy: Policy, currentEpoch: int, response: Response)
    requires Widens(base, policy)
    ensures FreshQuorum(H, root, base, currentEpoch, response.packets, response.providerIds)
       <==> FreshQuorum(H, root, policy, currentEpoch, response.packets, response.providerIds)
  {
    hide Usable;
    forall f: Fingerprint
      ensures FreshSupporters(H, root, base, currentEpoch, response.packets, response.providerIds, f)
           == FreshSupporters(H, root, policy, currentEpoch, response.packets, response.providerIds, f)
    {
    }
  }

  /** The arguments of one fetch that stay the same through its attempts. The network may answer each
      attempt and plan as it likes. */
  datatype Session = Session(
    base: Policy,
    request: Request,
    root: Bytes,
    currentEpoch: int,
    fetch: (nat, Plan) -> Response,
    adaptiveTuning: bool,
    arithmetic: Arithmetic,
    minSuccessRate: real,
    failureStreakThreshold: int)

  /** One attempt: its policy, its plan, and the telemetry before it. */
  datatype Step = Step(policy: Policy, plan: Plan, stats: Stats)

  /** The response to attempt `n` has a quorum by the measure of the base policy. */
  ghost predicate Quorate(H: Hasher, s: Session, plan: Plan, n: nat) {
    var response := s.fetch(n, plan);
    FreshQuorum(H, s.root, s.base, s.currentEpoch, response.packets, response.providerIds)
  }

  /** The telemetry after attempt `n` was rejected. */
  ghost function StatsAfter(H: Hasher, s: Session, step: Step, n: nat): Stats {
    Recorded(step.stats,
             ResponseReports(H, step.policy, s.root, s.currentEpoch, step.plan, s.fetch(n, step.plan)))
  }

  function TelemetryIn(stats: Stats, providers: seq<Bytes>): (ts: seq<Telemetry>)
    ensures |ts| == |providers|
    ensures forall i :: 0 <= i < |ts| ==>
              ts[i] == if providers[i] in stats then stats[providers[i]] else Telemetry(0, 0, 0, 0, 0, 0)
  {
    seq(|providers|, i requires 0 <= i < |providers| => Known(stats, providers[i]))
  }

  /** The policy of the attempt after a rejected one. */
  function NextPolicy(s: Session, policy: Policy, plan: Plan, stats: Stats): Result<Policy> {
    if s.adaptiveTuning then
      TunePolicy(s.arithmetic, policy, TelemetryIn(stats, plan.providerIds), s.minSuccessRate,
                 s.failureStreakThreshold, 8, 8)
    else Ok(policy.(coverCount := policy.coverCount + 1, providerRedundancy := policy.providerRedundancy + 1))
  }

  /** The attempts of a run: the first plans with the base policy, each later one because the response
      to the one before had no quorum, with the policy that the telemetry recorded so far leads to. */
  ghost predicate Follows(H: Hasher, s: Session, start: Stats, steps: seq<Step>) {
    && (steps != [] ==> steps[0].policy == s.base && steps[0].stats == start)
    && (forall i :: 0 <= i < |steps| ==> PlanFollows(H, steps[i].policy, s.request, steps[i].plan))
    && (forall i :: 0 < i < |steps| ==> Succeeds(H, s, steps[i - 1], steps[i], i))
  }

  ghost predicate Succeeds(H: Hasher, s: Session, before: Step, step: Step, n: nat) {
    && !Quorate(H, s, before.plan, n)
    && step.stats == StatsAfter(H, s, before, n)
    && NextPolicy(s, before.policy, before.plan, step.stats) == Ok(step.policy)
  }

  /** How the next attempt widens: by one where tuning is off, else by what the telemetry of the planned
      providers calls for. */
  lemma NextPolicyAdds(s: Session, policy: Policy, plan: Plan, stats: Stats)
    requires NextPolicy(s, policy, plan, stats).Ok?
    ensures var extra := if s.adaptiveTuning then
                           Extra(s.arithmetic, TelemetryIn(stats, plan.providerIds), s.minSuccessRate,
                                 s.failureStreakThreshold)
                         else 1;
            NextPolicy(s, policy, plan, stats).value
            == policy.(coverCount := policy.coverCount + extra, providerRedundancy := policy.providerRedundancy + extra)
  {
    hide TunePolicy, LowRate, TelemetryIn;
    if s.adaptiveTuning {
      TuningAdds(s.arithmetic, policy, TelemetryIn(stats, plan.providerIds), s.minSuccessRate,
                 s.failureStreakThreshold, 8, 8);
    }
  }

  lemma NextPolicyWidens(s: Session, policy: Policy, plan: Plan, stats: Stats)
    requires ValidPolicy(policy) && NextPolicy(s, policy, plan, stats).Ok?
    ensures ValidPolicy(NextPolicy(s, policy, plan, stats).value)
    ensures Widens(policy, NextPolicy(s, policy, plan, stats).value)
  {
    if s.adaptiveTuning {
      TuningWidens(s.arithmetic, policy, TelemetryIn(stats, plan.providerIds), s.minSuccessRate,
                   s.failureStreakThreshold, 8, 8);
    }
  }

  lemma NoPlanFails(H: Hasher, s: Session, policy: Policy, n: nat, stats: Stats)
    requires ValidPolicy(policy)
    ensures NoPlan(H, policy, s.request) ==> AttemptFails(H, s, policy, n, stats, stats)
  {
  }

  lemma NextPolicyFails(s: Session, policy: Policy, plan: Plan, stats: Stats)
    requires ValidPolicy(policy)
    ensures NextPolicy(s, policy, plan, stats).Err? <==> UnusableTuning(s)
  {
  }

  lemma {:induction false} PoliciesWiden(H: Hasher, s: Session, start: Stats, steps: seq<Step>, i: nat, j: nat)
    requires ValidPolicy(s.base) && Follows(H, s, start, steps) && i <= j < |steps|
    ensures ValidPolicy(steps[j].policy) && Widens(steps[i].policy, steps[j].policy)
    ensures steps[j].policy.requiredProviderMatches == s.base.requiredProviderMatches
    decreases j
  {
    hide PlanFollows, NextPolicy, Quorate;
    if j > 0 {
      assert Succeeds(H, s, steps[j - 1], steps[j], j);
      PoliciesWiden(H, s, start, steps, if i < j then i else i - 1, j - 1);
      NextPolicyWidens(s, steps[j - 1].policy, steps[j - 1].plan, steps[j].stats);
    }
  }

  /** Each attempt asks every provider and for every bucket that the attempts before asked, and perhaps
      more; the quorum of the base policy is never lowered. */
  lemma RetriesOnlyWiden(H: Hasher, s: Session, start: Stats, steps: seq<Step>)
    requires ValidPolicy(s.base) && Follows(H, s, start, steps)
    ensures forall i, j :: 0 <= i <= j < |steps| ==> Within(steps[i].plan, steps[j].plan)
    ensures forall i :: 0 <= i < |steps| ==>
              steps[i].policy.requiredProviderMatches == s.base.requiredProviderMatches
  {
    hide PlanFollows, Within;
    forall i, j | 0 <= i <= j < |steps|
      ensures Within(steps[i].plan, steps[j].plan)
      ensures steps[j].policy.requiredProviderMatches == s.base.requiredProviderMatches
    {
      PoliciesWiden(H, s, start, steps, i, j);
      WiderPolicyWiderPlan(H, steps[i].policy, steps[j].policy, s.request, steps[i].plan, steps[j].plan);
    }
  }

  /** Attempt `n` with this policy cannot be planned, or its response makes the verification raise;
      and what that leaves in the telemetry. While a response is evaluated nothing is recorded; only a
      response with too few fresh packets gets to be recorded up to the packet that raises. */
  ghost predicate AttemptFails(H: Hasher, s: Session, policy: Policy, n: nat, before: Stats, after: Stats)
    requires ValidPolicy(policy)
  {
    || (NoPlan(H, policy, s.request) && after == before)
    || exists plan :: PlanFollows(H, policy, s.request, plan)
                      && ResponseRaises(H, s, policy, s.fetch(n, plan), before, after)
  }

  ghost predicate ResponseRaises(H: Hasher, s: Session, policy: Policy, response: Response, before: Stats, after: Stats)
  {
    && SomeRaises(s.root, policy, s.currentEpoch, response.packets, response.providerIds)
    && if TooFewFresh(policy, s.currentEpoch, response.packets, response.providerIds) then
         exists k :: FirstRaises(s.root, policy, s.currentEpoch, response, k)
                     && after == Recorded(before, PacketReports(H, policy, s.root, s.currentEpoch, response, k))
       else after == before
  }

  /** The arguments of the tuning that it rejects. */
  predicate UnusableTuning(s: Session) {
    s.adaptiveTuning && (!(0.0 < s.minSuccessRate <= 1.0) || s.failureStreakThreshold <= 0)
  }

  datatype Outcome = Outcome(accepted: bool, plan: Plan, attempts: nat)

  /** Why and in which state a run raises after these attempts. */
  ghost predicate RunFails(H: Hasher, s: Session, start: Stats, maxAttempts: int, steps: seq<Step>, after: Stats) {
    if maxAttempts <= 0 then steps == [] && after == start
    else if steps == [] then ValidPolicy(s.base) && AttemptFails(H, s, s.base, 1, start, after)
    else
      var last, n := steps[|steps| - 1], |steps|;
      var before := StatsAfter(H, s, last, n);
      var next := NextPolicy(s, last.policy, last.plan, before);
      && !Quorate(H, s, last.plan, n)
      && if next.Err? then UnusableTuning(s) && after == before
         else ValidPolicy(next.value) && AttemptFails(H, s, next.value, n + 1, before, after)
  }

  /** One pass of the loop: plan, fetch, evaluate, and on rejection record what happened. */
  method Attempt(H: Hasher, s: Session, policy: Policy, n: nat, tracker: ProviderReliabilityTracker)
    returns (r: Result<(bool, Plan)>)
    requires ValidPolicy(policy) && Widens(s.base, policy)
    modifies tracker
    ensures r.Ok? ==>
              && PlanFollows(H, policy, s.request, r.value.1)
              && (r.value.0 <==> Quorate(H, s, r.value.1, n))
              && tracker.stats == if r.value.0 then old(tracker.stats)
                                  else StatsAfter(H, s, Step(policy, r.value.1, old(tracker.stats)), n)
    ensures r.Err? ==> AttemptFails(H, s, policy, n, old(tracker.stats), tracker.stats)
  {
    hide PlanFollows, FreshQuorum, Widens, Recorded, ResponseReports, NoPlan, SomeRaises, TooFewFresh, FirstRaises;
    var plan :- PlanFetch(H, policy, s.request);
    var response := s.fetch(n, plan);
    var accepted :- EvaluateResponse(H, policy, response.packets, response.providerIds, s.root, s.currentEpoch);
    WideningKeepsQuorum(H, s.root, s.base, policy, s.currentEpoch, response);
    if !accepted {
      var _ :- RecordResponse(H, tracker, policy, plan, response, s.root, s.currentEpoch);
    }
    r := Ok((accepted, plan));
  }

  /** `simulate_epoch_fetch_with_fallback`: the run ends with the first response that has a quorum, or
      rejects after the last attempt; the tracker ends with every rejected response recorded. */
  method SimulateEpochFetch(H: Hasher, s: Session, maxAttempts: int, tracker: ProviderReliabilityTracker)
    returns (r: Result<Outcome>, ghost steps: seq<Step>)
    requires ValidPolicy(s.base)
    modifies tracker
    ensures maxAttempts <= 0 ==> r.Err?
    ensures r.Err? ==> RunFails(H, s, old(tracker.stats), maxAttempts, steps, tracker.stats)
    ensures Follows(H, s, old(tracker.stats), steps)
    ensures r.Ok? ==>
              && 1 <= r.value.attempts == |steps| <= maxAttempts
              && var last := steps[|steps| - 1];
                 && r.value.plan == last.plan
                 && (r.value.accepted <==> Quorate(H, s, last.plan, |steps|))
                 && (!r.value.accepted ==> |steps| == maxAttempts)
                 && tracker.stats == if r.value.accepted then last.stats else StatsAfter(H, s, last, |steps|)
  {
    hide PlanFollows, Quorate, Widens, ValidPolicy, NextPolicy, StatsAfter, NoPlan, ResponseRaises, AttemptFails;
    steps := [];
    if maxAttempts <= 0 {
      return Err("max_attempts must be positive"), steps;
    }
    WidensItself(s.base);
    var policy := s.base;
    NoPlanFails(H, s, policy, 1, tracker.stats);
    var lastPlan :- PlanFetch(H, policy, s.request);
    ghost var start := tracker.stats;
    for attempt := 1 to maxAttempts + 1
      invariant |steps| == attempt - 1 && Follows(H, s, start, steps)
      invariant ValidPolicy(policy) && Widens(s.base, policy)
      invariant steps == [] ==> policy == s.base && tracker.stats == start
      invariant steps != [] ==> Succeeds(H, s, steps[|steps| - 1], Step(policy, lastPlan, tracker.stats), |steps|)
      invariant steps != [] ==> lastPlan == steps[|steps| - 1].plan && attempt <= maxAttempts
    {
      ghost var stats := tracker.stats;
      var tried := Attempt(H, s, policy, attempt, tracker);
      if tried.Err? {
        return Err(tried.reason), steps;
      }
      var accepted;
      accepted, lastPlan := tried.value.0, tried.value.1;
      steps := steps + [Step(policy, lastPlan, stats)];
      if accepted {
        return Ok(Outcome(true, lastPlan, attempt)), steps;
      }
      if attempt == maxAttempts {
        break;
      }
      var next := NextPolicy(s, policy, lastPlan, tracker.stats);
      if next.Err? {
        NextPolicyFails(s, policy, lastPlan, tracker.stats);
        return Err(next.reason), steps;
      }
      NextPolicyWidens(s, policy, lastPlan, tracker.stats);
      WideningChains(s.base, policy, next.value);
      policy := next.value;
    }
    r := Ok(Outcome(false, lastPlan, maxAttempts));
  }

  lemma WidensItself(base: Policy)
    ensures Widens(base, base)
  {
  }

  lemma WideningChains(base: Policy, before: Policy, policy: Policy)
    requires Widens(base, before) && Widens(before, policy)
    ensures Widens(base, policy)
  {
  }
}
