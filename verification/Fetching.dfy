/** Fetch plans: target and cover buckets, and the choice of providers. */
module Fetching {
  import opened Basics
  import opened BigEndian
  import opened StemTree
  import opened Order
  import opened Quorum

  /** An epoch that fits its eight bytes. */
  predicate IsEpoch(epoch: int) {
    0 <= epoch < Pow256(8)
  }

  type Epoch = e: nat | e < Pow256(8)

  const BUCKET_TAG: Bytes := Ascii("pbt-bucket-v1")
  const COVER_TAG: Bytes := Ascii("pbt-cover-v1")
  const PROVIDER_TAG: Bytes := Ascii("pbt-provider-select-v1")

  // ---------- cover buckets ----------

  function BucketForStem(H: Hasher, stem: Bytes, epoch: Epoch, bucketCount: nat, salt: Bytes): (bucket: nat)
    requires bucketCount > 0
    ensures bucket < bucketCount
  {
    FromBytes(H(BUCKET_TAG + salt + ToBytes(epoch, 8) + stem)[..8]) % bucketCount
  }

  /** `b` is the first eight bytes of the stem's digest, most significant first, modulo the bucket count.
      What is hashed is the tag, the salt, the epoch in eight bytes, and the stem. */
  ghost predicate IsBucketOf(H: Hasher, b: nat, stem: Bytes, epoch: int, bucketCount: int, salt: Bytes) {
    && bucketCount > 0
    && exists e: Bytes ::
         && |e| == 8 && Eight(e) == epoch
         && b == Eight(H(Ascii("pbt-bucket-v1") + salt + e + stem)[..8]) % bucketCount
  }

  lemma BucketForStemMeans(H: Hasher, b: nat, stem: Bytes, epoch: Epoch, bucketCount: nat, salt: Bytes)
    requires bucketCount > 0
    ensures b == BucketForStem(H, stem, epoch, bucketCount, salt) <==> IsBucketOf(H, b, stem, epoch, bucketCount, salt)
  {
    var raw := ToBytes(epoch, 8);
    EightBytes(epoch);
    EightMeans(H(BUCKET_TAG + salt + raw + stem)[..8]);
    forall e: Bytes | |e| == 8 && Eight(e) == epoch ensures e == raw {
      EightIsInjective(e, raw);
    }
  }

  /** Different stems are hashed as different strings. */
  lemma BucketStringsDiffer(salt: Bytes, e: Bytes, x: Bytes, y: Bytes)
    requires Ascii("pbt-bucket-v1") + salt + e + x == Ascii("pbt-bucket-v1") + salt + e + y
    ensures x == y
  {
    var front := Ascii("pbt-bucket-v1") + salt + e;
    assert (front + x)[|front|..] == x && (front + y)[|front|..] == y;
  }

  /** The bucket that a nonce adds. */
  function Candidate(H: Hasher, epoch: Epoch, seed: Bytes, bucketCount: nat, nonce: nat): (bucket: nat)
    requires bucketCount > 0 && nonce < Pow256(4)
    ensures bucket < bucketCount
  {
    FromBytes(H(COVER_TAG + seed + ToBytes(epoch, 8) + ToBytes(nonce, 4))[..8]) % bucketCount
  }

  /** The candidate of a nonce, written out: tag, seed, epoch in eight bytes, nonce in four. */
  lemma CandidateMeans(H: Hasher, epoch: Epoch, seed: Bytes, bucketCount: nat, nonce: nat, e: Bytes, k: Bytes)
    requires bucketCount > 0 && nonce < Pow256(4)
    requires |e| == 8 && Eight(e) == epoch && |k| == 4 && Four(k) == nonce
    ensures Candidate(H, epoch, seed, bucketCount, nonce)
         == Eight(H(Ascii("pbt-cover-v1") + seed + e + k)[..8]) % bucketCount
  {
    EightBytes(epoch);
    EightIsInjective(e, ToBytes(epoch, 8));
    FourMeans(k);
    ToFromBytes(k);
    EightMeans(H(COVER_TAG + seed + e + k)[..8]);
  }

  /** The targets and the buckets of the first `n` nonces. */
  function Covered(H: Hasher, targets: set<nat>, epoch: Epoch, seed: Bytes, bucketCount: nat, n: nat): set<nat>
    requires bucketCount > 0 && n <= Pow256(4)
  {
    targets + set i | 0 <= i < n :: Candidate(H, epoch, seed, bucketCount, i)
  }

  lemma CoveredStep(H: Hasher, targets: set<nat>, epoch: Epoch, seed: Bytes, bucketCount: nat, n: nat)
    requires bucketCount > 0 && n < Pow256(4)
    ensures Covered(H, targets, epoch, seed, bucketCount, 0) == targets
    ensures Covered(H, targets, epoch, seed, bucketCount, n + 1)
         == Covered(H, targets, epoch, seed, bucketCount, n) + {Candidate(H, epoch, seed, bucketCount, n)}
  {
  }

  function Min(a: int, b: int): int {
    if a < b then a else b
  }

  lemma {:induction false} BucketsFit(s: set<nat>, n: nat)
    requires forall b <- s :: b < n
    ensures |s| <= n
  {
    if n > 0 {
      BucketsFit(s - {n - 1}, n - 1);
      assert s <= s - {n - 1} + {n - 1};
      CardinalityOfSubset(s, s - {n - 1} + {n - 1});
    } else {
      assert s == {};
    }
  }

  /** Cover sets built from one nonce sequence are nested: the smaller one is inside the larger. */
  lemma CoverSetsNest(H: Hasher, targets: set<nat>, epoch: Epoch, seed: Bytes, bucketCount: nat, m: nat, n: nat)
    requires bucketCount > 0 && m <= Pow256(4) && n <= Pow256(4)
    requires |Covered(H, targets, epoch, seed, bucketCount, m)| <= |Covered(H, targets, epoch, seed, bucketCount, n)|
    ensures Covered(H, targets, epoch, seed, bucketCount, m) <= Covered(H, targets, epoch, seed, bucketCount, n)
  {
    var a, b := Covered(H, targets, epoch, seed, bucketCount, m), Covered(H, targets, epoch, seed, bucketCount, n);
    if m > n {
      assert b <= a;
      assert a == b + (a - b);
      assert |a| == |b| + |a - b|;
      assert a - b == {};
    }
  }

  ghost predicate IncreasingNats(s: seq<nat>) {
    forall i, j :: 0 <= i < j < |s| ==> s[i] < s[j]
  }

  /** `sorted(selected)` of a set of buckets */
  method SortBuckets(selected: set<nat>, bucketCount: nat) returns (sorted: seq<nat>)
    requires forall b <- selected :: b < bucketCount
    ensures IncreasingNats(sorted) && forall b: nat :: b in sorted <==> b in selected
  {
    sorted := [];
    for b := 0 to bucketCount
      invariant IncreasingNats(sorted) && forall i :: 0 <= i < |sorted| ==> sorted[i] < b
      invariant forall c: nat :: c in sorted <==> c in selected && c < b
    {
      if b in selected {
        sorted := sorted + [b];
      }
    }
  }

  function Members(s: seq<nat>): set<nat> {
    set b <- s
  }

  /** `build_cover_bucket_set`: exactly `min(bucket_count, targets + cover)` buckets, all the targets
      among them, filled up in the order of the nonces. The epoch only matters when covers are asked for.
      It raises when the epoch does not fit then, or when all 2^32 nonces do not suffice. */
  method BuildCoverBucketSet(H: Hasher, targets: set<nat>, coverCount: int, epoch: int, seed: Bytes, bucketCount: int)
    returns (r: Result<seq<nat>>)
    ensures r.Ok? ==>
              && coverCount >= 0 && bucketCount > 0
              && IncreasingNats(r.value) && targets <= Members(r.value)
              && (forall b <- r.value :: b < bucketCount)
              && |Members(r.value)| == Min(bucketCount, |targets| + coverCount)
    ensures r.Ok? && coverCount == 0 ==> Members(r.value) == targets
    ensures r.Ok? && IsEpoch(epoch) ==>
              exists n :: 0 <= n <= Pow256(4) &&
                Members(r.value) == Covered(H, targets, epoch, seed, bucketCount, n)
    ensures r.Err? && coverCount >= 0 && bucketCount > 0 && (forall b <- targets :: b < bucketCount) ==>
              && coverCount > 0
              && (IsEpoch(epoch) ==>
                    |Covered(H, targets, epoch, seed, bucketCount, Pow256(4))|
                    < Min(bucketCount, |targets| + coverCount))
  {
    if coverCount < 0 {
      return Err("cover_count must be non-negative");
    }
    if bucketCount <= 0 {
      return Err("bucket_count must be positive");
    }
    if exists bucket <- targets :: bucket >= bucketCount {
      return Err("target bucket out of range");
    }
    hide Covered;
    var selected := targets;
    BucketsFit(targets, bucketCount);
    if coverCount > 0 {
      if !IsEpoch(epoch) {
        return Err("int too big to convert");
      }
      var covers, n := AddCovers(H, targets, coverCount, epoch, seed, bucketCount);
      if covers.Err? {
        return Err(covers.reason);
      }
      CoveredFits(H, targets, epoch, seed, bucketCount, n);
      selected := covers.value;
    } else if IsEpoch(epoch) {
      CoveredStep(H, targets, epoch, seed, bucketCount, 0);
    }
    var sorted := SortBuckets(selected, bucketCount);
    assert Members(sorted) == selected;
    r := Ok(sorted);
  }

  lemma CoveredFits(H: Hasher, targets: set<nat>, epoch: Epoch, seed: Bytes, bucketCount: nat, n: nat)
    requires bucketCount > 0 && n <= Pow256(4) && forall b <- targets :: b < bucketCount
    ensures targets <= Covered(H, targets, epoch, seed, bucketCount, n)
    ensures forall b <- Covered(H, targets, epoch, seed, bucketCount, n) :: b < bucketCount
  {
  }

  /** The loop of `build_cover_bucket_set`; `n` counts the nonces it took. */
  method AddCovers(H: Hasher, targets: set<nat>, coverCount: nat, epoch: Epoch, seed: Bytes, bucketCount: nat)
    returns (r: Result<set<nat>>, ghost n: nat)
    requires bucketCount > 0 && forall b <- targets :: b < bucketCount
    ensures n <= Pow256(4)
    ensures r.Ok? ==>
              && r.value == Covered(H, targets, epoch, seed, bucketCount, n)
              && |r.value| == Min(bucketCount, |targets| + coverCount)
    ensures r.Err? ==>
              |Covered(H, targets, epoch, seed, bucketCount, Pow256(4))| < Min(bucketCount, |targets| + coverCount)
  {
    hide Candidate, Covered;
    var selected := targets;
    var nonce := 0;
    BucketsFit(selected, bucketCount);
    CoveredStep(H, targets, epoch, seed, bucketCount, 0);
    while |selected| < |targets| + coverCount
      invariant 0 <= nonce <= Pow256(4)
      invariant selected == Covered(H, targets, epoch, seed, bucketCount, nonce)
      invariant |selected| <= |targets| + coverCount && |selected| <= bucketCount
      invariant forall b <- selected :: b < bucketCount
      invariant nonce > 0 ==> |selected| < bucketCount
      decreases Pow256(4) - nonce
    {
      if nonce == Pow256(4) {
        return Err("int too big to convert"), nonce;
      }
      CoveredStep(H, targets, epoch, seed, bucketCount, nonce);
      var candidate := Candidate(H, epoch, seed, bucketCount, nonce);
      selected := selected + {candidate};
      nonce := nonce + 1;
      BucketsFit(selected, bucketCount);
      if |selected| == bucketCount {
        break;
      }
    }
    return Ok(selected), nonce;
  }

  // ---------- providers ----------

  function Score(H: Hasher, epoch: Epoch, seed: Bytes, provider: Bytes): Word {
    H(PROVIDER_TAG + seed + ToBytes(epoch, 8) + provider)
  }

  /** The score of a provider, written out: tag, seed, epoch in eight bytes, provider. */
  lemma ScoreMeans(H: Hasher, epoch: Epoch, seed: Bytes, provider: Bytes, e: Bytes)
    requires |e| == 8 && Eight(e) == epoch
    ensures Score(H, epoch, seed, provider) == H(Ascii("pbt-provider-select-v1") + seed + e + provider)
  {
    EightBytes(epoch);
    EightIsInjective(e, ToBytes(epoch, 8));
  }

  /** Score and provider written one behind the other: scores have one width, so this orders as the
      source's pairs do. */
  function Scored(H: Hasher, epoch: Epoch, seed: Bytes, providers: seq<Bytes>): seq<Bytes> {
    seq(|providers|, i requires 0 <= i < |providers| => Score(H, epoch, seed, providers[i]) + providers[i])
  }

  function Unscored(entries: seq<Bytes>): seq<Bytes>
    requires forall i :: 0 <= i < |entries| ==> |entries[i]| >= 32
  {
    seq(|entries|, i requires 0 <= i < |entries| => entries[i][32..])
  }

  lemma ScoredEntries(H: Hasher, epoch: Epoch, seed: Bytes, providers: seq<Bytes>)
    ensures var entries := SortedSet(Scored(H, epoch, seed, providers));
            && StrictlyAscending(entries)
            && (forall i :: 0 <= i < |entries| ==>
                  && |entries[i]| >= 32 && entries[i][32..] in providers
                  && entries[i] == Score(H, epoch, seed, entries[i][32..]) + entries[i][32..])
            && (forall p <- providers :: Score(H, epoch, seed, p) + p in entries)
  {
    hide Score;
    var scored := Scored(H, epoch, seed, providers);
    SortedSetSorts(scored);
    var entries := SortedSet(scored);
    forall i | 0 <= i < |entries|
      ensures |entries[i]| >= 32 && entries[i][32..] in providers
      ensures entries[i] == Score(H, epoch, seed, entries[i][32..]) + entries[i][32..]
    {
      assert entries[i] in entries;
      var k :| 0 <= k < |scored| && scored[k] == entries[i];
      assert entries[i][32..] == providers[k];
    }
    forall p | p in providers ensures Score(H, epoch, seed, p) + p in entries {
      var k :| 0 <= k < |providers| && providers[k] == p;
      assert scored[k] in scored;
    }
  }

  /** `select_redundant_providers` */
  function SelectProviders(H: Hasher, available: seq<Bytes>, epoch: Epoch, seed: Bytes, required: int, extra: int)
    : Result<seq<Bytes>>
  {
    if required <= 0 then Err("required_count must be positive")
    else if extra < 0 then Err("extra_count must be non-negative")
    else
      var deduped := SortedSet(available);
      if |deduped| < required then Err("insufficient providers for required_count")
      else
        var entries := SortedSet(Scored(H, epoch, seed, deduped));
        ScoredEntries(H, epoch, seed, deduped);
        var take := if required + extra < |entries| then required + extra else |entries|;
        Ok(Unscored(entries[..take]))
  }

  ghost function SetOf(s: seq<Bytes>): set<Bytes> {
    set x <- s
  }

  lemma {:induction false} DistinctSize(s: seq<Bytes>)
    requires forall i, j :: 0 <= i < j < |s| ==> s[i] != s[j]
    ensures |SetOf(s)| == |s|
  {
    if s != [] {
      DistinctSize(s[1..]);
      assert s == [s[0]] + s[1..];
      assert s[0] !in s[1..];
      assert SetOf(s) == SetOf(s[1..]) + {s[0]};
    }
  }

  /** The available providers, each once, in the order of their scores. */
  function Ranked(H: Hasher, epoch: Epoch, seed: Bytes, available: seq<Bytes>): seq<Bytes> {
    ScoredEntries(H, epoch, seed, SortedSet(available));
    Unscored(SortedSet(Scored(H, epoch, seed, SortedSet(available))))
  }

  lemma RankedIsAvailable(H: Hasher, epoch: Epoch, seed: Bytes, available: seq<Bytes>)
    ensures var all := Ranked(H, epoch, seed, available);
            && (forall i, j :: 0 <= i < j < |all| ==> all[i] != all[j])
            && (forall p :: p in all <==> p in available)
            && |all| == |SetOf(available)|
  {
    hide Score;
    SortedSetSorts(available);
    ScoredEntries(H, epoch, seed, SortedSet(available));
    var entries := SortedSet(Scored(H, epoch, seed, SortedSet(available)));
    var all := Ranked(H, epoch, seed, available);
    forall i, j | 0 <= i < j < |all| ensures all[i] != all[j] {
      assert entries[i] != entries[j];
    }
    forall p ensures p in all <==> p in available {
      if p in available {
        assert Score(H, epoch, seed, p) + p in entries;
        var k :| 0 <= k < |entries| && entries[k] == Score(H, epoch, seed, p) + p;
        assert all[k] == p;
      }
    }
    DistinctSize(all);
    assert SetOf(all) == SetOf(available);
  }

  lemma SelectedFirst(H: Hasher, available: seq<Bytes>, epoch: Epoch, seed: Bytes, required: int, extra: int)
    requires SelectProviders(H, available, epoch, seed, required, extra).Ok?
    ensures var chosen := SelectProviders(H, available, epoch, seed, required, extra).value;
            var all := Ranked(H, epoch, seed, available);
            chosen <= all && |chosen| == Min(|all|, required + extra)
  {
  }

  /** The chosen providers are distinct and available, as many as asked for as long as there are that
      many, and asking for more only adds to them. */
  lemma SelectionWidens(H: Hasher, available: seq<Bytes>, epoch: Epoch, seed: Bytes, required: int, extra: int,
                        more: int)
    requires SelectProviders(H, available, epoch, seed, required, extra).Ok? && extra <= more
    ensures SelectProviders(H, available, epoch, seed, required, more).Ok?
    ensures var chosen := SelectProviders(H, available, epoch, seed, required, extra).value;
            && chosen <= SelectProviders(H, available, epoch, seed, required, more).value
            && (forall i, j :: 0 <= i < j < |chosen| ==> chosen[i] != chosen[j])
            && (forall p <- chosen :: p in available)
            && |chosen| == Min(|SetOf(available)|, required + extra)
  {
    assert SelectProviders(H, available, epoch, seed, required, more).Ok?;
    hide SelectProviders, Ranked;
    SelectedFirst(H, available, epoch, seed, required, extra);
    SelectedFirst(H, available, epoch, seed, required, more);
    RankedIsAvailable(H, epoch, seed, available);
    var chosen := SelectProviders(H, available, epoch, seed, required, extra).value;
    var all := Ranked(H, epoch, seed, available);
    assert forall i :: 0 <= i < |chosen| ==> chosen[i] == all[i];
  }

  /** The chosen providers come in the order of their digests, and before all that were not chosen; equal
      digests go by the provider. */
  ghost predicate ChosenByDigest(H: Hasher, epoch: Epoch, seed: Bytes, available: seq<Bytes>, chosen: seq<Bytes>) {
    && (forall i, j :: 0 <= i < j < |chosen| ==> ComesFirst(H, epoch, seed, chosen[i], chosen[j]))
    && (forall p <- chosen, q <- available :: q !in chosen ==> ComesFirst(H, epoch, seed, p, q))
  }

  ghost predicate ComesFirst(H: Hasher, epoch: Epoch, seed: Bytes, p: Bytes, q: Bytes) {
    exists e: Bytes ::
      && |e| == 8 && Eight(e) == epoch
      && ByteOrder(H(Ascii("pbt-provider-select-v1") + seed + e + p) + p,
                   H(Ascii("pbt-provider-select-v1") + seed + e + q) + q)
  }

  lemma SelectionByDigest(H: Hasher, available: seq<Bytes>, epoch: Epoch, seed: Bytes, required: int, extra: int)
    requires SelectProviders(H, available, epoch, seed, required, extra).Ok?
    ensures ChosenByDigest(H, epoch, seed, available, SelectProviders(H, available, epoch, seed, required, extra).value)
  {
    hide SelectProviders, Ranked, ByteOrder, Score, ComesFirst;
    SelectedFirst(H, available, epoch, seed, required, extra);
    RankedIsAvailable(H, epoch, seed, available);
    RankedByDigest(H, epoch, seed, available);
    var chosen := SelectProviders(H, available, epoch, seed, required, extra).value;
    var all := Ranked(H, epoch, seed, available);
    assert forall i :: 0 <= i < |chosen| ==> chosen[i] == all[i];
    forall p, q | p in chosen && q in available && q !in chosen
      ensures ComesFirst(H, epoch, seed, p, q)
    {
      var i :| 0 <= i < |chosen| && chosen[i] == p;
      var others := all[|chosen|..];
      assert all == chosen + others && q in all;
      var j :| 0 <= j < |others| && others[j] == q;
      assert all[|chosen| + j] == q;
    }
  }

  lemma RankedByDigest(H: Hasher, epoch: Epoch, seed: Bytes, available: seq<Bytes>)
    ensures var all := Ranked(H, epoch, seed, available);
            forall i, j :: 0 <= i < j < |all| ==> ComesFirst(H, epoch, seed, all[i], all[j])
  {
    hide ByteOrder, ComesFirst, Score;
    ScoredEntries(H, epoch, seed, SortedSet(available));
    var entries := SortedSet(Scored(H, epoch, seed, SortedSet(available)));
    AscendingMeans(entries);
    var all := Ranked(H, epoch, seed, available);
    forall i, j | 0 <= i < j < |all| ensures ComesFirst(H, epoch, seed, all[i], all[j]) {
      assert ByteOrder(entries[i], entries[j]);
      ScoresDecide(H, epoch, seed, all[i], all[j]);
    }
  }

  lemma ScoresDecide(H: Hasher, epoch: Epoch, seed: Bytes, p: Bytes, q: Bytes)
    requires ByteOrder(Score(H, epoch, seed, p) + p, Score(H, epoch, seed, q) + q)
    ensures ComesFirst(H, epoch, seed, p, q)
  {
    hide ByteOrder;
    EightBytes(epoch);
  }

  // ---------- plans ----------

  datatype Plan = Plan(epoch: int, targetBuckets: seq<nat>, fetchBuckets: seq<nat>, providerIds: seq<Bytes>)

  /** The arguments that stay the same through all attempts of a fetch. */
  datatype Request = Request(stems: seq<Bytes>, epoch: int, seed: Bytes, salt: Bytes, available: seq<Bytes>)

  function Targets(H: Hasher, request: Request, bucketCount: nat): (targets: set<nat>)
    requires bucketCount > 0 && IsEpoch(request.epoch)
    ensures forall b <- targets :: b < bucketCount
  {
    set stem <- request.stems :: BucketForStem(H, stem, request.epoch, bucketCount, request.salt)
  }

  /** The target buckets are the buckets of the requested stems. */
  lemma TargetsMean(H: Hasher, request: Request, bucketCount: nat)
    requires bucketCount > 0 && IsEpoch(request.epoch)
    ensures forall b: nat :: b in Targets(H, request, bucketCount) <==>
              exists stem <- request.stems :: IsBucketOf(H, b, stem, request.epoch, bucketCount, request.salt)
  {
    hide BucketForStem, IsBucketOf;
    forall b: nat, stem
      ensures b == BucketForStem(H, stem, request.epoch, bucketCount, request.salt)
         <==> IsBucketOf(H, b, stem, request.epoch, bucketCount, request.salt)
    {
      BucketForStemMeans(H, b, stem, request.epoch, bucketCount, request.salt);
    }
  }

  ghost predicate PlanFollows(H: Hasher, policy: Policy, request: Request, plan: Plan) {
    && ValidPolicy(policy) && IsEpoch(request.epoch)
    && var targets := Targets(H, request, policy.bucketCount);
       && plan.epoch == request.epoch
       && IncreasingNats(plan.targetBuckets) && Members(plan.targetBuckets) == targets
       && IncreasingNats(plan.fetchBuckets)
       && |Members(plan.fetchBuckets)| == Min(policy.bucketCount, |targets| + policy.coverCount)
       && (exists n :: 0 <= n <= Pow256(4) && Members(plan.fetchBuckets)
                         == Covered(H, targets, request.epoch, request.seed, policy.bucketCount, n))
       && SelectProviders(H, request.available, request.epoch, request.seed,
                          policy.requiredProviderMatches, policy.providerRedundancy) == Ok(plan.providerIds)
  }

  /** There is no plan: the epoch is out of range, or the buckets or the providers do not suffice. */
  ghost predicate NoPlan(H: Hasher, policy: Policy, request: Request)
    requires ValidPolicy(policy)
  {
    || !(IsEpoch(request.epoch))
    || SelectProviders(H, request.available, request.epoch, request.seed,
                       policy.requiredProviderMatches, policy.providerRedundancy).Err?
    || var targets := Targets(H, request, policy.bucketCount);
       |Covered(H, targets, request.epoch, request.seed, policy.bucketCount, Pow256(4))|
       < Min(policy.bucketCount, |targets| + policy.coverCount)
  }

  /** `plan_fetch` */
  method PlanFetch(H: Hasher, policy: Policy, request: Request) returns (r: Result<Plan>)
    requires ValidPolicy(policy)
    ensures r.Ok? ==> PlanFollows(H, policy, request, r.value)
    ensures r.Ok? ==>
              forall b :: b in r.value.targetBuckets <==>
                exists stem <- request.stems ::
                  IsBucketOf(H, b, stem, request.epoch, policy.bucketCount, request.salt)
    ensures r.Ok? ==>
              ChosenByDigest(H, request.epoch, request.seed, request.available, r.value.providerIds)
    ensures r.Err? ==> NoPlan(H, policy, request)
  {
    hide SelectProviders, Covered, BucketForStem, ChosenByDigest, IsBucketOf;
    if request.epoch < 0 {
      return Err("epoch must be non-negative");
    }
    if request.epoch >= Pow256(8) {
      return Err("int too big to convert");
    }
    var targets := Targets(H, request, policy.bucketCount);
    var fetchBuckets :- BuildCoverBucketSet(H, targets, policy.coverCount, request.epoch, request.seed,
                                            policy.bucketCount);
    var providers :- SelectProviders(H, request.available, request.epoch, request.seed,
                                     policy.requiredProviderMatches, policy.providerRedundancy);
    SelectionByDigest(H, request.available, request.epoch, request.seed,
                      policy.requiredProviderMatches, policy.providerRedundancy);
    var targetBuckets := SortBuckets(targets, policy.bucketCount);
    assert Members(targetBuckets) == targets;
    TargetsMean(H, request, policy.bucketCount);
    r := Ok(Plan(request.epoch, targetBuckets, fetchBuckets, providers));
  }

  /** A policy that asks for at least as much, with the same quorum and the same notion of freshness. */
  ghost predicate Widens(narrow: Policy, wide: Policy) {
    && narrow.coverCount <= wide.coverCount && narrow.providerRedundancy <= wide.providerRedundancy
    && wide == narrow.(coverCount := wide.coverCount, providerRedundancy := wide.providerRedundancy)
  }

  /** Every bucket and every provider of the first plan is in the second. */
  ghost predicate Within(first: Plan, second: Plan) {
    Members(first.fetchBuckets) <= Members(second.fetchBuckets) && first.providerIds <= second.providerIds
  }

  /** Widening the policy only adds buckets and providers. */
  lemma WiderPolicyWiderPlan(H: Hasher, narrow: Policy, wide: Policy, request: Request, first: Plan, second: Plan)
    requires PlanFollows(H, narrow, request, first) && PlanFollows(H, wide, request, second)
    requires Widens(narrow, wide)
    ensures Within(first, second)
  {
    hide SelectProviders, Covered, BucketForStem;
    var targets := Targets(H, request, narrow.bucketCount);
    var m :| 0 <= m <= Pow256(4) && Members(first.fetchBuckets)
               == Covered(H, targets, request.epoch, request.seed, narrow.bucketCount, m);
    var n :| 0 <= n <= Pow256(4) && Members(second.fetchBuckets)
               == Covered(H, targets, request.epoch, request.seed, narrow.bucketCount, n);
    CoverSetsNest(H, targets, request.epoch, request.seed, narrow.bucketCount, m, n);
    SelectionWidens(H, request.available, request.epoch, request.seed, narrow.requiredProviderMatches,
                    narrow.providerRedundancy, wide.providerRedundancy);
  }
}
