/** Redundant retrieval: freshness, agreement of distinct providers, and the acceptance of a response. */
module Quorum {
  import opened Basics
  import opened StemTree
  import opened History
  import opened Merkle
  import opened Packets

  /** `verify_packet_freshness` */
  predicate Fresh(packet: StemWitnessPacket, currentEpoch: int, maxEpochLag: int, maxFutureEpochSkew: int) {
    && currentEpoch >= 0 && maxEpochLag >= 0 && maxFutureEpochSkew >= 0
    && packet.epoch <= currentEpoch + maxFutureEpochSkew
    && currentEpoch - packet.epoch <= maxEpochLag
  }

  /** What the packets of one group agree on. */
  datatype Fingerprint = Fingerprint(key: Bytes, value: Bytes, blockRoot: Bytes)

  function FingerprintOf(packet: StemWitnessPacket): Fingerprint {
    Fingerprint(packet.key, packet.value, packet.blockRoot)
  }

  predicate Usable(H: Hasher, root: Bytes, packet: StemWitnessPacket) {
    packet.blockRoot == root && VerifyWitnessPacket(H, packet) == Ok(true)
  }

  /** Verifying this packet raises. */
  predicate Raises(root: Bytes, packet: StemWitnessPacket) {
    packet.blockRoot == root && |packet.key| < 2
  }

  /** The distinct providers among the first `n` whose packets are valid and carry `f`. */
  function Supporters(H: Hasher, root: Bytes, packets: seq<StemWitnessPacket>, providers: seq<Bytes>,
                      f: Fingerprint, n: nat): set<Bytes>
    requires n <= |packets| == |providers|
  {
    set i | 0 <= i < n && Usable(H, root, packets[i]) && FingerprintOf(packets[i]) == f :: providers[i]
  }

  lemma SupportersStep(H: Hasher, root: Bytes, packets: seq<StemWitnessPacket>, providers: seq<Bytes>,
                       f: Fingerprint, n: nat)
    requires n < |packets| == |providers|
    ensures Supporters(H, root, packets, providers, f, n + 1)
         == Supporters(H, root, packets, providers, f, n)
            + (if Usable(H, root, packets[n]) && FingerprintOf(packets[n]) == f then {providers[n]} else {})
  {
  }

  lemma {:induction false} SupportersGrow(H: Hasher, root: Bytes, packets: seq<StemWitnessPacket>,
                                          providers: seq<Bytes>, f: Fingerprint, n: nat)
    requires n <= |packets| == |providers|
    ensures |Supporters(H, root, packets, providers, f, n)| <= |Supporters(H, root, packets, providers, f, |packets|)|
  {
    CardinalityOfSubset(Supporters(H, root, packets, providers, f, n),
                        Supporters(H, root, packets, providers, f, |packets|));
  }

  /** No group of the first `n` packets has enough distinct providers. */
  ghost predicate NoQuorum(H: Hasher, root: Bytes, packets: seq<StemWitnessPacket>, providers: seq<Bytes>,
                           n: nat, required: int)
    requires n <= |packets| == |providers|
  {
    forall f: Fingerprint :: |Supporters(H, root, packets, providers, f, n)| < required
  }

  /** The dictionary of the loop after `n` packets. */
  ghost predicate Groups(H: Hasher, root: Bytes, packets: seq<StemWitnessPacket>, providers: seq<Bytes>,
                         n: nat, agreeing: map<Fingerprint, set<Bytes>>)
    requires n <= |packets| == |providers|
  {
    forall f: Fingerprint ::
      Supporters(H, root, packets, providers, f, n) == if f in agreeing then agreeing[f] else {}
  }

  lemma SkipPacket(H: Hasher, root: Bytes, packets: seq<StemWitnessPacket>, providers: seq<Bytes>, n: nat,
                   required: int, agreeing: map<Fingerprint, set<Bytes>>)
    requires n < |packets| == |providers| && !Usable(H, root, packets[n])
    requires Groups(H, root, packets, providers, n, agreeing) && NoQuorum(H, root, packets, providers, n, required)
    ensures Groups(H, root, packets, providers, n + 1, agreeing)
    ensures NoQuorum(H, root, packets, providers, n + 1, required)
  {
    hide Supporters, Usable, FingerprintOf;
    forall g: Fingerprint
      ensures Supporters(H, root, packets, providers, g, n + 1) == Supporters(H, root, packets, providers, g, n)
    {
      SupportersStep(H, root, packets, providers, g, n);
    }
  }

  /** A packet counts for one group only. */
  lemma OthersStay(H: Hasher, root: Bytes, packets: seq<StemWitnessPacket>, providers: seq<Bytes>, n: nat)
    requires n < |packets| == |providers|
    ensures forall g: Fingerprint :: g != FingerprintOf(packets[n]) ==>
              Supporters(H, root, packets, providers, g, n + 1) == Supporters(H, root, packets, providers, g, n)
  {
    hide Supporters, Usable, FingerprintOf;
    forall g: Fingerprint | g != FingerprintOf(packets[n])
      ensures Supporters(H, root, packets, providers, g, n + 1) == Supporters(H, root, packets, providers, g, n)
    {
      SupportersStep(H, root, packets, providers, g, n);
    }
  }

  lemma CountPacket(H: Hasher, root: Bytes, packets: seq<StemWitnessPacket>, providers: seq<Bytes>, n: nat,
                    required: int, agreeing: map<Fingerprint, set<Bytes>>)
    requires n < |packets| == |providers| && Usable(H, root, packets[n])
    requires Groups(H, root, packets, providers, n, agreeing) && NoQuorum(H, root, packets, providers, n, required)
    ensures var f := FingerprintOf(packets[n]);
            var group := (if f in agreeing then agreeing[f] else {}) + {providers[n]};
            && group == Supporters(H, root, packets, providers, f, n + 1)
            && Groups(H, root, packets, providers, n + 1, agreeing[f := group])
            && (|group| < required ==> NoQuorum(H, root, packets, providers, n + 1, required))
  {
    hide Supporters, Usable, FingerprintOf;
    var f := FingerprintOf(packets[n]);
    var group := (if f in agreeing then agreeing[f] else {}) + {providers[n]};
    SupportersStep(H, root, packets, providers, f, n);
    OthersStay(H, root, packets, providers, n);
    assert Supporters(H, root, packets, providers, f, n + 1) == group;
  }

  /** `verify_redundant_packet_set`: true when some group of agreeing valid packets comes from enough
      distinct providers, false when none does; a packet with too short a key raises when it is
      reached before a quorum is. */
  method VerifyRedundantPacketSet(H: Hasher, packets: seq<StemWitnessPacket>, providers: seq<Bytes>,
                                  requiredMatches: int, root: Bytes) returns (r: Result<bool>)
    ensures requiredMatches <= 0 || |packets| != |providers| ==> r.Err?
    ensures r == Ok(true) ==>
              && |packets| == |providers|
              && !NoQuorum(H, root, packets, providers, |packets|, requiredMatches)
    ensures r == Ok(false) ==>
              && |packets| == |providers|
              && (forall i :: 0 <= i < |packets| ==> !Raises(root, packets[i]))
              && NoQuorum(H, root, packets, providers, |packets|, requiredMatches)
    ensures r.Err? && requiredMatches > 0 && |packets| == |providers| ==>
              exists i :: 0 <= i < |packets| && Raises(root, packets[i])
                          && NoQuorum(H, root, packets, providers, i, requiredMatches)
  {
    hide Supporters, VerifyWitnessPacket, Groups;
    if requiredMatches <= 0 {
      return Err("required_matches must be positive");
    }
    if |packets| != |providers| {
      return Err("packets/provider_ids length mismatch");
    }
    var agreeing: map<Fingerprint, set<Bytes>> := map[];
    NoneYet(H, root, packets, providers);
    for i := 0 to |packets|
      invariant Groups(H, root, packets, providers, i, agreeing)
      invariant NoQuorum(H, root, packets, providers, i, requiredMatches)
      invariant forall j :: 0 <= j < i ==> !Raises(root, packets[j])
    {
      var packet, provider := packets[i], providers[i];
      WhenItRaises(H, packet);
      var ok := if packet.blockRoot != root then Ok(false) else VerifyWitnessPacket(H, packet);
      if ok.Err? {
        return Err(ok.reason);
      }
      if !ok.value {
        SkipPacket(H, root, packets, providers, i, requiredMatches, agreeing);
        continue;
      }
      CountPacket(H, root, packets, providers, i, requiredMatches, agreeing);
      var f := FingerprintOf(packet);
      var group := (if f in agreeing then agreeing[f] else {}) + {provider};
      agreeing := agreeing[f := group];
      if |group| >= requiredMatches {
        SupportersGrow(H, root, packets, providers, f, i + 1);
        return Ok(true);
      }
    }
    r := Ok(false);
  }

  lemma NoneYet(H: Hasher, root: Bytes, packets: seq<StemWitnessPacket>, providers: seq<Bytes>)
    requires |packets| == |providers|
    ensures forall f: Fingerprint :: Supporters(H, root, packets, providers, f, 0) == {}
    ensures Groups(H, root, packets, providers, 0, map[])
  {
  }

  lemma WhenItRaises(H: Hasher, packet: StemWitnessPacket)
    ensures VerifyWitnessPacket(H, packet).Err? <==> |packet.key| < 2
  {
  }

  /** A value with any support is the tree's own, or one of its supporting packets exhibits a collision. */
  lemma QuorumIsTrue(H: Hasher, root: Tree, packets: seq<StemWitnessPacket>, providers: seq<Bytes>, f: Fingerprint)
    requires Canonical(root, []) && |packets| == |providers|
    requires forall p <- packets :: FixedWidth(p.proof)
    requires |Supporters(H, TreeHash(H, root), packets, providers, f, |packets|)| > 0
    ensures || GetKey(root, f.key) == Ok(f.value)
            || exists p <- packets ::
                 FingerprintOf(p) == f && Usable(H, TreeHash(H, root), p) && PacketCollides(H, root, p)
  {
    hide Usable, FixedWidth, PacketCollides;
    var provider :| provider in Supporters(H, TreeHash(H, root), packets, providers, f, |packets|);
    var i :| 0 <= i < |packets| && Usable(H, TreeHash(H, root), packets[i]) && FingerprintOf(packets[i]) == f
             && providers[i] == provider;
    assert packets[i] in packets;
    UsableIsTrue(H, root, packets[i]);
  }

  // ---------- evaluating a response ----------

  datatype Policy = Policy(
    bucketCount: int,
    coverCount: int,
    requiredProviderMatches: int,
    providerRedundancy: int,
    maxEpochLag: int,
    maxFutureEpochSkew: int)

  /** The checks of `StemFetchPolicy.__post_init__`. */
  predicate ValidPolicy(policy: Policy) {
    && policy.bucketCount > 0 && policy.coverCount >= 0
    && policy.requiredProviderMatches > 0 && policy.providerRedundancy >= 0
    && policy.maxEpochLag >= 0 && policy.maxFutureEpochSkew >= 0
  }

  /** A packet of the current epochs, by the bounds of the policy; epochs are counted from 0. */
  ghost predicate InWindow(policy: Policy, currentEpoch: int, packet: StemWitnessPacket) {
    && currentEpoch >= 0 && policy.maxEpochLag >= 0 && policy.maxFutureEpochSkew >= 0
    && currentEpoch - policy.maxEpochLag <= packet.epoch <= currentEpoch + policy.maxFutureEpochSkew
  }

  lemma FreshMeans(policy: Policy, currentEpoch: int, packet: StemWitnessPacket)
    ensures Fresh(packet, currentEpoch, policy.maxEpochLag, policy.maxFutureEpochSkew)
       <==> InWindow(policy, currentEpoch, packet)
  {
  }

  /** The distinct providers of fresh valid packets that carry `f`, paired as `zip` pairs them. */
  ghost function FreshSupporters(H: Hasher, root: Bytes, policy: Policy, currentEpoch: int,
                           packets: seq<StemWitnessPacket>, providers: seq<Bytes>, f: Fingerprint): set<Bytes> {
    set i | 0 <= i < |packets| && i < |providers| && InWindow(policy, currentEpoch, packets[i])
            && Usable(H, root, packets[i]) && FingerprintOf(packets[i]) == f :: providers[i]
  }

  ghost predicate FreshQuorum(H: Hasher, root: Bytes, policy: Policy, currentEpoch: int,
                              packets: seq<StemWitnessPacket>, providers: seq<Bytes>) {
    exists f: Fingerprint ::
      |FreshSupporters(H, root, policy, currentEpoch, packets, providers, f)| >= policy.requiredProviderMatches
  }

  /** How many of the first `n` packets are fresh. */
  ghost function FreshCount(policy: Policy, currentEpoch: int, packets: seq<StemWitnessPacket>, n: nat): (count: nat)
    requires n <= |packets|
    ensures count <= n
  {
    if n == 0 then 0
    else
      var here := if InWindow(policy, currentEpoch, packets[n - 1]) then 1 else 0;
      FreshCount(policy, currentEpoch, packets, n - 1) + here
  }

  lemma {:induction false} FreshCountMeans(policy: Policy, currentEpoch: int, packets: seq<StemWitnessPacket>, n: nat)
    requires n <= |packets|
    ensures FreshCount(policy, currentEpoch, packets, n)
         == |set i | 0 <= i < n && InWindow(policy, currentEpoch, packets[i])|
  {
    hide InWindow;
    if n > 0 {
      FreshCountMeans(policy, currentEpoch, packets, n - 1);
      var before := set i | 0 <= i < n - 1 && InWindow(policy, currentEpoch, packets[i]);
      var all := set i | 0 <= i < n && InWindow(policy, currentEpoch, packets[i]);
      if InWindow(policy, currentEpoch, packets[n - 1]) {
        assert all == before + {n - 1};
      } else {
        assert all == before;
      }
    }
  }

  /** Too few fresh packets for a quorum; nothing is verified then. */
  ghost predicate TooFewFresh(policy: Policy, currentEpoch: int, packets: seq<StemWitnessPacket>,
                              providers: seq<Bytes>)
  {
    FreshCount(policy, currentEpoch, packets, if |packets| < |providers| then |packets| else |providers|)
    < policy.requiredProviderMatches
  }

  /** Some packet that is fresh enough to be looked at makes its verification raise. */
  ghost predicate SomeRaises(root: Bytes, policy: Policy, currentEpoch: int, packets: seq<StemWitnessPacket>,
                             providers: seq<Bytes>)
  {
    exists i :: 0 <= i < |packets| && i < |providers| && InWindow(policy, currentEpoch, packets[i])
                && Raises(root, packets[i])
  }

  /** The packet counts for `key` and `value`: its epoch is within the bounds, it is for the trusted root,
      and it verifies. */
  ghost predicate CountsFor(H: Hasher, root: Bytes, policy: Policy, currentEpoch: int, packet: StemWitnessPacket,
                            key: Bytes, value: Bytes)
  {
    && 0 <= currentEpoch
    && currentEpoch - policy.maxEpochLag <= packet.epoch <= currentEpoch + policy.maxFutureEpochSkew
    && packet.blockRoot == root && packet.key == key && packet.value == value
    && VerifyWitnessPacket(H, packet) == Ok(true)
  }

  /** Each of these providers sent a packet that counts for `key` and `value`. */
  ghost predicate AllCount(H: Hasher, root: Bytes, policy: Policy, currentEpoch: int, packets: seq<StemWitnessPacket>,
                           providers: seq<Bytes>, agreeing: set<Bytes>, key: Bytes, value: Bytes)
  {
    forall provider <- agreeing :: exists i ::
      && 0 <= i < |packets| && i < |providers| && providers[i] == provider
      && CountsFor(H, root, policy, currentEpoch, packets[i], key, value)
  }

  /** A quorum is a set of at least the required number of providers, each of which sent a packet that
      counts for one key and one value. */
  lemma QuorumMeans(H: Hasher, root: Bytes, policy: Policy, currentEpoch: int, packets: seq<StemWitnessPacket>,
                    providers: seq<Bytes>)
    requires ValidPolicy(policy)
    ensures FreshQuorum(H, root, policy, currentEpoch, packets, providers)
       <==> exists agreeing: set<Bytes>, key, value ::
              && |agreeing| >= policy.requiredProviderMatches
              && AllCount(H, root, policy, currentEpoch, packets, providers, agreeing, key, value)
  {
    hide VerifyWitnessPacket;
    if FreshQuorum(H, root, policy, currentEpoch, packets, providers) {
      var f: Fingerprint :| |FreshSupporters(H, root, policy, currentEpoch, packets, providers, f)|
                            >= policy.requiredProviderMatches;
      assert AllCount(H, root, policy, currentEpoch, packets, providers,
                      FreshSupporters(H, root, policy, currentEpoch, packets, providers, f), f.key, f.value);
    }
    if agreeing: set<Bytes>, key, value :|
      && |agreeing| >= policy.requiredProviderMatches
      && AllCount(H, root, policy, currentEpoch, packets, providers, agreeing, key, value)
    {
      var f := Fingerprint(key, value, root);
      var supporters := FreshSupporters(H, root, policy, currentEpoch, packets, providers, f);
      forall provider | provider in agreeing ensures provider in supporters {
      }
      CardinalityOfSubset(agreeing, supporters);
    }
  }

  /** `evaluate_response`: it accepts when enough distinct providers sent fresh valid packets that
      agree on key, value and root, and rejects otherwise, unless a fresh packet makes it raise. */
  method EvaluateResponse(H: Hasher, policy: Policy, packets: seq<StemWitnessPacket>, providers: seq<Bytes>,
                          root: Bytes, currentEpoch: int) returns (r: Result<bool>)
    requires ValidPolicy(policy)
    ensures r == Ok(true) ==>
              && FreshQuorum(H, root, policy, currentEpoch, packets, providers)
              && exists agreeing: set<Bytes>, key, value ::
                   && |agreeing| >= policy.requiredProviderMatches
                   && AllCount(H, root, policy, currentEpoch, packets, providers, agreeing, key, value)
    ensures r == Ok(false) ==>
              forall agreeing: set<Bytes>, key, value ::
                AllCount(H, root, policy, currentEpoch, packets, providers, agreeing, key, value)
                ==> |agreeing| < policy.requiredProviderMatches
    ensures r == Ok(false) ==> !FreshQuorum(H, root, policy, currentEpoch, packets, providers)
    ensures r.Err? ==> SomeRaises(root, policy, currentEpoch, packets, providers)
    ensures TooFewFresh(policy, currentEpoch, packets, providers) ==> r == Ok(false)
    ensures r == Ok(false) ==> || TooFewFresh(policy, currentEpoch, packets, providers)
                               || !SomeRaises(root, policy, currentEpoch, packets, providers)
  {
    hide Supporters, FreshSupporters, InWindow, Fresh, AllCount;
    QuorumMeans(H, root, policy, currentEpoch, packets, providers);
    var freshPackets: seq<StemWitnessPacket> := [];
    var freshProviders: seq<Bytes> := [];
    ghost var from: seq<int> := [];
    var n := if |packets| < |providers| then |packets| else |providers|;
    for i := 0 to n
      invariant Selected(policy, currentEpoch, packets, providers, freshPackets, freshProviders, from, i)
      invariant |freshPackets| == FreshCount(policy, currentEpoch, packets, i)
    {
      FreshMeans(policy, currentEpoch, packets[i]);
      if Fresh(packets[i], currentEpoch, policy.maxEpochLag, policy.maxFutureEpochSkew) {
        freshPackets := freshPackets + [packets[i]];
        freshProviders := freshProviders + [providers[i]];
        from := from + [i];
        assert from[|from| - 1] == i;
      }
    }
    forall f: Fingerprint
      ensures FreshSupporters(H, root, policy, currentEpoch, packets, providers, f)
           == Supporters(H, root, freshPackets, freshProviders, f, |freshPackets|)
      ensures |FreshSupporters(H, root, policy, currentEpoch, packets, providers, f)| <= |freshPackets|
    {
      FreshOnesCount(H, root, policy, currentEpoch, packets, providers, freshPackets, freshProviders, from, f);
      FewSupporters(H, root, freshPackets, freshProviders, f, |freshPackets|);
    }
    if |freshPackets| < policy.requiredProviderMatches {
      return Ok(false);
    }
    r := VerifyRedundantPacketSet(H, freshPackets, freshProviders, policy.requiredProviderMatches, root);
    if r.Err? {
      ghost var k :| 0 <= k < |freshPackets| && Raises(root, freshPackets[k]);
      assert freshPackets[k] == packets[from[k]];
    }
  }

  /** Some packet that counts for `f` exhibits a collision. */
  ghost predicate SomeCollides(H: Hasher, root: Tree, policy: Policy, currentEpoch: int,
                               packets: seq<StemWitnessPacket>, f: Fingerprint)
  {
    exists p <- packets ::
      && InWindow(policy, currentEpoch, p) && Usable(H, TreeHash(H, root), p) && FingerprintOf(p) == f
      && PacketCollides(H, root, p)
  }

  /** Whatever enough providers agree on in a response is what the tree behind the trusted root holds,
      or a packet that counted for it exhibits a collision. No second group can agree on a lie. */
  lemma AcceptedResponseIsTrue(H: Hasher, root: Tree, policy: Policy, currentEpoch: int,
                               packets: seq<StemWitnessPacket>, providers: seq<Bytes>, f: Fingerprint)
    requires Canonical(root, []) && ValidPolicy(policy)
    requires forall p <- packets :: FixedWidth(p.proof)
    requires |FreshSupporters(H, TreeHash(H, root), policy, currentEpoch, packets, providers, f)|
          >= policy.requiredProviderMatches
    ensures GetKey(root, f.key) == Ok(f.value) || SomeCollides(H, root, policy, currentEpoch, packets, f)
  {
    hide InWindow, Usable, FixedWidth, PacketCollides;
    var provider :| provider in FreshSupporters(H, TreeHash(H, root), policy, currentEpoch, packets, providers, f);
    var i :| 0 <= i < |packets| && i < |providers| && InWindow(policy, currentEpoch, packets[i])
             && Usable(H, TreeHash(H, root), packets[i]) && FingerprintOf(packets[i]) == f;
    assert packets[i] in packets;
    UsableIsTrue(H, root, packets[i]);
  }

  lemma UsableIsTrue(H: Hasher, root: Tree, packet: StemWitnessPacket)
    requires Canonical(root, []) && FixedWidth(packet.proof) && Usable(H, TreeHash(H, root), packet)
    ensures GetKey(root, packet.key) == Ok(packet.value) || PacketCollides(H, root, packet)
  {
    VerifiedPacketIsHonest(H, root, packet);
  }

  /** `from` lists the positions below `i` whose packets are fresh. */
  ghost predicate Selected(policy: Policy, currentEpoch: int, packets: seq<StemWitnessPacket>, providers: seq<Bytes>,
                           freshPackets: seq<StemWitnessPacket>, freshProviders: seq<Bytes>, from: seq<int>, i: nat)
  {
    && |freshPackets| == |freshProviders| == |from|
    && (forall k :: 0 <= k < |from| ==>
          && 0 <= from[k] < i && from[k] < |packets| && from[k] < |providers|
          && InWindow(policy, currentEpoch, packets[from[k]])
          && freshPackets[k] == packets[from[k]] && freshProviders[k] == providers[from[k]])
    && (forall j :: 0 <= j < i && j < |packets| && InWindow(policy, currentEpoch, packets[j]) ==> j in from)
  }

  lemma FreshOnesCount(H: Hasher, root: Bytes, policy: Policy, currentEpoch: int, packets: seq<StemWitnessPacket>,
                       providers: seq<Bytes>, freshPackets: seq<StemWitnessPacket>, freshProviders: seq<Bytes>,
                       from: seq<int>, f: Fingerprint)
    requires Selected(policy, currentEpoch, packets, providers, freshPackets, freshProviders, from,
                      if |packets| < |providers| then |packets| else |providers|)
    ensures |freshPackets| == |freshProviders|
    ensures Supporters(H, root, freshPackets, freshProviders, f, |freshPackets|)
         == FreshSupporters(H, root, policy, currentEpoch, packets, providers, f)
  {
  }

  lemma {:induction false} FewSupporters(H: Hasher, root: Bytes, packets: seq<StemWitnessPacket>,
                                         providers: seq<Bytes>, f: Fingerprint, n: nat)
    requires n <= |packets| == |providers|
    ensures |Supporters(H, root, packets, providers, f, n)| <= n
  {
    hide Supporters, Usable;
    NoneYet(H, root, packets, providers);
    if n > 0 {
      FewSupporters(H, root, packets, providers, f, n - 1);
      SupportersStep(H, root, packets, providers, f, n - 1);
    }
  }
}
