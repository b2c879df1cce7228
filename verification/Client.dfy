/** `PartiallyStatelessStemClient`: a client that trusts one root and caches the stems it verified. */
module Client {
  import opened Basics
  import opened StemTree
  import opened History
  import opened Merkle
  import opened Packets

  // ---------- recency ----------

  ghost predicate Distinct(s: seq<Bytes>) {
    forall i, j :: 0 <= i < j < |s| ==> s[i] != s[j]
  }

  function IndexOf(s: seq<Bytes>, x: Bytes): (i: nat)
    requires x in s
    ensures i < |s| && s[i] == x
  {
    if s[0] == x then 0 else 1 + IndexOf(s[1..], x)
  }

  /** `del d[x]` of an ordered dictionary, on its list of keys. */
  function Without(s: seq<Bytes>, x: Bytes): seq<Bytes> {
    if x in s then s[..IndexOf(s, x)] + s[IndexOf(s, x) + 1..] else s
  }

  /** The distinct elements of a history of touches, the most recently touched last. */
  ghost function Recency(touches: seq<Bytes>): seq<Bytes> {
    if touches == [] then []
    else Without(Recency(touches[..|touches| - 1]), touches[|touches| - 1]) + [touches[|touches| - 1]]
  }

  function LastOf(s: seq<Bytes>, n: nat): seq<Bytes> {
    if |s| <= n then s else s[|s| - n..]
  }

  /** The position of the last touch of `x`. */
  ghost function LastTouch(touches: seq<Bytes>, x: Bytes): nat
    requires x in touches
  {
    if touches[|touches| - 1] == x then |touches| - 1 else LastTouch(touches[..|touches| - 1], x)
  }

  lemma WithoutElements(s: seq<Bytes>, x: Bytes)
    requires Distinct(s)
    ensures forall y :: y in Without(s, x) <==> y in s && y != x
    ensures Distinct(Without(s, x))
  {
    hide IndexOf;
    if x in s {
      CutOut(s, IndexOf(s, x));
    }
  }

  /** A list of distinct elements without the one at `i`. */
  lemma CutOut(s: seq<Bytes>, i: nat)
    requires Distinct(s) && i < |s|
    ensures var r := s[..i] + s[i + 1..];
            Distinct(r) && forall y :: y in r <==> y in s && y != s[i]
  {
    var front, back := s[..i], s[i + 1..];
    assert s == front + [s[i]] + back;
    assert s[i] !in front && s[i] !in back;
  }

  ghost predicate OrderedByTouch(s: seq<Bytes>, touches: seq<Bytes>) {
    && (forall i :: 0 <= i < |s| ==> s[i] in touches)
    && (forall i, j :: 0 <= i < j < |s| ==> LastTouch(touches, s[i]) < LastTouch(touches, s[j]))
  }

  lemma {:induction false} LastTouchBound(touches: seq<Bytes>, x: Bytes)
    requires x in touches
    ensures LastTouch(touches, x) < |touches| && touches[LastTouch(touches, x)] == x
    ensures forall i :: LastTouch(touches, x) < i < |touches| ==> touches[i] != x
  {
    if touches[|touches| - 1] != x {
      LastTouchBound(touches[..|touches| - 1], x);
    }
  }

  lemma WithoutKeepsOrder(s: seq<Bytes>, x: Bytes, touches: seq<Bytes>)
    requires OrderedByTouch(s, touches)
    ensures OrderedByTouch(Without(s, x), touches)
  {
    if x in s {
      var k := IndexOf(s, x);
      OrderWithGap(s, k, touches);
    }
  }

  lemma OrderWithGap(s: seq<Bytes>, k: nat, touches: seq<Bytes>)
    requires OrderedByTouch(s, touches) && k < |s|
    ensures OrderedByTouch(s[..k] + s[k + 1..], touches)
  {
    var w := s[..k] + s[k + 1..];
    var source := seq(|w|, i requires 0 <= i < |w| => if i < k then i else i + 1);
    assert forall i :: 0 <= i < |w| ==> w[i] == s[source[i]];
  }

  lemma OrderSurvivesTouch(w: seq<Bytes>, x: Bytes, before: seq<Bytes>)
    requires OrderedByTouch(w, before) && x !in w
    ensures OrderedByTouch(w + [x], before + [x])
  {
    var touches := before + [x];
    assert touches[..|touches| - 1] == before;
    forall i | 0 <= i < |w|
      ensures w[i] in touches && LastTouch(touches, w[i]) == LastTouch(before, w[i]) < |before|
    {
      assert w[i] in w;
      LastTouchBound(before, w[i]);
    }
  }

  /** What `Recency` means: exactly the touched elements, once each, in the order of last touch. */
  lemma {:induction false} RecencyIsByLastTouch(touches: seq<Bytes>)
    ensures Distinct(Recency(touches))
    ensures forall x :: x in Recency(touches) <==> x in touches
    ensures OrderedByTouch(Recency(touches), touches)
  {
    if touches != [] {
      var before, x := touches[..|touches| - 1], touches[|touches| - 1];
      assert touches == before + [x];
      RecencyIsByLastTouch(before);
      WithoutElements(Recency(before), x);
      WithoutKeepsOrder(Recency(before), x, before);
      OrderSurvivesTouch(Without(Recency(before), x), x, before);
    }
  }

  /** Bounded least-recently-used replacement keeps a suffix of the unbounded recency order. */
  lemma TouchKeepsSuffix(r: seq<Bytes>, x: Bytes, n: nat)
    requires n > 0 && Distinct(r)
    ensures LastOf(Without(r, x) + [x], n) == LastOf(Without(LastOf(r, n), x) + [x], n)
    ensures x in LastOf(r, n) ==> LastOf(Without(r, x) + [x], n) == Without(LastOf(r, n), x) + [x]
  {
    hide Without, IndexOf, LastOf;
    if |r| <= n {
      LastOfAll(r, n);
      WithoutSlices(r, x);
      if x in r {
        LastOfAll(Without(r, x) + [x], n);
      }
    } else {
      var k := |r| - n;
      LastOfDrop(r, n, k);
      WithoutSlices(r, x);
      WithoutSlices(r[k..], x);
      if x !in r {
        AppendThenDrop(r, x, k);
        LastOfDrop(r + [x], n, k + 1);
        LastOfDrop(r[k..] + [x], n, 1);
      } else if IndexOf(r, x) < k {
        DroppedElement(r, x, k);
        DropFront(r, x, IndexOf(r, x), k);
        LastOfDrop(Without(r, x) + [x], n, k);
        LastOfDrop(r[k..] + [x], n, 1);
      } else {
        KeptIndex(r, x, k);
        DropFront(r, x, IndexOf(r, x), k);
        LastOfDrop(Without(r, x) + [x], n, k);
        LastOfAll(Without(r[k..], x) + [x], n);
      }
    }
  }

  lemma WithoutSlices(s: seq<Bytes>, x: Bytes)
    ensures x !in s ==> Without(s, x) == s
    ensures x in s ==> Without(s, x) == s[..IndexOf(s, x)] + s[IndexOf(s, x) + 1..]
  {
  }

  lemma LastOfAll(s: seq<Bytes>, n: nat)
    requires |s| <= n
    ensures LastOf(s, n) == s
  {
  }

  lemma AppendThenDrop(r: seq<Bytes>, x: Bytes, k: nat)
    requires k < |r|
    ensures (r + [x])[k + 1..] == (r[k..] + [x])[1..]
  {
  }

  lemma DroppedElement(r: seq<Bytes>, x: Bytes, k: nat)
    requires Distinct(r) && x in r && IndexOf(r, x) < k <= |r|
    ensures x !in r[k..]
  {
  }

  lemma KeptIndex(r: seq<Bytes>, x: Bytes, k: nat)
    requires Distinct(r) && x in r && k <= IndexOf(r, x)
    ensures x in r[k..] && IndexOf(r[k..], x) == IndexOf(r, x) - k
  {
  }

  lemma DropFront(r: seq<Bytes>, x: Bytes, i: nat, k: nat)
    requires i < |r| && k < |r|
    ensures (r[..i] + r[i + 1..] + [x])[k..]
         == if i < k then (r[k..] + [x])[1..] else r[k..][..i - k] + r[k..][i - k + 1..] + [x]
  {
  }

  lemma LastOfDistinct(s: seq<Bytes>, n: nat)
    requires Distinct(s)
    ensures Distinct(LastOf(s, n)) && |LastOf(s, n)| <= n
  {
  }

  lemma LastOfDrop(s: seq<Bytes>, n: nat, k: nat)
    requires |s| == n + k
    ensures LastOf(s, n) == s[k..]
  {
  }

  // ---------- the client ----------

  /** `OrderedDict`: the keys from the least to the most recently moved to the end. */
  datatype OrderedDict = OrderedDict(order: seq<Bytes>, entries: map<Bytes, seq<Bytes>>)

  /** The cache holds exactly the `n` most recently touched stems, in the order of last touch. */
  ghost predicate Tracks(cache: OrderedDict, touches: seq<Bytes>, n: nat) {
    && cache.order == LastOf(Recency(touches), n)
    && (forall p :: p in cache.order <==> p in cache.entries)
    && (forall p <- cache.entries :: |cache.entries[p]| == STEM_SUBTREE_WIDTH)
  }

  function MoveToEnd(order: seq<Bytes>, p: Bytes): seq<Bytes> {
    Without(order, p) + [p]
  }

  lemma RecencyOfOneMore(touches: seq<Bytes>, p: Bytes, n: nat)
    requires n > 0
    ensures var order := LastOf(Recency(touches), n);
            && Distinct(order) && Distinct(MoveToEnd(order, p))
            && (forall q :: q in MoveToEnd(order, p) <==> q in order || q == p)
            && LastOf(Recency(touches + [p]), n) == LastOf(MoveToEnd(order, p), n)
            && (p in order ==> LastOf(Recency(touches + [p]), n) == MoveToEnd(order, p))
            && |order| <= n && |MoveToEnd(order, p)| <= n + 1
  {
    hide Without, LastOf;
    assert (touches + [p])[..|touches|] == touches;
    RecencyIsByLastTouch(touches);
    var r := Recency(touches);
    TouchKeepsSuffix(r, p, n);
    LastOfDistinct(r, n);
    WithoutElements(LastOf(r, n), p);
    WithoutSlices(LastOf(r, n), p);
  }

  lemma MoveTracks(cache: OrderedDict, touches: seq<Bytes>, n: nat, p: Bytes)
    requires n > 0 && Tracks(cache, touches, n) && p in cache.entries
    ensures Tracks(cache.(order := MoveToEnd(cache.order, p)), touches + [p], n)
  {
    hide MoveToEnd, LastOf, Recency;
    RecencyOfOneMore(touches, p, n);
  }

  /** `popitem(last=False)` when the cache has grown over its bound. */
  function Evict(cache: OrderedDict, n: nat): OrderedDict {
    if |cache.order| > n then OrderedDict(cache.order[1..], cache.entries - {cache.order[0]}) else cache
  }

  /** Overwriting a stem makes it the most recent one and may evict the least recent. */
  function CachePut(cache: OrderedDict, p: Bytes, values: seq<Bytes>, n: nat): OrderedDict {
    Evict(OrderedDict(MoveToEnd(cache.order, p), cache.entries[p := values]), n)
  }

  lemma PutTracks(cache: OrderedDict, touches: seq<Bytes>, n: nat, p: Bytes, values: seq<Bytes>)
    requires n > 0 && Tracks(cache, touches, n) && |values| == STEM_SUBTREE_WIDTH
    ensures Tracks(CachePut(cache, p, values, n), touches + [p], n)
    ensures p in CachePut(cache, p, values, n).entries && CachePut(cache, p, values, n).entries[p] == values
  {
    hide Recency, MoveToEnd, LastOf;
    RecencyOfOneMore(touches, p, n);
    var order := MoveToEnd(cache.order, p);
    LastIsMoved(cache.order, p);
    if |order| > n {
      LastOfDrop(order, n, 1);
      FirstDropped(order);
    } else {
      LastOfAll(order, n);
    }
  }

  lemma LastIsMoved(order: seq<Bytes>, p: Bytes)
    ensures var moved := MoveToEnd(order, p); moved != [] && moved[|moved| - 1] == p
  {
  }

  lemma FirstDropped(order: seq<Bytes>)
    requires Distinct(order) && order != []
    ensures forall q :: q in order[1..] <==> q in order && q != order[0]
  {
  }

  datatype Decision = Decision(accepted: bool, reason: string)

  /** `StatelessStemClient.verify_packet` */
  function VerifyPacket(H: Hasher, trustedRoot: Bytes, packet: StemWitnessPacket): Result<Decision> {
    if packet.blockRoot != trustedRoot then Ok(Decision(false, "packet block root is not locally trusted"))
    else
      var ok :- VerifyWitnessPacket(H, packet);
      if !ok then Ok(Decision(false, "packet proof verification failed"))
      else Ok(Decision(true, "packet locally verified"))
  }

  predicate Accepts(H: Hasher, trustedRoot: Bytes, packet: StemWitnessPacket) {
    var verdict := VerifyPacket(H, trustedRoot, packet);
    verdict.Ok? && verdict.value.accepted
  }

  /** A client accepts exactly the packets for its root whose key has their stem prefix, whose proof has
      their key and value, and whose proof verifies; else it says which check failed, or raises. */
  lemma VerifyPacketMeans(H: Hasher, trustedRoot: Bytes, packet: StemWitnessPacket)
    ensures Accepts(H, trustedRoot, packet) <==>
              && packet.blockRoot == trustedRoot
              && |packet.key| >= 2 && packet.stemPrefix == packet.key[..|packet.key| - 1]
              && packet.proof.key == packet.key && packet.proof.value == packet.value
              && Verifies(H, trustedRoot, packet.proof)
    ensures VerifyPacket(H, trustedRoot, packet).Err? <==> packet.blockRoot == trustedRoot && |packet.key| < 2
    ensures packet.blockRoot != trustedRoot ==>
              VerifyPacket(H, trustedRoot, packet) == Ok(Decision(false, "packet block root is not locally trusted"))
  {
    hide Verifies, VerifyWitnessPacket;
    VerifyWitnessMeans(H, packet);
  }

  lemma AcceptedWidth(H: Hasher, trustedRoot: Bytes, packet: StemWitnessPacket)
    requires Accepts(H, trustedRoot, packet)
    ensures VerifyWitnessPacket(H, packet) == Ok(true) && packet.blockRoot == trustedRoot
    ensures |packet.proof.stemValues| == STEM_SUBTREE_WIDTH
  {
  }

  class PartiallyStatelessStemClient {
    var verifiedBlockRoot: Bytes
    const maxCachedStems: nat
    var stemCache: OrderedDict
    var cacheHits: nat
    var cacheMisses: nat
    /** The stems touched since the cache was last cleared, and the number of reads so far. */
    ghost var touches: seq<Bytes>
    ghost var readCount: nat

    /** The cache holds exactly the `maxCachedStems` most recently touched stems, in that order. */
    ghost predicate Valid()
      reads this
    {
      && maxCachedStems > 0
      && Tracks(stemCache, touches, maxCachedStems)
      && cacheHits + cacheMisses == readCount
    }

    constructor (root: Bytes, maxStems: nat)
      requires maxStems > 0
      ensures Valid() && verifiedBlockRoot == root && maxCachedStems == maxStems
      ensures stemCache == OrderedDict([], map[]) && touches == [] && readCount == 0
    {
      verifiedBlockRoot, maxCachedStems := root, maxStems;
      stemCache := OrderedDict([], map[]);
      cacheHits, cacheMisses := 0, 0;
      touches, readCount := [], 0;
    }

    method ClearCache()
      requires Valid()
      modifies this`stemCache, this`touches
      ensures Valid() && stemCache == OrderedDict([], map[]) && touches == []
    {
      stemCache := OrderedDict([], map[]);
      touches := [];
    }

    /** Rotating the trusted root clears the cache unless the caller asks to keep it. */
    method SetVerifiedBlockRoot(root: Bytes, clearCache: bool := true)
      requires Valid()
      modifies this`verifiedBlockRoot, this`stemCache, this`touches
      ensures Valid() && verifiedBlockRoot == root
      ensures clearCache ==> stemCache == OrderedDict([], map[]) && touches == []
      ensures !clearCache ==> stemCache == old(stemCache) && touches == old(touches)
    {
      verifiedBlockRoot := root;
      if clearCache {
        ClearCache();
      }
    }

    /** An accepted packet caches its whole stem as the most recent one, evicting the least recent
        when the cache is full; any other packet leaves the client as it was. */
    method VerifyAndCachePacket(H: Hasher, packet: StemWitnessPacket) returns (r: Result<Decision>)
      requires Valid()
      modifies this`stemCache, this`touches
      ensures Valid()
      ensures Accepts(H, verifiedBlockRoot, packet) ==>
                && r == Ok(Decision(true, "packet locally verified and cached"))
                && touches == old(touches) + [packet.stemPrefix]
                && stemCache == CachePut(old(stemCache), packet.stemPrefix, packet.proof.stemValues, maxCachedStems)
      ensures !Accepts(H, verifiedBlockRoot, packet) ==>
                r == VerifyPacket(H, verifiedBlockRoot, packet) && unchanged(this)
    {
      hide Tracks, MoveToEnd, VerifyPacket, VerifyWitnessPacket;
      var verdict := VerifyPacket(H, verifiedBlockRoot, packet);
      if verdict.Err? || !verdict.value.accepted {
        return verdict;
      }
      AcceptedWidth(H, verifiedBlockRoot, packet);
      PutTracks(stemCache, touches, maxCachedStems, packet.stemPrefix, packet.proof.stemValues);
      var order := MoveToEnd(stemCache.order, packet.stemPrefix);
      var entries := stemCache.entries[packet.stemPrefix := packet.proof.stemValues];
      stemCache := OrderedDict(order, entries);
      if |order| > maxCachedStems {
        stemCache := OrderedDict(order[1..], entries - {order[0]});
      }
      touches := touches + [packet.stemPrefix];
      r := Ok(Decision(true, "packet locally verified and cached"));
    }

    /** A hit returns the cached leaf and makes its stem the most recent one. */
    method CachedValue(key: Bytes) returns (r: Result<Option<Bytes>>)
      requires Valid()
      modifies this`stemCache, this`touches, this`readCount, this`cacheHits, this`cacheMisses
      ensures Valid() && stemCache.entries == old(stemCache.entries)
      ensures |key| < 2 ==> r == Err("Key too short") && unchanged(this)
      ensures |key| >= 2 ==>
                if Prefix(key) in stemCache.entries then
                  && r == Ok(Some(stemCache.entries[Prefix(key)][Subindex(key)]))
                  && touches == old(touches) + [Prefix(key)]
                  && cacheHits == old(cacheHits) + 1 && cacheMisses == old(cacheMisses)
                else
                  && r == Ok(None) && touches == old(touches)
                  && cacheHits == old(cacheHits) && cacheMisses == old(cacheMisses) + 1
    {
      var parts :- SplitKey(key);
      var (prefix, subindex) := parts;
      readCount := readCount + 1;
      if prefix !in stemCache.entries {
        cacheMisses := cacheMisses + 1;
        return Ok(None);
      }
      cacheHits := cacheHits + 1;
      MoveTracks(stemCache, touches, maxCachedStems, prefix);
      stemCache := stemCache.(order := MoveToEnd(stemCache.order, prefix));
      touches := touches + [prefix];
      r := Ok(Some(stemCache.entries[prefix][subindex]));
    }
  }

  /** The checks and defaults of `__init__`. */
  method MakeClient(root: Bytes, maxStems: int := 128) returns (r: Result<PartiallyStatelessStemClient>)
    ensures r.Ok? <==> maxStems > 0
    ensures r.Ok? ==>
              && fresh(r.value) && r.value.Valid()
              && r.value.verifiedBlockRoot == root && r.value.maxCachedStems == maxStems
              && r.value.stemCache == OrderedDict([], map[]) && r.value.touches == []
  {
    if maxStems <= 0 {
      return Err("max_cached_stems must be positive");
    }
    var client := new PartiallyStatelessStemClient(root, maxStems);
    r := Ok(client);
  }

  // ---------- agreement with the trees behind the trusted roots ----------

  /** Every cached stem is the stem of the tree against which it was last verified. */
  ghost predicate AgreesWith(cache: OrderedDict, verified: map<Bytes, Tree>) {
    forall p <- cache.entries ::
      && p in verified && Canonical(verified[p], [])
      && p in Stems(verified[p]) && cache.entries[p] == Stems(verified[p])[p]
  }

  /** Caching an accepted fixed-width packet keeps the agreement, for all 256 leaves of its stem. */
  lemma CachingAgrees(H: Hasher, root: Tree, cache: OrderedDict, verified: map<Bytes, Tree>,
                      packet: StemWitnessPacket, n: nat)
    requires Canonical(root, []) && AgreesWith(cache, verified)
    requires Accepts(H, TreeHash(H, root), packet) && FixedWidth(packet.proof)
    ensures || PacketCollides(H, root, packet)
            || AgreesWith(CachePut(cache, packet.stemPrefix, packet.proof.stemValues, n),
                          verified[packet.stemPrefix := root])
  {
    hide MoveToEnd, PacketCollides, Canonical, FixedWidth;
    AcceptedWidth(H, TreeHash(H, root), packet);
    VerifiedPacketIsHonest(H, root, packet);
    CollidesMeans(H, root, packet);
  }

  lemma CollidesMeans(H: Hasher, root: Tree, packet: StemWitnessPacket)
    requires |packet.proof.key| >= 2 && |packet.proof.pathSiblings| == |packet.proof.pathBits|
    ensures Collision(H, Payloads(H, root), ProofPayloads(H, packet.proof)) ==> PacketCollides(H, root, packet)
  {
  }

  lemma HitAgrees(verified: map<Bytes, Tree>, cache: OrderedDict, key: Bytes)
    requires AgreesWith(cache, verified)
    requires |key| >= 2 && Prefix(key) in cache.entries && |cache.entries[Prefix(key)]| == STEM_SUBTREE_WIDTH
    ensures GetKey(verified[Prefix(key)], key) == Ok(cache.entries[Prefix(key)][Subindex(key)])
  {
    assert PathTo(Prefix(key), 0) == [];
    GetReadsMap(verified[Prefix(key)], Prefix(key), Subindex(key), 0);
  }

  // ---------- whole runs ----------

  datatype Event =
    | Deliver(packet: StemWitnessPacket)
    | ReadKey(key: Bytes)
    | Rotate(tree: Tree, clearCache: bool)

  datatype Answer = Verdict(verdict: Result<Decision>) | ReadAnswer(value: Result<Option<Bytes>>) | Rotated

  /** The tree behind the trusted root after a run of events. */
  ghost function Behind(first: Tree, events: seq<Event>): Tree {
    if events == [] then first
    else if events[|events| - 1].Rotate? then events[|events| - 1].tree
    else Behind(first, events[..|events| - 1])
  }

  /** What the events of a run amount to: the stems touched since the cache was last cleared, the tree
      against which each was last verified, and the numbers of hits and misses. */
  datatype Ledger = Ledger(touches: seq<Bytes>, verified: map<Bytes, Tree>, hits: nat, misses: nat)

  /** The `n` most recently touched stems, the most recent last. */
  ghost function Cached(ledger: Ledger, n: nat): seq<Bytes> {
    LastOf(Recency(ledger.touches), n)
  }

  ghost function Next(H: Hasher, root: Tree, ledger: Ledger, event: Event, n: nat): Ledger {
    match event
    case Deliver(packet) =>
      if Accepts(H, TreeHash(H, root), packet) then
        ledger.(touches := ledger.touches + [packet.stemPrefix], verified := ledger.verified[packet.stemPrefix := root])
      else ledger
    case ReadKey(key) =>
      if |key| < 2 then ledger
      else if Prefix(key) in Cached(ledger, n) then
        ledger.(touches := ledger.touches + [Prefix(key)], hits := ledger.hits + 1)
      else ledger.(misses := ledger.misses + 1)
    case Rotate(_, clearCache) => if clearCache then ledger.(touches := [], verified := map[]) else ledger
  }

  ghost function LedgerOf(H: Hasher, first: Tree, events: seq<Event>, n: nat): Ledger {
    if events == [] then Ledger([], map[], 0, 0)
    else
      var before := events[..|events| - 1];
      Next(H, Behind(first, before), LedgerOf(H, first, before, n), events[|events| - 1], n)
  }

  /** The tree that a hit on this stem reads. */
  ghost function SourceOf(root: Tree, ledger: Ledger, p: Bytes): Tree {
    if p in ledger.verified then ledger.verified[p] else root
  }

  /** What each event should answer, told from the trees and the ledger alone. */
  ghost function Expected(H: Hasher, root: Tree, ledger: Ledger, event: Event, n: nat): Answer {
    match event
    case Deliver(packet) =>
      Verdict(if Accepts(H, TreeHash(H, root), packet) then Ok(Decision(true, "packet locally verified and cached"))
              else VerifyPacket(H, TreeHash(H, root), packet))
    case ReadKey(key) =>
      ReadAnswer(if |key| < 2 then Err("Key too short")
                 else if Prefix(key) in Cached(ledger, n) then
                   Ok(Some(GetKey(SourceOf(root, ledger, Prefix(key)), key).value))
                 else Ok(None))
    case Rotate(_, _) => Rotated
  }

  /** Roots are roots of canonical trees, packets have the widths the decoder enforces, and no
      packet exhibits a collision with the tree it is checked against. */
  ghost predicate FairRun(H: Hasher, first: Tree, events: seq<Event>) {
    && Canonical(first, [])
    && forall i :: 0 <= i < |events| ==> FairEvent(H, Behind(first, events[..i]), events[i])
  }

  ghost predicate FairEvent(H: Hasher, root: Tree, event: Event) {
    match event
    case Deliver(packet) => FixedWidth(packet.proof) && !PacketCollides(H, root, packet)
    case ReadKey(_) => true
    case Rotate(tree, _) => Canonical(tree, [])
  }

  lemma {:induction false} BehindIsCanonical(H: Hasher, first: Tree, events: seq<Event>, i: nat)
    requires FairRun(H, first, events) && i <= |events|
    ensures Canonical(Behind(first, events[..i]), [])
  {
    if i > 0 {
      assert events[..i][..i - 1] == events[..i - 1];
      assert FairEvent(H, Behind(first, events[..i - 1]), events[i - 1]);
      BehindIsCanonical(H, first, events, i - 1);
    }
  }

  /** The client is as the ledger says. */
  ghost predicate Tied(client: PartiallyStatelessStemClient, H: Hasher, root: Tree, ledger: Ledger)
    reads client
  {
    && client.Valid()
    && client.verifiedBlockRoot == TreeHash(H, root)
    && client.touches == ledger.touches && client.cacheHits == ledger.hits && client.cacheMisses == ledger.misses
    && AgreesWith(client.stemCache, ledger.verified)
  }

  /** Every run of deliveries, reads and rotations, clearing or not: each event answers as expected, and
      afterwards the cache holds exactly the most recently touched stems of the run, in that order. */
  method Serve(H: Hasher, first: Tree, events: seq<Event>, maxStems: nat)
    returns (client: PartiallyStatelessStemClient, answers: seq<Answer>)
    requires maxStems > 0 && FairRun(H, first, events)
    ensures client.Valid() && client.verifiedBlockRoot == TreeHash(H, Behind(first, events))
    ensures var ledger := LedgerOf(H, first, events, maxStems);
            && client.stemCache.order == Cached(ledger, maxStems)
            && client.cacheHits == ledger.hits && client.cacheMisses == ledger.misses
    ensures |answers| == |events|
    ensures forall i :: 0 <= i < |events| ==>
              answers[i] == Expected(H, Behind(first, events[..i]), LedgerOf(H, first, events[..i], maxStems),
                                     events[i], maxStems)
  {
    hide Expected, Canonical, TreeHash, Recency, AgreesWith, FairEvent, Next, Behind, LedgerOf;
    EmptyCacheAgrees();
    NoEvents(H, first, maxStems);
    assert events[..0] == [];
    client := new PartiallyStatelessStemClient(TreeHash(H, first), maxStems);
    answers := [];
    for i := 0 to |events|
      invariant client.maxCachedStems == maxStems && |answers| == i && fresh(client)
      invariant Tied(client, H, Behind(first, events[..i]), LedgerOf(H, first, events[..i], maxStems))
      invariant forall j :: 0 <= j < i ==>
        answers[j] == Expected(H, Behind(first, events[..j]), LedgerOf(H, first, events[..j], maxStems),
                               events[j], maxStems)
    {
      OneMoreEvent(H, first, events, i, maxStems);
      assert FairEvent(H, Behind(first, events[..i]), events[i]);
      ghost var root, ledger := Behind(first, events[..i]), LedgerOf(H, first, events[..i], maxStems);
      BehindIsCanonical(H, first, events, i);
      var answer := Handle(client, H, events[i], root, ledger);
      answers := answers + [answer];
    }
    assert events[..|events|] == events;
  }

  lemma NoEvents(H: Hasher, first: Tree, n: nat)
    ensures Behind(first, []) == first && LedgerOf(H, first, [], n) == Ledger([], map[], 0, 0)
  {
  }

  lemma OneMoreEvent(H: Hasher, first: Tree, events: seq<Event>, i: nat, n: nat)
    requires i < |events|
    ensures var root := Behind(first, events[..i]);
            && Behind(first, events[..i + 1]) == (if events[i].Rotate? then events[i].tree else root)
            && LedgerOf(H, first, events[..i + 1], n)
               == Next(H, root, LedgerOf(H, first, events[..i], n), events[i], n)
  {
    hide Next;
    assert events[..i + 1][..i] == events[..i];
  }

  method Handle(client: PartiallyStatelessStemClient, H: Hasher, event: Event, ghost root: Tree, ghost ledger: Ledger)
    returns (answer: Answer)
    requires Canonical(root, []) && FairEvent(H, root, event) && Tied(client, H, root, ledger)
    modifies client
    ensures Tied(client, H, if event.Rotate? then event.tree else root,
                 Next(H, root, ledger, event, client.maxCachedStems))
    ensures answer == Expected(H, root, ledger, event, client.maxCachedStems)
  {
    hide VerifyPacket, VerifyWitnessPacket, CachePut, AgreesWith, Canonical, Recency, LastOf;
    match event
    case Deliver(packet) =>
      if Accepts(H, client.verifiedBlockRoot, packet) {
        CachingAgrees(H, root, client.stemCache, ledger.verified, packet, client.maxCachedStems);
      }
      var verdict := client.VerifyAndCachePacket(H, packet);
      answer := Verdict(verdict);
    case ReadKey(key) =>
      if |key| >= 2 && Prefix(key) in client.stemCache.entries {
        CachedMeans(client.stemCache, ledger.verified, Prefix(key));
        HitAgrees(ledger.verified, client.stemCache, key);
      }
      ghost var before := client.stemCache;
      var value := client.CachedValue(key);
      SameEntriesAgree(before, client.stemCache, ledger.verified);
      answer := ReadAnswer(value);
    case Rotate(tree, clearCache) =>
      EmptyCacheAgrees();
      client.SetVerifiedBlockRoot(TreeHash(H, tree), clearCache);
      answer := Rotated;
  }

  lemma EmptyCacheAgrees()
    ensures AgreesWith(OrderedDict([], map[]), map[])
  {
  }

  lemma SameEntriesAgree(a: OrderedDict, b: OrderedDict, verified: map<Bytes, Tree>)
    requires AgreesWith(a, verified) && a.entries == b.entries
    ensures AgreesWith(b, verified)
  {
  }

  lemma CachedMeans(cache: OrderedDict, verified: map<Bytes, Tree>, p: Bytes)
    requires AgreesWith(cache, verified) && p in cache.entries
    ensures p in verified && |cache.entries[p]| == STEM_SUBTREE_WIDTH
  {
    var values: Values := Stems(verified[p])[p];
  }

  /** What was touched was verified. */
  lemma {:induction false} TouchedIsVerified(H: Hasher, first: Tree, events: seq<Event>, n: nat)
    ensures forall p <- LedgerOf(H, first, events, n).touches :: p in LedgerOf(H, first, events, n).verified
  {
    if events != [] {
      hide Accepts, TreeHash, Recency;
      var before := events[..|events| - 1];
      TouchedIsVerified(H, first, before, n);
      CachedIsTouched(LedgerOf(H, first, before, n), n);
    }
  }

  lemma CachedIsTouched(ledger: Ledger, n: nat)
    ensures forall p <- Cached(ledger, n) :: p in ledger.touches
  {
    RecencyIsByLastTouch(ledger.touches);
  }

  ghost predicate AlwaysClears(events: seq<Event>) {
    forall event <- events :: event.Rotate? ==> event.clearCache
  }

  lemma {:induction false} VerifiedAgainstCurrent(H: Hasher, first: Tree, events: seq<Event>, n: nat)
    requires AlwaysClears(events)
    ensures forall p <- LedgerOf(H, first, events, n).verified ::
              LedgerOf(H, first, events, n).verified[p] == Behind(first, events)
  {
    if events != [] {
      hide Accepts, TreeHash, Cached;
      var before := events[..|events| - 1];
      assert forall event <- before :: event in events;
      VerifiedAgainstCurrent(H, first, before, n);
      assert events[|events| - 1] in events;
    }
  }

  /** Under the default rotation a hit returns what the tree behind the trusted root holds at that moment. */
  lemma DefaultHitsAreCurrent(H: Hasher, first: Tree, events: seq<Event>, n: nat, key: Bytes)
    requires AlwaysClears(events) && |key| >= 2
    ensures var root, ledger := Behind(first, events), LedgerOf(H, first, events, n);
            Expected(H, root, ledger, ReadKey(key), n)
            == ReadAnswer(Ok(if Prefix(key) in Cached(ledger, n) then Some(GetKey(root, key).value) else None))
  {
    hide Recency, LedgerOf;
    TouchedIsVerified(H, first, events, n);
    CachedIsTouched(LedgerOf(H, first, events, n), n);
    VerifiedAgainstCurrent(H, first, events, n);
  }
}
