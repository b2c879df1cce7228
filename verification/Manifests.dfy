/** Bucket manifests: the chained root over packet commitments, what it binds, and its wire format. */
module Manifests {
  import opened Basics
  import opened BigEndian
  import opened Merkle
  import opened Order
  import opened Wire
  import opened Packets

  const MAX_MANIFEST_PACKET_COUNT := 16384

  datatype BucketManifest = BucketManifest(
    epoch: int,
    bucketId: int,
    packetCommitments: seq<Bytes>,
    packetsRoot: Bytes)

  // ---------- the chained root ----------

  function Chain(H: Hasher, items: seq<Bytes>): Word {
    if items == [] then H([]) else H(Chain(H, items[..|items| - 1]) + items[|items| - 1])
  }

  /** `_hash_concat` */
  method HashConcat(H: Hasher, items: seq<Bytes>) returns (current: Word)
    ensures current == Chain(H, items)
  {
    current := H([]);
    for i := 0 to |items|
      invariant current == Chain(H, items[..i])
    {
      assert items[..i + 1][..i] == items[..i];
      current := H(current + items[i]);
    }
    assert items[..|items|] == items;
  }

  /** Everything that is hashed for the root of a list. */
  ghost function ChainPayloads(H: Hasher, items: seq<Bytes>): set<Bytes> {
    if items == [] then {[]}
    else
      var before := items[..|items| - 1];
      ChainPayloads(H, before) + {Chain(H, before) + items[|items| - 1]}
  }

  /** The root fixes the list: its length, its items and their order. */
  lemma {:induction false} ChainBinds(H: Hasher, a: seq<Bytes>, b: seq<Bytes>)
    requires AllWide(a, 32) && AllWide(b, 32)
    requires Chain(H, a) == Chain(H, b)
    ensures a == b || Collision(H, ChainPayloads(H, a), ChainPayloads(H, b))
  {
    hide AllWide;
    LastPayload(H, a);
    LastPayload(H, b);
    if a != [] && b != [] {
      var before, last, earlier, final := a[..|a| - 1], a[|a| - 1], b[..|b| - 1], b[|b| - 1];
      if Chain(H, before) + last == Chain(H, earlier) + final {
        SplitAt(Chain(H, before), last, Chain(H, earlier), final);
        ChainBinds(H, before, earlier);
        assert a == before + [last] && b == earlier + [final];
      }
    }
  }

  lemma LastPayload(H: Hasher, items: seq<Bytes>)
    requires AllWide(items, 32)
    ensures items == [] ==> [] in ChainPayloads(H, items)
    ensures items != [] ==>
              && Chain(H, items[..|items| - 1]) + items[|items| - 1] in ChainPayloads(H, items)
              && ChainPayloads(H, items[..|items| - 1]) <= ChainPayloads(H, items)
              && |items[|items| - 1]| == 32 && AllWide(items[..|items| - 1], 32)
  {
  }

  // ---------- building a manifest ----------

  /** `sorted(xs)` */
  function Sorted(xs: seq<Bytes>): seq<Bytes> {
    if xs == [] then [] else PlaceAnother(Sorted(xs[1..]), xs[0])
  }

  function PlaceAnother(s: seq<Bytes>, x: Bytes): seq<Bytes> {
    if s == [] || LexLeq(x, s[0]) then [x] + s else [s[0]] + PlaceAnother(s[1..], x)
  }

  lemma {:induction false} PlaceAnotherAdds(s: seq<Bytes>, x: Bytes)
    ensures multiset(PlaceAnother(s, x)) == multiset(s) + multiset{x}
  {
    hide LexLeq;
    if s != [] {
      PlaceAnotherAdds(s[1..], x);
      assert s == [s[0]] + s[1..];
    }
  }

  /** What was below all stays below all. */
  lemma StaysBelow(first: Bytes, s: seq<Bytes>, x: Bytes)
    requires LexLeq(first, x) && forall y <- s :: LexLeq(first, y)
    ensures forall j :: 0 <= j < |PlaceAnother(s, x)| ==> LexLeq(first, PlaceAnother(s, x)[j])
  {
    hide LexLeq;
    PlaceAnotherAdds(s, x);
    var placed := PlaceAnother(s, x);
    forall j | 0 <= j < |placed| ensures LexLeq(first, placed[j]) {
      assert placed[j] in multiset(placed);
      assert placed[j] == x || placed[j] in s;
    }
  }

  lemma {:induction false} PlaceAnotherKeepsOrder(s: seq<Bytes>, x: Bytes)
    requires Ascending(s)
    ensures Ascending(PlaceAnother(s, x))
  {
    if s != [] {
      hide LexLeq;
      LexTotal(x, s[0]);
      if LexLeq(x, s[0]) {
        forall j | 0 < j < |s| ensures LexLeq(x, s[j]) {
          LexTransitive(x, s[0], s[j]);
        }
      } else {
        PlaceAnotherKeepsOrder(s[1..], x);
        StaysBelow(s[0], s[1..], x);
      }
    }
  }

  lemma {:induction false} SortedSorts(xs: seq<Bytes>)
    ensures Ascending(Sorted(xs))
    ensures multiset(Sorted(xs)) == multiset(xs)
  {
    if xs != [] {
      SortedSorts(xs[1..]);
      PlaceAnotherKeepsOrder(Sorted(xs[1..]), xs[0]);
      PlaceAnotherAdds(Sorted(xs[1..]), xs[0]);
      assert xs == [xs[0]] + xs[1..];
    }
  }

  /** The first of an ascending list is its least element, and the rest has one of them fewer. */
  lemma FirstIsLeast(s: seq<Bytes>)
    requires Ascending(s) && s != []
    ensures forall x <- multiset(s) :: LexLeq(s[0], x)
    ensures Ascending(s[1..]) && multiset(s[1..]) == multiset(s) - multiset{s[0]}
  {
    hide LexLeq;
    LexTotal(s[0], s[0]);
    assert s == [s[0]] + s[1..];
    forall x | x in multiset(s) ensures LexLeq(s[0], x) {
      var i :| 0 <= i < |s| && s[i] == x;
    }
  }

  /** Ascending lists with the same elements, each as often, are equal. */
  lemma {:induction false} SortedIsUnique(a: seq<Bytes>, b: seq<Bytes>)
    requires Ascending(a) && Ascending(b) && multiset(a) == multiset(b)
    ensures a == b
  {
    hide LexLeq, Ascending;
    assert |a| == |multiset(a)| == |multiset(b)| == |b|;
    if a != [] {
      FirstIsLeast(a);
      FirstIsLeast(b);
      assert a[0] in multiset(b) && b[0] in multiset(a);
      LexTotal(a[0], b[0]);
      SortedIsUnique(a[1..], b[1..]);
      assert a == [a[0]] + a[1..] && b == [b[0]] + b[1..];
    }
  }

  predicate AllEncode(packets: seq<StemWitnessPacket>) {
    forall i :: 0 <= i < |packets| ==> PacketEncodable(packets[i])
  }

  function Commitments(H: Hasher, packets: seq<StemWitnessPacket>): seq<Bytes>
    requires AllEncode(packets)
  {
    if packets == [] then [] else [H(Payload(packets[0]))] + Commitments(H, packets[1..])
  }

  ghost predicate OneBucket(epoch: int, bucketId: int, packets: seq<StemWitnessPacket>) {
    AllEncode(packets) && forall packet <- packets :: packet.epoch == epoch && packet.bucketId == bucketId
  }

  function ManifestOf(H: Hasher, epoch: int, bucketId: int, commitments: seq<Bytes>): BucketManifest {
    BucketManifest(epoch, bucketId, Sorted(commitments), Chain(H, Sorted(commitments)))
  }

  /** `build_bucket_manifest` succeeds exactly for encodable packets of that epoch and bucket. */
  method BuildBucketManifest(H: Hasher, epoch: int, bucketId: int, packets: seq<StemWitnessPacket>)
    returns (r: Result<BucketManifest>)
    ensures r.Ok? <==> OneBucket(epoch, bucketId, packets)
    ensures r.Ok? ==> r.value == ManifestOf(H, epoch, bucketId, Commitments(H, packets))
    ensures r.Ok? ==>
              && InByteOrder(r.value.packetCommitments)
              && multiset(r.value.packetCommitments) == multiset(Commitments(H, packets))
  {
    hide PacketEncodable, Payload, CheckPacket, Sorted, Chain, Commitments, Ascending, InByteOrder;
    for i := 0 to |packets|
      invariant forall j :: 0 <= j < i ==> packets[j].epoch == epoch && packets[j].bucketId == bucketId
    {
      if packets[i].epoch != epoch {
        assert packets[i] in packets;
        return Err("packet epoch mismatch");
      }
      if packets[i].bucketId != bucketId {
        assert packets[i] in packets;
        return Err("packet bucket mismatch");
      }
    }
    var unsorted: seq<Bytes> := [];
    NoCommitments(H);
    for i := 0 to |packets|
      invariant AllEncode(packets[..i])
      invariant unsorted == Commitments(H, packets[..i])
    {
      var checked := CheckPacket(packets[i]);
      if checked.Err? {
        return Err(checked.reason);
      }
      assert packets[..i + 1] == packets[..i] + [packets[i]];
      CommitmentsAppend(H, packets[..i], [packets[i]]);
      OneCommitment(H, packets[i]);
      unsorted := unsorted + [H(Payload(packets[i]))];
    }
    assert packets[..|packets|] == packets;
    var commitments := Sorted(unsorted);
    SortedSorts(unsorted);
    AscendingMeans(commitments);
    var root := HashConcat(H, commitments);
    r := Ok(BucketManifest(epoch, bucketId, commitments, root));
  }

  lemma NoCommitments(H: Hasher)
    ensures Commitments(H, []) == []
  {
  }

  lemma OneCommitment(H: Hasher, packet: StemWitnessPacket)
    requires PacketEncodable(packet)
    ensures Commitments(H, [packet]) == [H(Payload(packet))]
  {
  }

  lemma {:induction false} CommitmentsAppend(H: Hasher, ps: seq<StemWitnessPacket>, qs: seq<StemWitnessPacket>)
    requires AllEncode(ps) && AllEncode(qs)
    ensures AllEncode(ps + qs)
    ensures Commitments(H, ps + qs) == Commitments(H, ps) + Commitments(H, qs)
  {
    hide PacketEncodable, Payload;
    if ps == [] {
      assert ps + qs == qs;
    } else {
      var rest := ps[1..] + qs;
      assert (ps + qs)[1..] == rest && (ps + qs)[0] == ps[0];
      CommitmentsAppend(H, ps[1..], qs);
      ConcatAssociates([H(Payload(ps[0]))], Commitments(H, ps[1..]), Commitments(H, qs));
    }
  }

  // ---------- what a manifest says about its packets ----------

  lemma SizedPrefix(a: Bytes, x: Bytes, b: Bytes, y: Bytes, width: nat)
    requires |a| < Pow256(width) && |b| < Pow256(width)
    requires Sized(a, width) + x == Sized(b, width) + y
    ensures a == b && x == y
  {
    TakeSizedExact(a, width, Pow256(width), x);
    TakeSizedExact(b, width, Pow256(width), y);
  }

  lemma SplitAt(a: Bytes, x: Bytes, b: Bytes, y: Bytes)
    requires |a| == |b| && a + x == b + y
    ensures a == b && x == y
  {
    assert (a + x)[..|a|] == a && (b + y)[..|b|] == b;
    assert (a + x)[|a|..] == x && (b + y)[|b|..] == y;
  }

  lemma ProofBlobInjective(p: MerkleProof, q: MerkleProof)
    requires Encodable(p) && Encodable(q) && ProofBlob(p) == ProofBlob(q)
    ensures p == q
  {
    hide Count, BitBytes, Sized, AllWide, Join;
    Pow256Values();
    var p7, q7 := BitBytes(p.pathBits) + [], BitBytes(q.pathBits) + [];
    var p6, q6 := Count(|p.pathBits|) + p7, Count(|q.pathBits|) + q7;
    var p5, q5 := Join(p.pathSiblings) + p6, Join(q.pathSiblings) + q6;
    var p4, q4 := Count(|p.pathSiblings|) + p5, Count(|q.pathSiblings|) + q5;
    var p3, q3 := Join(p.stemValues) + p4, Join(q.stemValues) + q4;
    var p2, q2 := Count(256) + p3, Count(256) + q3;
    SizedPrefix(p.key, p.value + p2, q.key, q.value + q2, 2);
    SplitAt(p.value, p2, q.value, q2);
    SplitAt(Count(256), p3, Count(256), q3);
    JoinLength(p.stemValues, 32);
    JoinLength(q.stemValues, 32);
    SplitAt(Join(p.stemValues), p4, Join(q.stemValues), q4);
    JoinInjective(p.stemValues, q.stemValues, 32);
    TakeCountExact(|p.pathSiblings|, p5);
    TakeCountExact(|q.pathSiblings|, q5);
    JoinLength(p.pathSiblings, 32);
    JoinLength(q.pathSiblings, 32);
    SplitAt(Join(p.pathSiblings), p6, Join(q.pathSiblings), q6);
    JoinInjective(p.pathSiblings, q.pathSiblings, 32);
    TakeCountExact(|p.pathBits|, p7);
    TakeCountExact(|q.pathBits|, q7);
    assert p7 == BitBytes(p.pathBits) && q7 == BitBytes(q.pathBits);
  }

  lemma PayloadInjective(p: StemWitnessPacket, q: StemWitnessPacket)
    requires PacketEncodable(p) && PacketEncodable(q) && Payload(p) == Payload(q)
    ensures p == q
  {
    hide HeadBytes, BodyBytes, Encodable, ProofBlob, TakeHead, Sized;
    TakeHeadExact(HeadOf(p), BodyBytes(BodyOf(p)));
    TakeHeadExact(HeadOf(q), BodyBytes(BodyOf(q)));
    BodyBytesInjective(BodyOf(p), BodyOf(q));
    ProofBlobInjective(p.proof, q.proof);
  }

  lemma BodyBytesInjective(a: Body, b: Body)
    requires BodyFits(a) && BodyFits(b) && BodyBytes(a) == BodyBytes(b)
    ensures a == b
  {
    hide Sized;
    BodyThen(a, []);
    BodyThen(b, []);
    var a3, b3 := Sized(a.proofBlob, 4) + [], Sized(b.proofBlob, 4) + [];
    SizedPrefix(a.stemPrefix, Sized(a.key, 2) + (a.value + a3), b.stemPrefix, Sized(b.key, 2) + (b.value + b3), 2);
    SizedPrefix(a.key, a.value + a3, b.key, b.value + b3, 2);
    SplitAt(a.value, a3, b.value, b3);
    SizedPrefix(a.proofBlob, [], b.proofBlob, [], 4);
  }

  ghost predicate PacketsCollide(H: Hasher, ps: seq<StemWitnessPacket>, qs: seq<StemWitnessPacket>) {
    exists p, q :: p in ps && q in qs && PacketEncodable(p) && PacketEncodable(q)
                   && Payload(p) != Payload(q) && H(Payload(p)) == H(Payload(q))
  }

  /** Two buckets have the same root exactly when they hold the same packets, each as often, in
      whatever order they were collected; apart from a collision among the hashed strings. */
  lemma RootIsTheBucket(H: Hasher, epoch: int, bucketId: int, ps: seq<StemWitnessPacket>, qs: seq<StemWitnessPacket>)
    requires OneBucket(epoch, bucketId, ps) && OneBucket(epoch, bucketId, qs)
    ensures var a, b := Sorted(Commitments(H, ps)), Sorted(Commitments(H, qs));
            && (multiset(ps) == multiset(qs) ==> a == b && Chain(H, a) == Chain(H, b))
            && (Chain(H, a) == Chain(H, b) ==>
                  || multiset(ps) == multiset(qs)
                  || Collision(H, ChainPayloads(H, a), ChainPayloads(H, b))
                  || PacketsCollide(H, ps, qs))
  {
    hide PacketEncodable, Payload, PacketsCollide, Collision;
    var u, v := Commitments(H, ps), Commitments(H, qs);
    SortedSorts(u);
    SortedSorts(v);
    if multiset(ps) == multiset(qs) {
      SamePacketsSameCommitments(H, ps, qs);
      SortedIsUnique(Sorted(u), Sorted(v));
    }
    if Chain(H, Sorted(u)) == Chain(H, Sorted(v)) {
      CommitmentsWide(H, ps);
      CommitmentsWide(H, qs);
      SameElementsWide(u, Sorted(u));
      SameElementsWide(v, Sorted(v));
      ChainBinds(H, Sorted(u), Sorted(v));
      if Sorted(u) == Sorted(v) {
        SameCommitmentsSamePackets(H, ps, qs);
      }
    }
  }

  lemma {:induction false} CommitmentsWide(H: Hasher, packets: seq<StemWitnessPacket>)
    requires AllEncode(packets)
    ensures |Commitments(H, packets)| == |packets|
    ensures forall i :: 0 <= i < |packets| ==> Commitments(H, packets)[i] == H(Payload(packets[i]))
    ensures AllWide(Commitments(H, packets), 32)
  {
    hide PacketEncodable, Payload;
    if packets != [] {
      CommitmentsWide(H, packets[1..]);
    }
  }

  lemma SameElementsWide(a: seq<Bytes>, b: seq<Bytes>)
    requires AllWide(a, 32) && multiset(a) == multiset(b)
    ensures AllWide(b, 32)
  {
    forall x | x in b ensures |x| == 32 {
      assert x in multiset(b);
      assert x in a;
    }
  }

  function Without<T>(s: seq<T>, k: nat): (r: seq<T>)
    requires k < |s|
    ensures multiset(r) == multiset(s) - multiset{s[k]}
  {
    assert s == s[..k] + [s[k]] + s[k + 1..];
    s[..k] + s[k + 1..]
  }

  lemma TakeOut(H: Hasher, packets: seq<StemWitnessPacket>, k: nat)
    requires k < |packets| && AllEncode(packets)
    ensures AllEncode(Without(packets, k))
    ensures |Commitments(H, packets)| == |packets|
    ensures Commitments(H, packets)[k] == H(Payload(packets[k]))
    ensures Commitments(H, Without(packets, k)) == Without(Commitments(H, packets), k)
  {
    hide PacketEncodable, Payload, Commitments, Without;
    var front, x, back := packets[..k], packets[k], packets[k + 1..];
    var tail := [x] + back;
    assert packets == front + tail;
    CommitmentsAppend(H, [x], back);
    CommitmentsAppend(H, front, tail);
    CommitmentsAppend(H, front, back);
    OneCommitment(H, x);
    CommitmentsWide(H, packets);
    CommitmentsWide(H, front);
    CutThree(packets, front, x, back);
    CutThree(Commitments(H, packets), Commitments(H, front), H(Payload(x)), Commitments(H, back));
  }

  lemma CutThree<T>(all: seq<T>, front: seq<T>, x: T, back: seq<T>)
    requires all == front + ([x] + back)
    ensures all[|front|] == x && Without(all, |front|) == front + back
  {
    assert all[..|front|] == front && all[|front| + 1..] == back;
  }

  lemma {:induction false} SamePacketsSameCommitments(H: Hasher, ps: seq<StemWitnessPacket>, qs: seq<StemWitnessPacket>)
    requires AllEncode(ps)
    requires AllEncode(qs)
    requires multiset(ps) == multiset(qs)
    ensures multiset(Commitments(H, ps)) == multiset(Commitments(H, qs))
  {
    hide PacketEncodable, Payload, Commitments;
    assert |ps| == |multiset(ps)| == |multiset(qs)| == |qs|;
    if ps == [] {
      assert ps == qs;
    } else {
      assert ps[0] in multiset(qs);
      var k :| 0 <= k < |qs| && qs[k] == ps[0];
      SamePacketsSameCommitments(H, Without(ps, 0), Without(qs, k));
      TakeOut(H, ps, 0);
      TakeOut(H, qs, k);
      PutBack(Commitments(H, ps), Commitments(H, qs), 0, k);
    }
  }

  lemma PutBack<T>(a: seq<T>, b: seq<T>, i: nat, k: nat)
    requires i < |a| && k < |b| && a[i] == b[k] && multiset(Without(a, i)) == multiset(Without(b, k))
    ensures multiset(a) == multiset(b)
  {
    assert multiset(a) == multiset(Without(a, i)) + multiset{a[i]};
    assert multiset(b) == multiset(Without(b, k)) + multiset{b[k]};
  }

  lemma {:induction false} SameCommitmentsSamePackets(H: Hasher, ps: seq<StemWitnessPacket>, qs: seq<StemWitnessPacket>)
    requires AllEncode(ps)
    requires AllEncode(qs)
    requires multiset(Commitments(H, ps)) == multiset(Commitments(H, qs))
    ensures multiset(ps) == multiset(qs) || PacketsCollide(H, ps, qs)
  {
    hide PacketEncodable, Payload, Commitments, PacketsCollide;
    CommitmentsWide(H, ps);
    CommitmentsWide(H, qs);
    var a, b := Commitments(H, ps), Commitments(H, qs);
    assert |a| == |multiset(a)| == |multiset(b)| == |b|;
    if ps == [] {
      assert ps == qs;
    } else {
      assert a[0] in multiset(b);
      var k :| 0 <= k < |b| && b[k] == a[0];
      TakeOut(H, ps, 0);
      TakeOut(H, qs, k);
      SameCommitmentsSamePackets(H, Without(ps, 0), Without(qs, k));
      MatchOrCollide(H, ps, qs, 0, k);
    }
  }

  lemma MatchOrCollide(H: Hasher, ps: seq<StemWitnessPacket>, qs: seq<StemWitnessPacket>, i: nat, k: nat)
    requires i < |ps| && k < |qs|
    requires PacketEncodable(ps[i]) && PacketEncodable(qs[k]) && H(Payload(ps[i])) == H(Payload(qs[k]))
    requires multiset(Without(ps, i)) == multiset(Without(qs, k)) || PacketsCollide(H, Without(ps, i), Without(qs, k))
    ensures multiset(ps) == multiset(qs) || PacketsCollide(H, ps, qs)
  {
    hide PacketEncodable, Payload;
    if !PacketsCollide(H, ps, qs) {
      assert ps[i] in ps && qs[k] in qs;
      PayloadInjective(ps[i], qs[k]);
      PutBack(ps, qs, i, k);
    }
  }

  // ---------- the wire format ----------

  predicate ManifestEncodable(manifest: BucketManifest) {
    && 0 <= manifest.epoch < Pow256(8) && 0 <= manifest.bucketId < Pow256(4)
    && |manifest.packetsRoot| == 32 && AllWide(manifest.packetCommitments, 32)
    && |manifest.packetCommitments| < Pow256(4)
  }

  function ManifestBytes(manifest: BucketManifest): Bytes
    requires ManifestEncodable(manifest)
  {
    [WIRE_VERSION_V1]
    + (ToBytes(manifest.epoch, 8)
    + (ToBytes(manifest.bucketId, 4)
    + (ToBytes(|manifest.packetCommitments|, 4)
    + (Join(manifest.packetCommitments)
    + (manifest.packetsRoot + [])))))
  }

  /** `decode_bucket_manifest_v1` as a function of the blob. */
  function DecodeManifest(H: Hasher, blob: Bytes): Result<BucketManifest> {
    var (version, s1) :- Take(blob, 1);
    if version[0] != WIRE_VERSION_V1 then Err("unknown version")
    else
      var (epoch, s2) :- TakeNat(s1, 8);
      var (bucketId, s3) :- TakeNat(s2, 4);
      var (packetCount, s4) :- TakeNat(s3, 4);
      if packetCount > MAX_MANIFEST_PACKET_COUNT then Err("packet_count exceeds configured maximum")
      else
        var (commitments, s5) :- TakeWords(s4, packetCount);
        var (packetsRoot, s6) :- Take(s5, 32);
        if s6 != [] then Err("truncated payload")
        else if Chain(H, commitments) != packetsRoot then Err("packets_root mismatch")
        else Ok(BucketManifest(epoch, bucketId, commitments, packetsRoot))
  }

  /** What becomes of an encoded manifest: it comes back exactly when it is not too long and its root
      is the root of its commitments; the encoder checks neither. */
  lemma DecodeEncodeManifest(H: Hasher, manifest: BucketManifest)
    requires ManifestEncodable(manifest)
    ensures DecodeManifest(H, ManifestBytes(manifest))
         == if |manifest.packetCommitments| > 16384
            then Err("packet_count exceeds configured maximum")
            else if Chain(H, manifest.packetCommitments) != manifest.packetsRoot then Err("packets_root mismatch")
            else Ok(manifest)
  {
    hide AllWide, TakeNat;
    var count := |manifest.packetCommitments|;
    var r5 := manifest.packetsRoot + [];
    var r4 := Join(manifest.packetCommitments) + r5;
    var r3 := ToBytes(count, 4) + r4;
    var r2 := ToBytes(manifest.bucketId, 4) + r3;
    TakeExact([WIRE_VERSION_V1], ToBytes(manifest.epoch, 8) + r2);
    TakeNatExact(manifest.epoch, 8, r2);
    TakeNatExact(manifest.bucketId, 4, r3);
    TakeNatExact(count, 4, r4);
    TakeWordsExact(manifest.packetCommitments, r5);
    TakeExact(manifest.packetsRoot, []);
  }

  /** An accepted manifest has one encoding, the blob itself, and its root is that of its commitments. */
  lemma EncodeDecodeManifest(H: Hasher, blob: Bytes)
    requires DecodeManifest(H, blob).Ok?
    ensures var manifest := DecodeManifest(H, blob).value;
            && ManifestEncodable(manifest) && |manifest.packetCommitments| <= 16384
            && Chain(H, manifest.packetCommitments) == manifest.packetsRoot
            && ManifestBytes(manifest) == blob
  {
    hide AllWide, TakeNat;
    Pow256Values();
    TakeSplits(blob, 1);
    var (version, s1) := Take(blob, 1).value;
    TakeNatSplits(s1, 8);
    var (epoch, s2) := TakeNat(s1, 8).value;
    TakeNatSplits(s2, 4);
    var (bucketId, s3) := TakeNat(s2, 4).value;
    TakeNatSplits(s3, 4);
    var (count, s4) := TakeNat(s3, 4).value;
    TakeWordsSplits(s4, count);
    var s5 := TakeWords(s4, count).value.1;
    TakeSplits(s5, 32);
    assert version == [WIRE_VERSION_V1];
  }

  /** A manifest on the wire, field by field: version, epoch, bucket, the number of commitments, the
      commitments, the root, and nothing else. */
  lemma ManifestLayout(manifest: BucketManifest, i: nat)
    requires ManifestEncodable(manifest)
    ensures var blob, n := ManifestBytes(manifest), |manifest.packetCommitments|;
            && |blob| == 49 + 32 * n && blob[0] == 1
            && Eight(blob[1..9]) == manifest.epoch && Four(blob[9..13]) == manifest.bucketId && Four(blob[13..17]) == n
            && (i < n ==> At(blob, 17 + 32 * i, manifest.packetCommitments[i]))
            && At(blob, 17 + 32 * n, manifest.packetsRoot)
  {
    hide AllWide, At, Join;
    var n, words := |manifest.packetCommitments|, manifest.packetCommitments;
    var head := [WIRE_VERSION_V1] + (ToBytes(manifest.epoch, 8) + (ToBytes(manifest.bucketId, 4) + ToBytes(n, 4)));
    var root := manifest.packetsRoot + [];
    var blob := ManifestBytes(manifest);
    JoinLength(words, 32);
    EightBytes(manifest.epoch);
    FourBytes(manifest.bucketId);
    FourBytes(n);
    assert blob == head + (Join(words) + root);
    assert blob[1..9] == ToBytes(manifest.epoch, 8) && blob[9..13] == ToBytes(manifest.bucketId, 4);
    assert blob[13..17] == ToBytes(n, 4);
    if i < n {
      WordAt(words, root, i);
      AtLater(head, Join(words) + root, 32 * i, words[i]);
    }
    AtInOrder(Join(words), manifest.packetsRoot, []);
    AtLater(head, Join(words) + root, 32 * n, manifest.packetsRoot);
  }

  /** A blob that carries the root an honest provider published lists exactly its packets. */
  lemma AcceptedManifestIsTheBucket(H: Hasher, blob: Bytes, epoch: int, bucketId: int, packets: seq<StemWitnessPacket>)
    requires DecodeManifest(H, blob).Ok? && OneBucket(epoch, bucketId, packets)
    requires DecodeManifest(H, blob).value.packetsRoot
          == ManifestOf(H, epoch, bucketId, Commitments(H, packets)).packetsRoot
    ensures var listed := DecodeManifest(H, blob).value.packetCommitments;
            || listed == Sorted(Commitments(H, packets))
            || Collision(H, ChainPayloads(H, listed), ChainPayloads(H, Sorted(Commitments(H, packets))))
  {
    hide AllWide, DecodeManifest, ManifestBytes, Collision, Payload, PacketEncodable;
    EncodeDecodeManifest(H, blob);
    var commitments := Commitments(H, packets);
    CommitmentsWide(H, packets);
    SortedSorts(commitments);
    SameElementsWide(commitments, Sorted(commitments));
    ChainBinds(H, DecodeManifest(H, blob).value.packetCommitments, Sorted(commitments));
  }

  /** `encode_bucket_manifest_v1` */
  method EncodeBucketManifest(manifest: BucketManifest) returns (r: Result<Bytes>)
    ensures r.Ok? <==> ManifestEncodable(manifest)
    ensures r.Ok? ==> r.value == ManifestBytes(manifest)
  {
    if manifest.epoch < 0 || manifest.bucketId < 0 {
      return Err("manifest numeric fields must be non-negative");
    }
    if |manifest.packetsRoot| != 32 {
      return Err("packets_root must be 32 bytes");
    }
    if !AllWide(manifest.packetCommitments, 32) {
      return Err("packet commitments must be 32 bytes");
    }
    Pow256Values();
    var packetCount := |manifest.packetCommitments|;
    if packetCount > 0xFFFF_FFFF {
      return Err("packet_count out of range");
    }
    if manifest.epoch >= Pow256(8) || manifest.bucketId >= Pow256(4) {
      return Err("int too big to convert");
    }
    var out: Bytes := [WIRE_VERSION_V1];
    out := out + ToBytes(manifest.epoch, 8);
    out := out + ToBytes(manifest.bucketId, 4);
    out := out + ToBytes(packetCount, 4);
    out := ExtendAll(out, manifest.packetCommitments);
    out := out + manifest.packetsRoot;
    ManifestFields([WIRE_VERSION_V1], ToBytes(manifest.epoch, 8), ToBytes(manifest.bucketId, 4),
                   ToBytes(packetCount, 4), Join(manifest.packetCommitments), manifest.packetsRoot);
    r := Ok(out);
  }

  lemma ManifestFields(a: Bytes, b: Bytes, c: Bytes, d: Bytes, e: Bytes, f: Bytes)
    ensures a + (b + (c + (d + (e + (f + []))))) == ((((a + b) + c) + d) + e) + f
  {
  }

  /** `verify_bucket_manifest` */
  method VerifyBucketManifest(H: Hasher, manifest: BucketManifest) returns (ok: bool)
    ensures ok <==> Chain(H, manifest.packetCommitments) == manifest.packetsRoot
  {
    var root := HashConcat(H, manifest.packetCommitments);
    ok := root == manifest.packetsRoot;
  }

  /** `decode_bucket_manifest_v1`, advancing an offset through the blob. */
  method DecodeBucketManifest(H: Hasher, blob: Bytes) returns (r: Result<BucketManifest>)
    ensures r == DecodeManifest(H, blob)
  {
    hide Chain;
    assert blob[0..] == blob;
    var versionField :- ReadExact(blob, 0, 1);
    var (versionRaw, o1) := versionField;
    if versionRaw[0] != WIRE_VERSION_V1 {
      return Err("unknown version");
    }
    var epochField :- ReadExact(blob, o1, 8);
    var (epochRaw, o2) := epochField;
    var bucketField :- ReadExact(blob, o2, 4);
    var (bucketIdRaw, o3) := bucketField;
    var countField :- ReadExact(blob, o3, 4);
    var (packetCountRaw, o4) := countField;
    var packetCount := FromBytes(packetCountRaw);
    if packetCount > MAX_MANIFEST_PACKET_COUNT {
      return Err("packet_count exceeds configured maximum");
    }
    var words :- ReadWords(blob, o4, packetCount);
    var (commitments, o5) := words;
    var rootField :- ReadExact(blob, o5, 32);
    var (packetsRoot, o6) := rootField;
    if o6 != |blob| {
      return Err("truncated payload");
    }
    var manifest := BucketManifest(FromBytes(epochRaw), FromBytes(bucketIdRaw), commitments, packetsRoot);
    var ok := VerifyBucketManifest(H, manifest);
    if !ok {
      return Err("packets_root mismatch");
    }
    r := Ok(manifest);
  }
}
