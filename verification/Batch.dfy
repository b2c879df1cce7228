/** Multi-key proofs: canonical ordering, deduplication, and what an accepted batch proves. */
module Batch {
  import opened Basics
  import opened Order
  import opened StemTree
  import opened History
  import opened Merkle

  datatype BatchMerkleProof = BatchMerkleProof(
    keys: seq<Bytes>,
    values: seq<Bytes>,
    proofs: seq<MerkleProof>,
    deduplicatedSiblings: seq<Bytes>,
    keyToProofIndex: seq<int>)

  /** `list(range(n))` */
  function Range(n: nat): (r: seq<int>)
    ensures |r| == n && forall i :: 0 <= i < n ==> r[i] == i
  {
    seq(n, i => i)
  }

  function SiblingsOf(proofs: seq<MerkleProof>): seq<Bytes> {
    if proofs == [] then [] else SiblingsOf(proofs[..|proofs| - 1]) + proofs[|proofs| - 1].pathSiblings
  }

  predicate AllLongEnough(keys: seq<Bytes>) {
    forall key <- keys :: |key| >= 2
  }

  function HonestProofs(H: Hasher, root: Tree, keys: seq<Bytes>): seq<MerkleProof>
    requires AllLongEnough(keys)
  {
    seq(|keys|, i requires 0 <= i < |keys| => HonestProof(H, root, keys[i]))
  }

  function ProofValuesOf(proofs: seq<MerkleProof>): seq<Bytes> {
    seq(|proofs|, i requires 0 <= i < |proofs| => proofs[i].value)
  }

  lemma PartsAppend(proofs: seq<MerkleProof>, proof: MerkleProof)
    ensures ProofValuesOf(proofs + [proof]) == ProofValuesOf(proofs) + [proof.value]
    ensures SiblingsOf(proofs + [proof]) == SiblingsOf(proofs) + proof.pathSiblings
  {
  }

  lemma HonestProofsAppend(H: Hasher, root: Tree, keys: seq<Bytes>, i: nat)
    requires i < |keys| && AllLongEnough(keys[..i]) && |keys[i]| >= 2
    ensures AllLongEnough(keys[..i + 1])
    ensures HonestProofs(H, root, keys[..i + 1]) == HonestProofs(H, root, keys[..i]) + [HonestProof(H, root, keys[i])]
  {
  }

  /** The batch that `get_multi_proof` builds. */
  function HonestBatch(H: Hasher, root: Tree, keys: seq<Bytes>): BatchMerkleProof
    requires AllLongEnough(SortedSet(keys))
  {
    var ordered := SortedSet(keys);
    var proofs := HonestProofs(H, root, ordered);
    BatchMerkleProof(ordered, ProofValuesOf(proofs), proofs, SortedSet(SiblingsOf(proofs)), Range(|ordered|))
  }

  /** The requested keys and the siblings of the proofs, each once, in the order of their bytes. */
  ghost predicate CanonicallySorted(batch: BatchMerkleProof, keys: seq<Bytes>) {
    && StrictlyInByteOrder(batch.keys) && (forall key :: key in batch.keys <==> key in keys)
    && StrictlyInByteOrder(batch.deduplicatedSiblings)
    && (forall x :: x in batch.deduplicatedSiblings <==> exists proof <- batch.proofs :: x in proof.pathSiblings)
  }

  lemma {:induction false} SiblingsOfMeans(proofs: seq<MerkleProof>, x: Bytes)
    ensures x in SiblingsOf(proofs) <==> exists proof <- proofs :: x in proof.pathSiblings
  {
    if proofs != [] {
      var before, last := proofs[..|proofs| - 1], proofs[|proofs| - 1];
      SiblingsOfMeans(before, x);
      assert proofs == before + [last];
    }
  }

  lemma BuiltBatchIsSorted(keys: seq<Bytes>, proofs: seq<MerkleProof>, values: seq<Bytes>)
    ensures var ordered := SortedSet(keys);
            var siblings := SortedSet(SiblingsOf(proofs));
            CanonicallySorted(BatchMerkleProof(ordered, values, proofs, siblings, Range(|ordered|)), keys)
  {
    hide StrictlyInByteOrder;
    SortedSetSorts(keys);
    SortedSetSorts(SiblingsOf(proofs));
    AscendingMeans(SortedSet(keys));
    AscendingMeans(SortedSet(SiblingsOf(proofs)));
    forall x: Bytes
      ensures x in SortedSet(SiblingsOf(proofs)) <==> exists proof <- proofs :: x in proof.pathSiblings
    {
      SiblingsOfMeans(proofs, x);
    }
  }

  /** The order and the repetition of the requested keys do not matter. */
  lemma BatchIsCanonical(H: Hasher, root: Tree, keys1: seq<Bytes>, keys2: seq<Bytes>)
    requires forall key :: key in keys1 <==> key in keys2
    requires AllLongEnough(keys1)
    ensures AllLongEnough(SortedSet(keys1)) && AllLongEnough(SortedSet(keys2))
    ensures HonestBatch(H, root, keys1) == HonestBatch(H, root, keys2)
  {
    SortedSetSorts(keys1);
    SortedSetSorts(keys2);
    AscendingIsUnique(SortedSet(keys1), SortedSet(keys2));
  }

  ghost predicate Aligned(batch: BatchMerkleProof) {
    var n := |batch.keys|;
    && StrictlyInByteOrder(batch.keys)
    && |batch.values| == n && |batch.proofs| == n && batch.keyToProofIndex == Range(n)
    && InByteOrder(batch.deduplicatedSiblings)
    && forall i :: 0 <= i < n ==>
         batch.proofs[i].key == batch.keys[i] && batch.proofs[i].value == batch.values[i]
  }

  /** A batch is accepted when it is canonically ordered and aligned and every proof verifies. */
  ghost predicate BatchVerifies(H: Hasher, root: Bytes, batch: BatchMerkleProof) {
    && Aligned(batch)
    && AllLongEnough(batch.keys)
    && forall i :: 0 <= i < |batch.proofs| ==> Verifies(H, root, batch.proofs[i])
  }

  /** Every check of the batch as a whole holds, and the parts before `i` are in place and verify. */
  ghost predicate SoundUpTo(H: Hasher, root: Bytes, batch: BatchMerkleProof, i: nat) {
    var n := |batch.keys|;
    && StrictlyInByteOrder(batch.keys)
    && |batch.values| == n && |batch.proofs| == n && batch.keyToProofIndex == Range(n)
    && InByteOrder(batch.deduplicatedSiblings)
    && i <= n
    && forall j :: 0 <= j < i ==>
         InPlace(batch, j) && |batch.keys[j]| >= 2 && Verifies(H, root, batch.proofs[j])
  }

  predicate InPlace(batch: BatchMerkleProof, i: nat)
    requires i < |batch.keys| && i < |batch.values| && i < |batch.proofs|
  {
    batch.proofs[i].key == batch.keys[i] && batch.proofs[i].value == batch.values[i]
  }

  /** The key at `i` is too short, and no check before its proof fails. */
  ghost predicate ShortKeyReached(H: Hasher, root: Bytes, batch: BatchMerkleProof, i: nat) {
    SoundUpTo(H, root, batch, i) && i < |batch.keys| && InPlace(batch, i) && |batch.keys[i]| < 2
  }

  lemma NoSoundStart(H: Hasher, root: Bytes, batch: BatchMerkleProof)
    requires !SoundUpTo(H, root, batch, 0)
    ensures !BatchVerifies(H, root, batch) && forall i :: !ShortKeyReached(H, root, batch, i)
  {
    hide Verifies, StrictlyInByteOrder, InByteOrder;
  }

  /** The part at `i` is out of place, or its proof does not verify. */
  lemma StopsHere(H: Hasher, root: Bytes, batch: BatchMerkleProof, i: nat)
    requires SoundUpTo(H, root, batch, i) && i < |batch.keys|
    requires InPlace(batch, i) ==> |batch.proofs[i].key| >= 2 && !Verifies(H, root, batch.proofs[i])
    ensures !BatchVerifies(H, root, batch) && forall k :: !ShortKeyReached(H, root, batch, k)
  {
    hide Verifies, StrictlyInByteOrder, InByteOrder;
    assert !SoundUpTo(H, root, batch, i + 1);
  }

  lemma RaisesHere(H: Hasher, root: Bytes, batch: BatchMerkleProof, i: nat)
    requires ShortKeyReached(H, root, batch, i)
    ensures !BatchVerifies(H, root, batch)
  {
    hide Verifies, StrictlyInByteOrder, InByteOrder;
    assert batch.keys[i] in batch.keys;
  }

  lemma SoundToTheEnd(H: Hasher, root: Bytes, batch: BatchMerkleProof)
    requires SoundUpTo(H, root, batch, |batch.keys|)
    ensures BatchVerifies(H, root, batch) && forall i :: !ShortKeyReached(H, root, batch, i)
  {
    hide Verifies, StrictlyInByteOrder, InByteOrder;
  }

  /** `verify_multi_proof`. It raises exactly when it reaches a key of fewer than two bytes; it accepts
      exactly the batches described by `BatchVerifies`. */
  method VerifyMultiProof(H: Hasher, root: Bytes, batch: BatchMerkleProof) returns (r: Result<bool>)
    ensures r == Ok(true) <==> BatchVerifies(H, root, batch)
    ensures r.Err? <==> exists i :: ShortKeyReached(H, root, batch, i)
  {
    hide Verifies, StrictlyAscending, BatchVerifies, ShortKeyReached, IsAscending, SortedSet;
    hide StrictlyInByteOrder, InByteOrder, Ascending, ByteOrder;
    SortedSetFixpoint(batch.keys);
    AscendingMeans(batch.keys);
    IsAscendingMeans(batch.deduplicatedSiblings);
    if !SoundUpTo(H, root, batch, 0) {
      NoSoundStart(H, root, batch);
    }
    if batch.keys != SortedSet(batch.keys) {
      return Ok(false);
    }
    var n := |batch.keys|;
    if |batch.values| != n || |batch.proofs| != n || |batch.keyToProofIndex| != n {
      return Ok(false);
    }
    if batch.keyToProofIndex != Range(n) {
      return Ok(false);
    }
    if !IsAscending(batch.deduplicatedSiblings) {
      return Ok(false);
    }
    for i := 0 to n
      invariant SoundUpTo(H, root, batch, i)
    {
      var proof := batch.proofs[i];
      if proof.key != batch.keys[i] || proof.value != batch.values[i] {
        StopsHere(H, root, batch, i);
        return Ok(false);
      }
      var ok := VerifyProof(H, root, proof);
      if ok.Err? {
        ReachedHere(H, root, batch, i);
        RaisesHere(H, root, batch, i);
        return Err(ok.reason);
      }
      if !ok.value {
        StopsHere(H, root, batch, i);
        return Ok(false);
      }
    }
    SoundToTheEnd(H, root, batch);
    r := Ok(true);
  }

  lemma ReachedHere(H: Hasher, root: Bytes, batch: BatchMerkleProof, i: nat)
    requires SoundUpTo(H, root, batch, i) && i < |batch.keys| && InPlace(batch, i) && |batch.keys[i]| < 2
    ensures ShortKeyReached(H, root, batch, i)
  {
  }

  /** What acceptance of a batch of safe widths proves: every value is the tree's own, or some proof
      of the batch exhibits a collision. */
  lemma AcceptedBatchIsHonest(H: Hasher, root: Tree, batch: BatchMerkleProof)
    requires Canonical(root, []) && BatchVerifies(H, TreeHash(H, root), batch)
    requires forall proof <- batch.proofs :: SafeWidths(root, proof)
    requires forall proof <- batch.proofs :: |proof.key| >= 2 && |proof.pathSiblings| == |proof.pathBits|
    requires forall proof <- batch.proofs :: !Collision(H, Payloads(H, root), ProofPayloads(H, proof))
    ensures forall i :: 0 <= i < |batch.keys| ==>
              && Prefix(batch.keys[i]) in Stems(root)
              && GetKey(root, batch.keys[i]) == Ok(batch.values[i])
              && Normal(batch.proofs[i]) == HonestProof(H, root, batch.keys[i])
  {
    forall i | 0 <= i < |batch.keys|
      ensures && Prefix(batch.keys[i]) in Stems(root)
              && GetKey(root, batch.keys[i]) == Ok(batch.values[i])
              && Normal(batch.proofs[i]) == HonestProof(H, root, batch.keys[i])
    {
      assert batch.proofs[i] in batch.proofs;
      AcceptedProofIsHonest(H, root, batch.proofs[i]);
    }
  }

  /** The batch with path bits spelled as 0 and 1. */
  function NormalBatch(batch: BatchMerkleProof): BatchMerkleProof {
    batch.(proofs := NormalProofs(batch.proofs))
  }

  function NormalProofs(proofs: seq<MerkleProof>): seq<MerkleProof> {
    seq(|proofs|, i requires 0 <= i < |proofs| => Normal(proofs[i]))
  }

  /** All that acceptance leaves open about a batch of safe widths is its list of deduplicated siblings,
      which is only checked for order: the batch is the tree's own if and only if that list is. */
  lemma AcceptedBatchExactly(H: Hasher, root: Tree, batch: BatchMerkleProof)
    requires Canonical(root, []) && BatchVerifies(H, TreeHash(H, root), batch)
    requires forall proof <- batch.proofs :: SafeWidths(root, proof)
    requires forall proof <- batch.proofs :: |proof.key| >= 2 && |proof.pathSiblings| == |proof.pathBits|
    requires forall proof <- batch.proofs :: !Collision(H, Payloads(H, root), ProofPayloads(H, proof))
    ensures AllLongEnough(SortedSet(batch.keys))
    ensures NormalBatch(batch) == HonestBatch(H, root, batch.keys)
       <==> batch.deduplicatedSiblings == SortedSet(SiblingsOf(batch.proofs))
  {
    hide Verifies, Collision, HonestProofs, NormalBatch, SafeWidths, BatchVerifies, SortedSet, Canonical, SiblingsOf;
    WhatAcceptanceFixes(H, TreeHash(H, root), batch);
    SameParts(H, root, batch);
    SiblingsOfNormal(batch.proofs);
    NormalBatchParts(batch);
  }

  lemma NormalBatchParts(batch: BatchMerkleProof)
    ensures NormalBatch(batch) == batch.(proofs := NormalProofs(batch.proofs))
  {
  }

  /** Up to the spelling of bits, the proofs and the values of an accepted batch are the tree's own. */
  lemma SameParts(H: Hasher, root: Tree, batch: BatchMerkleProof)
    requires Canonical(root, []) && BatchVerifies(H, TreeHash(H, root), batch)
    requires forall proof <- batch.proofs :: SafeWidths(root, proof)
    requires forall proof <- batch.proofs :: |proof.key| >= 2 && |proof.pathSiblings| == |proof.pathBits|
    requires forall proof <- batch.proofs :: !Collision(H, Payloads(H, root), ProofPayloads(H, proof))
    ensures AllLongEnough(batch.keys)
    ensures NormalProofs(batch.proofs) == HonestProofs(H, root, batch.keys)
    ensures ProofValuesOf(HonestProofs(H, root, batch.keys)) == batch.values
  {
    hide Verifies, Collision, HonestProof, Normal, SafeWidths, BatchVerifies, SortedSet, Canonical;
    AcceptedBatchIsHonest(H, root, batch);
    WhatAcceptanceFixes(H, TreeHash(H, root), batch);
    var honest := HonestProofs(H, root, batch.keys);
    assert NormalProofs(batch.proofs) == honest;
    forall i | 0 <= i < |batch.keys| ensures honest[i].value == batch.values[i] {
      HonestProofExactly(H, root, batch.keys[i]);
    }
    assert ProofValuesOf(honest) == batch.values;
  }

  lemma WhatAcceptanceFixes(H: Hasher, root: Bytes, batch: BatchMerkleProof)
    requires BatchVerifies(H, root, batch)
    ensures |batch.values| == |batch.proofs| == |batch.keys| && batch.keyToProofIndex == Range(|batch.keys|)
    ensures batch.keys == SortedSet(batch.keys) && AllLongEnough(batch.keys)
  {
    hide Verifies;
    SortedSetFixpoint(batch.keys);
    AscendingMeans(batch.keys);
  }

  lemma {:induction false} SiblingsOfNormal(proofs: seq<MerkleProof>)
    ensures SiblingsOf(NormalProofs(proofs)) == SiblingsOf(proofs)
  {
    if proofs != [] {
      var before := proofs[..|proofs| - 1];
      SiblingsOfNormal(before);
      assert NormalProofs(proofs)[..|proofs| - 1] == NormalProofs(before);
    }
  }

  /** Any other ascending list would be accepted in its place. */
  lemma DeduplicatedSiblingsAreFree(H: Hasher, root: Bytes, batch: BatchMerkleProof, siblings: seq<Bytes>)
    requires BatchVerifies(H, root, batch) && InByteOrder(siblings)
    ensures BatchVerifies(H, root, batch.(deduplicatedSiblings := siblings))
  {
    hide Verifies, InByteOrder, StrictlyInByteOrder;
  }

  /** The tree and its own proof for `key` hash two colliding byte strings. */
  ghost predicate HonestCollision(H: Hasher, root: Tree, key: Bytes)
    requires |key| >= 2
  {
    PathSiblingsLength(H, root, Prefix(key), 0);
    Collision(H, Payloads(H, root), ProofPayloads(H, HonestProof(H, root, key)))
  }

  /** Every part of an honest batch is an honest proof of a requested key, in canonical order. */
  lemma HonestBatchParts(H: Hasher, root: Tree, keys: seq<Bytes>)
    requires Canonical(root, []) && AllLongEnough(keys)
    ensures AllLongEnough(SortedSet(keys))
    ensures var batch := HonestBatch(H, root, keys);
            && Aligned(batch)
            && (forall i :: 0 <= i < |batch.keys| ==> batch.proofs[i] == HonestProof(H, root, batch.keys[i]))
            && (forall key :: key in batch.keys <==> key in keys)
            && StrictlyInByteOrder(batch.deduplicatedSiblings)
            && (forall x :: x in batch.deduplicatedSiblings <==> x in SiblingsOf(batch.proofs))
  {
    SortedSetSorts(keys);
    var siblings := SiblingsOf(HonestProofs(H, root, SortedSet(keys)));
    SortedSetSorts(siblings);
    AscendingMeans(SortedSet(keys));
    AscendingMeans(SortedSet(siblings));
  }

  /** `get_multi_proof` verifies when every requested stem is in the tree, and otherwise only
      through a collision. */
  lemma HonestBatchExactly(H: Hasher, root: Tree, keys: seq<Bytes>)
    requires Canonical(root, []) && AllLongEnough(keys)
    ensures AllLongEnough(SortedSet(keys))
    ensures (forall key <- keys :: Prefix(key) in Stems(root)) ==>
              BatchVerifies(H, TreeHash(H, root), HonestBatch(H, root, keys))
    ensures BatchVerifies(H, TreeHash(H, root), HonestBatch(H, root, keys)) ==>
              forall key <- keys :: Prefix(key) in Stems(root) || HonestCollision(H, root, key)
  {
    HonestBatchParts(H, root, keys);
    forall key | key in keys
      ensures Prefix(key) in Stems(root) ==> Verifies(H, TreeHash(H, root), HonestProof(H, root, key))
      ensures Verifies(H, TreeHash(H, root), HonestProof(H, root, key)) ==>
                Prefix(key) in Stems(root) || HonestCollision(H, root, key)
    {
      HonestProofExactly(H, root, key);
    }
    HonestBatchFollows(H, root, HonestBatch(H, root, keys));
  }

  lemma HonestBatchFollows(H: Hasher, root: Tree, batch: BatchMerkleProof)
    requires Aligned(batch) && AllLongEnough(batch.keys)
    requires forall i :: 0 <= i < |batch.keys| ==> batch.proofs[i] == HonestProof(H, root, batch.keys[i])
    ensures BatchVerifies(H, TreeHash(H, root), batch)
       <==> forall key <- batch.keys :: Verifies(H, TreeHash(H, root), HonestProof(H, root, key))
  {
  }
}
