/** Multi-key proofs of `pbt-rs/src/tree.rs`, and their agreement with the Python ones. */
module RustBatch {
  import opened Basics
  import opened History
  import opened Merkle
  import opened Order
  import opened Batch
  import opened Wire
  import opened RustTree

  function StoredProofs(root: RNode, keys: seq<Bytes>, h: TreeHasher): seq<MerkleProof>
    requires AllLongEnough(keys)
  {
    seq(|keys|, i requires 0 <= i < |keys| => StoredProof(root, keys[i], h))
  }

  /** The batch that `get_multi_proof` builds from the stored hashes. */
  function StoredBatch(root: RNode, keys: seq<Bytes>, h: TreeHasher): BatchMerkleProof
    requires AllLongEnough(SortedSet(keys))
  {
    var ordered := SortedSet(keys);
    var proofs := StoredProofs(root, ordered, h);
    BatchMerkleProof(ordered, ProofValuesOf(proofs), proofs, SortedSet(SiblingsOf(proofs)), Range(|ordered|))
  }

  /** After every history the two clients build the same batch for the same keys. */
  lemma BatchesAgree(ops: seq<Op>, keys: seq<Bytes>, h: TreeHasher)
    requires AllLongEnough(SortedSet(keys)) && PairIsConcat(h)
    ensures StoredBatch(RRun(ops, h), keys, h) == HonestBatch(h.hash, Run(ops), keys)
  {
    hide HonestProof, StoredProof;
    var root, ordered := RRun(ops, h), SortedSet(keys);
    forall i | 0 <= i < |ordered|
      ensures StoredProof(root, ordered[i], h) == HonestProof(h.hash, Run(ops), ordered[i])
    {
      StoredProofIsHonest(root, ordered[i], h);
    }
    assert StoredProofs(root, ordered, h) == HonestProofs(h.hash, Run(ops), ordered);
  }

  /** `Tree::get_multi_proof` */
  method GetMultiProof(tree: OwnedTree, keys: seq<Bytes>) returns (r: Result<BatchMerkleProof>)
    requires tree.Valid()
    ensures r.Ok? <==> AllLongEnough(SortedSet(keys))
    ensures r.Ok? ==> r.value == StoredBatch(tree.root, keys, tree.hasher)
    ensures r.Ok? ==> CanonicallySorted(r.value, keys)
  {
    hide StoredProof, HonestProof;
    var ordered := SortedSet(keys);
    var proofs: seq<MerkleProof> := [];
    var values: seq<Bytes> := [];
    var siblings: seq<Bytes> := [];
    for i := 0 to |ordered|
      invariant AllLongEnough(ordered[..i])
      invariant proofs == StoredProofs(tree.root, ordered[..i], tree.hasher)
      invariant values == ProofValuesOf(proofs) && siblings == SiblingsOf(proofs)
    {
      var proof := tree.GetProof(ordered[i]);
      assert ordered[i] in ordered;
      if proof.Err? {
        return Err(proof.reason);
      }
      PartsAppend(proofs, proof.value);
      StoredProofsAppend(tree.root, ordered, tree.hasher, i);
      values := values + [proof.value.value];
      siblings := siblings + proof.value.pathSiblings;
      proofs := proofs + [proof.value];
    }
    assert ordered[..|ordered|] == ordered;
    BuiltBatchIsSorted(keys, proofs, values);
    r := Ok(BatchMerkleProof(ordered, values, proofs, SortedSet(siblings), Range(|ordered|)));
  }

  lemma StoredProofsAppend(root: RNode, keys: seq<Bytes>, h: TreeHasher, i: nat)
    requires i < |keys| && AllLongEnough(keys[..i]) && |keys[i]| >= 2
    ensures AllLongEnough(keys[..i + 1])
    ensures StoredProofs(root, keys[..i + 1], h) == StoredProofs(root, keys[..i], h) + [StoredProof(root, keys[i], h)]
  {
    hide StoredProof;
  }

  /** `windows(2).any(|w| w[0] >= w[1])` is false. */
  predicate StepsUp(keys: seq<Bytes>) {
    forall i :: 0 <= i < |keys| - 1 ==> LexLeq(keys[i], keys[i + 1]) && keys[i] != keys[i + 1]
  }

  /** Comparing neighbours is enough. */
  lemma {:induction false} StepsUpIsStrict(keys: seq<Bytes>)
    ensures StepsUp(keys) <==> StrictlyAscending(keys)
  {
    hide LexLeq;
    if StepsUp(keys) && keys != [] {
      var before, n := keys[..|keys| - 1], |keys| - 1;
      StepsUpIsStrict(before);
      forall i | 0 <= i < n
        ensures LexLeq(keys[i], keys[n]) && keys[i] != keys[n]
      {
        if i < n - 1 {
          assert LexLeq(before[i], before[n - 1]) && before[i] != before[n - 1];
          LexTransitive(keys[i], keys[n - 1], keys[n]);
          LexTotal(keys[n - 1], keys[n]);
        }
      }
    }
  }

  /** `Tree::verify_multi_proof`: the batches that the Python verifier accepts, as long as every path
      bit is 0 or 1; short keys make it answer false where the other one raises. */
  method VerifyMultiProof(rootHash: Word, batch: BatchMerkleProof, h: TreeHasher) returns (ok: bool)
    ensures ok <==> BatchVerifies(h.hash, rootHash, batch)
                    && forall proof <- batch.proofs :: BitsOnly(proof.pathBits)
  {
    hide LexLeq, Verifies, BitsOnly, StrictlyAscending;
    hide StrictlyInByteOrder, InByteOrder, ByteOrder, Ascending;
    StepsUpIsStrict(batch.keys);
    AscendingMeans(batch.keys);
    IsAscendingMeans(batch.deduplicatedSiblings);
    if !StepsUp(batch.keys) {
      return false;
    }
    var n := |batch.keys|;
    if |batch.values| != n || |batch.proofs| != n || |batch.keyToProofIndex| != n {
      return false;
    }
    if batch.keyToProofIndex != Range(n) {
      return false;
    }
    if !IsAscending(batch.deduplicatedSiblings) {
      return false;
    }
    for i := 0 to n
      invariant forall j :: 0 <= j < i ==>
        && batch.proofs[j].key == batch.keys[j] && batch.proofs[j].value == batch.values[j]
        && |batch.keys[j]| >= 2 && Verifies(h.hash, rootHash, batch.proofs[j])
        && BitsOnly(batch.proofs[j].pathBits)
    {
      var proof := batch.proofs[i];
      assert proof in batch.proofs && batch.keys[i] in batch.keys;
      if proof.key != batch.keys[i] {
        return false;
      }
      if proof.value != batch.values[i] {
        return false;
      }
      var verified := VerifyProofWithHasher(rootHash, proof, h);
      if !verified {
        return false;
      }
    }
    ok := true;
  }
}
