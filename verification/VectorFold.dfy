/** `pbt-rs/src/proof_format.rs`: proofs that commit to every intermediate hash of a path. */
module VectorFold {
  import opened Basics
  import opened StemTree
  import opened History
  import opened Merkle
  import opened RustTree

  datatype ProofMode = Blake3 | Poseidon2 | GeminiHash

  /** `hash_stem` and `tree_hash` of one mode. */
  datatype ModeHash = ModeHash(stem: (Bytes, Values) -> Word, pair: (Word, Word) -> Word)

  datatype FoldStep = FoldStep(foldFactor: byte, commitment: Word, proofData: Bytes)

  /** Steps run from the stem upward. */
  datatype VectorFoldProof = VectorFoldProof(
    key: Bytes,
    value: Word,
    stemValues: Values,
    pathFolds: seq<FoldStep>,
    finalRoot: Word,
    mode: ProofMode)

  function FoldPair(m: ModeHash, current: Word, sibling: Word, bit: int): Word {
    if bit == 0 then m.pair(current, sibling) else m.pair(sibling, current)
  }

  /** The fold of a classic path, siblings and bits from the root downward. */
  function PairFold(m: ModeHash, leaf: Word, siblings: seq<Word>, bits: seq<int>): Word
    requires |siblings| == |bits|
  {
    if siblings == [] then leaf
    else FoldPair(m, PairFold(m, leaf, siblings[1..], bits[1..]), siblings[0], bits[0])
  }

  predicate WellShaped(step: FoldStep) {
    step.foldFactor == 2 && |step.proofData| == 33 && step.proofData[0] < 2
  }

  predicate AllShaped(steps: seq<FoldStep>) {
    forall i :: 0 <= i < |steps| ==> WellShaped(steps[i])
  }

  /** The classic path that the steps spell, turned to run from the root downward. */
  function SiblingsOf(steps: seq<FoldStep>): (siblings: seq<Word>)
    requires AllShaped(steps)
    ensures |siblings| == |steps|
  {
    if steps == [] then []
    else [Sibling(steps[|steps| - 1])] + SiblingsOf(steps[..|steps| - 1])
  }

  function Sibling(step: FoldStep): Word
    requires WellShaped(step)
  {
    step.proofData[1..]
  }

  function Bit(step: FoldStep): bit
    requires WellShaped(step)
  {
    step.proofData[0]
  }

  function BitsOf(steps: seq<FoldStep>): (bits: seq<bit>)
    requires AllShaped(steps)
    ensures |bits| == |steps|
  {
    if steps == [] then [] else [Bit(steps[|steps| - 1])] + BitsOf(steps[..|steps| - 1])
  }

  /** The fold of the path that the steps spell. */
  function StepsFold(m: ModeHash, leaf: Word, steps: seq<FoldStep>): Word
    requires AllShaped(steps)
  {
    PairFold(m, leaf, SiblingsOf(steps), BitsOf(steps))
  }

  /** The commitments are precisely the intermediate folds of the path the steps spell. */
  ghost predicate CommitsToFolds(m: ModeHash, leaf: Word, steps: seq<FoldStep>) {
    && AllShaped(steps)
    && forall i :: 0 <= i < |steps| ==> steps[i].commitment == StepsFold(m, leaf, steps[..i + 1])
  }

  ghost predicate Accepted(modes: ProofMode -> ModeHash, proof: VectorFoldProof) {
    var m := modes(proof.mode);
    && proof.mode != Blake3
    && |proof.key| >= 2 && proof.stemValues[Subindex(proof.key)] == proof.value
    && CommitsToFolds(m, m.stem(Prefix(proof.key), proof.stemValues), proof.pathFolds)
    && proof.finalRoot == StepsFold(m, m.stem(Prefix(proof.key), proof.stemValues), proof.pathFolds)
  }

  /** `verify_vector_fold_proof` */
  method VerifyVectorFoldProof(modes: ProofMode -> ModeHash, proof: VectorFoldProof) returns (ok: bool)
    ensures ok <==> Accepted(modes, proof)
  {
    if proof.mode != GeminiHash && proof.mode != Poseidon2 {
      return false;
    }
    var m := modes(proof.mode);
    var split := SplitKey(proof.key);
    if split.Err? {
      return false;
    }
    var (prefix, subindex) := split.value;
    if proof.stemValues[subindex] != proof.value {
      return false;
    }
    var leaf := m.stem(prefix, proof.stemValues);
    var current := leaf;
    var steps := proof.pathFolds;
    for i := 0 to |steps|
      invariant CommitsToFolds(m, leaf, steps[..i])
      invariant current == StepsFold(m, leaf, steps[..i])
    {
      var step := steps[i];
      if step.foldFactor != 2 {
        return false;
      }
      if |step.proofData| != 33 {
        return false;
      }
      var bit := step.proofData[0];
      if bit != 0 && bit != 1 {
        return false;
      }
      var sibling: Word := step.proofData[1..33];
      assert sibling == Sibling(step);
      OneMoreStep(m, leaf, steps, i);
      var expected := if bit == 0 then m.pair(current, sibling) else m.pair(sibling, current);
      if expected != step.commitment {
        return false;
      }
      current := expected;
    }
    assert steps[..|steps|] == steps;
    ok := current == proof.finalRoot;
  }

  lemma FoldOfOneMore(m: ModeHash, leaf: Word, steps: seq<FoldStep>)
    requires steps != [] && AllShaped(steps)
    ensures AllShaped(steps[..|steps| - 1])
    ensures var last := steps[|steps| - 1];
            StepsFold(m, leaf, steps) == FoldPair(m, StepsFold(m, leaf, steps[..|steps| - 1]), Sibling(last), Bit(last))
  {
  }

  lemma OneMoreStep(m: ModeHash, leaf: Word, steps: seq<FoldStep>, i: nat)
    requires i < |steps| && CommitsToFolds(m, leaf, steps[..i]) && WellShaped(steps[i])
    ensures AllShaped(steps[..i + 1])
    ensures StepsFold(m, leaf, steps[..i + 1])
         == FoldPair(m, StepsFold(m, leaf, steps[..i]), Sibling(steps[i]), Bit(steps[i]))
    ensures CommitsToFolds(m, leaf, steps[..i + 1])
       <==> steps[i].commitment == StepsFold(m, leaf, steps[..i + 1])
  {
    hide StepsFold, FoldPair;
    var more := steps[..i + 1];
    assert more[..i] == steps[..i];
    assert AllShaped(more) by {
      forall j | 0 <= j <= i ensures WellShaped(more[j]) {
        assert j < i ==> more[j] == steps[..i][j];
      }
    }
    FoldOfOneMore(m, leaf, more);
    forall j | 0 <= j < i
      ensures more[j].commitment == StepsFold(m, leaf, more[..j + 1])
    {
      assert more[..j + 1] == steps[..i][..j + 1];
      assert more[j] == steps[..i][j];
    }
    assert more[..i + 1] == more && more[i] == steps[i];
  }

  lemma PrefixCommits(m: ModeHash, leaf: Word, steps: seq<FoldStep>, n: nat)
    requires CommitsToFolds(m, leaf, steps) && n <= |steps|
    ensures CommitsToFolds(m, leaf, steps[..n])
  {
    hide StepsFold;
    forall j | 0 <= j < n
      ensures steps[..n][j].commitment == StepsFold(m, leaf, steps[..n][..j + 1])
    {
      assert steps[..n][..j + 1] == steps[..j + 1];
    }
  }

  // ---------- steps and classic paths ----------

  /** The steps of a classic path. */
  function StepsOf(m: ModeHash, leaf: Word, siblings: seq<Word>, bits: seq<bit>): (steps: seq<FoldStep>)
    requires |siblings| == |bits|
    ensures |steps| == |siblings|
  {
    if siblings == [] then []
    else
      StepsOf(m, leaf, siblings[1..], bits[1..])
      + [FoldStep(2, PairFold(m, leaf, siblings, bits), [bits[0]] + siblings[0])]
  }

  lemma StepsOfOneMore(m: ModeHash, leaf: Word, siblings: seq<Word>, bits: seq<bit>)
    requires |siblings| == |bits| && siblings != []
    ensures var step := FoldStep(2, PairFold(m, leaf, siblings, bits), [bits[0]] + siblings[0]);
            && StepsOf(m, leaf, siblings, bits) == StepsOf(m, leaf, siblings[1..], bits[1..]) + [step]
            && WellShaped(step) && Sibling(step) == siblings[0] && Bit(step) == bits[0]
  {
  }

  lemma SpelledPath(steps: seq<FoldStep>)
    requires AllShaped(steps) && steps != []
    ensures var last, before := steps[|steps| - 1], steps[..|steps| - 1];
            && AllShaped(before)
            && SiblingsOf(steps) == [Sibling(last)] + SiblingsOf(before)
            && BitsOf(steps) == [Bit(last)] + BitsOf(before)
            && SiblingsOf(steps)[1..] == SiblingsOf(before) && BitsOf(steps)[1..] == BitsOf(before)
            && last.proofData == [Bit(last)] + Sibling(last)
            && steps == before + [last]
  {
  }

  lemma {:induction false} StepsSpell(m: ModeHash, leaf: Word, siblings: seq<Word>, bits: seq<bit>)
    requires |siblings| == |bits|
    ensures AllShaped(StepsOf(m, leaf, siblings, bits))
    ensures SiblingsOf(StepsOf(m, leaf, siblings, bits)) == siblings
    ensures BitsOf(StepsOf(m, leaf, siblings, bits)) == bits
  {
    if siblings != [] {
      hide StepsOf, PairFold, SiblingsOf, BitsOf, Sibling, Bit, WellShaped;
      StepsSpell(m, leaf, siblings[1..], bits[1..]);
      StepsOfOneMore(m, leaf, siblings, bits);
      SpelledPath(StepsOf(m, leaf, siblings, bits));
      assert siblings == [siblings[0]] + siblings[1..];
      assert bits == [bits[0]] + bits[1..];
    }
  }

  /** The steps of a path spell that path and commit to its folds. */
  lemma {:induction false} StepsSpellPath(m: ModeHash, leaf: Word, siblings: seq<Word>, bits: seq<bit>)
    requires |siblings| == |bits|
    ensures CommitsToFolds(m, leaf, StepsOf(m, leaf, siblings, bits))
    ensures SiblingsOf(StepsOf(m, leaf, siblings, bits)) == siblings
    ensures BitsOf(StepsOf(m, leaf, siblings, bits)) == bits
  {
    StepsSpell(m, leaf, siblings, bits);
    if siblings != [] {
      hide StepsOf, PairFold, FoldPair, SiblingsOf, BitsOf, Sibling, Bit, WellShaped;
      var steps := StepsOf(m, leaf, siblings, bits);
      StepsSpellPath(m, leaf, siblings[1..], bits[1..]);
      StepsOfOneMore(m, leaf, siblings, bits);
      var n := |steps| - 1;
      assert steps[..n] == StepsOf(m, leaf, siblings[1..], bits[1..]);
      assert steps[..n + 1] == steps;
      OneMoreStep(m, leaf, steps, n);
    }
  }

  /** Steps that commit to their folds are the steps of the path they spell, and of no other. */
  lemma {:induction false} CommittedStepsAreSteps(m: ModeHash, leaf: Word, steps: seq<FoldStep>)
    requires CommitsToFolds(m, leaf, steps)
    ensures steps == StepsOf(m, leaf, SiblingsOf(steps), BitsOf(steps))
  {
    if steps != [] {
      hide PairFold, SiblingsOf, BitsOf, Sibling, Bit, StepsOf;
      var n := |steps| - 1;
      PrefixCommits(m, leaf, steps, n);
      CommittedStepsAreSteps(m, leaf, steps[..n]);
      SpelledPath(steps);
      StepsOfOneMore(m, leaf, SiblingsOf(steps), BitsOf(steps));
      assert steps[..n + 1] == steps;
    }
  }

  // ---------- building ----------

  /** The fold of the path of `key` in the tree, with the hashes of `m`. */
  function TreeFold(m: ModeHash, root: RNode, key: Bytes, hasher: TreeHasher): Word
    requires |key| >= 2
  {
    StoredSiblingsLength(root, Prefix(key), 0, hasher);
    PairFold(m, m.stem(Prefix(key), ProofValues(Terminal(Shape(root), Prefix(key), 0), Prefix(key))),
             StoredSiblings(root, Prefix(key), 0, hasher),
             PathTo(Prefix(key), PathLength(Shape(root), Prefix(key), 0)))
  }

  /** The steps spell the path of the key in the tree. */
  ghost predicate CarriesPath(root: RNode, hasher: TreeHasher, proof: VectorFoldProof) {
    && |proof.key| >= 2 && AllShaped(proof.pathFolds)
    && var classic := StoredProof(root, proof.key, hasher);
       && proof.value == classic.value && proof.stemValues == classic.stemValues
       && SiblingsOf(proof.pathFolds) == classic.pathSiblings && BitsOf(proof.pathFolds) == classic.pathBits
  }

  /** `build_vector_fold_proof` succeeds exactly when the fold of the key's path in the chosen mode
      is the root hash of the tree; the proof it builds is then accepted, for that root. */
  method BuildVectorFoldProof(modes: ProofMode -> ModeHash, tree: OwnedTree, key: Bytes, mode: ProofMode)
    returns (r: Result<VectorFoldProof>)
    requires tree.Valid()
    ensures r.Ok? <==> mode != Blake3 && |key| >= 2
                       && TreeFold(modes(mode), tree.root, key, tree.hasher) == NodeHash(tree.root, tree.hasher)
    ensures r.Ok? ==> r.value.key == key && r.value.mode == mode
    ensures r.Ok? ==> Accepted(modes, r.value) && r.value.finalRoot == NodeHash(tree.root, tree.hasher)
    ensures r.Ok? ==> CarriesPath(tree.root, tree.hasher, r.value)
  {
    if mode != GeminiHash && mode != Poseidon2 {
      return Err("VectorFold proof mode requires GeminiHash or Poseidon2");
    }
    var proof :- tree.GetProof(key);
    var m := modes(mode);
    StoredSiblingsLength(tree.root, Prefix(key), 0, tree.hasher);
    ghost var siblings := StoredSiblings(tree.root, Prefix(key), 0, tree.hasher);
    ghost var bits := PathTo(Prefix(key), PathLength(Shape(tree.root), Prefix(key), 0));
    var values: Values := proof.stemValues;
    var leaf := m.stem(Prefix(proof.key), values);
    var steps := FoldPath(m, leaf, proof.pathSiblings, proof.pathBits, siblings, bits);
    var current := if steps == [] then leaf else steps[|steps| - 1].commitment;
    StepsSpellPath(m, leaf, siblings, bits);
    LastCommitment(m, leaf, siblings, bits);
    var rootHash := tree.RootHash();
    if current != rootHash {
      return Err("vector fold mode does not match tree hashing mode");
    }
    r := Ok(VectorFoldProof(proof.key, proof.value, values, steps, current, mode));
  }

  /** The loop over the path from the stem to the root. */
  method FoldPath(m: ModeHash, leaf: Word, pathSiblings: seq<Bytes>, pathBits: seq<int>,
                  ghost siblings: seq<Word>, ghost bits: seq<bit>) returns (steps: seq<FoldStep>)
    requires pathSiblings == siblings && pathBits == bits && |siblings| == |bits|
    ensures steps == StepsOf(m, leaf, siblings, bits)
  {
    steps := [];
    var current := leaf;
    var idx := |pathSiblings|;
    while idx > 0
      invariant 0 <= idx <= |pathSiblings|
      invariant steps == StepsOf(m, leaf, siblings[idx..], bits[idx..])
      invariant current == PairFold(m, leaf, siblings[idx..], bits[idx..])
    {
      idx := idx - 1;
      assert siblings[idx..][1..] == siblings[idx + 1..] && bits[idx..][1..] == bits[idx + 1..];
      var sibling: Word := pathSiblings[idx];
      var bit: bit := pathBits[idx];
      var commitment := if bit == 0 then m.pair(current, sibling) else m.pair(sibling, current);
      steps := steps + [FoldStep(2, commitment, [bit] + sibling)];
      current := commitment;
    }
    assert siblings[0..] == siblings && bits[0..] == bits;
  }

  lemma LastCommitment(m: ModeHash, leaf: Word, siblings: seq<Word>, bits: seq<bit>)
    requires |siblings| == |bits|
    ensures var steps := StepsOf(m, leaf, siblings, bits);
            PairFold(m, leaf, siblings, bits) == if steps == [] then leaf else steps[|steps| - 1].commitment
  {
  }

  // ---------- a mode that hashes like the tree ----------

  /** The Poseidon2 mode of the source: every input is tagged and handed to Blake3. */
  function Poseidon2Hasher(blake3: Hasher): Hasher {
    (x: Bytes) => blake3([112, 111, 115, 101, 105, 100, 111, 110, 50, 58] + x)
  }

  /** The tag, written out. */
  lemma Poseidon2Means(blake3: Hasher, x: Bytes)
    ensures Poseidon2Hasher(blake3)(x) == blake3(Ascii("poseidon2:") + x)
  {
    assert Ascii("poseidon2:") == [112, 111, 115, 101, 105, 100, 111, 110, 50, 58];
  }

  function Poseidon2Mode(blake3: Hasher): ModeHash {
    var H := Poseidon2Hasher(blake3);
    ModeHash((prefix: Bytes, values: Values) => H(StemPayload(prefix, values)), (l: Word, r: Word) => H(l + r))
  }

  lemma {:induction false} PairFoldIsFold(H: Hasher, m: ModeHash, leaf: Word, siblings: seq<Word>, bits: seq<int>)
    requires forall l: Word, r: Word :: m.pair(l, r) == H(l + r)
    requires |siblings| == |bits|
    ensures PairFold(m, leaf, siblings, bits) == Fold(H, leaf, siblings, bits)
  {
    if siblings != [] {
      PairFoldIsFold(H, m, leaf, siblings[1..], bits[1..]);
    }
  }

  /** The classic proof that a vector fold proof carries. */
  function ClassicProof(proof: VectorFoldProof): MerkleProof
    requires AllShaped(proof.pathFolds)
  {
    MerkleProof(proof.key, proof.value, proof.stemValues, SiblingsOf(proof.pathFolds), BitsOf(proof.pathFolds))
  }

  /** In the Poseidon2 mode an accepted vector fold proof is an accepted classic proof, and so, against
      the root of a canonical tree, the tree's own, unless it exhibits a collision. */
  lemma AcceptedVectorFoldIsHonest(modes: ProofMode -> ModeHash, blake3: Hasher, root: Tree, proof: VectorFoldProof)
    requires modes(Poseidon2) == Poseidon2Mode(blake3) && proof.mode == Poseidon2
    requires Canonical(root, []) && Accepted(modes, proof)
    requires proof.finalRoot == TreeHash(Poseidon2Hasher(blake3), root)
    ensures var H, classic := Poseidon2Hasher(blake3), ClassicProof(proof);
            && FixedWidth(classic) && Verifies(H, proof.finalRoot, classic)
            && (|| Collision(H, Payloads(H, root), ProofPayloads(H, classic))
                || (GetKey(root, proof.key) == Ok(proof.value) && classic == HonestProof(H, root, proof.key)))
  {
    hide Poseidon2Hasher, StemPayload, Collision, Canonical, Verifies, FixedWidth, SafeWidths, HonestProof;
    var H, classic := Poseidon2Hasher(blake3), ClassicProof(proof);
    AcceptedIsClassic(modes, blake3, proof);
    FixedWidthIsSafe(root, classic);
    AcceptedProofIsHonest(H, root, classic);
    assert NormalBits(classic.pathBits) == classic.pathBits;
  }

  lemma AcceptedIsClassic(modes: ProofMode -> ModeHash, blake3: Hasher, proof: VectorFoldProof)
    requires modes(Poseidon2) == Poseidon2Mode(blake3) && proof.mode == Poseidon2
    requires Accepted(modes, proof)
    ensures FixedWidth(ClassicProof(proof)) && Verifies(Poseidon2Hasher(blake3), proof.finalRoot, ClassicProof(proof))
  {
    hide Poseidon2Hasher, StemPayload;
    var H := Poseidon2Hasher(blake3);
    PairFoldIsFold(H, modes(Poseidon2), H(StemPayload(Prefix(proof.key), proof.stemValues)),
                   SiblingsOf(proof.pathFolds), BitsOf(proof.pathFolds));
  }
}
