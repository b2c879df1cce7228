/** Why `verify_proof` needs the widths it does not check, and exactly which. */
module Widths {
  import opened Basics
  import opened StemTree
  import opened History
  import opened Merkle

  /** Moving the first leaf into the prefix leaves the hashed bytes as they were. */
  function ShiftFirstLeaf(proof: MerkleProof): MerkleProof
    requires |proof.key| >= 2 && |proof.stemValues| == STEM_SUBTREE_WIDTH
  {
    var values := proof.stemValues;
    proof.(key := Prefix(proof.key) + values[0] + [Subindex(proof.key)],
           stemValues := [[]] + values[1..])
  }

  /** `verify_proof` does not check widths, and needs them: whenever it accepts a proof for a leaf
      other than the first, it also accepts the same value for a different, longer key. */
  lemma ShiftedProofVerifies(H: Hasher, root: Bytes, proof: MerkleProof)
    requires |proof.key| >= 2 && Subindex(proof.key) != 0
    requires Verifies(H, root, proof)
    ensures Verifies(H, root, ShiftFirstLeaf(proof))
    ensures ShiftFirstLeaf(proof).value == proof.value
    ensures proof.stemValues[0] != [] ==> ShiftFirstLeaf(proof).key != proof.key
    ensures Prefix(ShiftFirstLeaf(proof).key) == Prefix(proof.key) + proof.stemValues[0]
  {
    var shifted := ShiftFirstLeaf(proof);
    var values := proof.stemValues;
    assert Prefix(shifted.key) == Prefix(proof.key) + values[0];
    assert Subindex(shifted.key) == Subindex(proof.key);
    assert shifted.stemValues[1..] == values[1..];
    assert Join(shifted.stemValues) == [] + Join(values[1..]) == Join(values[1..]);
    assert StemPayload(Prefix(shifted.key), shifted.stemValues) == StemPayload(Prefix(proof.key), values);
  }

  /** A concrete tree of one stem for which a proof without fixed widths verifies and lies: the
      documented reading of `verify_proof` fails without the width check. */
  lemma LooseProofLies(H: Hasher) returns (root: Tree, proof: MerkleProof)
    ensures root == Run([Put([7, 1], seq(32, _ => 9))])
    ensures |proof.key| >= 2 && Verifies(H, TreeHash(H, root), proof)
    ensures GetKey(root, proof.key) != Ok(proof.value)
    ensures !FixedWidth(proof)
  {
    var nines: Word := seq(32, _ => 9);
    var op := Put([7, 1], nines);
    assert [op][..0] == [];
    assert Run([op]) == Apply(Empty, op);
    root := Stem([7], EMPTY_VALUES[1 := nines]);
    assert Prefix([7, 1]) == [7];
    assert root == Run([op]);
    assert Stems(root) == map[[7] := root.values];
    HonestProofVerifies(H, root, [7, 1]);
    var honest := HonestProof(H, root, [7, 1]);
    ShiftedProofVerifies(H, TreeHash(H, root), honest);
    proof := ShiftFirstLeaf(honest);
    assert Prefix(proof.key) == [7] + honest.stemValues[0];
    assert |Prefix(proof.key)| == 33;
    assert proof.stemValues[0] in proof.stemValues;
    assert honest.value == nines && nines[0] == 9 && EMPTY_VALUE[0] == 0;
  }

  // ---------- the guard that makes acceptance mean what it should ----------

  /** The longest siblings that are harmless to every tree that calls of `insert` can build. */
  const MAX_SIBLING := 8171

  /** A caller's guard: the widths of the 256 values, and a bound on the siblings. */
  ghost predicate Passes(proof: MerkleProof, ws: seq<nat>, n: nat) {
    && |proof.stemValues| == |ws|
    && (forall i :: 0 <= i < |ws| ==> |proof.stemValues[i]| == ws[i])
    && (forall s <- proof.pathSiblings :: |s| <= n)
  }

  ghost predicate CorrectOrCollides(H: Hasher, root: Tree, proof: MerkleProof) {
    || GetKey(root, proof.key) == Ok(proof.value)
    || (&& |proof.key| >= 2 && |proof.pathSiblings| == |proof.pathBits|
        && Collision(H, Payloads(H, root), ProofPayloads(H, proof)))
  }

  /** The documented reading of `verify_proof`, behind the guard: against the root of any history, what
      it accepts is the value of the key. */
  ghost predicate SoundBehind(H: Hasher, ws: seq<nat>, n: nat) {
    forall ops: seq<Op>, proof: MerkleProof ::
      Passes(proof, ws, n) && |proof.key| >= 2 && Verifies(H, TreeHash(H, Run(ops)), proof)
      ==> CorrectOrCollides(H, Run(ops), proof)
  }

  ghost predicate AllWords(ws: seq<nat>) {
    forall i :: 0 <= i < |ws| ==> ws[i] == 32
  }

  function Total(ws: seq<nat>): nat {
    if ws == [] then 0 else ws[0] + Total(ws[1..])
  }

  function ZeroValues(ws: seq<nat>): (values: seq<Bytes>)
    ensures |values| == |ws|
  {
    seq(|ws|, i requires 0 <= i < |ws| => Zeros(ws[i]))
  }

  lemma {:induction false} JoinZeros(ws: seq<nat>)
    ensures Join(ZeroValues(ws)) == Zeros(Total(ws))
  {
    if ws != [] {
      JoinZeros(ws[1..]);
      assert ZeroValues(ws)[1..] == ZeroValues(ws[1..]);
    }
  }

  lemma {:induction false} TotalOfWords(ws: seq<nat>)
    requires AllWords(ws)
    ensures Total(ws) == 32 * |ws|
  {
    if ws != [] {
      TotalOfWords(ws[1..]);
    }
  }

  /** If the value widths are not 32 throughout, a string of zeros can be cut in two ways: as the stem
      of some tree and as a proof of a value that no tree can hold. */
  lemma CutZerosLie(H: Hasher, ws: seq<nat>, n: nat, i: nat)
    requires |ws| == 256 && i < 256 && ws[i] != 32
    ensures !SoundBehind(H, ws, n)
  {
    hide Total, Join, StemPayload, Canonical;
    var prefix, longer := Zeros(1 + Total(ws)), Zeros(8193);
    var subindex: byte := i;
    var first: byte := 0;
    var ops := [Put(prefix + [first], EMPTY_VALUE)];
    RunOfOnePut(prefix, first, EMPTY_VALUE);
    var root := Stem(prefix, EMPTY_VALUES);
    assert EMPTY_VALUES[first := EMPTY_VALUE] == EMPTY_VALUES;
    var key := longer + [subindex];
    assert Prefix(key) == longer && Subindex(key) == subindex;
    var proof := MerkleProof(key, Zeros(ws[i]), ZeroValues(ws), [], []);
    SameZeros(ws);
    assert StemPayload(longer, ZeroValues(ws)) == StemPayload(prefix, EMPTY_VALUES);
    assert Verifies(H, TreeHash(H, root), proof);
    assert ProofPayloads(H, proof) == Payloads(H, root);
    assert Passes(proof, ws, n);
    assert !CorrectOrCollides(H, Run(ops), proof);
  }

  lemma SameZeros(ws: seq<nat>)
    ensures StemPayload(Zeros(8193), ZeroValues(ws)) == StemPayload(Zeros(1 + Total(ws)), EMPTY_VALUES)
  {
    var words: seq<nat> := seq(256, _ => 32);
    JoinZeros(ws);
    JoinZeros(words);
    TotalOfWords(words);
    assert ZeroValues(words) == EMPTY_VALUES;
    var all := 8193 + Total(ws);
    assert Zeros(8193) + Zeros(Total(ws)) == Zeros(all) == Zeros(1 + Total(ws)) + Zeros(8192);
    ConcatAssociates(STEM_HASH_DOMAIN, Zeros(8193), Zeros(Total(ws)));
    ConcatAssociates(STEM_HASH_DOMAIN, Zeros(1 + Total(ws)), Zeros(8192));
  }

  // ---------- a stem inside a leaf ----------

  function Nines(): Word {
    seq(32, _ => 9)
  }

  /** The values of a stem that no tree below holds. */
  function FakeValues(): Values {
    EMPTY_VALUES[1 := Nines()]
  }

  /** What the verifier hashes first for the nested proof. */
  function FakePayload(): Bytes {
    StemPayload([8], FakeValues())
  }

  /** A stem whose last leaf happens to be the hash of the fake payload. */
  function HostValues(H: Hasher): Values {
    EMPTY_VALUES[255 := H(FakePayload())]
  }

  function HostPayload(H: Hasher): Bytes {
    StemPayload([7], HostValues(H))
  }

  lemma HostPayloadEnds(H: Hasher)
    ensures |HostPayload(H)| == 8204 && HostPayload(H)[8172..] == H(FakePayload())
    ensures HostPayload(H) != FakePayload()
  {
    var values := HostValues(H);
    StemPayloadLength([7], values);
    var last: seq<Bytes> := [values[255]];
    assert values == values[..255] + last;
    JoinAppend(values[..255], last);
    assert Join(last) == values[255] + [] == values[255];
    var front := STEM_HASH_DOMAIN + [7];
    var host := front + (Join(values[..255]) + values[255]);
    assert HostPayload(H) == host;
    ConcatAssociates(front, Join(values[..255]), values[255]);
    assert HostPayload(H)[11] == 7 && FakePayload()[11] == 8;
  }

  /** A proof of 256 proper words whose one sibling is all of the host's payload but its last leaf. */
  function NestedProof(H: Hasher): MerkleProof {
    HostPayloadEnds(H);
    MerkleProof([8, 1], Nines(), FakeValues(), [HostPayload(H)[..8172]], [1])
  }

  /** The verifier rebuilds the host's payload from the sibling and the hash of the fake payload. */
  lemma NestedFold(H: Hasher)
    ensures var proof := NestedProof(H);
            && Fold(H, H(FakePayload()), proof.pathSiblings, proof.pathBits) == H(HostPayload(H))
            && FoldPayloads(H, H(FakePayload()), proof.pathSiblings, proof.pathBits) == {HostPayload(H)}
            && |proof.pathSiblings[0]| == MAX_SIBLING + 1
  {
    hide FakePayload, HostPayload, FakeValues;
    HostPayloadEnds(H);
    var proof, host := NestedProof(H), HostPayload(H);
    assert host[..8172] + H(FakePayload()) == host;
    assert proof.pathSiblings[1..] == [] && proof.pathBits[1..] == [];
  }

  /** With a sibling of 8172 bytes the verifier can be led into a leaf: it accepts, for every hash
      function, a value for a key that the tree does not have. */
  lemma LongSiblingLies(H: Hasher) returns (root: Tree)
    ensures root == Run([Put([7, 255], H(FakePayload()))])
    ensures Verifies(H, TreeHash(H, root), NestedProof(H)) && FixedWidthValues(NestedProof(H).stemValues)
    ensures |NestedProof(H).pathSiblings[0]| == MAX_SIBLING + 1
    ensures GetKey(root, NestedProof(H).key) == Ok(EMPTY_VALUE) && NestedProof(H).value != EMPTY_VALUE
    ensures H(FakePayload()) != H(HostPayload(H)) ==> !CorrectOrCollides(H, root, NestedProof(H))
  {
    hide StemPayload, Fold, FoldPayloads;
    NestedFold(H);
    root := Stem([7], HostValues(H));
    var subindex: byte := 255;
    RunOfOnePut([7], subindex, H(FakePayload()));
    assert [7] + [subindex] == [7, 255];
    var proof := NestedProof(H);
    assert Prefix([8, 1]) == [8] && Subindex([8, 1]) == 1;
    assert ProofPayloads(H, proof) == {FakePayload(), HostPayload(H)};
    assert Payloads(H, root) == {HostPayload(H)};
    assert Nines()[0] == 9 && EMPTY_VALUE[0] == 0;
  }

  lemma NoEmptyPrefix(ops: seq<Op>)
    ensures [] !in Stems(Run(ops))
  {
    hide RunMap;
    RunIsCanon(ops);
    NoEmptyPrefixInMap(ops);
  }

  lemma {:induction false} NoEmptyPrefixInMap(ops: seq<Op>)
    ensures [] !in RunMap(ops)
  {
    if ops != [] {
      NoEmptyPrefixInMap(ops[..|ops| - 1]);
    }
  }

  /** Behind the guard acceptance means what it should. */
  lemma GuardSuffices(H: Hasher, ws: seq<nat>, n: nat)
    requires |ws| == 256 && AllWords(ws) && n <= MAX_SIBLING
    ensures SoundBehind(H, ws, n)
  {
    hide Verifies, Collision, Canonical;
    forall ops, proof | Passes(proof, ws, n) && |proof.key| >= 2 && Verifies(H, TreeHash(H, Run(ops)), proof)
      ensures CorrectOrCollides(H, Run(ops), proof)
    {
      NoEmptyPrefix(ops);
      assert AllWide(proof.stemValues, 32);
      SameLengths(H, Run(ops), proof);
      AcceptedProofIsHonest(H, Run(ops), proof);
    }
  }

  lemma SameLengths(H: Hasher, root: Tree, proof: MerkleProof)
    requires |proof.key| >= 2 && Verifies(H, TreeHash(H, root), proof)
    ensures |proof.pathSiblings| == |proof.pathBits|
  {
  }

  /** Exactly when `verify_proof` means what it says: behind a guard on the widths, acceptance by any
      caller implies the value of the key if and only if the guard admits 32-byte values only and no
      sibling above 8171 bytes. (For the bound on siblings, H must tell two given strings apart.) */
  lemma GuardExactly(H: Hasher, ws: seq<nat>, n: nat)
    requires |ws| == 256
    ensures AllWords(ws) && n <= MAX_SIBLING ==> SoundBehind(H, ws, n)
    ensures SoundBehind(H, ws, n) ==>
              && AllWords(ws)
              && (n <= MAX_SIBLING || (FakePayload() != HostPayload(H) && H(FakePayload()) == H(HostPayload(H))))
  {
    hide CorrectOrCollides, Verifies, FakePayload, HostPayload, HostValues;
    if !AllWords(ws) {
      var i: nat :| i < |ws| && ws[i] != 32;
      CutZerosLie(H, ws, n, i);
    } else if n <= MAX_SIBLING {
      GuardSuffices(H, ws, n);
    } else {
      HostPayloadEnds(H);
      var root := LongSiblingLies(H);
      var proof := NestedProof(H);
      assert forall j :: 0 <= j < 256 ==> proof.stemValues[j] in proof.stemValues;
      assert Passes(proof, ws, n);
      assert Verifies(H, TreeHash(H, Run([Put([7, 255], H(FakePayload()))])), proof);
    }
  }
}
