/** Hashing, single-key proofs and what an accepted proof proves. */
module Merkle {
  import opened Basics
  import opened StemTree
  import opened History

  /** `b"PBT:STEM:v1"` */
  const STEM_HASH_DOMAIN: Bytes := [80, 66, 84, 58, 83, 84, 69, 77, 58, 118, 49]

  function StemPayload(prefix: Bytes, values: seq<Bytes>): Bytes {
    STEM_HASH_DOMAIN + prefix + Join(values)
  }

  /** The Merkle root of a subtree, computed without any cache. */
  function TreeHash(H: Hasher, t: Tree): Word {
    match t
    case Empty => H([])
    case Stem(prefix, values) => H(StemPayload(prefix, values))
    case Internal(left, right) => H(TreeHash(H, left) + TreeHash(H, right))
  }

  /** Every byte string hashed in computing `TreeHash(H, t)`. */
  ghost function Payloads(H: Hasher, t: Tree): set<Bytes> {
    match t
    case Empty => {[]}
    case Stem(prefix, values) => {StemPayload(prefix, values)}
    case Internal(left, right) =>
      {TreeHash(H, left) + TreeHash(H, right)} + Payloads(H, left) + Payloads(H, right)
  }

  /** Two different byte strings, one out of each set, with the same hash. */
  ghost predicate Collision(H: Hasher, a: set<Bytes>, b: set<Bytes>) {
    exists x <- a, y <- b :: x != y && H(x) == H(y)
  }

  // ---------- domain separation ----------

  predicate FixedWidthValues(values: seq<Bytes>) {
    |values| == STEM_SUBTREE_WIDTH && AllWide(values, 32)
  }

  lemma StemPayloadLength(prefix: Bytes, values: seq<Bytes>)
    requires FixedWidthValues(values)
    ensures |StemPayload(prefix, values)| == 11 + |prefix| + 8192
  {
    JoinLength(values, 32);
  }

  /** What is hashed for a stem: the domain tag, the prefix, and leaf after leaf. */
  lemma StemPayloadLayout(prefix: Bytes, values: seq<Bytes>, i: nat)
    requires FixedWidthValues(values) && i < STEM_SUBTREE_WIDTH
    ensures var payload, start := StemPayload(prefix, values), 11 + |prefix| + 32 * i;
            && |payload| == 11 + |prefix| + 8192
            && payload[..11] == Ascii("PBT:STEM:v1")
            && payload[11..11 + |prefix|] == prefix
            && payload[start..start + 32] == values[i]
  {
    StemPayloadLength(prefix, values);
    assert STEM_HASH_DOMAIN == Ascii("PBT:STEM:v1");
    JoinAt(values, 32, i);
    var payload, front := StemPayload(prefix, values), 11 + |prefix|;
    assert payload[front..] == Join(values);
    assert payload[front..][32 * i..32 * i + 32] == payload[front + 32 * i..front + 32 * i + 32];
  }

  /** A stem payload of 256 words has one reading. */
  lemma StemPayloadInjective(p: Bytes, vs: seq<Bytes>, q: Bytes, ws: seq<Bytes>)
    requires FixedWidthValues(vs) && FixedWidthValues(ws)
    requires StemPayload(p, vs) == StemPayload(q, ws)
    ensures p == q && vs == ws
  {
    StemPayloadLength(p, vs);
    StemPayloadLength(q, ws);
    JoinLength(vs, 32);
    JoinLength(ws, 32);
    var a, b := StemPayload(p, vs), StemPayload(q, ws);
    assert a[11..][..|p|] == p && b[11..][..|q|] == q;
    assert a[11..][|p|..] == Join(vs) && b[11..][|q|..] == Join(ws);
    JoinInjective(vs, ws, 32);
  }

  /** The three kinds of payload are told apart by their lengths. */
  lemma PayloadKinds(H: Hasher, t: Tree) returns (x: Bytes)
    ensures x in Payloads(H, t) && TreeHash(H, t) == H(x)
    ensures match t
            case Empty => x == []
            case Stem(prefix, values) => x == StemPayload(prefix, values) && |x| == 8203 + |prefix|
            case Internal(left, right) => x == TreeHash(H, left) + TreeHash(H, right) && |x| == 64
  {
    match t
    case Empty => x := [];
    case Stem(prefix, values) =>
      x := StemPayload(prefix, values);
      StemPayloadLength(prefix, values);
    case Internal(left, right) => x := TreeHash(H, left) + TreeHash(H, right);
  }

  /** The root binds the tree: equal roots come from equal trees, or from a collision among the
      byte strings the two trees hash. */
  lemma {:induction false} RootBindsTree(H: Hasher, s: Tree, t: Tree)
    requires TreeHash(H, s) == TreeHash(H, t)
    ensures s == t || Collision(H, Payloads(H, s), Payloads(H, t))
  {
    var x := PayloadKinds(H, s);
    var y := PayloadKinds(H, t);
    if x == y {
      match (s, t)
      case (Stem(p, vs), Stem(q, ws)) =>
        StemPayloadInjective(p, vs, q, ws);
      case (Internal(a, b), Internal(c, d)) =>
        assert TreeHash(H, a) == x[..32] && TreeHash(H, b) == x[32..];
        assert TreeHash(H, c) == y[..32] && TreeHash(H, d) == y[32..];
        RootBindsTree(H, a, c);
        RootBindsTree(H, b, d);
        CollisionGrows(H, Payloads(H, a), Payloads(H, c), Payloads(H, s), Payloads(H, t));
        CollisionGrows(H, Payloads(H, b), Payloads(H, d), Payloads(H, s), Payloads(H, t));
      case _ =>
    }
  }

  lemma CollisionGrows(H: Hasher, a: set<Bytes>, b: set<Bytes>, c: set<Bytes>, d: set<Bytes>)
    requires a <= c && b <= d
    ensures Collision(H, a, b) ==> Collision(H, c, d)
  {
  }

  /** The root is exactly the state: with no empty value put, equal dictionaries give equal roots,
      and equal roots give equal dictionaries or a collision. */
  lemma RootIsTheState(H: Hasher, ops1: seq<Op>, ops2: seq<Op>)
    requires NoEmptyPut(ops1) && NoEmptyPut(ops2)
    ensures RunDictionary(ops1) == RunDictionary(ops2) ==> TreeHash(H, Run(ops1)) == TreeHash(H, Run(ops2))
    ensures TreeHash(H, Run(ops1)) == TreeHash(H, Run(ops2)) ==>
              || RunDictionary(ops1) == RunDictionary(ops2)
              || Collision(H, Payloads(H, Run(ops1)), Payloads(H, Run(ops2)))
  {
    TreeIsTheState(ops1, ops2);
    if TreeHash(H, Run(ops1)) == TreeHash(H, Run(ops2)) {
      RootBindsTree(H, Run(ops1), Run(ops2));
    }
  }

  /** The same without any condition on the values, in terms of the stem map. */
  lemma RootIsTheStemMap(H: Hasher, ops1: seq<Op>, ops2: seq<Op>)
    ensures RunMap(ops1) == RunMap(ops2) ==> TreeHash(H, Run(ops1)) == TreeHash(H, Run(ops2))
    ensures TreeHash(H, Run(ops1)) == TreeHash(H, Run(ops2)) ==>
              || RunMap(ops1) == RunMap(ops2)
              || Collision(H, Payloads(H, Run(ops1)), Payloads(H, Run(ops2)))
  {
    TreeIsTheStemMap(ops1, ops2);
    if TreeHash(H, Run(ops1)) == TreeHash(H, Run(ops2)) {
      RootBindsTree(H, Run(ops1), Run(ops2));
    }
  }

  // ---------- proofs ----------

  /** Siblings and bits run from the root downward. */
  datatype MerkleProof = MerkleProof(
    key: Bytes,
    value: Bytes,
    stemValues: seq<Bytes>,
    pathSiblings: seq<Bytes>,
    pathBits: seq<int>)

  /** The hash above one level: bit 0 says the path went left, so the sibling is on the right. */
  function Combine(H: Hasher, current: Bytes, sibling: Bytes, bit: int): Word {
    H(if bit == 0 then current + sibling else sibling + current)
  }

  /** Folding a path back up to the root. */
  function Fold(H: Hasher, leaf: Word, siblings: seq<Bytes>, bits: seq<int>): Word
    requires |siblings| == |bits|
  {
    if siblings == [] then leaf
    else Combine(H, Fold(H, leaf, siblings[1..], bits[1..]), siblings[0], bits[0])
  }

  predicate Verifies(H: Hasher, root: Bytes, proof: MerkleProof)
    requires |proof.key| >= 2
  {
    && |proof.stemValues| == STEM_SUBTREE_WIDTH
    && proof.stemValues[Subindex(proof.key)] == proof.value
    && |proof.pathSiblings| == |proof.pathBits|
    && Fold(H, H(StemPayload(Prefix(proof.key), proof.stemValues)), proof.pathSiblings, proof.pathBits) == root
  }

  /** `verify_proof`: the check of the leaf, then a loop over the path from the stem to the root. */
  method VerifyProof(H: Hasher, root: Bytes, proof: MerkleProof) returns (r: Result<bool>)
    ensures |proof.key| < 2 ==> r == Err("Key too short")
    ensures |proof.key| >= 2 ==> r == Ok(Verifies(H, root, proof))
  {
    var parts :- SplitKey(proof.key);
    var (prefix, subindex) := parts;
    if |proof.stemValues| != STEM_SUBTREE_WIDTH {
      return Ok(false);
    }
    if proof.stemValues[subindex] != proof.value {
      return Ok(false);
    }
    var leaf := H(StemPayload(prefix, proof.stemValues));
    var current := leaf;
    if |proof.pathSiblings| != |proof.pathBits| {
      return Ok(false);
    }
    var i := |proof.pathSiblings|;
    while i > 0
      invariant 0 <= i <= |proof.pathSiblings|
      invariant current == Fold(H, leaf, proof.pathSiblings[i..], proof.pathBits[i..])
    {
      i := i - 1;
      var sibling := proof.pathSiblings[i];
      assert proof.pathSiblings[i..][1..] == proof.pathSiblings[i + 1..];
      assert proof.pathBits[i..][1..] == proof.pathBits[i + 1..];
      if proof.pathBits[i] == 0 {
        current := H(current + sibling);
      } else {
        current := H(sibling + current);
      }
    }
    r := Ok(current == root);
  }

  // ---------- the honest proof ----------

  function PathSiblings(H: Hasher, t: Tree, prefix: Bytes, depth: nat): seq<Word> {
    if !t.Internal? then []
    else if PathBitAt(prefix, depth) == 0 then
      [TreeHash(H, t.right)] + PathSiblings(H, t.left, prefix, depth + 1)
    else
      [TreeHash(H, t.left)] + PathSiblings(H, t.right, prefix, depth + 1)
  }

  function PathLength(t: Tree, prefix: Bytes, depth: nat): nat {
    if !t.Internal? then 0
    else 1 + PathLength(if PathBitAt(prefix, depth) == 0 then t.left else t.right, prefix, depth + 1)
  }

  /** The node at which the path of `prefix` ends. */
  function Terminal(t: Tree, prefix: Bytes, depth: nat): Tree {
    if !t.Internal? then t
    else Terminal(if PathBitAt(prefix, depth) == 0 then t.left else t.right, prefix, depth + 1)
  }

  function ProofValues(terminal: Tree, prefix: Bytes): Values {
    if terminal.Stem? && terminal.prefix == prefix then terminal.values else EMPTY_VALUES
  }

  /** The proof that `get_proof` builds. */
  function HonestProof(H: Hasher, root: Tree, key: Bytes): MerkleProof
    requires |key| >= 2
  {
    var prefix := Prefix(key);
    var values := ProofValues(Terminal(root, prefix, 0), prefix);
    MerkleProof(
      key,
      values[Subindex(key)],
      values,
      PathSiblings(H, root, prefix, 0),
      PathTo(prefix, PathLength(root, prefix, 0)))
  }

  lemma {:induction false} PathSiblingsLength(H: Hasher, t: Tree, prefix: Bytes, depth: nat)
    ensures |PathSiblings(H, t, prefix, depth)| == PathLength(t, prefix, depth) <= Height(t)
  {
    if t.Internal? {
      PathSiblingsLength(H, t.left, prefix, depth + 1);
      PathSiblingsLength(H, t.right, prefix, depth + 1);
    }
  }

  lemma {:induction false} TerminalHoldsStem(t: Tree, prefix: Bytes, depth: nat)
    requires Canonical(t, PathTo(prefix, depth))
    ensures ProofValues(Terminal(t, prefix, depth), prefix) == ValuesAt(Stems(t), prefix)
    ensures prefix in Stems(t) ==> Terminal(t, prefix, depth) == Stem(prefix, Stems(t)[prefix])
  {
    if t.Internal? {
      PathToNext(prefix, depth);
      SidesDiffer(t, PathTo(prefix, depth));
      TerminalHoldsStem(if PathBitAt(prefix, depth) == 0 then t.left else t.right, prefix, depth + 1);
    }
  }

  // ---------- soundness ----------

  predicate FixedWidth(proof: MerkleProof) {
    FixedWidthValues(proof.stemValues) && AllWide(proof.pathSiblings, 32)
  }

  /** No sibling is long enough to make the payload of a stem of `t` together with a digest. */
  ghost predicate ShorterThanStems(siblings: seq<Bytes>, t: Tree) {
    forall s <- siblings, p <- Stems(t) :: |s| + 32 < 8203 + |p|
  }

  lemma ShorterHere(siblings: seq<Bytes>, t: Tree)
    requires ShorterThanStems(siblings, t) && siblings != []
    ensures t.Stem? ==> |siblings[0]| + 32 < 8203 + |t.prefix|
  {
    assert siblings[0] in siblings;
    assert t.Stem? ==> t.prefix in Stems(t);
  }

  lemma ShorterBelow(siblings: seq<Bytes>, t: Tree, child: Tree)
    requires ShorterThanStems(siblings, t) && siblings != []
    requires t.Internal? && (child == t.left || child == t.right)
    ensures ShorterThanStems(siblings[1..], child)
  {
    assert forall s <- siblings[1..] :: s in siblings;
    assert forall p <- Stems(child) :: p in Stems(t);
  }

  /** The widths on which soundness rests. Siblings of 32 bytes are always short enough. */
  ghost predicate SafeWidths(root: Tree, proof: MerkleProof) {
    FixedWidthValues(proof.stemValues) && ShorterThanStems(proof.pathSiblings, root)
  }

  lemma FixedWidthIsSafe(root: Tree, proof: MerkleProof)
    requires FixedWidth(proof)
    ensures SafeWidths(root, proof)
  {
  }

  ghost function FoldPayloads(H: Hasher, leaf: Word, siblings: seq<Bytes>, bits: seq<int>): set<Bytes>
    requires |siblings| == |bits|
  {
    if siblings == [] then {}
    else
      var below := Fold(H, leaf, siblings[1..], bits[1..]);
      {if bits[0] == 0 then below + siblings[0] else siblings[0] + below}
      + FoldPayloads(H, leaf, siblings[1..], bits[1..])
  }

  /** Every byte string `verify_proof` hashes. */
  ghost function ProofPayloads(H: Hasher, proof: MerkleProof): set<Bytes>
    requires |proof.key| >= 2 && |proof.pathSiblings| == |proof.pathBits|
  {
    var payload := StemPayload(Prefix(proof.key), proof.stemValues);
    {payload} + FoldPayloads(H, H(payload), proof.pathSiblings, proof.pathBits)
  }

  /** The path leads through `t`, past exactly the given sibling hashes, to the given stem. */
  ghost predicate Traces(H: Hasher, t: Tree, prefix: Bytes, values: seq<Bytes>,
                         siblings: seq<Bytes>, bits: seq<int>)
    requires |siblings| == |bits|
  {
    if siblings == [] then t.Stem? && t.prefix == prefix && t.values == values
    else
      && t.Internal?
      && siblings[0] == TreeHash(H, if bits[0] == 0 then t.right else t.left)
      && Traces(H, if bits[0] == 0 then t.left else t.right, prefix, values, siblings[1..], bits[1..])
  }

  /** A path of safe widths that folds to the root of `t` leads through `t`, or exhibits a collision
      between what the tree hashed and what the verifier hashed. */
  lemma {:induction false} FoldTraces(H: Hasher, t: Tree, prefix: Bytes, values: seq<Bytes>,
                                      siblings: seq<Bytes>, bits: seq<int>)
    requires FixedWidthValues(values) && ShorterThanStems(siblings, t) && |siblings| == |bits|
    requires Fold(H, H(StemPayload(prefix, values)), siblings, bits) == TreeHash(H, t)
    ensures var payload := StemPayload(prefix, values);
            || Traces(H, t, prefix, values, siblings, bits)
            || Collision(H, Payloads(H, t), {payload} + FoldPayloads(H, H(payload), siblings, bits))
  {
    hide ShorterThanStems, StemPayload;
    var payload := StemPayload(prefix, values);
    var leaf := H(payload);
    var hashed := {payload} + FoldPayloads(H, leaf, siblings, bits);
    var x := PayloadKinds(H, t);
    StemPayloadLength(prefix, values);
    if siblings == [] {
      if x == payload {
        StemPayloadInjective(prefix, values, t.prefix, t.values);
      } else {
        assert x in Payloads(H, t) && payload in hashed && H(x) == H(payload);
      }
    } else {
      var below := Fold(H, leaf, siblings[1..], bits[1..]);
      var y := if bits[0] == 0 then below + siblings[0] else siblings[0] + below;
      ShorterHere(siblings, t);
      assert |y| == 32 + |siblings[0]|;
      if x != y {
        assert x in Payloads(H, t) && y in hashed && H(x) == H(y);
      } else {
        assert TreeHash(H, t.left) == x[..32] && TreeHash(H, t.right) == x[32..];
        assert y[..32] == (if bits[0] == 0 then below else siblings[0]);
        assert y[32..] == (if bits[0] == 0 then siblings[0] else below);
        var child := if bits[0] == 0 then t.left else t.right;
        ShorterBelow(siblings, t, child);
        FoldTraces(H, child, prefix, values, siblings[1..], bits[1..]);
        CollisionGrows(H, Payloads(H, child), {payload} + FoldPayloads(H, leaf, siblings[1..], bits[1..]),
                       Payloads(H, t), hashed);
      }
    }
  }

  /** The path bits as the verifier uses them: anything but 0 goes right. */
  function NormalBits(bits: seq<int>): (normal: seq<bit>)
    ensures |normal| == |bits|
  {
    seq(|bits|, i requires 0 <= i < |bits| => if bits[i] == 0 then 0 else 1)
  }

  function Normal(proof: MerkleProof): MerkleProof {
    proof.(pathBits := NormalBits(proof.pathBits))
  }

  lemma {:induction false} TraceReachesStem(H: Hasher, t: Tree, path: seq<bit>, prefix: Bytes, values: seq<Bytes>,
                                            siblings: seq<Bytes>, bits: seq<int>)
    requires Canonical(t, path)
    requires |siblings| == |bits| && Traces(H, t, prefix, values, siblings, bits)
    ensures prefix in Stems(t) && Stems(t)[prefix] == values
  {
    if siblings != [] {
      var b: bit := if bits[0] == 0 then 0 else 1;
      var child := if bits[0] == 0 then t.left else t.right;
      SidesDiffer(t, path);
      TraceReachesStem(H, child, path + [b], prefix, values, siblings[1..], bits[1..]);
    }
  }

  /** In a canonical tree only the prefix's own path leads to its stem, although the verifier never
      compares the path bits with the key. */
  lemma {:induction false} TraceIsHonest(H: Hasher, t: Tree, prefix: Bytes, depth: nat, values: seq<Bytes>,
                                         siblings: seq<Bytes>, bits: seq<int>)
    requires Canonical(t, PathTo(prefix, depth))
    requires |siblings| == |bits| && Traces(H, t, prefix, values, siblings, bits)
    ensures siblings == PathSiblings(H, t, prefix, depth)
    ensures |bits| == PathLength(t, prefix, depth)
    ensures forall i :: 0 <= i < |bits| ==> NormalBits(bits)[i] == PathBitAt(prefix, depth + i)
  {
    if siblings != [] {
      var b: bit := if bits[0] == 0 then 0 else 1;
      var child := if bits[0] == 0 then t.left else t.right;
      assert PathBitAt(prefix, depth) == b by {
        TraceReachesStem(H, child, PathTo(prefix, depth) + [b], prefix, values, siblings[1..], bits[1..]);
        SidesDiffer(t, PathTo(prefix, depth));
      }
      PathToNext(prefix, depth);
      TraceIsHonest(H, child, prefix, depth + 1, values, siblings[1..], bits[1..]);
      assert siblings == [siblings[0]] + siblings[1..];
      forall i | 0 <= i < |bits|
        ensures NormalBits(bits)[i] == PathBitAt(prefix, depth + i)
      {
        if i > 0 {
          assert NormalBits(bits[1..])[i - 1] == PathBitAt(prefix, depth + 1 + (i - 1));
        }
      }
    }
  }

  /** Soundness, and more: a proof of safe widths that verifies against the root of a canonical tree
      is the tree's own proof of a stem it holds, up to the spelling of the path bits, unless the
      tree and the verifier hashed two colliding byte strings. */
  lemma AcceptedProofIsHonest(H: Hasher, root: Tree, proof: MerkleProof)
    requires Canonical(root, []) && |proof.key| >= 2 && SafeWidths(root, proof)
    requires Verifies(H, TreeHash(H, root), proof)
    ensures || Collision(H, Payloads(H, root), ProofPayloads(H, proof))
            || (&& Prefix(proof.key) in Stems(root)
                && proof.stemValues == Stems(root)[Prefix(proof.key)]
                && Ok(proof.value) == GetKey(root, proof.key)
                && Normal(proof) == HonestProof(H, root, proof.key))
  {
    hide ShorterThanStems, Collision, StemPayload, Canonical, Fold;
    var prefix := Prefix(proof.key);
    FoldTraces(H, root, prefix, proof.stemValues, proof.pathSiblings, proof.pathBits);
    if Traces(H, root, prefix, proof.stemValues, proof.pathSiblings, proof.pathBits) {
      TraceReachesStem(H, root, [], prefix, proof.stemValues, proof.pathSiblings, proof.pathBits);
      assert PathTo(prefix, 0) == [];
      TraceIsHonest(H, root, prefix, 0, proof.stemValues, proof.pathSiblings, proof.pathBits);
      assert NormalBits(proof.pathBits) == PathTo(prefix, |proof.pathBits|);
      TerminalHoldsStem(root, prefix, 0);
      GetReadsMap(root, prefix, Subindex(proof.key), 0);
      assert Normal(proof) == HonestProof(H, root, proof.key);
    }
  }

  // ---------- completeness ----------

  lemma {:induction false} HonestFold(H: Hasher, t: Tree, prefix: Bytes, depth: nat, values: Values)
    requires Terminal(t, prefix, depth) == Stem(prefix, values)
    requires |PathSiblings(H, t, prefix, depth)| == PathLength(t, prefix, depth)
    ensures Fold(H, H(StemPayload(prefix, values)), PathSiblings(H, t, prefix, depth),
                 PathTo(prefix, depth + PathLength(t, prefix, depth))[depth..])
         == TreeHash(H, t)
  {
    if t.Internal? {
      var child := if PathBitAt(prefix, depth) == 0 then t.left else t.right;
      var bits := PathTo(prefix, depth + PathLength(t, prefix, depth))[depth..];
      assert bits[1..] == PathTo(prefix, depth + 1 + PathLength(child, prefix, depth + 1))[depth + 1..];
      assert PathSiblings(H, t, prefix, depth)[1..] == PathSiblings(H, child, prefix, depth + 1);
      HonestFold(H, child, prefix, depth + 1, values);
    }
  }

  lemma {:induction false} FoldUsesNormalBits(H: Hasher, leaf: Word, siblings: seq<Bytes>, bits: seq<int>)
    requires |siblings| == |bits|
    ensures Fold(H, leaf, siblings, bits) == Fold(H, leaf, siblings, NormalBits(bits))
  {
    if siblings != [] {
      assert NormalBits(bits)[1..] == NormalBits(bits[1..]);
      FoldUsesNormalBits(H, leaf, siblings[1..], bits[1..]);
    }
  }

  lemma HonestProofVerifies(H: Hasher, root: Tree, key: Bytes)
    requires Canonical(root, []) && |key| >= 2 && Prefix(key) in Stems(root)
    ensures FixedWidth(HonestProof(H, root, key))
    ensures Verifies(H, TreeHash(H, root), HonestProof(H, root, key))
  {
    hide Fold, TreeHash, StemPayload, Canonical, PathBitAt, PathSiblings;
    var prefix := Prefix(key);
    assert PathTo(prefix, 0) == [];
    TerminalHoldsStem(root, prefix, 0);
    PathSiblingsLength(H, root, prefix, 0);
    HonestFold(H, root, prefix, 0, Stems(root)[prefix]);
    assert PathTo(prefix, PathLength(root, prefix, 0))[0..] == PathTo(prefix, PathLength(root, prefix, 0));
  }

  /** `get_proof` carries the value `get` returns; its proof verifies when the key's stem is in the
      tree, and otherwise only through a collision. */
  lemma HonestProofExactly(H: Hasher, root: Tree, key: Bytes)
    requires Canonical(root, []) && |key| >= 2
    ensures Ok(HonestProof(H, root, key).value) == GetKey(root, key)
    ensures Prefix(key) in Stems(root) ==> Verifies(H, TreeHash(H, root), HonestProof(H, root, key))
    ensures |HonestProof(H, root, key).pathSiblings| == |HonestProof(H, root, key).pathBits|
    ensures Prefix(key) !in Stems(root) && Verifies(H, TreeHash(H, root), HonestProof(H, root, key)) ==>
              Collision(H, Payloads(H, root), ProofPayloads(H, HonestProof(H, root, key)))
  {
    assert PathTo(Prefix(key), 0) == [];
    TerminalHoldsStem(root, Prefix(key), 0);
    GetReadsMap(root, Prefix(key), Subindex(key), 0);
    PathSiblingsLength(H, root, Prefix(key), 0);
    if Prefix(key) in Stems(root) {
      HonestProofVerifies(H, root, key);
    } else if Verifies(H, TreeHash(H, root), HonestProof(H, root, key)) {
      AcceptedProofIsHonest(H, root, HonestProof(H, root, key));
    }
  }

  /** What the verifier accepts, exactly: without a collision, a proof of safe widths verifies if and
      only if the tree holds the key's stem and the proof is the tree's own. */
  lemma VerifiesExactly(H: Hasher, root: Tree, proof: MerkleProof)
    requires Canonical(root, []) && |proof.key| >= 2 && SafeWidths(root, proof)
    requires |proof.pathSiblings| == |proof.pathBits|
    requires !Collision(H, Payloads(H, root), ProofPayloads(H, proof))
    ensures Verifies(H, TreeHash(H, root), proof)
       <==> Prefix(proof.key) in Stems(root) && Normal(proof) == HonestProof(H, root, proof.key)
  {
    if Verifies(H, TreeHash(H, root), proof) {
      AcceptedProofIsHonest(H, root, proof);
    }
    if Prefix(proof.key) in Stems(root) && Normal(proof) == HonestProof(H, root, proof.key) {
      HonestProofVerifies(H, root, proof.key);
      FoldUsesNormalBits(H, H(StemPayload(Prefix(proof.key), proof.stemValues)), proof.pathSiblings, proof.pathBits);
    }
  }

  // ---------- acceptance without any condition on widths ----------

  /** The byte string whose hash is the root of the tree. */
  function TopPayload(H: Hasher, t: Tree): Bytes {
    match t
    case Empty => []
    case Stem(prefix, values) => StemPayload(prefix, values)
    case Internal(left, right) => TreeHash(H, left) + TreeHash(H, right)
  }

  /** The byte string that `verify_proof` hashes last. */
  function LastHashed(H: Hasher, proof: MerkleProof): Bytes
    requires |proof.key| >= 2 && |proof.pathSiblings| == |proof.pathBits|
  {
    var payload := StemPayload(Prefix(proof.key), proof.stemValues);
    var siblings, bits := proof.pathSiblings, proof.pathBits;
    if siblings == [] then payload
    else
      var below := Fold(H, H(payload), siblings[1..], bits[1..]);
      if bits[0] == 0 then below + siblings[0] else siblings[0] + below
  }

  /** For proofs of any widths: without a collision, the fold is accepted if and only if the last byte string
      hashed is the tree's own. What it is cut into, the verifier does not see. */
  lemma AcceptsSameBytes(H: Hasher, root: Tree, proof: MerkleProof)
    requires |proof.key| >= 2 && |proof.pathSiblings| == |proof.pathBits|
    requires !Collision(H, Payloads(H, root), ProofPayloads(H, proof))
    ensures Verifies(H, TreeHash(H, root), proof)
       <==> && |proof.stemValues| == STEM_SUBTREE_WIDTH && proof.stemValues[Subindex(proof.key)] == proof.value
            && LastHashed(H, proof) == TopPayload(H, root)
  {
    hide StemPayload;
    var x, y := TopPayload(H, root), LastHashed(H, proof);
    assert x in Payloads(H, root) && TreeHash(H, root) == H(x);
    assert y in ProofPayloads(H, proof);
  }
}
