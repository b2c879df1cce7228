/** The second implementation, `pbt-rs/src/tree.rs`: a tree that is rebuilt on every write and
    stores the hash of every internal node eagerly. */
module RustTree {
  import opened Basics
  import opened StemTree
  import opened History
  import opened Merkle
  import opened Wire

  /** The `TreeHasher` trait: `hash_pair` has a default, but an implementation may override it. */
  datatype TreeHasher = TreeHasher(hash: Hasher, hashPair: (Word, Word) -> Word)

  /** `hash_pair` is the default one. */
  ghost predicate PairIsConcat(h: TreeHasher) {
    forall l: Word, r: Word :: h.hashPair(l, r) == h.hash(l + r)
  }

  datatype RNode =
    | REmpty
    | RInternal(left: RNode, right: RNode, hash: Word)
    | RStem(stemPrefix: Bytes, values: Values)

  /** The tree without its stored hashes. */
  function Shape(n: RNode): Tree {
    match n
    case REmpty => Empty
    case RInternal(left, right, _) => Internal(Shape(left), Shape(right))
    case RStem(prefix, values) => Stem(prefix, values)
  }

  function NodeHash(n: RNode, h: TreeHasher): Word {
    match n
    case REmpty => h.hash([])
    case RStem(prefix, values) => h.hash(StemPayload(prefix, values))
    case RInternal(_, _, hash) => hash
  }

  /** Every stored hash is the pair hash of the children as they are now. */
  ghost predicate HashesOk(n: RNode, h: TreeHasher) {
    n.RInternal? ==>
      && HashesOk(n.left, h) && HashesOk(n.right, h)
      && n.hash == h.hashPair(NodeHash(n.left, h), NodeHash(n.right, h))
  }

  /** Shape and hasher determine the owned tree: there is no freedom in the stored hashes. */
  lemma {:induction false} SameShapeSameNode(a: RNode, b: RNode, h: TreeHasher)
    requires HashesOk(a, h) && HashesOk(b, h) && Shape(a) == Shape(b)
    ensures a == b
  {
    if a.RInternal? {
      SameShapeSameNode(a.left, b.left, h);
      SameShapeSameNode(a.right, b.right, h);
    }
  }

  function MakeInternal(left: RNode, right: RNode, h: TreeHasher): RNode {
    RInternal(left, right, h.hashPair(NodeHash(left, h), NodeHash(right, h)))
  }

  function NewStem(prefix: Bytes, subindex: byte, value: Word): RNode {
    RStem(prefix, EMPTY_VALUES[subindex := value])
  }

  function SplitRStems(existing: RNode, prefix: Bytes, subindex: byte, value: Word, depth: nat, h: TreeHasher): RNode
    requires existing.RStem? && existing.stemPrefix != prefix
    requires PathTo(existing.stemPrefix, depth) == PathTo(prefix, depth)
    decreases 8 * Max(|existing.stemPrefix|, |prefix|) + 1 - depth
  {
    SharedPathIsShort(existing.stemPrefix, prefix, depth);
    var bitExisting, bitNew := PathBitAt(existing.stemPrefix, depth), PathBitAt(prefix, depth);
    if bitExisting == bitNew then
      PathToNext(existing.stemPrefix, depth);
      PathToNext(prefix, depth);
      var child := SplitRStems(existing, prefix, subindex, value, depth + 1, h);
      if bitExisting == 0 then MakeInternal(child, REmpty, h) else MakeInternal(REmpty, child, h)
    else if bitNew == 0 then MakeInternal(NewStem(prefix, subindex, value), existing, h)
    else MakeInternal(existing, NewStem(prefix, subindex, value), h)
  }

  function InsertRNode(n: RNode, prefix: Bytes, subindex: byte, value: Word, depth: nat, h: TreeHasher): RNode
    requires Canonical(Shape(n), PathTo(prefix, depth))
  {
    match n
    case REmpty => NewStem(prefix, subindex, value)
    case RStem(existing, values) =>
      if existing == prefix then RStem(prefix, values[subindex := value])
      else SplitRStems(n, prefix, subindex, value, depth, h)
    case RInternal(left, right, _) =>
      PathToNext(prefix, depth);
      if PathBitAt(prefix, depth) == 0 then
        MakeInternal(InsertRNode(left, prefix, subindex, value, depth + 1, h), right, h)
      else
        MakeInternal(left, InsertRNode(right, prefix, subindex, value, depth + 1, h), h)
  }

  function GetRNode(n: RNode, prefix: Bytes, subindex: byte, depth: nat): Word {
    match n
    case REmpty => EMPTY_VALUE
    case RStem(existing, values) => if existing == prefix then values[subindex] else EMPTY_VALUE
    case RInternal(left, right, _) =>
      if PathBitAt(prefix, depth) == 0 then GetRNode(left, prefix, subindex, depth + 1)
      else GetRNode(right, prefix, subindex, depth + 1)
  }

  function Rejoin(left: RNode, right: RNode, h: TreeHasher): RNode {
    match (left, right)
    case (REmpty, REmpty) => REmpty
    case (REmpty, RStem(_, _)) => right
    case (RStem(_, _), REmpty) => left
    case _ => MakeInternal(left, right, h)
  }

  function DeleteRNode(n: RNode, prefix: Bytes, subindex: byte, depth: nat, h: TreeHasher): RNode {
    match n
    case REmpty => REmpty
    case RStem(existing, values) =>
      if existing != prefix then n
      else if IsHollow(values[subindex := EMPTY_VALUE]) then REmpty
      else RStem(prefix, values[subindex := EMPTY_VALUE])
    case RInternal(left, right, _) =>
      if PathBitAt(prefix, depth) == 0 then Rejoin(DeleteRNode(left, prefix, subindex, depth + 1, h), right, h)
      else Rejoin(left, DeleteRNode(right, prefix, subindex, depth + 1, h), h)
  }

  // ---------- agreement with the Python tree ----------

  lemma {:induction false} SplitAgrees(existing: RNode, prefix: Bytes, subindex: byte, value: Word, depth: nat,
                                       h: TreeHasher)
    requires existing.RStem? && existing.stemPrefix != prefix
    requires PathTo(existing.stemPrefix, depth) == PathTo(prefix, depth)
    ensures Shape(SplitRStems(existing, prefix, subindex, value, depth, h))
         == SplitStems(Shape(existing), prefix, subindex, value, depth)
    ensures HashesOk(SplitRStems(existing, prefix, subindex, value, depth, h), h)
    decreases 8 * Max(|existing.stemPrefix|, |prefix|) + 1 - depth
  {
    SharedPathIsShort(existing.stemPrefix, prefix, depth);
    if PathBitAt(existing.stemPrefix, depth) == PathBitAt(prefix, depth) {
      PathToNext(existing.stemPrefix, depth);
      PathToNext(prefix, depth);
      SplitAgrees(existing, prefix, subindex, value, depth + 1, h);
    }
  }

  /** Insertion builds the same tree, and every stored hash stays the pair hash of its children. */
  lemma {:induction false} InsertAgrees(n: RNode, prefix: Bytes, subindex: byte, value: Word, depth: nat, h: TreeHasher)
    requires Canonical(Shape(n), PathTo(prefix, depth)) && HashesOk(n, h)
    ensures Shape(InsertRNode(n, prefix, subindex, value, depth, h)) == Insert(Shape(n), prefix, subindex, value, depth)
    ensures HashesOk(InsertRNode(n, prefix, subindex, value, depth, h), h)
  {
    match n
    case REmpty =>
    case RStem(existing, _) =>
      if existing != prefix {
        SplitAgrees(n, prefix, subindex, value, depth, h);
      }
    case RInternal(left, right, _) =>
      PathToNext(prefix, depth);
      if PathBitAt(prefix, depth) == 0 {
        InsertAgrees(left, prefix, subindex, value, depth + 1, h);
      } else {
        InsertAgrees(right, prefix, subindex, value, depth + 1, h);
      }
  }

  lemma {:induction false} DeleteAgrees(n: RNode, prefix: Bytes, subindex: byte, depth: nat, h: TreeHasher)
    requires HashesOk(n, h)
    ensures Shape(DeleteRNode(n, prefix, subindex, depth, h)) == Delete(Shape(n), prefix, subindex, depth)
    ensures HashesOk(DeleteRNode(n, prefix, subindex, depth, h), h)
  {
    if n.RInternal? {
      if PathBitAt(prefix, depth) == 0 {
        DeleteAgrees(n.left, prefix, subindex, depth + 1, h);
      } else {
        DeleteAgrees(n.right, prefix, subindex, depth + 1, h);
      }
    }
  }

  lemma {:induction false} GetAgrees(n: RNode, prefix: Bytes, subindex: byte, depth: nat)
    ensures GetRNode(n, prefix, subindex, depth) == Get(Shape(n), prefix, subindex, depth)
  {
    if n.RInternal? {
      GetAgrees(n.left, prefix, subindex, depth + 1);
      GetAgrees(n.right, prefix, subindex, depth + 1);
    }
  }

  /** With the default pair hash, the stored hashes are the Merkle hashes. */
  lemma {:induction false} HashAgrees(n: RNode, h: TreeHasher)
    requires HashesOk(n, h) && PairIsConcat(h)
    ensures NodeHash(n, h) == TreeHash(h.hash, Shape(n))
  {
    if n.RInternal? {
      HashAgrees(n.left, h);
      HashAgrees(n.right, h);
    }
  }

  // ---------- the owner of the tree ----------

  /** What a hasher that may override `hash_pair` makes of a path. */
  function StoredSiblings(n: RNode, prefix: Bytes, depth: nat, h: TreeHasher): seq<Word> {
    if !n.RInternal? then []
    else if PathBitAt(prefix, depth) == 0 then
      [NodeHash(n.right, h)] + StoredSiblings(n.left, prefix, depth + 1, h)
    else
      [NodeHash(n.left, h)] + StoredSiblings(n.right, prefix, depth + 1, h)
  }

  /** The proof that `get_proof` builds from the stored hashes. */
  function StoredProof(root: RNode, key: Bytes, h: TreeHasher): MerkleProof
    requires |key| >= 2
  {
    var prefix := Prefix(key);
    var values := ProofValues(Terminal(Shape(root), prefix, 0), prefix);
    MerkleProof(
      key,
      values[Subindex(key)],
      values,
      StoredSiblings(root, prefix, 0, h),
      PathTo(prefix, PathLength(Shape(root), prefix, 0)))
  }

  lemma {:induction false} StoredSiblingsLength(n: RNode, prefix: Bytes, depth: nat, h: TreeHasher)
    ensures |StoredSiblings(n, prefix, depth, h)| == PathLength(Shape(n), prefix, depth)
  {
    if n.RInternal? {
      StoredSiblingsLength(n.left, prefix, depth + 1, h);
      StoredSiblingsLength(n.right, prefix, depth + 1, h);
    }
  }

  lemma {:induction false} SiblingsAgree(n: RNode, prefix: Bytes, depth: nat, h: TreeHasher)
    requires HashesOk(n, h) && PairIsConcat(h)
    ensures StoredSiblings(n, prefix, depth, h) == PathSiblings(h.hash, Shape(n), prefix, depth)
  {
    if n.RInternal? {
      HashAgrees(n.left, h);
      HashAgrees(n.right, h);
      SiblingsAgree(n.left, prefix, depth + 1, h);
      SiblingsAgree(n.right, prefix, depth + 1, h);
    }
  }

  lemma StoredProofIsHonest(root: RNode, key: Bytes, h: TreeHasher)
    requires |key| >= 2 && HashesOk(root, h) && PairIsConcat(h)
    ensures StoredProof(root, key, h) == HonestProof(h.hash, Shape(root), key)
  {
    SiblingsAgree(root, Prefix(key), 0, h);
  }

  /** The walk of `get_proof` so far: `siblings` and `bits` lead from the root to `n`. */
  ghost predicate OnStoredPath(root: RNode, prefix: Bytes, n: RNode, depth: nat, h: TreeHasher,
                               siblings: seq<Bytes>, bits: seq<int>)
  {
    && siblings + StoredSiblings(n, prefix, depth, h) == StoredSiblings(root, prefix, 0, h)
    && Terminal(Shape(n), prefix, depth) == Terminal(Shape(root), prefix, 0)
    && bits == PathTo(prefix, depth) && |siblings| == depth
  }

  lemma StartStored(root: RNode, prefix: Bytes, h: TreeHasher)
    ensures OnStoredPath(root, prefix, root, 0, h, [], [])
  {
    assert [] + StoredSiblings(root, prefix, 0, h) == StoredSiblings(root, prefix, 0, h);
  }

  lemma StepDownStored(root: RNode, prefix: Bytes, n: RNode, depth: nat, h: TreeHasher,
                       siblings: seq<Bytes>, bits: seq<int>)
    requires n.RInternal? && OnStoredPath(root, prefix, n, depth, h, siblings, bits)
    ensures var b := PathBitAt(prefix, depth);
            OnStoredPath(root, prefix, if b == 0 then n.left else n.right, depth + 1, h,
                         siblings + [NodeHash(if b == 0 then n.right else n.left, h)], bits + [b])
  {
    hide NodeHash;
    var rest := StoredSiblings(n, prefix, depth, h);
    assert siblings + rest == (siblings + [rest[0]]) + rest[1..];
    PathToNext(prefix, depth);
  }

  lemma ArrivedStored(root: RNode, key: Bytes, n: RNode, depth: nat, h: TreeHasher,
                      siblings: seq<Bytes>, bits: seq<int>)
    requires |key| >= 2 && !n.RInternal? && OnStoredPath(root, Prefix(key), n, depth, h, siblings, bits)
    ensures var values := if n.RStem? && n.stemPrefix == Prefix(key) then n.values else EMPTY_VALUES;
            StoredProof(root, key, h) == MerkleProof(key, values[Subindex(key)], values, siblings, bits)
  {
    assert siblings + [] == siblings;
    StoredSiblingsLength(root, Prefix(key), 0, h);
  }

  class OwnedTree {
    var root: RNode
    const hasher: TreeHasher

    constructor (h: TreeHasher)
      ensures hasher == h && Valid() && root == REmpty
    {
      root := REmpty;
      hasher := h;
    }

    ghost predicate Valid()
      reads this
    {
      Canonical(Shape(root), []) && HashesOk(root, hasher)
    }

    method Insert(key: Bytes, value: Word) returns (r: Result<()>)
      requires Valid()
      modifies this
      ensures Valid() && r.Ok? == (|key| >= 2)
      ensures Shape(root) == Apply(old(Shape(root)), Put(key, value))
    {
      var parts :- SplitKey(key);
      var (prefix, subindex) := parts;
      assert PathTo(prefix, 0) == [];
      InsertAgrees(root, prefix, subindex, value, 0, hasher);
      InsertRefinesPut(Shape(root), prefix, subindex, value, 0);
      root := InsertRNode(root, prefix, subindex, value, 0, hasher);
      r := Ok(());
    }

    method Delete(key: Bytes) returns (r: Result<()>)
      requires Valid()
      modifies this
      ensures Valid() && r.Ok? == (|key| >= 2)
      ensures Shape(root) == Apply(old(Shape(root)), Op.Erase(key))
    {
      var parts :- SplitKey(key);
      var (prefix, subindex) := parts;
      assert PathTo(prefix, 0) == [];
      DeleteAgrees(root, prefix, subindex, 0, hasher);
      DeleteRefinesMap(Shape(root), prefix, subindex, 0);
      root := DeleteRNode(root, prefix, subindex, 0, hasher);
      r := Ok(());
    }

    method Get(key: Bytes) returns (r: Result<Word>)
      ensures r.Ok? == (|key| >= 2) && (r.Ok? ==> r == GetKey(Shape(root), key))
    {
      var parts :- SplitKey(key);
      GetAgrees(root, parts.0, parts.1, 0);
      r := Ok(GetRNode(root, parts.0, parts.1, 0));
    }

    method RootHash() returns (hash: Word)
      requires Valid()
      ensures hash == NodeHash(root, hasher)
      ensures PairIsConcat(hasher) ==> hash == TreeHash(hasher.hash, Shape(root))
    {
      hash := NodeHash(root, hasher);
      if PairIsConcat(hasher) {
        HashAgrees(root, hasher);
      }
    }

    /** With the default pair hash the proof is the one the Python tree gives. */
    method GetProof(key: Bytes) returns (r: Result<MerkleProof>)
      requires Valid()
      ensures r.Ok? == (|key| >= 2)
      ensures r.Ok? ==> r.value == StoredProof(root, key, hasher)
      ensures r.Ok? && PairIsConcat(hasher) ==> r.value == HonestProof(hasher.hash, Shape(root), key)
    {
      var parts :- SplitKey(key);
      var (prefix, subindex) := parts;
      var siblings: seq<Bytes> := [];
      var bits: seq<int> := [];
      var node := root;
      var depth := 0;
      hide NodeHash, HashesOk, OnStoredPath, PairIsConcat, HonestProof, StoredProof, Canonical;
      StartStored(root, prefix, hasher);
      while node.RInternal?
        invariant OnStoredPath(root, prefix, node, depth, hasher, siblings, bits)
        decreases node
      {
        var bit := PathBitAt(prefix, depth);
        StepDownStored(root, prefix, node, depth, hasher, siblings, bits);
        bits := bits + [bit];
        if bit == 0 {
          siblings := siblings + [NodeHash(node.right, hasher)];
          node := node.left;
        } else {
          siblings := siblings + [NodeHash(node.left, hasher)];
          node := node.right;
        }
        depth := depth + 1;
      }
      var values := EMPTY_VALUES;
      if node.RStem? && node.stemPrefix == prefix {
        values := node.values;
      }
      ArrivedStored(root, key, node, depth, hasher, siblings, bits);
      if PairIsConcat(hasher) {
        StoredProofIsHonest(root, key, hasher);
      }
      r := Ok(MerkleProof(key, values[subindex], values, siblings, bits));
    }
  }

  /** `verify_proof_with_hasher`: unlike the Python verifier it rejects a path bit that is neither 0
      nor 1, and answers false to a short key instead of raising. */
  method VerifyProofWithHasher(rootHash: Word, proof: MerkleProof, h: TreeHasher) returns (ok: bool)
    ensures ok <==> |proof.key| >= 2 && Verifies(h.hash, rootHash, proof) && BitsOnly(proof.pathBits)
  {
    if |proof.stemValues| != STEM_SUBTREE_WIDTH {
      return false;
    }
    var split := SplitKey(proof.key);
    if split.Err? {
      return false;
    }
    var (prefix, subindex) := split.value;
    if proof.stemValues[subindex] != proof.value {
      return false;
    }
    if |proof.pathSiblings| != |proof.pathBits| {
      return false;
    }
    var leaf := h.hash(StemPayload(prefix, proof.stemValues));
    var current := leaf;
    var idx := |proof.pathSiblings|;
    while idx > 0
      invariant 0 <= idx <= |proof.pathSiblings|
      invariant current == Fold(h.hash, leaf, proof.pathSiblings[idx..], proof.pathBits[idx..])
      invariant forall i :: idx <= i < |proof.pathBits| ==> proof.pathBits[i] == 0 || proof.pathBits[i] == 1
    {
      idx := idx - 1;
      var sibling, bit := proof.pathSiblings[idx], proof.pathBits[idx];
      assert proof.pathSiblings[idx..][1..] == proof.pathSiblings[idx + 1..];
      assert proof.pathBits[idx..][1..] == proof.pathBits[idx + 1..];
      var payload;
      if bit == 0 {
        payload := current + sibling;
      } else if bit == 1 {
        payload := sibling + current;
      } else {
        assert bit in proof.pathBits;
        return false;
      }
      current := h.hash(payload);
    }
    ok := current == rootHash;
  }

  // ---------- whole histories ----------

  function RApply(n: RNode, op: Op, h: TreeHasher): RNode
    requires Canonical(Shape(n), [])
  {
    if !Accepted(op) then n
    else if op.Put? then InsertRNode(n, Prefix(op.key), Subindex(op.key), op.value, 0, h)
    else DeleteRNode(n, Prefix(op.key), Subindex(op.key), 0, h)
  }

  lemma RApplyAgrees(n: RNode, op: Op, h: TreeHasher)
    requires Canonical(Shape(n), []) && HashesOk(n, h)
    ensures Shape(RApply(n, op, h)) == Apply(Shape(n), op)
    ensures HashesOk(RApply(n, op, h), h)
  {
    if Accepted(op) {
      assert PathTo(Prefix(op.key), 0) == [];
      if op.Put? {
        InsertAgrees(n, Prefix(op.key), Subindex(op.key), op.value, 0, h);
      } else {
        DeleteAgrees(n, Prefix(op.key), Subindex(op.key), 0, h);
      }
    }
  }

  function RRun(ops: seq<Op>, h: TreeHasher): (n: RNode)
    ensures Shape(n) == Run(ops) && HashesOk(n, h)
  {
    if ops == [] then REmpty
    else
      var before := RRun(ops[..|ops| - 1], h);
      RApplyAgrees(before, ops[|ops| - 1], h);
      RApply(before, ops[|ops| - 1], h)
  }

  /** The two clients agree after every history: the same shape whatever the hasher, and with the
      default pair hash the same root and the same proof material. */
  lemma ClientsAgree(ops: seq<Op>, h: TreeHasher, prefix: Bytes, subindex: byte)
    ensures Shape(RRun(ops, h)) == Run(ops)
    ensures GetRNode(RRun(ops, h), prefix, subindex, 0) == Get(Run(ops), prefix, subindex, 0)
    ensures PairIsConcat(h) ==>
              && NodeHash(RRun(ops, h), h) == TreeHash(h.hash, Run(ops))
              && StoredSiblings(RRun(ops, h), prefix, 0, h) == PathSiblings(h.hash, Run(ops), prefix, 0)
  {
    GetAgrees(RRun(ops, h), prefix, subindex, 0);
    if PairIsConcat(h) {
      HashAgrees(RRun(ops, h), h);
      SiblingsAgree(RRun(ops, h), prefix, 0, h);
    }
  }
}
