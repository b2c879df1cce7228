/** `pbt/tree.py` on node objects: in-place insertion and deletion, reads, and proof generation. */
module HeapTree {
  import opened Basics
  import opened StemTree
  import opened History
  import opened Merkle
  import opened Order
  import opened Batch
  import opened Nodes

  method NewStem(prefix: Bytes, subindex: byte, value: Word) returns (stem: Node)
    ensures fresh(stem.Repr) && stem.Valid() && stem.hashCache == None && stem.Repr == {stem}
    ensures stem.kind == StemKind && stem.view == FreshStem(prefix, subindex, value)
  {
    stem := new Node.Stem(prefix, EMPTY_VALUES[subindex := value]);
  }

  /** `_split_stems`: the existing stem object is kept and hung below the new internal nodes. */
  method SplitNode(existing: Node, prefix: Bytes, subindex: byte, value: Word, depth: nat, ghost H: Hasher)
    returns (node: Node)
    requires existing.kind == StemKind && existing.Valid() && existing.CachesOk(H)
    requires existing.stemPrefix != prefix
    requires PathTo(existing.stemPrefix, depth) == PathTo(prefix, depth)
    ensures node.Valid() && node.CachesOk(H) && node.kind == InternalKind
    ensures node.view == SplitStems(existing.view, prefix, subindex, value, depth)
    ensures existing in node.Repr && fresh(node.Repr - {existing})
    decreases 8 * Max(|existing.stemPrefix|, |prefix|) + 1 - depth
  {
    SharedPathIsShort(existing.stemPrefix, prefix, depth);
    var bitExisting := PathBitAt(existing.stemPrefix, depth);
    var bitNew := PathBitAt(prefix, depth);
    if bitExisting == bitNew {
      PathToNext(existing.stemPrefix, depth);
      PathToNext(prefix, depth);
      var child := SplitNode(existing, prefix, subindex, value, depth + 1, H);
      var empty := new Node.Empty();
      if bitExisting == 0 {
        node := new Node.Internal(child, empty, H);
      } else {
        node := new Node.Internal(empty, child, H);
      }
    } else {
      var newStem := NewStem(prefix, subindex, value);
      if bitNew == 0 {
        node := new Node.Internal(newStem, existing, H);
      } else {
        node := new Node.Internal(existing, newStem, H);
      }
    }
  }

  /** One step of insertion into an internal node. */
  lemma InsertOneStep(t: Tree, prefix: Bytes, subindex: byte, value: Word, depth: nat)
    requires t.Internal? && Canonical(t, PathTo(prefix, depth))
    ensures var b := PathBitAt(prefix, depth);
            && Canonical(if b == 0 then t.left else t.right, PathTo(prefix, depth + 1))
            && Insert(t, prefix, subindex, value, depth)
               == (if b == 0 then Internal(Insert(t.left, prefix, subindex, value, depth + 1), t.right)
                   else Internal(t.left, Insert(t.right, prefix, subindex, value, depth + 1)))
  {
    PathToNext(prefix, depth);
  }

  /** `_insert`: descends in place, splits where two stems meet, and invalidates the caches on the
      path. A stem or internal node that was there stays the root of its subtree, unless it had to
      be split. */
  method InsertNode(node: Node, prefix: Bytes, subindex: byte, value: Word, depth: nat, ghost H: Hasher)
    returns (r: Node)
    requires node.Valid() && node.CachesOk(H) && Canonical(node.view, PathTo(prefix, depth))
    modifies node.Repr
    ensures r.Valid() && r.CachesOk(H) && fresh(r.Repr - old(node.Repr))
    ensures r.view == Insert(old(node.view), prefix, subindex, value, depth)
    ensures node.kind == InternalKind ==> r == node
    ensures node.kind == EmptyKind ==> unchanged(node) && fresh(r)
    decreases node.Repr, 1
  {
    hide TreeHash, PathBitAt;
    if node.kind == EmptyKind {
      r := NewStem(prefix, subindex, value);
    } else if node.kind == StemKind {
      if node.stemPrefix == prefix {
        node.SetValue(subindex, value, H);
        r := node;
      } else {
        r := SplitNode(node, prefix, subindex, value, depth, H);
      }
    } else {
      InsertBelow(node, prefix, subindex, value, depth, H);
      r := node;
    }
  }

  /** The branch of `_insert` for an internal node. */
  method InsertBelow(node: Node, prefix: Bytes, subindex: byte, value: Word, depth: nat, ghost H: Hasher)
    requires node.Valid() && node.CachesOk(H) && Canonical(node.view, PathTo(prefix, depth))
    requires node.kind == InternalKind
    modifies node.Repr
    ensures node.Valid() && node.CachesOk(H) && fresh(node.Repr - old(node.Repr))
    ensures node.view == Insert(old(node.view), prefix, subindex, value, depth)
    decreases node.Repr, 0
  {
    hide TreeHash, PathBitAt, Insert, Canonical;
    InsertOneStep(node.view, prefix, subindex, value, depth);
    var bit := PathBitAt(prefix, depth);
    if bit == 0 {
      var child := InsertNode(node.left, prefix, subindex, value, depth + 1, H);
      node.SetChildren(child, node.right, H);
    } else {
      var child := InsertNode(node.right, prefix, subindex, value, depth + 1, H);
      node.SetChildren(node.left, child, H);
    }
  }

  /** `_get` */
  function GetNode(node: Node, prefix: Bytes, subindex: byte, depth: nat): (value: Word)
    requires node.Valid()
    reads node, node.Repr
    ensures value == Get(node.view, prefix, subindex, depth)
    decreases node.Repr
  {
    match node.kind
    case EmptyKind => EMPTY_VALUE
    case StemKind => if node.stemPrefix == prefix then node.values[subindex] else EMPTY_VALUE
    case InternalKind =>
      if PathBitAt(prefix, depth) == 0 then GetNode(node.left, prefix, subindex, depth + 1)
      else GetNode(node.right, prefix, subindex, depth + 1)
  }

  /** `_delete`: erases in place and collapses on the way back up. */
  method DeleteNode(node: Node, prefix: Bytes, subindex: byte, depth: nat, ghost H: Hasher)
    returns (r: Node)
    requires node.Valid() && node.CachesOk(H)
    modifies node.Repr
    ensures r.Valid() && r.CachesOk(H) && fresh(r.Repr - old(node.Repr))
    ensures r.view == Delete(old(node.view), prefix, subindex, depth)
    decreases node.Repr
  {
    hide TreeHash, PathBitAt, Collapse;
    if node.kind == EmptyKind {
      r := node;
    } else if node.kind == StemKind {
      if node.stemPrefix != prefix {
        return node;
      }
      node.SetValue(subindex, EMPTY_VALUE, H);
      var empty := node.IsEmpty();
      if empty {
        r := new Node.Empty();
      } else {
        r := node;
      }
    } else {
      var bit := PathBitAt(prefix, depth);
      if bit == 0 {
        var child := DeleteNode(node.left, prefix, subindex, depth + 1, H);
        node.SetChildren(child, node.right, H);
      } else {
        var child := DeleteNode(node.right, prefix, subindex, depth + 1, H);
        node.SetChildren(node.left, child, H);
      }
      r := CollapseNode(node, H);
    }
  }

  /** The canonical collapse at the end of `_delete`. */
  method CollapseNode(node: Node, ghost H: Hasher) returns (r: Node)
    requires node.Valid() && node.CachesOk(H) && node.kind == InternalKind
    ensures r.Valid() && r.CachesOk(H) && fresh(r.Repr - node.Repr)
    ensures r.view == Collapse(node.view.left, node.view.right)
  {
    hide TreeHash;
    var leftEmpty := node.left.kind == EmptyKind;
    var rightEmpty := node.right.kind == EmptyKind;
    if leftEmpty && rightEmpty {
      r := new Node.Empty();
    } else if leftEmpty && node.right.kind == StemKind {
      r := node.right;
    } else if rightEmpty && node.left.kind == StemKind {
      r := node.left;
    } else {
      r := node;
    }
  }

  /** The walk of `get_proof` so far: `siblings` and `bits` lead from the root to `t`. */
  ghost predicate OnTheWay(H: Hasher, root: Tree, prefix: Bytes, t: Tree, depth: nat,
                           siblings: seq<Bytes>, bits: seq<int>)
  {
    && Terminal(t, prefix, depth) == Terminal(root, prefix, 0)
    && siblings + PathSiblings(H, t, prefix, depth) == PathSiblings(H, root, prefix, 0)
    && bits == PathTo(prefix, depth) && |siblings| == depth
  }

  lemma StepDown(H: Hasher, root: Tree, prefix: Bytes, t: Tree, depth: nat, siblings: seq<Bytes>, bits: seq<int>)
    requires t.Internal? && OnTheWay(H, root, prefix, t, depth, siblings, bits)
    ensures var b := PathBitAt(prefix, depth);
            OnTheWay(H, root, prefix, if b == 0 then t.left else t.right, depth + 1,
                     siblings + [TreeHash(H, if b == 0 then t.right else t.left)], bits + [b])
  {
  }

  lemma Arrived(H: Hasher, root: Tree, key: Bytes, t: Tree, depth: nat, siblings: seq<Bytes>, bits: seq<int>)
    requires |key| >= 2 && !t.Internal? && OnTheWay(H, root, Prefix(key), t, depth, siblings, bits)
    ensures var values := ProofValues(t, Prefix(key));
            HonestProof(H, root, key) == MerkleProof(key, values[Subindex(key)], values, siblings, bits)
  {
    PathSiblingsLength(H, root, Prefix(key), 0);
    assert siblings + [] == siblings;
  }

  /** One step down: the child the path takes, and the hash of the other one. */
  method Descend(node: Node, bit: bit, ghost root: Node, ctx: HashContext) returns (sibling: Word, child: Node)
    requires node.Valid() && node.kind == InternalKind && node.Repr <= root.Repr
    requires root.CachesOk(ctx.H) && ctx.Coherent()
    modifies root.Repr`hashCache, ctx
    ensures root.CachesOk(ctx.H) && ctx.Coherent()
    ensures sibling == TreeHash(ctx.H, if bit == 0 then node.view.right else node.view.left)
    ensures child.Valid() && child.Repr < node.Repr
    ensures child.view == if bit == 0 then node.view.left else node.view.right
  {
    if bit == 0 {
      sibling := node.right.NodeHash(ctx);
      child := node.left;
    } else {
      sibling := node.left.NodeHash(ctx);
      child := node.right;
    }
  }

  /** `get_proof`: walks down collecting sibling hashes. Hashing a sibling fills caches on the way;
      the tree and the coherence of every cache survive it. */
  method GetProof(root: Node, key: Bytes, ctx: HashContext) returns (r: Result<MerkleProof>)
    requires root.Valid() && root.CachesOk(ctx.H) && ctx.Coherent()
    modifies root.Repr`hashCache, ctx
    ensures root.CachesOk(ctx.H) && ctx.Coherent()
    ensures r == if |key| < 2 then Err("Key too short") else Ok(HonestProof(ctx.H, root.view, key))
    ensures r.Ok? ==> exists full: seq<bit> :: SpellsPrefix(full, Prefix(key)) && r.value.pathBits <= full
  {
    var parts :- SplitKey(key);
    var (prefix, subindex) := parts;
    var siblings: seq<Bytes> := [];
    var bits: seq<int> := [];
    var node: Node := root;
    var depth := 0;
    while node.kind == InternalKind
      invariant node.Valid() && node.Repr <= root.Repr
      invariant root.CachesOk(ctx.H) && ctx.Coherent()
      invariant OnTheWay(ctx.H, root.view, prefix, node.view, depth, siblings, bits)
      decreases node.Repr
    {
      var bit := PathBitAt(prefix, depth);
      StepDown(ctx.H, root.view, prefix, node.view, depth, siblings, bits);
      var sibling, child := Descend(node, bit, root, ctx);
      siblings := siblings + [sibling];
      bits := bits + [bit];
      node := child;
      depth := depth + 1;
    }
    Arrived(ctx.H, root.view, key, node.view, depth, siblings, bits);
    PathBeginsSpelling(prefix, depth);
    var value := EMPTY_VALUE;
    var stemValues := EMPTY_VALUES;
    if node.kind == StemKind && node.stemPrefix == prefix {
      value := node.values[subindex];
      stemValues := node.values;
    }
    r := Ok(MerkleProof(key, value, stemValues, siblings, bits));
  }

  /** The batch for any list of keys; a key that is too short raises. */
  function ExpectedBatch(H: Hasher, t: Tree, keys: seq<Bytes>): Result<BatchMerkleProof> {
    if AllLongEnough(SortedSet(keys)) then Ok(HonestBatch(H, t, keys)) else Err("Key too short")
  }

  /** `get_multi_proof`: one proof per distinct key, in order. */
  method GetMultiProof(root: Node, keys: seq<Bytes>, ctx: HashContext) returns (r: Result<BatchMerkleProof>)
    requires root.Valid() && root.CachesOk(ctx.H) && ctx.Coherent()
    modifies root.Repr`hashCache, ctx
    ensures root.CachesOk(ctx.H) && ctx.Coherent()
    ensures r == ExpectedBatch(ctx.H, root.view, keys)
    ensures r.Ok? ==> CanonicallySorted(r.value, keys)
  {
    var orderedKeys := SortedSet(keys);
    var proofs: seq<MerkleProof> := [];
    var values: seq<Bytes> := [];
    var siblings: seq<Bytes> := [];  // only its set of elements is used
    for i := 0 to |orderedKeys|
      invariant root.CachesOk(ctx.H) && ctx.Coherent()
      invariant AllLongEnough(orderedKeys[..i])
      invariant proofs == HonestProofs(ctx.H, root.view, orderedKeys[..i])
      invariant values == ProofValuesOf(proofs) && siblings == SiblingsOf(proofs)
    {
      var proof := GetProof(root, orderedKeys[i], ctx);
      assert orderedKeys[i] in orderedKeys;
      if proof.Err? {
        return Err(proof.reason);
      }
      PartsAppend(proofs, proof.value);
      HonestProofsAppend(ctx.H, root.view, orderedKeys, i);
      proofs := proofs + [proof.value];
      values := values + [proof.value.value];
      siblings := siblings + proof.value.pathSiblings;
    }
    assert orderedKeys[..|orderedKeys|] == orderedKeys;
    BuiltBatchIsSorted(keys, proofs, values);
    r := Ok(BatchMerkleProof(orderedKeys, values, proofs, SortedSet(siblings), Range(|orderedKeys|)));
  }

  // ---------- whole runs ----------

  /** The public calls of `pbt/tree.py` on one tree. */
  datatype Call = Write(op: Op) | Read(key: Bytes) | Prove(key: Bytes) | ProveMany(keys: seq<Bytes>) | Root

  datatype Answer =
    | Written(accepted: bool)
    | Value(value: Result<Word>)
    | Proof(proof: Result<MerkleProof>)
    | ManyProofs(batch: Result<BatchMerkleProof>)
    | RootHash(hash: Word)

  /** What each call should answer, computed on the value of the tree without any cache. */
  function Expected(H: Hasher, t: Tree, call: Call): Answer {
    match call
    case Write(op) => Written(Accepted(op))
    case Read(key) => Value(GetKey(t, key))
    case Prove(key) => Proof(if |key| < 2 then Err("Key too short") else Ok(HonestProof(H, t, key)))
    case ProveMany(keys) => ManyProofs(ExpectedBatch(H, t, keys))
    case Root => RootHash(TreeHash(H, t))
  }

  function Writes(calls: seq<Call>): seq<Op> {
    if calls == [] then []
    else
      var last := calls[|calls| - 1];
      Writes(calls[..|calls| - 1]) + (if last.Write? then [last.op] else [])
  }

  function AllExpected(H: Hasher, calls: seq<Call>): seq<Answer> {
    if calls == [] then []
    else
      var before := calls[..|calls| - 1];
      AllExpected(H, before) + [Expected(H, Run(Writes(before)), calls[|calls| - 1])]
  }

  /** `insert` and `delete`: a rejected call raises before it touches the tree. */
  method WriteTo(root: Node, op: Op, ghost H: Hasher) returns (r: Node, accepted: bool)
    requires root.Valid() && root.CachesOk(H) && Canonical(root.view, [])
    modifies root.Repr
    ensures r.Valid() && r.CachesOk(H) && fresh(r.Repr - old(root.Repr))
    ensures r.view == Apply(old(root.view), op)
    ensures accepted == Accepted(op)
    ensures !accepted ==> r == root && unchanged(old(root.Repr))
  {
    if op.Put? && |op.value| != 32 {
      return root, false;
    }
    var parts := SplitKey(op.key);
    if parts.Err? {
      return root, false;
    }
    var (prefix, subindex) := parts.value;
    assert PathTo(prefix, 0) == [];
    if op.Put? {
      r := InsertNode(root, prefix, subindex, op.value, 0, H);
    } else {
      r := DeleteNode(root, prefix, subindex, 0, H);
    }
    accepted := true;
  }

  method Perform(root: Node, call: Call, ctx: HashContext) returns (r: Node, answer: Answer)
    requires root.Valid() && root.CachesOk(ctx.H) && ctx.Coherent() && Canonical(root.view, [])
    modifies root.Repr, ctx
    ensures r.Valid() && r.CachesOk(ctx.H) && ctx.Coherent() && fresh(r.Repr - old(root.Repr))
    ensures r.view == if call.Write? then Apply(old(root.view), call.op) else old(root.view)
    ensures answer == Expected(ctx.H, old(root.view), call)
  {
    r := root;
    match call
    case Write(op) =>
      var accepted;
      r, accepted := WriteTo(root, op, ctx.H);
      answer := Written(accepted);
    case Read(key) =>
      var parts := SplitKey(key);
      answer := Value(if parts.Err? then Err(parts.reason)
                      else Ok(GetNode(root, parts.value.0, parts.value.1, 0)));
    case Prove(key) =>
      var proof := GetProof(root, key, ctx);
      answer := Proof(proof);
    case ProveMany(keys) =>
      var batch := GetMultiProof(root, keys, ctx);
      answer := ManyProofs(batch);
    case Root =>
      var hash := root.NodeHash(ctx);
      answer := RootHash(hash);
  }

  lemma NoCalls(H: Hasher)
    ensures Run(Writes([])) == StemTree.Empty && AllExpected(H, []) == []
  {
  }

  lemma OneMoreCall(H: Hasher, calls: seq<Call>, i: nat)
    requires i < |calls|
    ensures var before := Run(Writes(calls[..i]));
            && Canonical(before, [])
            && AllExpected(H, calls[..i + 1]) == AllExpected(H, calls[..i]) + [Expected(H, before, calls[i])]
            && Run(Writes(calls[..i + 1])) == if calls[i].Write? then Apply(before, calls[i].op) else before
  {
    hide Expected, Apply, Canonical;
    assert calls[..i + 1][..i] == calls[..i];
    var ops := Writes(calls[..i]);
    if calls[i].Write? {
      assert (ops + [calls[i].op])[..|ops|] == ops;
    } else {
      assert ops + [] == ops;
    }
  }

  /** Any interleaving of insertions, deletions, reads, proofs, batches and root hashes, starting from the
      empty tree, answers as the cache-free tree of its writes would, and leaves a canonical tree
      with coherent caches. */
  method Replay(calls: seq<Call>, ctx: HashContext) returns (root: Node, answers: seq<Answer>)
    requires ctx.Coherent()
    modifies ctx
    ensures root.Valid() && root.CachesOk(ctx.H) && ctx.Coherent()
    ensures root.view == Run(Writes(calls)) && Canonical(root.view, [])
    ensures answers == AllExpected(ctx.H, calls)
  {
    hide Run, Writes, AllExpected, Expected, Apply, Canonical, TreeHash, Accepted;
    root := new Node.Empty();
    answers := [];
    NoCalls(ctx.H);
    assert calls[..0] == [];
    for i := 0 to |calls|
      invariant root.Valid() && root.CachesOk(ctx.H) && ctx.Coherent() && fresh(root.Repr)
      invariant root.view == Run(Writes(calls[..i]))
      invariant answers == AllExpected(ctx.H, calls[..i])
    {
      OneMoreCall(ctx.H, calls, i);
      var answer;
      root, answer := Perform(root, calls[i], ctx);
      answers := answers + [answer];
    }
    assert calls[..|calls|] == calls;
  }
}
