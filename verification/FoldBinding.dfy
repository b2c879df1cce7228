/** What an accepted VectorFold proof proves, for any mode: the tree hashed the way the mode hashes. */
module FoldBinding {
  import opened Basics
  import opened StemTree
  import opened History
  import opened Merkle
  import opened RustTree
  import opened VectorFold

  /** What one use of a mode's hashes takes in: nothing, a stem, or two digests. */
  datatype Input = NoInput | StemInput(prefix: Bytes, values: Values) | PairInput(left: Word, right: Word)

  /** A mode, and its digest of the empty string. */
  datatype TreeMode = TreeMode(m: ModeHash, empty: Word)

  function Digest(mode: TreeMode, x: Input): Word {
    match x
    case NoInput => mode.empty
    case StemInput(prefix, values) => mode.m.stem(prefix, values)
    case PairInput(left, right) => mode.m.pair(left, right)
  }

  function TopInput(mode: TreeMode, t: Tree): Input {
    match t
    case Empty => NoInput
    case Stem(prefix, values) => StemInput(prefix, values)
    case Internal(left, right) => PairInput(ModeRoot(mode, left), ModeRoot(mode, right))
  }

  /** The root of a tree hashed in this mode. */
  function ModeRoot(mode: TreeMode, t: Tree): Word {
    match t
    case Empty => mode.empty
    case Stem(prefix, values) => mode.m.stem(prefix, values)
    case Internal(left, right) => mode.m.pair(ModeRoot(mode, left), ModeRoot(mode, right))
  }

  /** Everything that is hashed for the root. */
  ghost function TreeInputs(mode: TreeMode, t: Tree): set<Input> {
    {TopInput(mode, t)}
    + match t
      case Internal(left, right) => TreeInputs(mode, left) + TreeInputs(mode, right)
      case _ => {}
  }

  function FoldInput(mode: TreeMode, leaf: Word, siblings: seq<Word>, bits: seq<bit>): Input
    requires |siblings| == |bits| && siblings != []
  {
    var below := PairFold(mode.m, leaf, siblings[1..], bits[1..]);
    if bits[0] == 0 then PairInput(below, siblings[0]) else PairInput(siblings[0], below)
  }

  /** Everything that is hashed in folding a stem up a path. */
  ghost function FoldInputs(mode: TreeMode, prefix: Bytes, values: Values, siblings: seq<Word>, bits: seq<bit>)
    : set<Input>
    requires |siblings| == |bits|
  {
    if siblings == [] then {StemInput(prefix, values)}
    else
      {FoldInput(mode, mode.m.stem(prefix, values), siblings, bits)}
      + FoldInputs(mode, prefix, values, siblings[1..], bits[1..])
  }

  // ---------- the primitive below the mode ----------

  /** The primitive that computes a mode's digests, and the bytes that it is fed for each input. */
  datatype Feed = Feed(primitive: Bytes -> Word, bytes: Input -> Bytes)

  ghost predicate Computes(f: Feed, mode: TreeMode) {
    forall x: Input :: Digest(mode, x) == f.primitive(f.bytes(x))
  }

  /** The bytes tell the inputs apart: stems, pairs and the empty string are never fed alike. */
  ghost predicate Separated(f: Feed) {
    forall x: Input, y: Input :: f.bytes(x) == f.bytes(y) ==> x == y
  }

  /** A collision of the primitive: two different byte strings fed to it, one for each set, with one digest. */
  ghost predicate InputsCollide(f: Feed, a: set<Input>, b: set<Input>) {
    exists x <- a, y <- b :: f.bytes(x) != f.bytes(y) && f.primitive(f.bytes(x)) == f.primitive(f.bytes(y))
  }

  lemma InputsCollideUpward(f: Feed, a: set<Input>, b: set<Input>, c: set<Input>, d: set<Input>)
    requires a <= c && b <= d && InputsCollide(f, a, b)
    ensures InputsCollide(f, c, d)
  {
  }

  function ModeSiblings(mode: TreeMode, t: Tree, prefix: Bytes, depth: nat): seq<Word> {
    if !t.Internal? then []
    else if PathBitAt(prefix, depth) == 0 then
      [ModeRoot(mode, t.right)] + ModeSiblings(mode, t.left, prefix, depth + 1)
    else
      [ModeRoot(mode, t.left)] + ModeSiblings(mode, t.right, prefix, depth + 1)
  }

  /** The stem is in the tree, and the path is the one that leads to it. */
  ghost predicate LeadsToStem(mode: TreeMode, t: Tree, depth: nat, prefix: Bytes, values: Values,
                              siblings: seq<Word>, bits: seq<bit>)
  {
    && prefix in Stems(t) && Stems(t)[prefix] == values
    && siblings == ModeSiblings(mode, t, prefix, depth)
    && |bits| == |siblings| == PathLength(t, prefix, depth)
    && forall i :: 0 <= i < |bits| ==> bits[i] == PathBitAt(prefix, depth + i)
  }

  /** In a mode that tells its inputs apart, a fold that ends at the root of a canonical tree runs through
      that tree to the stem, along the stem's own path, or exhibits a collision of the primitive. */
  lemma {:induction false} FoldLeadsToStem(mode: TreeMode, f: Feed, t: Tree, path: seq<bit>, prefix: Bytes,
                                           values: Values, siblings: seq<Word>, bits: seq<bit>)
    requires Computes(f, mode) && Separated(f)
    requires Canonical(t, path) && |siblings| == |bits|
    requires PairFold(mode.m, mode.m.stem(prefix, values), siblings, bits) == ModeRoot(mode, t)
    ensures || LeadsToStem(mode, t, |path|, prefix, values, siblings, bits)
            || InputsCollide(f, TreeInputs(mode, t), FoldInputs(mode, prefix, values, siblings, bits))
  {
    var x := TopInput(mode, t);
    if siblings == [] {
      var y := StemInput(prefix, values);
      DigestsMeet(mode, f, x, y, TreeInputs(mode, t), FoldInputs(mode, prefix, values, siblings, bits));
    } else {
      var y := FoldInput(mode, mode.m.stem(prefix, values), siblings, bits);
      DigestsMeet(mode, f, x, y, TreeInputs(mode, t), FoldInputs(mode, prefix, values, siblings, bits));
      if x == y {
        var child := if bits[0] == 0 then t.left else t.right;
        FoldLeadsToStem(mode, f, child, path + [bits[0]], prefix, values, siblings[1..], bits[1..]);
        if LeadsToStem(mode, child, |path| + 1, prefix, values, siblings[1..], bits[1..]) {
          OneLevelUp(mode, t, path, prefix, values, siblings, bits);
        } else {
          InputsCollideUpward(f, TreeInputs(mode, child), FoldInputs(mode, prefix, values, siblings[1..], bits[1..]),
                              TreeInputs(mode, t), FoldInputs(mode, prefix, values, siblings, bits));
        }
      }
    }
  }

  lemma DigestsMeet(mode: TreeMode, f: Feed, x: Input, y: Input, a: set<Input>, b: set<Input>)
    requires Computes(f, mode) && Separated(f) && x in a && y in b
    requires Digest(mode, x) == Digest(mode, y)
    ensures x == y || InputsCollide(f, a, b)
  {
  }

  lemma OneLevelUp(mode: TreeMode, t: Tree, path: seq<bit>, prefix: Bytes, values: Values,
                   siblings: seq<Word>, bits: seq<bit>)
    requires t.Internal? && Canonical(t, path) && |siblings| == |bits| > 0
    requires siblings[0] == ModeRoot(mode, if bits[0] == 0 then t.right else t.left)
    requires LeadsToStem(mode, if bits[0] == 0 then t.left else t.right, |path| + 1, prefix, values,
                         siblings[1..], bits[1..])
    ensures LeadsToStem(mode, t, |path|, prefix, values, siblings, bits)
  {
    SidesDiffer(t, path);
    assert siblings == [siblings[0]] + siblings[1..];
    forall i | 0 <= i < |bits| ensures bits[i] == PathBitAt(prefix, |path| + i) {
      if i > 0 {
        assert bits[1..][i - 1] == PathBitAt(prefix, |path| + 1 + (i - 1));
      }
    }
  }

  ghost predicate ProofInputsCollide(mode: TreeMode, f: Feed, root: Tree, proof: VectorFoldProof) {
    && AllShaped(proof.pathFolds) && |proof.key| >= 2
    && InputsCollide(f, TreeInputs(mode, root),
                     FoldInputs(mode, Prefix(proof.key), proof.stemValues, SiblingsOf(proof.pathFolds),
                                BitsOf(proof.pathFolds)))
  }

  /** An accepted VectorFold proof that ends at the root of a canonical tree, hashed in the proof's mode,
      carries the key's stem in that tree, its value and its path, or exhibits a collision of the primitive;
      for every mode that tells its inputs apart. */
  lemma AcceptedFoldIsTrue(modes: ProofMode -> ModeHash, mode: TreeMode, f: Feed, root: Tree, proof: VectorFoldProof)
    requires Computes(f, mode) && Separated(f) && mode.m == modes(proof.mode)
    requires Canonical(root, []) && VectorFold.Accepted(modes, proof)
    requires proof.finalRoot == ModeRoot(mode, root)
    ensures || ProofInputsCollide(mode, f, root, proof)
            || (&& GetKey(root, proof.key) == Ok(proof.value)
                && LeadsToStem(mode, root, 0, Prefix(proof.key), proof.stemValues, SiblingsOf(proof.pathFolds),
                               BitsOf(proof.pathFolds)))
  {
    var prefix := Prefix(proof.key);
    var siblings, bits := SiblingsOf(proof.pathFolds), BitsOf(proof.pathFolds);
    FoldLeadsToStem(mode, f, root, [], prefix, proof.stemValues, siblings, bits);
    assert PathTo(prefix, 0) == [];
    GetReadsMap(root, prefix, Subindex(proof.key), 0);
  }

  // ---------- when building succeeds ----------

  /** The owned tree hashes stems and pairs as the mode does. */
  ghost predicate HashesLike(h: TreeHasher, m: ModeHash) {
    && (forall prefix: Bytes, values: Values :: h.hash(StemPayload(prefix, values)) == m.stem(prefix, values))
    && (forall l: Word, r: Word :: h.hashPair(l, r) == m.pair(l, r))
  }

  lemma {:induction false} OwnedRootIsModeRoot(n: RNode, h: TreeHasher, m: ModeHash)
    requires HashesOk(n, h) && HashesLike(h, m)
    ensures NodeHash(n, h) == ModeRoot(TreeMode(m, h.hash([])), Shape(n))
  {
    if n.RInternal? {
      OwnedRootIsModeRoot(n.left, h, m);
      OwnedRootIsModeRoot(n.right, h, m);
    }
  }

  /** Folding the digest of the node at which a key's path ends gives the root, in any mode. */
  lemma {:induction false} TerminalFoldsToRoot(n: RNode, h: TreeHasher, m: ModeHash, prefix: Bytes, depth: nat,
                                               siblings: seq<Word>, bits: seq<bit>)
    requires HashesOk(n, h) && HashesLike(h, m)
    requires siblings == StoredSiblings(n, prefix, depth, h) && |bits| == |siblings|
    requires forall i :: 0 <= i < |bits| ==> bits[i] == PathBitAt(prefix, depth + i)
    ensures PairFold(m, ModeRoot(TreeMode(m, h.hash([])), Terminal(Shape(n), prefix, depth)), siblings, bits)
         == NodeHash(n, h)
  {
    if n.RInternal? {
      var child := if bits[0] == 0 then n.left else n.right;
      assert siblings[1..] == StoredSiblings(child, prefix, depth + 1, h);
      TerminalFoldsToRoot(child, h, m, prefix, depth + 1, siblings[1..], bits[1..]);
    } else {
      OwnedRootIsModeRoot(n, h, m);
    }
  }

  /** The arguments of the pair hash in folding `leaf` up a path. */
  ghost function PathPairs(m: ModeHash, leaf: Word, siblings: seq<Word>, bits: seq<bit>): set<(Word, Word)>
    requires |siblings| == |bits|
  {
    if siblings == [] then {}
    else
      var below := PairFold(m, leaf, siblings[1..], bits[1..]);
      {if bits[0] == 0 then (below, siblings[0]) else (siblings[0], below)}
      + PathPairs(m, leaf, siblings[1..], bits[1..])
  }

  ghost predicate PairsCollide(m: ModeHash, a: set<(Word, Word)>, b: set<(Word, Word)>) {
    exists x <- a, y <- b :: x != y && m.pair(x.0, x.1) == m.pair(y.0, y.1)
  }

  /** Two digests that fold to one root along one path are equal, or the pair hash has a collision. */
  lemma {:induction false} SameFoldSameLeaf(m: ModeHash, a: Word, b: Word, siblings: seq<Word>, bits: seq<bit>)
    requires |siblings| == |bits| && PairFold(m, a, siblings, bits) == PairFold(m, b, siblings, bits)
    ensures a == b || PairsCollide(m, PathPairs(m, a, siblings, bits), PathPairs(m, b, siblings, bits))
  {
    if siblings != [] {
      var u, v := PairFold(m, a, siblings[1..], bits[1..]), PairFold(m, b, siblings[1..], bits[1..]);
      var x := if bits[0] == 0 then (u, siblings[0]) else (siblings[0], u);
      var y := if bits[0] == 0 then (v, siblings[0]) else (siblings[0], v);
      if u == v {
        SameFoldSameLeaf(m, a, b, siblings[1..], bits[1..]);
      } else {
        assert x in PathPairs(m, a, siblings, bits) && y in PathPairs(m, b, siblings, bits) && x != y;
      }
    }
  }

  /** In any mode that the tree is hashed in, the fold that `build_vector_fold_proof` compares with the
      root is the root exactly when the stem it claims and the node at which the key's path ends have one
      digest, collisions of the pair hash apart. */
  lemma BuildComparesDigests(n: RNode, h: TreeHasher, m: ModeHash, key: Bytes)
    requires HashesOk(n, h) && HashesLike(h, m) && |key| >= 2
    ensures |StoredSiblings(n, Prefix(key), 0, h)| == PathLength(Shape(n), Prefix(key), 0)
    ensures var prefix, siblings := Prefix(key), StoredSiblings(n, Prefix(key), 0, h);
            var end, bits := Terminal(Shape(n), prefix, 0), PathTo(prefix, PathLength(Shape(n), prefix, 0));
            var claimed, found := m.stem(prefix, ProofValues(end, prefix)), ModeRoot(TreeMode(m, h.hash([])), end);
            && (claimed == found ==> TreeFold(m, n, key, h) == NodeHash(n, h))
            && (TreeFold(m, n, key, h) == NodeHash(n, h) ==>
                  || claimed == found
                  || PairsCollide(m, PathPairs(m, claimed, siblings, bits), PathPairs(m, found, siblings, bits)))
  {
    var prefix := Prefix(key);
    var siblings, bits := StoredSiblings(n, prefix, 0, h), PathTo(prefix, PathLength(Shape(n), prefix, 0));
    var end := Terminal(Shape(n), prefix, 0);
    var claimed, found := m.stem(prefix, ProofValues(end, prefix)), ModeRoot(TreeMode(m, h.hash([])), end);
    StoredSiblingsLength(n, prefix, 0, h);
    TerminalFoldsToRoot(n, h, m, prefix, 0, siblings, bits);
    if TreeFold(m, n, key, h) == NodeHash(n, h) {
      SameFoldSameLeaf(m, claimed, found, siblings, bits);
    }
  }

  /** So it succeeds, in any mode, when the key's stem is in the tree; and in a mode that tells its inputs
      apart only then, collisions of the primitive apart. */
  lemma BuildSucceedsExactly(n: RNode, h: TreeHasher, m: ModeHash, f: Feed, key: Bytes)
    requires Canonical(Shape(n), []) && HashesOk(n, h) && HashesLike(h, m) && |key| >= 2
    ensures Prefix(key) in Stems(Shape(n)) ==> TreeFold(m, n, key, h) == NodeHash(n, h)
    ensures |StoredSiblings(n, Prefix(key), 0, h)| == PathLength(Shape(n), Prefix(key), 0)
    ensures var mode := TreeMode(m, h.hash([]));
            Computes(f, mode) && Separated(f) && TreeFold(m, n, key, h) == NodeHash(n, h) ==>
              var prefix := Prefix(key);
              var values := ProofValues(Terminal(Shape(n), prefix, 0), prefix);
              var bits := PathTo(prefix, PathLength(Shape(n), prefix, 0));
              || prefix in Stems(Shape(n))
              || InputsCollide(f, TreeInputs(mode, Shape(n)),
                               FoldInputs(mode, prefix, values, StoredSiblings(n, prefix, 0, h), bits))
  {
    var t, prefix, mode := Shape(n), Prefix(key), TreeMode(m, h.hash([]));
    var siblings, bits := StoredSiblings(n, prefix, 0, h), PathTo(prefix, PathLength(t, prefix, 0));
    var values := ProofValues(Terminal(t, prefix, 0), prefix);
    assert PathTo(prefix, 0) == [];
    TerminalHoldsStem(t, prefix, 0);
    StoredSiblingsLength(n, prefix, 0, h);
    OwnedRootIsModeRoot(n, h, m);
    BuildComparesDigests(n, h, m, key);
    if Computes(f, mode) && Separated(f) && TreeFold(m, n, key, h) == NodeHash(n, h) && prefix !in Stems(t) {
      FoldLeadsToStem(mode, f, t, [], prefix, values, siblings, bits);
    }
  }

  // ---------- modes that hash one byte string ----------

  /** Blake3 behind a tag; the Poseidon2 mode of the source with the tag `b"poseidon2:"`. */
  function Tagged(blake3: Hasher, tag: Bytes): Feed {
    Feed(blake3, (x: Input) => tag + StringOf(x))
  }

  function StringOf(x: Input): Bytes {
    match x
    case NoInput => []
    case StemInput(prefix, values) => StemPayload(prefix, values)
    case PairInput(left, right) => left + right
  }

  const POSEIDON2_TAG: Bytes := [112, 111, 115, 101, 105, 100, 111, 110, 50, 58]

  lemma StringsDiffer(x: Input, y: Input)
    requires StringOf(x) == StringOf(y)
    ensures x == y
  {
    if x.StemInput? {
      StemPayloadLength(x.prefix, x.values);
    }
    if y.StemInput? {
      StemPayloadLength(y.prefix, y.values);
    }
    if x.StemInput? && y.StemInput? {
      StemPayloadInjective(x.prefix, x.values, y.prefix, y.values);
    } else if x.PairInput? && y.PairInput? {
      assert (x.left + x.right)[..32] == x.left && (y.left + y.right)[..32] == y.left;
      assert (x.left + x.right)[32..] == x.right && (y.left + y.right)[32..] == y.right;
    }
  }

  /** A mode that hashes one byte string tells its inputs apart, by their lengths. */
  lemma TaggedIsSeparated(blake3: Hasher, tag: Bytes)
    ensures Separated(Tagged(blake3, tag))
  {
    var f := Tagged(blake3, tag);
    forall x: Input, y: Input | f.bytes(x) == f.bytes(y) ensures x == y {
      assert (tag + StringOf(x))[|tag|..] == StringOf(x) && (tag + StringOf(y))[|tag|..] == StringOf(y);
      StringsDiffer(x, y);
    }
  }

  /** The Poseidon2 hasher and the Poseidon2 mode of the source: the two agree, and Blake3 computes them. */
  lemma Poseidon2HashesLike(blake3: Hasher, h: TreeHasher)
    requires h.hash == Poseidon2Hasher(blake3) && PairIsConcat(h)
    ensures HashesLike(h, Poseidon2Mode(blake3))
    ensures Computes(Tagged(blake3, POSEIDON2_TAG), TreeMode(Poseidon2Mode(blake3), h.hash([])))
    ensures Separated(Tagged(blake3, POSEIDON2_TAG))
  {
    TaggedIsSeparated(blake3, POSEIDON2_TAG);
    var f, mode := Tagged(blake3, POSEIDON2_TAG), TreeMode(Poseidon2Mode(blake3), h.hash([]));
    forall x: Input ensures Digest(mode, x) == f.primitive(f.bytes(x)) {
      match x
      case NoInput =>
      case StemInput(prefix, values) =>
      case PairInput(left, right) =>
    }
  }
}
