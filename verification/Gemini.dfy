/** VectorFold proofs in the Gemini prototype, where one compression function hashes stems, pairs of
    digests and pairs of leaves alike. */
module Gemini {
  import opened Basics
  import opened StemTree
  import opened History
  import opened RustTree
  import opened VectorFold
  import opened FoldBinding

  /** `gemini_compress`, whatever it computes. */
  type Compress = (Word, Word) -> Word

  /** What the stem hash reads of a prefix: its first 32 bytes, filled up with zeros. */
  function PrefixBlock(prefix: Bytes): Word {
    if |prefix| >= 32 then prefix[..32] else prefix + Zeros(32 - |prefix|)
  }

  lemma PrefixBlockMeans(prefix: Bytes, i: nat)
    requires i < 32
    ensures PrefixBlock(prefix)[i] == if i < |prefix| then prefix[i] else 0
  {
  }

  /** One round of the reduction: neighbours are compressed, an odd last one is dropped. */
  function Halve(c: Compress, level: seq<Word>): (next: seq<Word>)
    ensures |next| == |level| / 2
  {
    seq(|level| / 2, i requires 0 <= i < |level| / 2 => c(level[2 * i], level[2 * i + 1]))
  }

  /** All rounds: 256 values become one digest in eight. */
  function Top(c: Compress, level: seq<Word>): Word
    requires level != []
    decreases |level|
  {
    if |level| == 1 then level[0] else Top(c, Halve(c, level))
  }

  lemma TopHalves(c: Compress, level: seq<Word>)
    requires |level| > 1
    ensures Top(c, level) == Top(c, Halve(c, level))
  {
  }

  lemma TopOfOne(c: Compress, level: seq<Word>)
    requires |level| == 1
    ensures Top(c, level) == level[0]
  {
  }

  function GeminiStem(c: Compress, prefix: Bytes, values: Values): Word {
    c(PrefixBlock(prefix), Top(c, values))
  }

  /** `hash_stem` in the Gemini mode. */
  method HashStem(c: Compress, prefix: Bytes, values: Values) returns (digest: Word)
    ensures digest == GeminiStem(c, prefix, values)
  {
    hide Top, Halve;
    var level: seq<Word> := values;
    while |level| > 1
      invariant level != [] && Top(c, level) == Top(c, values)
      decreases |level|
    {
      TopHalves(c, level);
      level := NextLevel(c, level);
    }
    TopOfOne(c, level);
    digest := c(PrefixBlock(prefix), level[0]);
  }

  /** The loop over `chunks_exact(2)`. */
  method NextLevel(c: Compress, level: seq<Word>) returns (next: seq<Word>)
    ensures next == Halve(c, level)
  {
    next := [];
    for i := 0 to |level| / 2
      invariant next == Halve(c, level)[..i]
    {
      next := next + [c(level[2 * i], level[2 * i + 1])];
    }
  }

  function GeminiMode(c: Compress): ModeHash {
    ModeHash((prefix: Bytes, values: Values) => GeminiStem(c, prefix, values), c)
  }

  /** Hashing a stem is hashing a pair: the same call of the compression function. So this mode does not
      tell its inputs apart, whatever bytes its primitive is said to take in. */
  lemma StemIsPair(c: Compress, prefix: Bytes, values: Values)
    ensures GeminiMode(c).stem(prefix, values) == GeminiMode(c).pair(PrefixBlock(prefix), Top(c, values))
  {
  }

  // ---------- a stem inside the values of a stem ----------

  /** The siblings of the first element in the reduction, from the top down. */
  function LeftSpine(c: Compress, level: seq<Word>): seq<Word>
    decreases |level|
  {
    if |level| < 2 then [] else LeftSpine(c, Halve(c, level)) + [level[1]]
  }

  function AllLeft(n: nat): (bits: seq<bit>)
    ensures |bits| == n
  {
    seq(n, _ => 0)
  }

  lemma {:induction false} FoldFromBelow(m: ModeHash, leaf: Word, siblings: seq<Word>, bits: seq<bit>,
                                         sibling: Word, b: bit)
    requires |siblings| == |bits|
    ensures PairFold(m, leaf, siblings + [sibling], bits + [b])
         == PairFold(m, FoldPair(m, leaf, sibling, b), siblings, bits)
  {
    if siblings != [] {
      FoldFromBelow(m, leaf, siblings[1..], bits[1..], sibling, b);
      assert (siblings + [sibling])[1..] == siblings[1..] + [sibling] && (bits + [b])[1..] == bits[1..] + [b];
    } else {
      assert siblings + [sibling] == [sibling] && bits + [b] == [b];
      assert [sibling][1..] == [] && [b][1..] == [];
    }
  }

  lemma LongerSpine(c: Compress, level: seq<Word>)
    requires |level| > 1
    ensures LeftSpine(c, level) == LeftSpine(c, Halve(c, level)) + [level[1]]
    ensures AllLeft(|LeftSpine(c, level)|) == AllLeft(|LeftSpine(c, Halve(c, level))|) + [0]
  {
    hide Halve;
  }

  lemma ShortSpine(c: Compress, level: seq<Word>)
    requires |level| == 1
    ensures var spine := LeftSpine(c, level);
            PairFold(GeminiMode(c), level[0], spine, AllLeft(|spine|)) == level[0] == Top(c, level)
  {
  }

  /** Folding the first element along its siblings is the reduction. */
  lemma {:induction false} SpineFoldsToTop(c: Compress, level: seq<Word>)
    requires level != []
    ensures var spine := LeftSpine(c, level);
            PairFold(GeminiMode(c), level[0], spine, AllLeft(|spine|)) == Top(c, level)
    decreases |level|
  {
    if |level| > 1 {
      hide Top, LeftSpine, PairFold, AllLeft;
      var m, next := GeminiMode(c), Halve(c, level);
      var spine := LeftSpine(c, next);
      SpineFoldsToTop(c, next);
      TopHalves(c, level);
      LongerSpine(c, level);
      FoldFromBelow(m, level[0], spine, AllLeft(|spine|), level[1], 0);
      assert next[0] == FoldPair(m, level[0], level[1], 0);
    } else {
      ShortSpine(c, level);
    }
  }

  function Ones(): Word {
    seq(32, _ => 1)
  }

  /** The values of a stem that the tree does not hold. */
  function GuestValues(): Values {
    EMPTY_VALUES[5 := Ones()]
  }

  /** The values of a stem whose first two leaves are the arguments of the guest's stem hash. */
  function HostValues(c: Compress, q: Bytes): Values {
    EMPTY_VALUES[0 := PrefixBlock(q)][1 := Top(c, GuestValues())]
  }

  /** Down from the host's root to its values, then along them to the first pair, which is the guest. */
  function NestedSiblings(c: Compress, p: Bytes, q: Bytes): seq<Word> {
    [PrefixBlock(p)] + LeftSpine(c, Halve(c, HostValues(c, q)))
  }

  function NestedBits(n: nat): (bits: seq<bit>)
    requires n > 0
    ensures |bits| == n
  {
    [1] + AllLeft(n - 1)
  }

  function NestedProof(c: Compress, p: Bytes, q: Bytes): VectorFoldProof {
    var leaf, siblings := GeminiStem(c, q, GuestValues()), NestedSiblings(c, p, q);
    VectorFoldProof(q + [5], Ones(), GuestValues(), StepsOf(GeminiMode(c), leaf, siblings, NestedBits(|siblings|)),
                    GeminiStem(c, p, HostValues(c, q)), GeminiHash)
  }

  lemma NestedFold(c: Compress, p: Bytes, q: Bytes)
    ensures var siblings := NestedSiblings(c, p, q);
            PairFold(GeminiMode(c), GeminiStem(c, q, GuestValues()), siblings, NestedBits(|siblings|))
            == GeminiStem(c, p, HostValues(c, q))
  {
    hide Top;
    var host := HostValues(c, q);
    var level := Halve(c, host);
    var siblings := NestedSiblings(c, p, q);
    assert level[0] == c(host[0], host[1]) == GeminiStem(c, q, GuestValues());
    SpineFoldsToTop(c, level);
    TopHalves(c, host);
    assert siblings[1..] == LeftSpine(c, level) && NestedBits(|siblings|)[1..] == AllLeft(|siblings| - 1);
  }

  /** For every compression function and all prefixes, equal ones included: a tree of one stem, built by
      two insertions, and an accepted proof of a value that the tree does not hold for its key. */
  lemma NestedStemLies(modes: ProofMode -> ModeHash, c: Compress, empty: Word, p: Bytes, q: Bytes)
    returns (root: Tree)
    requires modes(GeminiHash) == GeminiMode(c) && p != [] && q != []
    ensures root == Run([Put(p + [0], PrefixBlock(q)), Put(p + [1], Top(c, GuestValues()))])
    ensures root == Stem(p, HostValues(c, q))
    ensures VectorFold.Accepted(modes, NestedProof(c, p, q)) && Prefix(NestedProof(c, p, q).key) == q
    ensures NestedProof(c, p, q).mode == GeminiHash
    ensures NestedProof(c, p, q).finalRoot == ModeRoot(TreeMode(modes(GeminiHash), empty), root)
    ensures GetKey(root, NestedProof(c, p, q).key) != Ok(NestedProof(c, p, q).value)
  {
    hide Top, StepsOf, CommitsToFolds, LeftSpine, Halve;
    var proof, siblings := NestedProof(c, p, q), NestedSiblings(c, p, q);
    var leaf, bits := GeminiStem(c, q, GuestValues()), NestedBits(|NestedSiblings(c, p, q)|);
    root := Stem(p, HostValues(c, q));
    TwoPuts(p, PrefixBlock(q), Top(c, GuestValues()));
    NestedFold(c, p, q);
    StepsSpellPath(GeminiMode(c), leaf, siblings, bits);
    assert Prefix(proof.key) == q && Subindex(proof.key) == 5;
    assert Ones()[0] == 1 && EMPTY_VALUE[0] == 0;
  }

  lemma TwoPuts(p: Bytes, first: Word, second: Word)
    requires p != []
    ensures Run([Put(p + [0], first), Put(p + [1], second)]) == Stem(p, EMPTY_VALUES[0 := first][1 := second])
  {
    var zero: byte, one: byte := 0, 1;
    RunOfOnePut(p, zero, first);
    var before := [Put(p + [zero], first)];
    var op := Put(p + [one], second);
    var ops := [Put(p + [zero], first), op];
    assert ops[..1] == before;
    assert Prefix(op.key) == p && Subindex(op.key) == one;
    assert SplitKey(op.key) == Ok((p, one));
    assert Run(ops) == Apply(Run(before), op);
  }

  // ---------- prefixes that share a block ----------

  /** A proof accepted for one prefix is accepted for every other with the same block. */
  lemma GeminiForgetsPrefixes(modes: ProofMode -> ModeHash, c: Compress, proof: VectorFoldProof, key: Bytes)
    requires modes(GeminiHash) == GeminiMode(c) && proof.mode == GeminiHash
    requires VectorFold.Accepted(modes, proof) && |key| >= 2
    requires Subindex(key) == Subindex(proof.key) && PrefixBlock(Prefix(key)) == PrefixBlock(Prefix(proof.key))
    ensures VectorFold.Accepted(modes, proof.(key := key))
  {
    hide PrefixBlock, Top;
  }

  /** Building succeeds for a stem that the tree does not hold, if it holds an all-empty one with its block. */
  lemma HollowNeighbourBuilds(n: RNode, h: TreeHasher, c: Compress, p: Bytes, key: Bytes)
    requires n == RStem(p, EMPTY_VALUES) && HashesLike(h, GeminiMode(c)) && |key| >= 2
    requires Prefix(key) != p && PrefixBlock(Prefix(key)) == PrefixBlock(p)
    ensures Prefix(key) !in Stems(Shape(n)) && TreeFold(GeminiMode(c), n, key, h) == NodeHash(n, h)
  {
    hide PrefixBlock, Top;
    assert GeminiMode(c).stem(p, EMPTY_VALUES) == NodeHash(n, h);
    BuildComparesDigests(n, h, GeminiMode(c), key);
  }

  // ---------- when acceptance means the correct value ----------

  /** The calls of the compression function that reduce a list of values. */
  ghost function LevelCalls(c: Compress, level: seq<Word>): set<(Word, Word)>
    decreases |level|
  {
    if |level| < 2 then {}
    else (set i | 0 <= i < |level| / 2 :: (level[2 * i], level[2 * i + 1])) + LevelCalls(c, Halve(c, level))
  }

  ghost function StemCalls(c: Compress, prefix: Bytes, values: Values): set<(Word, Word)> {
    LevelCalls(c, values) + {(PrefixBlock(prefix), Top(c, values))}
  }

  /** All calls made for the root of a tree, those inside its stems included. */
  ghost function TreeCalls(c: Compress, empty: Word, t: Tree): set<(Word, Word)> {
    match t
    case Empty => {}
    case Stem(prefix, values) => StemCalls(c, prefix, values)
    case Internal(left, right) =>
      var mode := TreeMode(GeminiMode(c), empty);
      {(ModeRoot(mode, left), ModeRoot(mode, right))} + TreeCalls(c, empty, left) + TreeCalls(c, empty, right)
  }

  /** All calls made in verifying a proof. */
  ghost function ProofCalls(c: Compress, proof: VectorFoldProof): set<(Word, Word)>
    requires |proof.key| >= 2 && AllShaped(proof.pathFolds)
  {
    var prefix := Prefix(proof.key);
    StemCalls(c, prefix, proof.stemValues)
    + PathPairs(GeminiMode(c), GeminiStem(c, prefix, proof.stemValues), SiblingsOf(proof.pathFolds),
                BitsOf(proof.pathFolds))
  }

  /** The tree and the verification of the proof call the compression function with two different pairs
      that have one digest. */
  ghost predicate CallsCollide(c: Compress, empty: Word, root: Tree, proof: VectorFoldProof) {
    && |proof.key| >= 2 && AllShaped(proof.pathFolds)
    && PairsCollide(GeminiMode(c), TreeCalls(c, empty, root), ProofCalls(c, proof))
  }

  /** An accepted Gemini proof for the root that a history leaves, with prefixes in `within` throughout. */
  ghost predicate AcceptedWithin(modes: ProofMode -> ModeHash, empty: Word, within: Bytes -> bool, ops: seq<Op>,
                                 proof: VectorFoldProof)
  {
    && (forall p <- Stems(Run(ops)) :: within(p))
    && proof.mode == GeminiHash && VectorFold.Accepted(modes, proof) && within(Prefix(proof.key))
    && proof.finalRoot == ModeRoot(TreeMode(modes(GeminiHash), empty), Run(ops))
  }

  /** Acceptance in the Gemini mode means the correct value, for trees and keys with prefixes in `within`. */
  ghost predicate GeminiTrueWithin(modes: ProofMode -> ModeHash, c: Compress, empty: Word, within: Bytes -> bool) {
    forall ops: seq<Op>, proof: VectorFoldProof :: AcceptedWithin(modes, empty, within, ops, proof)
      ==> GetKey(Run(ops), proof.key) == Ok(proof.value) || CallsCollide(c, empty, Run(ops), proof)
  }

  /** Exactly when an accepted Gemini proof means the correct value: where no prefix is in use. As soon as
      there is one, whatever the prefixes look like, there is an accepted proof of a wrong value, unless
      the compression function collides in checking that very proof. */
  lemma GeminiTrueExactly(modes: ProofMode -> ModeHash, c: Compress, empty: Word, within: Bytes -> bool)
    requires modes(GeminiHash) == GeminiMode(c)
    ensures (forall p :: within(p) ==> p == []) ==> GeminiTrueWithin(modes, c, empty, within)
    ensures GeminiTrueWithin(modes, c, empty, within) ==>
              forall p, q :: within(p) && within(q) && p != [] && q != [] ==>
                CallsCollide(c, empty, Stem(p, HostValues(c, q)), NestedProof(c, p, q))
  {
    hide HostValues, NestedProof, CallsCollide, ModeRoot;
    if GeminiTrueWithin(modes, c, empty, within) {
      forall p, q | within(p) && within(q) && p != [] && q != []
        ensures CallsCollide(c, empty, Stem(p, HostValues(c, q)), NestedProof(c, p, q))
      {
        var root := NestedStemLies(modes, c, empty, p, q);
        var ops := [Put(p + [0], PrefixBlock(q)), Put(p + [1], Top(c, GuestValues()))];
        assert AcceptedWithin(modes, empty, within, ops, NestedProof(c, p, q));
      }
    }
  }
}
