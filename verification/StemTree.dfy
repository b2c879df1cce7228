/** The tree as a value: the operations of `pbt/tree.py` as functions, the canonical form, and the
    abstract map from stem prefixes to their 256 values that the operations implement. */
module StemTree {
  import opened Basics

  datatype Tree =
    | Empty
    | Stem(prefix: Bytes, values: Values)
    | Internal(left: Tree, right: Tree)

  /** What a tree holds, forgetting its shape. */
  type StemMap = map<Bytes, Values>

  function Stems(t: Tree): StemMap {
    match t
    case Empty => map[]
    case Stem(prefix, values) => map[prefix := values]
    case Internal(left, right) => Stems(left) + Stems(right)
  }

  /** Children that `_delete` replaces by a smaller node. A lone internal child is not among them. */
  predicate Collapses(left: Tree, right: Tree) {
    (left.Empty? && !right.Internal?) || (right.Empty? && !left.Internal?)
  }

  /** The canonical minimal form of a subtree reached along `path`: every stem lies on its own
      bit path, and no internal node has children that should have been collapsed. */
  ghost predicate Canonical(t: Tree, path: seq<bit>) {
    match t
    case Empty => true
    case Stem(prefix, _) => PathTo(prefix, |path|) == path
    case Internal(left, right) =>
      Canonical(left, path + [0]) && Canonical(right, path + [1]) && !Collapses(left, right)
  }

  // ---------- the operations ----------

  function FreshStem(prefix: Bytes, subindex: byte, value: Word): Tree {
    Stem(prefix, EMPTY_VALUES[subindex := value])
  }

  function SplitStems(existing: Tree, prefix: Bytes, subindex: byte, value: Word, depth: nat): Tree
    requires existing.Stem? && existing.prefix != prefix
    requires PathTo(existing.prefix, depth) == PathTo(prefix, depth)
    decreases 8 * Max(|existing.prefix|, |prefix|) + 1 - depth
  {
    SharedPathIsShort(existing.prefix, prefix, depth);
    var bitExisting, bitNew := PathBitAt(existing.prefix, depth), PathBitAt(prefix, depth);
    if bitExisting == bitNew then
      PathToNext(existing.prefix, depth);
      PathToNext(prefix, depth);
      var child := SplitStems(existing, prefix, subindex, value, depth + 1);
      if bitExisting == 0 then Internal(child, Empty) else Internal(Empty, child)
    else if bitNew == 0 then Internal(FreshStem(prefix, subindex, value), existing)
    else Internal(existing, FreshStem(prefix, subindex, value))
  }

  function Insert(t: Tree, prefix: Bytes, subindex: byte, value: Word, depth: nat): Tree
    requires Canonical(t, PathTo(prefix, depth))
  {
    match t
    case Empty => FreshStem(prefix, subindex, value)
    case Stem(existing, values) =>
      if existing == prefix then Stem(prefix, values[subindex := value])
      else SplitStems(t, prefix, subindex, value, depth)
    case Internal(left, right) =>
      PathToNext(prefix, depth);
      if PathBitAt(prefix, depth) == 0 then
        Internal(Insert(left, prefix, subindex, value, depth + 1), right)
      else
        Internal(left, Insert(right, prefix, subindex, value, depth + 1))
  }

  function Get(t: Tree, prefix: Bytes, subindex: byte, depth: nat): Word {
    match t
    case Empty => EMPTY_VALUE
    case Stem(existing, values) => if existing == prefix then values[subindex] else EMPTY_VALUE
    case Internal(left, right) =>
      if PathBitAt(prefix, depth) == 0 then Get(left, prefix, subindex, depth + 1)
      else Get(right, prefix, subindex, depth + 1)
  }

  predicate IsHollow(values: Values) {
    forall v <- values :: v == EMPTY_VALUE
  }

  function Collapse(left: Tree, right: Tree): Tree {
    if left.Empty? && right.Empty? then Empty
    else if left.Empty? && right.Stem? then right
    else if right.Empty? && left.Stem? then left
    else Internal(left, right)
  }

  function Delete(t: Tree, prefix: Bytes, subindex: byte, depth: nat): Tree {
    match t
    case Empty => Empty
    case Stem(existing, values) =>
      if existing != prefix then t
      else if IsHollow(values[subindex := EMPTY_VALUE]) then Empty
      else Stem(prefix, values[subindex := EMPTY_VALUE])
    case Internal(left, right) =>
      if PathBitAt(prefix, depth) == 0 then Collapse(Delete(left, prefix, subindex, depth + 1), right)
      else Collapse(left, Delete(right, prefix, subindex, depth + 1))
  }

  // ---------- the abstract map ----------

  function ValuesAt(m: StemMap, prefix: Bytes): Values {
    if prefix in m then m[prefix] else EMPTY_VALUES
  }

  function StemGet(m: StemMap, prefix: Bytes, subindex: byte): Word {
    ValuesAt(m, prefix)[subindex]
  }

  function StemPut(m: StemMap, prefix: Bytes, subindex: byte, value: Word): StemMap {
    m[prefix := ValuesAt(m, prefix)[subindex := value]]
  }

  function StemDelete(m: StemMap, prefix: Bytes, subindex: byte): StemMap {
    var values := ValuesAt(m, prefix)[subindex := EMPTY_VALUE];
    if prefix !in m then m
    else if IsHollow(values) then m - {prefix}
    else m[prefix := values]
  }

  // ---------- canonical trees and their maps ----------

  lemma {:induction false} StemsLieOnPath(t: Tree, path: seq<bit>)
    requires Canonical(t, path)
    ensures forall p <- Stems(t) :: PathTo(p, |path|) == path
  {
    if t.Internal? {
      StemsLieOnPath(t.left, path + [0]);
      StemsLieOnPath(t.right, path + [1]);
      forall p | p in Stems(t)
        ensures PathTo(p, |path|) == path
      {
        var b: bit :| PathTo(p, |path| + 1) == path + [b];
        assert PathTo(p, |path|) == PathTo(p, |path| + 1)[..|path|];
      }
    }
  }

  /** The path down to a canonical subtree begins the spelling of every stem below: its bytes, most
      significant bit first, then 1, then zeros. */
  lemma StemsSpellPath(t: Tree, path: seq<bit>, p: Bytes)
    requires Canonical(t, path) && p in Stems(t)
    ensures exists full :: SpellsPrefix(full, p) && path <= full
  {
    hide SpellsPrefix;
    StemsLieOnPath(t, path);
    PathBeginsSpelling(p, |path|);
  }

  /** Below an internal node the next path bit tells the two sides apart. */
  lemma SidesDiffer(t: Tree, path: seq<bit>)
    requires t.Internal? && Canonical(t, path)
    ensures forall p <- Stems(t.left) :: PathBitAt(p, |path|) == 0
    ensures forall p <- Stems(t.right) :: PathBitAt(p, |path|) == 1
    ensures Stems(t.left).Keys !! Stems(t.right).Keys
  {
    StemsLieOnPath(t.left, path + [0]);
    StemsLieOnPath(t.right, path + [1]);
    forall p | p in Stems(t.left) ensures PathBitAt(p, |path|) == 0 {
      assert PathTo(p, |path| + 1)[|path|] == 0;
    }
    forall p | p in Stems(t.right) ensures PathBitAt(p, |path|) == 1 {
      assert PathTo(p, |path| + 1)[|path|] == 1;
    }
  }

  /** `get` reads the abstract map. */
  lemma {:induction false} GetReadsMap(t: Tree, prefix: Bytes, subindex: byte, depth: nat)
    requires Canonical(t, PathTo(prefix, depth))
    ensures Get(t, prefix, subindex, depth) == StemGet(Stems(t), prefix, subindex)
  {
    if t.Internal? {
      PathToNext(prefix, depth);
      SidesDiffer(t, PathTo(prefix, depth));
      if PathBitAt(prefix, depth) == 0 {
        GetReadsMap(t.left, prefix, subindex, depth + 1);
      } else {
        GetReadsMap(t.right, prefix, subindex, depth + 1);
      }
    }
  }

  /** An update of one side is an update of the whole. */
  lemma PutOnOneSide(a: StemMap, b: StemMap, prefix: Bytes, subindex: byte, value: Word)
    requires a.Keys !! b.Keys && prefix !in b
    ensures StemPut(a, prefix, subindex, value) + b == StemPut(a + b, prefix, subindex, value)
    ensures b + StemPut(a, prefix, subindex, value) == StemPut(b + a, prefix, subindex, value)
  {
    hide ValuesAt;
    SameValuesAt(a, b, prefix);
    UpdateOnOneSide(a, b, prefix, ValuesAt(a, prefix)[subindex := value]);
  }

  lemma SameValuesAt(a: StemMap, b: StemMap, prefix: Bytes)
    requires prefix !in b
    ensures ValuesAt(a + b, prefix) == ValuesAt(b + a, prefix) == ValuesAt(a, prefix)
  {
  }

  lemma UpdateOnOneSide(a: StemMap, b: StemMap, prefix: Bytes, values: Values)
    requires a.Keys !! b.Keys && prefix !in b
    ensures a[prefix := values] + b == (a + b)[prefix := values]
    ensures b + a[prefix := values] == (b + a)[prefix := values]
  {
  }

  lemma RemoveOnOneSide(a: StemMap, b: StemMap, prefix: Bytes)
    requires a.Keys !! b.Keys && prefix !in b
    ensures (a - {prefix}) + b == (a + b) - {prefix}
    ensures b + (a - {prefix}) == (b + a) - {prefix}
  {
  }

  lemma DeleteOnOneSide(a: StemMap, b: StemMap, prefix: Bytes, subindex: byte)
    requires a.Keys !! b.Keys && prefix !in b
    ensures StemDelete(a, prefix, subindex) + b == StemDelete(a + b, prefix, subindex)
    ensures b + StemDelete(a, prefix, subindex) == StemDelete(b + a, prefix, subindex)
  {
    hide ValuesAt, IsHollow;
    SameValuesAt(a, b, prefix);
    UpdateOnOneSide(a, b, prefix, ValuesAt(a, prefix)[subindex := EMPTY_VALUE]);
    RemoveOnOneSide(a, b, prefix);
  }

  lemma FreshStemPut(m: StemMap, prefix: Bytes, subindex: byte, value: Word)
    requires prefix !in m
    ensures Stems(FreshStem(prefix, subindex, value)) + m == StemPut(m, prefix, subindex, value)
    ensures m + Stems(FreshStem(prefix, subindex, value)) == StemPut(m, prefix, subindex, value)
  {
  }

  lemma {:induction false} SplitAddsStem(existing: Tree, prefix: Bytes, subindex: byte, value: Word, depth: nat)
    requires existing.Stem? && existing.prefix != prefix
    requires PathTo(existing.prefix, depth) == PathTo(prefix, depth)
    ensures SplitStems(existing, prefix, subindex, value, depth).Internal?
    ensures Canonical(SplitStems(existing, prefix, subindex, value, depth), PathTo(prefix, depth))
    ensures Stems(SplitStems(existing, prefix, subindex, value, depth))
         == StemPut(Stems(existing), prefix, subindex, value)
    decreases 8 * Max(|existing.prefix|, |prefix|) + 1 - depth
  {
    SharedPathIsShort(existing.prefix, prefix, depth);
    PathToNext(existing.prefix, depth);
    PathToNext(prefix, depth);
    if PathBitAt(existing.prefix, depth) == PathBitAt(prefix, depth) {
      SplitAddsStem(existing, prefix, subindex, value, depth + 1);
      var child := SplitStems(existing, prefix, subindex, value, depth + 1);
      assert Stems(child) + map[] == Stems(child) == map[] + Stems(child);
    } else {
      FreshStemPut(Stems(existing), prefix, subindex, value);
    }
  }

  /** `insert` keeps the tree canonical and updates exactly one entry of the map. */
  lemma {:induction false} InsertRefinesPut(t: Tree, prefix: Bytes, subindex: byte, value: Word, depth: nat)
    requires Canonical(t, PathTo(prefix, depth))
    ensures Canonical(Insert(t, prefix, subindex, value, depth), PathTo(prefix, depth))
    ensures Stems(Insert(t, prefix, subindex, value, depth)) == StemPut(Stems(t), prefix, subindex, value)
    ensures !Insert(t, prefix, subindex, value, depth).Empty?
    ensures t.Internal? ==> Insert(t, prefix, subindex, value, depth).Internal?
  {
    match t
    case Empty =>
    case Stem(existing, values) =>
      if existing != prefix {
        SplitAddsStem(t, prefix, subindex, value, depth);
      }
    case Internal(left, right) =>
      PathToNext(prefix, depth);
      SidesDiffer(t, PathTo(prefix, depth));
      if PathBitAt(prefix, depth) == 0 {
        InsertRefinesPut(left, prefix, subindex, value, depth + 1);
        PutOnOneSide(Stems(left), Stems(right), prefix, subindex, value);
      } else {
        InsertRefinesPut(right, prefix, subindex, value, depth + 1);
        PutOnOneSide(Stems(right), Stems(left), prefix, subindex, value);
      }
  }

  lemma CollapseIsCanonical(left: Tree, right: Tree, path: seq<bit>)
    requires Canonical(left, path + [0]) && Canonical(right, path + [1])
    ensures Canonical(Collapse(left, right), path)
    ensures Stems(Collapse(left, right)) == Stems(left) + Stems(right)
  {
    forall s: Tree | s.Stem? && s in {left, right}
      ensures PathTo(s.prefix, |path|) == path
    {
      var b: bit :| PathTo(s.prefix, |path| + 1) == path + [b];
      assert PathTo(s.prefix, |path|) == PathTo(s.prefix, |path| + 1)[..|path|];
    }
  }

  /** `delete` keeps the tree canonical, through collapses of any height, and erases exactly one
      leaf, dropping the stem when no leaf is left. */
  lemma {:induction false} DeleteRefinesMap(t: Tree, prefix: Bytes, subindex: byte, depth: nat)
    requires Canonical(t, PathTo(prefix, depth))
    ensures Canonical(Delete(t, prefix, subindex, depth), PathTo(prefix, depth))
    ensures Stems(Delete(t, prefix, subindex, depth)) == StemDelete(Stems(t), prefix, subindex)
  {
    if t.Internal? {
      var path := PathTo(prefix, depth);
      PathToNext(prefix, depth);
      SidesDiffer(t, path);
      if PathBitAt(prefix, depth) == 0 {
        DeleteRefinesMap(t.left, prefix, subindex, depth + 1);
        DeleteOnOneSide(Stems(t.left), Stems(t.right), prefix, subindex);
        CollapseIsCanonical(Delete(t.left, prefix, subindex, depth + 1), t.right, path);
      } else {
        DeleteRefinesMap(t.right, prefix, subindex, depth + 1);
        DeleteOnOneSide(Stems(t.right), Stems(t.left), prefix, subindex);
        CollapseIsCanonical(t.left, Delete(t.right, prefix, subindex, depth + 1), path);
      }
    }
  }

  /** Every internal node of a canonical tree covers at least two stems. */
  lemma {:induction false} InternalCoversTwo(t: Tree, path: seq<bit>) returns (a: Bytes, b: Bytes)
    requires t.Internal? && Canonical(t, path)
    ensures a in Stems(t) && b in Stems(t) && a != b
  {
    if t.left.Internal? {
      a, b := InternalCoversTwo(t.left, path + [0]);
    } else if t.right.Internal? {
      a, b := InternalCoversTwo(t.right, path + [1]);
    } else {
      SidesDiffer(t, path);
      a, b := t.left.prefix, t.right.prefix;
    }
  }

  /** When an internal node has a lone child: exactly when all the stems below it agree on the next path
      bit. Such a node stays, because below it there are two stems that part further down. */
  lemma LoneChildExactly(t: Tree, path: seq<bit>)
    requires t.Internal? && Canonical(t, path)
    ensures (t.left.Empty? || t.right.Empty?)
       <==> forall p <- Stems(t), q <- Stems(t) :: PathBitAt(p, |path|) == PathBitAt(q, |path|)
  {
    SidesDiffer(t, path);
    if !t.left.Empty? && !t.right.Empty? {
      var p := SomeStem(t.left, path + [0]);
      var q := SomeStem(t.right, path + [1]);
      assert p in Stems(t) && q in Stems(t);
    }
  }

  lemma SomeStem(t: Tree, path: seq<bit>) returns (p: Bytes)
    requires !t.Empty? && Canonical(t, path)
    ensures p in Stems(t)
  {
    if t.Internal? {
      var a, b := InternalCoversTwo(t, path);
      p := a;
    } else {
      p := t.prefix;
    }
  }

  /** The canonical form is unique: the map determines the tree. */
  lemma {:induction false} CanonicalIsUnique(s: Tree, t: Tree, path: seq<bit>)
    requires Canonical(s, path) && Canonical(t, path)
    requires Stems(s) == Stems(t)
    ensures s == t
  {
    if s.Internal? {
      var a, b := InternalCoversTwo(s, path);
    }
    if t.Internal? {
      var a, b := InternalCoversTwo(t, path);
    }
    assert s.Stem? ==> s.prefix in Stems(t);
    assert t.Stem? ==> t.prefix in Stems(s);
    match (s, t)
    case (Internal(_, _), Internal(_, _)) =>
      SidesDiffer(s, path);
      SidesDiffer(t, path);
      SideOfMap(s, path);
      SideOfMap(t, path);
      CanonicalIsUnique(s.left, t.left, path + [0]);
      CanonicalIsUnique(s.right, t.right, path + [1]);
    case (Stem(p, vs), Stem(q, ws)) =>
      assert p in Stems(t) && Stems(t)[p] == vs;
    case _ =>
  }

  /** The stems of `m` whose next bit is `b`. */
  function Side(m: StemMap, depth: nat, b: bit): StemMap {
    map p | p in m && PathBitAt(p, depth) == b :: m[p]
  }

  lemma SideOfMap(t: Tree, path: seq<bit>)
    requires t.Internal? && Canonical(t, path)
    ensures Stems(t.left) == Side(Stems(t), |path|, 0)
    ensures Stems(t.right) == Side(Stems(t), |path|, 1)
  {
    SidesDiffer(t, path);
  }

  // ---------- the canonical tree, built from the map ----------

  ghost function MaxLength(keys: set<Bytes>): (n: nat)
    ensures forall p <- keys :: |p| <= n
    ensures n == 0 || exists p <- keys :: |p| == n
  {
    if keys == {} then 0
    else
      var p :| p in keys;
      Max(|p|, MaxLength(keys - {p}))
  }

  ghost predicate OnOnePath(m: StemMap, path: seq<bit>) {
    forall p <- m :: PathTo(p, |path|) == path
  }

  lemma SideOnPath(m: StemMap, path: seq<bit>, b: bit)
    requires OnOnePath(m, path)
    ensures OnOnePath(Side(m, |path|, b), path + [b])
    ensures MaxLength(Side(m, |path|, b).Keys) <= MaxLength(m.Keys)
  {
    forall p | p in Side(m, |path|, b) ensures PathTo(p, |path| + 1) == path + [b] {
      PathToNext(p, |path|);
    }
    LongestOfFewer(Side(m, |path|, b).Keys, m.Keys);
  }

  lemma LongestOfFewer(a: set<Bytes>, b: set<Bytes>)
    requires a <= b
    ensures MaxLength(a) <= MaxLength(b)
  {
  }

  lemma ManyStemsSplitSoon(m: StemMap, path: seq<bit>)
    requires OnOnePath(m, path) && |m| >= 2
    ensures |path| <= 8 * MaxLength(m.Keys)
  {
    var a :| a in m;
    assert |m.Keys - {a}| >= 1;
    var b :| b in m.Keys - {a};
    SharedPathIsShort(a, b, |path|);
  }

  /** The canonical tree of a stem map: nothing for no stem, the stem alone for one, and otherwise
      a split on the next path bit. */
  ghost function Canon(m: StemMap, path: seq<bit>): Tree
    requires OnOnePath(m, path)
    decreases 8 * MaxLength(m.Keys) + 1 - |path|
  {
    if |m| == 0 then Empty
    else if |m| == 1 then
      var p :| p in m;
      Stem(p, m[p])
    else
      ManyStemsSplitSoon(m, path);
      SideOnPath(m, path, 0);
      SideOnPath(m, path, 1);
      Internal(Canon(Side(m, |path|, 0), path + [0]), Canon(Side(m, |path|, 1), path + [1]))
  }

  lemma {:induction false} CardinalityOfSubset<T>(a: set<T>, b: set<T>)
    requires a <= b
    ensures |a| <= |b|
  {
    assert b == a + (b - a);
  }

  /** A canonical tree is the canonical tree of its own map. */
  lemma {:induction false} CanonicalIsCanon(t: Tree, path: seq<bit>)
    requires Canonical(t, path)
    ensures OnOnePath(Stems(t), path)
    ensures t == Canon(Stems(t), path)
  {
    StemsLieOnPath(t, path);
    match t
    case Empty =>
    case Stem(p, _) =>
      assert |Stems(t)| == 1;
      assert forall q <- Stems(t) :: q == p;
    case Internal(left, right) =>
      var a, b := InternalCoversTwo(t, path);
      CardinalityOfSubset({a, b}, Stems(t).Keys);
      assert |Stems(t)| >= 2;
      CanonicalIsCanon(left, path + [0]);
      CanonicalIsCanon(right, path + [1]);
      SideOfMap(t, path);
  }

  // ---------- depth ----------

  function Height(t: Tree): nat {
    match t
    case Internal(left, right) => 1 + Max(Height(left), Height(right))
    case _ => 0
  }

  /** No path is longer than the longest terminated prefix. */
  lemma {:induction false} HeightBound(t: Tree, path: seq<bit>, n: nat)
    requires Canonical(t, path) && |path| <= 8 * n + 1
    requires forall p <- Stems(t) :: |p| <= n
    ensures |path| + Height(t) <= 8 * n + 1
  {
    if t.Internal? {
      var a, b := InternalCoversTwo(t, path);
      StemsLieOnPath(t, path);
      SharedPathIsShort(a, b, |path|);
      SidesDiffer(t, path);
      HeightBound(t.left, path + [0], n);
      HeightBound(t.right, path + [1], n);
    }
  }
}
