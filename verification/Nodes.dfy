/** The node objects of `pbt/nodes.py`: mutable children and values, and lazily filled hash caches. */
module Nodes {
  import opened Basics
  import opened StemTree
  import opened Merkle

  /** The active hash function, fixed for a run, and the module-wide cache of the empty hash. */
  class HashContext {
    const H: Hasher
    var emptyHashCache: Option<Word>

    constructor (hash: Hasher)
      ensures H == hash && Coherent()
    {
      H := hash;
      emptyHashCache := None;
    }

    ghost predicate Coherent()
      reads this
    {
      emptyHashCache.Some? ==> emptyHashCache.value == H([])
    }

    method EmptyHash() returns (h: Word)
      requires Coherent()
      modifies this
      ensures Coherent() && h == H([])
    {
      if emptyHashCache.None? {
        emptyHashCache := Some(H([]));
      }
      h := emptyHashCache.value;
    }
  }

  datatype Kind = EmptyKind | InternalKind | StemKind

  /** A node object; `kind` says of which of the three classes it is. Children belong to internal
      nodes, a prefix and values to stems. */
  class Node {
    const kind: Kind
    var left: Node?
    var right: Node?
    const stemPrefix: Bytes
    var values: Values
    var hashCache: Option<Word>
    /** The subtree as a value, and the objects it is made of. */
    ghost var view: Tree
    ghost var Repr: set<Node>

    constructor Empty()
      ensures Valid() && fresh(Repr) && kind == EmptyKind && view == StemTree.Empty
      ensures hashCache == None && Repr == {this}
    {
      kind := EmptyKind;
      left, right, stemPrefix, values, hashCache := null, null, [], EMPTY_VALUES, None;
      view := StemTree.Empty;
      Repr := {this};
    }

    constructor Stem(prefix: Bytes, vs: Values)
      ensures Valid() && fresh(Repr) && kind == StemKind && view == StemTree.Stem(prefix, vs)
      ensures hashCache == None && Repr == {this}
    {
      kind := StemKind;
      left, right, stemPrefix, values, hashCache := null, null, prefix, vs, None;
      view := StemTree.Stem(prefix, vs);
      Repr := {this};
    }

    constructor Internal(l: Node, r: Node, ghost H: Hasher)
      requires l.Valid() && r.Valid() && l.Repr !! r.Repr
      requires l.CachesOk(H) && r.CachesOk(H)
      ensures Valid() && CachesOk(H) && kind == InternalKind && view == StemTree.Internal(l.view, r.view)
      ensures hashCache == None && Repr == {this} + l.Repr + r.Repr
    {
      kind := InternalKind;
      left, right, stemPrefix, values, hashCache := l, r, [], EMPTY_VALUES, None;
      view := StemTree.Internal(l.view, r.view);
      Repr := {this} + l.Repr + r.Repr;
      new;
      assert l.CachesOk(H) && r.CachesOk(H);
    }

    /** The objects below this node form a tree, without sharing, that spells `view`. No cache is
        read here, so filling caches cannot break it. */
    ghost predicate Valid()
      reads this`Repr, Repr`left, Repr`right, Repr`values, Repr`view, Repr`Repr
      decreases Repr
    {
      && this in Repr
      && (kind == EmptyKind ==> Repr == {this} && view == StemTree.Empty)
      && (kind == StemKind ==> Repr == {this} && view == StemTree.Stem(stemPrefix, values))
      && (kind == InternalKind ==>
            && left != null && right != null
            && left in Repr && right in Repr
            && left.Repr <= Repr && right.Repr <= Repr
            && this !in left.Repr && this !in right.Repr
            && left.Repr !! right.Repr
            && left.Valid() && right.Valid()
            && view == StemTree.Internal(left.view, right.view))
    }

    /** The cache of this node is unset or equals the freshly computed hash of its subtree. */
    ghost predicate CacheOk(H: Hasher)
      reads this
    {
      hashCache.Some? ==> hashCache.value == TreeHash(H, view)
    }

    ghost predicate CachesOk(H: Hasher)
      reads this, Repr
    {
      forall n <- Repr :: n.CacheOk(H)
    }

    /** `node.values[subindex] = value; node.invalidate()` */
    method SetValue(subindex: byte, value: Word, ghost H: Hasher)
      requires Valid() && kind == StemKind
      modifies this`values, this`view, this`hashCache
      ensures Valid() && CachesOk(H)
      ensures values == old(values)[subindex := value]
    {
      values, hashCache := values[subindex := value], None;
      view := StemTree.Stem(stemPrefix, values);
    }

    /** `node.left, node.right = l, r; node.invalidate()`, where one of the two is as before */
    method SetChildren(l: Node, r: Node, ghost H: Hasher)
      requires kind == InternalKind
      requires l.Valid() && r.Valid() && l.Repr !! r.Repr && this !in l.Repr + r.Repr
      requires l.CachesOk(H) && r.CachesOk(H)
      modifies this`left, this`right, this`view, this`Repr, this`hashCache
      ensures Valid() && CachesOk(H)
      ensures left == l && right == r && Repr == {this} + l.Repr + r.Repr
      ensures view == StemTree.Internal(l.view, r.view)
    {
      hide TreeHash;
      left, right, hashCache := l, r, None;
      view, Repr := StemTree.Internal(l.view, r.view), {this} + l.Repr + r.Repr;
      assert l.Valid() && r.Valid();
      forall n | n in Repr ensures n.CacheOk(H) {
        assert n == this || n in l.Repr || n in r.Repr;
      }
    }

    /** `node_hash()`: fills caches, changes nothing else, and returns the cache-free hash. */
    method NodeHash(ctx: HashContext) returns (h: Word)
      requires Valid() && CachesOk(ctx.H) && ctx.Coherent()
      modifies Repr`hashCache, ctx
      ensures CachesOk(ctx.H) && ctx.Coherent()
      ensures h == TreeHash(ctx.H, view)
      decreases Repr
    {
      match kind {
        case EmptyKind =>
          h := ctx.EmptyHash();
        case StemKind =>
          if hashCache.None? {
            hashCache := Some(ctx.H(StemPayload(stemPrefix, values)));
          }
          h := hashCache.value;
        case InternalKind =>
          if hashCache.None? {
            var leftHash: Bytes := left.NodeHash(ctx);
            var rightHash: Bytes := right.NodeHash(ctx);
            hashCache := Some(ctx.H(leftHash + rightHash));
          }
          h := hashCache.value;
      }
    }

    method IsEmpty() returns (empty: bool)
      ensures empty == IsHollow(values)
    {
      for i := 0 to |values|
        invariant forall j :: 0 <= j < i ==> values[j] == EMPTY_VALUE
      {
        if values[i] != EMPTY_VALUE {
          assert values[i] in values;
          return false;
        }
      }
      empty := true;
    }
  }
}
