/** Keys, and whole histories of insertions and deletions compared with a plain dictionary. */
module History {
  import opened Basics
  import opened StemTree

  /** A key is a stem prefix followed by the subindex of a leaf. */
  function SplitKey(key: Bytes): (r: Result<(Bytes, byte)>)
    ensures r.Ok? <==> |key| >= 2
    ensures r.Ok? ==> key == r.value.0 + [r.value.1] && r.value.0 != []
  {
    if |key| < 2 then Err("Key too short")
    else Ok((key[..|key| - 1], key[|key| - 1]))
  }

  function InsertKey(root: Tree, key: Bytes, value: Bytes): Result<Tree>
    requires Canonical(root, [])
  {
    if |value| != 32 then Err("value must be exactly 32 bytes")
    else
      var (prefix, subindex) :- SplitKey(key);
      Ok(Insert(root, prefix, subindex, value, 0))
  }

  function GetKey(root: Tree, key: Bytes): Result<Word> {
    var (prefix, subindex) :- SplitKey(key);
    Ok(Get(root, prefix, subindex, 0))
  }

  function DeleteKey(root: Tree, key: Bytes): Result<Tree> {
    var (prefix, subindex) :- SplitKey(key);
    Ok(Delete(root, prefix, subindex, 0))
  }

  /** A call made by the owner of a tree; a call that raises leaves the tree as it was. */
  datatype Op = Put(key: Bytes, value: Bytes) | Erase(key: Bytes)

  predicate Accepted(op: Op) {
    |op.key| >= 2 && (op.Put? ==> |op.value| == 32)
  }

  function Prefix(key: Bytes): Bytes
    requires |key| >= 2
  {
    key[..|key| - 1]
  }

  function Subindex(key: Bytes): byte
    requires |key| >= 2
  {
    key[|key| - 1]
  }

  function Apply(root: Tree, op: Op): Tree
    requires Canonical(root, [])
  {
    var r := if op.Put? then InsertKey(root, op.key, op.value) else DeleteKey(root, op.key);
    if r.Ok? then r.value else root
  }

  function ApplyToMap(m: StemMap, op: Op): StemMap {
    if !Accepted(op) then m
    else if op.Put? then StemPut(m, Prefix(op.key), Subindex(op.key), op.value)
    else StemDelete(m, Prefix(op.key), Subindex(op.key))
  }

  lemma ApplyRefinesMap(root: Tree, op: Op)
    requires Canonical(root, [])
    ensures Canonical(Apply(root, op), [])
    ensures Stems(Apply(root, op)) == ApplyToMap(Stems(root), op)
  {
    if Accepted(op) {
      assert PathTo(Prefix(op.key), 0) == [];
      if op.Put? {
        InsertRefinesPut(root, Prefix(op.key), Subindex(op.key), op.value, 0);
      } else {
        DeleteRefinesMap(root, Prefix(op.key), Subindex(op.key), 0);
      }
    }
  }

  /** The tree after a history that starts from the empty tree. */
  function Run(ops: seq<Op>): (root: Tree)
    ensures Canonical(root, [])
  {
    if ops == [] then Empty
    else
      var before := Run(ops[..|ops| - 1]);
      ApplyRefinesMap(before, ops[|ops| - 1]);
      Apply(before, ops[|ops| - 1])
  }

  function RunMap(ops: seq<Op>): StemMap {
    if ops == [] then map[] else ApplyToMap(RunMap(ops[..|ops| - 1]), ops[|ops| - 1])
  }

  /** After any history the tree is the canonical tree of the map the same history builds. */
  lemma {:induction false} RunIsCanon(ops: seq<Op>)
    ensures Stems(Run(ops)) == RunMap(ops)
    ensures OnOnePath(RunMap(ops), []) && Run(ops) == Canon(RunMap(ops), [])
  {
    if ops != [] {
      RunIsCanon(ops[..|ops| - 1]);
      ApplyRefinesMap(Run(ops[..|ops| - 1]), ops[|ops| - 1]);
    }
    CanonicalIsCanon(Run(ops), []);
  }

  // ---------- the same history on a plain dictionary ----------

  type Dictionary = map<Bytes, Word>

  function ApplyToDictionary(d: Dictionary, op: Op): Dictionary {
    if !Accepted(op) then d
    else if op.Put? then d[op.key := op.value]
    else d - {op.key}
  }

  function RunDictionary(ops: seq<Op>): Dictionary {
    if ops == [] then map[] else ApplyToDictionary(RunDictionary(ops[..|ops| - 1]), ops[|ops| - 1])
  }

  function Lookup(d: Dictionary, key: Bytes): Word {
    if key in d then d[key] else EMPTY_VALUE
  }

  function ReadMap(m: StemMap, key: Bytes): Word
    requires |key| >= 2
  {
    StemGet(m, Prefix(key), Subindex(key))
  }

  ghost predicate SameReads(m: StemMap, d: Dictionary) {
    forall key: Bytes {:trigger ReadMap(m, key)} :: |key| >= 2 ==> ReadMap(m, key) == Lookup(d, key)
  }

  lemma KeyParts(a: Bytes, b: Bytes)
    requires |a| >= 2 && |b| >= 2
    ensures a == b <==> Prefix(a) == Prefix(b) && Subindex(a) == Subindex(b)
  {
  }

  lemma PutAndDeleteRead(m: StemMap, prefix: Bytes, subindex: byte, value: Word, p: Bytes, s: byte)
    ensures StemGet(StemPut(m, prefix, subindex, value), p, s)
         == if p == prefix && s == subindex then value else StemGet(m, p, s)
    ensures StemGet(StemDelete(m, prefix, subindex), p, s)
         == if p == prefix && s == subindex then EMPTY_VALUE else StemGet(m, p, s)
  {
    var values := ValuesAt(m, prefix)[subindex := EMPTY_VALUE];
    if p == prefix && IsHollow(values) {
      assert values[s] in values;
    }
  }

  lemma ApplyReadsLikeDictionary(m: StemMap, d: Dictionary, op: Op, key: Bytes)
    requires |key| >= 2 && ReadMap(m, key) == Lookup(d, key)
    ensures ReadMap(ApplyToMap(m, op), key) == Lookup(ApplyToDictionary(d, op), key)
  {
    if Accepted(op) {
      var value := if op.Put? then op.value else EMPTY_VALUE;
      KeyParts(key, op.key);
      PutAndDeleteRead(m, Prefix(op.key), Subindex(op.key), value, Prefix(key), Subindex(key));
    }
  }

  lemma {:induction false} MapReadsLikeDictionary(ops: seq<Op>)
    ensures SameReads(RunMap(ops), RunDictionary(ops))
  {
    if ops != [] {
      var before := ops[..|ops| - 1];
      MapReadsLikeDictionary(before);
      forall key: Bytes | |key| >= 2
        ensures ReadMap(RunMap(ops), key) == Lookup(RunDictionary(ops), key)
      {
        assert ReadMap(RunMap(before), key) == Lookup(RunDictionary(before), key);
        ApplyReadsLikeDictionary(RunMap(before), RunDictionary(before), ops[|ops| - 1], key);
      }
    }
  }

  /** Reading any key after any history gives what a dictionary would give. */
  lemma ReadsLikeDictionary(ops: seq<Op>, key: Bytes)
    ensures GetKey(Run(ops), key)
         == if |key| < 2 then Err("Key too short") else Ok(Lookup(RunDictionary(ops), key))
  {
    if |key| >= 2 {
      RunIsCanon(ops);
      MapReadsLikeDictionary(ops);
      assert PathTo(Prefix(key), 0) == [];
      GetReadsMap(Run(ops), Prefix(key), Subindex(key), 0);
      assert ReadMap(RunMap(ops), key) == Lookup(RunDictionary(ops), key);
    }
  }

  // ---------- when the dictionary determines the tree ----------

  ghost predicate NoEmptyPut(ops: seq<Op>) {
    forall op <- ops :: op.Put? ==> op.value != EMPTY_VALUE
  }

  /** No stem without a leaf, no stem with an empty prefix. */
  ghost predicate NoHollowStem(m: StemMap) {
    forall p <- m :: p != [] && !IsHollow(m[p])
  }

  lemma {:induction false} RunKeepsNoHollowStem(ops: seq<Op>)
    requires NoEmptyPut(ops)
    ensures NoHollowStem(RunMap(ops))
    ensures forall key <- RunDictionary(ops) :: |key| >= 2 && RunDictionary(ops)[key] != EMPTY_VALUE
  {
    if ops != [] {
      var op := ops[|ops| - 1];
      RunKeepsNoHollowStem(ops[..|ops| - 1]);
      if Accepted(op) && op.Put? {
        var values := RunMap(ops)[Prefix(op.key)];
        assert values[Subindex(op.key)] == op.value;
        assert op.value in values;
      }
    }
  }

  lemma SameReadsSameMap(m: StemMap, n: StemMap, d: Dictionary)
    requires NoHollowStem(m) && NoHollowStem(n)
    requires SameReads(m, d) && SameReads(n, d)
    ensures m == n
  {
    forall p: Bytes | p != []
      ensures ValuesAt(m, p) == ValuesAt(n, p)
    {
      forall s: byte
        ensures ValuesAt(m, p)[s] == ValuesAt(n, p)[s]
      {
        var key := p + [s];
        assert Prefix(key) == p && Subindex(key) == s;
        assert ReadMap(m, key) == ReadMap(n, key);
      }
      SameWords(ValuesAt(m, p), ValuesAt(n, p));
    }
    assert IsHollow(EMPTY_VALUES);
    forall p: Bytes
      ensures p in m <==> p in n
      ensures p in m && p in n ==> m[p] == n[p]
    {
      if p != [] {
        assert ValuesAt(m, p) == ValuesAt(n, p);
      }
    }
  }

  lemma SameWords(a: Values, b: Values)
    requires forall s: byte :: a[s] == b[s]
    ensures a == b
  {
  }

  /** Order independence: with no empty value put, histories that leave the same dictionary leave
      the same tree; and the tree determines the dictionary. */
  lemma TreeIsTheState(ops1: seq<Op>, ops2: seq<Op>)
    requires NoEmptyPut(ops1) && NoEmptyPut(ops2)
    ensures Run(ops1) == Run(ops2) <==> RunDictionary(ops1) == RunDictionary(ops2)
  {
    RunIsCanon(ops1);
    RunIsCanon(ops2);
    MapReadsLikeDictionary(ops1);
    MapReadsLikeDictionary(ops2);
    RunKeepsNoHollowStem(ops1);
    RunKeepsNoHollowStem(ops2);
    if RunDictionary(ops1) == RunDictionary(ops2) {
      SameReadsSameMap(RunMap(ops1), RunMap(ops2), RunDictionary(ops1));
    }
    if Run(ops1) == Run(ops2) {
      DictionariesAgree(RunMap(ops1), RunDictionary(ops1), RunDictionary(ops2));
    }
  }

  /** For all histories, empty values included: the tree is determined by the stem map and determines it. */
  lemma TreeIsTheStemMap(ops1: seq<Op>, ops2: seq<Op>)
    ensures Run(ops1) == Run(ops2) <==> RunMap(ops1) == RunMap(ops2)
  {
    RunIsCanon(ops1);
    RunIsCanon(ops2);
  }

  lemma RunOfOnePut(prefix: Bytes, subindex: byte, value: Word)
    requires prefix != []
    ensures Run([Put(prefix + [subindex], value)]) == FreshStem(prefix, subindex, value)
  {
    var key := prefix + [subindex];
    var op := Put(key, value);
    assert Prefix(key) == prefix && Subindex(key) == subindex;
    assert SplitKey(key) == Ok((prefix, subindex));
    assert InsertKey(Empty, key, value) == Ok(FreshStem(prefix, subindex, value));
    assert [op][..0] == [];
    assert Run([op]) == Apply(Empty, op);
  }

  /** Empty values must be excluded there: putting one leaves a stem behind that no read can see. */
  lemma HollowStemIsInvisible(key: Bytes)
    requires |key| >= 2
    ensures var hollow, bare := [Put(key, EMPTY_VALUE)], [];
            && (forall k: Bytes :: GetKey(Run(hollow), k) == GetKey(Run(bare), k))
            && Run(hollow) != Run(bare)
  {
    assert key == Prefix(key) + [Subindex(key)];
    RunOfOnePut(Prefix(key), Subindex(key), EMPTY_VALUE);
  }

  lemma DictionariesAgree(m: StemMap, d: Dictionary, e: Dictionary)
    requires SameReads(m, d) && SameReads(m, e)
    requires forall key <- d :: |key| >= 2 && d[key] != EMPTY_VALUE
    requires forall key <- e :: |key| >= 2 && e[key] != EMPTY_VALUE
    ensures d == e
  {
    forall key | key in d.Keys + e.Keys
      ensures key in d && key in e && d[key] == e[key]
    {
      assert ReadMap(m, key) == Lookup(d, key) == Lookup(e, key);
    }
    assert d.Keys == e.Keys;
  }

  // ---------- how insertion and deletion relate ----------

  /** Inserting EMPTY_VALUE is deletion exactly when another leaf of the stem survives: otherwise
      insertion keeps (or creates) an all-empty stem that deletion drops. */
  lemma InsertEmptyVersusDelete(root: Tree, prefix: Bytes, subindex: byte)
    requires Canonical(root, [])
    ensures Insert(root, prefix, subindex, EMPTY_VALUE, 0) == Delete(root, prefix, subindex, 0)
       <==> prefix in Stems(root) && !IsHollow(Stems(root)[prefix][subindex := EMPTY_VALUE])
  {
    assert PathTo(prefix, 0) == [];
    InsertRefinesPut(root, prefix, subindex, EMPTY_VALUE, 0);
    DeleteRefinesMap(root, prefix, subindex, 0);
    var inserted, deleted := Insert(root, prefix, subindex, EMPTY_VALUE, 0), Delete(root, prefix, subindex, 0);
    if Stems(inserted) == Stems(deleted) {
      CanonicalIsUnique(inserted, deleted, []);
    }
    assert prefix in Stems(inserted);
  }

  /** Deletion undoes an insertion exactly when the leaf was empty and its stem, if there was one,
      held some other leaf. */
  lemma DeleteUndoesInsert(root: Tree, prefix: Bytes, subindex: byte, value: Word)
    requires Canonical(root, [])
    ensures Delete(Insert(root, prefix, subindex, value, 0), prefix, subindex, 0) == root
       <==> (prefix in Stems(root) ==>
               Stems(root)[prefix][subindex] == EMPTY_VALUE && !IsHollow(Stems(root)[prefix]))
  {
    assert PathTo(prefix, 0) == [];
    InsertRefinesPut(root, prefix, subindex, value, 0);
    var inserted := Insert(root, prefix, subindex, value, 0);
    DeleteRefinesMap(inserted, prefix, subindex, 0);
    var deleted := Delete(inserted, prefix, subindex, 0);
    DeleteUndoesPut(Stems(root), prefix, subindex, value);
    if Stems(deleted) == Stems(root) {
      CanonicalIsUnique(deleted, root, []);
    }
  }

  lemma DeleteUndoesPut(m: StemMap, prefix: Bytes, subindex: byte, value: Word)
    ensures StemDelete(StemPut(m, prefix, subindex, value), prefix, subindex) == m
       <==> (prefix in m ==> m[prefix][subindex] == EMPTY_VALUE && !IsHollow(m[prefix]))
  {
    var values := ValuesAt(m, prefix);
    var erased := values[subindex := EMPTY_VALUE];
    var r := StemDelete(StemPut(m, prefix, subindex, value), prefix, subindex);
    assert values[subindex := value][subindex := EMPTY_VALUE] == erased;
    assert values[subindex] == EMPTY_VALUE <==> erased == values;
    if prefix in m {
      assert prefix in r ==> r[prefix] == erased;
      if erased == values && !IsHollow(values) {
        assert r == m;
      }
    } else {
      assert IsHollow(erased);
      assert r == m;
    }
  }

  // ---------- a lone child that stays ----------

  /** Three stems; deleting the one on the right leaves two that part at bit 7. */
  function ThreePuts(value: Word): seq<Op> {
    [Put([0, 0], value), Put([1, 0], value), Put([128, 0], value)]
  }

  lemma FirstBits()
    ensures PathBitAt([0], 0) == 0 && PathBitAt([1], 0) == 0 && PathBitAt([128], 0) == 1
  {
    assert ShiftRight(0, 4) == 0 && ShiftRight(1, 4) == 0 && ShiftRight(128, 4) == 8;
    assert ShiftRight(0, 7) == 0 && ShiftRight(1, 7) == 0 && ShiftRight(128, 7) == 1;
  }

  /** How many stems a canonical tree holds shows in its kind. */
  lemma KindByStems(t: Tree, path: seq<bit>)
    requires Canonical(t, path)
    ensures t.Empty? <==> forall p :: p !in Stems(t)
    ensures t.Internal? <==> exists a, b :: a in Stems(t) && b in Stems(t) && a != b
  {
    if !t.Empty? {
      var p := SomeStem(t, path);
    }
    if t.Internal? {
      var a, b := InternalCoversTwo(t, path);
    }
  }

  lemma TwoOnTheLeft(t: Tree, a: Bytes, b: Bytes, c: Bytes)
    requires Canonical(t, []) && a in Stems(t) && b in Stems(t) && a != b
    requires forall p <- Stems(t) :: p == a || p == b || p == c
    requires PathBitAt(a, 0) == 0 && PathBitAt(b, 0) == 0 && PathBitAt(c, 0) == 1
    ensures t.Internal? && t.left.Internal?
    ensures if c in Stems(t) then t.right.Stem? else t.right.Empty?
  {
    hide PathBitAt;
    KindByStems(t, []);
    SidesDiffer(t, []);
    KindByStems(t.left, [] + [0]);
    KindByStems(t.right, [] + [1]);
    assert forall p <- Stems(t.right) :: p in Stems(t) && p == c;
  }

  lemma LeansLeft(ops: seq<Op>, a: Bytes, b: Bytes, c: Bytes)
    requires a in RunMap(ops) && b in RunMap(ops) && a != b
    requires forall p <- RunMap(ops) :: p == a || p == b || p == c
    requires PathBitAt(a, 0) == 0 && PathBitAt(b, 0) == 0 && PathBitAt(c, 0) == 1
    ensures Run(ops).Internal? && Run(ops).left.Internal?
    ensures if c in RunMap(ops) then Run(ops).right.Stem? else Run(ops).right.Empty?
  {
    hide Run, RunMap, Canonical, PathBitAt, Canon, OnOnePath;
    RunIsCanon(ops);
    TwoOnTheLeft(Run(ops), a, b, c);
  }

  /** Deletion leaves an internal root with a lone internal child, where a rule that lets every single
      child replace its parent would not. */
  lemma LoneChildSurvives(value: Word)
    requires value != EMPTY_VALUE
    ensures var root := Run(ThreePuts(value)); root.Internal? && root.left.Internal? && root.right.Stem?
    ensures var root := Run(ThreePuts(value) + [Erase([128, 0])]);
            root.Internal? && root.left.Internal? && root.right.Empty?
  {
    hide Run, RunMap, ThreePuts, PathBitAt;
    var zero: Bytes, one: Bytes, other: Bytes := [0], [1], [128];
    FirstBits();
    ThreeStems(value);
    assert zero[0] != one[0] && zero[0] != other[0] && one[0] != other[0];
    LeansLeft(ThreePuts(value), zero, one, other);
    LeansLeft(ThreePuts(value) + [Erase([128, 0])], zero, one, other);
  }

  lemma ThreeStems(value: Word)
    requires value != EMPTY_VALUE
    ensures RunMap(ThreePuts(value)).Keys == {[0], [1], [128]}
    ensures RunMap(ThreePuts(value) + [Erase([128, 0])]).Keys == {[0], [1]}
  {
    hide IsHollow, Run;
    var puts := ThreePuts(value);
    var first, second := [Put([0, 0], value)], [Put([0, 0], value), Put([1, 0], value)];
    assert first[..0] == [] && second[..1] == first && puts[..2] == second;
    assert Prefix([0, 0]) == [0] && Prefix([1, 0]) == [1] && Prefix([128, 0]) == [128];
    assert RunMap(first).Keys == {[0]};
    assert RunMap(second).Keys == {[0], [1]};
    var ops := puts + [Erase([128, 0])];
    assert ops[..3] == puts;
    var host: Bytes, other: Bytes := [128], [0];
    assert host !in RunMap(second);
    assert RunMap(puts)[host] == EMPTY_VALUES[0 := value];
    OneLeafErased(value);
  }

  lemma OneLeafErased(value: Word)
    ensures IsHollow(EMPTY_VALUES[0 := value][0 := EMPTY_VALUE])
  {
    assert EMPTY_VALUES[0 := value][0 := EMPTY_VALUE] == EMPTY_VALUES;
  }
}
