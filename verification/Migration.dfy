/** `pbt-rs/src/ethereum.rs` and `pbt-rs/src/migration.rs`: where the parts of an account live, and
    the conversion of accounts into tree leaves. */
module Migration {
  import opened Basics
  import opened BigEndian
  import opened StemTree
  import opened History
  import opened Layout
  import opened Embedding
  import opened RustTree
  import opened Writes

  /** `b"PBT:HEADER:v1"`, `b"PBT:CODE:v1"` and `b"PBT:STORAGE:v1"` */
  const HEADER_TAG: Bytes := [80, 66, 84, 58, 72, 69, 65, 68, 69, 82, 58, 118, 49]
  const CODE_TAG: Bytes := [80, 66, 84, 58, 67, 79, 68, 69, 58, 118, 49]
  const STORAGE_TAG: Bytes := [80, 66, 84, 58, 83, 84, 79, 82, 65, 71, 69, 58, 118, 49]

  /** A `usize` on a 64-bit machine. */
  type USize = n: int | 0 <= n < 0x1_0000_0000_0000_0000

  function IntToBytes32(n: USize): (raw: Bytes)
    ensures |raw| == 32
  {
    Pow256Values();
    Zeros(24) + ToBytes(n, 8)
  }

  function GetTreeKey(storageType: byte, position: Bytes, subindex: byte): Bytes {
    [storageType] + position + [subindex]
  }

  /** The parts of an account that become leaves. */
  datatype Part = BasicData | CodeHash | CodeChunk(id: USize) | StorageSlot(slot: USize)

  function HeaderPreimage(address: Word): Bytes {
    HEADER_TAG + address
  }

  function CodePreimage(address: Word, high: USize): Bytes {
    CODE_TAG + address + IntToBytes32(high)
  }

  function StoragePreimage(address: Word, high: USize): Bytes {
    STORAGE_TAG + address + IntToBytes32(high)
  }

  /** `get_tree_key_for_basic_data`, `get_tree_key_for_code_chunk`, `get_tree_key_for_storage_slot`
      and the code hash key that `migrate_account` makes out of the first. */
  function KeyOf(blake3: Hasher, address: Word, part: Part): (key: Bytes)
    ensures |key| >= 2
  {
    match part
    case BasicData => GetTreeKey(HEADER_SUBTREE, blake3(HeaderPreimage(address)), 0)
    case CodeHash => GetTreeKey(HEADER_SUBTREE, blake3(HeaderPreimage(address)), 1)
    case CodeChunk(id) =>
      if id < CODE_CHUNKS_IN_HEADER then GetTreeKey(HEADER_SUBTREE, blake3(HeaderPreimage(address)), CODE_OFFSET + id)
      else
        var overflow := id - CODE_CHUNKS_IN_HEADER;
        GetTreeKey(CODE_SUBTREE, blake3(CodePreimage(address, overflow / 256)), overflow % 256)
    case StorageSlot(slot) =>
      if slot < STORAGE_CHUNKS_IN_HEADER then
        GetTreeKey(HEADER_SUBTREE, blake3(HeaderPreimage(address)), HEADER_STORAGE_OFFSET + slot)
      else
        var overflow := slot - STORAGE_CHUNKS_IN_HEADER;
        GetTreeKey(STORAGE_SUBTREE,
                   blake3(STORAGE_TAG + address) + blake3(StoragePreimage(address, overflow / 256)),
                   overflow % 256)
  }

  /** Every key, written out: the subtree 0, 1 or 255, the tagged hash or hashes that place the page, and the
      leaf; `high` is the number of the page in 32 bytes. */
  lemma KeyOfMeans(blake3: Hasher, address: Word, part: Part, high: Bytes)
    requires |high| == 32
    ensures var key := KeyOf(blake3, address, part);
            match part
            case BasicData => key == [0] + blake3(Ascii("PBT:HEADER:v1") + address) + [0]
            case CodeHash => key == [0] + blake3(Ascii("PBT:HEADER:v1") + address) + [1]
            case CodeChunk(id) =>
              && (id < 16 ==> key == [0] + blake3(Ascii("PBT:HEADER:v1") + address) + [4 + id])
              && (id >= 16 && FromBytes(high) == (id - 16) / 256 ==>
                    key == [1] + blake3(Ascii("PBT:CODE:v1") + address + high) + [(id - 16) % 256])
            case StorageSlot(slot) =>
              && (slot < 4 ==> key == [0] + blake3(Ascii("PBT:HEADER:v1") + address) + [20 + slot])
              && (slot >= 4 && FromBytes(high) == (slot - 4) / 256 ==>
                    key == [255]
                           + (blake3(Ascii("PBT:STORAGE:v1") + address)
                              + blake3(Ascii("PBT:STORAGE:v1") + address + high))
                           + [(slot - 4) % 256])
  {
    hide Pow256, ToBytes, FromBytes, IntToBytes32;
    assert HEADER_TAG == Ascii("PBT:HEADER:v1") && CODE_TAG == Ascii("PBT:CODE:v1");
    assert STORAGE_TAG == Ascii("PBT:STORAGE:v1");
    if part.CodeChunk? && part.id >= 16 && FromBytes(high) == (part.id - 16) / 256 {
      PageBytes((part.id - 16) / 256, high);
    }
    if part.StorageSlot? && part.slot >= 4 && FromBytes(high) == (part.slot - 4) / 256 {
      PageBytes((part.slot - 4) / 256, high);
    }
  }

  lemma PageBytes(n: USize, high: Bytes)
    requires |high| == 32 && FromBytes(high) == n
    ensures IntToBytes32(n) == high
  {
    hide Pow256;
    Pow256Values();
    var raw := IntToBytes32(n);
    ZerosAreNought(24);
    FromBytesAppend(Zeros(24), ToBytes(n, 8));
    FromToBytes(n, 8);
    ToFromBytes(raw);
    ToFromBytes(high);
  }

  lemma {:induction false} ZerosAreNought(n: nat)
    ensures FromBytes(Zeros(n)) == 0
  {
    if n > 0 {
      assert Zeros(n)[..n - 1] == Zeros(n - 1);
      ZerosAreNought(n - 1);
    }
  }

  /** The byte string whose hash places the part. */
  function PreimageOf(address: Word, part: Part): Bytes {
    match part
    case CodeChunk(id) =>
      if id < CODE_CHUNKS_IN_HEADER then HeaderPreimage(address)
      else CodePreimage(address, (id - CODE_CHUNKS_IN_HEADER) / 256)
    case StorageSlot(slot) =>
      if slot < STORAGE_CHUNKS_IN_HEADER then HeaderPreimage(address)
      else StoragePreimage(address, (slot - STORAGE_CHUNKS_IN_HEADER) / 256)
    case _ => HeaderPreimage(address)
  }

  ghost predicate PreimagesCollide(blake3: Hasher, a: Word, p: Part, b: Word, q: Part) {
    PreimageOf(a, p) != PreimageOf(b, q) && blake3(PreimageOf(a, p)) == blake3(PreimageOf(b, q))
  }

  lemma IntToBytes32Injective(m: USize, n: USize)
    requires IntToBytes32(m) == IntToBytes32(n)
    ensures m == n
  {
    Pow256Values();
    assert IntToBytes32(m)[24..] == ToBytes(m, 8) && IntToBytes32(n)[24..] == ToBytes(n, 8);
    ToBytesInjective(m, n, 8);
  }

  lemma TreeKeyParts(storageType: byte, position: Bytes, subindex: byte)
    ensures var key := GetTreeKey(storageType, position, subindex);
            |key| >= 2 && key[0] == storageType && key[1..|key| - 1] == position && key[|key| - 1] == subindex
  {
  }

  datatype Place = Place(storageType: byte, position: Bytes, subindex: byte)

  function PlaceOf(blake3: Hasher, address: Word, part: Part): Place {
    var hash := blake3(PreimageOf(address, part));
    match part
    case BasicData => Place(HEADER_SUBTREE, hash, 0)
    case CodeHash => Place(HEADER_SUBTREE, hash, 1)
    case CodeChunk(id) =>
      if id < CODE_CHUNKS_IN_HEADER then Place(HEADER_SUBTREE, hash, CODE_OFFSET + id)
      else Place(CODE_SUBTREE, hash, (id - CODE_CHUNKS_IN_HEADER) % 256)
    case StorageSlot(slot) =>
      if slot < STORAGE_CHUNKS_IN_HEADER then Place(HEADER_SUBTREE, hash, HEADER_STORAGE_OFFSET + slot)
      else Place(STORAGE_SUBTREE, blake3(STORAGE_TAG + address) + hash, (slot - STORAGE_CHUNKS_IN_HEADER) % 256)
  }

  lemma EqualKeysEqualPlaces(blake3: Hasher, a: Word, p: Part, b: Word, q: Part)
    requires KeyOf(blake3, a, p) == KeyOf(blake3, b, q)
    ensures PlaceOf(blake3, a, p) == PlaceOf(blake3, b, q)
  {
    var x, y := PlaceOf(blake3, a, p), PlaceOf(blake3, b, q);
    assert KeyOf(blake3, a, p) == GetTreeKey(x.storageType, x.position, x.subindex);
    assert KeyOf(blake3, b, q) == GetTreeKey(y.storageType, y.position, y.subindex);
    TreeKeyParts(x.storageType, x.position, x.subindex);
    TreeKeyParts(y.storageType, y.position, y.subindex);
  }

  /** Parts in the same place have hashed preimages with the same hash. */
  lemma EqualPlacesEqualHashes(blake3: Hasher, a: Word, p: Part, b: Word, q: Part)
    requires PlaceOf(blake3, a, p) == PlaceOf(blake3, b, q)
    ensures blake3(PreimageOf(a, p)) == blake3(PreimageOf(b, q))
  {
    var x, y := PlaceOf(blake3, a, p), PlaceOf(blake3, b, q);
    if x.storageType == STORAGE_SUBTREE {
      assert x.position[32..] == blake3(PreimageOf(a, p));
      assert y.position[32..] == blake3(PreimageOf(b, q));
    }
  }

  lemma TailsEqual(tag: Bytes, a: Word, x: Bytes, b: Word, y: Bytes)
    requires tag + a + x == tag + b + y && |x| == |y|
    ensures a == b && x == y
  {
    assert (tag + a + x)[|tag|..][..32] == a && (tag + b + y)[|tag|..][..32] == b;
    assert (tag + a + x)[|tag| + 32..] == x && (tag + b + y)[|tag| + 32..] == y;
  }

  /** Distinct parts of distinct or equal accounts have distinct keys, unless the hashed preimages
      that place them collide. */
  lemma KeysAreInjective(blake3: Hasher, a: Word, p: Part, b: Word, q: Part)
    requires KeyOf(blake3, a, p) == KeyOf(blake3, b, q)
    ensures (a == b && p == q) || PreimagesCollide(blake3, a, p, b, q)
  {
    EqualKeysEqualPlaces(blake3, a, p, b, q);
    EqualPlacesEqualHashes(blake3, a, p, b, q);
    if PreimageOf(a, p) == PreimageOf(b, q) {
      var place := PlaceOf(blake3, a, p);
      if place.storageType == HEADER_SUBTREE {
        assert PreimageOf(a, p) == HEADER_TAG + a + [] && PreimageOf(b, q) == HEADER_TAG + b + [];
        TailsEqual(HEADER_TAG, a, [], b, []);
      } else if place.storageType == CODE_SUBTREE {
        var h, k := (p.id - CODE_CHUNKS_IN_HEADER) / 256, (q.id - CODE_CHUNKS_IN_HEADER) / 256;
        TailsEqual(CODE_TAG, a, IntToBytes32(h), b, IntToBytes32(k));
        IntToBytes32Injective(h, k);
      } else {
        var h, k := (p.slot - STORAGE_CHUNKS_IN_HEADER) / 256, (q.slot - STORAGE_CHUNKS_IN_HEADER) / 256;
        TailsEqual(STORAGE_TAG, a, IntToBytes32(h), b, IntToBytes32(k));
        IntToBytes32Injective(h, k);
      }
    }
  }

  // ---------- accounts ----------

  type U32 = n: int | 0 <= n < 0x1_0000_0000

  type Code = c: Bytes | |c| < 0x1_0000_0000_0000_0000 witness []

  datatype MptAccount = MptAccount(
    address: Word,
    version: U32,
    balance: USize,
    nonce: USize,
    code: Code,
    codeHash: Word,
    storage: seq<(USize, Word)>)

  function EncodeBasicData(version: U32, balance: USize, nonce: USize, codeSize: USize): Word {
    Pow256Values();
    ToBytes(version, 4) + (ToBytes(balance, 8) + (ToBytes(nonce, 8) + (Zeros(4) + ToBytes(codeSize, 8))))
  }

  /** The fields of the leaf, byte for byte. */
  lemma BasicDataMeans(version: U32, balance: USize, nonce: USize, codeSize: USize)
    ensures HasFields(EncodeBasicData(version, balance, nonce, codeSize),
                      BasicFields(version, balance, nonce, codeSize))
  {
    hide Pow256;
    Pow256Values();
    var leaf := EncodeBasicData(version, balance, nonce, codeSize);
    FourBytes(version);
    EightBytes(balance);
    EightBytes(nonce);
    EightBytes(codeSize);
    assert leaf[0..4] == ToBytes(version, 4) && leaf[4..12] == ToBytes(balance, 8);
    assert leaf[12..20] == ToBytes(nonce, 8) && leaf[20..24] == Zeros(4) && leaf[24..32] == ToBytes(codeSize, 8);
  }

  /** Chunk `c` of the code; byte 0 is a placeholder in this implementation. */
  function PlainChunk(code: Bytes, c: nat): Word
    requires 31 * c <= |code|
  {
    var slice := if 31 * c + 31 <= |code| then code[31 * c..31 * c + 31] else code[31 * c..];
    [0] + (slice + Zeros(31 - |slice|))
  }

  /** `chunk_code` */
  method ChunkCode(code: Code) returns (chunks: seq<Word>)
    ensures |chunks| == ChunkCount(code)
    ensures forall c :: 0 <= c < |chunks| ==> 31 * c <= |code| && chunks[c] == PlainChunk(code, c)
  {
    chunks := [];
    var i := 0;
    while i < |code|
      invariant i == 31 * |chunks| && i < |code| + 31
      invariant forall c :: 0 <= c < |chunks| ==> 31 * c <= |code| && chunks[c] == PlainChunk(code, c)
    {
      chunks := chunks + [PlainChunk(code, |chunks|)];
      i := i + 31;
    }
  }

  /** Byte 0 of a chunk is 0, byte 1 + j is byte 31c + j of the code, or 0 behind its end. */
  lemma PlainChunkMeans(code: Bytes, c: nat, j: nat)
    requires 31 * c <= |code| && j < 31
    ensures PlainChunk(code, c)[0] == 0
    ensures PlainChunk(code, c)[1 + j] == if 31 * c + j < |code| then code[31 * c + j] else 0
  {
  }

  datatype Leaf = Leaf(part: Part, value: Word)

  function ChunkLeaves(code: Code): (leaves: seq<Leaf>)
    ensures |leaves| == ChunkCount(code)
  {
    seq(ChunkCount(code), c requires 0 <= c < ChunkCount(code) => Leaf(CodeChunk(c), PlainChunk(code, c)))
  }

  function SlotLeaves(storage: seq<(USize, Word)>): (leaves: seq<Leaf>)
    ensures |leaves| == |storage|
  {
    seq(|storage|, i requires 0 <= i < |storage| => Leaf(StorageSlot(storage[i].0), storage[i].1))
  }

  /** The leaves of an account, in the order in which `migrate_account` inserts them. */
  function LeavesOf(account: MptAccount): seq<Leaf> {
    [Leaf(BasicData, EncodeBasicData(account.version, account.balance, account.nonce, |account.code|)),
     Leaf(CodeHash, account.codeHash)]
    + ChunkLeaves(account.code) + SlotLeaves(account.storage)
  }

  lemma LeafCount(account: MptAccount)
    ensures |LeavesOf(account)| == 2 + ChunkCount(account.code) + |account.storage|
    ensures var basic := EncodeBasicData(account.version, account.balance, account.nonce, |account.code|);
            LeavesOf(account)[0] == Leaf(BasicData, basic)
    ensures LeavesOf(account)[1] == Leaf(CodeHash, account.codeHash)
  {
  }

  lemma ChunkLeafAt(account: MptAccount, c: nat)
    requires c < ChunkCount(account.code)
    ensures 2 + c < |LeavesOf(account)|
    ensures LeavesOf(account)[2 + c] == Leaf(CodeChunk(c), PlainChunk(account.code, c))
  {
  }

  lemma SlotLeafAt(account: MptAccount, i: nat)
    requires i < |account.storage|
    ensures 2 + ChunkCount(account.code) + i < |LeavesOf(account)|
    ensures LeavesOf(account)[2 + ChunkCount(account.code) + i]
         == Leaf(StorageSlot(account.storage[i].0), account.storage[i].1)
  {
  }

  function WritesOf(blake3: Hasher, address: Word, leaves: seq<Leaf>): (ws: seq<Write>)
    ensures |ws| == |leaves| && KeysOk(ws)
  {
    seq(|leaves|, i requires 0 <= i < |leaves| => Write(KeyOf(blake3, address, leaves[i].part), leaves[i].value))
  }

  function AccountWrites(blake3: Hasher, account: MptAccount): (ws: seq<Write>)
    ensures KeysOk(ws)
  {
    WritesOf(blake3, account.address, LeavesOf(account))
  }

  function AllWrites(blake3: Hasher, accounts: seq<MptAccount>): (ws: seq<Write>)
    ensures KeysOk(ws)
  {
    if accounts == [] then []
    else AllWrites(blake3, accounts[..|accounts| - 1]) + AccountWrites(blake3, accounts[|accounts| - 1])
  }

  /** The owned tree after the writes: its shape and its stored hashes. */
  function RInsertAll(n: RNode, ws: seq<Write>, h: TreeHasher): (r: RNode)
    requires Canonical(Shape(n), []) && HashesOk(n, h) && KeysOk(ws)
    ensures HashesOk(r, h) && Shape(r) == InsertAll(Shape(n), ws)
  {
    if ws == [] then n
    else
      var before, last := RInsertAll(n, ws[..|ws| - 1], h), ws[|ws| - 1];
      var put := Put(last.key, last.value);
      RApplyAgrees(before, put, h);
      RApply(before, put, h)
  }

  /** `migrate_account` never fails, since every key is long enough, and leaves the tree, stored hashes
      included, that the account's writes make of it. */
  method MigrateAccount(blake3: Hasher, tree: OwnedTree, account: MptAccount) returns (r: Result<()>)
    requires tree.Valid()
    modifies tree
    ensures tree.Valid() && r == Ok(())
    ensures tree.root == RInsertAll(old(tree.root), AccountWrites(blake3, account), tree.hasher)
  {
    ghost var before := tree.root;
    hide KeyOf, EncodeBasicData, InsertAll, RInsertAll, Apply, PlainChunk, LeavesOf, WritesOf;
    hide Shape, HashesOk, Canonical, ChunkCount;
    LeafCount(account);
    ghost var start := Shape(tree.root);
    ghost var leaves := LeavesOf(account);
    var basic := EncodeBasicData(account.version, account.balance, account.nonce, |account.code|);
    NothingWritten(blake3, account.address, start, leaves);
    InsertPart(blake3, tree, account.address, BasicData, basic, start, leaves, 0);
    InsertPart(blake3, tree, account.address, CodeHash, account.codeHash, start, leaves, 1);
    InsertChunks(blake3, tree, account, start);
    InsertStorage(blake3, tree, account, start);
    ShapeIsEnough(tree.root, before, AccountWrites(blake3, account), tree.hasher);
    r := Ok(());
  }

  /** The loop over the code chunks. */
  method InsertChunks(blake3: Hasher, tree: OwnedTree, account: MptAccount, ghost start: Tree)
    requires tree.Valid() && Canonical(start, [])
    requires Shape(tree.root) == InsertAll(start, WritesOf(blake3, account.address, LeavesOf(account)[..2]))
    modifies tree
    ensures tree.Valid()
    ensures Shape(tree.root)
         == InsertAll(start, WritesOf(blake3, account.address, LeavesOf(account)[..2 + ChunkCount(account.code)]))
  {
    hide KeyOf, InsertAll, Apply, PlainChunk, LeavesOf, WritesOf, Shape, ChunkCount, EncodeBasicData;
    hide HashesOk, Canonical;
    ghost var leaves := LeavesOf(account);
    var chunks := ChunkCode(account.code);
    LeafCount(account);
    for chunkId := 0 to |chunks|
      invariant tree.Valid()
      invariant Shape(tree.root) == InsertAll(start, WritesOf(blake3, account.address, leaves[..2 + chunkId]))
    {
      ChunkLeafAt(account, chunkId);
      InsertPart(blake3, tree, account.address, CodeChunk(chunkId), chunks[chunkId], start, leaves, 2 + chunkId);
    }
  }

  /** The loop over the storage slots. */
  method InsertStorage(blake3: Hasher, tree: OwnedTree, account: MptAccount, ghost start: Tree)
    requires tree.Valid() && Canonical(start, [])
    requires Shape(tree.root)
          == InsertAll(start, WritesOf(blake3, account.address, LeavesOf(account)[..2 + ChunkCount(account.code)]))
    modifies tree
    ensures tree.Valid()
    ensures Shape(tree.root) == InsertAll(start, WritesOf(blake3, account.address, LeavesOf(account)))
  {
    hide KeyOf, InsertAll, Apply, LeavesOf, WritesOf, Shape, ChunkCount, EncodeBasicData, HashesOk, Canonical;
    ghost var leaves, n := LeavesOf(account), 2 + ChunkCount(account.code);
    LeafCount(account);
    for i := 0 to |account.storage|
      invariant tree.Valid()
      invariant Shape(tree.root) == InsertAll(start, WritesOf(blake3, account.address, leaves[..n + i]))
    {
      SlotLeafAt(account, i);
      var (slot, value) := account.storage[i];
      InsertPart(blake3, tree, account.address, StorageSlot(slot), value, start, leaves, n + i);
    }
    assert leaves[..|leaves|] == leaves;
  }

  lemma ShapeIsEnough(after: RNode, before: RNode, ws: seq<Write>, h: TreeHasher)
    requires Canonical(Shape(before), []) && HashesOk(before, h) && HashesOk(after, h) && KeysOk(ws)
    requires Shape(after) == InsertAll(Shape(before), ws)
    ensures after == RInsertAll(before, ws, h)
  {
    hide RInsertAll, InsertAll;
    SameShapeSameNode(after, RInsertAll(before, ws, h), h);
  }

  /** `tree.insert(&key, value)?` for the leaf that comes next. */
  method InsertPart(blake3: Hasher, tree: OwnedTree, address: Word, part: Part, value: Word,
                    ghost start: Tree, ghost leaves: seq<Leaf>, ghost i: nat)
    requires tree.Valid() && Canonical(start, [])
    requires i < |leaves| && leaves[i] == Leaf(part, value)
    requires Shape(tree.root) == InsertAll(start, WritesOf(blake3, address, leaves[..i]))
    modifies tree
    ensures tree.Valid()
    ensures Shape(tree.root) == InsertAll(start, WritesOf(blake3, address, leaves[..i + 1]))
  {
    hide KeyOf, InsertAll, Apply, WritesOf;
    WriteOne(blake3, address, start, leaves, i);
    var _ := tree.Insert(KeyOf(blake3, address, part), value);
  }

  lemma NothingWritten(blake3: Hasher, address: Word, t: Tree, leaves: seq<Leaf>)
    requires Canonical(t, [])
    ensures InsertAll(t, WritesOf(blake3, address, leaves[..0])) == t
  {
  }

  lemma WriteOne(blake3: Hasher, address: Word, t: Tree, leaves: seq<Leaf>, i: nat)
    requires i < |leaves| && Canonical(t, [])
    ensures InsertAll(t, WritesOf(blake3, address, leaves[..i + 1]))
         == Apply(InsertAll(t, WritesOf(blake3, address, leaves[..i])),
                  Put(KeyOf(blake3, address, leaves[i].part), leaves[i].value))
  {
    var ws := WritesOf(blake3, address, leaves[..i + 1]);
    assert ws[..i] == WritesOf(blake3, address, leaves[..i]);
  }

  /** Writing one list after the other is writing the joined list. */
  lemma RInsertAllAppend(n: RNode, ws: seq<Write>, vs: seq<Write>, h: TreeHasher)
    requires Canonical(Shape(n), []) && HashesOk(n, h) && KeysOk(ws) && KeysOk(vs)
    ensures RInsertAll(RInsertAll(n, ws, h), vs, h) == RInsertAll(n, ws + vs, h)
  {
    hide RInsertAll, InsertAll;
    InsertAllAppend(Shape(n), ws, vs);
    SameShapeSameNode(RInsertAll(RInsertAll(n, ws, h), vs, h), RInsertAll(n, ws + vs, h), h);
  }

  /** Migrating a list of accounts, one call after the other. */
  method MigrateAll(blake3: Hasher, tree: OwnedTree, accounts: seq<MptAccount>)
    requires tree.Valid()
    modifies tree
    ensures tree.Valid()
    ensures tree.root == RInsertAll(old(tree.root), AllWrites(blake3, accounts), tree.hasher)
  {
    hide RInsertAll, AccountWrites, Shape, HashesOk, Canonical, AllWrites;
    ghost var start := tree.root;
    NoAccounts(blake3, start, tree.hasher);
    assert accounts[..0] == [];
    for i := 0 to |accounts|
      invariant tree.Valid()
      invariant tree.root == RInsertAll(start, AllWrites(blake3, accounts[..i]), tree.hasher)
    {
      OneMoreAccount(blake3, accounts, i);
      RInsertAllAppend(start, AllWrites(blake3, accounts[..i]), AccountWrites(blake3, accounts[i]), tree.hasher);
      var _ := MigrateAccount(blake3, tree, accounts[i]);
    }
    assert accounts[..|accounts|] == accounts;
  }

  lemma NoAccounts(blake3: Hasher, n: RNode, h: TreeHasher)
    requires Canonical(Shape(n), []) && HashesOk(n, h)
    ensures RInsertAll(n, AllWrites(blake3, []), h) == n
  {
  }

  lemma OneMoreAccount(blake3: Hasher, accounts: seq<MptAccount>, i: nat)
    requires i < |accounts|
    ensures AllWrites(blake3, accounts[..i + 1])
         == AllWrites(blake3, accounts[..i]) + AccountWrites(blake3, accounts[i])
  {
    hide AccountWrites;
    assert accounts[..i + 1][..i] == accounts[..i];
  }

  // ---------- what a migration leaves behind ----------

  /** Doing it again changes nothing, whatever the hasher. */
  lemma MigrationIsIdempotent(blake3: Hasher, n: RNode, h: TreeHasher, accounts: seq<MptAccount>)
    requires Canonical(Shape(n), []) && HashesOk(n, h)
    ensures var ws := AllWrites(blake3, accounts);
            RInsertAll(RInsertAll(n, ws, h), ws, h) == RInsertAll(n, ws, h)
  {
    hide RInsertAll, AllWrites;
    var t, ws := Shape(n), AllWrites(blake3, accounts);
    InsertAllAppend(t, ws, ws);
    forall key: Bytes ensures LastWrite(ws + ws, key) == LastWrite(ws, key) {
      LastWriteAppend(ws, ws, key);
    }
    SameWritesSameTree(t, ws + ws, ws);
    SameShapeSameNode(RInsertAll(RInsertAll(n, ws, h), ws, h), RInsertAll(n, ws, h), h);
  }

  ghost predicate DistinctAddresses(accounts: seq<MptAccount>) {
    forall a <- accounts, b <- accounts :: a.address == b.address ==> a == b
  }

  /** No two preimages that place parts of these accounts collide. */
  ghost predicate NoPlaceCollision(blake3: Hasher, accounts: seq<MptAccount>) {
    forall a <- accounts, b <- accounts, x <- LeavesOf(a), y <- LeavesOf(b) ::
      !PreimagesCollide(blake3, a.address, x.part, b.address, y.part)
  }

  lemma WriterOf(blake3: Hasher, account: MptAccount, key: Bytes) returns (leaf: Leaf)
    requires LastWrite(AccountWrites(blake3, account), key).Some?
    ensures leaf in LeavesOf(account) && KeyOf(blake3, account.address, leaf.part) == key
  {
    hide KeyOf, LeavesOf;
    var ws := AccountWrites(blake3, account);
    LastWriteIsSome(ws, key);
    var i :| 0 <= i < |ws| && ws[i].key == key;
    leaf := LeavesOf(account)[i];
  }

  /** Different accounts write different keys. */
  lemma AccountsWriteApart(blake3: Hasher, accounts: seq<MptAccount>, a: MptAccount, b: MptAccount, key: Bytes)
    requires DistinctAddresses(accounts) && NoPlaceCollision(blake3, accounts)
    requires a in accounts && b in accounts && a != b
    requires LastWrite(AccountWrites(blake3, a), key).Some?
    ensures LastWrite(AccountWrites(blake3, b), key).None?
  {
    if LastWrite(AccountWrites(blake3, b), key).Some? {
      var x := WriterOf(blake3, a, key);
      var y := WriterOf(blake3, b, key);
      KeysAreInjective(blake3, a.address, x.part, b.address, y.part);
    }
  }

  /** The account that writes a key decides its value, wherever it stands in the list. */
  lemma {:induction false} OwnerDecides(blake3: Hasher, accounts: seq<MptAccount>, a: MptAccount, key: Bytes)
    requires DistinctAddresses(accounts) && NoPlaceCollision(blake3, accounts) && a in accounts
    requires LastWrite(AccountWrites(blake3, a), key).Some?
    ensures LastWrite(AllWrites(blake3, accounts), key) == LastWrite(AccountWrites(blake3, a), key)
  {
    hide AccountWrites;
    var before, last := accounts[..|accounts| - 1], accounts[|accounts| - 1];
    LastWriteAppend(AllWrites(blake3, before), AccountWrites(blake3, last), key);
    if a != last {
      AccountsWriteApart(blake3, accounts, a, last, key);
      assert forall x <- before :: x in accounts;
      assert accounts == before + [last];
      OwnerDecides(blake3, before, a, key);
    }
  }

  lemma {:induction false} SomeoneWrites(blake3: Hasher, accounts: seq<MptAccount>, key: Bytes) returns (a: MptAccount)
    requires LastWrite(AllWrites(blake3, accounts), key).Some?
    ensures a in accounts && LastWrite(AccountWrites(blake3, a), key).Some?
  {
    var before, last := accounts[..|accounts| - 1], accounts[|accounts| - 1];
    LastWriteAppend(AllWrites(blake3, before), AccountWrites(blake3, last), key);
    if LastWrite(AccountWrites(blake3, last), key).Some? {
      a := last;
    } else {
      a := SomeoneWrites(blake3, before, key);
    }
  }

  /** Accounts with distinct addresses may be migrated in any order: the owned tree is the same, and so
      is its root, whatever the hasher. */
  lemma MigrationOrderIsFree(blake3: Hasher, n: RNode, h: TreeHasher, first: seq<MptAccount>, second: seq<MptAccount>)
    requires Canonical(Shape(n), []) && HashesOk(n, h)
    requires forall a :: a in first <==> a in second
    requires DistinctAddresses(first) && NoPlaceCollision(blake3, first)
    ensures RInsertAll(n, AllWrites(blake3, first), h) == RInsertAll(n, AllWrites(blake3, second), h)
  {
    hide AccountWrites, RInsertAll;
    var ws, vs := AllWrites(blake3, first), AllWrites(blake3, second);
    forall key: Bytes ensures LastWrite(ws, key) == LastWrite(vs, key) {
      if LastWrite(ws, key).Some? {
        var a := SomeoneWrites(blake3, first, key);
        OwnerDecides(blake3, first, a, key);
        OwnerDecides(blake3, second, a, key);
      } else if LastWrite(vs, key).Some? {
        var a := SomeoneWrites(blake3, second, key);
        OwnerDecides(blake3, first, a, key);
      }
    }
    SameWritesSameTree(Shape(n), ws, vs);
    SameShapeSameNode(RInsertAll(n, ws, h), RInsertAll(n, vs, h), h);
  }

  /** The last value that a list of leaves gives to a part. */
  function LastLeaf(leaves: seq<Leaf>, part: Part): Option<Word> {
    if leaves == [] then None
    else if leaves[|leaves| - 1].part == part then Some(leaves[|leaves| - 1].value)
    else LastLeaf(leaves[..|leaves| - 1], part)
  }

  ghost predicate PartsApart(blake3: Hasher, address: Word, leaves: seq<Leaf>, part: Part) {
    forall x <- leaves :: x.part != part ==> KeyOf(blake3, address, x.part) != KeyOf(blake3, address, part)
  }

  lemma {:induction false} LastWriteIsLastLeaf(blake3: Hasher, address: Word, leaves: seq<Leaf>, part: Part)
    requires PartsApart(blake3, address, leaves, part)
    ensures LastWrite(WritesOf(blake3, address, leaves), KeyOf(blake3, address, part)) == LastLeaf(leaves, part)
  {
    hide KeyOf;
    if leaves != [] {
      var before := leaves[..|leaves| - 1];
      assert forall x <- before :: x in leaves;
      LastWriteIsLastLeaf(blake3, address, before, part);
      var ws := WritesOf(blake3, address, leaves);
      assert ws[..|ws| - 1] == WritesOf(blake3, address, before);
      assert leaves[|leaves| - 1] in leaves;
    }
  }

  /** The last value of a storage slot in an account's list of slots. */
  function LastSlot(storage: seq<(USize, Word)>, slot: USize): Option<Word> {
    if storage == [] then None
    else if storage[|storage| - 1].0 == slot then Some(storage[|storage| - 1].1)
    else LastSlot(storage[..|storage| - 1], slot)
  }

  /** What an account says about one of its parts. */
  function ValueOf(account: MptAccount, part: Part): Option<Word> {
    match part
    case BasicData => Some(EncodeBasicData(account.version, account.balance, account.nonce, |account.code|))
    case CodeHash => Some(account.codeHash)
    case CodeChunk(id) => if id < ChunkCount(account.code) then Some(PlainChunk(account.code, id)) else None
    case StorageSlot(slot) => LastSlot(account.storage, slot)
  }

  lemma {:induction false} LastLeafAppend(a: seq<Leaf>, b: seq<Leaf>, part: Part)
    ensures LastLeaf(a + b, part) == if LastLeaf(b, part).Some? then LastLeaf(b, part) else LastLeaf(a, part)
  {
    if b == [] {
      assert a + b == a;
    } else {
      LastLeafAppend(a, b[..|b| - 1], part);
      assert (a + b)[..|a + b| - 1] == a + b[..|b| - 1];
    }
  }

  lemma {:induction false} LastOfSlots(storage: seq<(USize, Word)>, part: Part)
    ensures LastLeaf(SlotLeaves(storage), part) == if part.StorageSlot? then LastSlot(storage, part.slot) else None
  {
    if storage != [] {
      LastOfSlots(storage[..|storage| - 1], part);
      assert SlotLeaves(storage)[..|storage| - 1] == SlotLeaves(storage[..|storage| - 1]);
    }
  }

  lemma {:induction false} LastOfChunks(code: Code, n: nat, part: Part)
    requires n <= ChunkCount(code)
    ensures LastLeaf(ChunkLeaves(code)[..n], part)
         == if part.CodeChunk? && part.id < n then Some(PlainChunk(code, part.id)) else None
  {
    if n > 0 {
      LastOfChunks(code, n - 1, part);
      assert ChunkLeaves(code)[..n][..n - 1] == ChunkLeaves(code)[..n - 1];
    }
  }

  lemma LastLeafIsValue(account: MptAccount, part: Part)
    ensures LastLeaf(LeavesOf(account), part) == ValueOf(account, part)
  {
    hide PlainChunk, EncodeBasicData, ChunkLeaves, SlotLeaves;
    var basic := Leaf(BasicData, EncodeBasicData(account.version, account.balance, account.nonce, |account.code|));
    var head := [basic, Leaf(CodeHash, account.codeHash)];
    var chunks, slots := ChunkLeaves(account.code), SlotLeaves(account.storage);
    LastLeafAppend(head + chunks, slots, part);
    LastLeafAppend(head, chunks, part);
    LastOfSlots(account.storage, part);
    LastOfChunks(account.code, |chunks|, part);
    assert chunks[..|chunks|] == chunks;
    assert head[..1] == [basic] && [basic][..0] == [];
    assert LastLeaf([basic], part) == if part == BasicData then Some(basic.value) else None;
    assert LeavesOf(account) == head + chunks + slots;
  }

  /** The other leaves of an account do not write a part's key. */
  lemma OwnLeavesApart(blake3: Hasher, accounts: seq<MptAccount>, account: MptAccount, part: Part)
    requires account in accounts && NoPlaceCollision(blake3, accounts)
    requires LastLeaf(LeavesOf(account), part).Some?
    ensures PartsApart(blake3, account.address, LeavesOf(account), part)
  {
    hide LeavesOf, KeyOf;
    var leaf := LeafWith(LeavesOf(account), part);
    forall x | x in LeavesOf(account) && x.part != part
      ensures KeyOf(blake3, account.address, x.part) != KeyOf(blake3, account.address, part)
    {
      if KeyOf(blake3, account.address, x.part) == KeyOf(blake3, account.address, part) {
        KeysAreInjective(blake3, account.address, x.part, account.address, part);
      }
    }
  }

  /** Every basic-data, code-hash and chunk leaf, and the last value of every slot, reads back from
      the migrated tree. */
  lemma MigratedPartsReadBack(blake3: Hasher, n: RNode, h: TreeHasher, accounts: seq<MptAccount>,
                              account: MptAccount, part: Part)
    requires Canonical(Shape(n), []) && HashesOk(n, h) && account in accounts && ValueOf(account, part).Some?
    requires DistinctAddresses(accounts) && NoPlaceCollision(blake3, accounts)
    ensures GetKey(Shape(RInsertAll(n, AllWrites(blake3, accounts), h)), KeyOf(blake3, account.address, part))
         == Ok(ValueOf(account, part).value)
  {
    hide ValueOf, LeavesOf, KeyOf, RInsertAll, InsertAll, HashesOk, Shape, PartsApart, NoPlaceCollision;
    var t, ws := Shape(n), AllWrites(blake3, accounts);
    var key := KeyOf(blake3, account.address, part);
    LastLeafIsValue(account, part);
    OwnLeavesApart(blake3, accounts, account, part);
    LastWriteIsLastLeaf(blake3, account.address, LeavesOf(account), part);
    OwnerDecides(blake3, accounts, account, key);
    PutAllReads(Stems(t), ws, key);
    assert PathTo(Prefix(key), 0) == [];
    GetReadsMap(InsertAll(t, ws), Prefix(key), Subindex(key), 0);
  }

  /** What the header leaves of a migrated account say, byte for byte: its basic data (as the Python decoder
      reads it, too) and its code hash. */
  lemma MigratedLeavesMean(blake3: Hasher, n: RNode, h: TreeHasher, accounts: seq<MptAccount>, account: MptAccount)
    requires Canonical(Shape(n), []) && HashesOk(n, h) && account in accounts
    requires DistinctAddresses(accounts) && NoPlaceCollision(blake3, accounts)
    ensures var t := Shape(RInsertAll(n, AllWrites(blake3, accounts), h));
            var basic := GetKey(t, KeyOf(blake3, account.address, BasicData));
            var fields := BasicFields(account.version, account.balance, account.nonce, |account.code|);
            && basic.Ok? && HasFields(basic.value, fields) && DecodeBasic(basic.value) == Ok(fields)
            && GetKey(t, KeyOf(blake3, account.address, CodeHash)) == Ok(account.codeHash)
  {
    hide KeyOf, EncodeBasicData, RInsertAll, AllWrites, PlainChunk, HasFields, DecodeBasic, Shape, HashesOk, Canonical;
    hide NoPlaceCollision;
    MigratedPartsReadBack(blake3, n, h, accounts, account, BasicData);
    MigratedPartsReadBack(blake3, n, h, accounts, account, CodeHash);
    BasicDataMeans(account.version, account.balance, account.nonce, |account.code|);
    DecodeBasicMeans(EncodeBasicData(account.version, account.balance, account.nonce, |account.code|),
                     BasicFields(account.version, account.balance, account.nonce, |account.code|));
  }

  /** And its code, 31 bytes to a chunk. */
  lemma MigratedCodeMeans(blake3: Hasher, n: RNode, h: TreeHasher, accounts: seq<MptAccount>, account: MptAccount,
                          c: nat, j: nat)
    requires Canonical(Shape(n), []) && HashesOk(n, h) && account in accounts
    requires DistinctAddresses(accounts) && NoPlaceCollision(blake3, accounts)
    requires c < ChunkCount(account.code) && j < 31
    ensures var chunk := GetKey(Shape(RInsertAll(n, AllWrites(blake3, accounts), h)),
                                KeyOf(blake3, account.address, CodeChunk(c)));
            && chunk.Ok? && chunk.value[0] == 0
            && chunk.value[1 + j] == if 31 * c + j < |account.code| then account.code[31 * c + j] else 0
  {
    hide KeyOf, EncodeBasicData, RInsertAll, AllWrites, PlainChunk, Shape, HashesOk, Canonical, NoPlaceCollision;
    MigratedPartsReadBack(blake3, n, h, accounts, account, CodeChunk(c));
    PlainChunkMeans(account.code, c, j);
  }

  lemma {:induction false} LeafWith(leaves: seq<Leaf>, part: Part) returns (leaf: Leaf)
    requires LastLeaf(leaves, part).Some?
    ensures leaf in leaves && leaf.part == part
  {
    if leaves[|leaves| - 1].part == part {
      leaf := leaves[|leaves| - 1];
    } else {
      leaf := LeafWith(leaves[..|leaves| - 1], part);
    }
  }
}
