/** Where `pbt/embedding.py` puts the parts of an account: keys, pages, and the basic-data leaf. */
module Embedding {
  import opened Basics
  import opened BigEndian
  import opened History
  import opened Layout

  /** The parts of an account, with indices of any size. */
  datatype AccountPart = BasicDataLeaf | CodeHashLeaf | Chunk(id: int) | Slot(index: int)

  /** `n.to_bytes(width, "big")`, which raises when `n` does not fit. */
  function Fixed(n: nat, width: nat): (r: Result<Bytes>)
    ensures r.Ok? <==> n < Pow256(width)
    ensures r.Ok? ==> |r.value| == width && r.value == ToBytes(n, width)
  {
    if n >= Pow256(width) then Err("int too big to convert") else Ok(ToBytes(n, width))
  }

  /** `int_to_bytes32` */
  function WideInt(n: int): Result<Bytes> {
    if n < 0 then Err("int_to_bytes32 requires a non-negative integer") else Fixed(n, 32)
  }

  /** `get_tree_key` */
  function TreeKey(storageType: int, position: Bytes, subindex: int): Result<Bytes> {
    if !(0 <= storageType <= 255) then Err("storage_type must be 0-255")
    else if !(0 <= subindex < STEM_SUBTREE_WIDTH) then Err("subindex must be 0-255")
    else Ok([storageType] + position + [subindex])
  }

  /** `get_tree_key_for_basic_data`, `get_tree_key_for_code_hash`, `get_tree_key_for_code_chunk` and
      `get_tree_key_for_storage_slot` */
  function KeyFor(H: Hasher, address: Word, part: AccountPart): Result<Bytes> {
    match part
    case BasicDataLeaf => TreeKey(HEADER_SUBTREE, H(address), 0)
    case CodeHashLeaf => TreeKey(HEADER_SUBTREE, H(address), 1)
    case Chunk(id) =>
      if id < 0 then Err("chunk_id must be non-negative")
      else if id < CODE_CHUNKS_IN_HEADER then TreeKey(HEADER_SUBTREE, H(address), CODE_OFFSET + id)
      else
        var overflow := id - CODE_CHUNKS_IN_HEADER;
        var high :- WideInt(overflow / STEM_SUBTREE_WIDTH);
        TreeKey(CODE_SUBTREE, H(address + high), overflow % STEM_SUBTREE_WIDTH)
    case Slot(index) =>
      if index < 0 then Err("storage_key must be non-negative")
      else if index < STORAGE_CHUNKS_IN_HEADER then TreeKey(HEADER_SUBTREE, H(address), HEADER_STORAGE_OFFSET + index)
      else
        var overflow := index - STORAGE_CHUNKS_IN_HEADER;
        var high :- WideInt(overflow / STEM_SUBTREE_WIDTH);
        TreeKey(STORAGE_SUBTREE, H(address) + H(address + high), overflow % STEM_SUBTREE_WIDTH)
  }

  /** `page_index_for_code` and `page_index_for_storage`; the two header leaves are on page 0. */
  function PageIndex(part: AccountPart): Result<nat> {
    match part
    case Chunk(id) =>
      if id < 0 then Err("chunk_id must be non-negative")
      else if id < CODE_CHUNKS_IN_HEADER then Ok(0)
      else Ok(1 + (id - CODE_CHUNKS_IN_HEADER) / STEM_SUBTREE_WIDTH)
    case Slot(index) =>
      if index < 0 then Err("storage_key must be non-negative")
      else if index < STORAGE_CHUNKS_IN_HEADER then Ok(0)
      else Ok(1 + (index - STORAGE_CHUNKS_IN_HEADER) / STEM_SUBTREE_WIDTH)
    case _ => Ok(0)
  }

  /** Every key, written out: the subtree 0, 1 or 255, the hash or hashes that place the page, and the leaf;
      `high` is the number of the page in 32 bytes. */
  lemma KeyMeans(H: Hasher, address: Word, part: AccountPart, high: Bytes)
    requires KeyFor(H, address, part).Ok? && |high| == 32
    ensures var key := KeyFor(H, address, part).value;
            match part
            case BasicDataLeaf => key == [0] + H(address) + [0]
            case CodeHashLeaf => key == [0] + H(address) + [1]
            case Chunk(id) =>
              && (0 <= id < 16 ==> key == [0] + H(address) + [4 + id])
              && (id >= 16 && FromBytes(high) == (id - 16) / 256 ==>
                    key == [1] + H(address + high) + [(id - 16) % 256])
            case Slot(index) =>
              && (0 <= index < 4 ==> key == [0] + H(address) + [20 + index])
              && (index >= 4 && FromBytes(high) == (index - 4) / 256 ==>
                    key == [255] + (H(address) + H(address + high)) + [(index - 4) % 256])
  {
    hide Pow256, ToBytes, FromBytes;
    ToFromBytes(high);
  }

  /** The pages: 16 chunks and 4 slots on page 0, then 256 to a page. */
  lemma PageMeans(part: AccountPart, page: nat)
    ensures PageIndex(part) == Ok(page) <==>
              match part
              case Chunk(id) => if page == 0 then 0 <= id < 16 else 256 * (page - 1) <= id - 16 < 256 * page
              case Slot(index) => if page == 0 then 0 <= index < 4 else 256 * (page - 1) <= index - 4 < 256 * page
              case _ => page == 0
  {
  }

  /** Only indices beyond 2^256 pages have a page and no key. */
  lemma KeyExists(H: Hasher, address: Word, part: AccountPart)
    ensures KeyFor(H, address, part).Ok? <==> PageIndex(part).Ok? && PageIndex(part).value <= Pow256(32)
  {
    hide Pow256;
    BigPower();
  }

  lemma BigPower()
    ensures Pow256(32) > 1
  {
    assert Pow256(32) == 256 * Pow256(31);
  }

  /** The byte string whose hash tells the pages of all accounts apart. */
  function PagePreimage(address: Word, page: nat): Bytes
    requires page <= Pow256(32)
  {
    if page == 0 then address else address + ToBytes(page - 1, 32)
  }

  /** Which of the three subtrees holds a page of this part's kind. */
  function SubtreeOf(part: AccountPart, page: nat): byte {
    if page == 0 then HEADER_SUBTREE
    else if part.Chunk? then CODE_SUBTREE
    else STORAGE_SUBTREE
  }

  function PagePosition(H: Hasher, address: Word, part: AccountPart, page: nat): Bytes
    requires page <= Pow256(32)
  {
    var hash := H(PagePreimage(address, page));
    if page > 0 && part.Slot? then H(address) + hash else hash
  }

  /** A key is the subtree and the position of its page, and a subindex on the page. */
  lemma KeyIsOnPage(H: Hasher, address: Word, part: AccountPart) returns (subindex: byte)
    requires KeyFor(H, address, part).Ok?
    ensures PageIndex(part).Ok? && PageIndex(part).value <= Pow256(32)
    ensures var page := PageIndex(part).value;
            var key := KeyFor(H, address, part).value;
            && |key| >= 2 && Subindex(key) == subindex
            && Prefix(key) == [SubtreeOf(part, page)] + PagePosition(H, address, part, page)
    ensures subindex == match part
                        case BasicDataLeaf => 0
                        case CodeHashLeaf => 1
                        case Chunk(id) => if id < 16 then 4 + id else (id - 16) % 256
                        case Slot(index) => if index < 4 then 20 + index else (index - 4) % 256
  {
    hide Pow256;
    KeyExists(H, address, part);
    var page := PageIndex(part).value;
    var key := KeyFor(H, address, part).value;
    subindex := key[|key| - 1];
    var place := [SubtreeOf(part, page)] + PagePosition(H, address, part, page);
    assert key == place + [subindex];
    assert key[..|key| - 1] == place;
  }

  ghost predicate PagesCollide(H: Hasher, a: Word, p: nat, b: Word, q: nat) {
    && p <= Pow256(32) && q <= Pow256(32)
    && PagePreimage(a, p) != PagePreimage(b, q) && H(PagePreimage(a, p)) == H(PagePreimage(b, q))
  }

  /** One page, one preimage. */
  lemma PagePreimageInjective(a: Word, p: nat, b: Word, q: nat)
    requires p <= Pow256(32) && q <= Pow256(32) && PagePreimage(a, p) == PagePreimage(b, q)
    ensures a == b && p == q
  {
    hide Pow256, ToBytes;
    if p > 0 && q > 0 {
      var x, y := ToBytes(p - 1, 32), ToBytes(q - 1, 32);
      assert (a + x)[..32] == a && (b + y)[..32] == b && (a + x)[32..] == x && (b + y)[32..] == y;
      ToBytesInjective(p - 1, q - 1, 32);
    }
  }

  /** Pages are stems: two parts share a stem exactly when they belong to the same account, have the
      same page index and, off the header page, are both code or both storage; unless two pages'
      preimages collide. */
  lemma PagesAreStems(H: Hasher, a: Word, p: AccountPart, b: Word, q: AccountPart)
    requires KeyFor(H, a, p).Ok? && KeyFor(H, b, q).Ok?
    ensures |KeyFor(H, a, p).value| >= 2 && |KeyFor(H, b, q).value| >= 2
    ensures PageIndex(p).Ok? && PageIndex(q).Ok?
    ensures var same := && a == b && PageIndex(p) == PageIndex(q)
                        && (PageIndex(p) == Ok(0) || p.Chunk? == q.Chunk?);
            && (same ==> Prefix(KeyFor(H, a, p).value) == Prefix(KeyFor(H, b, q).value))
            && (Prefix(KeyFor(H, a, p).value) == Prefix(KeyFor(H, b, q).value) ==>
                  same || PagesCollide(H, a, PageIndex(p).value, b, PageIndex(q).value))
  {
    hide Pow256, KeyFor, PagePreimage;
    var s := KeyIsOnPage(H, a, p);
    var t := KeyIsOnPage(H, b, q);
    var m, n := PageIndex(p).value, PageIndex(q).value;
    if Prefix(KeyFor(H, a, p).value) == Prefix(KeyFor(H, b, q).value) {
      var x, y := PagePosition(H, a, p, m), PagePosition(H, b, q, n);
      assert ([SubtreeOf(p, m)] + x)[0] == SubtreeOf(p, m) && ([SubtreeOf(q, n)] + y)[0] == SubtreeOf(q, n);
      assert ([SubtreeOf(p, m)] + x)[1..] == x && ([SubtreeOf(q, n)] + y)[1..] == y;
      var u, v := H(PagePreimage(a, m)), H(PagePreimage(b, n));
      assert x == y && |u| == |v| == 32;
      assert x[|x| - 32..] == u && y[|y| - 32..] == v;
      if PagePreimage(a, m) == PagePreimage(b, n) {
        PagePreimageInjective(a, m, b, n);
      }
    }
  }

  /** Distinct parts have distinct keys, unless the preimages of their pages collide. */
  lemma PythonKeysAreInjective(H: Hasher, a: Word, p: AccountPart, b: Word, q: AccountPart)
    requires KeyFor(H, a, p).Ok? && KeyFor(H, a, p) == KeyFor(H, b, q)
    ensures PageIndex(p).Ok? && PageIndex(q).Ok?
    ensures (a == b && p == q) || PagesCollide(H, a, PageIndex(p).value, b, PageIndex(q).value)
  {
    hide Pow256, KeyFor, PagesCollide;
    PagesAreStems(H, a, p, b, q);
    var s := KeyIsOnPage(H, a, p);
    var t := KeyIsOnPage(H, b, q);
    assert s == t;
  }

  // ---------- the basic-data leaf ----------

  datatype BasicFields = BasicFields(version: int, balance: int, nonce: int, codeSize: int)

  /** `encode_basic_data` */
  function EncodeBasic(b: BasicFields): Result<Bytes> {
    if !(0 <= b.version < Pow256(4)) then Err("version out of range")
    else if !(0 <= b.balance < Pow256(8)) then Err("balance out of range")
    else if !(0 <= b.nonce < Pow256(8)) then Err("nonce out of range")
    else if !(0 <= b.codeSize < Pow256(12)) then Err("code_size out of range")
    else Ok(ToBytes(b.version, 4) + (ToBytes(b.balance, 8) + (ToBytes(b.nonce, 8) + ToBytes(b.codeSize, 12))))
  }

  /** `decode_basic_data` */
  function DecodeBasic(leaf: Bytes): Result<BasicFields> {
    if |leaf| != 32 then Err("BASIC_DATA leaf must be 32 bytes")
    else Ok(BasicFields(FromBytes(leaf[..4]), FromBytes(leaf[4..12]), FromBytes(leaf[12..20]), FromBytes(leaf[20..])))
  }

  /** The basic-data leaf, field by field, the weights of the bytes written out. */
  ghost predicate HasFields(leaf: Bytes, b: BasicFields) {
    && |leaf| == 32
    && Four(leaf[0..4]) == b.version && Eight(leaf[4..12]) == b.balance && Eight(leaf[12..20]) == b.nonce
    && Four(leaf[20..24]) * 0x1_0000_0000_0000_0000 + Eight(leaf[24..32]) == b.codeSize
  }

  /** What the decoder reads is what stands there. */
  lemma DecodeBasicMeans(leaf: Bytes, b: BasicFields)
    ensures DecodeBasic(leaf) == Ok(b) <==> HasFields(leaf, b)
  {
    hide FromBytes, Four, Eight;
    if |leaf| == 32 {
      Pow256Values();
      FourMeans(leaf[..4]);
      EightMeans(leaf[4..12]);
      EightMeans(leaf[12..20]);
      FourMeans(leaf[20..24]);
      EightMeans(leaf[24..32]);
      FromBytesAppend(leaf[20..24], leaf[24..32]);
      assert leaf[20..] == leaf[20..24] + leaf[24..32];
    }
  }

  /** The encoding and the decoding of the basic-data leaf invert each other; the leaf has the fields. */
  lemma BasicDataBijective(b: BasicFields, leaf: Bytes)
    ensures EncodeBasic(b) == Ok(leaf) <==> DecodeBasic(leaf) == Ok(b)
    ensures EncodeBasic(b) == Ok(leaf) <==> HasFields(leaf, b)
  {
    DecodeBasicMeans(leaf, b);
    hide Pow256, ToBytes, FromBytes;
    if EncodeBasic(b).Ok? {
      FromToBytes(b.version, 4);
      FromToBytes(b.balance, 8);
      FromToBytes(b.nonce, 8);
      FromToBytes(b.codeSize, 12);
      FourFields(ToBytes(b.version, 4), ToBytes(b.balance, 8), ToBytes(b.nonce, 8), ToBytes(b.codeSize, 12));
    }
    if DecodeBasic(leaf).Ok? {
      ToFromBytes(leaf[..4]);
      ToFromBytes(leaf[4..12]);
      ToFromBytes(leaf[12..20]);
      ToFromBytes(leaf[20..]);
      assert leaf == leaf[..4] + (leaf[4..12] + (leaf[12..20] + leaf[20..]));
    }
  }

  lemma FourFields(a: Bytes, b: Bytes, c: Bytes, d: Bytes)
    requires |a| == 4 && |b| == 8 && |c| == 8 && |d| == 12
    ensures var all := a + (b + (c + d));
            |all| == 32 && all[..4] == a && all[4..12] == b && all[12..20] == c && all[20..] == d
  {
  }
}
