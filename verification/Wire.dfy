/** The wire formats of `pbt/stem_subscription.py`: proof blobs and stem witness packets. */
module Wire {
  import opened Basics
  import opened BigEndian
  import opened Merkle

  const WIRE_VERSION_V1: byte := 1
  const MAX_PACKET_WIRE_BYTES := 262144
  const MAX_PROOF_BLOB_BYTES := 131072
  const MAX_STEM_PREFIX_BYTES := 256
  const MAX_KEY_BYTES := 512
  const MAX_PATH_COMPONENTS := 4096

  // ---------- reading ----------

  /** `_read_exact`, on the bytes from the current offset onward. */
  function Take(s: Bytes, size: nat): Result<(Bytes, Bytes)> {
    if |s| < size then Err("truncated payload") else Ok((s[..size], s[size..]))
  }

  /** `_read_u16_len` and `_read_u32_len` */
  function TakeSized(s: Bytes, width: nat, maxSize: nat): Result<(Bytes, Bytes)> {
    var (rawLen, rest) :- Take(s, width);
    if FromBytes(rawLen) > maxSize then Err("length-prefixed field exceeds configured maximum")
    else Take(rest, FromBytes(rawLen))
  }

  /** `count` words, one after the other. */
  function TakeWords(s: Bytes, count: nat): Result<(seq<Bytes>, Bytes)> {
    if count == 0 then Ok(([], s))
    else
      var (word, rest) :- Take(s, 32);
      var (words, end) :- TakeWords(rest, count - 1);
      Ok(([word] + words, end))
  }

  function TakeBits(s: Bytes, count: nat): Result<(seq<int>, Bytes)> {
    if count == 0 then Ok(([], s))
    else
      var (raw, rest) :- Take(s, 1);
      if raw[0] != 0 && raw[0] != 1 then Err("path_bits entries must be 0 or 1")
      else
        var (bits, end) :- TakeBits(rest, count - 1);
        Ok(([raw[0]] + bits, end))
  }

  function Sized(data: Bytes, width: nat): Bytes
    requires |data| < Pow256(width)
  {
    ToBytes(|data|, width) + data
  }

  predicate BitsOnly(bits: seq<int>) {
    forall b <- bits :: b == 0 || b == 1
  }

  /** Path bits as bytes; a list of zeros and ones is one already. */
  function BitBytes(bits: seq<int>): (raw: Bytes)
    requires BitsOnly(bits)
    ensures raw == bits
  {
    NormalBitsSame(bits);
    NormalBits(bits)
  }

  lemma NormalBitsSame(bits: seq<int>)
    requires BitsOnly(bits)
    ensures NormalBits(bits) == bits
  {
    forall i | 0 <= i < |bits| ensures NormalBits(bits)[i] == bits[i] {
      assert bits[i] in bits;
    }
  }

  lemma TakeExact(a: Bytes, rest: Bytes)
    ensures Take(a + rest, |a|) == Ok((a, rest))
  {
  }

  lemma TakeSplits(s: Bytes, size: nat)
    ensures Take(s, size).Ok? ==> s == Take(s, size).value.0 + Take(s, size).value.1
                                  && |Take(s, size).value.0| == size
  {
  }

  lemma TakeSizedExact(data: Bytes, width: nat, maxSize: nat, rest: Bytes)
    requires |data| < Pow256(width)
    ensures TakeSized(Sized(data, width) + rest, width, maxSize)
         == if |data| <= maxSize then Ok((data, rest))
            else Err("length-prefixed field exceeds configured maximum")
  {
    FromToBytes(|data|, width);
    assert Sized(data, width) + rest == ToBytes(|data|, width) + (data + rest);
    TakeExact(ToBytes(|data|, width), data + rest);
    TakeExact(data, rest);
  }

  lemma TakeSizedSplits(s: Bytes, width: nat, maxSize: nat)
    ensures TakeSized(s, width, maxSize).Ok? ==>
              var (data, rest) := TakeSized(s, width, maxSize).value;
              && |data| <= maxSize && |data| < Pow256(width)
              && s == Sized(data, width) + rest
  {
    if TakeSized(s, width, maxSize).Ok? {
      TakeSplits(s, width);
      var (rawLen, tail) := Take(s, width).value;
      ToFromBytes(rawLen);
      TakeSplits(tail, FromBytes(rawLen));
      var (data, rest) := Take(tail, FromBytes(rawLen)).value;
      ConcatAssociates(rawLen, data, rest);
    }
  }

  lemma {:induction false} TakeWordsExact(words: seq<Bytes>, rest: Bytes)
    requires AllWide(words, 32)
    ensures TakeWords(Join(words) + rest, |words|) == Ok((words, rest))
  {
    if words == [] {
      assert Join(words) + rest == rest;
    } else {
      hide Take;
      var first, others := words[0], words[1..];
      assert first in words && AllWide(others, 32);
      TakeWordsExact(others, rest);
      ConcatAssociates(first, Join(others), rest);
      TakeExact(first, Join(others) + rest);
      assert words == [words[0]] + words[1..];
    }
  }

  lemma {:induction false} TakeWordsSplits(s: Bytes, count: nat)
    ensures TakeWords(s, count).Ok? ==>
              var (words, rest) := TakeWords(s, count).value;
              && |words| == count && AllWide(words, 32) && s == Join(words) + rest
  {
    if count > 0 && TakeWords(s, count).Ok? {
      var (word, tail) := Take(s, 32).value;
      TakeWordsSplits(tail, count - 1);
      var (words, rest) := TakeWords(tail, count - 1).value;
      assert s == word + (Join(words) + rest) == (word + Join(words)) + rest;
      assert ([word] + words)[1..] == words;
      assert s == Join([word] + words) + rest;
    }
  }

  lemma {:induction false} TakeBitsExact(bits: seq<int>, rest: Bytes)
    requires BitsOnly(bits)
    ensures TakeBits(BitBytes(bits) + rest, |bits|) == Ok((bits, rest))
  {
    if bits == [] {
      assert BitBytes(bits) + rest == rest;
    } else {
      assert bits[0] in bits;
      assert forall b <- bits[1..] :: b in bits;
      TakeBitsExact(bits[1..], rest);
      assert BitBytes(bits) + rest == [bits[0]] + (BitBytes(bits[1..]) + rest);
      TakeExact([bits[0]], BitBytes(bits[1..]) + rest);
      assert bits == [bits[0]] + bits[1..];
    }
  }

  lemma {:induction false} TakeBitsSplits(s: Bytes, count: nat)
    ensures TakeBits(s, count).Ok? ==>
              var (bits, rest) := TakeBits(s, count).value;
              && |bits| == count && BitsOnly(bits) && s == BitBytes(bits) + rest
  {
    if count > 0 && TakeBits(s, count).Ok? {
      var (raw, tail) := Take(s, 1).value;
      TakeBitsSplits(tail, count - 1);
      var (bits, rest) := TakeBits(tail, count - 1).value;
      assert BitBytes([raw[0] as int] + bits) == raw + BitBytes(bits);
      assert s == raw + (BitBytes(bits) + rest);
    }
  }

  // ---------- proof blobs ----------

  /** The checks of `_encode_proof_blob`, in its order. */
  function CheckEncodable(proof: MerkleProof): (r: Result<()>)
    ensures r.Ok? <==> Encodable(proof)
  {
    if |proof.value| != 32 then Err("proof value must be 32 bytes")
    else if |proof.stemValues| != 256 then Err("stem_values_count must be 256")
    else if |proof.pathSiblings| != |proof.pathBits| then Err("siblings_count must equal path_bits_count")
    else if !BitsOnly(proof.pathBits) then Err("path_bits entries must be 0 or 1")
    else if !AllWide(proof.stemValues, 32) then Err("all stem values must be 32 bytes")
    else if !AllWide(proof.pathSiblings, 32) then Err("all sibling hashes must be 32 bytes")
    else if |proof.key| > 0xFFFF then Err("field too large for u16 length prefix")
    else if |proof.pathSiblings| > 0xFFFF then Err("int too big to convert")
    else Ok(())
  }

  predicate Encodable(proof: MerkleProof) {
    && |proof.value| == 32 && FixedWidth(proof)
    && |proof.pathSiblings| == |proof.pathBits| <= 0xFFFF && BitsOnly(proof.pathBits)
    && |proof.key| <= 0xFFFF
  }

  function Count(n: nat): Bytes
    requires n <= 0xFFFF
  {
    Pow256Values();
    ToBytes(n, 2)
  }

  /** The key, the value and the stem in front of a proof's path. */
  function LeafThen(key: Bytes, value: Bytes, stemValues: seq<Bytes>, rest: Bytes): Bytes
    requires |key| < Pow256(2)
  {
    Sized(key, 2) + (value + (Count(256) + (Join(stemValues) + rest)))
  }

  function PathBytes(siblings: seq<Bytes>, bits: seq<int>): Bytes
    requires |siblings| <= 0xFFFF && |bits| <= 0xFFFF && BitsOnly(bits)
  {
    Count(|siblings|) + (Join(siblings) + (Count(|bits|) + (BitBytes(bits) + [])))
  }

  function ProofBlob(proof: MerkleProof): Bytes
    requires Encodable(proof)
  {
    Pow256Values();
    LeafThen(proof.key, proof.value, proof.stemValues, PathBytes(proof.pathSiblings, proof.pathBits))
  }

  lemma ProofBlobLength(proof: MerkleProof)
    requires Encodable(proof)
    ensures |ProofBlob(proof)| == 8232 + |proof.key| + 33 * |proof.pathSiblings|
  {
    Pow256Values();
    JoinLength(proof.stemValues, 32);
    JoinLength(proof.pathSiblings, 32);
  }

  function TakeCount(s: Bytes): Result<(nat, Bytes)> {
    var (raw, rest) :- Take(s, 2);
    Ok((FromBytes(raw), rest))
  }

  lemma TakeCountExact(n: nat, rest: Bytes)
    requires n <= 0xFFFF
    ensures TakeCount(Count(n) + rest) == Ok((n, rest))
  {
    Pow256Values();
    FromToBytes(n, 2);
    TakeExact(Count(n), rest);
  }

  lemma TakeCountSplits(s: Bytes)
    ensures TakeCount(s).Ok? ==>
              TakeCount(s).value.0 <= 0xFFFF && s == Count(TakeCount(s).value.0) + TakeCount(s).value.1
  {
    if TakeCount(s).Ok? {
      Pow256Values();
      ToFromBytes(s[..2]);
    }
  }

  function TakeLeaf(s: Bytes): Result<(Bytes, Bytes, seq<Bytes>, Bytes)> {
    var (key, s1) :- TakeSized(s, 2, MAX_KEY_BYTES);
    var (value, s2) :- Take(s1, 32);
    var (stemValuesCount, s3) :- TakeCount(s2);
    if stemValuesCount != 256 then Err("stem_values_count must be 256")
    else
      var (stemValues, rest) :- TakeWords(s3, stemValuesCount);
      Ok((key, value, stemValues, rest))
  }

  function TakePath(s: Bytes): Result<(seq<Bytes>, seq<int>)> {
    var (siblingsCount, s1) :- TakeCount(s);
    if siblingsCount > MAX_PATH_COMPONENTS then Err("siblings_count exceeds configured maximum")
    else
      var (siblings, s2) :- TakeWords(s1, siblingsCount);
      var (pathBitsCount, s3) :- TakeCount(s2);
      if pathBitsCount > MAX_PATH_COMPONENTS then Err("path_bits_count exceeds configured maximum")
      else if siblingsCount != pathBitsCount then Err("siblings_count must equal path_bits_count")
      else
        var (pathBits, s4) :- TakeBits(s3, pathBitsCount);
        if s4 != [] then Err("truncated payload") else Ok((siblings, pathBits))
  }

  /** `_decode_proof_blob` as a function of the blob. */
  function DecodeProof(blob: Bytes): Result<MerkleProof> {
    if |blob| > MAX_PROOF_BLOB_BYTES then Err("proof_blob exceeds configured maximum")
    else
      var (key, value, stemValues, rest) :- TakeLeaf(blob);
      var (siblings, pathBits) :- TakePath(rest);
      Ok(MerkleProof(key, value, stemValues, siblings, pathBits))
  }

  lemma TakeLeafExact(key: Bytes, value: Bytes, stemValues: seq<Bytes>, rest: Bytes)
    requires |key| < Pow256(2) && |key| <= MAX_KEY_BYTES && |value| == 32
    requires |stemValues| == 256 && AllWide(stemValues, 32)
    ensures TakeLeaf(LeafThen(key, value, stemValues, rest)) == Ok((key, value, stemValues, rest))
  {
    hide AllWide, Join, Sized, Count;
    var r3 := Join(stemValues) + rest;
    var r2 := Count(256) + r3;
    TakeSizedExact(key, 2, MAX_KEY_BYTES, value + r2);
    TakeExact(value, r2);
    TakeCountExact(256, r3);
    TakeWordsExact(stemValues, rest);
  }

  lemma TakePathExact(siblings: seq<Bytes>, bits: seq<int>)
    requires |siblings| == |bits| <= MAX_PATH_COMPONENTS && BitsOnly(bits) && AllWide(siblings, 32)
    ensures TakePath(PathBytes(siblings, bits)) == Ok((siblings, bits))
  {
    hide AllWide, Join, Count, BitBytes, BitsOnly;
    var r3 := BitBytes(bits) + [];
    var r2 := Count(|bits|) + r3;
    TakeCountExact(|siblings|, Join(siblings) + r2);
    TakeWordsExact(siblings, r2);
    TakeCountExact(|bits|, r3);
    TakeBitsExact(bits, []);
  }

  lemma TakeLeafSplits(s: Bytes)
    ensures TakeLeaf(s).Ok? ==>
              var (key, value, stemValues, rest) := TakeLeaf(s).value;
              && |key| <= MAX_KEY_BYTES && |key| < Pow256(2) && |value| == 32
              && |stemValues| == 256 && AllWide(stemValues, 32)
              && s == LeafThen(key, value, stemValues, rest)
  {
    if TakeLeaf(s).Ok? {
      hide TakeSized, Take, TakeWords, TakeCount, Join, Sized, Count, AllWide;
      TakeSizedSplits(s, 2, MAX_KEY_BYTES);
      var (key, s1) := TakeSized(s, 2, MAX_KEY_BYTES).value;
      TakeSplits(s1, 32);
      var (value, s2) := Take(s1, 32).value;
      TakeCountSplits(s2);
      var (n, s3) := TakeCount(s2).value;
      TakeWordsSplits(s3, 256);
    }
  }

  lemma TakePathSplits(s: Bytes)
    ensures TakePath(s).Ok? ==>
              var (siblings, bits) := TakePath(s).value;
              && |siblings| == |bits| <= MAX_PATH_COMPONENTS && BitsOnly(bits) && AllWide(siblings, 32)
              && s == PathBytes(siblings, bits)
  {
    if TakePath(s).Ok? {
      hide TakeWords, TakeBits, TakeCount, Join, Count, BitBytes, AllWide, BitsOnly;
      TakeCountSplits(s);
      var (n, s1) := TakeCount(s).value;
      TakeWordsSplits(s1, n);
      var (siblings, s2) := TakeWords(s1, n).value;
      TakeCountSplits(s2);
      var (m, s3) := TakeCount(s2).value;
      TakeBitsSplits(s3, m);
    }
  }

  /** What the decoder admits besides what the encoder already demands. */
  predicate ProofInLimits(proof: MerkleProof) {
    && Encodable(proof)
    && |proof.key| <= MAX_KEY_BYTES
    && |proof.pathSiblings| <= MAX_PATH_COMPONENTS
    && |ProofBlob(proof)| <= MAX_PROOF_BLOB_BYTES
  }

  /** `decode(encode(p)) == p` for every proof within the limits. */
  lemma DecodeEncodeProof(proof: MerkleProof)
    requires ProofInLimits(proof)
    ensures DecodeProof(ProofBlob(proof)) == Ok(proof)
  {
    hide LeafThen, PathBytes, TakeLeaf, TakePath, AllWide, BitsOnly;
    Pow256Values();
    var path := PathBytes(proof.pathSiblings, proof.pathBits);
    TakeLeafExact(proof.key, proof.value, proof.stemValues, path);
    TakePathExact(proof.pathSiblings, proof.pathBits);
  }

  /** `encode(decode(b)) == b` for every accepted blob, so a proof has one accepted encoding. */
  lemma EncodeDecodeProof(blob: Bytes)
    requires DecodeProof(blob).Ok?
    ensures ProofInLimits(DecodeProof(blob).value)
    ensures ProofBlob(DecodeProof(blob).value) == blob
  {
    hide LeafThen, PathBytes, TakeLeaf, TakePath, AllWide, BitsOnly;
    Pow256Values();
    TakeLeafSplits(blob);
    var rest := TakeLeaf(blob).value.3;
    TakePathSplits(rest);
  }

  // ---------- where each field is ----------

  /** `part` stands in `blob` at `start`. */
  ghost predicate At(blob: Bytes, start: int, part: Bytes) {
    0 <= start && start + |part| <= |blob| && blob[start..start + |part|] == part
  }

  lemma AtFront(a: Bytes, rest: Bytes)
    ensures At(a + rest, 0, a)
  {
  }

  lemma AtLater(a: Bytes, rest: Bytes, start: int, part: Bytes)
    requires At(rest, start, part)
    ensures At(a + rest, |a| + start, part)
  {
    assert (a + rest)[|a| + start..|a| + start + |part|] == rest[start..start + |part|];
  }

  /** A part of the first of two strings. */
  lemma AtInside(a: Bytes, rest: Bytes, start: int, part: Bytes)
    requires At(a, start, part)
    ensures At(a + rest, start, part)
  {
    assert (a + rest)[start..start + |part|] == a[start..start + |part|];
  }

  lemma AtInOrder(a: Bytes, b: Bytes, rest: Bytes)
    ensures At(a + (b + rest), |a|, b)
  {
    AtFront(b, rest);
    AtLater(a, b + rest, 0, b);
  }

  lemma WordAt(words: seq<Bytes>, rest: Bytes, i: nat)
    requires AllWide(words, 32) && i < |words|
    ensures At(Join(words) + rest, 32 * i, words[i])
  {
    assert words[i] in words;
    JoinAt(words, 32, i);
    AtInside(Join(words), rest, 32 * i, words[i]);
  }

  /** Two bytes, the more significant one first. */
  function Two(n: int): Bytes
    requires 0 <= n < 0x1_0000
  {
    [n / 256, n % 256]
  }

  lemma CountIsTwo(n: nat)
    requires n <= 0xFFFF
    ensures Count(n) == Two(n)
  {
    Pow256Values();
    TwoBytes(n);
  }

  /** A proof blob, field by field: the key behind its length, the value, 256 leaves behind their number,
      the siblings behind theirs, one byte for each path bit behind theirs, and nothing else. */
  lemma ProofBlobLayout(proof: MerkleProof, i: nat, j: nat)
    requires Encodable(proof) && i < 256
    ensures var blob, k, n := ProofBlob(proof), |proof.key|, |proof.pathSiblings|;
            && |blob| == 8232 + k + 33 * n
            && At(blob, 0, Two(k)) && At(blob, 2, proof.key) && At(blob, 2 + k, proof.value)
            && At(blob, 34 + k, Two(256)) && At(blob, 36 + k + 32 * i, proof.stemValues[i])
            && At(blob, 8228 + k, Two(n)) && (j < n ==> At(blob, 8230 + k + 32 * j, proof.pathSiblings[j]))
            && At(blob, 8230 + k + 32 * n, Two(n)) && At(blob, 8232 + k + 32 * n, BitBytes(proof.pathBits))
  {
    hide AllWide, Join, BitBytes, BitsOnly, At, Count, Two;
    Pow256Values();
    ProofBlobLength(proof);
    CountIsTwo(|proof.key|);
    CountIsTwo(256);
    CountIsTwo(|proof.pathSiblings|);
    var path := PathBytes(proof.pathSiblings, proof.pathBits);
    LeafLayout(proof.key, proof.value, proof.stemValues, path, i);
    PathLayout(proof.pathSiblings, proof.pathBits, j);
    var leaf := LeafThen(proof.key, proof.value, proof.stemValues, []);
    LeafInFront(proof.key, proof.value, proof.stemValues, path);
    var n := |proof.pathSiblings|;
    AtLater(leaf, path, 0, Two(n));
    if j < n {
      AtLater(leaf, path, 2 + 32 * j, proof.pathSiblings[j]);
    }
    AtLater(leaf, path, 2 + 32 * n, Two(n));
    AtLater(leaf, path, 4 + 32 * n, BitBytes(proof.pathBits));
  }

  lemma LeafInFront(key: Bytes, value: Bytes, stemValues: seq<Bytes>, rest: Bytes)
    requires |key| < Pow256(2) && |value| == 32 && |stemValues| == 256 && AllWide(stemValues, 32)
    ensures LeafThen(key, value, stemValues, rest) == LeafThen(key, value, stemValues, []) + rest
    ensures |LeafThen(key, value, stemValues, [])| == 8228 + |key|
  {
    JoinLength(stemValues, 32);
    assert Join(stemValues) + [] == Join(stemValues);
  }

  lemma LeafLayout(key: Bytes, value: Bytes, stemValues: seq<Bytes>, rest: Bytes, i: nat)
    requires |key| <= 0xFFFF && |value| == 32 && |stemValues| == 256 && AllWide(stemValues, 32) && i < 256
    ensures |key| < Pow256(2)
    ensures var blob, k := LeafThen(key, value, stemValues, rest), |key|;
            && At(blob, 0, Count(k)) && At(blob, 2, key) && At(blob, 2 + k, value) && At(blob, 34 + k, Count(256))
            && At(blob, 36 + k + 32 * i, stemValues[i])
  {
    hide AllWide, Join, At;
    Pow256Values();
    var length, r4 := Count(|key|), Join(stemValues) + rest;
    var r3 := Count(256) + r4;
    var r2 := value + r3;
    ConcatAssociates(length, key, r2);
    WordAt(stemValues, rest, i);
    AtLater(Count(256), r4, 32 * i, stemValues[i]);
    AtLater(value, r3, 2 + 32 * i, stemValues[i]);
    AtLater(key, r2, 34 + 32 * i, stemValues[i]);
    AtLater(length, key + r2, 34 + |key| + 32 * i, stemValues[i]);
    AtFront(length, key + r2);
    AtInOrder(length, key, r2);
    AtInOrder(key, value, r3);
    AtLater(length, key + r2, |key|, value);
    AtInOrder(value, Count(256), r4);
    AtLater(key, r2, 32, Count(256));
    AtLater(length, key + r2, |key| + 32, Count(256));
  }

  lemma PathLayout(siblings: seq<Bytes>, bits: seq<int>, j: nat)
    requires |siblings| == |bits| <= 0xFFFF && BitsOnly(bits) && AllWide(siblings, 32)
    ensures var blob, n := PathBytes(siblings, bits), |siblings|;
            && At(blob, 0, Count(n)) && (j < n ==> At(blob, 2 + 32 * j, siblings[j]))
            && At(blob, 2 + 32 * n, Count(n)) && At(blob, 4 + 32 * n, BitBytes(bits))
  {
    hide AllWide, Join, At, BitBytes, BitsOnly;
    JoinLength(siblings, 32);
    var n, count := |siblings|, Count(|siblings|);
    var r2 := count + (BitBytes(bits) + []);
    var r1 := Join(siblings) + r2;
    AtFront(count, r1);
    if j < n {
      WordAt(siblings, r2, j);
      AtLater(count, r1, 32 * j, siblings[j]);
    }
    AtInOrder(Join(siblings), count, BitBytes(bits) + []);
    AtLater(count, r1, 32 * n, count);
    AtInOrder(count, BitBytes(bits), []);
    AtLater(Join(siblings), r2, 2, BitBytes(bits));
    AtLater(count, r1, 32 * n + 2, BitBytes(bits));
  }

  /** The limits of the decoder, written out. */
  lemma ProofLimits(proof: MerkleProof)
    ensures ProofInLimits(proof) <==>
              && |proof.key| <= 512 && |proof.value| == 32
              && |proof.stemValues| == 256 && (forall v <- proof.stemValues :: |v| == 32)
              && |proof.pathSiblings| == |proof.pathBits| && (forall s <- proof.pathSiblings :: |s| == 32)
              && (forall b <- proof.pathBits :: b == 0 || b == 1)
              && 8232 + |proof.key| + 33 * |proof.pathSiblings| <= 131072 && |proof.pathSiblings| <= 4096
  {
    if Encodable(proof) {
      ProofBlobLength(proof);
    }
  }

  // ---------- the same as the loops of the source ----------

  /** `_encode_proof_blob`: the buffer grows value by value. */
  method EncodeProofBlob(proof: MerkleProof) returns (r: Result<Bytes>)
    ensures r.Ok? <==> Encodable(proof)
    ensures r.Ok? ==> r.value == ProofBlob(proof)
  {
    var _ :- CheckEncodable(proof);
    Pow256Values();
    var out: Bytes := Sized(proof.key, 2);
    out := out + proof.value;
    out := out + Count(256);
    out := ExtendAll(out, proof.stemValues);
    out := out + Count(|proof.pathSiblings|);
    out := ExtendAll(out, proof.pathSiblings);
    out := out + Count(|proof.pathBits|);
    out := AppendBits(out, proof.pathBits);
    ConcatFields(Sized(proof.key, 2), proof.value, Count(256), Join(proof.stemValues), Count(|proof.pathSiblings|),
                 Join(proof.pathSiblings), Count(|proof.pathBits|), BitBytes(proof.pathBits));
    r := Ok(out);
  }

  /** `for part in parts: out.extend(part)` */
  method ExtendAll(buffer: Bytes, parts: seq<Bytes>) returns (out: Bytes)
    ensures out == buffer + Join(parts)
  {
    out := buffer;
    for i := 0 to |parts|
      invariant out == buffer + Join(parts[..i])
    {
      JoinOneMore(parts, i);
      out := out + parts[i];
    }
    assert parts[..|parts|] == parts;
  }

  /** `for bit in bits: out.append(bit)` */
  method AppendBits(buffer: Bytes, bits: seq<int>) returns (out: Bytes)
    requires BitsOnly(bits)
    ensures out == buffer + BitBytes(bits)
  {
    out := buffer;
    for i := 0 to |bits|
      invariant out == buffer + BitBytes(bits)[..i]
    {
      assert bits[i] in bits;
      out := out + [bits[i]];
    }
  }

  lemma ConcatFields(a: Bytes, b: Bytes, c: Bytes, d: Bytes, e: Bytes, f: Bytes, g: Bytes, h: Bytes)
    ensures a + (b + (c + (d + (e + (f + (g + (h + []))))))) == ((((((a + b) + c) + d) + e) + f) + g) + h
  {
  }

  lemma JoinOneMore(parts: seq<Bytes>, i: nat)
    requires i < |parts|
    ensures Join(parts[..i + 1]) == Join(parts[..i]) + parts[i]
  {
    JoinAppend(parts[..i], [parts[i]]);
    assert parts[..i + 1] == parts[..i] + [parts[i]];
    assert Join([parts[i]]) == parts[i] + [] == parts[i];
  }

  /** `_read_exact` */
  function ReadExact(blob: Bytes, offset: nat, size: nat): (r: Result<(Bytes, nat)>)
    requires offset <= |blob|
    ensures r.Err? ==> Take(blob[offset..], size) == Err(r.reason)
    ensures r.Ok? ==> offset <= r.value.1 <= |blob|
                      && Take(blob[offset..], size) == Ok((r.value.0, blob[r.value.1..]))
  {
    if offset + size > |blob| then Err("truncated payload")
    else
      assert blob[offset..][..size] == blob[offset..offset + size];
      assert blob[offset..][size..] == blob[offset + size..];
      Ok((blob[offset..offset + size], offset + size))
  }

  /** The result of reading a list, with the part that was read before put in front. */
  ghost function After<T>(done: seq<T>, r: Result<(seq<T>, Bytes)>): Result<(seq<T>, Bytes)> {
    if r.Ok? then Ok((done + r.value.0, r.value.1)) else r
  }

  lemma AfterNothing<T>(r: Result<(seq<T>, Bytes)>)
    ensures After([], r) == r
  {
    if r.Ok? {
      assert [] + r.value.0 == r.value.0;
    }
  }

  lemma AfterOneMore<T>(done: seq<T>, x: T, r: Result<(seq<T>, Bytes)>)
    ensures After(done + [x], r) == After(done, After([x], r))
  {
    if r.Ok? {
      ConcatAssociates(done, [x], r.value.0);
    }
  }

  /** The loop that reads `count` words. */
  method ReadWords(blob: Bytes, start: nat, count: nat) returns (r: Result<(seq<Bytes>, nat)>)
    requires start <= |blob|
    ensures r.Err? ==> TakeWords(blob[start..], count) == Err(r.reason)
    ensures r.Ok? ==> start <= r.value.1 <= |blob|
                      && TakeWords(blob[start..], count) == Ok((r.value.0, blob[r.value.1..]))
  {
    var words: seq<Bytes> := [];
    var offset := start;
    AfterNothing(TakeWords(blob[start..], count));
    for i := 0 to count
      invariant start <= offset <= |blob|
      invariant TakeWords(blob[start..], count) == After(words, TakeWords(blob[offset..], count - i))
    {
      var step := ReadExact(blob, offset, 32);
      if step.Err? {
        return Err(step.reason);
      }
      var (word, next) := step.value;
      AfterOneMore(words, word, TakeWords(blob[next..], count - i - 1));
      words := words + [word];
      offset := next;
    }
    assert words + [] == words;
    r := Ok((words, offset));
  }

  /** The loop that reads the path bits. */
  method ReadBits(blob: Bytes, start: nat, count: nat) returns (r: Result<(seq<int>, nat)>)
    requires start <= |blob|
    ensures r.Err? ==> TakeBits(blob[start..], count) == Err(r.reason)
    ensures r.Ok? ==> start <= r.value.1 <= |blob|
                      && TakeBits(blob[start..], count) == Ok((r.value.0, blob[r.value.1..]))
  {
    var bits: seq<int> := [];
    var offset := start;
    AfterNothing(TakeBits(blob[start..], count));
    for i := 0 to count
      invariant start <= offset <= |blob|
      invariant TakeBits(blob[start..], count) == After(bits, TakeBits(blob[offset..], count - i))
    {
      var step := ReadExact(blob, offset, 1);
      if step.Err? {
        return Err(step.reason);
      }
      var (raw, next) := step.value;
      var bit: int := raw[0];
      if bit != 0 && bit != 1 {
        return Err("path_bits entries must be 0 or 1");
      }
      AfterOneMore(bits, bit, TakeBits(blob[next..], count - i - 1));
      bits := bits + [bit];
      offset := next;
    }
    assert bits + [] == bits;
    r := Ok((bits, offset));
  }

  /** `_decode_proof_blob`, advancing an offset through the blob. */
  method DecodeProofBlob(blob: Bytes) returns (r: Result<MerkleProof>)
    ensures r == DecodeProof(blob)
  {
    if |blob| > MAX_PROOF_BLOB_BYTES {
      return Err("proof_blob exceeds configured maximum");
    }
    assert blob[0..] == blob;
    var keyField :- ReadSized(blob, 0, 2, MAX_KEY_BYTES);
    var (key, o1) := keyField;
    var valueField :- ReadExact(blob, o1, 32);
    var (value, o2) := valueField;
    var stemCountRaw :- ReadExact(blob, o2, 2);
    var stemValuesCount, o3 := FromBytes(stemCountRaw.0), stemCountRaw.1;
    if stemValuesCount != 256 {
      return Err("stem_values_count must be 256");
    }
    var stemField :- ReadWords(blob, o3, stemValuesCount);
    var (stemValues, o4) := stemField;
    var siblingsCountRaw :- ReadExact(blob, o4, 2);
    var siblingsCount, o5 := FromBytes(siblingsCountRaw.0), siblingsCountRaw.1;
    if siblingsCount > MAX_PATH_COMPONENTS {
      return Err("siblings_count exceeds configured maximum");
    }
    var siblingsField :- ReadWords(blob, o5, siblingsCount);
    var (siblings, o6) := siblingsField;
    var bitsCountRaw :- ReadExact(blob, o6, 2);
    var pathBitsCount, o7 := FromBytes(bitsCountRaw.0), bitsCountRaw.1;
    if pathBitsCount > MAX_PATH_COMPONENTS {
      return Err("path_bits_count exceeds configured maximum");
    }
    if siblingsCount != pathBitsCount {
      return Err("siblings_count must equal path_bits_count");
    }
    var bitsField :- ReadBits(blob, o7, pathBitsCount);
    var (pathBits, o8) := bitsField;
    if o8 != |blob| {
      return Err("truncated payload");
    }
    r := Ok(MerkleProof(key, value, stemValues, siblings, pathBits));
  }

  /** `_read_u16_len` and `_read_u32_len` */
  function ReadSized(blob: Bytes, offset: nat, width: nat, maxSize: nat): (r: Result<(Bytes, nat)>)
    requires offset <= |blob|
    ensures r.Err? ==> TakeSized(blob[offset..], width, maxSize) == Err(r.reason)
    ensures r.Ok? ==> offset <= r.value.1 <= |blob|
                      && TakeSized(blob[offset..], width, maxSize) == Ok((r.value.0, blob[r.value.1..]))
  {
    var (rawLen, next) :- ReadExact(blob, offset, width);
    if FromBytes(rawLen) > maxSize then Err("length-prefixed field exceeds configured maximum")
    else ReadExact(blob, next, FromBytes(rawLen))
  }
}
