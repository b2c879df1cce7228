/** Stem witness packets: their encoding, their verification, and what an accepted blob proves. */
module Packets {
  import opened Basics
  import opened BigEndian
  import opened StemTree
  import opened History
  import opened Merkle
  import opened Wire

  datatype StemWitnessPacket = StemWitnessPacket(
    epoch: int,
    blockNumber: int,
    blockRoot: Bytes,
    stemPrefix: Bytes,
    key: Bytes,
    value: Bytes,
    proof: MerkleProof,
    bucketId: int)

  /** The fixed-width fields at the front of a packet. */
  datatype Head = Head(epoch: int, blockNumber: int, blockRoot: Bytes, bucketId: int)

  predicate HeadFits(head: Head) {
    && 0 <= head.epoch < Pow256(8) && 0 <= head.blockNumber < Pow256(8) && 0 <= head.bucketId < Pow256(4)
    && |head.blockRoot| == 32
  }

  function HeadBytes(head: Head): Bytes
    requires HeadFits(head)
  {
    [WIRE_VERSION_V1]
    + (ToBytes(head.epoch, 8)
    + (ToBytes(head.blockNumber, 8)
    + (head.blockRoot
    + ToBytes(head.bucketId, 4))))
  }

  function HeadOf(packet: StemWitnessPacket): Head {
    Head(packet.epoch, packet.blockNumber, packet.blockRoot, packet.bucketId)
  }

  /** The fields of varying width behind them. */
  datatype Body = Body(stemPrefix: Bytes, key: Bytes, value: Bytes, proofBlob: Bytes)

  predicate BodyFits(body: Body) {
    && |body.stemPrefix| < Pow256(2) && |body.key| < Pow256(2) && |body.value| == 32
    && |body.proofBlob| < Pow256(4)
  }

  function BodyBytes(body: Body): Bytes
    requires BodyFits(body)
  {
    Sized(body.stemPrefix, 2)
    + (Sized(body.key, 2)
    + (body.value
    + Sized(body.proofBlob, 4)))
  }

  function BodyOf(packet: StemWitnessPacket): Body
    requires Encodable(packet.proof)
  {
    Body(packet.stemPrefix, packet.key, packet.value, ProofBlob(packet.proof))
  }

  predicate PacketEncodable(packet: StemWitnessPacket) {
    HeadFits(HeadOf(packet)) && Encodable(packet.proof) && BodyFits(BodyOf(packet))
  }

  /** `_packet_payload_without_commitment` of a packet that encodes. */
  function Payload(packet: StemWitnessPacket): Bytes
    requires PacketEncodable(packet)
  {
    HeadBytes(HeadOf(packet)) + BodyBytes(BodyOf(packet))
  }

  /** The checks made on the way to `_packet_payload_without_commitment`, in its order. */
  function CheckPacket(packet: StemWitnessPacket): (r: Result<()>)
    ensures r.Ok? <==> PacketEncodable(packet)
  {
    if |packet.blockRoot| != 32 then Err("block_root must be 32 bytes")
    else if |packet.value| != 32 then Err("value must be 32 bytes")
    else if packet.epoch < 0 || packet.blockNumber < 0 || packet.bucketId < 0 then
      Err("numeric packet fields must be non-negative")
    else
      var _ :- CheckEncodable(packet.proof);
      if !HeadFits(HeadOf(packet)) then Err("int too big to convert")
      else if |packet.stemPrefix| >= Pow256(2) || |packet.key| >= Pow256(2) then
        Err("field too large for u16 length prefix")
      else if |ProofBlob(packet.proof)| >= Pow256(4) then Err("field too large for u32 length prefix")
      else Ok(())
  }

  /** `encode_stem_witness_packet_v1` */
  function EncodePacket(H: Hasher, packet: StemWitnessPacket): Result<Bytes> {
    var _ :- CheckPacket(packet);
    Ok(Payload(packet) + H(Payload(packet)))
  }

  function TakeNat(s: Bytes, width: nat): Result<(nat, Bytes)> {
    var (raw, rest) :- Take(s, width);
    Ok((FromBytes(raw), rest))
  }

  function TakeHead(s: Bytes): Result<(Head, Bytes)> {
    var (version, s1) :- Take(s, 1);
    if version[0] != WIRE_VERSION_V1 then Err("unknown version")
    else
      var (epoch, s2) :- TakeNat(s1, 8);
      var (blockNumber, s3) :- TakeNat(s2, 8);
      var (blockRoot, s4) :- Take(s3, 32);
      var (bucketId, s5) :- TakeNat(s4, 4);
      Ok((Head(epoch, blockNumber, blockRoot, bucketId), s5))
  }

  function TakeBody(s: Bytes): Result<(Body, Bytes)> {
    var (stemPrefix, s1) :- TakeSized(s, 2, MAX_STEM_PREFIX_BYTES);
    var (key, s2) :- TakeSized(s1, 2, MAX_KEY_BYTES);
    var (value, s3) :- Take(s2, 32);
    var (proofBlob, s4) :- TakeSized(s3, 4, MAX_PROOF_BLOB_BYTES);
    Ok((Body(stemPrefix, key, value, proofBlob), s4))
  }

  function Assemble(head: Head, body: Body, proof: MerkleProof): StemWitnessPacket {
    StemWitnessPacket(head.epoch, head.blockNumber, head.blockRoot, body.stemPrefix, body.key, body.value,
                      proof, head.bucketId)
  }

  /** All the fields and the commitment behind them, with nothing left over. */
  function TakeFields(blob: Bytes): Result<(Head, Body, Bytes)> {
    var (head, s1) :- TakeHead(blob);
    var (body, s2) :- TakeBody(s1);
    var (commitment, s3) :- Take(s2, 32);
    if s3 != [] then Err("truncated payload") else Ok((head, body, commitment))
  }

  function CheckFields(H: Hasher, head: Head, body: Body, commitment: Bytes): Result<StemWitnessPacket> {
    var proof :- DecodeProof(body.proofBlob);
    if proof.key != body.key then Err("proof_key != key")
    else if proof.value != body.value then Err("proof_value != value")
    else
      var packet := Assemble(head, body, proof);
      var _ :- CheckPacket(packet);
      if H(Payload(packet)) != commitment then Err("packet_commitment mismatch")
      else Ok(packet)
  }

  /** `decode_stem_witness_packet_v1` */
  function DecodePacket(H: Hasher, blob: Bytes): Result<StemWitnessPacket> {
    if |blob| > MAX_PACKET_WIRE_BYTES then Err("packet wire exceeds configured maximum")
    else
      var (head, body, commitment) :- TakeFields(blob);
      CheckFields(H, head, body, commitment)
  }

  lemma TakeNatExact(n: nat, width: nat, rest: Bytes)
    requires n < Pow256(width)
    ensures TakeNat(ToBytes(n, width) + rest, width) == Ok((n, rest))
  {
  }

  lemma TakeNatSplits(s: Bytes, width: nat)
    ensures TakeNat(s, width).Ok? ==>
              && TakeNat(s, width).value.0 < Pow256(width)
              && s == ToBytes(TakeNat(s, width).value.0, width) + TakeNat(s, width).value.1
  {
    if TakeNat(s, width).Ok? {
      ToFromBytes(s[..width]);
    }
  }

  lemma HeadThen(head: Head, end: Bytes)
    requires HeadFits(head)
    ensures HeadBytes(head) + end
         == [WIRE_VERSION_V1] + (ToBytes(head.epoch, 8) + (ToBytes(head.blockNumber, 8)
            + (head.blockRoot + (ToBytes(head.bucketId, 4) + end))))
  {
  }

  lemma BodyThen(body: Body, end: Bytes)
    requires BodyFits(body)
    ensures BodyBytes(body) + end
         == Sized(body.stemPrefix, 2) + (Sized(body.key, 2) + (body.value + (Sized(body.proofBlob, 4) + end)))
  {
  }

  lemma TakeHeadExact(head: Head, rest: Bytes)
    requires HeadFits(head)
    ensures TakeHead(HeadBytes(head) + rest) == Ok((head, rest))
  {
    HeadThen(head, rest);
    var r4 := ToBytes(head.bucketId, 4) + rest;
    var r3 := head.blockRoot + r4;
    var r2 := ToBytes(head.blockNumber, 8) + r3;
    TakeExact([WIRE_VERSION_V1], ToBytes(head.epoch, 8) + r2);
    TakeNatExact(head.epoch, 8, r2);
    TakeNatExact(head.blockNumber, 8, r3);
    TakeExact(head.blockRoot, r4);
    TakeNatExact(head.bucketId, 4, rest);
  }

  lemma TakeHeadSplits(s: Bytes)
    ensures TakeHead(s).Ok? ==>
              HeadFits(TakeHead(s).value.0) && s == HeadBytes(TakeHead(s).value.0) + TakeHead(s).value.1
  {
    if TakeHead(s).Ok? {
      TakeSplits(s, 1);
      var (version, s1) := Take(s, 1).value;
      TakeNatSplits(s1, 8);
      var s2 := TakeNat(s1, 8).value.1;
      TakeNatSplits(s2, 8);
      var s3 := TakeNat(s2, 8).value.1;
      TakeSplits(s3, 32);
      var s4 := Take(s3, 32).value.1;
      TakeNatSplits(s4, 4);
      assert version == [WIRE_VERSION_V1];
      HeadThen(TakeHead(s).value.0, TakeHead(s).value.1);
    }
  }

  lemma TakeBodyExact(body: Body, rest: Bytes)
    requires BodyFits(body)
    requires |body.stemPrefix| <= MAX_STEM_PREFIX_BYTES && |body.key| <= MAX_KEY_BYTES
    requires |body.proofBlob| <= MAX_PROOF_BLOB_BYTES
    ensures TakeBody(BodyBytes(body) + rest) == Ok((body, rest))
  {
    BodyThen(body, rest);
    var r3 := Sized(body.proofBlob, 4) + rest;
    var r2 := body.value + r3;
    TakeSizedExact(body.stemPrefix, 2, MAX_STEM_PREFIX_BYTES, Sized(body.key, 2) + r2);
    TakeSizedExact(body.key, 2, MAX_KEY_BYTES, r2);
    TakeExact(body.value, r3);
    TakeSizedExact(body.proofBlob, 4, MAX_PROOF_BLOB_BYTES, rest);
  }

  lemma TakeBodySplits(s: Bytes)
    ensures TakeBody(s).Ok? ==>
              var (body, rest) := TakeBody(s).value;
              && BodyFits(body) && s == BodyBytes(body) + rest
              && |body.stemPrefix| <= MAX_STEM_PREFIX_BYTES && |body.key| <= MAX_KEY_BYTES
  {
    if TakeBody(s).Ok? {
      TakeSizedSplits(s, 2, MAX_STEM_PREFIX_BYTES);
      var s1 := TakeSized(s, 2, MAX_STEM_PREFIX_BYTES).value.1;
      TakeSizedSplits(s1, 2, MAX_KEY_BYTES);
      var s2 := TakeSized(s1, 2, MAX_KEY_BYTES).value.1;
      TakeSplits(s2, 32);
      var s3 := Take(s2, 32).value.1;
      TakeSizedSplits(s3, 4, MAX_PROOF_BLOB_BYTES);
      BodyThen(TakeBody(s).value.0, TakeBody(s).value.1);
    }
  }

  lemma TakeFieldsExact(head: Head, body: Body, commitment: Bytes)
    requires HeadFits(head) && BodyFits(body) && |commitment| == 32
    requires |body.stemPrefix| <= MAX_STEM_PREFIX_BYTES && |body.key| <= MAX_KEY_BYTES
    requires |body.proofBlob| <= MAX_PROOF_BLOB_BYTES
    ensures TakeFields((HeadBytes(head) + BodyBytes(body)) + commitment) == Ok((head, body, commitment))
  {
    hide TakeHead, TakeBody, HeadBytes, BodyBytes;
    ConcatAssociates(HeadBytes(head), BodyBytes(body), commitment);
    TakeHeadExact(head, BodyBytes(body) + commitment);
    TakeBodyExact(body, commitment);
    assert commitment[..32] == commitment && commitment[32..] == [];
  }

  lemma TakeFieldsSplits(blob: Bytes)
    ensures TakeFields(blob).Ok? ==>
              var (head, body, commitment) := TakeFields(blob).value;
              && HeadFits(head) && BodyFits(body) && |commitment| == 32
              && |body.stemPrefix| <= MAX_STEM_PREFIX_BYTES && |body.key| <= MAX_KEY_BYTES
              && blob == (HeadBytes(head) + BodyBytes(body)) + commitment
  {
    if TakeFields(blob).Ok? {
      TakeHeadSplits(blob);
      var (head, s1) := TakeHead(blob).value;
      TakeBodySplits(s1);
      var (body, s2) := TakeBody(s1).value;
      assert Take(s2, 32).value.0 == s2;
      ConcatAssociates(HeadBytes(head), BodyBytes(body), s2);
    }
  }

  /** What the decoder admits besides what the encoder already demands. */
  predicate PacketInLimits(packet: StemWitnessPacket) {
    && PacketEncodable(packet)
    && |packet.stemPrefix| <= MAX_STEM_PREFIX_BYTES && |packet.key| <= MAX_KEY_BYTES
    && ProofInLimits(packet.proof)
    && packet.proof.key == packet.key && packet.proof.value == packet.value
  }

  /** `decode(encode(p)) == p` for every packet within the limits. */
  lemma DecodeEncodePacket(H: Hasher, packet: StemWitnessPacket)
    requires PacketInLimits(packet)
    ensures EncodePacket(H, packet).Ok?
    ensures DecodePacket(H, EncodePacket(H, packet).value) == Ok(packet)
  {
    var commitment: Bytes := H(Payload(packet));
    PacketLength(packet);
    TakeFieldsExact(HeadOf(packet), BodyOf(packet), commitment);
    DecodeEncodeProof(packet.proof);
  }

  /** The limits on the fields already imply the limit on the whole packet. */
  lemma PacketLength(packet: StemWitnessPacket)
    requires PacketInLimits(packet)
    ensures |Payload(packet)| + 32 <= MAX_PACKET_WIRE_BYTES
  {
  }

  /** `encode(decode(b)) == b` for every accepted blob: a packet has exactly one accepted encoding. */
  lemma EncodeDecodePacket(H: Hasher, blob: Bytes)
    requires DecodePacket(H, blob).Ok?
    ensures PacketInLimits(DecodePacket(H, blob).value)
    ensures EncodePacket(H, DecodePacket(H, blob).value) == Ok(blob)
  {
    hide TakeFields, HeadBytes, BodyBytes, DecodeProof;
    TakeFieldsSplits(blob);
    var (head, body, commitment) := TakeFields(blob).value;
    EncodeDecodeProof(body.proofBlob);
  }

  /** The decoder inverts the encoder on the packets within the limits and on no others. */
  lemma CodecIsBijective(H: Hasher, packet: StemWitnessPacket, blob: Bytes)
    ensures DecodePacket(H, blob) == Ok(packet)
       <==> PacketInLimits(packet) && EncodePacket(H, packet) == Ok(blob)
  {
    if DecodePacket(H, blob).Ok? {
      EncodeDecodePacket(H, blob);
    }
    if PacketInLimits(packet) {
      DecodeEncodePacket(H, packet);
    }
  }

  /** `decode_stem_witness_packet_v1`, advancing an offset through the blob. */
  method DecodeStemWitnessPacket(H: Hasher, blob: Bytes) returns (r: Result<StemWitnessPacket>)
    ensures r == DecodePacket(H, blob)
  {
    hide CheckPacket, PacketEncodable, DecodeProof, Payload;
    if |blob| > MAX_PACKET_WIRE_BYTES {
      return Err("packet wire exceeds configured maximum");
    }
    assert blob[0..] == blob;
    var versionField :- ReadExact(blob, 0, 1);
    var (versionRaw, o1) := versionField;
    if versionRaw[0] != WIRE_VERSION_V1 {
      return Err("unknown version");
    }
    var epochField :- ReadExact(blob, o1, 8);
    var (epochRaw, o2) := epochField;
    var blockNumberField :- ReadExact(blob, o2, 8);
    var (blockNumberRaw, o3) := blockNumberField;
    var blockRootField :- ReadExact(blob, o3, 32);
    var (blockRoot, o4) := blockRootField;
    var bucketField :- ReadExact(blob, o4, 4);
    var (bucketIdRaw, o5) := bucketField;
    var stemField :- ReadSized(blob, o5, 2, MAX_STEM_PREFIX_BYTES);
    var (stemPrefix, o6) := stemField;
    var keyField :- ReadSized(blob, o6, 2, MAX_KEY_BYTES);
    var (key, o7) := keyField;
    var valueField :- ReadExact(blob, o7, 32);
    var (value, o8) := valueField;
    var blobField :- ReadSized(blob, o8, 4, MAX_PROOF_BLOB_BYTES);
    var (proofBlob, o9) := blobField;
    var commitmentField :- ReadExact(blob, o9, 32);
    var (packetCommitment, o10) := commitmentField;
    if o10 != |blob| {
      return Err("truncated payload");
    }
    var proof :- DecodeProofBlob(proofBlob);
    if proof.key != key {
      return Err("proof_key != key");
    }
    if proof.value != value {
      return Err("proof_value != value");
    }
    var packet := StemWitnessPacket(FromBytes(epochRaw), FromBytes(blockNumberRaw), blockRoot, stemPrefix, key, value,
                                    proof, FromBytes(bucketIdRaw));
    var _ :- CheckPacket(packet);
    var expectedCommitment := H(Payload(packet));
    if expectedCommitment != packetCommitment {
      return Err("packet_commitment mismatch");
    }
    r := Ok(packet);
  }

  // ---------- where each field is ----------

  /** The version, and the epoch, block number, root and bucket of a packet. */
  ghost predicate HeadAt(blob: Bytes, head: Head) {
    && |blob| >= 53 && blob[0] == 1
    && Eight(blob[1..9]) == head.epoch && Eight(blob[9..17]) == head.blockNumber
    && At(blob, 17, head.blockRoot) && Four(blob[49..53]) == head.bucketId
  }

  /** The stem prefix and the key behind their lengths, the value, and the proof blob behind its length. */
  ghost predicate BodyAt(blob: Bytes, start: nat, body: Body) {
    var p, k, n := |body.stemPrefix|, |body.key|, |body.proofBlob|;
    && p <= 0xFFFF && k <= 0xFFFF && start + 40 + p + k + n <= |blob|
    && At(blob, start, Two(p)) && At(blob, start + 2, body.stemPrefix)
    && At(blob, start + 2 + p, Two(k)) && At(blob, start + 4 + p, body.key)
    && At(blob, start + 4 + p + k, body.value)
    && Four(blob[start + 36 + p + k..start + 40 + p + k]) == n && At(blob, start + 40 + p + k, body.proofBlob)
  }

  /** A packet on the wire, field by field, and behind it the hash of all that stands before. */
  lemma PacketLayout(H: Hasher, packet: StemWitnessPacket)
    requires PacketEncodable(packet)
    ensures EncodePacket(H, packet).Ok?
    ensures var blob, end := EncodePacket(H, packet).value, |Payload(packet)|;
            && end == 93 + |packet.stemPrefix| + |packet.key| + |ProofBlob(packet.proof)| && |blob| == end + 32
            && HeadAt(blob, HeadOf(packet)) && BodyAt(blob, 53, BodyOf(packet))
            && At(blob, end, H(blob[..end]))
  {
    hide Encodable, ProofBlob, At, HeadAt, BodyAt, HeadBytes, BodyBytes;
    var head, body := HeadBytes(HeadOf(packet)), BodyBytes(BodyOf(packet));
    var payload: Bytes, commitment: Bytes := Payload(packet), H(Payload(packet));
    var blob := payload + commitment;
    HeadLayout(HeadOf(packet), body + commitment);
    ConcatAssociates(head, body, commitment);
    BodyLayout(BodyOf(packet), commitment);
    BodyInWhole(head, BodyOf(packet), commitment);
    AtInOrder(payload, commitment, []);
    assert commitment + [] == commitment;
    assert blob[..|payload|] == payload;
  }

  lemma HeadLayout(head: Head, rest: Bytes)
    requires HeadFits(head)
    ensures HeadAt(HeadBytes(head) + rest, head) && |HeadBytes(head)| == 53
  {
    HeadThen(head, rest);
    EightBytes(head.epoch);
    EightBytes(head.blockNumber);
    FourBytes(head.bucketId);
    var blob := HeadBytes(head) + rest;
    assert blob[1..9] == ToBytes(head.epoch, 8) && blob[9..17] == ToBytes(head.blockNumber, 8);
    assert blob[49..53] == ToBytes(head.bucketId, 4);
  }

  lemma BodyLayout(body: Body, rest: Bytes)
    requires BodyFits(body)
    ensures var blob, p, k, n := BodyBytes(body) + rest, |body.stemPrefix|, |body.key|, |body.proofBlob|;
            && |body.stemPrefix| <= 0xFFFF && |body.key| <= 0xFFFF && |BodyBytes(body)| == 40 + p + k + n
            && At(blob, 0, Two(p)) && At(blob, 2, body.stemPrefix)
            && At(blob, 2 + p, Two(k)) && At(blob, 4 + p, body.key)
            && At(blob, 4 + p + k, body.value) && At(blob, 36 + p + k, ToBytes(n, 4))
            && At(blob, 40 + p + k, body.proofBlob)
  {
    hide At;
    Pow256Values();
    BodyThen(body, rest);
    var stem, key, proof := body.stemPrefix, body.key, body.proofBlob;
    CountIsTwo(|stem|);
    CountIsTwo(|key|);
    var a, b, c := ToBytes(|stem|, 2), ToBytes(|key|, 2), ToBytes(|proof|, 4);
    var r4 := c + (proof + rest);
    var r3 := body.value + r4;
    var r2 := b + (key + r3);
    ConcatAssociates(c, proof, rest);
    ConcatAssociates(b, key, r3);
    ConcatAssociates(a, stem, r2);
    AtFront(a, stem + r2);
    AtInOrder(a, stem, r2);
    StepIn(a, stem, r2, 0, b);
    AtFront(b, key + r3);
    StepIn(a, stem, r2, 0, b);
    AtInOrder(b, key, r3);
    StepIn(a, stem, r2, 2, key);
    AtFront(body.value, r4);
    StepIn(b, key, r3, 0, body.value);
    StepIn(a, stem, r2, 2 + |key|, body.value);
    AtInOrder(body.value, c, proof + rest);
    StepIn(b, key, r3, 32, c);
    StepIn(a, stem, r2, 34 + |key|, c);
    AtInOrder(c, proof, rest);
    AtLater(body.value, r4, 4, proof);
    StepIn(b, key, r3, 36, proof);
    StepIn(a, stem, r2, 38 + |key|, proof);
  }

  /** Behind two strings. */
  lemma StepIn(a: Bytes, b: Bytes, rest: Bytes, start: int, part: Bytes)
    ensures At(rest, start, part) ==> At(a + (b + rest), |a| + |b| + start, part)
  {
    if At(rest, start, part) {
      AtLater(b, rest, start, part);
      AtLater(a, b + rest, |b| + start, part);
    }
  }

  lemma BodyInWhole(head: Bytes, body: Body, rest: Bytes)
    requires BodyFits(body)
    ensures BodyAt(head + (BodyBytes(body) + rest), |head|, body)
  {
    hide Two, BodyBytes, At, Four;
    BodyLayout(body, rest);
    var inner, p, k, n := BodyBytes(body) + rest, |body.stemPrefix|, |body.key|, |body.proofBlob|;
    var blob := head + inner;
    AtLater(head, inner, 0, Two(p));
    AtLater(head, inner, 2, body.stemPrefix);
    AtLater(head, inner, 2 + p, Two(k));
    AtLater(head, inner, 4 + p, body.key);
    AtLater(head, inner, 4 + p + k, body.value);
    AtLater(head, inner, 36 + p + k, ToBytes(n, 4));
    AtLater(head, inner, 40 + p + k, body.proofBlob);
    FourBytes(n);
    AtMeans(blob, |head| + 36 + p + k, ToBytes(n, 4));
  }

  lemma AtMeans(blob: Bytes, start: nat, part: Bytes)
    requires At(blob, start, part)
    ensures start + |part| <= |blob| && blob[start..start + |part|] == part
  {
  }

  /** The limits of the decoder, written out. */
  lemma PacketLimits(packet: StemWitnessPacket)
    ensures PacketInLimits(packet) <==>
              && 0 <= packet.epoch < 0x1_0000_0000_0000_0000 && 0 <= packet.blockNumber < 0x1_0000_0000_0000_0000
              && |packet.blockRoot| == 32 && 0 <= packet.bucketId < 0x1_0000_0000
              && |packet.stemPrefix| <= 256 && |packet.key| <= 512 && |packet.value| == 32
              && packet.proof.key == packet.key && packet.proof.value == packet.value && ProofInLimits(packet.proof)
  {
    Pow256Values();
  }

  // ---------- verification ----------

  /** `verify_witness_packet` */
  function VerifyWitnessPacket(H: Hasher, packet: StemWitnessPacket): Result<bool> {
    var (prefix, _) :- SplitKey(packet.key);
    if prefix != packet.stemPrefix then Ok(false)
    else if packet.proof.key != packet.key then Ok(false)
    else if packet.proof.value != packet.value then Ok(false)
    else Ok(Verifies(H, packet.blockRoot, packet.proof))
  }

  /** What `verify_witness_packet` checks. */
  lemma VerifyWitnessMeans(H: Hasher, packet: StemWitnessPacket)
    ensures VerifyWitnessPacket(H, packet) == Ok(true) <==>
              && |packet.key| >= 2 && packet.stemPrefix == packet.key[..|packet.key| - 1]
              && packet.proof.key == packet.key && packet.proof.value == packet.value
              && Verifies(H, packet.blockRoot, packet.proof)
    ensures VerifyWitnessPacket(H, packet).Err? <==> |packet.key| < 2
  {
    hide Verifies;
  }

  /** The tree and the verification of the packet hash two colliding byte strings. */
  ghost predicate PacketCollides(H: Hasher, root: Tree, packet: StemWitnessPacket) {
    && |packet.proof.key| >= 2 && |packet.proof.pathSiblings| == |packet.proof.pathBits|
    && Collision(H, Payloads(H, root), ProofPayloads(H, packet.proof))
  }

  /** An accepted packet with fixed widths carries the tree's own stem. */
  lemma VerifiedPacketIsHonest(H: Hasher, root: Tree, packet: StemWitnessPacket)
    requires Canonical(root, []) && FixedWidth(packet.proof)
    requires VerifyWitnessPacket(H, packet) == Ok(true) && packet.blockRoot == TreeHash(H, root)
    ensures |packet.proof.key| >= 2 && |packet.proof.pathSiblings| == |packet.proof.pathBits|
    ensures || Collision(H, Payloads(H, root), ProofPayloads(H, packet.proof))
            || (&& GetKey(root, packet.key) == Ok(packet.value)
                && packet.stemPrefix in Stems(root)
                && packet.proof.stemValues == Stems(root)[packet.stemPrefix])
  {
    AcceptedProofIsHonest(H, root, packet.proof);
  }

  /** End to end: whatever bytes a client accepts against the root of a canonical tree, the value
      they carry is the value the tree holds, unless the bytes exhibit a collision. */
  lemma AcceptedBytesAreTrue(H: Hasher, root: Tree, blob: Bytes)
    requires Canonical(root, [])
    requires DecodePacket(H, blob).Ok?
    requires DecodePacket(H, blob).value.blockRoot == TreeHash(H, root)
    requires VerifyWitnessPacket(H, DecodePacket(H, blob).value) == Ok(true)
    ensures var packet := DecodePacket(H, blob).value;
            && |packet.proof.key| >= 2 && |packet.proof.pathSiblings| == |packet.proof.pathBits|
            && (|| GetKey(root, packet.key) == Ok(packet.value)
                || Collision(H, Payloads(H, root), ProofPayloads(H, packet.proof)))
  {
    EncodeDecodePacket(H, blob);
    VerifiedPacketIsHonest(H, root, DecodePacket(H, blob).value);
  }

  // ---------- honest packets ----------

  function HonestPacket(H: Hasher, root: Tree, key: Bytes, epoch: nat, blockNumber: nat, bucketId: nat)
    : StemWitnessPacket
    requires |key| >= 2
  {
    var proof := HonestProof(H, root, key);
    StemWitnessPacket(epoch, blockNumber, TreeHash(H, root), Prefix(key), key, proof.value, proof, bucketId)
  }

  /** The packet for any key whose stem is in the tree fits every limit of the decoder, survives the
      wire, and verifies, as long as the tree's stem prefixes are at most 256 bytes long. */
  lemma HonestPacketArrives(H: Hasher, root: Tree, key: Bytes, epoch: nat, blockNumber: nat, bucketId: nat)
    requires Canonical(root, []) && |key| >= 2 && Prefix(key) in Stems(root)
    requires forall p <- Stems(root) :: |p| <= 256
    requires epoch < Pow256(8) && blockNumber < Pow256(8) && bucketId < Pow256(4)
    ensures var packet := HonestPacket(H, root, key, epoch, blockNumber, bucketId);
            && |packet.proof.pathSiblings| <= 2049
            && PacketInLimits(packet)
            && EncodePacket(H, packet).Ok?
            && DecodePacket(H, EncodePacket(H, packet).value) == Ok(packet)
            && VerifyWitnessPacket(H, packet) == Ok(true)
  {
    hide DecodePacket, ProofBlob;
    var packet := HonestPacket(H, root, key, epoch, blockNumber, bucketId);
    HonestProofVerifies(H, root, key);
    HonestProofFits(H, root, key);
    Pow256Values();
    DecodeEncodePacket(H, packet);
  }

  lemma HonestProofFits(H: Hasher, root: Tree, key: Bytes)
    requires Canonical(root, []) && |key| >= 2 && Prefix(key) in Stems(root)
    requires forall p <- Stems(root) :: |p| <= 256
    ensures ProofInLimits(HonestProof(H, root, key))
    ensures |HonestProof(H, root, key).pathSiblings| <= 2049
    ensures |ProofBlob(HonestProof(H, root, key))| < Pow256(4)
  {
    var proof := HonestProof(H, root, key);
    HonestProofVerifies(H, root, key);
    PathSiblingsLength(H, root, Prefix(key), 0);
    HeightBound(root, [], 256);
    assert forall b <- proof.pathBits :: b == 0 || b == 1;
    Pow256Values();
    ProofBlobLength(proof);
  }
}
