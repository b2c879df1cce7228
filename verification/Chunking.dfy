/** Code chunking (`chunk_code` in `pbt/embedding.py`), against the instruction scan of the
    Ethereum Yellow Paper, section 9.4.3. */
module Chunking {
  import opened Basics
  import opened Layout

  const PUSH1: int := 0x60
  const PUSH32: int := 0x7f

  /** The operand bytes that an opcode takes. */
  function OperandSize(w: byte): nat {
    if PUSH1 <= w <= PUSH32 then w - PUSH1 + 1 else 0
  }

  /** N(i, w): where the instruction after the one at `i` with opcode `w` starts. */
  function NextInstruction(i: nat, w: byte): nat {
    if 0x60 <= w <= 0x7f then i + w - 0x60 + 2 else i + 1
  }

  /** Position `i` is reached by stepping from 0 with N; every other position is operand data. */
  ghost predicate StartsInstruction(code: Bytes, i: nat) {
    i == 0 || exists j: nat :: j < i && j < |code| && StartsInstruction(code, j) && NextInstruction(j, code[j]) == i
  }

  /** Operand bytes still to come before position `i` of a scan that begins with `start` of them:
      what `pushdata_remaining` holds. */
  function Remaining(bytes: Bytes, start: nat, i: nat): nat
    requires i <= |bytes|
  {
    if i == 0 then start
    else
      var before := Remaining(bytes, start, i - 1);
      if before > 0 then before - 1 else OperandSize(bytes[i - 1])
  }

  lemma {:induction false} RemainingCountsDown(code: Bytes, j: nat, m: nat)
    requires j < |code| && Remaining(code, 0, j) == 0
    requires m <= OperandSize(code[j]) && j + 1 + m <= |code|
    ensures Remaining(code, 0, j + 1 + m) == OperandSize(code[j]) - m
  {
    if m > 0 {
      RemainingCountsDown(code, j, m - 1);
    }
  }

  /** The PUSH whose operand is being read. */
  lemma {:induction false} OperandHasOrigin(code: Bytes, i: nat) returns (j: nat)
    requires i <= |code| && Remaining(code, 0, i) > 0
    ensures j < i && Remaining(code, 0, j) == 0
    ensures NextInstruction(j, code[j]) == i + Remaining(code, 0, i)
  {
    if Remaining(code, 0, i - 1) == 0 {
      j := i - 1;
    } else {
      j := OperandHasOrigin(code, i - 1);
    }
  }

  /** The counter of `chunk_code` is zero exactly at the instruction starts of the whole scan. */
  lemma {:induction false} ZeroRemainingIsStart(code: Bytes, i: nat)
    requires i <= |code|
    ensures StartsInstruction(code, i) <==> Remaining(code, 0, i) == 0
  {
    if i > 0 {
      if StartsInstruction(code, i) {
        var j: nat :| j < i && j < |code| && StartsInstruction(code, j) && NextInstruction(j, code[j]) == i;
        ZeroRemainingIsStart(code, j);
        RemainingCountsDown(code, j, OperandSize(code[j]));
      }
      if Remaining(code, 0, i) == 0 {
        var j := i - 1;
        if Remaining(code, 0, i - 1) > 0 {
          j := OperandHasOrigin(code, i - 1);
        }
        ZeroRemainingIsStart(code, j);
        assert NextInstruction(j, code[j]) == i;
      }
    }
  }

  // ---------- one chunk ----------

  /** `encode_code_chunk` */
  function EncodeCodeChunk(pushdataOffset: int, codeSlice: Bytes): Result<Word> {
    if !(0 <= pushdataOffset <= 31) then Err("pushdata_offset must be 0-31")
    else if |codeSlice| > 31 then Err("code_slice must be at most 31 bytes")
    else Ok([pushdataOffset] + (codeSlice + Zeros(31 - |codeSlice|)))
  }

  /** `bytecode[chunk_start : chunk_start + CHUNK_SIZE]` for chunk `c` */
  function Raw(code: Bytes, c: nat): Bytes
    requires CHUNK_SIZE * c <= |code|
  {
    if CHUNK_SIZE * c + CHUNK_SIZE <= |code| then code[CHUNK_SIZE * c..CHUNK_SIZE * c + CHUNK_SIZE]
    else code[CHUNK_SIZE * c..]
  }

  lemma RawAt(code: Bytes, c: nat)
    requires CHUNK_SIZE * c < |code|
    ensures |Raw(code, c)| == if CHUNK_SIZE * (c + 1) <= |code| then CHUNK_SIZE else |code| - CHUNK_SIZE * c
    ensures forall j :: 0 <= j < |Raw(code, c)| ==> Raw(code, c)[j] == code[CHUNK_SIZE * c + j]
  {
  }

  /** Scanning one leaf alone, from the offset in its first byte: does byte `j` of the chunk start
      an instruction? */
  predicate StartsLocally(leaf: Word, j: nat)
    requires j < CHUNK_SIZE
  {
    Remaining(leaf[1..], leaf[0], j) == 0
  }

  /** The leaf for chunk `c`, told by what it must let a reader do rather than by how it is built:
      give back its bytes, and say which of them start an instruction of the whole code. */
  ghost predicate GoodLeaf(code: Bytes, c: nat, leaf: Word)
    requires CHUNK_SIZE * c <= |code|
  {
    && leaf[0] <= |Raw(code, c)|
    && leaf[1..] == Raw(code, c) + Zeros(CHUNK_SIZE - |Raw(code, c)|)
    && (forall j: nat :: j < |Raw(code, c)| ==>
          (StartsLocally(leaf, j) <==> StartsInstruction(code, CHUNK_SIZE * c + j)))
  }

  lemma {:induction false} RemainingSplits(code: Bytes, a: nat, j: nat, bytes: Bytes)
    requires a + j <= |code| && j <= |bytes| && bytes[..j] == code[a..a + j]
    ensures Remaining(bytes, Remaining(code, 0, a), j) == Remaining(code, 0, a + j)
  {
    if j > 0 {
      assert bytes[..j - 1] == bytes[..j][..j - 1] == code[a..a + j][..j - 1] == code[a..a + (j - 1)];
      assert bytes[j - 1] == bytes[..j][j - 1] == code[a..a + j][j - 1] == code[a + j - 1];
      RemainingSplits(code, a, j - 1, bytes);
    }
  }

  /** Capping the carried-over operand bytes at the length of the chunk changes no answer. */
  lemma {:induction false} CappedRemaining(bytes: Bytes, start: nat, n: nat, j: nat)
    requires j <= n <= |bytes| && n <= start
    ensures Remaining(bytes, start, j) == start - j && Remaining(bytes, n, j) == n - j
  {
    if j > 0 {
      CappedRemaining(bytes, start, n, j - 1);
    }
  }

  lemma ChunkLeafIsGood(code: Bytes, c: nat)
    requires CHUNK_SIZE * c < |code|
    ensures var raw := Raw(code, c);
            var carried := Remaining(code, 0, CHUNK_SIZE * c);
            var leaf := EncodeCodeChunk(if carried < |raw| then carried else |raw|, raw);
            leaf.Ok? && GoodLeaf(code, c, leaf.value)
  {
    var raw := Raw(code, c);
    var a := CHUNK_SIZE * c;
    var carried := Remaining(code, 0, a);
    var capped := if carried < |raw| then carried else |raw|;
    var leaf := EncodeCodeChunk(capped, raw).value;
    var bytes := raw + Zeros(31 - |raw|);
    assert leaf[1..] == bytes;
    forall j: nat | j < |raw|
      ensures StartsLocally(leaf, j) <==> StartsInstruction(code, a + j)
    {
      assert bytes[..j] == raw[..j] == code[a..a + j];
      RemainingSplits(code, a, j, bytes);
      if carried >= |raw| {
        CappedRemaining(bytes, carried, |raw|, j);
      }
      ZeroRemainingIsStart(code, a + j);
    }
  }

  // ---------- the whole code ----------

  /** `chunk_code`: each leaf alone decides code and operand bytes as the scan of the whole code
      does, also under a PUSH that spans several chunks. */
  method ChunkCode(bytecode: Bytes) returns (chunks: seq<Word>)
    ensures |chunks| == ChunkCount(bytecode)
    ensures forall c :: 0 <= c < |chunks| ==> CHUNK_SIZE * c <= |bytecode| && GoodLeaf(bytecode, c, chunks[c])
  {
    hide GoodLeaf, Raw, EncodeCodeChunk;
    chunks := [];
    var pushdataRemaining := 0;
    var chunkStart := 0;
    while chunkStart < |bytecode|
      invariant chunkStart == CHUNK_SIZE * |chunks|
      invariant chunkStart < |bytecode| + CHUNK_SIZE
      invariant pushdataRemaining == Remaining(bytecode, 0, if chunkStart < |bytecode| then chunkStart else |bytecode|)
      invariant forall c :: 0 <= c < |chunks| ==> CHUNK_SIZE * c <= |bytecode| && GoodLeaf(bytecode, c, chunks[c])
      decreases |bytecode| + CHUNK_SIZE - chunkStart
    {
      var raw := Raw(bytecode, |chunks|);
      var pushdataOffset := if pushdataRemaining < |raw| then pushdataRemaining else |raw|;
      ChunkLeafIsGood(bytecode, |chunks|);
      RawAt(bytecode, |chunks|);
      for j := 0 to |raw|
        invariant pushdataRemaining == Remaining(bytecode, 0, chunkStart + j)
      {
        var byte := raw[j];
        assert byte == bytecode[chunkStart + j];
        if pushdataRemaining > 0 {
          pushdataRemaining := pushdataRemaining - 1;
        } else if PUSH1 <= byte <= PUSH32 {
          pushdataRemaining := byte - PUSH1 + 1;
        }
      }
      var leaf := EncodeCodeChunk(pushdataOffset, raw);
      chunks := chunks + [leaf.value];
      chunkStart := chunkStart + CHUNK_SIZE;
    }
  }

  /** The payloads of the leaves, one after the other. */
  function Reassemble(chunks: seq<Word>): Bytes {
    if chunks == [] then [] else Reassemble(chunks[..|chunks| - 1]) + chunks[|chunks| - 1][1..]
  }

  lemma {:induction false} ReassembleAt(chunks: seq<Word>, i: nat)
    requires i < CHUNK_SIZE * |chunks|
    ensures |Reassemble(chunks)| == CHUNK_SIZE * |chunks|
    ensures Reassemble(chunks)[i] == chunks[i / CHUNK_SIZE][1 + i % CHUNK_SIZE]
  {
    var before := chunks[..|chunks| - 1];
    if i < CHUNK_SIZE * |before| {
      ReassembleAt(before, i);
    } else if before != [] {
      ReassembleAt(before, 0);
    }
  }

  lemma LeafHoldsByte(code: Bytes, i: nat, leaf: Word)
    requires i < |code| && GoodLeaf(code, i / CHUNK_SIZE, leaf)
    ensures leaf[1 + i % CHUNK_SIZE] == code[i]
  {
    hide StartsLocally, StartsInstruction;
    var c, j := i / CHUNK_SIZE, i % CHUNK_SIZE;
    RawAt(code, c);
    assert leaf[1..][j] == Raw(code, c)[j];
  }

  /** The leaves give back the bytecode. */
  lemma ChunksReassemble(code: Bytes, chunks: seq<Word>)
    requires |chunks| == ChunkCount(code)
    requires forall c :: 0 <= c < |chunks| ==> CHUNK_SIZE * c <= |code| && GoodLeaf(code, c, chunks[c])
    ensures |code| <= |Reassemble(chunks)| && Reassemble(chunks)[..|code|] == code
  {
    hide GoodLeaf, Reassemble, Raw;
    if code != [] {
      ReassembleAt(chunks, 0);
      forall i | 0 <= i < |code|
        ensures Reassemble(chunks)[i] == code[i]
      {
        ReassembleAt(chunks, i);
        LeafHoldsByte(code, i, chunks[i / CHUNK_SIZE]);
      }
    }
  }
}
