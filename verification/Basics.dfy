/** Bytes, 32-byte words, results, and the bit paths along which the tree is split. */
module Basics {

  type byte = x: int | 0 <= x < 256

  type bit = x: int | 0 <= x < 2

  type Bytes = seq<byte>

  function Zeros(n: nat): (z: Bytes)
    ensures |z| == n && forall i :: 0 <= i < n ==> z[i] == 0
  {
    seq(n, _ => 0)
  }

  function ByteOfChar(c: char): byte
    requires c as int < 128
  {
    c as int
  }

  /** `b"..."` */
  function Ascii(text: string): (raw: Bytes)
    requires forall i :: 0 <= i < |text| ==> text[i] as int < 128
    ensures |raw| == |text| && forall i :: 0 <= i < |raw| ==> raw[i] == text[i] as int
  {
    seq(|text|, i requires 0 <= i < |text| => ByteOfChar(text[i]))
  }

  /** A 32-byte string: a leaf value or a digest. */
  type Word = w: Bytes | |w| == 32 witness Zeros(32)

  const EMPTY_VALUE: Word := Zeros(32)

  const STEM_SUBTREE_WIDTH := 256

  /** `[EMPTY_VALUE] * n`. */
  function EmptyWords(n: nat): (ws: seq<Word>)
    ensures |ws| == n && forall w <- ws :: w == EMPTY_VALUE
  {
    seq(n, _ => EMPTY_VALUE)
  }

  /** The leaves of one stem: `StemNode.__post_init__` admits exactly 256 words. */
  type Values = vs: seq<Word> | |vs| == STEM_SUBTREE_WIDTH witness EmptyWords(256)

  const EMPTY_VALUES: Values := EmptyWords(STEM_SUBTREE_WIDTH)

  /** The active hash function, fixed for a run; every statement holds for all of them. */
  type Hasher = Bytes -> Word

  datatype Option<+T> = None | Some(value: T)

  /** `Err` stands for the source's ValueError (OverflowError) and Rust's Err. */
  datatype Result<+T> = Ok(value: T) | Err(reason: string) {
    predicate IsFailure() {
      Err?
    }

    function PropagateFailure<U>(): Result<U>
      requires Err?
    {
      Err(reason)
    }

    function Extract(): T
      requires Ok?
    {
      value
    }
  }

  /** Concatenation of a list of byte strings, `b"".join(...)`. */
  function Join(parts: seq<Bytes>): Bytes {
    if parts == [] then [] else parts[0] + Join(parts[1..])
  }

  predicate AllWide(parts: seq<Bytes>, width: nat) {
    forall part <- parts :: |part| == width
  }

  lemma {:induction false} JoinLength(parts: seq<Bytes>, width: nat)
    requires AllWide(parts, width)
    ensures |Join(parts)| == width * |parts|
  {
    if parts != [] {
      assert parts[0] in parts;
      JoinLength(parts[1..], width);
      OneMoreWidth(width, |parts| - 1);
    }
  }

  lemma OneMoreWidth(width: nat, n: nat)
    ensures width * (n + 1) == width * n + width
  {
  }

  /** Fixed-width parts can be read back from their concatenation. */
  lemma {:induction false} JoinInjective(a: seq<Bytes>, b: seq<Bytes>, width: nat)
    requires AllWide(a, width) && AllWide(b, width)
    requires |a| == |b| && Join(a) == Join(b)
    ensures a == b
  {
    if a != [] {
      assert a[0] in a && b[0] in b;
      assert Join(a)[..width] == a[0] && Join(b)[..width] == b[0];
      assert Join(a)[width..] == Join(a[1..]) && Join(b)[width..] == Join(b[1..]);
      JoinInjective(a[1..], b[1..], width);
      assert a == [a[0]] + a[1..] && b == [b[0]] + b[1..];
    }
  }

  lemma SliceBehind(a: Bytes, b: Bytes, start: nat, length: nat)
    requires start + length <= |b|
    ensures (a + b)[|a| + start..|a| + start + length] == b[start..start + length]
  {
  }

  /** Where each part of a concatenation is found. */
  lemma {:induction false} JoinAt(parts: seq<Bytes>, width: nat, i: nat)
    requires AllWide(parts, width) && i < |parts|
    ensures 0 <= width * i && width * i + width <= |Join(parts)|
    ensures Join(parts)[width * i..width * i + width] == parts[i]
  {
    assert parts[0] in parts;
    if i > 0 {
      JoinAt(parts[1..], width, i - 1);
      OneMoreWidth(width, i - 1);
      SliceBehind(parts[0], Join(parts[1..]), width * (i - 1), width);
    } else {
      assert width * 0 == 0;
    }
  }

  lemma {:induction false} JoinAppend(a: seq<Bytes>, b: seq<Bytes>)
    ensures Join(a + b) == Join(a) + Join(b)
  {
    if a == [] {
      assert a + b == b;
    } else {
      JoinAppend(a[1..], b);
      assert (a + b)[1..] == a[1..] + b;
      assert (a + b)[0] == a[0];
    }
  }

  lemma ConcatAssociates<T>(a: seq<T>, b: seq<T>, c: seq<T>)
    ensures (a + b) + c == a + (b + c)
  {
  }

  // ---------- paths ----------

  /** `b >> n` */
  function ShiftRight(b: nat, n: nat): nat {
    if n == 0 then b else ShiftRight(b, n - 1) / 2
  }

  /** Bit `i` of a byte, most significant first: `(b >> (7 - i)) & 1`. */
  function BitOf(b: byte, i: nat): bit
    requires i < 8
  {
    ShiftRight(b, 7 - i) % 2
  }

  /** The bits of a byte, each with its weight, make up the byte. */
  lemma BitsSpellByte(b: byte)
    ensures b == 128 * BitOf(b, 0) + 64 * BitOf(b, 1) + 32 * BitOf(b, 2) + 16 * BitOf(b, 3)
               + 8 * BitOf(b, 4) + 4 * BitOf(b, 5) + 2 * BitOf(b, 6) + 1 * BitOf(b, 7)
  {
    ShiftedByteIsSmall(b, 8);
    assert ShiftRight(b, 1) == b / 2;
    assert ShiftRight(b, 2) == ShiftRight(b, 1) / 2 && ShiftRight(b, 3) == ShiftRight(b, 2) / 2;
    assert ShiftRight(b, 4) == ShiftRight(b, 3) / 2 && ShiftRight(b, 5) == ShiftRight(b, 4) / 2;
    assert ShiftRight(b, 6) == ShiftRight(b, 5) / 2 && ShiftRight(b, 7) == ShiftRight(b, 6) / 2;
    assert ShiftRight(b, 8) == ShiftRight(b, 7) / 2;
  }

  /** Bit of a stem's path, with an implicit terminator bit after the payload. */
  function PathBitAt(data: Bytes, position: nat): bit {
    var byteIndex, bitIndex := position / 8, position % 8;
    if byteIndex < |data| then BitOf(data[byteIndex], bitIndex)
    else if byteIndex == |data| && bitIndex == 0 then 1
    else 0
  }

  /** The first `depth` path bits of a prefix. */
  function PathTo(prefix: Bytes, depth: nat): (path: seq<bit>)
    ensures |path| == depth
  {
    seq(depth, i requires 0 <= i => PathBitAt(prefix, i))
  }

  lemma PathToNext(prefix: Bytes, depth: nat)
    ensures PathTo(prefix, depth + 1) == PathTo(prefix, depth) + [PathBitAt(prefix, depth)]
  {
  }

  /** The eight bits, most significant first, are the binary digits of `b`. */
  predicate Weighs(bits: seq<int>, b: int)
    requires |bits| == 8
  {
    b == 128 * bits[0] + 64 * bits[1] + 32 * bits[2] + 16 * bits[3] + 8 * bits[4] + 4 * bits[5] + 2 * bits[6] + bits[7]
  }

  /** Read most significant bit first, the path gives the bytes of the prefix, then 1, then zeros. */
  ghost predicate SpellsPrefix(path: seq<bit>, prefix: Bytes) {
    && 8 * |prefix| < |path|
    && (forall k :: 0 <= k < |prefix| ==> Weighs(path[8 * k..8 * k + 8], prefix[k]))
    && path[8 * |prefix|] == 1
    && (forall i :: 8 * |prefix| < i < |path| ==> path[i] == 0)
  }

  lemma PathSpellsPrefix(prefix: Bytes, depth: nat)
    requires 8 * |prefix| < depth
    ensures SpellsPrefix(PathTo(prefix, depth), prefix)
  {
    var path := PathTo(prefix, depth);
    forall k | 0 <= k < |prefix| ensures Weighs(path[8 * k..8 * k + 8], prefix[k]) {
      OneByteOfPath(prefix, k, path);
    }
  }

  lemma OneByteOfPath(prefix: Bytes, k: nat, path: seq<bit>)
    requires k < |prefix| && path == PathTo(prefix, |path|) && 8 * k + 8 <= |path|
    ensures Weighs(path[8 * k..8 * k + 8], prefix[k])
  {
    hide BitOf;
    BitsSpellByte(prefix[k]);
    var digits := path[8 * k..8 * k + 8];
    forall j: nat | j < 8 ensures digits[j] == BitOf(prefix[k], j) {
      assert (8 * k + j) / 8 == k && (8 * k + j) % 8 == j;
      assert digits[j] == path[8 * k + j];
    }
  }

  /** Every path is the beginning of one that spells its prefix. */
  lemma PathBeginsSpelling(prefix: Bytes, depth: nat)
    ensures exists path :: SpellsPrefix(path, prefix) && PathTo(prefix, depth) <= path
  {
    var longer := Max(depth, 8 * |prefix| + 1);
    PathSpellsPrefix(prefix, longer);
    assert PathTo(prefix, depth) <= PathTo(prefix, longer);
  }

  /** There is only one way to spell a prefix. */
  lemma SpellingIsUnique(a: seq<bit>, b: seq<bit>, prefix: Bytes)
    requires SpellsPrefix(a, prefix) && SpellsPrefix(b, prefix) && |a| <= |b|
    ensures a <= b
  {
    forall i | 0 <= i < |a| ensures a[i] == b[i] {
      if i < 8 * |prefix| {
        var k := i / 8;
        SameWeightsSameBits(a[8 * k..8 * k + 8], b[8 * k..8 * k + 8], prefix[k]);
        assert a[8 * k..8 * k + 8][i - 8 * k] == b[8 * k..8 * k + 8][i - 8 * k];
      }
    }
  }

  lemma SameWeightsSameBits(a: seq<bit>, b: seq<bit>, byte: int)
    requires |a| == |b| == 8 && Weighs(a, byte) && Weighs(b, byte)
    ensures a == b
  {
    assert a[0] == b[0];
    assert a[1] == b[1];
    assert a[2] == b[2];
    assert a[3] == b[3];
    assert a[4] == b[4];
    assert a[5] == b[5];
    assert a[6] == b[6];
  }

  lemma BytesDifferInSomeBit(a: byte, b: byte) returns (i: nat)
    requires a != b
    ensures i < 8 && BitOf(a, i) != BitOf(b, i)
  {
    i := 0;
    while i < 7 && BitOf(a, i) == BitOf(b, i)
      invariant i <= 7
      invariant forall j: nat :: j < i ==> BitOf(a, j) == BitOf(b, j)
    {
      i := i + 1;
    }
    if i == 7 && BitOf(a, 7) == BitOf(b, 7) {
      SameBitsSameByte(a, b);
    }
  }

  lemma SameBitsSameByte(a: byte, b: byte)
    requires forall j: nat :: j < 8 ==> BitOf(a, j) == BitOf(b, j)
    ensures a == b
  {
    var n := 8;
    ShiftedByteIsSmall(a, 8);
    ShiftedByteIsSmall(b, 8);
    while n > 0
      invariant 0 <= n <= 8
      invariant ShiftRight(a, n) == ShiftRight(b, n)
    {
      n := n - 1;
      assert BitOf(a, 7 - n) == BitOf(b, 7 - n);
    }
  }

  lemma {:induction false} ShiftedByteIsSmall(b: byte, n: nat)
    requires n <= 8
    ensures ShiftRight(b, n) < [256, 128, 64, 32, 16, 8, 4, 2, 1][n]
  {
    if n > 0 {
      ShiftedByteIsSmall(b, n - 1);
    }
  }

  function Max(a: nat, b: nat): nat {
    if a < b then b else a
  }

  /** Terminated paths of distinct prefixes, neither assumed prefix-free, differ no later than
      the terminator of the longer one. */
  lemma DistinctPathsDiverge(a: Bytes, b: Bytes) returns (i: nat)
    requires a != b
    ensures i <= 8 * Max(|a|, |b|) && PathBitAt(a, i) != PathBitAt(b, i)
    ensures forall depth: nat :: i < depth ==> PathTo(a, depth) != PathTo(b, depth)
  {
    if |a| != |b| {
      i := 8 * Max(|a|, |b|);
    } else {
      var k :| 0 <= k < |a| && a[k] != b[k];
      var j := BytesDifferInSomeBit(a[k], b[k]);
      i := 8 * k + j;
      assert i / 8 == k && i % 8 == j;
    }
    forall depth: nat | i < depth
      ensures PathTo(a, depth) != PathTo(b, depth)
    {
      assert PathTo(a, depth)[i] != PathTo(b, depth)[i];
    }
  }

  /** How long two distinct prefixes can share a path. */
  lemma SharedPathIsShort(a: Bytes, b: Bytes, depth: nat)
    requires a != b && PathTo(a, depth) == PathTo(b, depth)
    ensures depth <= 8 * Max(|a|, |b|)
  {
    var i := DistinctPathsDiverge(a, b);
  }
}
