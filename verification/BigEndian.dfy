/** `int.to_bytes(width, "big")` and `int.from_bytes(raw, "big")`. */
module BigEndian {
  import opened Basics

  function Pow256(width: nat): (p: nat)
    ensures p > 0
  {
    if width == 0 then 1 else 256 * Pow256(width - 1)
  }

  lemma Pow256Values()
    ensures Pow256(1) == 0x100 && Pow256(2) == 0x1_0000 && Pow256(4) == 0x1_0000_0000
    ensures Pow256(8) == 0x1_0000_0000_0000_0000
  {
  }

  function ToBytes(n: nat, width: nat): (raw: Bytes)
    requires n < Pow256(width)
    ensures |raw| == width
  {
    if width == 0 then [] else ToBytes(n / 256, width - 1) + [n % 256]
  }

  function FromBytes(raw: Bytes): nat {
    if raw == [] then 0 else 256 * FromBytes(raw[..|raw| - 1]) + raw[|raw| - 1]
  }

  lemma {:induction false} FromBytesBound(raw: Bytes)
    ensures FromBytes(raw) < Pow256(|raw|)
  {
    if raw != [] {
      FromBytesBound(raw[..|raw| - 1]);
    }
  }

  /** Writing and reading back. */
  lemma {:induction false} FromToBytes(n: nat, width: nat)
    requires n < Pow256(width)
    ensures FromBytes(ToBytes(n, width)) == n
  {
    if width > 0 {
      FromToBytes(n / 256, width - 1);
      assert ToBytes(n, width)[..width - 1] == ToBytes(n / 256, width - 1);
    }
  }

  /** Reading and writing back. */
  lemma {:induction false} ToFromBytes(raw: Bytes)
    ensures FromBytes(raw) < Pow256(|raw|)
    ensures ToBytes(FromBytes(raw), |raw|) == raw
  {
    FromBytesBound(raw);
    if raw != [] {
      ToFromBytes(raw[..|raw| - 1]);
      assert FromBytes(raw) / 256 == FromBytes(raw[..|raw| - 1]);
      assert FromBytes(raw) % 256 == raw[|raw| - 1];
      assert raw == raw[..|raw| - 1] + [raw[|raw| - 1]];
    }
  }

  lemma ToBytesInjective(m: nat, n: nat, width: nat)
    requires m < Pow256(width) && n < Pow256(width)
    requires ToBytes(m, width) == ToBytes(n, width)
    ensures m == n
  {
    FromToBytes(m, width);
    FromToBytes(n, width);
  }

  // ---------- most significant byte first ----------

  lemma {:induction false} FromBytesAppend(a: Bytes, b: Bytes)
    ensures FromBytes(a + b) == FromBytes(a) * Pow256(|b|) + FromBytes(b)
  {
    if b == [] {
      assert a + b == a;
    } else {
      var before, last := b[..|b| - 1], b[|b| - 1];
      FromBytesAppend(a, before);
      assert (a + b)[..|a + b| - 1] == a + before && (a + b)[|a + b| - 1] == last;
      LastDigit(FromBytes(a), Pow256(|before|), FromBytes(before), last);
    }
  }

  lemma LastDigit(n: nat, w: nat, m: nat, d: nat)
    ensures 256 * (n * w + m) + d == n * (256 * w) + (256 * m + d)
  {
  }

  /** The first byte has the greatest weight. */
  lemma FirstByteWeighsMost(raw: Bytes)
    requires raw != []
    ensures FromBytes(raw) == raw[0] as int * Pow256(|raw| - 1) + FromBytes(raw[1..])
  {
    var first := raw[..1];
    OneByte(first);
    hide FromBytes, Pow256;
    FromBytesAppend(first, raw[1..]);
    assert raw == first + raw[1..];
  }

  lemma OneByte(raw: Bytes)
    requires |raw| == 1
    ensures FromBytes(raw) == raw[0]
  {
    assert raw[..0] == [];
  }

  /** Four bytes read as a number, the weights written out. */
  function Four(raw: seq<int>): int
    requires |raw| == 4
  {
    raw[0] * 0x100_0000 + raw[1] * 0x1_0000 + raw[2] * 0x100 + raw[3]
  }

  /** Eight bytes read as a number. */
  function Eight(raw: seq<int>): int
    requires |raw| == 8
  {
    Four(raw[..4]) * 0x1_0000_0000 + Four(raw[4..])
  }

  lemma FourMeans(raw: Bytes)
    requires |raw| == 4
    ensures FromBytes(raw) == Four(raw)
  {
    var first, second: int := raw[0], raw[1];
    assert raw[..3][..2] == raw[..2] && raw[..2][..1] == raw[..1] && raw[..1][..0] == [];
    assert FromBytes(raw[..1]) == first;
    assert FromBytes(raw[..2]) == 256 * first + second;
    assert FromBytes(raw[..3]) == 256 * FromBytes(raw[..2]) + raw[2];
  }

  lemma EightMeans(raw: Bytes)
    requires |raw| == 8
    ensures FromBytes(raw) == Eight(raw)
  {
    Pow256Values();
    FromBytesAppend(raw[..4], raw[4..]);
    assert raw == raw[..4] + raw[4..];
    FourMeans(raw[..4]);
    FourMeans(raw[4..]);
  }

  /** What is written in eight bytes reads, with these weights, as the number. */
  lemma EightBytes(n: nat)
    requires n < Pow256(8)
    ensures |ToBytes(n, 8)| == 8 && Eight(ToBytes(n, 8)) == n
  {
    FromToBytes(n, 8);
    EightMeans(ToBytes(n, 8));
  }

  lemma FourBytes(n: nat)
    requires n < Pow256(4)
    ensures |ToBytes(n, 4)| == 4 && Four(ToBytes(n, 4)) == n
  {
    FromToBytes(n, 4);
    FourMeans(ToBytes(n, 4));
  }

  lemma TwoBytes(n: nat)
    requires n < Pow256(2)
    ensures ToBytes(n, 2) == [n / 256, n % 256]
  {
    Pow256Values();
    assert ToBytes(n / 256, 1) == ToBytes(n / 256 / 256, 0) + [n / 256 % 256];
  }

  /** Numbers of one value have one spelling. */
  lemma EightIsInjective(a: Bytes, b: Bytes)
    requires |a| == |b| == 8 && Eight(a) == Eight(b)
    ensures a == b
  {
    EightMeans(a);
    EightMeans(b);
    ToFromBytes(a);
    ToFromBytes(b);
  }
}
