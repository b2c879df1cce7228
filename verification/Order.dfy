/** The order of byte strings, and lists sorted by it. */
module Order {
  import opened Basics

  predicate LexLeq(a: Bytes, b: Bytes) {
    a == [] || (b != [] && (a[0] < b[0] || (a[0] == b[0] && LexLeq(a[1..], b[1..]))))
  }

  /** What the order is: the shorter of two strings one of which begins the other, else the one with the
      smaller byte where they first differ. */
  ghost predicate ByteOrder(a: Bytes, b: Bytes) {
    a <= b || exists i :: 0 <= i < |a| && i < |b| && a[..i] == b[..i] && a[i] < b[i]
  }

  ghost predicate DiffersUpward(a: Bytes, b: Bytes, i: int) {
    0 <= i < |a| && i < |b| && a[..i] == b[..i] && a[i] < b[i]
  }

  /** Strings with the same first byte differ where the rest does. */
  lemma DiffersLater(a: Bytes, b: Bytes, i: int)
    requires a != [] && b != [] && a[0] == b[0]
    ensures DiffersUpward(a, b, i + 1) <==> DiffersUpward(a[1..], b[1..], i)
    ensures !DiffersUpward(a, b, 0)
  {
    var x, y := a[1..], b[1..];
    if 0 <= i < |x| && i < |y| {
      assert a[..i + 1] == [a[0]] + x[..i] && b[..i + 1] == [b[0]] + y[..i];
      assert a[..i + 1][1..] == x[..i] && b[..i + 1][1..] == y[..i];
    }
  }

  lemma {:induction false} LexIsByteOrder(a: Bytes, b: Bytes)
    ensures LexLeq(a, b) <==> ByteOrder(a, b)
  {
    ByteOrderMeans(a, b);
    if a != [] && b != [] {
      hide ByteOrder, DiffersUpward;
      ByteOrderMeans(a[1..], b[1..]);
      if a[0] == b[0] {
        LexIsByteOrder(a[1..], b[1..]);
        BeginsLater(a, b);
        forall i ensures DiffersUpward(a, b, i + 1) <==> DiffersUpward(a[1..], b[1..], i) {
          DiffersLater(a, b, i);
        }
        if i :| DiffersUpward(a, b, i) {
          DiffersLater(a, b, i - 1);
        }
      } else {
        FirstDecides(a, b);
      }
    }
  }

  lemma ByteOrderMeans(a: Bytes, b: Bytes)
    ensures ByteOrder(a, b) <==> a <= b || exists i :: DiffersUpward(a, b, i)
  {
    if i :| DiffersUpward(a, b, i) {
      assert a[..i] == b[..i] && a[i] < b[i];
    }
    if ByteOrder(a, b) && !(a <= b) {
      var i :| 0 <= i < |a| && i < |b| && a[..i] == b[..i] && a[i] < b[i];
      assert DiffersUpward(a, b, i);
    }
  }

  lemma BeginsLater(a: Bytes, b: Bytes)
    requires a != [] && b != [] && a[0] == b[0]
    ensures a <= b <==> a[1..] <= b[1..]
  {
    assert a == [a[0]] + a[1..] && b == [b[0]] + b[1..];
  }

  lemma FirstDecides(a: Bytes, b: Bytes)
    requires a != [] && b != [] && a[0] != b[0]
    ensures !(a <= b)
    ensures (exists i :: DiffersUpward(a, b, i)) <==> a[0] < b[0]
  {
    if a[0] < b[0] {
      assert DiffersUpward(a, b, 0);
    }
    if i :| DiffersUpward(a, b, i) {
      assert i > 0 ==> a[..i][0] == b[..i][0];
    }
  }

  lemma {:induction false} LexTotal(a: Bytes, b: Bytes)
    ensures LexLeq(a, b) || LexLeq(b, a)
    ensures LexLeq(a, b) && LexLeq(b, a) ==> a == b
  {
    if a != [] && b != [] {
      LexTotal(a[1..], b[1..]);
      assert a == [a[0]] + a[1..] && b == [b[0]] + b[1..];
    }
  }

  lemma {:induction false} LexTransitive(a: Bytes, b: Bytes, c: Bytes)
    requires LexLeq(a, b) && LexLeq(b, c)
    ensures LexLeq(a, c)
  {
    if a != [] && a[0] == c[0] {
      LexTransitive(a[1..], b[1..], c[1..]);
    }
  }

  ghost predicate Ascending(s: seq<Bytes>) {
    forall i, j :: 0 <= i < j < |s| ==> LexLeq(s[i], s[j])
  }

  ghost predicate StrictlyAscending(s: seq<Bytes>) {
    forall i, j :: 0 <= i < j < |s| ==> LexLeq(s[i], s[j]) && s[i] != s[j]
  }

  /** `sorted(set(xs))` */
  function SortedSet(xs: seq<Bytes>): seq<Bytes> {
    if xs == [] then [] else Place(SortedSet(xs[1..]), xs[0])
  }

  function Place(s: seq<Bytes>, x: Bytes): seq<Bytes> {
    if s == [] then [x]
    else if s[0] == x then s
    else if LexLeq(x, s[0]) then [x] + s
    else [s[0]] + Place(s[1..], x)
  }

  lemma {:induction false} PlaceAdds(s: seq<Bytes>, x: Bytes)
    ensures forall y :: y in Place(s, x) <==> y == x || y in s
  {
    hide LexLeq;
    if s != [] {
      PlaceAdds(s[1..], x);
      assert s == [s[0]] + s[1..];
    }
  }

  lemma {:induction false} PlaceKeepsOrder(s: seq<Bytes>, x: Bytes)
    requires StrictlyAscending(s)
    ensures StrictlyAscending(Place(s, x))
  {
    hide LexLeq;
    if s != [] && s[0] != x {
      LexTotal(x, s[0]);
      if LexLeq(x, s[0]) {
        forall j | 0 <= j < |s| ensures LexLeq(x, s[j]) && x != s[j] {
          if j > 0 {
            LexTransitive(x, s[0], s[j]);
            LexTotal(s[0], s[j]);
          }
        }
      } else {
        PlaceKeepsOrder(s[1..], x);
        PlaceAdds(s[1..], x);
        var placed := Place(s[1..], x);
        forall j | 0 <= j < |placed| ensures LexLeq(s[0], placed[j]) && placed[j] != s[0] {
          assert placed[j] in placed;
          if placed[j] != x {
            var k :| 0 <= k < |s| - 1 && s[1..][k] == placed[j];
            assert s[k + 1] == placed[j];
          }
        }
      }
    }
  }

  lemma {:induction false} SortedSetSorts(xs: seq<Bytes>)
    ensures StrictlyAscending(SortedSet(xs))
    ensures forall x :: x in SortedSet(xs) <==> x in xs
  {
    if xs != [] {
      SortedSetSorts(xs[1..]);
      PlaceKeepsOrder(SortedSet(xs[1..]), xs[0]);
      PlaceAdds(SortedSet(xs[1..]), xs[0]);
      assert xs == [xs[0]] + xs[1..];
    }
  }

  lemma TailElements(s: seq<Bytes>)
    requires StrictlyAscending(s) && s != []
    ensures forall x :: x in s[1..] <==> x in s && x != s[0]
  {
  }

  /** Strictly ascending lists with the same elements are equal. */
  lemma {:induction false} AscendingIsUnique(a: seq<Bytes>, b: seq<Bytes>)
    requires StrictlyAscending(a) && StrictlyAscending(b)
    requires forall x :: x in a <==> x in b
    ensures a == b
  {
    assert a != [] ==> a[0] in a;
    assert b != [] ==> b[0] in b;
    if a != [] {
      LexTotal(a[0], b[0]);
      TailElements(a);
      TailElements(b);
      AscendingIsUnique(a[1..], b[1..]);
      assert a == [a[0]] + a[1..] && b == [b[0]] + b[1..];
    }
  }

  /** `xs == sorted(set(xs))` holds of the strictly ascending lists and no others. */
  lemma SortedSetFixpoint(xs: seq<Bytes>)
    ensures xs == SortedSet(xs) <==> StrictlyAscending(xs)
  {
    SortedSetSorts(xs);
    if StrictlyAscending(xs) {
      AscendingIsUnique(xs, SortedSet(xs));
    }
  }

  /** `xs == sorted(xs)` */
  predicate IsAscending(xs: seq<Bytes>) {
    |xs| < 2 || (LexLeq(xs[0], xs[1]) && IsAscending(xs[1..]))
  }

  lemma {:induction false} StrictlyAscendingIsAscending(xs: seq<Bytes>)
    requires StrictlyAscending(xs)
    ensures IsAscending(xs)
  {
    if |xs| >= 2 {
      StrictlyAscendingIsAscending(xs[1..]);
    }
  }

  // ---------- the same in terms of the bytes ----------

  ghost predicate InByteOrder(s: seq<Bytes>) {
    forall i, j :: 0 <= i < j < |s| ==> ByteOrder(s[i], s[j])
  }

  ghost predicate StrictlyInByteOrder(s: seq<Bytes>) {
    forall i, j :: 0 <= i < j < |s| ==> ByteOrder(s[i], s[j]) && s[i] != s[j]
  }

  lemma AscendingMeans(s: seq<Bytes>)
    ensures Ascending(s) <==> InByteOrder(s)
    ensures StrictlyAscending(s) <==> StrictlyInByteOrder(s)
  {
    hide LexLeq, ByteOrder;
    forall i, j | 0 <= i < j < |s| ensures LexLeq(s[i], s[j]) <==> ByteOrder(s[i], s[j]) {
      LexIsByteOrder(s[i], s[j]);
    }
  }

  /** Comparing neighbours, as `IsAscending` does, decides the order of all pairs. */
  lemma {:induction false} IsAscendingMeans(xs: seq<Bytes>)
    ensures IsAscending(xs) <==> forall i :: 0 <= i < |xs| - 1 ==> ByteOrder(xs[i], xs[i + 1])
    ensures IsAscending(xs) <==> InByteOrder(xs)
  {
    hide LexLeq, ByteOrder;
    NeighboursDecide(xs);
    AscendingMeans(xs);
    forall i | 0 <= i < |xs| - 1 ensures LexLeq(xs[i], xs[i + 1]) <==> ByteOrder(xs[i], xs[i + 1]) {
      LexIsByteOrder(xs[i], xs[i + 1]);
    }
  }

  lemma {:induction false} NeighboursDecide(xs: seq<Bytes>)
    ensures IsAscending(xs) <==> forall i :: 0 <= i < |xs| - 1 ==> LexLeq(xs[i], xs[i + 1])
    ensures IsAscending(xs) <==> Ascending(xs)
  {
    hide LexLeq;
    if |xs| >= 2 {
      var rest := xs[1..];
      NeighboursDecide(rest);
      assert forall i :: 0 <= i < |rest| ==> rest[i] == xs[i + 1];
      if IsAscending(xs) {
        forall j | 0 < j < |xs| ensures LexLeq(xs[0], xs[j]) {
          if j > 1 {
            assert LexLeq(rest[0], rest[j - 1]);
            LexTransitive(xs[0], xs[1], xs[j]);
          }
        }
      }
    }
  }
}
