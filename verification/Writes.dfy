/** Sequences of writes: a tree depends only on the last value written to each key. */
module Writes {
  import opened Basics
  import opened StemTree
  import opened History

  datatype Write = Write(key: Bytes, value: Word)

  predicate KeysOk(ws: seq<Write>) {
    forall i :: 0 <= i < |ws| ==> |ws[i].key| >= 2
  }

  function PutAll(m: StemMap, ws: seq<Write>): StemMap
    requires KeysOk(ws)
  {
    if ws == [] then m
    else
      var last := ws[|ws| - 1];
      StemPut(PutAll(m, ws[..|ws| - 1]), Prefix(last.key), Subindex(last.key), last.value)
  }

  /** The tree after the writes. */
  function InsertAll(t: Tree, ws: seq<Write>): (r: Tree)
    requires Canonical(t, []) && KeysOk(ws)
    ensures Canonical(r, []) && Stems(r) == PutAll(Stems(t), ws)
  {
    if ws == [] then t
    else
      var last := ws[|ws| - 1];
      var before := InsertAll(t, ws[..|ws| - 1]);
      assert PathTo(Prefix(last.key), 0) == [];
      InsertRefinesPut(before, Prefix(last.key), Subindex(last.key), last.value, 0);
      Insert(before, Prefix(last.key), Subindex(last.key), last.value, 0)
  }

  function LastWrite(ws: seq<Write>, key: Bytes): Option<Word> {
    if ws == [] then None
    else if ws[|ws| - 1].key == key then Some(ws[|ws| - 1].value)
    else LastWrite(ws[..|ws| - 1], key)
  }

  ghost predicate Touches(ws: seq<Write>, prefix: Bytes) {
    exists i :: 0 <= i < |ws| && |ws[i].key| >= 2 && Prefix(ws[i].key) == prefix
  }

  lemma {:induction false} LastWriteIsSome(ws: seq<Write>, key: Bytes)
    ensures LastWrite(ws, key).Some? <==> exists i :: 0 <= i < |ws| && ws[i].key == key
  {
    if ws != [] {
      var before := ws[..|ws| - 1];
      LastWriteIsSome(before, key);
      assert forall i :: 0 <= i < |before| ==> before[i] == ws[i];
    }
  }

  /** What a sequence of writes leaves behind, leaf by leaf and stem by stem. */
  lemma {:induction false} PutAllReads(m: StemMap, ws: seq<Write>, key: Bytes)
    requires KeysOk(ws) && |key| >= 2
    ensures ReadMap(PutAll(m, ws), key)
         == match LastWrite(ws, key)
            case Some(v) => v
            case None => ReadMap(m, key)
    ensures Prefix(key) in PutAll(m, ws) <==> Prefix(key) in m || Touches(ws, Prefix(key))
  {
    if ws != [] {
      var before, last := ws[..|ws| - 1], ws[|ws| - 1];
      PutAllReads(m, before, key);
      KeyParts(key, last.key);
      PutAndDeleteRead(PutAll(m, before), Prefix(last.key), Subindex(last.key), last.value, Prefix(key), Subindex(key));
      assert forall i :: 0 <= i < |before| ==> before[i] == ws[i];
      assert Touches(ws, Prefix(key)) <==> Touches(before, Prefix(key)) || Prefix(last.key) == Prefix(key);
    }
  }

  ghost predicate SameLastWrites(ws: seq<Write>, vs: seq<Write>) {
    forall key: Bytes :: LastWrite(ws, key) == LastWrite(vs, key)
  }

  lemma TouchesSame(ws: seq<Write>, vs: seq<Write>, prefix: Bytes)
    requires SameLastWrites(ws, vs) && Touches(ws, prefix)
    ensures Touches(vs, prefix)
  {
    var i :| 0 <= i < |ws| && |ws[i].key| >= 2 && Prefix(ws[i].key) == prefix;
    var key := ws[i].key;
    LastWriteIsSome(ws, key);
    LastWriteIsSome(vs, key);
    assert LastWrite(vs, key).Some?;
  }

  /** Writes that agree on every last value have the same effect, all-empty stems included. */
  lemma SameWritesSameMap(m: StemMap, ws: seq<Write>, vs: seq<Write>)
    requires KeysOk(ws) && KeysOk(vs) && SameLastWrites(ws, vs)
    ensures PutAll(m, ws) == PutAll(m, vs)
  {
    var a, b := PutAll(m, ws), PutAll(m, vs);
    forall p: Bytes
      ensures p in a <==> p in b
      ensures p in a && p in b ==> a[p] == b[p]
    {
      forall s: byte
        ensures p in a <==> p in b
        ensures ValuesAt(a, p)[s] == ValuesAt(b, p)[s]
      {
        SameAtLeaf(m, ws, vs, p, s);
      }
      SameWords(ValuesAt(a, p), ValuesAt(b, p));
      var zero: byte := 0;
      SameAtLeaf(m, ws, vs, p, zero);
    }
  }

  lemma SameAtLeaf(m: StemMap, ws: seq<Write>, vs: seq<Write>, p: Bytes, s: byte)
    requires KeysOk(ws) && KeysOk(vs) && SameLastWrites(ws, vs)
    ensures p in PutAll(m, ws) <==> p in PutAll(m, vs)
    ensures ValuesAt(PutAll(m, ws), p)[s] == ValuesAt(PutAll(m, vs), p)[s]
  {
    if p == [] {
      EmptyPrefixUntouched(m, ws);
      EmptyPrefixUntouched(m, vs);
    } else {
      var key := p + [s];
      assert Prefix(key) == p && Subindex(key) == s;
      PutAllReads(m, ws, key);
      PutAllReads(m, vs, key);
      if Touches(ws, p) {
        TouchesSame(ws, vs, p);
      }
      if Touches(vs, p) {
        TouchesSame(vs, ws, p);
      }
    }
  }

  lemma {:induction false} EmptyPrefixUntouched(m: StemMap, ws: seq<Write>)
    requires KeysOk(ws)
    ensures [] in PutAll(m, ws) <==> [] in m
    ensures ValuesAt(PutAll(m, ws), []) == ValuesAt(m, [])
  {
    if ws != [] {
      EmptyPrefixUntouched(m, ws[..|ws| - 1]);
    }
  }

  lemma SameWritesSameTree(t: Tree, ws: seq<Write>, vs: seq<Write>)
    requires Canonical(t, []) && KeysOk(ws) && KeysOk(vs) && SameLastWrites(ws, vs)
    ensures InsertAll(t, ws) == InsertAll(t, vs)
  {
    SameWritesSameMap(Stems(t), ws, vs);
    CanonicalIsUnique(InsertAll(t, ws), InsertAll(t, vs), []);
  }

  lemma {:induction false} LastWriteAppend(ws: seq<Write>, vs: seq<Write>, key: Bytes)
    ensures LastWrite(ws + vs, key) == if LastWrite(vs, key).Some? then LastWrite(vs, key) else LastWrite(ws, key)
  {
    if vs == [] {
      assert ws + vs == ws;
    } else {
      LastWriteAppend(ws, vs[..|vs| - 1], key);
      assert (ws + vs)[..|ws + vs| - 1] == ws + vs[..|vs| - 1];
    }
  }

  lemma {:induction false} InsertAllAppend(t: Tree, ws: seq<Write>, vs: seq<Write>)
    requires Canonical(t, []) && KeysOk(ws) && KeysOk(vs)
    ensures KeysOk(ws + vs)
    ensures InsertAll(t, ws + vs) == InsertAll(InsertAll(t, ws), vs)
  {
    if vs == [] {
      assert ws + vs == ws;
    } else {
      InsertAllAppend(t, ws, vs[..|vs| - 1]);
      assert (ws + vs)[..|ws + vs| - 1] == ws + vs[..|vs| - 1];
    }
  }
}
