/** `flatten_dict` of the driver script: a nested result dictionary becomes
    one flat dictionary whose keys join the keys along the path to each
    leaf with `sep`. */
module Flatten {
  import opened Basics
  import opened Dicts
  import opened Records

  /** The default separator of `flatten_dict`. */
  const Sep := "_"

  /** `f"{parent_key}{sep}{k}" if parent_key else k`. */
  function JoinKey(parent: string, sep: string, k: string): (key: string)
    ensures parent == [] ==> key == k
    ensures parent != [] ==> key == parent + sep + k
  {
    if parent != [] then parent + sep + k else k
  }

  /** Within one dictionary, distinct child keys join to distinct keys, so
      two siblings never land on the same flat key. */
  lemma JoinKeySiblings(parent: string, sep: string, a: string, b: string)
    requires JoinKey(parent, sep, a) == JoinKey(parent, sep, b)
    ensures a == b
  {
    if parent != [] {
      var key := JoinKey(parent, sep, a);
      assert a == key[|parent + sep|..];
      assert b == key[|parent + sep|..];
    }
  }

  /** `items` after the first `n` rounds of the loop of
      `flatten_dict(v, parent, sep)` over the nested dictionary `v`. */
  function Flattened(v: Value, parent: string, sep: string, n: nat): (r: Fields)
    requires v.Record? && n <= |v.items|
    ensures Valid(r)
    decreases v, n
  {
    if n == 0 then Empty()
    else
      var before := Flattened(v, parent, sep, n - 1);
      var w := v.items[n - 1].1;
      var key := JoinKey(parent, sep, v.items[n - 1].0);
      if w.Record? then Update(before, Flattened(w, key, sep, |w.items|))
      else Set(before, key, w)
  }

  /** `flatten_dict(v, parent, sep)`: the loop assigns a leaf under its
      joined key and merges the flattening of a nested dictionary with
      `update`. */
  method FlattenRecord(v: Value, parent: string, sep: string) returns (items: Fields)
    requires v.Record?
    ensures items == Flattened(v, parent, sep, |v.items|)
    decreases v
  {
    items := Empty();
    for n := 0 to |v.items|
      invariant items == Flattened(v, parent, sep, n)
    {
      var (k, w) := v.items[n];
      var newKey := if parent != [] then parent + sep + k else k;
      if w.Record? {
        var nested := FlattenRecord(w, newKey, sep);
        items := Update(items, nested);
      } else {
        items := Set(items, newKey, w);
      }
    }
  }

  /** `flatten_dict(d)`, as the driver calls it. */
  method FlattenDict(d: Fields) returns (items: Fields)
    requires Valid(d)
    ensures items == Flattened(Nest(d), [], Sep, |d.order|)
  {
    items := FlattenRecord(Nest(d), [], Sep);
  }

  // ---------------------------------------------------------------------
  // The leaves of a nested dictionary

  /** Every leaf of the first `n` items of `v`, depth first in insertion
      order, with its joined key. */
  function Leaves(v: Value, parent: string, sep: string, n: nat): (ps: seq<(string, Value)>)
    requires v.Record? && n <= |v.items|
    decreases v, n + 1
  {
    if n == 0 then [] else Leaves(v, parent, sep, n - 1) + ItemLeaves(v, parent, sep, n - 1)
  }

  /** Replaying assignments one list after another is replaying their
      concatenation. */
  lemma {:induction false} PairsMapAppend<K, V>(a: seq<(K, V)>, b: seq<(K, V)>)
    ensures PairsMap(a + b) == PairsMap(a) + PairsMap(b)
  {
    if b != [] {
      var init := b[..|b| - 1];
      assert (a + b)[..|a + b| - 1] == a + init;
      PairsMapAppend(a, init);
      MapUnionUpdate(PairsMap(a), PairsMap(init), b[|b| - 1].0, b[|b| - 1].1);
    } else {
      assert a + b == a;
    }
  }

  /** The flattened dictionary holds, for every key, the leaf assigned to
      it last: the loop and its merges are the assignment of the leaves in
      order. */
  lemma {:induction false} FlattenedLeaves(v: Value, parent: string, sep: string, n: nat)
    requires v.Record? && n <= |v.items|
    ensures Flattened(v, parent, sep, n).entries == PairsMap(Leaves(v, parent, sep, n))
    decreases v, n
  {
    if n > 0 {
      var m: nat := n - 1;
      var before := Flattened(v, parent, sep, m);
      var w := v.items[m].1;
      var key := JoinKey(parent, sep, v.items[m].0);
      var earlier := Leaves(v, parent, sep, m);
      var own := ItemLeaves(v, parent, sep, m);
      assert Leaves(v, parent, sep, n) == earlier + own;
      FlattenedLeaves(v, parent, sep, m);
      PairsMapAppend(earlier, own);
      if w.Record? {
        var nested := Flattened(w, key, sep, |w.items|);
        assert Flattened(v, parent, sep, n) == Update(before, nested);
        assert own == Leaves(w, key, sep, |w.items|);
        FlattenedLeaves(w, key, sep, |w.items|);
        UpdateEntries(before, nested);
      } else {
        assert Flattened(v, parent, sep, n) == Set(before, key, w);
        assert own == [(key, w)];
        assert PairsMap(own) == map[key := w];
      }
    } else {
      assert Leaves(v, parent, sep, n) == [];
    }
  }

  /** Later leaves overwrite earlier ones under the same key. */
  lemma LastLeafWins(v: Value, parent: string, sep: string, k: string)
    requires v.Record?
    ensures Get(Flattened(v, parent, sep, |v.items|), k) == LastValue(Leaves(v, parent, sep, |v.items|), k)
  {
    var ps := Leaves(v, parent, sep, |v.items|);
    FlattenedLeaves(v, parent, sep, |v.items|);
    PairsMapLast(ps, k);
  }

  /** The map that assigning `ps` builds holds each key's last value. */
  lemma {:induction false} PairsMapLast<K, V>(ps: seq<(K, V)>, k: K)
    ensures k in PairsMap(ps) <==> LastValue(ps, k).Some?
    ensures k in PairsMap(ps) ==> PairsMap(ps)[k] == LastValue(ps, k).value
  {
    if ps != [] {
      PairsMapLast(ps[..|ps| - 1], k);
    }
  }

  /** No leaf is a dictionary. */
  lemma {:induction false} LeavesAreLeaves(v: Value, parent: string, sep: string, n: nat)
    requires v.Record? && n <= |v.items|
    ensures forall i :: 0 <= i < |Leaves(v, parent, sep, n)| ==> !Leaves(v, parent, sep, n)[i].1.Record?
    decreases v, n
  {
    if n > 0 {
      var m: nat := n - 1;
      var w := v.items[m].1;
      var own := ItemLeaves(v, parent, sep, m);
      assert Leaves(v, parent, sep, n) == Leaves(v, parent, sep, m) + own;
      LeavesAreLeaves(v, parent, sep, m);
      if w.Record? {
        var key := JoinKey(parent, sep, v.items[m].0);
        assert own == Leaves(w, key, sep, |w.items|);
        LeavesAreLeaves(w, key, sep, |w.items|);
      }
    }
  }

  /** The result of `flatten_dict` holds no dictionary. */
  lemma FlattenedHasNoRecords(v: Value, parent: string, sep: string)
    requires v.Record?
    ensures forall k :: k in Flattened(v, parent, sep, |v.items|).entries ==>
      !Flattened(v, parent, sep, |v.items|).entries[k].Record?
  {
    var ps := Leaves(v, parent, sep, |v.items|);
    FlattenedLeaves(v, parent, sep, |v.items|);
    LeavesAreLeaves(v, parent, sep, |v.items|);
    forall k | k in PairsMap(ps)
      ensures !PairsMap(ps)[k].Record?
    {
      PairsMapLast(ps, k);
      LastValueIsOne(ps, k);
    }
  }

  /** The last assignment to a key is one of the assignments. */
  lemma {:induction false} LastValueIsOne<K, V>(ps: seq<(K, V)>, k: K)
    requires LastValue(ps, k).Some?
    ensures exists i :: 0 <= i < |ps| && ps[i] == (k, LastValue(ps, k).value)
  {
    if ps[|ps| - 1].0 != k {
      LastValueIsOne(ps[..|ps| - 1], k);
      var i :| 0 <= i < |ps| - 1 && ps[..|ps| - 1][i] == (k, LastValue(ps, k).value);
      assert ps[i] == ps[..|ps| - 1][i];
    } else {
      assert ps[|ps| - 1] == (k, LastValue(ps, k).value);
    }
  }

  /** The leaves an item of `v` contributes by itself: the item when it is
      not a dictionary, the leaves of the nested dictionary when it is. */
  function ItemLeaves(v: Value, parent: string, sep: string, i: nat): seq<(string, Value)>
    requires v.Record? && i < |v.items|
    decreases v, 0
  {
    var w := v.items[i].1;
    var key := JoinKey(parent, sep, v.items[i].0);
    if w.Record? then Leaves(w, key, sep, |w.items|) else [(key, w)]
  }

  /** Every item among the first `n` keeps its own leaves. */
  lemma {:induction false} ItemLeavesKept(v: Value, parent: string, sep: string, n: nat, i: nat)
    requires v.Record? && i < n <= |v.items|
    ensures forall x :: x in ItemLeaves(v, parent, sep, i) ==> x in Leaves(v, parent, sep, n)
  {
    var m: nat := n - 1;
    assert Leaves(v, parent, sep, n) == Leaves(v, parent, sep, m) + ItemLeaves(v, parent, sep, m);
    if i < m {
      ItemLeavesKept(v, parent, sep, m, i);
    }
  }

  /** A top-level entry that is not a dictionary is a leaf under its own
      key. */
  lemma TopLevelLeaf(d: Fields, i: nat)
    requires Valid(d) && i < |d.order| && !d.entries[d.order[i]].Record?
    ensures (d.order[i], d.entries[d.order[i]]) in Leaves(Nest(d), [], Sep, |d.order|)
  {
    var v := Nest(d);
    ItemLeavesKept(v, [], Sep, |d.order|, i);
    assert ItemLeaves(v, [], Sep, i) == [(d.order[i], d.entries[d.order[i]])];
  }

  /** A leaf `w` under key `b` of a nested dictionary under key `a` is a
      leaf under `a + sep + b`. */
  lemma NestedLeaf(v: Value, sep: string, i: nat, m: nat)
    requires v.Record? && i < |v.items| && v.items[i].0 != []
    requires v.items[i].1.Record? && m < |v.items[i].1.items|
    requires !v.items[i].1.items[m].1.Record?
    ensures (v.items[i].0 + sep + v.items[i].1.items[m].0, v.items[i].1.items[m].1) in Leaves(v, [], sep, |v.items|)
  {
    var a, w := v.items[i].0, v.items[i].1;
    ItemLeavesKept(v, [], sep, |v.items|, i);
    assert ItemLeaves(v, [], sep, i) == Leaves(w, a, sep, |w.items|);
    ItemLeavesKept(w, a, sep, |w.items|, m);
    assert ItemLeaves(w, a, sep, m) == [(a + sep + w.items[m].0, w.items[m].1)];
  }

  /** A nested dictionary without items contributes no leaf: the loop
      round that meets it changes nothing. */
  lemma EmptyNestedAddsNothing(v: Value, parent: string, sep: string, n: nat)
    requires v.Record? && n < |v.items| && v.items[n].1 == Record([])
    ensures Leaves(v, parent, sep, n + 1) == Leaves(v, parent, sep, n)
    ensures Flattened(v, parent, sep, n + 1).entries == Flattened(v, parent, sep, n).entries
  {
    var next: nat := n + 1;
    FlattenedLeaves(v, parent, sep, next);
    FlattenedLeaves(v, parent, sep, n);
    assert ItemLeaves(v, parent, sep, n) == [];
    assert Leaves(v, parent, sep, next) == Leaves(v, parent, sep, n) + [];
  }

  /** Flattening forgets where the separators were: a key that contains
      the separator and a nested dictionary give the same flat result. */
  lemma FlatteningLosesNesting()
    ensures var flat := Record([("a_b", Num(1.0))]);
            var nested := Record([("a", Record([("b", Num(1.0))]))]);
            flat != nested && Flattened(flat, [], Sep, 1) == Flattened(nested, [], Sep, 1)
  {
    var flat := Record([("a_b", Num(1.0))]);
    var inner := Record([("b", Num(1.0))]);
    var nested := Record([("a", inner)]);
    var one := Set(Empty(), "a_b", Num(1.0));
    assert JoinKey("a", Sep, "b") == "a_b";
    assert Flattened(inner, "a", Sep, 1) == one;
    assert Flattened(flat, [], Sep, 1) == one;
    assert Items(one) == [("a_b", Num(1.0))];
    assert Update(Empty(), one) == Set(SetAll(Empty(), []), "a_b", Num(1.0));
  }
}
