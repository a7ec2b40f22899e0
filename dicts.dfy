/** Python's `dict` as the parser uses it: keys remember the order in which
    they were first inserted, assigning to a present key overwrites its value
    without moving it, and `d.update(e)` assigns e's items one by one. */
module Dicts {
  import opened Basics

  datatype Dict<K(==,!new), V> = Dict(order: seq<K>, entries: map<K, V>)

  /** Every key once in `order`, and exactly the keys of `entries`. */
  ghost predicate Valid<K(!new), V>(d: Dict<K, V>)
  {
    && (forall i, j :: 0 <= i < j < |d.order| ==> d.order[i] != d.order[j])
    && (forall k :: k in d.entries <==> k in d.order)
  }

  function Empty<K(==,!new), V>(): (d: Dict<K, V>)
    ensures Valid(d) && d.order == [] && d.entries == map[]
  {
    Dict([], map[])
  }

  function Get<K(==,!new), V>(d: Dict<K, V>, k: K): Option<V>
  {
    if k in d.entries then Some(d.entries[k]) else None
  }

  /** `d[k] = v`: a new key goes last, a present key keeps its place. */
  function Set<K(==,!new), V>(d: Dict<K, V>, k: K, v: V): (r: Dict<K, V>)
    requires Valid(d)
    ensures Valid(r)
    ensures r.entries == d.entries[k := v]
    ensures r.order == if k in d.entries then d.order else d.order + [k]
  {
    Dict(if k in d.entries then d.order else d.order + [k], d.entries[k := v])
  }

  /** Assigning one key leaves every other key as it was. */
  lemma SetOther<K(!new), V>(d: Dict<K, V>, k: K, v: V, other: K)
    requires Valid(d) && k != other
    ensures Get(Set(d, k, v), other) == Get(d, other)
    ensures other in Set(d, k, v).entries <==> other in d.entries
  {
  }

  /** `d.items()`, in insertion order. */
  function Items<K(==,!new), V>(d: Dict<K, V>): (ps: seq<(K, V)>)
    requires Valid(d)
    ensures |ps| == |d.order|
    ensures forall i :: 0 <= i < |ps| ==> ps[i].0 == d.order[i] && ps[i].1 == d.entries[d.order[i]]
  {
    seq(|d.order|, i requires 0 <= i < |d.order| => (d.order[i], d.entries[d.order[i]]))
  }

  /** `d.values()`, in insertion order. */
  function Values<K(==,!new), V>(d: Dict<K, V>): (vs: seq<V>)
    requires Valid(d)
    ensures |vs| == |d.order|
    ensures forall i :: 0 <= i < |vs| ==> vs[i] == d.entries[d.order[i]]
  {
    seq(|d.order|, i requires 0 <= i < |d.order| => d.entries[d.order[i]])
  }

  /** `d[k] = v` for each `(k, v)` of `ps`, in order. */
  function SetAll<K(==,!new), V>(d: Dict<K, V>, ps: seq<(K, V)>): (r: Dict<K, V>)
    requires Valid(d)
    ensures Valid(r)
    decreases |ps|
  {
    if ps == [] then d
    else Set(SetAll(d, ps[..|ps| - 1]), ps[|ps| - 1].0, ps[|ps| - 1].1)
  }

  /** One more assignment after `ps`. */
  lemma SetAllSnoc<K(!new), V>(d: Dict<K, V>, ps: seq<(K, V)>, k: K, v: V)
    requires Valid(d)
    ensures SetAll(d, ps + [(k, v)]) == Set(SetAll(d, ps), k, v)
  {
    assert (ps + [(k, v)])[..|ps|] == ps;
  }

  /** `d.update(e)`. */
  function Update<K(==,!new), V>(d: Dict<K, V>, e: Dict<K, V>): (r: Dict<K, V>)
    requires Valid(d) && Valid(e)
    ensures Valid(r)
  {
    SetAll(d, Items(e))
  }

  /** `[k for k, _ in ps]`. */
  function KeysOf<K, V>(ps: seq<(K, V)>): (ks: seq<K>)
    ensures |ks| == |ps|
    ensures forall i :: 0 <= i < |ps| ==> ks[i] == ps[i].0
  {
    if ps == [] then [] else KeysOf(ps[..|ps| - 1]) + [ps[|ps| - 1].0]
  }

  /** The keys of `ks` that `d` does not hold yet, in the order given. */
  function NewKeys<K(==,!new), V>(d: Dict<K, V>, ks: seq<K>): (r: seq<K>)
  {
    if ks == [] then []
    else NewKeys(d, ks[..|ks| - 1]) + (if ks[|ks| - 1] in d.entries then [] else [ks[|ks| - 1]])
  }

  /** Replaying assignments whose keys are pairwise distinct appends the
      keys that were new, in the order given. */
  lemma {:induction false} SetAllDistinct<K(!new), V>(d: Dict<K, V>, ps: seq<(K, V)>)
    requires Valid(d)
    requires forall i, j :: 0 <= i < j < |ps| ==> ps[i].0 != ps[j].0
    ensures SetAll(d, ps).order == d.order + NewKeys(d, KeysOf(ps))
  {
    if ps == [] {
      assert d.order + [] == d.order;
    } else {
      var n := |ps| - 1;
      var init, k := ps[..n], ps[n].0;
      var ks := KeysOf(ps);
      SetAllDistinct(d, init);
      LastKeyNew(d, ps);
      assert ks[..n] == KeysOf(init) && ks[n] == k;
      assert SetAll(d, ps) == Set(SetAll(d, init), k, ps[n].1);
      var a := NewKeys(d, KeysOf(init));
      assert |ks| - 1 == n;
      assert NewKeys(d, ks) == NewKeys(d, ks[..n]) + (if k in d.entries then [] else [k]);
      if k in d.entries {
        assert NewKeys(d, ks) == a + [];
      } else {
        assert NewKeys(d, ks) == a + [k];
        assert (d.order + a) + [k] == d.order + (a + [k]);
      }
    }
  }

  /** With pairwise distinct keys, the last key is held after the earlier
      assignments only if it was held before them. */
  lemma LastKeyNew<K(!new), V>(d: Dict<K, V>, ps: seq<(K, V)>)
    requires Valid(d) && ps != []
    requires forall i, j :: 0 <= i < j < |ps| ==> ps[i].0 != ps[j].0
    ensures ps[|ps| - 1].0 in SetAll(d, ps[..|ps| - 1]).entries <==> ps[|ps| - 1].0 in d.entries
  {
    var n := |ps| - 1;
    var init, k := ps[..n], ps[n].0;
    SetAllEntries(d, init);
    PairsMapKeys(init);
    forall i | 0 <= i < n
      ensures KeysOf(init)[i] != k
    {
      assert init[i] == ps[i];
    }
    assert k !in KeysOf(init);
  }

  lemma {:induction false} PairsMapKeys<K, V>(ps: seq<(K, V)>)
    ensures forall k :: k in PairsMap(ps) <==> k in KeysOf(ps)
  {
    if ps != [] {
      var init := ps[..|ps| - 1];
      PairsMapKeys(init);
      assert KeysOf(ps) == KeysOf(init) + [ps[|ps| - 1].0];
    }
  }

  /** The map that assigning `ps` in order builds from nothing. */
  function PairsMap<K, V>(ps: seq<(K, V)>): map<K, V>
  {
    if ps == [] then map[] else PairsMap(ps[..|ps| - 1])[ps[|ps| - 1].0 := ps[|ps| - 1].1]
  }

  lemma MapUnionUpdate<K, V>(a: map<K, V>, b: map<K, V>, k: K, v: V)
    ensures (a + b)[k := v] == a + b[k := v]
  {
  }

  lemma {:induction false} SetAllEntries<K(!new), V>(d: Dict<K, V>, ps: seq<(K, V)>)
    requires Valid(d)
    ensures SetAll(d, ps).entries == d.entries + PairsMap(ps)
  {
    if ps != [] {
      var init, k, v := ps[..|ps| - 1], ps[|ps| - 1].0, ps[|ps| - 1].1;
      SetAllEntries(d, init);
      var a, b := d.entries, PairsMap(init);
      assert SetAll(d, ps).entries == (a + b)[k := v];
      assert PairsMap(ps) == b[k := v];
      MapUnionUpdate(a, b, k, v);
    }
  }

  /** Pairs that all agree with `m` build a sub-map of `m` over their keys. */
  lemma {:induction false} PairsMapAgrees<K, V>(ps: seq<(K, V)>, m: map<K, V>)
    requires forall i :: 0 <= i < |ps| ==> ps[i].0 in m && ps[i].1 == m[ps[i].0]
    ensures forall k :: k in PairsMap(ps) <==> k in KeysOf(ps)
    ensures forall k :: k in PairsMap(ps) ==> PairsMap(ps)[k] == m[k]
  {
    if ps != [] {
      var init := ps[..|ps| - 1];
      PairsMapAgrees(init, m);
      assert KeysOf(ps) == KeysOf(init) + [ps[|ps| - 1].0];
    }
  }

  /** A dictionary built from nothing by assignments holds exactly their
      keys. */
  lemma SetAllEmptyKeys<K(!new), V>(ps: seq<(K, V)>, k: K)
    ensures k in SetAll(Empty(), ps).entries <==> k in KeysOf(ps)
  {
    SetAllEntries(Empty(), ps);
    assert Empty<K, V>().entries + PairsMap(ps) == PairsMap(ps);
    PairsMapKeys(ps);
  }

  /** `d.update(e)` takes e's value for every key e holds and keeps d's
      value for every other key. */
  lemma UpdateEntries<K(!new), V>(d: Dict<K, V>, e: Dict<K, V>)
    requires Valid(d) && Valid(e)
    ensures Update(d, e).entries == d.entries + e.entries
  {
    var ps := Items(e);
    var m := PairsMap(ps);
    PairsMapAgrees(ps, e.entries);
    assert KeysOf(ps) == e.order;
    assert m.Keys == e.entries.Keys;
    assert m == e.entries;
    assert Update(d, e) == SetAll(d, ps);
    SetAllEntries(d, ps);
  }

  /** `d.update(e)` keeps d's keys where they are and appends e's new keys
      in e's order. */
  lemma UpdateOrder<K(!new), V>(d: Dict<K, V>, e: Dict<K, V>)
    requires Valid(d) && Valid(e)
    ensures Update(d, e).order == d.order + NewKeys(d, e.order)
  {
    var ps := Items(e);
    assert KeysOf(ps) == e.order;
    SetAllDistinct(d, ps);
  }

  /** Assignments with pairwise distinct keys each survive in the map they
      build. */
  lemma {:induction false} PairsMapDistinct<K, V>(ps: seq<(K, V)>, j: nat)
    requires forall a, b :: 0 <= a < b < |ps| ==> ps[a].0 != ps[b].0
    requires j < |ps|
    ensures ps[j].0 in PairsMap(ps) && PairsMap(ps)[ps[j].0] == ps[j].1
  {
    if j < |ps| - 1 {
      PairsMapDistinct(ps[..|ps| - 1], j);
    }
  }

  /** Assignments with pairwise distinct keys, replayed on an empty
      dictionary, list their keys in order and keep every value. */
  lemma DistinctPairsDict<K(!new), V>(ps: seq<(K, V)>)
    requires forall a, b :: 0 <= a < b < |ps| ==> ps[a].0 != ps[b].0
    ensures SetAll(Empty(), ps).order == KeysOf(ps)
    ensures forall j :: 0 <= j < |ps| ==> ps[j].0 in SetAll(Empty(), ps).entries && SetAll(Empty(), ps).entries[ps[j].0] == ps[j].1
  {
    SetAllDistinct(Empty(), ps);
    NewKeysEmpty<K, V>(KeysOf(ps));
    DistinctPairsEntries(ps);
  }

  lemma DistinctPairsEntries<K(!new), V>(ps: seq<(K, V)>)
    requires forall a, b :: 0 <= a < b < |ps| ==> ps[a].0 != ps[b].0
    ensures forall j :: 0 <= j < |ps| ==> ps[j].0 in SetAll(Empty(), ps).entries && SetAll(Empty(), ps).entries[ps[j].0] == ps[j].1
  {
    SetAllEntries(Empty(), ps);
    assert Empty<K, V>().entries + PairsMap(ps) == PairsMap(ps);
    forall j | 0 <= j < |ps|
      ensures ps[j].0 in PairsMap(ps) && PairsMap(ps)[ps[j].0] == ps[j].1
    {
      PairsMapDistinct(ps, j);
    }
  }

  /** Every key is new to an empty dictionary. */
  lemma {:induction false} NewKeysEmpty<K(!new), V>(ks: seq<K>)
    ensures NewKeys(Empty<K, V>(), ks) == ks
  {
    if ks != [] {
      NewKeysEmpty<K, V>(ks[..|ks| - 1]);
    }
  }

  /** The value of the last assignment to `k` among `ps`, if any. */
  function LastValue<K(==), V>(ps: seq<(K, V)>, k: K): Option<V>
  {
    if ps == [] then None
    else if ps[|ps| - 1].0 == k then Some(ps[|ps| - 1].1)
    else LastValue(ps[..|ps| - 1], k)
  }

  /** With pairwise distinct keys, the last assignment to a key is its only
      one. */
  lemma {:induction false} LastValueDistinct<K, V>(ps: seq<(K, V)>, j: nat)
    requires forall a, b :: 0 <= a < b < |ps| ==> ps[a].0 != ps[b].0
    requires j < |ps|
    ensures LastValue(ps, ps[j].0) == Some(ps[j].1)
  {
    if j < |ps| - 1 {
      LastValueDistinct(ps[..|ps| - 1], j);
    }
  }

  /** A key no pair assigns has no last assignment. */
  lemma {:induction false} LastValueAbsent<K, V>(ps: seq<(K, V)>, k: K)
    requires forall j :: 0 <= j < |ps| ==> ps[j].0 != k
    ensures LastValue(ps, k) == None
  {
    if ps != [] {
      LastValueAbsent(ps[..|ps| - 1], k);
    }
  }

  /** Last write wins: after replaying `ps`, a key holds the value of its last
      assignment, and keys that `ps` never assigns keep their old value. */
  lemma {:induction false} GetSetAll<K(!new), V>(d: Dict<K, V>, ps: seq<(K, V)>, k: K)
    requires Valid(d)
    ensures Get(SetAll(d, ps), k) == if LastValue(ps, k).Some? then LastValue(ps, k) else Get(d, k)
  {
    if ps != [] {
      GetSetAll(d, ps[..|ps| - 1], k);
    }
  }
}
