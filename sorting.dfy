/** Python's `sorted(spans, key=...)` on one coordinate of the span origin.
    `sorted` is stable: spans with equal keys keep their relative order. It
    is modelled as an insertion sort that places each span after every span
    already placed whose key is not greater. */
module Sorting {
  import opened Layout

  /** Which coordinate of the origin a sort uses. */
  datatype Axis = X | Y

  function Coord(s: Span, axis: Axis): real
  {
    if axis == X then s.x else s.y
  }

  predicate SortedOn(s: seq<Span>, axis: Axis)
  {
    forall i, j :: 0 <= i < j < |s| ==> Coord(s[i], axis) <= Coord(s[j], axis)
  }

  /** Insert `e` into `t` after every trailing span whose key exceeds e's. */
  function Insert(e: Span, t: seq<Span>, axis: Axis): seq<Span>
  {
    if t == [] || Coord(t[|t| - 1], axis) <= Coord(e, axis) then t + [e]
    else Insert(e, t[..|t| - 1], axis) + [t[|t| - 1]]
  }

  /** `sorted(s, key=...)` on the given coordinate. */
  function SortOn(s: seq<Span>, axis: Axis): seq<Span>
  {
    if s == [] then [] else Insert(s[|s| - 1], SortOn(s[..|s| - 1], axis), axis)
  }

  lemma {:induction false} InsertMultiset(e: Span, t: seq<Span>, axis: Axis)
    ensures multiset(Insert(e, t, axis)) == multiset(t) + multiset{e}
    ensures |Insert(e, t, axis)| == |t| + 1
  {
    if !(t == [] || Coord(t[|t| - 1], axis) <= Coord(e, axis)) {
      var init := t[..|t| - 1];
      assert t == init + [t[|t| - 1]];
      InsertMultiset(e, init, axis);
    }
  }

  lemma {:induction false} InsertSorted(e: Span, t: seq<Span>, axis: Axis)
    requires SortedOn(t, axis)
    ensures SortedOn(Insert(e, t, axis), axis)
  {
    if !(t == [] || Coord(t[|t| - 1], axis) <= Coord(e, axis)) {
      var n: nat := |t| - 1;
      var init, last := t[..n], t[n];
      InsertSorted(e, init, axis);
      InsertBelow(e, init, last, axis);
      SortedSnoc(Insert(e, init, axis), last, axis);
    }
  }

  /** Inserting below a bound keeps every key below it. */
  lemma InsertBelow(e: Span, t: seq<Span>, bound: Span, axis: Axis)
    requires Coord(e, axis) <= Coord(bound, axis)
    requires forall i :: 0 <= i < |t| ==> Coord(t[i], axis) <= Coord(bound, axis)
    ensures forall i :: 0 <= i < |Insert(e, t, axis)| ==> Coord(Insert(e, t, axis)[i], axis) <= Coord(bound, axis)
  {
    var r := Insert(e, t, axis);
    InsertMultiset(e, t, axis);
    forall i | 0 <= i < |r|
      ensures Coord(r[i], axis) <= Coord(bound, axis)
    {
      assert r[i] in multiset(t) + multiset{e};
    }
  }

  lemma SortedSnoc(s: seq<Span>, e: Span, axis: Axis)
    requires SortedOn(s, axis) && forall i :: 0 <= i < |s| ==> Coord(s[i], axis) <= Coord(e, axis)
    ensures SortedOn(s + [e], axis)
  {
  }

  /** The result of `sorted` is ordered by the key and holds exactly the
      spans it was given. */
  lemma {:induction false} SortOnSorted(s: seq<Span>, axis: Axis)
    ensures SortedOn(SortOn(s, axis), axis)
    ensures multiset(SortOn(s, axis)) == multiset(s)
    ensures |SortOn(s, axis)| == |s|
  {
    SortOnPermutes(s, axis);
    if s != [] {
      var n: nat := |s| - 1;
      SortOnSorted(s[..n], axis);
      InsertSorted(s[n], SortOn(s[..n], axis), axis);
    }
  }

  lemma {:induction false} SortOnPermutes(s: seq<Span>, axis: Axis)
    ensures multiset(SortOn(s, axis)) == multiset(s)
    ensures |SortOn(s, axis)| == |s|
  {
    if s != [] {
      var n: nat := |s| - 1;
      var init, last := s[..n], s[n];
      SortOnPermutes(init, axis);
      InsertMultiset(last, SortOn(init, axis), axis);
      assert s == init + [last];
    }
  }

  /** The spans of `s` whose key equals `c`, in order. */
  function WithKey(s: seq<Span>, axis: Axis, c: real): seq<Span>
  {
    if s == [] then []
    else WithKey(s[..|s| - 1], axis, c) + (if Coord(s[|s| - 1], axis) == c then [s[|s| - 1]] else [])
  }

  lemma {:induction false} WithKeyAppend(a: seq<Span>, b: seq<Span>, axis: Axis, c: real)
    ensures WithKey(a + b, axis, c) == WithKey(a, axis, c) + WithKey(b, axis, c)
    decreases |b|
  {
    if b == [] {
      assert a + b == a;
    } else {
      var init := b[..|b| - 1];
      assert (a + b)[..|a + b| - 1] == a + init;
      assert (a + b)[|a + b| - 1] == b[|b| - 1];
      WithKeyAppend(a, init, axis, c);
    }
  }

  function Keyed(e: Span, axis: Axis, c: real): seq<Span>
  {
    if Coord(e, axis) == c then [e] else []
  }

  lemma {:induction false} WithKeyInsert(e: Span, t: seq<Span>, axis: Axis, c: real)
    ensures WithKey(Insert(e, t, axis), axis, c) == WithKey(t, axis, c) + Keyed(e, axis, c)
  {
    if t == [] || Coord(t[|t| - 1], axis) <= Coord(e, axis) {
      InsertLast(e, t, axis);
      WithKeySnoc(t, e, axis, c);
    } else {
      var init, last := t[..|t| - 1], t[|t| - 1];
      var mid := Insert(e, init, axis);
      InsertBeforeLast(e, t, axis);
      assert t == init + [last];
      WithKeyInsert(e, init, axis, c);
      WithKeySnoc(mid, last, axis, c);
      WithKeySnoc(init, last, axis, c);
      var before, ke, kl := WithKey(init, axis, c), Keyed(e, axis, c), Keyed(last, axis, c);
      assert WithKey(t, axis, c) == before + kl;
      assert WithKey(Insert(e, t, axis), axis, c) == before + ke + kl;
      if ke != [] {
        assert kl == [];
      }
    }
  }

  /** The spans of `s + [x]` with key `c`. */
  lemma WithKeySnoc(s: seq<Span>, x: Span, axis: Axis, c: real)
    ensures WithKey(s + [x], axis, c) == WithKey(s, axis, c) + Keyed(x, axis, c)
  {
    assert (s + [x])[..|s|] == s;
  }

  /** A span whose key is below the last one's is inserted before it. */
  lemma InsertBeforeLast(e: Span, t: seq<Span>, axis: Axis)
    requires t != [] && Coord(e, axis) < Coord(t[|t| - 1], axis)
    ensures Insert(e, t, axis) == Insert(e, t[..|t| - 1], axis) + [t[|t| - 1]]
  {
  }

  /** Stability: sorting leaves the spans that share a key in their original
      relative order. Together with sortedness and the multiset this pins the
      result down completely. */
  lemma {:induction false} SortOnStable(s: seq<Span>, axis: Axis, c: real)
    ensures WithKey(SortOn(s, axis), axis, c) == WithKey(s, axis, c)
  {
    if s != [] {
      var init := s[..|s| - 1];
      SortOnStable(init, axis, c);
      WithKeyInsert(s[|s| - 1], SortOn(init, axis), axis, c);
    }
  }

  /** A sequence already sorted is left as it is. */
  lemma {:induction false} SortOnIdentity(s: seq<Span>, axis: Axis)
    requires SortedOn(s, axis)
    ensures SortOn(s, axis) == s
  {
    if s != [] {
      var init, e := s[..|s| - 1], s[|s| - 1];
      SortedInit(s, axis);
      SortOnIdentity(init, axis);
      InsertLast(e, init, axis);
      assert init + [e] == s;
    }
  }

  /** Dropping the last span keeps a sequence sorted, and the last span has
      the largest key. */
  lemma SortedInit(s: seq<Span>, axis: Axis)
    requires SortedOn(s, axis) && s != []
    ensures SortedOn(s[..|s| - 1], axis)
    ensures |s| > 1 ==> Coord(s[|s| - 2], axis) <= Coord(s[|s| - 1], axis)
  {
  }

  /** A span whose key is not below the last one's is inserted at the end. */
  lemma InsertLast(e: Span, t: seq<Span>, axis: Axis)
    requires t == [] || Coord(t[|t| - 1], axis) <= Coord(e, axis)
    ensures Insert(e, t, axis) == t + [e]
  {
  }

  /** The index of the first span, in the given order, whose key is the
      smallest. */
  function FirstMin(s: seq<Span>, axis: Axis): (m: nat)
    requires s != []
    ensures m < |s|
    ensures forall i :: 0 <= i < |s| ==> Coord(s[m], axis) <= Coord(s[i], axis)
    ensures forall i :: 0 <= i < m ==> Coord(s[m], axis) < Coord(s[i], axis)
  {
    if |s| == 1 then 0
    else
      var m := FirstMin(s[..|s| - 1], axis);
      if Coord(s[|s| - 1], axis) < Coord(s[m], axis) then |s| - 1 else m
  }

  lemma {:induction false} InsertHead(e: Span, t: seq<Span>, axis: Axis)
    requires SortedOn(t, axis)
    ensures |Insert(e, t, axis)| == |t| + 1
    ensures Insert(e, t, axis)[0] == if t == [] || Coord(e, axis) < Coord(t[0], axis) then e else t[0]
  {
    InsertMultiset(e, t, axis);
    if !(t == [] || Coord(t[|t| - 1], axis) <= Coord(e, axis)) {
      var init := t[..|t| - 1];
      assert SortedOn(init, axis);
      InsertHead(e, init, axis);
    }
  }

  /** The first span of `sorted(s, key=...)` is the first span of `s` with
      the smallest key: ties keep their input order. */
  lemma {:induction false} SortOnHead(s: seq<Span>, axis: Axis)
    requires s != []
    ensures |SortOn(s, axis)| == |s|
    ensures SortOn(s, axis)[0] == s[FirstMin(s, axis)]
  {
    SortOnSorted(s, axis);
    var init := s[..|s| - 1];
    if init != [] {
      SortOnHead(init, axis);
      SortOnSorted(init, axis);
      InsertHead(s[|s| - 1], SortOn(init, axis), axis);
    }
  }
}
