/** `get_key_values`: the label/value pairs of a header region. Spans are
    grouped by their exact y, the groups in the order their y is first seen;
    each group is sorted by x, and a group of at least two spans whose
    leftmost text ends with ":" stores that text without the colon as the
    key of the second-leftmost text. */
module KeyValues {
  import opened Basics
  import opened Dicts
  import opened Layout
  import opened Sorting
  import opened Records

  /** `spans_by_y`: the spans of each exact y, in input order, keyed in the
      order the y values first occur. */
  function ExactGroups(spans: seq<Span>): (d: Dict<real, seq<Span>>)
    ensures Valid(d)
  {
    if spans == [] then Empty()
    else
      var d := ExactGroups(spans[..|spans| - 1]);
      var e := spans[|spans| - 1];
      Set(d, e.y, Get(d, e.y).GetOr([]) + [e])
  }

  /** The colon rule on one line already sorted by x. */
  function ColonEntry(v: seq<Span>): Option<(string, Value)>
  {
    if |v| > 1 && EndsWith(v[0].text, ":") then Some((DropLast(v[0].text), Str(v[1].text))) else None
  }

  /** Every group sorted by x. */
  function XSorted(groups: seq<seq<Span>>): (lines: seq<seq<Span>>)
    ensures |lines| == |groups|
    ensures forall j :: 0 <= j < |groups| ==> lines[j] == SortOn(groups[j], X)
  {
    seq(|groups|, j requires 0 <= j < |groups| => SortOn(groups[j], X))
  }

  /** The assignments the colon rule makes over x-sorted lines, in order. */
  function ColonPairs(lines: seq<seq<Span>>): seq<(string, Value)>
  {
    if lines == [] then []
    else ColonPairs(lines[..|lines| - 1]) + AsSeq(ColonEntry(lines[|lines| - 1]))
  }

  lemma ColonPairsStep(lines: seq<seq<Span>>, j: nat)
    requires j < |lines|
    ensures ColonPairs(lines[..j + 1]) == ColonPairs(lines[..j]) + AsSeq(ColonEntry(lines[j]))
  {
    assert lines[..j + 1][..j] == lines[..j];
  }

  /** The dictionary `get_key_values` returns. */
  function KeyValuesOf(spans: seq<Span>): (d: Fields)
    ensures Valid(d)
  {
    SetAll(Empty(), ColonPairs(XSorted(Values(ExactGroups(spans)))))
  }

  /** `get_key_values`: build `spans_by_y`, then apply the colon rule to each
      group in insertion order. */
  method GetKeyValues(spans: seq<Span>) returns (results: Fields)
    ensures results == KeyValuesOf(spans)
  {
    var byY := GroupByExactY(spans);
    results := ApplyColonRule(byY);
  }

  /** The first loop of `get_key_values`. */
  method GroupByExactY(spans: seq<Span>) returns (byY: Dict<real, seq<Span>>)
    ensures byY == ExactGroups(spans)
  {
    byY := Empty();
    for i := 0 to |spans|
      invariant byY == ExactGroups(spans[..i])
    {
      var span := spans[i];
      if span.y !in byY.entries {
        byY := Set(byY, span.y, []);
      }
      byY := Set(byY, span.y, byY.entries[span.y] + [span]);
      assert spans[..i + 1][..i] == spans[..i];
    }
    assert spans[..|spans|] == spans;
  }

  /** The second loop of `get_key_values`. */
  method ApplyColonRule(byY: Dict<real, seq<Span>>) returns (results: Fields)
    requires Valid(byY)
    ensures results == SetAll(Empty(), ColonPairs(XSorted(Values(byY))))
  {
    ghost var groups := XSorted(Values(byY));
    results := Empty();
    for j := 0 to |byY.order|
      invariant results == SetAll(Empty(), ColonPairs(groups[..j]))
    {
      var v := SortOn(byY.entries[byY.order[j]], X);
      ColonPairsStep(groups, j);
      ghost var before := ColonPairs(groups[..j]);
      if |v| > 1 && EndsWith(v[0].text, ":") {
        SetAllSnoc(Empty(), before, DropLast(v[0].text), Str(v[1].text));
        results := Set(results, DropLast(v[0].text), Str(v[1].text));
      } else {
        assert before + AsSeq(ColonEntry(v)) == before;
      }
    }
    assert groups[..|byY.order|] == groups;
  }

  // ---------------------------------------------------------------------
  // Properties

  /** A y is a key of `spans_by_y` exactly when some span has it, and its
      group holds the spans with that y in input order. */
  lemma {:induction false} ExactGroupsContent(spans: seq<Span>)
    ensures forall y :: y in ExactGroups(spans).entries <==> WithKey(spans, Y, y) != []
    ensures forall y :: y in ExactGroups(spans).entries ==> ExactGroups(spans).entries[y] == WithKey(spans, Y, y)
  {
    if spans != [] {
      var init := spans[..|spans| - 1];
      ExactGroupsContent(init);
      var d := ExactGroups(init);
      var e := spans[|spans| - 1];
      forall y
        ensures y in ExactGroups(spans).entries <==> WithKey(spans, Y, y) != []
        ensures y in ExactGroups(spans).entries ==> ExactGroups(spans).entries[y] == WithKey(spans, Y, y)
      {
        assert WithKey(spans, Y, y) == WithKey(init, Y, y) + (if e.y == y then [e] else []);
      }
    }
  }

  /** The leftmost of a group is its first span, in input order, of smallest
      x; the second-leftmost is a span of smallest x among the others. */
  lemma ColonRule(g: seq<Span>)
    ensures ColonEntry(SortOn(g, X)).None? <==> |g| < 2 || !EndsWith(g[FirstMin(g, X)].text, ":")
    ensures ColonEntry(SortOn(g, X)).Some? ==>
              ColonEntry(SortOn(g, X)).value.0 + ":" == g[FirstMin(g, X)].text
              && exists b :: b in multiset(g) - multiset{g[FirstMin(g, X)]}
                   && ColonEntry(SortOn(g, X)).value.1 == Str(b.text)
                   && forall s :: s in multiset(g) - multiset{g[FirstMin(g, X)]} ==> b.x <= s.x
  {
    SortOnSorted(g, X);
    if g != [] {
      SortOnHead(g, X);
    }
    ColonRuleSorted(SortOn(g, X), g);
  }

  lemma ColonRuleSorted(v: seq<Span>, g: seq<Span>)
    requires SortedOn(v, X) && multiset(v) == multiset(g) && |v| == |g|
    requires g != [] ==> v[0] == g[FirstMin(g, X)]
    ensures ColonEntry(v).None? <==> |g| < 2 || !EndsWith(g[FirstMin(g, X)].text, ":")
    ensures ColonEntry(v).Some? ==>
              ColonEntry(v).value.0 + ":" == g[FirstMin(g, X)].text
              && exists b :: b in multiset(g) - multiset{g[FirstMin(g, X)]}
                   && ColonEntry(v).value.1 == Str(b.text)
                   && forall s :: s in multiset(g) - multiset{g[FirstMin(g, X)]} ==> b.x <= s.x
  {
    if |g| >= 2 {
      SecondLeftmost(v, g);
    }
  }

  /** In a sorted permutation of `g`, the second span has the smallest x
      among the spans other than the first. */
  lemma SecondLeftmost(v: seq<Span>, g: seq<Span>)
    requires |v| >= 2 && SortedOn(v, X) && multiset(v) == multiset(g)
    ensures v[1] in multiset(g) - multiset{v[0]}
    ensures forall s :: s in multiset(g) - multiset{v[0]} ==> v[1].x <= s.x
  {
    var rest: seq<Span> := v[1..];
    assert v == [v[0]] + rest;
    assert multiset(g) - multiset{v[0]} == multiset(rest);
    forall s: Span | s in multiset(rest)
      ensures v[1].x <= s.x
    {
      var i :| 0 <= i < |rest| && rest[i] == s;
      assert v[i + 1] == s;
    }
    assert rest[0] == v[1];
  }

  /** The colon rule on the x-sorted line `v` stores under key `k`. */
  predicate HasColonKey(v: seq<Span>, k: string)
  {
    ColonEntry(v).Some? && ColonEntry(v).value.0 == k
  }

  /** A line that yields key `k` puts `k` among the assigned keys. */
  lemma {:induction false} ColonPairsHasKey(lines: seq<seq<Span>>, j: nat, k: string)
    requires j < |lines| && HasColonKey(lines[j], k)
    ensures k in KeysOf(ColonPairs(lines))
  {
    var init, last := lines[..|lines| - 1], lines[|lines| - 1];
    KeysAppend(ColonPairs(init), AsSeq(ColonEntry(last)));
    EntryKeys(ColonEntry(last), k);
    if j < |init| {
      assert init[j] == lines[j];
      ColonPairsHasKey(init, j, k);
    }
  }

  /** Every assigned key comes from some line. */
  lemma {:induction false} ColonPairsKeySource(lines: seq<seq<Span>>, k: string) returns (j: nat)
    requires k in KeysOf(ColonPairs(lines))
    ensures j < |lines| && HasColonKey(lines[j], k)
  {
    if lines == [] {
      assert false;
    }
    var init, last := lines[..|lines| - 1], lines[|lines| - 1];
    KeysAppend(ColonPairs(init), AsSeq(ColonEntry(last)));
    EntryKeys(ColonEntry(last), k);
    if HasColonKey(last, k) {
      j := |lines| - 1;
    } else {
      j := ColonPairsKeySource(init, k);
      assert lines[j] == init[j];
    }
  }

  lemma EntryKeys(e: Option<(string, Value)>, k: string)
    ensures k in KeysOf(AsSeq(e)) <==> e.Some? && e.value.0 == k
  {
    if e.Some? {
      assert KeysOf(AsSeq(e)) == [e.value.0];
    } else {
      assert KeysOf(AsSeq(e)) == [];
    }
  }

  lemma KeysAppend<K, V>(a: seq<(K, V)>, b: seq<(K, V)>)
    ensures KeysOf(a + b) == KeysOf(a) + KeysOf(b)
  {
    var l, r := KeysOf(a + b), KeysOf(a) + KeysOf(b);
    assert |l| == |r|;
    forall i | 0 <= i < |l|
      ensures l[i] == r[i]
    {
      if i < |a| {
        assert (a + b)[i] == a[i];
      } else {
        assert (a + b)[i] == b[i - |a|];
      }
    }
  }

  /** The colon rule: a key is in the result exactly when the group of some
      y yields it, and it holds the value of the last such group in
      first-seen order. */
  lemma KeyValuesLookup(spans: seq<Span>, k: string)
    ensures k in KeyValuesOf(spans).entries <==>
              exists y :: y in ExactGroups(spans).entries && HasColonKey(SortOn(WithKey(spans, Y, y), X), k)
    ensures Get(KeyValuesOf(spans), k) == LastValue(ColonPairs(XSorted(Values(ExactGroups(spans)))), k)
  {
    var ps := ColonPairs(XSorted(Values(ExactGroups(spans))));
    GetSetAll(Empty(), ps, k);
    KeyValuesKeys(spans, k);
    if k in KeysOf(ps) {
      KeyFromGroup(spans, k);
    }
    if exists y :: y in ExactGroups(spans).entries && HasColonKey(SortOn(WithKey(spans, Y, y), X), k) {
      var y :| y in ExactGroups(spans).entries && HasColonKey(SortOn(WithKey(spans, Y, y), X), k);
      GroupGivesKey(spans, y, k);
    }
  }

  /** A key among the pairs comes from the group of some y. */
  lemma KeyFromGroup(spans: seq<Span>, k: string)
    requires k in KeysOf(ColonPairs(XSorted(Values(ExactGroups(spans)))))
    ensures exists y :: y in ExactGroups(spans).entries && HasColonKey(SortOn(WithKey(spans, Y, y), X), k)
  {
    var d := ExactGroups(spans);
    var lines := XSorted(Values(d));
    ExactGroupsContent(spans);
    var j := ColonPairsKeySource(lines, k);
    var y := d.order[j];
    assert lines[j] == SortOn(WithKey(spans, Y, y), X);
  }

  /** The group of a y whose line yields a key puts it among the pairs. */
  lemma GroupGivesKey(spans: seq<Span>, y: real, k: string)
    requires y in ExactGroups(spans).entries && HasColonKey(SortOn(WithKey(spans, Y, y), X), k)
    ensures k in KeysOf(ColonPairs(XSorted(Values(ExactGroups(spans)))))
  {
    var d := ExactGroups(spans);
    var lines := XSorted(Values(d));
    ExactGroupsContent(spans);
    var j :| 0 <= j < |d.order| && d.order[j] == y;
    assert lines[j] == SortOn(WithKey(spans, Y, y), X);
    ColonPairsHasKey(lines, j, k);
  }

  lemma KeyValuesKeys(spans: seq<Span>, k: string)
    ensures k in KeyValuesOf(spans).entries <==> k in KeysOf(ColonPairs(XSorted(Values(ExactGroups(spans)))))
  {
    var ps := ColonPairs(XSorted(Values(ExactGroups(spans))));
    assert KeyValuesOf(spans) == SetAll(Empty(), ps);
    SetAllEmptyKeys(ps, k);
  }
}
