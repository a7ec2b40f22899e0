/** Grouping spans into text lines by their y, as `spans_to_lines`,
    `get_mmt_data` and `get_lens_values` do. The spans are sorted by y and
    walked in that order; a span more than `tol` away from the y of the first
    span of the current line starts a new line, and every other span joins
    the current line. `spans_to_lines` and `get_mmt_data` use a tolerance of
    1 and keep `prev_y`, which changes only when a line starts, so a line's
    anchor never drifts with the spans added to it; `itertools.groupby` on
    the exact y in `get_lens_values` is the same rule with tolerance 0. */
module Lines {
  import opened Basics
  import opened Dicts
  import opened Layout
  import opened Sorting

  /** The tolerance of `abs(y - prev_y) > 1`. */
  const LineTolerance: real := 1.0

  function Abs(r: real): real
  {
    if r < 0.0 then -r else r
  }

  /** One step of the rule: `e` joins the last line when it is within `tol`
      of that line's first span, and otherwise starts a line of its own. */
  function Join(c: seq<seq<Span>>, e: Span, tol: real): seq<seq<Span>>
    requires c != [] ==> c[|c| - 1] != []
  {
    if c == [] || Abs(e.y - c[|c| - 1][0].y) > tol then c + [[e]]
    else c[..|c| - 1] + [c[|c| - 1] + [e]]
  }

  /** The rule applied to spans in the given order. */
  function Cluster(s: seq<Span>, tol: real): (r: seq<seq<Span>>)
    ensures NonEmptyLines(r)
  {
    if s == [] then []
    else
      var c, e := Cluster(s[..|s| - 1], tol), s[|s| - 1];
      JoinStep(c, e, tol);
      Join(c, e, tol)
  }

  /** The lines of `spans` in `spans_by_y` order, each sorted by x. */
  function ToleranceLines(spans: seq<Span>): (lines: seq<seq<Span>>)
    ensures |lines| == |Cluster(SortOn(spans, Y), LineTolerance)|
  {
    var c := Cluster(SortOn(spans, Y), LineTolerance);
    seq(|c|, j requires 0 <= j < |c| => SortOn(c[j], X))
  }

  /** The anchor of each line: the y that opened it, the key of the line in
      `spans_by_y`. */
  function Anchors(spans: seq<Span>): (a: seq<real>)
    ensures |a| == |Cluster(SortOn(spans, Y), LineTolerance)|
  {
    var c := Cluster(SortOn(spans, Y), LineTolerance);
    seq(|c|, j requires 0 <= j < |c| => c[j][0].y)
  }

  function Concat(ls: seq<seq<Span>>): seq<Span>
  {
    if ls == [] then [] else Concat(ls[..|ls| - 1]) + ls[|ls| - 1]
  }

  /** `[[span["text"] for span in line] for line in lines]`. */
  function Texts(lines: seq<seq<Span>>): (rows: seq<seq<string>>)
    ensures |rows| == |lines|
    ensures forall j :: 0 <= j < |rows| ==> |rows[j]| == |lines[j]|
    ensures forall j, k :: 0 <= j < |rows| && 0 <= k < |rows[j]| ==> rows[j][k] == lines[j][k].text
  {
    seq(|lines|, j requires 0 <= j < |lines| => seq(|lines[j]|, k requires 0 <= k < |lines[j]| => lines[j][k].text))
  }

  // ---------------------------------------------------------------------
  // What the rule guarantees

  /** The lines of `Cluster` cut the input into consecutive pieces. */
  lemma {:induction false} ClusterConcat(s: seq<Span>, tol: real)
    ensures Concat(Cluster(s, tol)) == s
  {
    if s != [] {
      var init, e := s[..|s| - 1], s[|s| - 1];
      var c: seq<seq<Span>> := Cluster(init, tol);
      ClusterConcat(init, tol);
      JoinConcat(c, e, tol);
      assert s == init + [e];
    }
  }

  lemma JoinConcat(c: seq<seq<Span>>, e: Span, tol: real)
    requires c != [] ==> c[|c| - 1] != []
    ensures Concat(Join(c, e, tol)) == Concat(c) + [e]
  {
    if c == [] || Abs(e.y - c[|c| - 1][0].y) > tol {
      assert Join(c, e, tol) == c + [[e]];
      ConcatSnoc(c, [e]);
    } else {
      JoinLastConcat(c, e);
    }
  }

  lemma JoinLastConcat(c: seq<seq<Span>>, e: Span)
    requires c != []
    ensures Concat(c[..|c| - 1] + [c[|c| - 1] + [e]]) == Concat(c) + [e]
  {
    var front, last := c[..|c| - 1], c[|c| - 1];
    ConcatSnoc(front, last + [e]);
    ConcatSnoc(front, last);
    assert c == front + [last];
    var a := Concat(front);
    assert Concat(c) == a + last;
    AppendAssoc(a, last, [e]);
  }

  lemma AppendAssoc<T>(a: seq<T>, b: seq<T>, c: seq<T>)
    ensures a + (b + c) == (a + b) + c
  {
  }

  lemma ConcatSnoc(ls: seq<seq<Span>>, g: seq<Span>)
    ensures Concat(ls + [g]) == Concat(ls) + g
  {
    assert (ls + [g])[..|ls|] == ls;
  }

  /** One step of the rule, pointwise: earlier lines are left alone. */
  lemma JoinStep(c: seq<seq<Span>>, e: Span, tol: real)
    requires c != [] ==> c[|c| - 1] != []
    ensures var r := Join(c, e, tol);
      if c == [] || Abs(e.y - c[|c| - 1][0].y) > tol then
        |r| == |c| + 1 && r[|c|] == [e] && forall j :: 0 <= j < |c| ==> r[j] == c[j]
      else
        |r| == |c| && r[|c| - 1] == c[|c| - 1] + [e] && forall j :: 0 <= j < |c| - 1 ==> r[j] == c[j]
  {
  }

  predicate NonEmptyLines(c: seq<seq<Span>>)
  {
    forall j :: 0 <= j < |c| ==> c[j] != []
  }

  /** Every span of a line is within `tol` of the line's first span. */
  predicate WithinAnchor(c: seq<seq<Span>>, tol: real)
    requires NonEmptyLines(c)
  {
    forall j, k :: 0 <= j < |c| && 0 <= k < |c[j]| ==> Abs(c[j][k].y - c[j][0].y) <= tol
  }

  /** The first spans of consecutive lines are more than `tol` apart. */
  predicate AnchorsApart(c: seq<seq<Span>>, tol: real)
    requires NonEmptyLines(c)
  {
    forall j :: 0 < j < |c| ==> Abs(c[j][0].y - c[j - 1][0].y) > tol
  }

  /** The first span of every line has the line's smallest y. */
  predicate AnchorLowest(c: seq<seq<Span>>)
    requires NonEmptyLines(c)
  {
    forall j, k :: 0 <= j < |c| && 0 <= k < |c[j]| ==> c[j][0].y <= c[j][k].y
  }

  predicate AnchorsAtMost(c: seq<seq<Span>>, y: real)
    requires NonEmptyLines(c)
  {
    forall j :: 0 <= j < |c| ==> c[j][0].y <= y
  }

  /** The anchors rise by more than `tol` from line to line. */
  predicate AnchorsRise(c: seq<seq<Span>>, tol: real)
    requires NonEmptyLines(c)
  {
    forall j :: 0 < j < |c| ==> c[j - 1][0].y + tol < c[j][0].y
  }

  lemma JoinWithinAnchor(c: seq<seq<Span>>, e: Span, tol: real)
    requires NonEmptyLines(c) && WithinAnchor(c, tol) && 0.0 <= tol
    ensures NonEmptyLines(Join(c, e, tol)) && WithinAnchor(Join(c, e, tol), tol)
  {
    var r: seq<seq<Span>> := Join(c, e, tol);
    JoinStep(c, e, tol);
    forall j, k | 0 <= j < |r| && 0 <= k < |r[j]|
      ensures Abs(r[j][k].y - r[j][0].y) <= tol
    {
      if j < |c| && r[j] != c[j] {
        assert r[j] == c[j] + [e];
        if k < |c[j]| {
          assert r[j][k] == c[j][k];
        }
      }
    }
  }

  lemma JoinAnchorsApart(c: seq<seq<Span>>, e: Span, tol: real)
    requires NonEmptyLines(c) && AnchorsApart(c, tol)
    ensures NonEmptyLines(Join(c, e, tol)) && AnchorsApart(Join(c, e, tol), tol)
  {
    var r: seq<seq<Span>> := Join(c, e, tol);
    JoinStep(c, e, tol);
    forall j | 0 < j < |r|
      ensures Abs(r[j][0].y - r[j - 1][0].y) > tol
    {
      if j < |c| {
        assert r[j][0] == c[j][0] && r[j - 1][0] == c[j - 1][0];
      }
    }
  }

  /** A span at or above every anchor keeps each anchor its line's lowest y. */
  lemma JoinAnchorLowest(c: seq<seq<Span>>, e: Span, tol: real)
    requires NonEmptyLines(c) && AnchorLowest(c) && AnchorsAtMost(c, e.y)
    ensures NonEmptyLines(Join(c, e, tol)) && AnchorLowest(Join(c, e, tol)) && AnchorsAtMost(Join(c, e, tol), e.y)
  {
    var r: seq<seq<Span>> := Join(c, e, tol);
    JoinStep(c, e, tol);
    forall j, k | 0 <= j < |r| && 0 <= k < |r[j]|
      ensures r[j][0].y <= r[j][k].y
    {
      if j < |c| && r[j] != c[j] {
        assert r[j] == c[j] + [e];
        if k < |c[j]| {
          assert r[j][k] == c[j][k];
        }
      }
    }
    forall j | 0 <= j < |r|
      ensures r[j][0].y <= e.y
    {
      if j < |c| {
        assert r[j][0] == c[j][0];
      }
    }
  }

  lemma JoinAnchorsRise(c: seq<seq<Span>>, e: Span, tol: real)
    requires NonEmptyLines(c) && AnchorsRise(c, tol) && AnchorsAtMost(c, e.y)
    ensures NonEmptyLines(Join(c, e, tol)) && AnchorsRise(Join(c, e, tol), tol)
  {
    var r: seq<seq<Span>> := Join(c, e, tol);
    JoinStep(c, e, tol);
    forall j | 0 < j < |r|
      ensures r[j - 1][0].y + tol < r[j][0].y
    {
      if j < |c| {
        assert r[j][0] == c[j][0] && r[j - 1][0] == c[j - 1][0];
      }
    }
  }

  lemma {:induction false} ClusterWithinAnchor(s: seq<Span>, tol: real)
    requires 0.0 <= tol
    ensures WithinAnchor(Cluster(s, tol), tol)
  {
    if s != [] {
      ClusterWithinAnchor(s[..|s| - 1], tol);
      JoinWithinAnchor(Cluster(s[..|s| - 1], tol), s[|s| - 1], tol);
    }
  }

  lemma {:induction false} ClusterAnchorsApart(s: seq<Span>, tol: real)
    ensures AnchorsApart(Cluster(s, tol), tol)
  {
    if s != [] {
      ClusterAnchorsApart(s[..|s| - 1], tol);
      JoinAnchorsApart(Cluster(s[..|s| - 1], tol), s[|s| - 1], tol);
    }
  }

  /** On input sorted by y, the anchor of a line is its smallest y and no
      anchor exceeds the last y seen. */
  lemma {:induction false} ClusterAnchorLowest(s: seq<Span>, tol: real)
    requires SortedOn(s, Y)
    ensures AnchorLowest(Cluster(s, tol))
    ensures s != [] ==> AnchorsAtMost(Cluster(s, tol), s[|s| - 1].y)
  {
    if s != [] {
      var init, e := s[..|s| - 1], s[|s| - 1];
      assert SortedOn(init, Y);
      ClusterAnchorLowest(init, tol);
      if init != [] {
        assert init[|init| - 1].y <= e.y;
      }
      JoinAnchorLowest(Cluster(init, tol), e, tol);
    }
  }

  /** On input sorted by y, the anchors rise by more than `tol` from line to
      line. */
  lemma {:induction false} ClusterAnchorsRise(s: seq<Span>, tol: real)
    requires SortedOn(s, Y)
    ensures AnchorsRise(Cluster(s, tol), tol)
  {
    if s != [] {
      var init, e := s[..|s| - 1], s[|s| - 1];
      assert SortedOn(init, Y);
      ClusterAnchorsRise(init, tol);
      ClusterAnchorLowest(init, tol);
      if init != [] {
        assert init[|init| - 1].y <= e.y;
      }
      JoinAnchorsRise(Cluster(init, tol), e, tol);
    }
  }

  lemma ClusterNonEmpty(s: seq<Span>, tol: real)
    requires s != []
    ensures Cluster(s, tol) != []
  {
    JoinStep(Cluster(s[..|s| - 1], tol), s[|s| - 1], tol);
  }

  lemma {:induction false} AnchorsAscend(c: seq<seq<Span>>, tol: real, j: nat, k: nat)
    requires NonEmptyLines(c) && AnchorsRise(c, tol) && 0.0 <= tol
    requires j <= k < |c|
    ensures c[j][0].y <= c[k][0].y
    ensures j < k ==> c[j][0].y < c[k][0].y
    decreases k - j
  {
    if j < k {
      AnchorsAscend(c, tol, j + 1, k);
    }
  }

  // ---------------------------------------------------------------------
  // `spans_to_lines`

  /** `spans_by_y` holds the lines of `c`, keyed by their anchors in order. */
  ghost predicate Mirrors(d: Dict<real, seq<Span>>, c: seq<seq<Span>>)
  {
    && Valid(d)
    && NonEmptyLines(c)
    && |d.order| == |c|
    && (forall j :: 0 <= j < |c| ==> d.order[j] == c[j][0].y && d.order[j] in d.entries && d.entries[d.order[j]] == c[j])
  }

  lemma MirrorsNewLine(d: Dict<real, seq<Span>>, c: seq<seq<Span>>, e: Span)
    requires Mirrors(d, c)
    requires c == [] || Abs(e.y - c[|c| - 1][0].y) > LineTolerance
    requires e.y !in d.order
    ensures Mirrors(Set(d, e.y, [e]), Join(c, e, LineTolerance))
  {
    var r: seq<seq<Span>>, d': Dict<real, seq<Span>> := Join(c, e, LineTolerance), Set(d, e.y, [e]);
    JoinStep(c, e, LineTolerance);
    assert d'.order == d.order + [e.y];
    forall j | 0 <= j < |r|
      ensures d'.order[j] == r[j][0].y && d'.order[j] in d'.entries && d'.entries[d'.order[j]] == r[j]
    {
      if j < |c| {
        assert d'.order[j] == d.order[j] != e.y;
      }
    }
  }

  lemma MirrorsSameLine(d: Dict<real, seq<Span>>, c: seq<seq<Span>>, e: Span)
    requires Mirrors(d, c)
    requires c != [] && Abs(e.y - c[|c| - 1][0].y) <= LineTolerance
    ensures Mirrors(Set(d, c[|c| - 1][0].y, d.entries[c[|c| - 1][0].y] + [e]), Join(c, e, LineTolerance))
  {
    var n := |c| - 1;
    var y := c[n][0].y;
    var r: seq<seq<Span>>, d': Dict<real, seq<Span>> := Join(c, e, LineTolerance), Set(d, y, d.entries[y] + [e]);
    JoinStep(c, e, LineTolerance);
    assert d.order[n] == y;
    assert d'.order == d.order;
    forall j | 0 <= j < |r|
      ensures d'.order[j] == r[j][0].y && d'.order[j] in d'.entries && d'.entries[d'.order[j]] == r[j]
    {
      if j < n {
        assert d.order[j] != d.order[n];
      }
    }
  }

  /** The grouping loop of `spans_to_lines` and `get_mmt_data`: walk the
      y-sorted spans and file each under the anchor of its line. */
  method GroupByAnchor(sorted: seq<Span>) returns (byY: Dict<real, seq<Span>>)
    requires SortedOn(sorted, Y)
    ensures Mirrors(byY, Cluster(sorted, LineTolerance))
  {
    byY := Empty();
    var prevY: Option<real> := None;
    for i := 0 to |sorted|
      invariant Mirrors(byY, Cluster(sorted[..i], LineTolerance))
      invariant prevY.None? <==> i == 0
      invariant prevY.Some? ==> prevY.value == byY.order[|byY.order| - 1]
    {
      assert sorted[..i + 1][..i] == sorted[..i];
      byY, prevY := FileSpan(byY, prevY, sorted, i);
    }
    assert sorted[..|sorted|] == sorted;
  }

  /** One turn of the grouping loop: a span more than 1 away from `prev_y`
      opens a line under its own y, any other joins the line of `prev_y`. */
  method FileSpan(d: Dict<real, seq<Span>>, prevY: Option<real>, sorted: seq<Span>, i: nat)
    returns (byY: Dict<real, seq<Span>>, nextY: Option<real>)
    requires SortedOn(sorted, Y) && i < |sorted|
    requires Mirrors(d, Cluster(sorted[..i], LineTolerance))
    requires prevY.None? <==> i == 0
    requires prevY.Some? ==> prevY.value == d.order[|d.order| - 1]
    ensures Mirrors(byY, Join(Cluster(sorted[..i], LineTolerance), sorted[i], LineTolerance))
    ensures nextY.Some? && nextY.value == byY.order[|byY.order| - 1]
  {
    var span := sorted[i];
    var y := span.y;
    ghost var c := Cluster(sorted[..i], LineTolerance);
    assert i > 0 ==> c != [];
    if prevY.None? || Abs(y - prevY.value) > LineTolerance {
      if prevY.Some? {
        NewAnchorIsFresh(sorted, i, d);
      }
      MirrorsNewLine(d, c, span);
      byY := Set(d, y, [span]);
      nextY := Some(y);
    } else {
      MirrorsSameLine(d, c, span);
      byY := Set(d, prevY.value, d.entries[prevY.value] + [span]);
      nextY := prevY;
    }
  }

  /** The per-line x sort: `spans_by_y[y] = sorted(line, key=x)` for every
      anchor in insertion order. */
  method SortLinesByX(d: Dict<real, seq<Span>>, ghost c: seq<seq<Span>>) returns (byY: Dict<real, seq<Span>>)
    requires Mirrors(d, c)
    ensures Valid(byY) && byY.order == d.order
    ensures forall m :: 0 <= m < |c| ==> byY.order[m] in byY.entries && byY.entries[byY.order[m]] == SortOn(c[m], X)
  {
    byY := d;
    var order := d.order;
    for j := 0 to |order|
      invariant Valid(byY) && byY.order == order
      invariant forall m :: 0 <= m < |order| ==>
                  order[m] in byY.entries && byY.entries[order[m]] == if m < j then SortOn(c[m], X) else c[m]
    {
      var y := order[j];
      ghost var next: nat := j + 1;
      byY := Set(byY, y, SortOn(byY.entries[y], X));
      forall m | 0 <= m < |order|
        ensures order[m] in byY.entries && byY.entries[order[m]] == if m < next then SortOn(c[m], X) else c[m]
      {
        if m != j {
          assert order[m] != y;
        }
      }
    }
  }

  /** Grouping followed by the x sort: the tolerance lines in anchor order. */
  method GroupLines(spans: seq<Span>) returns (lines: seq<seq<Span>>)
    ensures lines == ToleranceLines(spans)
  {
    var sorted := SortOn(spans, Y);
    SortOnSorted(spans, Y);
    var byY := GroupByAnchor(sorted);
    byY := SortLinesByX(byY, Cluster(sorted, LineTolerance));
    lines := Values(byY);
  }

  /** A span more than 1 above the current anchor of y-sorted input cannot
      hit an anchor already in `spans_by_y`. */
  lemma NewAnchorIsFresh(sorted: seq<Span>, i: nat, d: Dict<real, seq<Span>>)
    requires SortedOn(sorted, Y) && 0 < i < |sorted|
    requires Mirrors(d, Cluster(sorted[..i], LineTolerance))
    requires Abs(sorted[i].y - d.order[|d.order| - 1]) > LineTolerance
    ensures sorted[i].y !in d.order
  {
    var order := d.order;
    var prefix := sorted[..i];
    assert SortedOn(prefix, Y);
    ClusterAnchorsRise(prefix, LineTolerance);
    ClusterAnchorLowest(prefix, LineTolerance);
    assert prefix[|prefix| - 1].y <= sorted[i].y;
    forall j | 0 <= j < |order|
      ensures order[j] <= order[|order| - 1]
    {
      AnchorsAscend(Cluster(prefix, LineTolerance), LineTolerance, j, |order| - 1);
    }
  }

  /** `spans_to_lines`: the texts of the tolerance lines. */
  method SpansToLines(spans: seq<Span>) returns (rows: seq<seq<string>>)
    ensures rows == Texts(ToleranceLines(spans))
  {
    var lines := GroupLines(spans);
    rows := Texts(lines);
  }

  // ---------------------------------------------------------------------
  // Properties of the lines

  /** Every span lands in exactly one line: the lines together hold the
      input, occurrence for occurrence. */
  lemma LinesPartition(spans: seq<Span>)
    ensures multiset(Concat(ToleranceLines(spans))) == multiset(spans)
  {
    var sorted := SortOn(spans, Y);
    var c := Cluster(sorted, LineTolerance);
    var lines := ToleranceLines(spans);
    ClusterConcat(sorted, LineTolerance);
    SortOnSorted(spans, Y);
    forall j | 0 <= j < |lines|
      ensures multiset(lines[j]) == multiset(c[j])
    {
      SortOnSorted(c[j], X);
    }
    ConcatMultiset(lines, c);
  }

  lemma {:induction false} ConcatMultiset(ls: seq<seq<Span>>, c: seq<seq<Span>>)
    requires |ls| == |c|
    requires forall j :: 0 <= j < |ls| ==> multiset(ls[j]) == multiset(c[j])
    ensures multiset(Concat(ls)) == multiset(Concat(c))
  {
    if ls != [] {
      var n := |ls|;
      ConcatMultiset(ls[..n - 1], c[..n - 1]);
      assert multiset(ls[n - 1]) == multiset(c[n - 1]);
    }
  }

  /** Some span of `line` has the given y. */
  predicate HasY(line: seq<Span>, y: real)
  {
    exists k :: 0 <= k < |line| && line[k].y == y
  }

  /** Lines come out in ascending anchor order, more than 1 apart; every span
      of a line lies between the line's anchor and the anchor plus 1; the
      anchor is the y of one of the line's spans; spans within a line are
      ordered by x. */
  lemma LinesShape(spans: seq<Span>)
    ensures |ToleranceLines(spans)| == |Anchors(spans)|
    ensures forall j :: 0 < j < |Anchors(spans)| ==> Anchors(spans)[j - 1] + 1.0 < Anchors(spans)[j]
    ensures forall j :: 0 <= j < |ToleranceLines(spans)| ==>
              ToleranceLines(spans)[j] != [] && SortedOn(ToleranceLines(spans)[j], X)
    ensures forall j, k :: 0 <= j < |ToleranceLines(spans)| && 0 <= k < |ToleranceLines(spans)[j]| ==>
              Anchors(spans)[j] <= ToleranceLines(spans)[j][k].y <= Anchors(spans)[j] + 1.0
    ensures forall j :: 0 <= j < |ToleranceLines(spans)| ==> HasY(ToleranceLines(spans)[j], Anchors(spans)[j])
  {
    AnchorsRiseByOne(spans);
    LinesWithinAnchors(spans);
  }

  lemma AnchorsRiseByOne(spans: seq<Span>)
    ensures forall j :: 0 < j < |Anchors(spans)| ==> Anchors(spans)[j - 1] + 1.0 < Anchors(spans)[j]
  {
    var sorted := SortOn(spans, Y);
    SortOnSorted(spans, Y);
    var c: seq<seq<Span>> := Cluster(sorted, LineTolerance);
    ClusterAnchorsRise(sorted, LineTolerance);
    var a := Anchors(spans);
    forall j | 0 < j < |a|
      ensures a[j - 1] + 1.0 < a[j]
    {
      var i := j - 1;
      assert a[i] == c[i][0].y;
      assert a[j] == c[j][0].y;
    }
  }

  lemma LinesWithinAnchors(spans: seq<Span>)
    ensures |ToleranceLines(spans)| == |Anchors(spans)|
    ensures forall j :: 0 <= j < |ToleranceLines(spans)| ==>
              ToleranceLines(spans)[j] != [] && SortedOn(ToleranceLines(spans)[j], X)
    ensures forall j, k :: 0 <= j < |ToleranceLines(spans)| && 0 <= k < |ToleranceLines(spans)[j]| ==>
              Anchors(spans)[j] <= ToleranceLines(spans)[j][k].y <= Anchors(spans)[j] + 1.0
    ensures forall j :: 0 <= j < |ToleranceLines(spans)| ==> HasY(ToleranceLines(spans)[j], Anchors(spans)[j])
  {
    var sorted := SortOn(spans, Y);
    SortOnSorted(spans, Y);
    var c: seq<seq<Span>> := Cluster(sorted, LineTolerance);
    ClusterAnchorLowest(sorted, LineTolerance);
    ClusterWithinAnchor(sorted, LineTolerance);
    var lines: seq<seq<Span>>, a: seq<real> := ToleranceLines(spans), Anchors(spans);
    forall j | 0 <= j < |lines|
      ensures lines[j] != [] && SortedOn(lines[j], X)
      ensures forall k :: 0 <= k < |lines[j]| ==> a[j] <= lines[j][k].y <= a[j] + 1.0
      ensures HasY(lines[j], a[j])
    {
      assert lines[j] == SortOn(c[j], X) && a[j] == c[j][0].y;
      LineShape(c, j);
    }
  }

  lemma LineShape(c: seq<seq<Span>>, j: nat)
    requires j < |c| && c[j] != []
    requires forall k :: 0 <= k < |c[j]| ==> c[j][0].y <= c[j][k].y && Abs(c[j][k].y - c[j][0].y) <= LineTolerance
    ensures SortOn(c[j], X) != [] && SortedOn(SortOn(c[j], X), X)
    ensures forall k :: 0 <= k < |SortOn(c[j], X)| ==> c[j][0].y <= SortOn(c[j], X)[k].y <= c[j][0].y + 1.0
    ensures HasY(SortOn(c[j], X), c[j][0].y)
  {
    var line, g := SortOn(c[j], X), c[j];
    SortOnSorted(g, X);
    forall k | 0 <= k < |line|
      ensures g[0].y <= line[k].y <= g[0].y + 1.0
    {
      assert line[k] in multiset(g);
    }
    assert g[0] in multiset(line);
  }
}
