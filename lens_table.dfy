/** `get_lens_values`: the data of one lens panel of an IOL report. The
    spans are grouped by exact y (`groupby` over the y-sorted spans), each
    line sorted by x. The panel's name is the leftmost text of the topmost
    line. Then every line is read in order: while the numeric table is on
    (after an `IOL (D)` / `REF (D)` header), a line whose first two texts
    parse as numbers adds `iol_n` and `ref_n`, and also `iolbold` and
    `refbold` when its first span is bold; a line that does not parse ends
    the table. Every line is also tried as a label: `key:` followed by a
    value span, or `key: value` within one span. */
module LensTable {
  import opened Basics
  import opened Dicts
  import opened Layout
  import opened Sorting
  import opened Lines
  import opened Records
  import opened KeyValues

  const IolHeader := "IOL (D)"
  const RefHeader := "REF (D)"
  const LabelSeparator := ": "
  const IolStem := "iol"
  const RefStem := "ref"
  const IolBoldKey := "iolbold"
  const RefBoldKey := "refbold"
  const NameKey := "name"

  /** The runs of `groupby` over the y-sorted spans: maximal stretches of
      equal y. */
  function Runs(spans: seq<Span>): seq<seq<Span>>
  {
    Cluster(SortOn(spans, Y), 0.0)
  }

  /** The items of the comprehension `{y: sorted(g, key=x) for y, g in ...}`. */
  function RunPairs(runs: seq<seq<Span>>): (ps: seq<(real, seq<Span>)>)
    requires NonEmptyLines(runs)
    ensures |ps| == |runs|
    ensures forall j :: 0 <= j < |runs| ==> ps[j] == (runs[j][0].y, SortOn(runs[j], X))
  {
    seq(|runs|, j requires 0 <= j < |runs| => (runs[j][0].y, SortOn(runs[j], X)))
  }

  /** `spans_by_y` of `get_lens_values`. */
  function RunsByY(runs: seq<seq<Span>>): (d: Dict<real, seq<Span>>)
    requires NonEmptyLines(runs)
    ensures Valid(d)
  {
    SetAll(Empty(), RunPairs(runs))
  }

  /** The lines `get_lens_values` walks: the runs, each sorted by x. */
  function ExactLines(spans: seq<Span>): (lines: seq<seq<Span>>)
    ensures NonEmptyLines(lines) && |lines| == |Runs(spans)|
  {
    XSortedNonEmpty(Runs(spans));
    XSorted(Runs(spans))
  }

  /** Sorting keeps a line non-empty. */
  lemma XSortedNonEmpty(groups: seq<seq<Span>>)
    requires NonEmptyLines(groups)
    ensures NonEmptyLines(XSorted(groups))
  {
    forall j | 0 <= j < |groups|
      ensures XSorted(groups)[j] != []
    {
      SortOnSorted(groups[j], X);
    }
  }

  /** `min(keys)`. */
  function MinKey(keys: seq<real>): (m: real)
    requires keys != []
    ensures m in keys
    ensures forall i :: 0 <= i < |keys| ==> m <= keys[i]
  {
    if |keys| == 1 then keys[0]
    else
      var m := MinKey(keys[..|keys| - 1]);
      if keys[|keys| - 1] < m then keys[|keys| - 1] else m
  }

  // ---------------------------------------------------------------------
  // One line of the scan

  /** The scan state: the result so far, `iol_numbers_flag` and
      `iol_count`. */
  datatype LensState = LensState(results: Fields, reading: bool, count: nat)

  /** `float(v[0])` and `float(v[1])`, or None where either raises
      ValueError or the second span is missing (IndexError). */
  function TableRow(parse: FloatParser, v: seq<Span>): Option<(real, real)>
    requires v != []
  {
    match parse(v[0].text)
    case None => None
    case Some(iol) =>
      if |v| < 2 then None
      else
        match parse(v[1].text)
        case None => None
        case Some(ref) => Some((iol, ref))
  }

  predicate IsHeader(v: seq<Span>)
  {
    |v| >= 2 && v[0].text == IolHeader && v[1].text == RefHeader
  }

  /** The numeric-table part of one line. */
  function ReadRow(parse: FloatParser, st: LensState, v: seq<Span>): (r: LensState)
    requires Valid(st.results) && v != []
    ensures Valid(r.results)
  {
    if !st.reading then st
    else
      match TableRow(parse, v)
      case None => st.(reading := false)
      case Some((iol, ref)) =>
        var numbered := Set(Set(st.results, Indexed(IolStem, st.count), Num(iol)), Indexed(RefStem, st.count), Num(ref));
        var marked := if v[0].flags == BoldFlags then Set(Set(numbered, IolBoldKey, Num(iol)), RefBoldKey, Num(ref)) else numbered;
        LensState(marked, true, st.count + 1)
  }

  /** The label rules of one line: the key and value they store, nothing,
      or the IndexError of `v[1]` on a lone span ending in ":". */
  function Label(v: seq<Span>): Result<Option<(string, string)>>
    requires v != []
  {
    if EndsWith(v[0].text, ":") then
      if |v| < 2 then Err(IndexOutOfRange) else Ok(Some((DropLast(v[0].text), v[1].text)))
    else Ok(SplitOnce(v[0].text, LabelSeparator))
  }

  /** One iteration of the loop over `spans_by_y`. */
  function LensStep(parse: FloatParser, st: LensState, v: seq<Span>): (r: Result<LensState>)
    requires Valid(st.results) && v != []
    ensures r.Ok? ==> Valid(r.value.results)
  {
    var read := ReadRow(parse, st, v);
    var headed := if IsHeader(v) then read.(reading := true) else read;
    match Label(v)
    case Err(e) => Err(e)
    case Ok(None) => Ok(headed)
    case Ok(Some((k, t))) => Ok(headed.(results := Set(headed.results, k, Str(t))))
  }

  /** The loop over the lines, stopping at the first exception. */
  function LensRun(parse: FloatParser, lines: seq<seq<Span>>, init: LensState): (r: Result<LensState>)
    requires NonEmptyLines(lines) && Valid(init.results)
    ensures r.Ok? ==> Valid(r.value.results)
  {
    if lines == [] then Ok(init)
    else
      match LensRun(parse, lines[..|lines| - 1], init)
      case Err(e) => Err(e)
      case Ok(st) => LensStep(parse, st, lines[|lines| - 1])
  }

  /** The text the panel is named by: the first text of the topmost line. */
  function LensName(spans: seq<Span>): string
    requires spans != []
  {
    LinesNonEmpty(spans);
    ExactLines(spans)[0][0].text
  }

  lemma LinesNonEmpty(spans: seq<Span>)
    ensures NonEmptyLines(ExactLines(spans))
    ensures spans != [] ==> ExactLines(spans) != []
  {
    if spans != [] {
      ClusterNonEmpty(SortOn(spans, Y), 0.0);
    }
  }

  /** The state before the loop: only the name. */
  function Start(spans: seq<Span>): (st: LensState)
    requires spans != []
    ensures Valid(st.results)
  {
    LensState(Set(Empty(), NameKey, Str(LensName(spans))), false, 0)
  }

  /** The dictionary `get_lens_values` returns, or the exception it raises. */
  function LensValuesOf(parse: FloatParser, spans: seq<Span>): (r: Result<Fields>)
    ensures r.Ok? ==> Valid(r.value)
  {
    if spans == [] then Err(EmptyRegion)
    else
      LinesNonEmpty(spans);
      match LensRun(parse, ExactLines(spans), Start(spans))
      case Err(e) => Err(e)
      case Ok(st) => Ok(st.results)
  }

  // ---------------------------------------------------------------------
  // The method

  /** `get_lens_values`. */
  method GetLensValues(parse: FloatParser, spans: seq<Span>) returns (r: Result<Fields>)
    ensures r == LensValuesOf(parse, spans)
  {
    if spans == [] {
      return Err(EmptyRegion);
    }
    var lines, name := LensLines(spans);
    var scanned := ScanLens(parse, lines, LensState(Set(Empty(), NameKey, Str(name)), false, 0));
    if scanned.Err? {
      return Err(scanned.error);
    }
    r := Ok(scanned.value.results);
  }

  /** `spans_by_y` and `name` of `get_lens_values`. */
  method LensLines(spans: seq<Span>) returns (lines: seq<seq<Span>>, name: string)
    requires spans != []
    ensures NonEmptyLines(lines)
    ensures lines == ExactLines(spans) && name == LensName(spans)
  {
    var sorted := SortOn(spans, Y);
    var runs := Cluster(sorted, 0.0);
    var byY := RunsByY(runs);
    StartName(spans);
    lines := Values(byY);
    name := byY.entries[MinKey(byY.order)][0].text;
  }

  /** The loop of `get_lens_values` over the lines. */
  method ScanLens(parse: FloatParser, lines: seq<seq<Span>>, init: LensState) returns (r: Result<LensState>)
    requires NonEmptyLines(lines) && Valid(init.results)
    ensures r == LensRun(parse, lines, init)
  {
    var st := init;
    for j := 0 to |lines|
      invariant LensRun(parse, lines[..j], init) == Ok(st)
    {
      LensRunStep(parse, lines, j, init);
      var next := ScanLensLine(parse, st, lines[j]);
      if next.Err? {
        LensRunStops(parse, lines, j + 1, init);
        return next;
      }
      st := next.value;
    }
    assert lines[..|lines|] == lines;
    r := Ok(st);
  }

  /** What the method computes before its loop: the lines and the name. */
  lemma StartName(spans: seq<Span>)
    requires spans != []
    ensures NonEmptyLines(Runs(spans)) && NonEmptyLines(ExactLines(spans))
    ensures Values(RunsByY(Runs(spans))) == ExactLines(spans)
    ensures RunsByY(Runs(spans)).order != []
    ensures MinKey(RunsByY(Runs(spans)).order) in RunsByY(Runs(spans)).entries
    ensures RunsByY(Runs(spans)).entries[MinKey(RunsByY(Runs(spans)).order)] != []
    ensures RunsByY(Runs(spans)).entries[MinKey(RunsByY(Runs(spans)).order)][0].text == LensName(spans)
  {
    LinesNonEmpty(spans);
    RunsByYLines(spans);
    var d := RunsByY(Runs(spans));
    assert d.entries[d.order[0]] == Values(d)[0];
  }

  /** One iteration of the loop: the table row, the header, the labels. */
  method ScanLensLine(parse: FloatParser, st: LensState, v: seq<Span>) returns (r: Result<LensState>)
    requires Valid(st.results) && v != []
    ensures r == LensStep(parse, st, v)
  {
    var read := ReadTableRow(parse, st, v);
    if |v| >= 2 && v[0].text == IolHeader && v[1].text == RefHeader {
      read := read.(reading := true);
    }
    r := ApplyLabel(read, v);
  }

  /** An exception ends the loop: the later lines change nothing. */
  lemma {:induction false} LensRunStops(parse: FloatParser, lines: seq<seq<Span>>, j: nat, init: LensState)
    requires NonEmptyLines(lines) && Valid(init.results) && j <= |lines|
    requires LensRun(parse, lines[..j], init).Err?
    ensures LensRun(parse, lines, init) == LensRun(parse, lines[..j], init)
    decreases |lines|
  {
    if j < |lines| {
      var init' := lines[..|lines| - 1];
      assert init'[..j] == lines[..j];
      LensRunStops(parse, init', j, init);
    } else {
      assert lines[..j] == lines;
    }
  }

  lemma LensRunStep(parse: FloatParser, lines: seq<seq<Span>>, j: nat, init: LensState)
    requires NonEmptyLines(lines) && Valid(init.results) && j < |lines|
    ensures NonEmptyLines(lines[..j]) && NonEmptyLines(lines[..j + 1])
    ensures LensRun(parse, lines[..j + 1], init) ==
              match LensRun(parse, lines[..j], init)
              case Err(e) => Err(e)
              case Ok(st) => LensStep(parse, st, lines[j])
  {
    assert lines[..j + 1][..j] == lines[..j];
  }

  /** The label rules: `key:` and the next span, else `key: value` split at
      the first ": ". */
  method ApplyLabel(st: LensState, v: seq<Span>) returns (r: Result<LensState>)
    requires Valid(st.results) && v != []
    ensures r == match Label(v)
                 case Err(e) => Err(e)
                 case Ok(None) => Ok(st)
                 case Ok(Some((k, t))) => Ok(st.(results := Set(st.results, k, Str(t))))
  {
    if EndsWith(v[0].text, ":") {
      if |v| < 2 {
        return Err(IndexOutOfRange);
      }
      return Ok(st.(results := Set(st.results, DropLast(v[0].text), Str(v[1].text))));
    }
    var parts := SplitOnce(v[0].text, LabelSeparator);
    if parts.Some? {
      return Ok(st.(results := Set(st.results, parts.value.0, Str(parts.value.1))));
    }
    return Ok(st);
  }

  /** The `try` block of the table: parse both numbers, store them, count
      the row and mark it when bold; any failure ends the table. */
  method ReadTableRow(parse: FloatParser, st: LensState, v: seq<Span>) returns (next: LensState)
    requires Valid(st.results) && v != []
    ensures next == ReadRow(parse, st, v)
  {
    next := st;
    if st.reading {
      var iol := parse(v[0].text);
      if iol.None? || |v| < 2 {
        next := next.(reading := false);
        return;
      }
      var ref := parse(v[1].text);
      if ref.None? {
        next := next.(reading := false);
        return;
      }
      var results := Set(st.results, Indexed(IolStem, st.count), Num(iol.value));
      results := Set(results, Indexed(RefStem, st.count), Num(ref.value));
      if v[0].flags == BoldFlags {
        results := Set(results, IolBoldKey, Num(iol.value));
        results := Set(results, RefBoldKey, Num(ref.value));
      }
      next := LensState(results, true, st.count + 1);
    }
  }

  /** The comprehension keys the lines by their y, which are distinct and
      ascending, so its values are the x-sorted runs in order and its
      smallest key is the first run's y. */
  lemma RunsByYLines(spans: seq<Span>)
    ensures NonEmptyLines(Runs(spans))
    ensures Values(RunsByY(Runs(spans))) == ExactLines(spans)
    ensures spans != [] ==> RunsByY(Runs(spans)).order != [] && RunsByY(Runs(spans)).order[0] == Runs(spans)[0][0].y
    ensures spans != [] ==> RunsByY(Runs(spans)).order != [] && MinKey(RunsByY(Runs(spans)).order) == Runs(spans)[0][0].y
  {
    var runs: seq<seq<Span>> := Runs(spans);
    var ps := RunPairs(runs);
    RunKeysDistinct(spans);
    DistinctPairsDict(ps);
    var d := RunsByY(runs);
    assert |d.order| == |runs|;
    if spans != [] {
      ClusterNonEmpty(SortOn(spans, Y), 0.0);
      RunKeysAscend(spans);
    }
  }

  lemma RunKeysDistinct(spans: seq<Span>)
    ensures NonEmptyLines(Runs(spans))
    ensures forall a, b :: 0 <= a < b < |Runs(spans)| ==> Runs(spans)[a][0].y < Runs(spans)[b][0].y
  {
    var runs: seq<seq<Span>> := Runs(spans);
    SortOnSorted(spans, Y);
    ClusterAnchorsRise(SortOn(spans, Y), 0.0);
    forall a: nat, b: nat | a < b < |runs|
      ensures runs[a][0].y < runs[b][0].y
    {
      AnchorsAscend(runs, 0.0, a, b);
    }
  }

  lemma RunKeysAscend(spans: seq<Span>)
    requires spans != []
    ensures Runs(spans) != [] && NonEmptyLines(Runs(spans))
    ensures forall i :: 0 <= i < |Runs(spans)| ==> Runs(spans)[0][0].y <= Runs(spans)[i][0].y
  {
    RunKeysDistinct(spans);
    SortOnSorted(spans, Y);
    ClusterNonEmpty(SortOn(spans, Y), 0.0);
  }
}
