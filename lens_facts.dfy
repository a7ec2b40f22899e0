/** What `get_lens_values` promises about the dictionary it builds: the
    numeric table (`iol_n`, `ref_n` contiguous from 0 while the table is on,
    the last bold row in `iolbold` / `refbold`), the label rules, the name,
    and the two exceptions it can raise. The table is described
    declaratively: a line is read as a row when some earlier line is the
    `IOL (D)` / `REF (D)` header and every line after that header parsed as
    a row. */
module LensFacts {
  import opened Basics
  import opened Dicts
  import opened Layout
  import opened Sorting
  import opened Lines
  import opened Records
  import opened KeyValues
  import opened LensTable

  // ---------------------------------------------------------------------
  // The table, declaratively

  /** A row of the numeric table: the two numbers and whether the line's
      first span is bold. */
  datatype TableLine = TableLine(iol: real, ref: real, bold: bool)

  /** After `lines`, the table is on: some line was the header, and every
      line after the last such header parsed as a row. */
  predicate TableOn(parse: FloatParser, lines: seq<seq<Span>>)
    requires NonEmptyLines(lines)
  {
    exists h :: 0 <= h < |lines| && IsHeader(lines[h]) && forall m :: h < m < |lines| ==> TableRow(parse, lines[m]).Some?
  }

  /** The row line `v` yields, if it parses. */
  function RowOf(parse: FloatParser, v: seq<Span>): seq<TableLine>
    requires v != []
  {
    match TableRow(parse, v)
    case None => []
    case Some((iol, ref)) => [TableLine(iol, ref, v[0].flags == BoldFlags)]
  }

  /** The rows read from `lines`: each line that parses while the table is
      on. */
  function TableRows(parse: FloatParser, lines: seq<seq<Span>>): seq<TableLine>
    requires NonEmptyLines(lines)
  {
    if lines == [] then []
    else
      var init := lines[..|lines| - 1];
      TableRows(parse, init) + (if TableOn(parse, init) then RowOf(parse, lines[|lines| - 1]) else [])
  }

  /** The last bold row. */
  function LastBold(rows: seq<TableLine>): Option<TableLine>
  {
    if rows == [] then None
    else if rows[|rows| - 1].bold then Some(rows[|rows| - 1])
    else LastBold(rows[..|rows| - 1])
  }

  /** One of the two table columns, by the stem of its keys. */
  function Column(row: TableLine, stem: string): real
  {
    if stem == IolStem then row.iol else row.ref
  }

  function BoldKey(stem: string): string
  {
    if stem == IolStem then IolBoldKey else RefBoldKey
  }

  /** The keys the table writes. */
  ghost predicate IsTableKey(k: string)
  {
    k == IolBoldKey || k == RefBoldKey || exists n: nat :: k == Indexed(IolStem, n) || k == Indexed(RefStem, n)
  }

  /** The label rules of line `v` store a value under `k`. */
  predicate LabelWrites(v: seq<Span>, k: string)
    requires v != []
  {
    Label(v).Ok? && Label(v).value.Some? && Label(v).value.value.0 == k
  }

  predicate NoLabelWrites(lines: seq<seq<Span>>, k: string)
  {
    forall j :: 0 <= j < |lines| && lines[j] != [] ==> !LabelWrites(lines[j], k)
  }

  // ---------------------------------------------------------------------
  // The table mode

  /** The flag after one more line: a header turns it on; otherwise it stays
      on exactly while the lines parse. */
  lemma TableOnStep(parse: FloatParser, lines: seq<seq<Span>>)
    requires NonEmptyLines(lines) && lines != []
    ensures TableOn(parse, lines) <==>
              IsHeader(lines[|lines| - 1])
              || (TableOn(parse, lines[..|lines| - 1]) && TableRow(parse, lines[|lines| - 1]).Some?)
  {
    var last := |lines| - 1;
    if IsHeader(lines[last]) {
      assert 0 <= last < |lines| && IsHeader(lines[last]);
    } else if TableOn(parse, lines) {
      TableOnDrop(parse, lines);
    }
    if TableOn(parse, lines[..last]) && TableRow(parse, lines[last]).Some? {
      TableOnGrow(parse, lines);
    }
  }

  /** A table still on after a line that is no header was on before it, and
      the line parses. */
  lemma TableOnDrop(parse: FloatParser, lines: seq<seq<Span>>)
    requires NonEmptyLines(lines) && lines != [] && TableOn(parse, lines) && !IsHeader(lines[|lines| - 1])
    ensures TableOn(parse, lines[..|lines| - 1]) && TableRow(parse, lines[|lines| - 1]).Some?
  {
    var last := |lines| - 1;
    var init := lines[..last];
    var h :| 0 <= h < |lines| && IsHeader(lines[h]) && forall m :: h < m < |lines| ==> TableRow(parse, lines[m]).Some?;
    assert h < last && init[h] == lines[h];
    forall m | h < m < |init|
      ensures TableRow(parse, init[m]).Some?
    {
      assert init[m] == lines[m];
    }
  }

  /** A table on stays on over a line that parses. */
  lemma TableOnGrow(parse: FloatParser, lines: seq<seq<Span>>)
    requires NonEmptyLines(lines) && lines != []
    requires TableOn(parse, lines[..|lines| - 1]) && TableRow(parse, lines[|lines| - 1]).Some?
    ensures TableOn(parse, lines)
  {
    var last := |lines| - 1;
    var init := lines[..last];
    var h :| 0 <= h < |init| && IsHeader(init[h]) && forall m :: h < m < |init| ==> TableRow(parse, init[m]).Some?;
    assert lines[h] == init[h];
    forall m | h < m < |lines|
      ensures TableRow(parse, lines[m]).Some?
    {
      if m < last {
        assert lines[m] == init[m];
      }
    }
  }

  /** The scan's `iol_numbers_flag` and `iol_count` agree with the
      declarative table. */
  lemma {:induction false} LensRunTable(parse: FloatParser, lines: seq<seq<Span>>, init: LensState)
    requires NonEmptyLines(lines) && Valid(init.results) && !init.reading && init.count == 0
    requires LensRun(parse, lines, init).Ok?
    ensures LensRun(parse, lines, init).value.reading == TableOn(parse, lines)
    ensures LensRun(parse, lines, init).value.count == |TableRows(parse, lines)|
  {
    if lines != [] {
      var pre := lines[..|lines| - 1];
      LensRunTable(parse, pre, init);
      TableOnStep(parse, lines);
    }
  }

  /** Without a header no row is ever read. */
  lemma {:induction false} NoHeaderNoRows(parse: FloatParser, lines: seq<seq<Span>>)
    requires NonEmptyLines(lines)
    requires forall j :: 0 <= j < |lines| ==> !IsHeader(lines[j])
    ensures !TableOn(parse, lines) && TableRows(parse, lines) == []
  {
    if lines != [] {
      NoHeaderNoRows(parse, lines[..|lines| - 1]);
    }
  }

  /** The first line that does not parse ends the table: unless a later
      header starts it again, no line after it is read. */
  lemma FailureEndsTable(parse: FloatParser, lines: seq<seq<Span>>, f: nat)
    requires NonEmptyLines(lines) && f < |lines|
    requires TableRow(parse, lines[f]).None?
    requires forall h :: f <= h < |lines| ==> !IsHeader(lines[h])
    ensures !TableOn(parse, lines)
  {
  }

  /** `LastBold` is the bold row after which no row is bold. */
  lemma {:induction false} LastBoldIsLast(rows: seq<TableLine>)
    ensures LastBold(rows).None? <==> forall i :: 0 <= i < |rows| ==> !rows[i].bold
    ensures LastBold(rows).Some? ==>
              exists i :: 0 <= i < |rows| && rows[i] == LastBold(rows).value && rows[i].bold
                          && forall j :: i < j < |rows| ==> !rows[j].bold
  {
    if rows != [] {
      var init := rows[..|rows| - 1];
      LastBoldIsLast(init);
      if !rows[|rows| - 1].bold && LastBold(init).Some? {
        var i :| 0 <= i < |init| && init[i] == LastBold(init).value && init[i].bold
                 && forall j :: i < j < |init| ==> !init[j].bold;
        assert rows[i] == init[i];
      }
    }
  }

  // ---------------------------------------------------------------------
  // One line

  /** The entries after the table part of one line. */
  function TableEntries(parse: FloatParser, st: LensState, v: seq<Span>): map<string, Value>
    requires v != []
  {
    var m := st.results.entries;
    if !st.reading then m
    else
      match TableRow(parse, v)
      case None => m
      case Some((iol, ref)) =>
        var numbered := m[Indexed(IolStem, st.count) := Num(iol)][Indexed(RefStem, st.count) := Num(ref)];
        if v[0].flags == BoldFlags then numbered[IolBoldKey := Num(iol)][RefBoldKey := Num(ref)] else numbered
  }

  /** The entries after the label part of one line. */
  function LabelEntries(v: seq<Span>, m: map<string, Value>): map<string, Value>
    requires v != []
  {
    match Label(v)
    case Ok(Some((k, t))) => m[k := Str(t)]
    case _ => m
  }

  /** What one line does to the scan state. */
  lemma LensStepFacts(parse: FloatParser, st: LensState, v: seq<Span>)
    requires Valid(st.results) && v != [] && LensStep(parse, st, v).Ok?
    ensures LensStep(parse, st, v).value.reading == (IsHeader(v) || (st.reading && TableRow(parse, v).Some?))
    ensures LensStep(parse, st, v).value.count == st.count + (if st.reading then |RowOf(parse, v)| else 0)
    ensures LensStep(parse, st, v).value.results.entries == LabelEntries(v, TableEntries(parse, st, v))
  {
    ReadRowFacts(parse, st, v);
  }

  /** What the numeric-table part of one line does to the scan state. */
  lemma ReadRowFacts(parse: FloatParser, st: LensState, v: seq<Span>)
    requires Valid(st.results) && v != []
    ensures ReadRow(parse, st, v).reading == (st.reading && TableRow(parse, v).Some?)
    ensures ReadRow(parse, st, v).count == st.count + (if st.reading then |RowOf(parse, v)| else 0)
    ensures ReadRow(parse, st, v).results.entries == TableEntries(parse, st, v)
  {
  }

  /** The prefix before the last line was scanned without an exception. */
  lemma LensRunLast(parse: FloatParser, lines: seq<seq<Span>>, init: LensState)
    requires NonEmptyLines(lines) && Valid(init.results) && lines != []
    requires LensRun(parse, lines, init).Ok?
    ensures NonEmptyLines(lines[..|lines| - 1])
    ensures LensRun(parse, lines[..|lines| - 1], init).Ok?
    ensures LensStep(parse, LensRun(parse, lines[..|lines| - 1], init).value, lines[|lines| - 1]).Ok?
    ensures LensRun(parse, lines, init) == LensStep(parse, LensRun(parse, lines[..|lines| - 1], init).value, lines[|lines| - 1])
  {
  }

  // ---------------------------------------------------------------------
  // Keys

  lemma TableKeysApart(stem: string, n: nat)
    requires stem == IolStem || stem == RefStem
    ensures Indexed(stem, n) != IolBoldKey && Indexed(stem, n) != RefBoldKey && Indexed(stem, n) != NameKey
  {
    var k := Indexed(stem, n);
    assert k[3] == '_' && |k| >= 5;
  }

  lemma NameIsNoTableKey()
    ensures !IsTableKey(NameKey)
  {
    forall n: nat
      ensures NameKey != Indexed(IolStem, n) && NameKey != Indexed(RefStem, n)
    {
      TableKeysApart(IolStem, n);
      TableKeysApart(RefStem, n);
    }
  }

  /** A key the label rules of `v` do not store is left as it was. */
  lemma LabelEntriesOther(v: seq<Span>, m: map<string, Value>, k: string)
    requires v != [] && !LabelWrites(v, k)
    ensures k in LabelEntries(v, m) <==> k in m
    ensures k in m ==> LabelEntries(v, m)[k] == m[k]
  {
  }

  lemma LabelEntriesWrite(v: seq<Span>, m: map<string, Value>, k: string, t: string)
    requires v != [] && Label(v) == Ok(Some((k, t)))
    ensures LabelEntries(v, m) == m[k := Str(t)]
  {
  }

  /** A key other than the four a table row writes is left as it was. */
  lemma TableEntriesOther(parse: FloatParser, st: LensState, v: seq<Span>, k: string)
    requires v != []
    requires k != Indexed(IolStem, st.count) && k != Indexed(RefStem, st.count) && k != IolBoldKey && k != RefBoldKey
    ensures k in TableEntries(parse, st, v) <==> k in st.results.entries
    ensures k in st.results.entries ==> TableEntries(parse, st, v)[k] == st.results.entries[k]
  {
  }

  /** Without a row read, the table part leaves the entries alone. */
  lemma TableEntriesNoRow(parse: FloatParser, st: LensState, v: seq<Span>)
    requires v != [] && (!st.reading || TableRow(parse, v).None?)
    ensures TableEntries(parse, st, v) == st.results.entries
    ensures RowOf(parse, v) == [] || !st.reading
  {
  }

  /** A row read stores its numbers under the current counter. */
  lemma TableEntriesRow(parse: FloatParser, st: LensState, v: seq<Span>, stem: string)
    requires v != [] && st.reading && TableRow(parse, v).Some?
    requires stem == IolStem || stem == RefStem
    ensures |RowOf(parse, v)| == 1
    ensures Indexed(stem, st.count) in TableEntries(parse, st, v)
    ensures TableEntries(parse, st, v)[Indexed(stem, st.count)] == Num(Column(RowOf(parse, v)[0], stem))
  {
    TableKeysApart(stem, st.count);
    if stem == IolStem {
      if Indexed(IolStem, st.count) == Indexed(RefStem, st.count) {
        IndexedInjective(IolStem, st.count, RefStem, st.count);
      }
    }
  }

  /** The state before the last line, and what the last line does to it. */
  lemma LensRunSplit(parse: FloatParser, lines: seq<seq<Span>>, init: LensState) returns (st: LensState, v: seq<Span>)
    requires NonEmptyLines(lines) && Valid(init.results) && lines != []
    requires LensRun(parse, lines, init).Ok?
    ensures NonEmptyLines(lines[..|lines| - 1]) && v == lines[|lines| - 1] && v != []
    ensures LensRun(parse, lines[..|lines| - 1], init) == Ok(st) && Valid(st.results)
    ensures LensRun(parse, lines, init).value.reading == (IsHeader(v) || (st.reading && TableRow(parse, v).Some?))
    ensures LensRun(parse, lines, init).value.count == st.count + (if st.reading then |RowOf(parse, v)| else 0)
    ensures LensRun(parse, lines, init).value.results.entries == LabelEntries(v, TableEntries(parse, st, v))
  {
    LensRunLast(parse, lines, init);
    st := LensRun(parse, lines[..|lines| - 1], init).value;
    v := lines[|lines| - 1];
    LensStepFacts(parse, st, v);
  }

  /** `iol_n` and `ref_n` exist exactly for the rows read, numbered from 0
      in reading order, each holding its row's number, unless a label line
      stores the same key. */
  lemma {:induction false} LensRunTableKey(parse: FloatParser, lines: seq<seq<Span>>, init: LensState, stem: string, n: nat)
    requires NonEmptyLines(lines) && Valid(init.results) && !init.reading && init.count == 0
    requires stem == IolStem || stem == RefStem
    requires Indexed(stem, n) !in init.results.entries && NoLabelWrites(lines, Indexed(stem, n))
    requires LensRun(parse, lines, init).Ok?
    ensures n < |TableRows(parse, lines)| ==>
              Indexed(stem, n) in LensRun(parse, lines, init).value.results.entries
              && LensRun(parse, lines, init).value.results.entries[Indexed(stem, n)] == Num(Column(TableRows(parse, lines)[n], stem))
    ensures n >= |TableRows(parse, lines)| ==> Indexed(stem, n) !in LensRun(parse, lines, init).value.results.entries
  {
    if lines != [] {
      var pre := lines[..|lines| - 1];
      var st, v := LensRunSplit(parse, lines, init);
      LensRunTable(parse, pre, init);
      LensRunTableKey(parse, pre, init, stem, n);
      var k := Indexed(stem, n);
      TableKeysApart(stem, n);
      assert !LabelWrites(lines[|lines| - 1], k);
      var m := TableEntries(parse, st, v);
      LabelEntriesOther(v, m, k);
      var rows := TableRows(parse, pre);
      var added := if st.reading then RowOf(parse, v) else [];
      assert TableRows(parse, lines) == rows + added;
      var other := if stem == IolStem then RefStem else IolStem;
      if k == Indexed(other, st.count) {
        IndexedInjective(stem, n, other, st.count);
      }
      if n == st.count {
        if st.reading && TableRow(parse, v).Some? {
          TableEntriesRow(parse, st, v, stem);
          assert (rows + added)[n] == added[0];
        } else {
          TableEntriesNoRow(parse, st, v);
          assert rows + added == rows;
        }
      } else {
        if k == Indexed(stem, st.count) {
          IndexedInjective(stem, n, stem, st.count);
        }
        TableEntriesOther(parse, st, v, k);
        if n < |rows| {
          assert (rows + added)[n] == rows[n];
        }
      }
    }
  }

  /** `iolbold` / `refbold` hold the numbers of the last bold row read, and
      exist only when some row read was bold. */
  lemma {:induction false} LensRunBoldKey(parse: FloatParser, lines: seq<seq<Span>>, init: LensState, stem: string)
    requires NonEmptyLines(lines) && Valid(init.results) && !init.reading && init.count == 0
    requires stem == IolStem || stem == RefStem
    requires BoldKey(stem) !in init.results.entries && NoLabelWrites(lines, BoldKey(stem))
    requires LensRun(parse, lines, init).Ok?
    ensures LastBold(TableRows(parse, lines)).Some? ==>
              BoldKey(stem) in LensRun(parse, lines, init).value.results.entries
              && LensRun(parse, lines, init).value.results.entries[BoldKey(stem)] == Num(Column(LastBold(TableRows(parse, lines)).value, stem))
    ensures LastBold(TableRows(parse, lines)).None? ==> BoldKey(stem) !in LensRun(parse, lines, init).value.results.entries
  {
    if lines != [] {
      var pre := lines[..|lines| - 1];
      var st, v := LensRunSplit(parse, lines, init);
      LensRunTable(parse, pre, init);
      LensRunBoldKey(parse, pre, init, stem);
      var k := BoldKey(stem);
      assert !LabelWrites(lines[|lines| - 1], k);
      LabelEntriesOther(v, TableEntries(parse, st, v), k);
      TableEntriesBold(parse, st, v, stem);
      var rows := TableRows(parse, pre);
      var added := if st.reading then RowOf(parse, v) else [];
      assert TableRows(parse, lines) == rows + added;
      if added == [] {
        assert rows + added == rows;
      } else {
        assert (rows + added)[..|rows|] == rows;
      }
    }
  }

  /** A bold row read stores its numbers under the bold keys; any other line
      leaves them alone. */
  lemma TableEntriesBold(parse: FloatParser, st: LensState, v: seq<Span>, stem: string)
    requires v != [] && (stem == IolStem || stem == RefStem)
    ensures |RowOf(parse, v)| <= 1
    ensures st.reading && RowOf(parse, v) != [] && RowOf(parse, v)[0].bold ==>
              BoldKey(stem) in TableEntries(parse, st, v)
              && TableEntries(parse, st, v)[BoldKey(stem)] == Num(Column(RowOf(parse, v)[0], stem))
    ensures !(st.reading && RowOf(parse, v) != [] && RowOf(parse, v)[0].bold) ==>
              (BoldKey(stem) in TableEntries(parse, st, v) <==> BoldKey(stem) in st.results.entries)
              && (BoldKey(stem) in st.results.entries ==> TableEntries(parse, st, v)[BoldKey(stem)] == st.results.entries[BoldKey(stem)])
  {
    TableKeysApart(IolStem, st.count);
    TableKeysApart(RefStem, st.count);
  }

  /** A label key that no table row can write holds the value of the last
      line whose label rules store it. */
  lemma {:induction false} LensRunLabel(parse: FloatParser, lines: seq<seq<Span>>, init: LensState, j: nat, k: string, t: string)
    requires NonEmptyLines(lines) && Valid(init.results) && j < |lines|
    requires Label(lines[j]) == Ok(Some((k, t))) && !IsTableKey(k)
    requires forall m :: j < m < |lines| ==> !LabelWrites(lines[m], k)
    requires LensRun(parse, lines, init).Ok?
    ensures k in LensRun(parse, lines, init).value.results.entries
    ensures LensRun(parse, lines, init).value.results.entries[k] == Str(t)
  {
    var pre := lines[..|lines| - 1];
    var st, v := LensRunSplit(parse, lines, init);
    assert k != Indexed(IolStem, st.count) && k != Indexed(RefStem, st.count);
    TableEntriesOther(parse, st, v, k);
    if j < |pre| {
      assert pre[j] == lines[j];
      LensRunLabel(parse, pre, init, j, k, t);
      assert !LabelWrites(lines[|lines| - 1], k);
      LabelEntriesOther(v, TableEntries(parse, st, v), k);
    } else {
      LabelEntriesWrite(v, TableEntries(parse, st, v), k, t);
    }
  }

  /** A key that neither a table row nor a label writes keeps the value it
      had before the scan, or stays absent. */
  lemma {:induction false} LensRunFrame(parse: FloatParser, lines: seq<seq<Span>>, init: LensState, k: string)
    requires NonEmptyLines(lines) && Valid(init.results)
    requires !IsTableKey(k) && NoLabelWrites(lines, k)
    requires LensRun(parse, lines, init).Ok?
    ensures k in init.results.entries ==>
              k in LensRun(parse, lines, init).value.results.entries
              && LensRun(parse, lines, init).value.results.entries[k] == init.results.entries[k]
    ensures k !in init.results.entries ==> k !in LensRun(parse, lines, init).value.results.entries
  {
    if lines != [] {
      var pre := lines[..|lines| - 1];
      var st, v := LensRunSplit(parse, lines, init);
      LensRunFrame(parse, pre, init, k);
      assert k != Indexed(IolStem, st.count) && k != Indexed(RefStem, st.count);
      TableEntriesOther(parse, st, v, k);
      assert !LabelWrites(lines[|lines| - 1], k);
      LabelEntriesOther(v, TableEntries(parse, st, v), k);
    }
  }

  // ---------------------------------------------------------------------
  // The lines are the groups of equal y

  /** The spans of the runs of `c` whose first span has y `y`, in order. */
  function RunsWith(c: seq<seq<Span>>, y: real): seq<Span>
    requires NonEmptyLines(c)
  {
    if c == [] then [] else RunsWith(c[..|c| - 1], y) + (if c[|c| - 1][0].y == y then c[|c| - 1] else [])
  }

  predicate Uniform(c: seq<seq<Span>>)
    requires NonEmptyLines(c)
  {
    forall j, k :: 0 <= j < |c| && 0 <= k < |c[j]| ==> c[j][k].y == c[j][0].y
  }

  lemma {:induction false} WithKeyUniform(g: seq<Span>, y: real)
    requires g != [] && forall k :: 0 <= k < |g| ==> g[k].y == g[0].y
    ensures WithKey(g, Y, y) == if g[0].y == y then g else []
  {
    var init := g[..|g| - 1];
    if init != [] {
      WithKeyUniform(init, y);
    }
  }

  lemma {:induction false} WithKeyConcat(c: seq<seq<Span>>, y: real)
    requires NonEmptyLines(c) && Uniform(c)
    ensures WithKey(Concat(c), Y, y) == RunsWith(c, y)
  {
    if c != [] {
      var init, last := c[..|c| - 1], c[|c| - 1];
      assert c == init + [last];
      WithKeyConcat(init, y);
      ConcatSnoc(init, last);
      WithKeyAppend(Concat(init), last, Y, y);
      WithKeyUniform(last, y);
    }
  }

  lemma {:induction false} RunsWithAbsent(c: seq<seq<Span>>, y: real)
    requires NonEmptyLines(c) && forall j :: 0 <= j < |c| ==> c[j][0].y != y
    ensures RunsWith(c, y) == []
  {
    if c != [] {
      RunsWithAbsent(c[..|c| - 1], y);
    }
  }

  lemma {:induction false} RunsWithOne(c: seq<seq<Span>>, j: nat)
    requires NonEmptyLines(c) && j < |c|
    requires forall a, b :: 0 <= a < b < |c| ==> c[a][0].y < c[b][0].y
    ensures RunsWith(c, c[j][0].y) == c[j]
  {
    var init := c[..|c| - 1];
    if j == |c| - 1 {
      RunsWithAbsent(init, c[j][0].y);
    } else {
      RunsWithOne(init, j);
    }
  }

  /** Membership in `WithKey`. */
  lemma {:induction false} WithKeyMembers(s: seq<Span>, y: real, e: Span)
    ensures e in WithKey(s, Y, y) <==> e in s && e.y == y
  {
    if s != [] {
      var init := s[..|s| - 1];
      WithKeyMembers(init, y, e);
      assert s == init + [s[|s| - 1]];
    }
  }

  /** Every run of `groupby` is the sub-sequence of the spans with its y,
      in input order, and every span's y has a run. */
  lemma RunsAreGroups(spans: seq<Span>)
    ensures NonEmptyLines(Runs(spans))
    ensures forall j :: 0 <= j < |Runs(spans)| ==> Runs(spans)[j] == WithKey(spans, Y, Runs(spans)[j][0].y)
  {
    var runs: seq<seq<Span>> := Runs(spans);
    GroupsOfRuns(spans);
    forall j | 0 <= j < |runs|
      ensures runs[j] == WithKey(spans, Y, runs[j][0].y)
    {
      RunsWithOne(runs, j);
    }
  }

  lemma GroupsOfRuns(spans: seq<Span>)
    ensures NonEmptyLines(Runs(spans)) && Uniform(Runs(spans))
    ensures forall a, b :: 0 <= a < b < |Runs(spans)| ==> Runs(spans)[a][0].y < Runs(spans)[b][0].y
    ensures forall y :: WithKey(spans, Y, y) == RunsWith(Runs(spans), y)
  {
    var sorted := SortOn(spans, Y);
    var runs: seq<seq<Span>> := Runs(spans);
    RunKeysDistinct(spans);
    ClusterWithinAnchor(sorted, 0.0);
    assert Uniform(runs) by {
      forall j, k | 0 <= j < |runs| && 0 <= k < |runs[j]|
        ensures runs[j][k].y == runs[j][0].y
      {
        assert Abs(runs[j][k].y - runs[j][0].y) <= 0.0;
      }
    }
    ClusterConcat(sorted, 0.0);
    forall y
      ensures WithKey(spans, Y, y) == RunsWith(runs, y)
    {
      SortOnStable(spans, Y, y);
      WithKeyConcat(runs, y);
    }
  }

  /** The run a span of the input lies in. */
  lemma RunOf(spans: seq<Span>, s: Span) returns (j: nat)
    requires s in spans
    ensures NonEmptyLines(Runs(spans)) && j < |Runs(spans)|
    ensures Runs(spans)[j][0].y == s.y && Runs(spans)[j] == WithKey(spans, Y, s.y)
  {
    var runs: seq<seq<Span>> := Runs(spans);
    GroupsOfRuns(spans);
    RunsAreGroups(spans);
    WithKeyMembers(spans, s.y, s);
    if forall k :: 0 <= k < |runs| ==> runs[k][0].y != s.y {
      RunsWithAbsent(runs, s.y);
      assert false;
    }
    j :| 0 <= j < |runs| && runs[j][0].y == s.y;
  }

  // ---------------------------------------------------------------------
  // Exceptions

  /** `v[1]` raises on a line whose only span ends with ":". */
  lemma LabelError(v: seq<Span>)
    requires v != []
    ensures Label(v).Err? <==> |v| == 1 && EndsWith(v[0].text, ":")
    ensures Label(v).Err? ==> Label(v).error == IndexOutOfRange
  {
  }

  /** The scan raises only at a line whose label rules raise, and always
      the IndexError. */
  lemma {:induction false} LensRunErrLine(parse: FloatParser, lines: seq<seq<Span>>, init: LensState) returns (j: nat)
    requires NonEmptyLines(lines) && Valid(init.results)
    requires LensRun(parse, lines, init).Err?
    ensures j < |lines| && Label(lines[j]).Err?
    ensures LensRun(parse, lines, init).error == IndexOutOfRange
  {
    if lines == [] {
      assert false;
    }
    var pre := lines[..|lines| - 1];
    if LensRun(parse, pre, init).Err? {
      j := LensRunErrLine(parse, pre, init);
      assert pre[j] == lines[j];
    } else {
      j := |lines| - 1;
      LabelError(lines[j]);
    }
  }

  /** A line whose label rules raise stops the scan with that exception. */
  lemma {:induction false} LensRunErrFrom(parse: FloatParser, lines: seq<seq<Span>>, init: LensState, j: nat)
    requires NonEmptyLines(lines) && Valid(init.results)
    requires j < |lines| && Label(lines[j]).Err?
    ensures LensRun(parse, lines, init).Err?
  {
    var n: nat := |lines| - 1;
    var pre := lines[..n];
    LensRunSnoc(parse, lines, init);
    if j < n {
      assert pre[j] == lines[j];
      LensRunErrFrom(parse, pre, init, j);
    }
  }

  /** The scan raises once its prefix raises, or else when the last line
      raises in its label rules. */
  lemma LensRunSnoc(parse: FloatParser, lines: seq<seq<Span>>, init: LensState)
    requires NonEmptyLines(lines) && Valid(init.results) && lines != []
    ensures NonEmptyLines(lines[..|lines| - 1])
    ensures LensRun(parse, lines[..|lines| - 1], init).Err? ==> LensRun(parse, lines, init).Err?
    ensures Label(lines[|lines| - 1]).Err? ==> LensRun(parse, lines, init).Err?
  {
  }

  /** A span ending in ":" that is alone on its y. */
  predicate LoneLabel(spans: seq<Span>, s: Span)
  {
    s in spans && EndsWith(s.text, ":") && WithKey(spans, Y, s.y) == [s]
  }

  /** The line of a lone span is that span. */
  lemma LoneLine(spans: seq<Span>, j: nat)
    requires NonEmptyLines(Runs(spans)) && j < |Runs(spans)|
    ensures NonEmptyLines(ExactLines(spans)) && j < |ExactLines(spans)|
    ensures |ExactLines(spans)[j]| == |Runs(spans)[j]|
    ensures |Runs(spans)[j]| == 1 ==> ExactLines(spans)[j] == Runs(spans)[j]
  {
    LinesNonEmpty(spans);
    SortOnSorted(Runs(spans)[j], X);
    if |Runs(spans)[j]| == 1 {
      SortOnIdentity(Runs(spans)[j], X);
    }
  }

  /** `assert spans`: the empty region is the only cause of the assertion
      error. */
  lemma LensEmptyRegion(parse: FloatParser, spans: seq<Span>)
    ensures LensValuesOf(parse, spans) == Err(EmptyRegion) <==> spans == []
  {
    if spans != [] {
      LinesNonEmpty(spans);
      if LensRun(parse, ExactLines(spans), Start(spans)).Err? {
        var j := LensRunErrLine(parse, ExactLines(spans), Start(spans));
      }
    }
  }

  /** `v[1]` on a line of one span: the scan raises IndexError exactly when
      some span ending in ":" is alone on its y. */
  lemma LensIndexError(parse: FloatParser, spans: seq<Span>)
    ensures LensValuesOf(parse, spans) == Err(IndexOutOfRange) <==> exists s :: LoneLabel(spans, s)
  {
    if spans != [] {
      LinesNonEmpty(spans);
      RunsAreGroups(spans);
      var lines: seq<seq<Span>>, runs: seq<seq<Span>> := ExactLines(spans), Runs(spans);
      if LensRun(parse, lines, Start(spans)).Err? {
        var j := LensRunErrLine(parse, lines, Start(spans));
        LoneLine(spans, j);
        LabelError(lines[j]);
        var s: Span := runs[j][0];
        WithKeyMembers(spans, s.y, s);
        assert LoneLabel(spans, s);
      }
      if exists s :: LoneLabel(spans, s) {
        var s :| LoneLabel(spans, s);
        var j := RunOf(spans, s);
        LoneLine(spans, j);
        LabelError(lines[j]);
        LensRunErrFrom(parse, lines, Start(spans), j);
        var i := LensRunErrLine(parse, lines, Start(spans));
      }
    }
  }

  // ---------------------------------------------------------------------
  // The name

  /** Concatenating non-empty runs starts with the first run's first span. */
  lemma ConcatHead(c: seq<seq<Span>>)
    requires NonEmptyLines(c) && c != []
    ensures Concat(c) != [] && Concat(c)[0] == c[0][0]
  {
    if |c| > 1 {
      var init := c[..|c| - 1];
      ConcatHead(init);
    }
  }

  /** `name` is the leftmost text among the spans of the smallest y (the
      first of them in input order when several share that x). */
  lemma LensNameTopLeft(spans: seq<Span>)
    requires spans != []
    ensures var y := spans[FirstMin(spans, Y)].y;
            var g := WithKey(spans, Y, y);
            g != [] && LensName(spans) == g[FirstMin(g, X)].text
  {
    var sorted := SortOn(spans, Y);
    var runs: seq<seq<Span>> := Runs(spans);
    SortOnHead(spans, Y);
    ClusterConcat(sorted, 0.0);
    ClusterNonEmpty(sorted, 0.0);
    ConcatHead(runs);
    RunsAreGroups(spans);
    LinesNonEmpty(spans);
    SortOnHead(runs[0], X);
  }

  // ---------------------------------------------------------------------
  // The dictionary `get_lens_values` returns

  /** The state the scan starts from holds no table key. */
  lemma StartHasNoTableKeys(spans: seq<Span>, stem: string, n: nat)
    requires spans != [] && (stem == IolStem || stem == RefStem)
    ensures Start(spans).results.entries == map[NameKey := Str(LensName(spans))]
    ensures Indexed(stem, n) !in Start(spans).results.entries && BoldKey(stem) !in Start(spans).results.entries
  {
    TableKeysApart(stem, n);
  }

  /** `iol_n` / `ref_n` are present exactly for n below the number of rows
      read, and hold that row's numbers (unless a label stores the same
      key). */
  lemma LensValuesTable(parse: FloatParser, spans: seq<Span>, stem: string, n: nat)
    requires stem == IolStem || stem == RefStem
    requires NoLabelWrites(ExactLines(spans), Indexed(stem, n))
    requires LensValuesOf(parse, spans).Ok?
    ensures n < |TableRows(parse, ExactLines(spans))| ==>
              Indexed(stem, n) in LensValuesOf(parse, spans).value.entries
              && LensValuesOf(parse, spans).value.entries[Indexed(stem, n)] == Num(Column(TableRows(parse, ExactLines(spans))[n], stem))
    ensures n >= |TableRows(parse, ExactLines(spans))| ==> Indexed(stem, n) !in LensValuesOf(parse, spans).value.entries
  {
    StartHasNoTableKeys(spans, stem, n);
    LensRunTableKey(parse, ExactLines(spans), Start(spans), stem, n);
  }

  /** `iolbold` / `refbold` hold the last bold row read, and are absent when
      no row read was bold (unless a label stores the same key). */
  lemma LensValuesBold(parse: FloatParser, spans: seq<Span>, stem: string)
    requires stem == IolStem || stem == RefStem
    requires NoLabelWrites(ExactLines(spans), BoldKey(stem))
    requires LensValuesOf(parse, spans).Ok?
    ensures LastBold(TableRows(parse, ExactLines(spans))).Some? ==>
              BoldKey(stem) in LensValuesOf(parse, spans).value.entries
              && LensValuesOf(parse, spans).value.entries[BoldKey(stem)]
                 == Num(Column(LastBold(TableRows(parse, ExactLines(spans))).value, stem))
    ensures LastBold(TableRows(parse, ExactLines(spans))).None? ==> BoldKey(stem) !in LensValuesOf(parse, spans).value.entries
  {
    StartHasNoTableKeys(spans, stem, 0);
    LensRunBoldKey(parse, ExactLines(spans), Start(spans), stem);
  }

  /** A label stored by line j and by no later line is in the result. */
  lemma LensValuesLabel(parse: FloatParser, spans: seq<Span>, j: nat, k: string, t: string)
    requires j < |ExactLines(spans)| && Label(ExactLines(spans)[j]) == Ok(Some((k, t))) && !IsTableKey(k)
    requires forall m :: j < m < |ExactLines(spans)| ==> !LabelWrites(ExactLines(spans)[m], k)
    requires LensValuesOf(parse, spans).Ok?
    ensures k in LensValuesOf(parse, spans).value.entries && LensValuesOf(parse, spans).value.entries[k] == Str(t)
  {
    LensRunLabel(parse, ExactLines(spans), Start(spans), j, k, t);
  }

  /** `name` keeps the top-left text unless a label line stores `name`. */
  lemma LensValuesName(parse: FloatParser, spans: seq<Span>)
    requires NoLabelWrites(ExactLines(spans), NameKey)
    requires LensValuesOf(parse, spans).Ok?
    ensures spans != []
    ensures NameKey in LensValuesOf(parse, spans).value.entries
    ensures LensValuesOf(parse, spans).value.entries[NameKey] == Str(LensName(spans))
  {
    NameIsNoTableKey();
    StartHasNoTableKeys(spans, IolStem, 0);
    LensRunFrame(parse, ExactLines(spans), Start(spans), NameKey);
  }

  /** A key that is neither `name` nor a table key, and that no label line
      writes, is absent from the result. */
  lemma LensValuesOnlyTable(parse: FloatParser, spans: seq<Span>, k: string)
    requires !IsTableKey(k) && k != NameKey && NoLabelWrites(ExactLines(spans), k)
    requires LensValuesOf(parse, spans).Ok?
    ensures k !in LensValuesOf(parse, spans).value.entries
  {
    StartHasNoTableKeys(spans, IolStem, 0);
    LensRunFrame(parse, ExactLines(spans), Start(spans), k);
  }

  /** `name` always holds a text: the table writes only its own keys and a
      label writes a text. */
  lemma {:induction false} LensRunKeepsName(parse: FloatParser, lines: seq<seq<Span>>, init: LensState)
    requires NonEmptyLines(lines) && Valid(init.results)
    requires NameKey in init.results.entries && init.results.entries[NameKey].Str?
    requires LensRun(parse, lines, init).Ok?
    ensures NameKey in LensRun(parse, lines, init).value.results.entries
    ensures LensRun(parse, lines, init).value.results.entries[NameKey].Str?
  {
    if lines != [] {
      var st, v := LensRunSplit(parse, lines, init);
      LensRunKeepsName(parse, lines[..|lines| - 1], init);
      NameIsNoTableKey();
      TableEntriesOther(parse, st, v, NameKey);
    }
  }

  /** The dictionary of a lens always has a text under `name`, so
      `lens["name"]` never raises and is a text. */
  lemma LensValuesHaveName(parse: FloatParser, spans: seq<Span>)
    requires LensValuesOf(parse, spans).Ok?
    ensures NameKey in LensValuesOf(parse, spans).value.entries
    ensures LensValuesOf(parse, spans).value.entries[NameKey].Str?
  {
    LinesNonEmpty(spans);
    LensRunKeepsName(parse, ExactLines(spans), Start(spans));
  }
}

