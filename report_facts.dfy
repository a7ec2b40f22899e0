/** What the dispatcher and the two extractors promise: how region names
    render to distinct keys, which spans each region gets, which titles go
    where, how the OS regions relate to the OD ones, and what the result
    dictionaries hold. */
module ReportFacts {
  import opened Basics
  import opened Dicts
  import opened Layout
  import opened Lines
  import opened Records
  import opened KeyValues
  import opened LensTable
  import opened Measurements
  import opened Report

  // ---------------------------------------------------------------------
  // Region keys

  const RegionPrefix := "region_"

  /** Where the parts of a region key sit. Right after "region_" comes the
      kind: the `h` of "header_", or the `o` of the eye's "od"/"os". */
  const KindAt: nat := 7
  /** The `d` or `s` of the eye's key in "region_od_..." / "region_os_...". */
  const EyeLetterAt: nat := 8
  /** The first character after "region_od_": `h`eader, `l`ens or `m`easurements. */
  const PartAt: nat := 10
  /** The number of a header, after "region_header_". */
  const HeaderDigitsAt: nat := 14
  /** The number of a lens column, after "region_od_lens_". */
  const LensDigitsAt: nat := 15

  /** The kind, the eye and the part of a region key sit at fixed places,
      and its number is the digits at its end. */
  lemma RegionKeyShape(r: RegionName)
    ensures |RegionKey(r)| > PartAt && StartsWith(RegionKey(r), RegionPrefix)
    ensures RegionKey(r)[KindAt] == 'h' <==> r.Header?
    ensures r.Header? ==> RegionKey(r)[HeaderDigitsAt..] == NatToString(r.part)
    ensures !r.Header? ==> RegionKey(r)[EyeLetterAt] == (if r.eye == Od then 'd' else 's')
    ensures r.Column? && r.column == 0 ==> RegionKey(r)[PartAt] == 'h'
    ensures r.Column? && r.column > 0 ==> RegionKey(r)[PartAt] == 'l' && RegionKey(r)[LensDigitsAt..] == NatToString(r.column)
    ensures r.EyeMeasurements? ==> RegionKey(r)[PartAt] == 'm'
  {
    match r
    case Header(part) =>
      assert RegionKey(r) == "region_header_" + NatToString(part);
    case Column(eye, column) =>
      if column == 0 {
        assert RegionKey(r) == "region_" + EyeKey(eye) + "_header";
      } else {
        assert RegionKey(r) == "region_" + EyeKey(eye) + "_lens_" + NatToString(column);
      }
    case EyeMeasurements(eye) =>
      assert RegionKey(r) == "region_" + EyeKey(eye) + "_measurements";
  }

  /** Two regions never share a key. */
  lemma RegionKeyInjective(a: RegionName, b: RegionName)
    requires RegionKey(a) == RegionKey(b)
    ensures a == b
  {
    RegionKeyShape(a);
    RegionKeyShape(b);
    if a.Header? {
      NatToStringInjective(a.part, b.part);
    } else if a.Column? && a.column > 0 {
      NatToStringInjective(a.column, b.column);
    }
  }

  /** A region key is never an eye's key. */
  lemma RegionKeyNotEye(r: RegionName, e: Eye)
    ensures RegionKey(r) != EyeKey(e)
  {
    RegionKeyShape(r);
  }

  /** Looking up `spans[f"region_{eye}_lens_{i}"]` finds the i-th lens
      column of the eye and nothing else. */
  lemma LensColumnByKey(spans: map<RegionName, seq<Span>>, eye: Eye, i: nat, r: RegionName)
    requires HasEyeRegions(spans, eye) && i < LensCount
    requires RegionKey(r) == RegionPrefix + EyeKey(eye) + "_lens_" + NatToString(i + 1)
    ensures r == Column(eye, i + 1)
    ensures r in spans && LensColumns(spans, eye)[i] == spans[r]
  {
    assert RegionKey(Column(eye, i + 1)) == RegionKey(r);
    RegionKeyInjective(r, Column(eye, i + 1));
  }

  /** The (OD, OS) name pairs the OS loop of the IOL extractor walks, as
      written in the code. */
  const OsPairsInCode: seq<(string, string)> := [
    ("region_od_header", "region_os_header"),
    ("region_od_lens_1", "region_os_lens_1"),
    ("region_od_lens_2", "region_os_lens_2"),
    ("region_od_lens_3", "region_os_lens_3"),
    ("region_od_lens_4", "region_os_lens_4")]

  /** The pairs the OS loop walks render to exactly the names listed in
      the code, in the same order. */
  lemma OsPairNames()
    ensures |OsPairs()| == |OsPairsInCode|
    ensures forall j :: 0 <= j < |OsPairs()| ==>
      RegionKey(OsPairs()[j].0) == OsPairsInCode[j].0 && RegionKey(OsPairs()[j].1) == OsPairsInCode[j].1
  {
    forall j | 0 <= j < |OsPairs()|
      ensures RegionKey(OsPairs()[j].0) == OsPairsInCode[j].0 && RegionKey(OsPairs()[j].1) == OsPairsInCode[j].1
    {
      assert OsPairs()[j] == (Column(Od, j), Column(Os, j));
      if j > 0 {
        assert NatToString(j) == [DigitChar(j)];
      }
    }
  }

  // ---------------------------------------------------------------------
  // get_spans_by_origin over the region table

  /** Each region gets the page's spans strictly inside its rectangle: a
      span is in a region's list iff it is on the page and inside. */
  lemma SpansOfMembers(blocks: seq<Block>, regions: map<RegionName, Rect>, k: RegionName)
    requires k in regions
    ensures k in SpansOf(blocks, regions)
    ensures forall s :: s in SpansOf(blocks, regions)[k] <==> s in PageSpans(blocks) && Inside(s, regions[k])
    ensures |SpansOf(blocks, regions)[k]| <= |PageSpans(blocks)|
  {
    SelectMembers(PageSpans(blocks), regions[k]);
  }

  /** The same over an ordered table: the regions keep the table's order,
      and each holds the spans strictly inside it. */
  lemma RegionSpansMembers(blocks: seq<Block>, regions: Dict<RegionName, Rect>, k: RegionName)
    requires Valid(regions) && k in regions.order
    ensures RegionSpans(blocks, regions).order == regions.order
    ensures k in RegionSpans(blocks, regions).entries
    ensures forall s :: s in RegionSpans(blocks, regions).entries[k] <==> s in PageSpans(blocks) && Inside(s, regions.entries[k])
  {
    SpansOfMembers(blocks, regions.entries, k);
  }

  // ---------------------------------------------------------------------
  // get_pdf_data

  /** A title the parser does not know gives an empty dictionary, without
      even the file name and the title. */
  lemma UnknownTitleEmpty(parse: FloatParser, doc: Document)
    requires !StartsWith(doc.title, IolPrefix) && doc.title != MmtFullTitle
    ensures PdfDataOf(parse, doc) == Ok(Empty())
    ensures PdfDataOf(parse, doc).value.order == [] && PdfDataOf(parse, doc).value.entries == map[]
  {
  }

  /** An IOL title without a region table gives only the file name and the
      title, in that order. */
  lemma UnknownIolVariant(parse: FloatParser, doc: Document)
    requires StartsWith(doc.title, IolPrefix)
    requires doc.title != HaigisTitle && doc.title != HolladayTitle && doc.title != SrkTTitle
    ensures PdfDataOf(parse, doc).Ok?
    ensures PdfDataOf(parse, doc).value.order == [FilenameKey, TitleKey]
    ensures PdfDataOf(parse, doc).value.entries == map[FilenameKey := Str(doc.filename), TitleKey := Str(doc.title)]
  {
    NoRegionTable(parse, doc);
    BaseShape(doc);
  }

  /** Without a region table, an IOL report is only its file name and title. */
  lemma NoRegionTable(parse: FloatParser, doc: Document)
    requires StartsWith(doc.title, IolPrefix) && IolRegionTable(doc.title).None?
    ensures PdfDataOf(parse, doc) == Ok(Base(doc))
  {
  }

  /** The file name comes first, then the title. */
  lemma BaseShape(doc: Document)
    ensures Base(doc).order == [FilenameKey, TitleKey]
    ensures Base(doc).entries == map[FilenameKey := Str(doc.filename), TitleKey := Str(doc.title)]
  {
    assert FilenameKey != TitleKey;
  }

  /** Exactly the three known variants have a region table: IOL-Haigis its
      own, IOL-Holladay-1 and IOL-SRK-T the shared one. Every title with a
      table starts with "IOL", so it reaches the IOL extractor. */
  lemma IolTableTitles(title: string)
    ensures IolRegionTable(title).Some? <==> title == HaigisTitle || title == HolladayTitle || title == SrkTTitle
    ensures title == HaigisTitle ==> IolRegionTable(title) == Some(HaigisRegions)
    ensures title == HolladayTitle || title == SrkTTitle ==> IolRegionTable(title) == Some(HolladayRegions)
    ensures IolRegionTable(title).Some? ==> StartsWith(title, IolPrefix)
  {
    if IolRegionTable(title).Some? {
      assert title[..3] == IolPrefix;
    }
  }

  /** A title starting with "IOL" goes to the IOL extractor. */
  lemma IolTitleRoute(parse: FloatParser, doc: Document)
    requires StartsWith(doc.title, IolPrefix)
    ensures PdfDataOf(parse, doc) == IolDataOf(parse, doc)
  {
  }

  /** "MMT-Full" goes to the MMT-Full extractor: it does not start with "IOL". */
  lemma MmtTitleRoute(parse: FloatParser, doc: Document)
    requires doc.title == MmtFullTitle
    ensures !StartsWith(doc.title, IolPrefix)
    ensures PdfDataOf(parse, doc) == MmtFullDataOf(parse, doc)
  {
    assert MmtFullTitle[0] != IolPrefix[0];
  }

  // ---------------------------------------------------------------------
  // The OS regions

  /** The OS regions of the first `n` columns. */
  function OsNames(n: nat): (names: set<RegionName>)
    ensures forall k :: k in names <==> k.Column? && k.eye == Os && k.column < n
  {
    set j | 0 <= j < n :: Column(Os, j)
  }

  predicate NoOsRegions(regions: map<RegionName, Rect>)
  {
    forall j :: 0 <= j <= LensCount ==> Column(Os, j) !in regions
  }

  /** After `n` rounds the loop has added the OS regions of the first `n`
      columns, each its OD region moved right by `OsShift`, and has changed
      no region that was there before. */
  lemma {:induction false} WithOsRegionsShifts(regions: map<RegionName, Rect>, n: nat)
    requires HasOdRegions(regions) && NoOsRegions(regions) && n <= LensCount + 1
    ensures WithOsRegions(regions, n).Keys == regions.Keys + OsNames(n)
    ensures forall k :: k in regions ==> WithOsRegions(regions, n)[k] == regions[k]
    ensures forall j :: 0 <= j < n ==> WithOsRegions(regions, n)[Column(Os, j)] == Shifted(regions[Column(Od, j)])
  {
    if n > 0 {
      var m: nat := n - 1;
      WithOsRegionsShifts(regions, m);
      var before := WithOsRegions(regions, m);
      var os, od := Column(Os, m), Column(Od, m);
      WithOsRegionsNext(regions, m);
      assert os !in regions;
      assert od in regions;
      assert OsNames(n) == OsNames(m) + {os};
    }
  }

  /** One more round of the OS loop. */
  lemma WithOsRegionsNext(regions: map<RegionName, Rect>, m: nat)
    requires HasOdRegions(regions) && m < LensCount + 1
    ensures WithOsRegions(regions, m + 1)
         == WithOsRegions(regions, m)[Column(Os, m) := Shifted(WithOsRegions(regions, m)[Column(Od, m)])]
  {
    var next: nat := m + 1;
    assert next - 1 == m;
  }

  /** The regions of an IOL report: the table's own, unchanged, and the
      five OS ones, each its OD region moved over to the OS column. */
  lemma IolRegionsShifted(table: map<RegionName, Rect>)
    requires table.Keys == IolOdNames
    ensures IolRegions(table).Keys == IolOdNames + {Column(Os, 0), Column(Os, 1), Column(Os, 2), Column(Os, 3), Column(Os, 4)}
    ensures forall k :: k in table ==> IolRegions(table)[k] == table[k]
    ensures forall j :: 0 <= j <= LensCount ==> IolRegions(table)[Column(Os, j)] == Shifted(table[Column(Od, j)])
  {
    IolTableHasOd(table);
    WithOsRegionsShifts(table, LensCount + 1);
    var added := {Column(Os, 0), Column(Os, 1), Column(Os, 2), Column(Os, 3), Column(Os, 4)};
    forall k | k in OsNames(LensCount + 1)
      ensures k in added
    {
      if k.column == 0 {
      } else if k.column == 1 {
      } else if k.column == 2 {
      } else if k.column == 3 {
      } else {
        assert k.column == 4;
      }
    }
    assert added <= OsNames(LensCount + 1);
  }

  /** A span lies in an OD region exactly when the same span moved right by
      `OsShift` lies in the OS region made from it. */
  lemma ShiftedInside(s: Span, r: Rect)
    ensures Inside(s, r) <==> Inside(Span(s.text, s.x + OsShift, s.y, s.flags), Shifted(r))
  {
  }

  /** The OD regions of a table lie between the left page margin and the
      right edge of the OD column. */
  predicate InOdColumn(table: map<RegionName, Rect>)
    requires HasOdRegions(table)
  {
    forall j :: 0 <= j <= LensCount ==> PageLeft <= table[Column(Od, j)].x0 && table[Column(Od, j)].x1 <= OdRight
  }

  /** Both region tables keep their OD regions in the OD column. */
  lemma IolTablesInOdColumn(title: string)
    requires IolRegionTable(title).Some?
    ensures HasOdRegions(IolRegionTable(title).value) && InOdColumn(IolRegionTable(title).value)
  {
    var table := IolRegionTable(title).value;
    IolTableHasOd(table);
    forall j | 0 <= j <= LensCount
      ensures PageLeft <= table[Column(Od, j)].x0 && table[Column(Od, j)].x1 <= OdRight
    {
      if j == 0 {
      } else if j == 1 {
      } else if j == 2 {
      } else if j == 3 {
      } else {
        assert j == 4;
      }
    }
  }

  /** No span is selected for both eyes: an OD region and an OS region of an
      IOL report never share a point. */
  lemma EyesApart(title: string, s: Span, j: nat, k: nat)
    requires IolRegionTable(title).Some? && j <= LensCount && k <= LensCount
    ensures !(Inside(s, IolRegions(IolRegionTable(title).value)[Column(Od, j)])
              && Inside(s, IolRegions(IolRegionTable(title).value)[Column(Os, k)]))
  {
    var table := IolRegionTable(title).value;
    IolTablesInOdColumn(title);
    IolRegionsShifted(table);
    IolTableHasOd(table);
  }

  /** The same for the two measurement regions of an MMT-Full report. */
  lemma MmtEyesApart(s: Span)
    ensures !(Inside(s, MmtRegions().entries[EyeMeasurements(Od)]) && Inside(s, MmtRegions().entries[EyeMeasurements(Os)]))
  {
  }

  // ---------------------------------------------------------------------
  // The lenses of an eye

  /** The name of the lens a column read gives, or None when the read
      raises. */
  function LensName(read: Result<Fields>): (name: Option<string>)
    requires Named(read)
    ensures name.Some? <==> read.Ok?
  {
    match read
    case Err(_) => None
    case Ok(lens) => Some(NameOf(lens))
  }

  ghost predicate AllOk(outcomes: seq<Result<Fields>>)
  {
    forall i :: 0 <= i < |outcomes| ==> outcomes[i].Ok?
  }

  lemma AllOkStep(outcomes: seq<Result<Fields>>)
    requires outcomes != []
    ensures AllOk(outcomes) <==> AllOk(outcomes[..|outcomes| - 1]) && outcomes[|outcomes| - 1].Ok?
  {
    var pre := outcomes[..|outcomes| - 1];
    assert forall i :: 0 <= i < |pre| ==> pre[i] == outcomes[i];
  }

  /** The lens loop finishes exactly when every column reads. */
  lemma {:induction false} LensesOk(outcomes: seq<Result<Fields>>)
    requires AllNamed(outcomes)
    ensures LensesOf(outcomes).Ok? <==> AllOk(outcomes)
  {
    if outcomes != [] {
      var pre := outcomes[..|outcomes| - 1];
      LensesOk(pre);
      assert LensesOf(outcomes).Ok? <==> LensesOf(pre).Ok? && outcomes[|outcomes| - 1].Ok?;
      AllOkStep(outcomes);
    }
  }

  /** One more column read into `lenses`. */
  lemma LensesStep(outcomes: seq<Result<Fields>>)
    requires AllNamed(outcomes) && outcomes != [] && LensesOf(outcomes).Ok?
    ensures AllNamed(outcomes[..|outcomes| - 1]) && LensesOf(outcomes[..|outcomes| - 1]).Ok?
    ensures LensName(outcomes[|outcomes| - 1]).Some?
    ensures LensesOf(outcomes).value.entries
         == LensesOf(outcomes[..|outcomes| - 1]).value.entries[LensName(outcomes[|outcomes| - 1]).value := Nest(outcomes[|outcomes| - 1].value)]
  {
  }

  /** Some column read gives a lens named `k`. */
  ghost predicate NameRead(outcomes: seq<Result<Fields>>, k: string)
    requires AllNamed(outcomes)
  {
    exists i :: 0 <= i < |outcomes| && LensName(outcomes[i]) == Some(k)
  }

  /** A name is read by some column exactly when it is read before the last
      one or by the last one. */
  lemma NameReadStep(outcomes: seq<Result<Fields>>, k: string)
    requires AllNamed(outcomes) && outcomes != []
    ensures AllNamed(outcomes[..|outcomes| - 1])
    ensures NameRead(outcomes, k) <==> NameRead(outcomes[..|outcomes| - 1], k) || LensName(outcomes[|outcomes| - 1]) == Some(k)
  {
    var pre, last := outcomes[..|outcomes| - 1], |outcomes| - 1;
    if NameRead(outcomes, k) {
      var i :| 0 <= i < |outcomes| && LensName(outcomes[i]) == Some(k);
      if i < last {
        assert pre[i] == outcomes[i];
      }
    }
    if NameRead(pre, k) {
      var i :| 0 <= i < |pre| && LensName(pre[i]) == Some(k);
      assert pre[i] == outcomes[i];
    }
  }

  /** `lenses` holds exactly the names of the lenses read. */
  lemma {:induction false} LensesKeys(outcomes: seq<Result<Fields>>, k: string)
    requires AllNamed(outcomes) && LensesOf(outcomes).Ok?
    ensures k in LensesOf(outcomes).value.entries <==> NameRead(outcomes, k)
  {
    if outcomes == [] {
      assert LensesOf(outcomes).value.entries == map[];
    } else {
      var pre := outcomes[..|outcomes| - 1];
      LensesStep(outcomes);
      LensesKeys(pre, k);
      NameReadStep(outcomes, k);
    }
  }

  /** Two lenses with the same name keep one entry: the one read last. */
  lemma {:induction false} LastLensWins(outcomes: seq<Result<Fields>>, i: nat)
    requires AllNamed(outcomes) && LensesOf(outcomes).Ok? && i < |outcomes|
    requires forall j :: i < j < |outcomes| ==> LensName(outcomes[j]) != LensName(outcomes[i])
    ensures LensName(outcomes[i]).Some?
    ensures LensName(outcomes[i]).value in LensesOf(outcomes).value.entries
    ensures LensesOf(outcomes).value.entries[LensName(outcomes[i]).value] == Nest(outcomes[i].value)
  {
    LensesOk(outcomes);
    var pre := outcomes[..|outcomes| - 1];
    if i < |outcomes| - 1 {
      assert pre[i] == outcomes[i];
      assert forall j :: i < j < |pre| ==> pre[j] == outcomes[j];
      LastLensWins(pre, i);
      assert LensName(outcomes[|outcomes| - 1]) != LensName(outcomes[i]);
    }
  }

  // ---------------------------------------------------------------------
  // The result of an IOL report

  /** The spans of the regions of an IOL report with a known variant. */
  function IolSpans(doc: Document): (spans: map<RegionName, seq<Span>>)
    requires IolRegionTable(doc.title).Some?
    ensures HasIolRegions(spans)
  {
    IolRegionNames(IolRegionTable(doc.title).value);
    SpansOf(doc.blocks, IolRegions(IolRegionTable(doc.title).value))
  }

  /** `result.update(...)` with the two header regions merges their
      label/values over the file name and title, the second region last. */
  lemma HeadersMerge(doc: Document, spans: map<RegionName, seq<Span>>)
    requires Header(1) in spans && Header(2) in spans
    ensures Headed(doc, spans).entries
         == Base(doc).entries + KeyValuesOf(spans[Header(1)]).entries + KeyValuesOf(spans[Header(2)]).entries
  {
    var one := Update(Base(doc), KeyValuesOf(spans[Header(1)]));
    UpdateEntries(Base(doc), KeyValuesOf(spans[Header(1)]));
    UpdateEntries(one, KeyValuesOf(spans[Header(2)]));
  }

  /** The loop over the eyes raises exactly when one eye raises; otherwise
      it stores each eye under "od" or "os" and leaves every other key as it
      was. */
  lemma EyesResult(d: Fields, outcomes: seq<Result<Fields>>)
    requires Valid(d) && |outcomes| == |Eyes| && AllValid(outcomes)
    ensures StoreEyes(d, outcomes).Ok? <==> outcomes[0].Ok? && outcomes[1].Ok?
    ensures StoreEyes(d, outcomes).Ok? ==>
      && EyeKey(Od) in StoreEyes(d, outcomes).value.entries
      && StoreEyes(d, outcomes).value.entries[EyeKey(Od)] == Nest(outcomes[0].value)
      && EyeKey(Os) in StoreEyes(d, outcomes).value.entries
      && StoreEyes(d, outcomes).value.entries[EyeKey(Os)] == Nest(outcomes[1].value)
    ensures StoreEyes(d, outcomes).Ok? ==>
      forall k :: k != EyeKey(Od) && k != EyeKey(Os) ==> Get(StoreEyes(d, outcomes).value, k) == Get(d, k)
  {
    StoreEyesNext(d, outcomes, 0);
    StoreEyesNext(d, outcomes, 1);
    assert outcomes[..0] == [] && outcomes[..2] == outcomes;
    assert StoreEyes(d, outcomes[..0]) == Ok(d);
    assert Eyes[0] == Od && Eyes[1] == Os;
    if outcomes[0].Ok? && outcomes[1].Ok? {
      var od, os := Nest(outcomes[0].value), Nest(outcomes[1].value);
      var withOd := Set(d, EyeKey(Od), od);
      var both := Set(withOd, EyeKey(Os), os);
      assert StoreEyes(d, outcomes[..1]) == Ok(withOd);
      assert StoreEyes(d, outcomes) == Ok(both);
      forall k | k != EyeKey(Od) && k != EyeKey(Os)
        ensures Get(both, k) == Get(d, k)
      {
        SetOther(d, EyeKey(Od), od, k);
        SetOther(withOd, EyeKey(Os), os, k);
      }
    }
  }

  /** An IOL report with a known variant raises exactly when the lens loop of
      one of its eyes raises; otherwise each eye is stored under "od" or "os"
      and every other key holds what the headers gave it. */
  lemma IolResult(parse: FloatParser, doc: Document)
    requires IolRegionTable(doc.title).Some?
    ensures IolDataOf(parse, doc).Ok?
        <==> LensesOf(LensReads(parse, LensColumns(IolSpans(doc), Od))).Ok? && LensesOf(LensReads(parse, LensColumns(IolSpans(doc), Os))).Ok?
    ensures IolDataOf(parse, doc).Ok? ==>
      && EyeKey(Od) in IolDataOf(parse, doc).value.entries
      && IolDataOf(parse, doc).value.entries[EyeKey(Od)] == Nest(IolEye(parse, IolSpans(doc), Od).value)
      && EyeKey(Os) in IolDataOf(parse, doc).value.entries
      && IolDataOf(parse, doc).value.entries[EyeKey(Os)] == Nest(IolEye(parse, IolSpans(doc), Os).value)
    ensures IolDataOf(parse, doc).Ok? ==>
      forall k :: k != EyeKey(Od) && k != EyeKey(Os) ==> Get(IolDataOf(parse, doc).value, k) == Get(Headed(doc, IolSpans(doc)), k)
  {
    var spans := IolSpans(doc);
    var eyes := IolEyes(parse, spans);
    assert IolDataOf(parse, doc) == StoreEyes(Headed(doc, spans), eyes);
    assert eyes[0] == IolEye(parse, spans, Od) && eyes[1] == IolEye(parse, spans, Os);
    EyesResult(Headed(doc, spans), eyes);
  }
}
