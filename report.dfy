/** `get_pdf_data` and the two report extractors: the title of the report
    picks the extractor; each extractor cuts the first page into fixed
    regions, selects the spans of every region and assembles the result
    dictionary from the region readers. */
module Report {
  import opened Basics
  import opened Dicts
  import opened Layout
  import opened Lines
  import opened Records
  import opened KeyValues
  import opened LensTable
  import opened LensFacts
  import opened Measurements

  /** An opened report: its file name, the `title` of its metadata and the
      text blocks of its first page. */
  datatype Document = Document(filename: string, title: string, blocks: seq<Block>)

  const IolPrefix := "IOL"
  const MmtFullTitle := "MMT-Full"
  const HaigisTitle := "IOL-Haigis"
  const HolladayTitle := "IOL-Holladay-1"
  const SrkTTitle := "IOL-SRK-T"

  const FilenameKey := "filename"
  const TitleKey := "title"
  const LensesKey := "lenses"

  /** The two eyes, stored under "od" and "os". */
  datatype Eye = Od | Os

  function EyeKey(e: Eye): string
  {
    match e
    case Od => "od"
    case Os => "os"
  }

  /** `for eye in ["od", "os"]`. */
  const Eyes: seq<Eye> := [Od, Os]

  /** The number of lens columns of an eye: `range(1, 5)`. */
  const LensCount: nat := 4

  // ---------------------------------------------------------------------
  // The regions of the page

  /** The names of the regions: `region_header_1` and `region_header_2`,
      and per eye `region_{eye}_measurements` and the columns of the lens
      table, column 0 being `region_{eye}_header` and column `i` of 1 to 4
      `region_{eye}_lens_{i}`. */
  datatype RegionName =
    | Header(part: nat)
    | Column(eye: Eye, column: nat)
    | EyeMeasurements(eye: Eye)

  /** The text of a region name. */
  function RegionKey(r: RegionName): string
  {
    match r
    case Header(part) => "region_header_" + NatToString(part)
    case Column(eye, column) =>
      if column == 0 then "region_" + EyeKey(eye) + "_header"
      else "region_" + EyeKey(eye) + "_lens_" + NatToString(column)
    case EyeMeasurements(eye) => "region_" + EyeKey(eye) + "_measurements"
  }

  /** The right edge of the OD column and the left edge of the OS column. */
  const OdRight: real := 313.1999816894531
  const OsLeft: real := 316.0799865722656
  const PageLeft: real := 54.0

  const IolMidlineX: real := 0.5 * (OdRight + OsLeft)
  const QuarterX: real := PageLeft + (OdRight - PageLeft) / 2.0
  const MmtMidlineX: real := (54.0 + 576.0) / 2.0

  /** How far the OS column lies right of the OD column. */
  const OsShift: real := OsLeft - PageLeft

  /** The regions of an IOL report before the OS ones are added. The
      extractor looks its regions up by name only, so their order does not
      matter and the tables are maps. */
  const IolOdNames: set<RegionName> :=
    {Header(1), Header(2), Column(Od, 0), Column(Od, 1), Column(Od, 2), Column(Od, 3), Column(Od, 4)}

  /** The regions of an MMT-Full report, in the order the table lists them. */
  const MmtOrder: seq<RegionName> := [Header(1), Header(2), EyeMeasurements(Od), EyeMeasurements(Os)]

  lemma MmtOrderDistinct()
    ensures forall i, j :: 0 <= i < j < |MmtOrder| ==> MmtOrder[i] != MmtOrder[j]
  {
  }

  /** The regions of an IOL-Haigis report. */
  const HaigisRegions: map<RegionName, Rect> :=
    map[
    Header(1) := Rect(54.0, 56.52001953125, IolMidlineX, 140.0400390625),
      Header(2) := Rect(IolMidlineX, 56.52001953125, 576.0, 140.0400390625),
      Column(Od, 0) := Rect(54.0, 193.79998779296875, 313.1999816894531, 310.6800231933594),
      Column(Od, 1) := Rect(54.0, 310.6800231933594, QuarterX, 483.8399963378906),
      Column(Od, 2) := Rect(QuarterX, 310.6800231933594, 313.1999816894531, 483.8399963378906),
      Column(Od, 3) := Rect(54.0, 483.8399963378906, QuarterX, 657.0),
      Column(Od, 4) := Rect(QuarterX, 483.8399963378906, 313.1999816894531, 657.0)
    ]

  /** The regions of an IOL-Holladay-1 or IOL-SRK-T report. */
  const HolladayRegions: map<RegionName, Rect> :=
    map[
      Header(1) := Rect(54.0, 56.52001953125, 314.6399841308594, 140.0400390625),
      Header(2) := Rect(314.6399841308594, 56.52001953125, 612.0, 140.0400390625),
      Column(Od, 0) := Rect(54.0, 193.79998779296875, 313.1999816894531, 310.6800231933594),
      Column(Od, 1) := Rect(54.0, 310.6800231933594, 183.59999084472656, 458.6400146484375),
      Column(Od, 2) := Rect(183.59999084472656, 310.6800231933594, 313.1999816894531, 458.6400146484375),
      Column(Od, 3) := Rect(54.0, 458.6400146484375, 183.59999084472656, 606.5999755859375),
      Column(Od, 4) := Rect(183.59999084472656, 458.6400146484375, 313.1999816894531, 606.5999755859375)
    ]

  /** The regions of an MMT-Full report. */
  function MmtRegions(): (d: Dict<RegionName, Rect>)
    ensures Valid(d) && d.order == MmtOrder
  {
    MmtOrderDistinct();
    Dict(MmtOrder, map[
      Header(1) := Rect(54.0, 54.0, MmtMidlineX, 135.1199951171875),
      Header(2) := Rect(MmtMidlineX, 54.0, 576.0, 135.1199951171875),
      EyeMeasurements(Od) := Rect(54.0, 259.44000244140625, 313.1999816894531, 653.8800048828125),
      EyeMeasurements(Os) := Rect(316.0799865722656, 259.44000244140625, 576.0, 653.8800048828125)
    ])
  }

  /** The region table of an IOL title, or None for a variant without one. */
  function IolRegionTable(title: string): (table: Option<map<RegionName, Rect>>)
    ensures table.Some? ==> table.value.Keys == IolOdNames
  {
    if title == HaigisTitle then Some(HaigisRegions)
    else if title == HolladayTitle || title == SrkTTitle then Some(HolladayRegions)
    else None
  }

  /** The OD regions and the OS regions made from them: the header, then the
      four lens columns. */
  function OsPairs(): (pairs: seq<(RegionName, RegionName)>)
    ensures |pairs| == LensCount + 1
    ensures forall j :: 0 <= j < |pairs| ==> pairs[j] == (Column(Od, j), Column(Os, j))
  {
    seq(LensCount + 1, j requires 0 <= j <= LensCount => (Column(Od, j), Column(Os, j)))
  }

  /** An OD region moved over to the OS column. */
  function Shifted(r: Rect): Rect
  {
    Rect(r.x0 + OsShift, r.y0, r.x1 + OsShift, r.y1)
  }

  predicate HasOdRegions(regions: map<RegionName, Rect>)
  {
    forall j :: 0 <= j <= LensCount ==> Column(Od, j) in regions
  }

  /** The regions after the first `n` rounds of the loop that adds the OS
      regions. */
  function WithOsRegions(regions: map<RegionName, Rect>, n: nat): (r: map<RegionName, Rect>)
    requires HasOdRegions(regions) && n <= LensCount + 1
    ensures HasOdRegions(r)
    ensures forall j :: 0 <= j < n ==> Column(Os, j) in r
  {
    if n == 0 then regions
    else
      var before := WithOsRegions(regions, n - 1);
      before[Column(Os, n - 1) := Shifted(before[Column(Od, n - 1)])]
  }

  /** The loop that adds the OS regions: `regions[os_name]` is
      `regions[od_name]` moved over to the OS column. */
  method AddOsRegions(regions: map<RegionName, Rect>) returns (r: map<RegionName, Rect>)
    requires HasOdRegions(regions)
    ensures r == WithOsRegions(regions, |OsPairs()|)
  {
    r := regions;
    for n := 0 to |OsPairs()|
      invariant r == WithOsRegions(regions, n)
    {
      var (od, os) := OsPairs()[n];
      r := r[os := Shifted(r[od])];
    }
  }

  /** `{key: get_spans_by_origin(blocks, rect) for key, rect in regions.items()}`,
      looked up by name. */
  function SpansOf(blocks: seq<Block>, regions: map<RegionName, Rect>): (spans: map<RegionName, seq<Span>>)
    ensures spans.Keys == regions.Keys
    ensures forall k :: k in spans ==> spans[k] == Select(PageSpans(blocks), regions[k])
  {
    map k | k in regions :: Select(PageSpans(blocks), regions[k])
  }

  /** The same comprehension over an ordered table: the spans keep the
      order of the regions. */
  function RegionSpans(blocks: seq<Block>, regions: Dict<RegionName, Rect>): (spans: Dict<RegionName, seq<Span>>)
    requires Valid(regions)
    ensures Valid(spans) && spans.order == regions.order && spans.entries == SpansOf(blocks, regions.entries)
  {
    Dict(regions.order, SpansOf(blocks, regions.entries))
  }

  // ---------------------------------------------------------------------
  // get_pdf_data_iol

  /** The regions of one eye an IOL extraction reads. */
  predicate HasEyeRegions<V>(d: map<RegionName, V>, eye: Eye)
  {
    && Column(eye, 0) in d
    && Column(eye, 1) in d && Column(eye, 2) in d
    && Column(eye, 3) in d && Column(eye, 4) in d
  }

  /** The regions an IOL extraction reads. */
  predicate HasIolRegions<V>(d: map<RegionName, V>)
  {
    Header(1) in d && Header(2) in d && HasEyeRegions(d, Od) && HasEyeRegions(d, Os)
  }

  /** The spans of the four lens columns of an eye. */
  function LensColumns(spans: map<RegionName, seq<Span>>, eye: Eye): (columns: seq<seq<Span>>)
    requires HasEyeRegions(spans, eye)
    ensures |columns| == LensCount
    ensures forall i :: 0 <= i < LensCount ==> columns[i] == spans[Column(eye, i + 1)]
  {
    [spans[Column(eye, 1)], spans[Column(eye, 2)], spans[Column(eye, 3)], spans[Column(eye, 4)]]
  }

  /** A column read that gives a lens gives one with a text under `name`. */
  ghost predicate Named(read: Result<Fields>)
  {
    read.Ok? ==> Valid(read.value) && NameKey in read.value.entries && read.value.entries[NameKey].Str?
  }

  /** `lens["name"]`. */
  function NameOf(lens: Fields): string
    requires NameKey in lens.entries && lens.entries[NameKey].Str?
  {
    lens.entries[NameKey].text
  }

  lemma ReadNamed(parse: FloatParser, column: seq<Span>)
    ensures Named(LensValuesOf(parse, column))
  {
    if LensValuesOf(parse, column).Ok? {
      LensValuesHaveName(parse, column);
    }
  }

  /** What `get_lens_values` gives for each column, in order. */
  function LensReads(parse: FloatParser, columns: seq<seq<Span>>): (outcomes: seq<Result<Fields>>)
    ensures |outcomes| == |columns|
    ensures forall i :: 0 <= i < |columns| ==> outcomes[i] == LensValuesOf(parse, columns[i]) && Named(outcomes[i])
  {
    if columns == [] then []
    else
      var last := columns[|columns| - 1];
      ReadNamed(parse, last);
      LensReads(parse, columns[..|columns| - 1]) + [LensValuesOf(parse, last)]
  }

  ghost predicate AllNamed(outcomes: seq<Result<Fields>>)
  {
    forall i :: 0 <= i < |outcomes| ==> Named(outcomes[i])
  }

  /** `lenses` after the loop over the columns whose reads give `outcomes`: each
      lens stored under its name, the first exception ending the loop. */
  function LensesOf(outcomes: seq<Result<Fields>>): (r: Result<Fields>)
    requires AllNamed(outcomes)
    ensures r.Ok? ==> Valid(r.value)
  {
    if outcomes == [] then Ok(Empty())
    else
      match LensesOf(outcomes[..|outcomes| - 1])
      case Err(e) => Err(e)
      case Ok(lenses) =>
        match outcomes[|outcomes| - 1]
        case Err(e) => Err(e)
        case Ok(lens) => Ok(Set(lenses, NameOf(lens), Nest(lens)))
  }

  /** `result[eye]`: the label/values of the eye's header with `lenses`
      added. */
  function EyeFields(parse: FloatParser, header: seq<Span>, columns: seq<seq<Span>>): (r: Result<Fields>)
    ensures r.Ok? ==> Valid(r.value)
  {
    match LensesOf(LensReads(parse, columns))
    case Err(e) => Err(e)
    case Ok(lenses) => Ok(Set(KeyValuesOf(header), LensesKey, Nest(lenses)))
  }

  /** `result[eye]` for one eye of an IOL report. */
  function IolEye(parse: FloatParser, spans: map<RegionName, seq<Span>>, eye: Eye): (r: Result<Fields>)
    requires HasIolRegions(spans)
    ensures r.Ok? ==> Valid(r.value)
  {
    assert HasEyeRegions(spans, eye) by {
      assert eye == Od || eye == Os;
    }
    EyeFields(parse, spans[Column(eye, 0)], LensColumns(spans, eye))
  }

  /** What the loop over the eyes reads for each eye, in order. */
  function IolEyes(parse: FloatParser, spans: map<RegionName, seq<Span>>): (outcomes: seq<Result<Fields>>)
    requires HasIolRegions(spans)
    ensures |outcomes| == |Eyes| && AllValid(outcomes)
  {
    seq(|Eyes|, n requires 0 <= n < |Eyes| => IolEye(parse, spans, Eyes[n]))
  }

  /** Dictionaries, where the reads give any. */
  ghost predicate AllValid(outcomes: seq<Result<Fields>>)
  {
    forall i :: 0 <= i < |outcomes| && outcomes[i].Ok? ==> Valid(outcomes[i].value)
  }

  /** `result` after the loop over the eyes whose reads give `outcomes`:
      each eye stored under "od" or "os", the first exception ending the
      loop. */
  function StoreEyes(d: Fields, outcomes: seq<Result<Fields>>): (r: Result<Fields>)
    requires Valid(d) && |outcomes| <= |Eyes| && AllValid(outcomes)
    ensures r.Ok? ==> Valid(r.value)
  {
    if outcomes == [] then Ok(d)
    else
      match StoreEyes(d, outcomes[..|outcomes| - 1])
      case Err(e) => Err(e)
      case Ok(before) =>
        match outcomes[|outcomes| - 1]
        case Err(e) => Err(e)
        case Ok(eye) => Ok(Set(before, EyeKey(Eyes[|outcomes| - 1]), Nest(eye)))
  }

  /** `{"filename": ..., "title": ...}`. */
  function Base(doc: Document): (d: Fields)
    ensures Valid(d)
  {
    Set(Set(Empty(), FilenameKey, Str(doc.filename)), TitleKey, Str(doc.title))
  }

  /** The result with the label/values of both header regions added. */
  function Headed(doc: Document, spans: map<RegionName, seq<Span>>): (d: Fields)
    requires Header(1) in spans && Header(2) in spans
    ensures Valid(d)
  {
    Update(Update(Base(doc), KeyValuesOf(spans[Header(1)])), KeyValuesOf(spans[Header(2)]))
  }

  /** The regions of an IOL report with a known variant, with the OS ones
      added. */
  function IolRegions(table: map<RegionName, Rect>): (regions: map<RegionName, Rect>)
    requires table.Keys == IolOdNames
    ensures HasOdRegions(regions) && forall j :: 0 <= j <= LensCount ==> Column(Os, j) in regions
  {
    IolTableHasOd(table);
    WithOsRegions(table, |OsPairs()|)
  }

  lemma IolTableHasOd(table: map<RegionName, Rect>)
    requires table.Keys == IolOdNames
    ensures HasOdRegions(table)
  {
    forall j | 0 <= j <= LensCount
      ensures Column(Od, j) in table
    {
      if j == 0 {
      } else if j == 1 {
      } else if j == 2 {
      } else if j == 3 {
      } else {
        assert j == 4;
      }
    }
  }

  /** The dictionary `get_pdf_data_iol` returns, or the exception it raises. */
  function IolDataOf(parse: FloatParser, doc: Document): Result<Fields>
  {
    match IolRegionTable(doc.title)
    case None => Ok(Base(doc))
    case Some(table) =>
      var spans := SpansOf(doc.blocks, IolRegions(table));
      IolRegionNames(table);
      StoreEyes(Headed(doc, spans), IolEyes(parse, spans))
  }

  /** Every region an IOL extraction reads is in its regions. */
  lemma IolRegionNames(table: map<RegionName, Rect>)
    requires table.Keys == IolOdNames
    ensures HasIolRegions(IolRegions(table))
  {
    IolTableHasOd(table);
    var r := IolRegions(table);
    forall j | 0 <= j <= LensCount
      ensures Column(Od, j) in r && Column(Os, j) in r
    {
      OsRoundsKeep(table, LensCount + 1, Column(Od, j));
    }
    OsRoundsKeep(table, LensCount + 1, Header(1));
    OsRoundsKeep(table, LensCount + 1, Header(2));
  }

  /** The loop keeps every region it was given. */
  lemma {:induction false} OsRoundsKeep(regions: map<RegionName, Rect>, n: nat, k: RegionName)
    requires HasOdRegions(regions) && n <= LensCount + 1
    requires k in regions
    ensures k in WithOsRegions(regions, n)
  {
    if n > 0 {
      OsRoundsKeep(regions, n - 1, k);
    }
  }

  // ---------------------------------------------------------------------
  // get_pdf_data_mmt_full

  predicate HasMmtRegions(spans: map<RegionName, seq<Span>>)
  {
    && Header(1) in spans && Header(2) in spans
    && EyeMeasurements(Od) in spans && EyeMeasurements(Os) in spans
  }

  /** `result[eye]` for one eye of an MMT-Full report. */
  function MmtEye(parse: FloatParser, spans: map<RegionName, seq<Span>>, eye: Eye): (r: Result<Fields>)
    requires HasMmtRegions(spans)
    ensures r.Ok? ==> Valid(r.value)
  {
    assert EyeMeasurements(eye) in spans by {
      assert eye == Od || eye == Os;
    }
    MmtDataOf(parse, spans[EyeMeasurements(eye)])
  }

  function MmtEyes(parse: FloatParser, spans: map<RegionName, seq<Span>>): (outcomes: seq<Result<Fields>>)
    requires HasMmtRegions(spans)
    ensures |outcomes| == |Eyes| && AllValid(outcomes)
  {
    seq(|Eyes|, n requires 0 <= n < |Eyes| => MmtEye(parse, spans, Eyes[n]))
  }

  /** `spans_to_lines` of every region, in the order of the regions. */
  function RegionLines(spans: Dict<RegionName, seq<Span>>): (lines: Dict<RegionName, Value>)
    requires Valid(spans)
    ensures Valid(lines) && lines.order == spans.order && lines.entries.Keys == spans.entries.Keys
  {
    Dict(spans.order, map k | k in spans.entries :: Rows(Texts(ToleranceLines(spans.entries[k]))))
  }

  /** `result[key] = spans_to_lines(spans)` for every region in order, as
      assignments: the text of the region's name and its lines. */
  function LinePairs(lines: Dict<RegionName, Value>): (ps: seq<(string, Value)>)
    requires Valid(lines)
    ensures |ps| == |lines.order|
  {
    seq(|lines.order|, j requires 0 <= j < |lines.order| => (RegionKey(lines.order[j]), lines.entries[lines.order[j]]))
  }

  /** The dictionary `get_pdf_data_mmt_full` returns, or the exception it
      raises. */
  function MmtFullDataOf(parse: FloatParser, doc: Document): Result<Fields>
  {
    var spans := RegionSpans(doc.blocks, MmtRegions());
    MmtRegionsComplete(doc.blocks);
    var byName := spans.entries;
    match StoreEyes(Headed(doc, byName), MmtEyes(parse, byName))
    case Err(e) => Err(e)
    case Ok(d) => Ok(SetAll(d, LinePairs(RegionLines(spans))))
  }

  /** Every region an MMT-Full extraction reads is in the table. */
  lemma MmtRegionsComplete(blocks: seq<Block>)
    ensures HasMmtRegions(RegionSpans(blocks, MmtRegions()).entries)
  {
    var d := MmtRegions();
    assert MmtOrder[0] in d.order && MmtOrder[1] in d.order;
    assert MmtOrder[2] in d.order && MmtOrder[3] in d.order;
  }

  // ---------------------------------------------------------------------
  // get_pdf_data

  /** The dictionary `get_pdf_data` returns, or the exception it raises:
      an empty dictionary for a title it does not know. */
  function PdfDataOf(parse: FloatParser, doc: Document): Result<Fields>
  {
    if StartsWith(doc.title, IolPrefix) then IolDataOf(parse, doc)
    else if doc.title == MmtFullTitle then MmtFullDataOf(parse, doc)
    else Ok(Empty())
  }

  // ---------------------------------------------------------------------
  // The methods

  /** `get_pdf_data`. */
  method GetPdfData(parse: FloatParser, doc: Document) returns (r: Result<Fields>)
    ensures r == PdfDataOf(parse, doc)
  {
    if StartsWith(doc.title, IolPrefix) {
      r := GetPdfDataIol(parse, doc);
    } else if doc.title == MmtFullTitle {
      r := GetPdfDataMmtFull(parse, doc);
    } else {
      r := Ok(Empty());
    }
  }

  /** `get_pdf_data_iol`. */
  method GetPdfDataIol(parse: FloatParser, doc: Document) returns (r: Result<Fields>)
    ensures r == IolDataOf(parse, doc)
  {
    var result := Base(doc);
    var table := IolRegionTable(doc.title);
    if table.None? {
      return Ok(result);
    }
    IolTableHasOd(table.value);
    var regions := AddOsRegions(table.value);
    var spans := SpansOf(doc.blocks, regions);
    IolRegionNames(table.value);
    result := ReadHeaders(result, spans);
    IolEyesRead(parse, spans);
    r := ReadIolEyes(parse, spans, IolEyes(parse, spans), result);
  }

  /** `result.update(...)` with both header regions. */
  method ReadHeaders(base: Fields, spans: map<RegionName, seq<Span>>) returns (d: Fields)
    requires Valid(base) && Header(1) in spans && Header(2) in spans
    ensures d == Update(Update(base, KeyValuesOf(spans[Header(1)])), KeyValuesOf(spans[Header(2)]))
  {
    var one := GetKeyValues(spans[Header(1)]);
    d := Update(base, one);
    var two := GetKeyValues(spans[Header(2)]);
    d := Update(d, two);
  }

  /** `outcomes` are what the reads of the eyes of an IOL report give. */
  ghost predicate IolReads(parse: FloatParser, spans: map<RegionName, seq<Span>>, outcomes: seq<Result<Fields>>)
  {
    && HasIolRegions(spans) && |outcomes| == |Eyes| && AllValid(outcomes)
    && forall j {:trigger IolEye(parse, spans, Eyes[j])} :: 0 <= j < |Eyes| ==> outcomes[j] == IolEye(parse, spans, Eyes[j])
  }

  /** The reads of the eyes give `IolEyes`. */
  lemma IolEyesRead(parse: FloatParser, spans: map<RegionName, seq<Span>>)
    requires HasIolRegions(spans)
    ensures IolReads(parse, spans, IolEyes(parse, spans))
  {
    var outcomes := IolEyes(parse, spans);
    forall j | 0 <= j < |Eyes|
      ensures outcomes[j] == IolEye(parse, spans, Eyes[j])
    {
    }
  }

  /** The loop over the eyes of an IOL report; `outcomes` names what the
      reads of the eyes give. */
  method ReadIolEyes(parse: FloatParser, spans: map<RegionName, seq<Span>>, ghost outcomes: seq<Result<Fields>>, d: Fields)
    returns (r: Result<Fields>)
    requires IolReads(parse, spans, outcomes) && Valid(d)
    ensures r == StoreEyes(d, outcomes)
  {
    var result := d;
    for n := 0 to |Eyes|
      invariant StoreEyes(d, outcomes[..n]) == Ok(result)
    {
      var eye := ReadIolEye(parse, spans, n, outcomes);
      StoreEyesStep(d, outcomes, n, result);
      if eye.Err? {
        return Err(eye.error);
      }
      result := Set(result, EyeKey(Eyes[n]), Nest(eye.value));
    }
    assert outcomes[..|Eyes|] == outcomes;
    r := Ok(result);
  }

  /** One more eye: an exception ends the loop, a dictionary is stored
      under the eye's key. */
  lemma StoreEyesNext(d: Fields, outcomes: seq<Result<Fields>>, n: nat)
    requires Valid(d) && |outcomes| <= |Eyes| && AllValid(outcomes) && n < |outcomes|
    ensures StoreEyes(d, outcomes[..n + 1]) ==
      match StoreEyes(d, outcomes[..n])
      case Err(e) => Err(e)
      case Ok(before) =>
        match outcomes[n]
        case Err(e) => Err(e)
        case Ok(eye) => Ok(Set(before, EyeKey(Eyes[n]), Nest(eye)))
  {
    var next: nat := n + 1;
    var pre := outcomes[..next];
    assert pre[..n] == outcomes[..n] && pre[n] == outcomes[n];
  }

  /** The loop's step over eye `n`, given what the earlier eyes stored. */
  lemma StoreEyesStep(d: Fields, outcomes: seq<Result<Fields>>, n: nat, result: Fields)
    requires Valid(d) && |outcomes| <= |Eyes| && AllValid(outcomes) && n < |outcomes|
    requires StoreEyes(d, outcomes[..n]) == Ok(result)
    ensures outcomes[n].Err? ==> StoreEyes(d, outcomes) == Err(outcomes[n].error)
    ensures outcomes[n].Ok? ==> StoreEyes(d, outcomes[..n + 1]) == Ok(Set(result, EyeKey(Eyes[n]), Nest(outcomes[n].value)))
  {
    StoreEyesNext(d, outcomes, n);
    if outcomes[n].Err? {
      StoreEyesStops(d, outcomes, n + 1);
    }
  }

  /** An exception ends the loop over the eyes. */
  lemma {:induction false} StoreEyesStops(d: Fields, outcomes: seq<Result<Fields>>, j: nat)
    requires Valid(d) && |outcomes| <= |Eyes| && AllValid(outcomes) && j <= |outcomes| && StoreEyes(d, outcomes[..j]).Err?
    ensures StoreEyes(d, outcomes) == StoreEyes(d, outcomes[..j])
    decreases |outcomes|
  {
    if j < |outcomes| {
      var pre := outcomes[..|outcomes| - 1];
      assert pre[..j] == outcomes[..j];
      StoreEyesStops(d, pre, j);
    } else {
      assert outcomes[..j] == outcomes;
    }
  }

  /** One eye: its header, then the loop over its lens columns. */
  method ReadIolEye(parse: FloatParser, spans: map<RegionName, seq<Span>>, n: nat, ghost outcomes: seq<Result<Fields>>) returns (r: Result<Fields>)
    requires IolReads(parse, spans, outcomes) && n < |Eyes|
    ensures r == outcomes[n]
  {
    assert outcomes[n] == IolEye(parse, spans, Eyes[n]);
    var eye := Eyes[n];
    assert HasEyeRegions(spans, eye) by {
      assert eye == Od || eye == Os;
    }
    var fields := GetKeyValues(spans[Column(eye, 0)]);
    var lenses := ReadLenses(parse, LensColumns(spans, eye));
    if lenses.Err? {
      return Err(lenses.error);
    }
    r := Ok(Set(fields, LensesKey, Nest(lenses.value)));
  }

  /** The loop over the lens columns of an eye. */
  method ReadLenses(parse: FloatParser, columns: seq<seq<Span>>) returns (r: Result<Fields>)
    ensures r == LensesOf(LensReads(parse, columns))
  {
    ghost var outcomes := LensReads(parse, columns);
    var lenses: Fields := Empty();
    for i := 0 to |columns|
      invariant LensesOf(outcomes[..i]) == Ok(lenses)
    {
      var lens := GetLensValues(parse, columns[i]);
      assert lens == outcomes[i];
      LensesOfNext(outcomes, i);
      if lens.Err? {
        LensesOfStops(outcomes, i + 1);
        return Err(lens.error);
      }
      lenses := Set(lenses, lens.value.entries[NameKey].text, Nest(lens.value));
    }
    assert outcomes[..|columns|] == outcomes;
    r := Ok(lenses);
  }

  /** One more column: an exception ends the loop, a lens is stored under
      its name. */
  lemma LensesOfNext(outcomes: seq<Result<Fields>>, i: nat)
    requires AllNamed(outcomes) && i < |outcomes|
    ensures LensesOf(outcomes[..i + 1]) ==
      match LensesOf(outcomes[..i])
      case Err(e) => Err(e)
      case Ok(lenses) =>
        match outcomes[i]
        case Err(e) => Err(e)
        case Ok(lens) => Ok(Set(lenses, NameOf(lens), Nest(lens)))
  {
    var next: nat := i + 1;
    var pre := outcomes[..next];
    assert pre[..i] == outcomes[..i] && pre[i] == outcomes[i];
  }

  /** An exception ends the loop: the later columns change nothing. */
  lemma {:induction false} LensesOfStops(outcomes: seq<Result<Fields>>, j: nat)
    requires AllNamed(outcomes) && j <= |outcomes| && LensesOf(outcomes[..j]).Err?
    ensures LensesOf(outcomes) == LensesOf(outcomes[..j])
    decreases |outcomes|
  {
    if j < |outcomes| {
      var pre := outcomes[..|outcomes| - 1];
      assert pre[..j] == outcomes[..j];
      LensesOfStops(pre, j);
    } else {
      assert outcomes[..j] == outcomes;
    }
  }

  /** `get_pdf_data_mmt_full`. */
  method GetPdfDataMmtFull(parse: FloatParser, doc: Document) returns (r: Result<Fields>)
    ensures r == MmtFullDataOf(parse, doc)
  {
    var spans := RegionSpans(doc.blocks, MmtRegions());
    MmtRegionsComplete(doc.blocks);
    var result := ReadHeaders(Base(doc), spans.entries);
    var eyes := ReadMmtEyes(parse, spans.entries, MmtEyes(parse, spans.entries), result);
    if eyes.Err? {
      return eyes;
    }
    var d := StoreRegionLines(spans, eyes.value);
    r := Ok(d);
  }

  /** The loop that stores the lines of every region under its name. */
  method StoreRegionLines(spans: Dict<RegionName, seq<Span>>, d: Fields) returns (result: Fields)
    requires Valid(spans) && Valid(d)
    ensures result == SetAll(d, LinePairs(RegionLines(spans)))
  {
    ghost var ps := LinePairs(RegionLines(spans));
    result := d;
    for n := 0 to |spans.order|
      invariant result == SetAll(d, ps[..n])
    {
      var key := spans.order[n];
      var rows := SpansToLines(spans.entries[key]);
      assert RegionLines(spans).entries[key] == Rows(rows);
      LinePairsNext(RegionLines(spans), n);
      SetAllSnoc(d, ps[..n], RegionKey(key), Rows(rows));
      result := Set(result, RegionKey(key), Rows(rows));
    }
    assert ps[..|spans.order|] == ps;
  }

  lemma LinePairsNext(lines: Dict<RegionName, Value>, n: nat)
    requires Valid(lines) && n < |lines.order|
    ensures LinePairs(lines)[..n + 1] == LinePairs(lines)[..n] + [(RegionKey(lines.order[n]), lines.entries[lines.order[n]])]
  {
    var ps := LinePairs(lines);
    var next: nat := n + 1;
    assert ps[..next] == ps[..n] + [ps[n]];
  }

  /** The loop over the eyes of an MMT-Full report. */
  method ReadMmtEyes(parse: FloatParser, spans: map<RegionName, seq<Span>>, ghost outcomes: seq<Result<Fields>>, d: Fields)
    returns (r: Result<Fields>)
    requires HasMmtRegions(spans) && outcomes == MmtEyes(parse, spans)
    requires Valid(d) && |outcomes| == |Eyes| && AllValid(outcomes)
    ensures r == StoreEyes(d, outcomes)
  {
    var result := d;
    for n := 0 to |Eyes|
      invariant StoreEyes(d, outcomes[..n]) == Ok(result)
    {
      var eye := ReadMmtEye(parse, spans, n, outcomes);
      StoreEyesStep(d, outcomes, n, result);
      if eye.Err? {
        return Err(eye.error);
      }
      result := Set(result, EyeKey(Eyes[n]), Nest(eye.value));
    }
    assert outcomes[..|Eyes|] == outcomes;
    r := Ok(result);
  }


  /** One eye of an MMT-Full report. */
  method ReadMmtEye(parse: FloatParser, spans: map<RegionName, seq<Span>>, n: nat, ghost outcomes: seq<Result<Fields>>) returns (r: Result<Fields>)
    requires HasMmtRegions(spans) && n < |Eyes| && outcomes == MmtEyes(parse, spans)
    ensures r == outcomes[n]
  {
    var eye := Eyes[n];
    assert EyeMeasurements(eye) in spans by {
      assert eye == Od || eye == Os;
    }
    r := GetMmtData(parse, spans[EyeMeasurements(eye)]);
  }
}
