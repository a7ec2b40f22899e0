/** What an MMT-Full report gives: each region's lines are stored under its
    own key, and the eyes under "od" and "os". */
module MmtReportFacts {
  import opened Basics
  import opened Dicts
  import opened Layout
  import opened Lines
  import opened Records
  import opened Measurements
  import opened Report
  import opened ReportFacts

  /** The regions are stored under pairwise distinct keys. */
  lemma LinePairsDistinct(lines: Dict<RegionName, Value>)
    requires Valid(lines)
    ensures forall a, b :: 0 <= a < b < |LinePairs(lines)| ==> LinePairs(lines)[a].0 != LinePairs(lines)[b].0
  {
    var ps := LinePairs(lines);
    forall a, b | 0 <= a < b < |ps|
      ensures ps[a].0 != ps[b].0
    {
      if ps[a].0 == ps[b].0 {
        RegionKeyInjective(lines.order[a], lines.order[b]);
      }
    }
  }

  /** After the loop over the regions, each region holds the lines of its
      own spans. */
  lemma LinesStored(spans: Dict<RegionName, seq<Span>>, d: Fields, i: nat)
    requires Valid(spans) && Valid(d) && i < |spans.order|
    ensures RegionKey(spans.order[i]) in SetAll(d, LinePairs(RegionLines(spans))).entries
    ensures SetAll(d, LinePairs(RegionLines(spans))).entries[RegionKey(spans.order[i])]
         == Rows(Texts(ToleranceLines(spans.entries[spans.order[i]])))
  {
    var lines := RegionLines(spans);
    var ps := LinePairs(lines);
    var r := spans.order[i];
    assert ps[i] == (RegionKey(r), lines.entries[r]);
    LinePairsDistinct(lines);
    LastValueDistinct(ps, i);
    GetSetAll(d, ps, RegionKey(r));
  }

  /** The loop over the regions leaves every key that is not a region's
      as it was. */
  lemma LinesKeep(spans: Dict<RegionName, seq<Span>>, d: Fields, k: string)
    requires Valid(spans) && Valid(d) && !StartsWith(k, RegionPrefix)
    ensures Get(SetAll(d, LinePairs(RegionLines(spans))), k) == Get(d, k)
  {
    var lines := RegionLines(spans);
    var ps := LinePairs(lines);
    forall j | 0 <= j < |ps|
      ensures ps[j].0 != k
    {
      assert ps[j].0 == RegionKey(lines.order[j]);
      RegionKeyShape(lines.order[j]);
    }
    LastValueAbsent(ps, k);
    GetSetAll(d, ps, k);
  }

  /** The loop over the regions stores each region's lines under the text
      of its name and leaves every other key as it was. */
  lemma LinesResult(spans: Dict<RegionName, seq<Span>>, d: Fields)
    requires Valid(spans) && Valid(d)
    ensures forall i :: 0 <= i < |spans.order| ==>
      && RegionKey(spans.order[i]) in SetAll(d, LinePairs(RegionLines(spans))).entries
      && SetAll(d, LinePairs(RegionLines(spans))).entries[RegionKey(spans.order[i])]
         == Rows(Texts(ToleranceLines(spans.entries[spans.order[i]])))
    ensures forall k :: !StartsWith(k, RegionPrefix) ==> Get(SetAll(d, LinePairs(RegionLines(spans))), k) == Get(d, k)
  {
    forall i | 0 <= i < |spans.order|
      ensures RegionKey(spans.order[i]) in SetAll(d, LinePairs(RegionLines(spans))).entries
      ensures SetAll(d, LinePairs(RegionLines(spans))).entries[RegionKey(spans.order[i])]
           == Rows(Texts(ToleranceLines(spans.entries[spans.order[i]])))
    {
      LinesStored(spans, d, i);
    }
    forall k | !StartsWith(k, RegionPrefix)
      ensures Get(SetAll(d, LinePairs(RegionLines(spans))), k) == Get(d, k)
    {
      LinesKeep(spans, d, k);
    }
  }

  /** The spans of the regions of an MMT-Full report. */
  function MmtSpans(doc: Document): (spans: Dict<RegionName, seq<Span>>)
    ensures Valid(spans) && spans.order == MmtOrder && HasMmtRegions(spans.entries)
  {
    MmtRegionsComplete(doc.blocks);
    RegionSpans(doc.blocks, MmtRegions())
  }

  /** Storing the eyes and then the regions' lines raises exactly when an
      eye raises, and keeps the eyes under "od" and "os". */
  lemma EyesThenLines(d: Fields, outcomes: seq<Result<Fields>>, spans: Dict<RegionName, seq<Span>>)
    requires Valid(d) && |outcomes| == |Eyes| && AllValid(outcomes) && Valid(spans)
    ensures StoreEyes(d, outcomes).Ok? <==> outcomes[0].Ok? && outcomes[1].Ok?
    ensures StoreEyes(d, outcomes).Ok? ==>
      var r := SetAll(StoreEyes(d, outcomes).value, LinePairs(RegionLines(spans)));
      && EyeKey(Od) in r.entries && r.entries[EyeKey(Od)] == Nest(outcomes[0].value)
      && EyeKey(Os) in r.entries && r.entries[EyeKey(Os)] == Nest(outcomes[1].value)
  {
    EyesResult(d, outcomes);
    if StoreEyes(d, outcomes).Ok? {
      var stored := StoreEyes(d, outcomes).value;
      LinesKeep(spans, stored, EyeKey(Od));
      LinesKeep(spans, stored, EyeKey(Os));
    }
  }

  /** An MMT-Full report raises exactly when the reading of one of its eyes
      raises; otherwise each eye is stored under "od" or "os". */
  lemma MmtResultEyes(parse: FloatParser, doc: Document)
    ensures MmtFullDataOf(parse, doc).Ok?
        <==> MmtEye(parse, MmtSpans(doc).entries, Od).Ok? && MmtEye(parse, MmtSpans(doc).entries, Os).Ok?
    ensures MmtFullDataOf(parse, doc).Ok? ==>
      && EyeKey(Od) in MmtFullDataOf(parse, doc).value.entries
      && MmtFullDataOf(parse, doc).value.entries[EyeKey(Od)] == Nest(MmtEye(parse, MmtSpans(doc).entries, Od).value)
      && EyeKey(Os) in MmtFullDataOf(parse, doc).value.entries
      && MmtFullDataOf(parse, doc).value.entries[EyeKey(Os)] == Nest(MmtEye(parse, MmtSpans(doc).entries, Os).value)
  {
    var spans := MmtSpans(doc);
    var byName := spans.entries;
    var eyes := MmtEyes(parse, byName);
    assert eyes[0] == MmtEye(parse, byName, Od) && eyes[1] == MmtEye(parse, byName, Os);
    EyesThenLines(Headed(doc, byName), eyes, spans);
    if StoreEyes(Headed(doc, byName), eyes).Ok? {
      assert MmtFullDataOf(parse, doc) == Ok(SetAll(StoreEyes(Headed(doc, byName), eyes).value, LinePairs(RegionLines(spans))));
    }
  }

  /** A finished MMT-Full report holds the lines of each region under the
      text of its name, and every key that is neither an eye's nor a
      region's holds what the headers gave it. */
  lemma MmtResultRegions(parse: FloatParser, doc: Document)
    requires MmtFullDataOf(parse, doc).Ok?
    ensures forall i :: 0 <= i < |MmtOrder| ==>
      && RegionKey(MmtOrder[i]) in MmtFullDataOf(parse, doc).value.entries
      && MmtFullDataOf(parse, doc).value.entries[RegionKey(MmtOrder[i])]
         == Rows(Texts(ToleranceLines(MmtSpans(doc).entries[MmtOrder[i]])))
    ensures forall k :: k != EyeKey(Od) && k != EyeKey(Os) && !StartsWith(k, RegionPrefix) ==>
      Get(MmtFullDataOf(parse, doc).value, k) == Get(Headed(doc, MmtSpans(doc).entries), k)
  {
    var spans := MmtSpans(doc);
    var byName := spans.entries;
    var eyes := MmtEyes(parse, byName);
    EyesResult(Headed(doc, byName), eyes);
    var d := StoreEyes(Headed(doc, byName), eyes).value;
    assert MmtFullDataOf(parse, doc) == Ok(SetAll(d, LinePairs(RegionLines(spans))));
    LinesResult(spans, d);
  }
}
