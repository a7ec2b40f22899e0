/** `get_mmt_data`: the measurements of one eye of an MMT-Full report. The
    spans are grouped into lines with the tolerance rule of `spans_to_lines`
    and each line is sorted by x. Then every line is read in order:
    - every span's text is cut into `key:value` / `key=value` pairs, and
      each pair with a key or a value is stored, stripped of " ()"; `K1`,
      `K2` and `DeltaK` (a `K` right after a `∆` span) get the smallest free
      suffix `_n`;
    - the line after one starting with `ACD:` is copied raw into `ACD_i`;
    - after an `AL` / `SNR` header line, every line whose first two texts
      parse as numbers (the first without " mm") adds `AL_n` and `SNR_n`;
      the first line that does not parse ends the table. */
module Measurements {
  import opened Basics
  import opened Dicts
  import opened Layout
  import opened Sorting
  import opened Lines
  import opened Records

  /** The characters that end a key or a value. */
  const Delimiters: set<char> := {':', '='}

  const KKey := "K"
  const KOneKey := "K1"
  const KTwoKey := "K2"
  const DeltaKKey := "DeltaK"
  const DeltaSign := "\U{2206}"
  const AcdPrefix := "ACD:"
  const AcdStem := "ACD"
  const AlHeader := "AL"
  const SnrHeader := "SNR"
  const AlStem := "AL"
  const SnrStem := "SNR"

  // ---------------------------------------------------------------------
  // get_next_key_value

  /** The first delimiter at or after `i`, or the end of the text. */
  function NextDelimiter(text: string, i: nat): (e: nat)
    requires i <= |text|
    ensures i <= e <= |text|
    ensures e < |text| ==> text[e] in Delimiters
    ensures forall k :: i <= k < e ==> text[k] !in Delimiters
    decreases |text| - i
  {
    if i == |text| || text[i] in Delimiters then i else NextDelimiter(text, i + 1)
  }

  /** Step back from `e` to just after the nearest space, but not before
      `lo`. */
  function BackToSpace(text: string, lo: nat, e: nat): (r: nat)
    requires lo <= e <= |text|
    ensures lo <= r <= e
    ensures r == lo || text[r - 1] == ' '
    ensures forall k :: r <= k < e ==> text[k] != ' '
  {
    if e == lo || text[e - 1] == ' ' then e else BackToSpace(text, lo, e - 1)
  }

  /** `get_next_key_value`: the key before the first delimiter, the value up
      to the next key, and the rest of the text; None for the
      `(None, None, "")` of a text without a delimiter. */
  function NextKeyValue(text: string): (r: Option<(string, string, string)>)
    ensures r.Some? ==> |r.value.2| < |text|
  {
    var keyEnd := NextDelimiter(text, 0);
    if keyEnd == |text| then None
    else
      var valueStart := keyEnd + 1;
      var found := NextDelimiter(text, valueStart);
      var valueEnd := if found < |text| then BackToSpace(text, valueStart, found) else found;
      Some((text[..keyEnd], text[valueStart..valueEnd], text[valueEnd..]))
  }

  method GetNextKeyValue(text: string) returns (r: Option<(string, string, string)>)
    ensures r == NextKeyValue(text)
  {
    var keyEnd := 0;
    while keyEnd < |text| && text[keyEnd] !in Delimiters
      invariant keyEnd <= |text| && NextDelimiter(text, keyEnd) == NextDelimiter(text, 0)
    {
      keyEnd := keyEnd + 1;
    }
    if keyEnd == |text| {
      return None;
    }
    var valueStart := keyEnd + 1;
    var valueEnd := valueStart;
    while valueEnd < |text| && text[valueEnd] !in Delimiters
      invariant valueStart <= valueEnd <= |text| && NextDelimiter(text, valueEnd) == NextDelimiter(text, valueStart)
    {
      valueEnd := valueEnd + 1;
    }
    if valueEnd < |text| && text[valueEnd] in Delimiters {
      ghost var found := valueEnd;
      while valueEnd > valueStart && text[valueEnd - 1] != ' '
        invariant valueStart <= valueEnd <= found && BackToSpace(text, valueStart, valueEnd) == BackToSpace(text, valueStart, found)
      {
        valueEnd := valueEnd - 1;
      }
    }
    r := Some((text[..keyEnd], text[valueStart..valueEnd], text[valueEnd..]));
  }

  // ---------------------------------------------------------------------
  // The suffix of K1, K2 and DeltaK

  /** The keys that are numbered so that repeated readings are all kept. */
  predicate Counted(key: string)
  {
    key == KOneKey || key == KTwoKey || key == DeltaKKey
  }

  /** The smallest n such that `f"{stem}_{n}"` is not a key of `d`. */
  function FreeSuffix(d: Fields, stem: string): (n: nat)
    ensures Indexed(stem, n) !in d.entries
    ensures forall j :: 0 <= j < n ==> Indexed(stem, j) in d.entries
  {
    FreeSuffixFrom(d, stem, 0)
  }

  function FreeSuffixFrom(d: Fields, stem: string, i: nat): (n: nat)
    requires forall j :: 0 <= j < i ==> Indexed(stem, j) in d.entries
    ensures i <= n && Indexed(stem, n) !in d.entries
    ensures forall j :: 0 <= j < n ==> Indexed(stem, j) in d.entries
    decreases |d.entries.Keys| - i
  {
    IndexedKeysBound(d.entries.Keys, stem, i);
    if Indexed(stem, i) in d.entries then
      IndexedKeysBound(d.entries.Keys, stem, i + 1);
      FreeSuffixFrom(d, stem, i + 1)
    else i
  }

  /** `i = 0; while f"{key}_{i}" in result: i += 1`. */
  method FindFreeSuffix(d: Fields, stem: string) returns (n: nat)
    ensures n == FreeSuffix(d, stem)
  {
    n := 0;
    while Indexed(stem, n) in d.entries
      invariant forall j :: 0 <= j < n ==> Indexed(stem, j) in d.entries
      decreases |d.entries.Keys| - n
    {
      IndexedKeysBound(d.entries.Keys, stem, n + 1);
      n := n + 1;
    }
    FreeSuffixUnique(d, stem, n);
  }

  /** The two properties of `FreeSuffix` determine it. */
  lemma FreeSuffixUnique(d: Fields, stem: string, n: nat)
    requires Indexed(stem, n) !in d.entries
    requires forall j :: 0 <= j < n ==> Indexed(stem, j) in d.entries
    ensures n == FreeSuffix(d, stem)
  {
  }

  // ---------------------------------------------------------------------
  // The scan of the span texts

  /** The result so far and the loop variable `i`, which the suffix search
      reuses. */
  datatype ScanState = ScanState(result: Fields, i: nat)

  /** The key after the `K` to `DeltaK` renaming: a bare `K` whose preceding
      span is the sign "∆" is a delta-K reading. */
  function KeyName(i: nat, v: seq<Span>, key: string): string
    requires key == KKey && i >= 1 ==> i - 1 < |v|
  {
    if key == KKey && i >= 1 && v[i - 1].text == DeltaSign then DeltaKKey else key
  }

  /** The store of a renamed key: a counted key takes the first free
      suffix, which also becomes the loop variable `i`. */
  function Stored(st: ScanState, named: string, value: string): (r: ScanState)
    requires Valid(st.result)
    ensures Valid(r.result)
  {
    if Counted(named) then
      var n := FreeSuffix(st.result, named);
      ScanState(Set(st.result, Strip(Indexed(named, n), StripChars), Str(Strip(value, StripChars))), n)
    else
      ScanState(Set(st.result, Strip(named, StripChars), Str(Strip(value, StripChars))), st.i)
  }

  /** The body of `if key or value:` for one pair found in span `st.i` of
      line `v`. */
  function StoreKeyValue(st: ScanState, v: seq<Span>, key: string, value: string): (r: Result<ScanState>)
    requires Valid(st.result)
    ensures r.Ok? ==> Valid(r.value.result)
  {
    if key == [] && value == [] then Ok(st)
    else if key == KKey && st.i >= 1 && st.i - 1 >= |v| then Err(IndexOutOfRange)
    else Ok(Stored(st, KeyName(st.i, v, key), value))
  }

  /** `while text:` over one span's text. */
  function SpanScan(st: ScanState, v: seq<Span>, text: string): (r: Result<ScanState>)
    requires Valid(st.result)
    ensures r.Ok? ==> Valid(r.value.result)
    decreases |text|
  {
    if text == [] then Ok(st)
    else
      match NextKeyValue(text)
      case None => Ok(st)
      case Some((key, value, rest)) =>
        match StoreKeyValue(st, v, key, value)
        case Err(e) => Err(e)
        case Ok(next) => SpanScan(next, v, rest)
  }

  /** `for i, span in enumerate(v)` over the first `n` spans of a line. */
  function LineScan(d: Fields, v: seq<Span>, n: nat): (r: Result<Fields>)
    requires Valid(d) && n <= |v|
    ensures r.Ok? ==> Valid(r.value)
  {
    if n == 0 then Ok(d)
    else
      match LineScan(d, v, n - 1)
      case Err(e) => Err(e)
      case Ok(before) =>
        match SpanScan(ScanState(before, n - 1), v, v[n - 1].text)
        case Err(e) => Err(e)
        case Ok(st) => Ok(st.result)
  }

  /** One pair of the scan. */
  method StoreKey(st: ScanState, v: seq<Span>, key: string, value: string) returns (r: Result<ScanState>)
    requires Valid(st.result)
    ensures r == StoreKeyValue(st, v, key, value)
  {
    if key == [] && value == [] {
      return Ok(st);
    }
    var named := key;
    if key == KKey && st.i >= 1 {
      if st.i - 1 >= |v| {
        return Err(IndexOutOfRange);
      }
      if v[st.i - 1].text == DeltaSign {
        named := DeltaKKey;
      }
    }
    assert named == KeyName(st.i, v, key);
    var next := StoreNamed(st, named, value);
    r := Ok(next);
  }

  /** The store of a renamed key, with the suffix search as a loop. */
  method StoreNamed(st: ScanState, named: string, value: string) returns (r: ScanState)
    requires Valid(st.result)
    ensures r == Stored(st, named, value)
  {
    var full, i := named, st.i;
    if Counted(named) {
      i := FindFreeSuffix(st.result, named);
      full := Indexed(named, i);
    }
    r := ScanState(Set(st.result, Strip(full, StripChars), Str(Strip(value, StripChars))), i);
  }

  /** `while text:` for one span. */
  method ScanSpan(st: ScanState, v: seq<Span>, text: string) returns (r: Result<ScanState>)
    requires Valid(st.result)
    ensures r == SpanScan(st, v, text)
  {
    var cur, rest := st, text;
    while rest != []
      invariant Valid(cur.result)
      invariant SpanScan(cur, v, rest) == SpanScan(st, v, text)
      decreases |rest|
    {
      var kv := GetNextKeyValue(rest);
      if kv.None? {
        return Ok(cur);
      }
      var stored := StoreKey(cur, v, kv.value.0, kv.value.1);
      if stored.Err? {
        return Err(stored.error);
      }
      cur, rest := stored.value, kv.value.2;
    }
    r := Ok(cur);
  }

  /** The span loop of one line. */
  method ScanLine(d: Fields, v: seq<Span>) returns (r: Result<Fields>)
    requires Valid(d)
    ensures r == LineScan(d, v, |v|)
  {
    var cur := d;
    for n := 0 to |v|
      invariant LineScan(d, v, n) == Ok(cur)
    {
      var st := ScanSpan(ScanState(cur, n), v, v[n].text);
      if st.Err? {
        LineScanStops(d, v, n + 1, |v|);
        return Err(st.error);
      }
      cur := st.value.result;
    }
    r := Ok(cur);
  }

  /** An exception in one span ends the line. */
  lemma {:induction false} LineScanStops(d: Fields, v: seq<Span>, n: nat, m: nat)
    requires Valid(d) && n <= m <= |v| && LineScan(d, v, n).Err?
    ensures LineScan(d, v, m) == LineScan(d, v, n)
    decreases m
  {
    if n < m {
      LineScanStops(d, v, n, m - 1);
    }
  }

  // ---------------------------------------------------------------------
  // ACD and AL / SNR

  /** `for i in range(len(v)): result[f"ACD_{i}"] = v[i]["text"]` for the
      first `n` spans. */
  function AcdCapture(d: Fields, v: seq<Span>, n: nat): (r: Fields)
    requires Valid(d) && n <= |v|
    ensures Valid(r)
  {
    if n == 0 then d else Set(AcdCapture(d, v, n - 1), Indexed(AcdStem, n - 1), Str(v[n - 1].text))
  }

  method CaptureAcd(d: Fields, v: seq<Span>) returns (r: Fields)
    requires Valid(d)
    ensures r == AcdCapture(d, v, |v|)
  {
    r := d;
    for i := 0 to |v|
      invariant r == AcdCapture(d, v, i)
    {
      r := Set(r, Indexed(AcdStem, i), Str(v[i].text));
    }
  }

  /** `v[0] == "AL" and v[1] == "SNR"`, when it does not raise. */
  predicate IsAlHeader(v: seq<Span>)
  {
    |v| >= 2 && v[0].text == AlHeader && v[1].text == SnrHeader
  }

  /** The `try` block: `float(v[0].replace(" mm", ""))` and `float(v[1])`,
      or None where either raises. */
  function AlRow(parse: FloatParser, v: seq<Span>): Option<(real, real)>
  {
    if v == [] then None
    else
      match parse(ReplaceAll(v[0].text, MillimetreSuffix, ""))
      case None => None
      case Some(al) =>
        if |v| < 2 then None
        else
          match parse(v[1].text)
          case None => None
          case Some(snr) => Some((al, snr))
  }

  /** The state of the line loop: the result, `acd_flag`, `al_snr_flag` and
      `al_snr_count`. */
  datatype MmtState = MmtState(result: Fields, acdOn: bool, alOn: bool, alCount: nat)

  /** The AL / SNR part of one line, after the scan and the ACD part. */
  function AlStep(parse: FloatParser, st: MmtState, v: seq<Span>): (r: Result<MmtState>)
    requires Valid(st.result)
    ensures r.Ok? ==> Valid(r.value.result)
  {
    if v != [] && v[0].text == AlHeader && |v| < 2 then Err(IndexOutOfRange)
    else if IsAlHeader(v) then Ok(st.(alOn := true))
    else if !st.alOn then Ok(st)
    else
      match AlRow(parse, v)
      case None => Ok(st.(alOn := false))
      case Some((al, snr)) =>
        var d := Set(Set(st.result, Indexed(AlStem, st.alCount), Num(al)), Indexed(SnrStem, st.alCount), Num(snr));
        Ok(MmtState(d, st.acdOn, true, st.alCount + 1))
  }

  /** One iteration of the line loop. */
  function MmtStep(parse: FloatParser, st: MmtState, v: seq<Span>): (r: Result<MmtState>)
    requires Valid(st.result)
    ensures r.Ok? ==> Valid(r.value.result)
  {
    match LineScan(st.result, v, |v|)
    case Err(e) => Err(e)
    case Ok(scanned) =>
      var captured :=
        if st.acdOn then st.(result := AcdCapture(scanned, v, |v|), acdOn := false)
        else st.(result := scanned, acdOn := v != [] && StartsWith(v[0].text, AcdPrefix));
      AlStep(parse, captured, v)
  }

  /** The line loop, stopping at the first exception. */
  function MmtRun(parse: FloatParser, lines: seq<seq<Span>>, init: MmtState): (r: Result<MmtState>)
    requires Valid(init.result)
    ensures r.Ok? ==> Valid(r.value.result)
  {
    if lines == [] then Ok(init)
    else
      match MmtRun(parse, lines[..|lines| - 1], init)
      case Err(e) => Err(e)
      case Ok(st) => MmtStep(parse, st, lines[|lines| - 1])
  }

  function MmtStart(): (st: MmtState)
    ensures Valid(st.result)
  {
    MmtState(Empty(), false, false, 0)
  }

  /** The dictionary `get_mmt_data` returns, or the exception it raises. */
  function MmtDataOf(parse: FloatParser, spans: seq<Span>): (r: Result<Fields>)
    ensures r.Ok? ==> Valid(r.value)
  {
    match MmtRun(parse, ToleranceLines(spans), MmtStart())
    case Err(e) => Err(e)
    case Ok(st) => Ok(st.result)
  }

  // ---------------------------------------------------------------------
  // The method

  /** `get_mmt_data`. */
  method GetMmtData(parse: FloatParser, spans: seq<Span>) returns (r: Result<Fields>)
    ensures r == MmtDataOf(parse, spans)
  {
    var lines := GroupLines(spans);
    var scanned := ScanMmtLines(parse, lines);
    if scanned.Err? {
      return Err(scanned.error);
    }
    r := Ok(scanned.value.result);
  }

  /** The loop of `get_mmt_data` over the lines. */
  method ScanMmtLines(parse: FloatParser, lines: seq<seq<Span>>) returns (r: Result<MmtState>)
    ensures r == MmtRun(parse, lines, MmtStart())
  {
    var st := MmtStart();
    for j := 0 to |lines|
      invariant MmtRun(parse, lines[..j], MmtStart()) == Ok(st)
    {
      assert lines[..j + 1][..j] == lines[..j];
      var next := ScanMmtLine(parse, st, lines[j]);
      if next.Err? {
        MmtRunStops(parse, lines, j + 1, MmtStart());
        return next;
      }
      st := next.value;
    }
    assert lines[..|lines|] == lines;
    r := Ok(st);
  }

  /** An exception ends the loop: the later lines change nothing. */
  lemma {:induction false} MmtRunStops(parse: FloatParser, lines: seq<seq<Span>>, j: nat, init: MmtState)
    requires Valid(init.result) && j <= |lines|
    requires MmtRun(parse, lines[..j], init).Err?
    ensures MmtRun(parse, lines, init) == MmtRun(parse, lines[..j], init)
    decreases |lines|
  {
    if j < |lines| {
      var pre := lines[..|lines| - 1];
      assert pre[..j] == lines[..j];
      MmtRunStops(parse, pre, j, init);
    } else {
      assert lines[..j] == lines;
    }
  }

  /** One line: the span scan, the ACD capture, the AL / SNR table. */
  method ScanMmtLine(parse: FloatParser, st: MmtState, v: seq<Span>) returns (r: Result<MmtState>)
    requires Valid(st.result)
    ensures r == MmtStep(parse, st, v)
  {
    var scanned := ScanLine(st.result, v);
    if scanned.Err? {
      return Err(scanned.error);
    }
    var cur := st.(result := scanned.value);
    if cur.acdOn {
      var captured := CaptureAcd(cur.result, v);
      cur := cur.(result := captured, acdOn := false);
    } else if v != [] {
      cur := cur.(acdOn := StartsWith(v[0].text, AcdPrefix));
    }
    r := ReadAlLine(parse, cur, v);
  }

  /** The AL / SNR part of one line. */
  method ReadAlLine(parse: FloatParser, st: MmtState, v: seq<Span>) returns (r: Result<MmtState>)
    requires Valid(st.result)
    ensures r == AlStep(parse, st, v)
  {
    if v != [] && v[0].text == AlHeader {
      if |v| < 2 {
        return Err(IndexOutOfRange);
      }
      if v[1].text == SnrHeader {
        return Ok(st.(alOn := true));
      }
    }
    if !st.alOn {
      return Ok(st);
    }
    var row := AlRow(parse, v);
    if row.None? {
      return Ok(st.(alOn := false));
    }
    var (al, snr) := row.value;
    var d := Set(Set(st.result, Indexed(AlStem, st.alCount), Num(al)), Indexed(SnrStem, st.alCount), Num(snr));
    r := Ok(MmtState(d, st.acdOn, true, st.alCount + 1));
  }
}
