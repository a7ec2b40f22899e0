/** What `get_mmt_data` promises: how `get_next_key_value` cuts a text, how
    a pair is stored (stripped, numbered keys never overwritten), the raw
    ACD copy, the AL / SNR table and the exceptions that escape. */
module MeasurementFacts {
  import opened Basics
  import opened Dicts
  import opened Layout
  import opened Sorting
  import opened Lines
  import opened Records
  import opened Measurements

  // ---------------------------------------------------------------------
  // get_next_key_value

  /** `(None, None, "")` exactly for a text without ':' or '='. */
  lemma NextKeyValueNone(text: string)
    ensures NextKeyValue(text).None? <==> forall k :: 0 <= k < |text| ==> text[k] !in Delimiters
  {
    var e := NextDelimiter(text, 0);
    if e < |text| {
      assert text[e] in Delimiters;
    }
  }

  /** The key is the text before the first delimiter, the value the text
      after it up to the space before the next key, and the rest starts
      with that next key: a text is its key, one delimiter, its value and
      its rest, in that order. */
  lemma NextKeyValueParts(text: string)
    requires NextKeyValue(text).Some?
    ensures var (key, value, rest) := NextKeyValue(text).value;
              |key| < |text| && text[|key|] in Delimiters
              && text == key + [text[|key|]] + value + rest
              && (forall k :: 0 <= k < |key| ==> key[k] !in Delimiters)
              && (forall k :: 0 <= k < |value| ==> value[k] !in Delimiters)
  {
    var keyEnd := NextDelimiter(text, 0);
    var start: nat := keyEnd + 1;
    var found := NextDelimiter(text, start);
    var valueEnd := if found < |text| then BackToSpace(text, start, found) else found;
    var key, value, rest := text[..keyEnd], text[start..valueEnd], text[valueEnd..];
    assert NextKeyValue(text).value == (key, value, rest);
    CutAround(text, keyEnd, valueEnd);
    forall k | 0 <= k < |value|
      ensures value[k] !in Delimiters
    {
      assert value[k] == text[start + k];
    }
  }

  /** A text is what comes before position `e`, the character at `e`, what
      comes after it up to `m`, and the tail from `m`. */
  lemma CutAround(s: string, e: nat, m: nat)
    requires e < m <= |s|
    ensures s == s[..e] + [s[e]] + s[e + 1..m] + s[m..]
  {
    assert s[..e] + [s[e]] == s[..e + 1];
    assert s[..e + 1] + s[e + 1..m] == s[..m];
  }

  /** The rest is empty exactly when no second delimiter follows; otherwise
      the value is empty or ends with the space before the next key, and
      that next key holds no space. */
  lemma NextKeyValueRest(text: string)
    requires NextKeyValue(text).Some?
    ensures var (key, value, rest) := NextKeyValue(text).value;
              (rest == [] <==> forall k :: |key| < k < |text| ==> text[k] !in Delimiters)
              && (rest != [] ==> value == [] || value[|value| - 1] == ' ')
              && (rest != [] ==> NextDelimiter(rest, 0) < |rest|
                                 && forall k :: 0 <= k < NextDelimiter(rest, 0) ==> rest[k] != ' ')
  {
    var keyEnd := NextDelimiter(text, 0);
    var start := keyEnd + 1;
    var found := NextDelimiter(text, start);
    var valueEnd := if found < |text| then BackToSpace(text, start, found) else found;
    var key, value, rest := text[..keyEnd], text[start..valueEnd], text[valueEnd..];
    assert NextKeyValue(text).value == (key, value, rest);
    if found < |text| {
      NextKeyHasNoSpace(text, valueEnd, found);
      if value != [] {
        assert value[|value| - 1] == text[valueEnd - 1];
      }
    } else {
      assert rest == [];
    }
  }

  /** Cut at `m`, a text whose first delimiter after `m` is at `e` and which
      holds no space between the two starts with a key without spaces. */
  lemma NextKeyHasNoSpace(text: string, m: nat, e: nat)
    requires m <= e < |text| && text[e] in Delimiters
    requires forall k :: m <= k < e ==> text[k] != ' '
    ensures NextDelimiter(text[m..], 0) < |text[m..]|
    ensures forall k :: 0 <= k < NextDelimiter(text[m..], 0) ==> text[m..][k] != ' '
  {
    var rest := text[m..];
    var at := e - m;
    assert rest[at] == text[e];
    NextDelimiterBefore(rest, at);
    forall k | 0 <= k < NextDelimiter(rest, 0)
      ensures rest[k] != ' '
    {
      assert rest[k] == text[m + k];
    }
  }

  /** The first delimiter comes no later than any delimiter. */
  lemma NextDelimiterBefore(s: string, e: nat)
    requires e < |s| && s[e] in Delimiters
    ensures NextDelimiter(s, 0) <= e
  {
  }

  /** A line that holds two keratometry readings in one span. */
  const TwoReadings := "K1:43.25 K2:44.10"

  /** The example of the two-reading line: the value keeps the space before
      the next key. */
  lemma TwoReadingsCut()
    ensures NextKeyValue(TwoReadings) == Some(("K1", "43.25 ", "K2:44.10"))
  {
    TwoReadingsKeyEnd();
    TwoReadingsValueEnd();
    var t := TwoReadings;
    assert t[..2] == "K1" && t[3..9] == "43.25 " && t[9..] == "K2:44.10";
  }

  lemma TwoReadingsKeyEnd()
    ensures NextDelimiter(TwoReadings, 0) == 2
  {
    var t := TwoReadings;
    assert t[2] in Delimiters && t[0] !in Delimiters && t[1] !in Delimiters;
  }

  lemma TwoReadingsValueEnd()
    ensures NextDelimiter(TwoReadings, 3) == 11
    ensures BackToSpace(TwoReadings, 3, 11) == 9
  {
    var t := TwoReadings;
    assert t[11] in Delimiters;
    assert forall k :: 3 <= k < 11 ==> t[k] !in Delimiters;
    assert t[8] == ' ' && t[9] != ' ' && t[10] != ' ';
  }

  // ---------------------------------------------------------------------
  // Storing one pair

  /** A numbered key is already stripped: it starts with the stem and ends
      with a digit. */
  lemma IndexedStripped(stem: string, n: nat)
    requires stem != [] && stem[0] !in StripChars
    ensures Strip(Indexed(stem, n), StripChars) == Indexed(stem, n)
  {
    var k := Indexed(stem, n);
    var digits := NatToString(n);
    assert k[0] == stem[0];
    assert k[|k| - 1] == digits[|digits| - 1];
    StripStripped(k, StripChars);
  }

  /** `K1`, `K2` and `DeltaK` take the smallest n whose `_n` key is free, so
      an earlier reading is never overwritten; the value is stored stripped
      and `i` becomes n. */
  lemma StoreCountedKey(st: ScanState, v: seq<Span>, key: string, value: string)
    requires Valid(st.result)
    requires key != [] || value != []
    requires key == KKey && st.i >= 1 ==> st.i - 1 < |v|
    requires Counted(KeyName(st.i, v, key))
    ensures var r := StoreKeyValue(st, v, key, value);
            var named := KeyName(st.i, v, key);
              r.Ok?
              && Indexed(named, r.value.i) !in st.result.entries
              && (forall j :: 0 <= j < r.value.i ==> Indexed(named, j) in st.result.entries)
              && r.value.result.entries == st.result.entries[Indexed(named, r.value.i) := Str(Strip(value, StripChars))]
              && Stripped(Strip(value, StripChars), StripChars)
  {
    var named := KeyName(st.i, v, key);
    var n := FreeSuffix(st.result, named);
    IndexedStripped(named, n);
    var stored := Str(Strip(value, StripChars));
    assert StoreKeyValue(st, v, key, value) == Ok(Stored(st, named, value));
    assert Stored(st, named, value) == ScanState(Set(st.result, Indexed(named, n), stored), n);
  }

  /** Any other key is stored stripped of " ()", with its value stripped,
      and leaves `i` alone. */
  lemma StorePlainKey(st: ScanState, v: seq<Span>, key: string, value: string)
    requires Valid(st.result)
    requires key != [] || value != []
    requires key == KKey && st.i >= 1 ==> st.i - 1 < |v|
    requires !Counted(KeyName(st.i, v, key))
    ensures var r := StoreKeyValue(st, v, key, value);
              KeyName(st.i, v, key) == key
              && r.Ok? && r.value.i == st.i
              && r.value.result.entries == st.result.entries[Strip(key, StripChars) := Str(Strip(value, StripChars))]
              && Stripped(Strip(key, StripChars), StripChars)
              && Stripped(Strip(value, StripChars), StripChars)
  {
  }

  /** `K` right after a span "∆" is read as `DeltaK`; no other key is
      renamed. */
  lemma DeltaKRenaming(i: nat, v: seq<Span>, key: string)
    requires key == KKey && i >= 1 ==> i - 1 < |v|
    ensures KeyName(i, v, key) == DeltaKKey <==> key == DeltaKKey || (key == KKey && i >= 1 && v[i - 1].text == DeltaSign)
    ensures KeyName(i, v, key) != DeltaKKey ==> KeyName(i, v, key) == key
  {
  }

  /** An empty pair stores nothing; a bare `K` raises IndexError exactly
      when `i`, left over from a numbered key, points past the line. */
  lemma StoreKeyValueError(st: ScanState, v: seq<Span>, key: string, value: string)
    requires Valid(st.result)
    ensures key == [] && value == [] ==> StoreKeyValue(st, v, key, value) == Ok(st)
    ensures StoreKeyValue(st, v, key, value).Err? <==> (key == KKey && st.i >= 1 && |v| < st.i)
    ensures StoreKeyValue(st, v, key, value).Err? ==> StoreKeyValue(st, v, key, value).error == IndexOutOfRange
  {
  }

  /** The reuse of `i`: after a `K1` reading, a bare `K` in the same span
      text raises IndexError exactly when `K1_0` to `K1_{len(v)}` were all
      already taken, because `i` then points past the end of the line. */
  lemma SuffixReuseError(st: ScanState, v: seq<Span>, k1: string, k: string)
    requires Valid(st.result)
    ensures var first := StoreKeyValue(st, v, KOneKey, k1);
              first.Ok?
              && (StoreKeyValue(first.value, v, KKey, k).Err? <==>
                    forall j :: 0 <= j <= |v| ==> Indexed(KOneKey, j) in st.result.entries)
  {
    var n := FreeSuffix(st.result, KOneKey);
    var first := StoreKeyValue(st, v, KOneKey, k1);
    assert KOneKey != KKey && KeyName(st.i, v, KOneKey) == KOneKey;
    assert first == Ok(Stored(st, KOneKey, k1));
    assert first.value.i == n;
    StoreKeyValueError(first.value, v, KKey, k);
  }

  // ---------------------------------------------------------------------
  // ACD

  /** The line after `ACD:` is copied raw: `ACD_i` holds the unstripped
      text of span i. */
  lemma {:induction false} AcdCaptureWrites(d: Fields, v: seq<Span>, n: nat)
    requires Valid(d) && n <= |v|
    ensures forall i :: 0 <= i < n ==>
              Indexed(AcdStem, i) in AcdCapture(d, v, n).entries && AcdCapture(d, v, n).entries[Indexed(AcdStem, i)] == Str(v[i].text)
  {
    if n > 0 {
      AcdCaptureWrites(d, v, n - 1);
      var before := AcdCapture(d, v, n - 1);
      forall i | 0 <= i < n - 1
        ensures Indexed(AcdStem, i) in AcdCapture(d, v, n).entries && AcdCapture(d, v, n).entries[Indexed(AcdStem, i)] == Str(v[i].text)
      {
        IndexedApart(AcdStem, i, n - 1);
      }
    }
  }

  /** The ACD copy changes no key other than `ACD_0` to `ACD_{n-1}`. */
  lemma {:induction false} AcdCaptureFrame(d: Fields, v: seq<Span>, n: nat, k: string)
    requires Valid(d) && n <= |v|
    requires forall i :: 0 <= i < n ==> k != Indexed(AcdStem, i)
    ensures k in AcdCapture(d, v, n).entries <==> k in d.entries
    ensures k in d.entries ==> AcdCapture(d, v, n).entries[k] == d.entries[k]
  {
    if n > 0 {
      AcdCaptureFrame(d, v, n - 1, k);
    }
  }

  /** Two counters give two keys. */
  lemma IndexedApart(stem: string, a: nat, b: nat)
    requires a != b
    ensures Indexed(stem, a) != Indexed(stem, b)
  {
    if Indexed(stem, a) == Indexed(stem, b) {
      IndexedInjective(stem, a, stem, b);
    }
  }

  // ---------------------------------------------------------------------
  // The AL / SNR table

  /** `al_snr_flag` after some lines: some line is the header and every
      later line parses as a row (a later header counts as a header). */
  predicate AlOn(parse: FloatParser, lines: seq<seq<Span>>)
  {
    exists h :: 0 <= h < |lines| && IsAlHeader(lines[h]) && forall m :: h < m < |lines| ==> AlRow(parse, lines[m]).Some?
  }

  /** The rows read: a line that is not a header and parses, read while
      the table is on. */
  function AlRows(parse: FloatParser, lines: seq<seq<Span>>): seq<(real, real)>
  {
    if lines == [] then []
    else
      var init, last := lines[..|lines| - 1], lines[|lines| - 1];
      AlRows(parse, init) + (if AlOn(parse, init) && !IsAlHeader(last) then AsSeq(AlRow(parse, last)) else [])
  }

  lemma AlOnStep(parse: FloatParser, lines: seq<seq<Span>>)
    requires lines != []
    ensures AlOn(parse, lines) <==>
              IsAlHeader(lines[|lines| - 1])
              || (AlOn(parse, lines[..|lines| - 1]) && AlRow(parse, lines[|lines| - 1]).Some?)
  {
    var last: nat := |lines| - 1;
    if AlOn(parse, lines) && !IsAlHeader(lines[last]) {
      AlOnDrop(parse, lines);
    }
    if AlOn(parse, lines[..last]) && AlRow(parse, lines[last]).Some? {
      AlOnGrow(parse, lines);
    }
  }

  /** A table still on after a line that is not its header was on before. */
  lemma AlOnDrop(parse: FloatParser, lines: seq<seq<Span>>)
    requires lines != [] && AlOn(parse, lines) && !IsAlHeader(lines[|lines| - 1])
    ensures AlOn(parse, lines[..|lines| - 1]) && AlRow(parse, lines[|lines| - 1]).Some?
  {
    var last: nat := |lines| - 1;
    var init := lines[..last];
    var h :| 0 <= h < |lines| && IsAlHeader(lines[h]) && forall m :: h < m < |lines| ==> AlRow(parse, lines[m]).Some?;
    assert h < last && init[h] == lines[h];
    assert forall m :: h < m < |init| ==> init[m] == lines[m];
  }

  /** A table on stays on through a line that parses as a row. */
  lemma AlOnGrow(parse: FloatParser, lines: seq<seq<Span>>)
    requires lines != [] && AlOn(parse, lines[..|lines| - 1]) && AlRow(parse, lines[|lines| - 1]).Some?
    ensures AlOn(parse, lines)
  {
    var last: nat := |lines| - 1;
    var init := lines[..last];
    var h :| 0 <= h < |init| && IsAlHeader(init[h]) && forall m :: h < m < |init| ==> AlRow(parse, init[m]).Some?;
    assert lines[h] == init[h];
    forall m | h < m < |lines|
      ensures AlRow(parse, lines[m]).Some?
    {
      if m < last {
        assert lines[m] == init[m];
      }
    }
  }

  /** A value line: the first text with " mm" removed and the second text
      both parse. */
  lemma AlRowMillimetres(parse: FloatParser, v: seq<Span>, a: string, al: real, snr: real)
    requires |v| >= 2 && v[0].text == a + MillimetreSuffix
    requires forall k :: 0 <= k <= |a| ==> !OccursAt(a, MillimetreSuffix, k)
    requires parse(a) == Some(al) && parse(v[1].text) == Some(snr)
    ensures AlRow(parse, v) == Some((al, snr))
  {
    ReplaceUnitSuffix(a);
  }

  /** What the AL / SNR part of a line does to the flag, the count and the
      result. */
  lemma AlStepFacts(parse: FloatParser, st: MmtState, v: seq<Span>)
    requires Valid(st.result) && AlStep(parse, st, v).Ok?
    ensures var r := AlStep(parse, st, v).value;
              r.acdOn == st.acdOn
              && r.alOn == (IsAlHeader(v) || (st.alOn && AlRow(parse, v).Some?))
              && r.alCount == st.alCount + |if st.alOn && !IsAlHeader(v) then AsSeq(AlRow(parse, v)) else []|
              && (st.alOn && !IsAlHeader(v) && AlRow(parse, v).Some? ==>
                    r.result.entries == st.result.entries[Indexed(AlStem, st.alCount) := Num(AlRow(parse, v).value.0)]
                                                         [Indexed(SnrStem, st.alCount) := Num(AlRow(parse, v).value.1)])
              && (!(st.alOn && !IsAlHeader(v) && AlRow(parse, v).Some?) ==> r.result == st.result)
  {
  }

  /** One line leaves the AL / SNR flag and count as `AlStep` sets them. */
  lemma MmtStepAl(parse: FloatParser, st: MmtState, v: seq<Span>)
    requires Valid(st.result) && MmtStep(parse, st, v).Ok?
    ensures var r := MmtStep(parse, st, v).value;
              r.alOn == (IsAlHeader(v) || (st.alOn && AlRow(parse, v).Some?))
              && r.alCount == st.alCount + |if st.alOn && !IsAlHeader(v) then AsSeq(AlRow(parse, v)) else []|
  {
    var scanned := LineScan(st.result, v, |v|).value;
    var captured :=
      if st.acdOn then st.(result := AcdCapture(scanned, v, |v|), acdOn := false)
      else st.(result := scanned, acdOn := v != [] && StartsWith(v[0].text, AcdPrefix));
    AlStepFacts(parse, captured, v);
  }

  /** The scan's `al_snr_flag` and `al_snr_count` agree with the
      declarative table. */
  lemma {:induction false} MmtRunAl(parse: FloatParser, lines: seq<seq<Span>>, init: MmtState)
    requires Valid(init.result) && !init.alOn && init.alCount == 0
    requires MmtRun(parse, lines, init).Ok?
    ensures MmtRun(parse, lines, init).value.alOn == AlOn(parse, lines)
    ensures MmtRun(parse, lines, init).value.alCount == |AlRows(parse, lines)|
  {
    if lines != [] {
      var pre := lines[..|lines| - 1];
      MmtRunAl(parse, pre, init);
      MmtStepAl(parse, MmtRun(parse, pre, init).value, lines[|lines| - 1]);
      AlOnStep(parse, lines);
    }
  }

  /** The n-th row read is stored as `AL_n` and `SNR_n` by the line that
      holds it. */
  lemma MmtRunAlWrite(parse: FloatParser, lines: seq<seq<Span>>, init: MmtState, j: nat)
    requires Valid(init.result) && !init.alOn && init.alCount == 0
    requires j < |lines| && MmtRun(parse, lines[..j + 1], init).Ok?
    requires AlOn(parse, lines[..j]) && !IsAlHeader(lines[j]) && AlRow(parse, lines[j]).Some?
    ensures var n := |AlRows(parse, lines[..j])|;
            var row := AlRow(parse, lines[j]).value;
            var d := MmtRun(parse, lines[..j + 1], init).value.result;
              AlRows(parse, lines[..j + 1]) == AlRows(parse, lines[..j]) + [row]
              && Indexed(AlStem, n) in d.entries && d.entries[Indexed(AlStem, n)] == Num(row.0)
              && Indexed(SnrStem, n) in d.entries && d.entries[Indexed(SnrStem, n)] == Num(row.1)
  {
    var pre := lines[..j + 1];
    assert pre[..j] == lines[..j];
    var st := MmtRun(parse, lines[..j], init).value;
    MmtRunAl(parse, lines[..j], init);
    var scanned := LineScan(st.result, lines[j], |lines[j]|).value;
    var v := lines[j];
    var captured :=
      if st.acdOn then st.(result := AcdCapture(scanned, v, |v|), acdOn := false)
      else st.(result := scanned, acdOn := v != [] && StartsWith(v[0].text, AcdPrefix));
    AlStepFacts(parse, captured, v);
  }

  /** The first line that does not parse ends the table: unless a later
      header starts it again, no row after it is read. */
  lemma {:induction false} AlFailureEnds(parse: FloatParser, lines: seq<seq<Span>>, f: nat)
    requires f < |lines| && AlRow(parse, lines[f]).None?
    requires forall h :: f <= h < |lines| ==> !IsAlHeader(lines[h])
    ensures !AlOn(parse, lines)
    ensures AlRows(parse, lines) == AlRows(parse, lines[..f + 1])
  {
    if |lines| > f + 1 {
      var init := lines[..|lines| - 1];
      assert init[f] == lines[f];
      AlFailureEnds(parse, init, f);
      assert init[..f + 1] == lines[..f + 1];
    } else {
      assert lines[..f + 1] == lines;
    }
  }

  // ---------------------------------------------------------------------
  // The ACD flag

  /** A line flagged by `ACD:` before it is copied raw into `ACD_i` (the AL
      keys are other keys); otherwise the flag is set by a line whose first
      text starts with `ACD:`, after that line went through the scan like
      any other. */
  lemma MmtStepAcd(parse: FloatParser, st: MmtState, v: seq<Span>)
    requires Valid(st.result) && MmtStep(parse, st, v).Ok?
    ensures var r := MmtStep(parse, st, v).value;
              r.acdOn == (!st.acdOn && v != [] && StartsWith(v[0].text, AcdPrefix))
              && (st.acdOn ==> forall i :: 0 <= i < |v| ==>
                    Indexed(AcdStem, i) in r.result.entries && r.result.entries[Indexed(AcdStem, i)] == Str(v[i].text))
  {
    var scanned := LineScan(st.result, v, |v|).value;
    var captured :=
      if st.acdOn then st.(result := AcdCapture(scanned, v, |v|), acdOn := false)
      else st.(result := scanned, acdOn := v != [] && StartsWith(v[0].text, AcdPrefix));
    AlStepFacts(parse, captured, v);
    if st.acdOn {
      AcdCaptureWrites(scanned, v, |v|);
      forall i | 0 <= i < |v|
        ensures Indexed(AcdStem, i) != Indexed(AlStem, st.alCount) && Indexed(AcdStem, i) != Indexed(SnrStem, st.alCount)
      {
        StemsApart(AcdStem, i, AlStem, st.alCount);
        StemsApart(AcdStem, i, SnrStem, st.alCount);
      }
    }
  }

  /** Keys with different stems differ. */
  lemma StemsApart(s: string, a: nat, t: string, b: nat)
    requires s != t
    ensures Indexed(s, a) != Indexed(t, b)
  {
    if Indexed(s, a) == Indexed(t, b) {
      IndexedInjective(s, a, t, b);
    }
  }

  // ---------------------------------------------------------------------
  // Exceptions

  /** The only exception the span scan raises is an IndexError. */
  lemma {:induction false} SpanScanError(st: ScanState, v: seq<Span>, text: string)
    requires Valid(st.result) && SpanScan(st, v, text).Err?
    ensures SpanScan(st, v, text).error == IndexOutOfRange
    decreases |text|
  {
    var kv := NextKeyValue(text).value;
    StoreKeyValueError(st, v, kv.0, kv.1);
    if StoreKeyValue(st, v, kv.0, kv.1).Ok? {
      SpanScanError(StoreKeyValue(st, v, kv.0, kv.1).value, v, kv.2);
    }
  }

  lemma {:induction false} LineScanError(d: Fields, v: seq<Span>, n: nat)
    requires Valid(d) && n <= |v| && LineScan(d, v, n).Err?
    ensures LineScan(d, v, n).error == IndexOutOfRange
  {
    if LineScan(d, v, n - 1).Err? {
      LineScanError(d, v, n - 1);
    } else {
      SpanScanError(ScanState(LineScan(d, v, n - 1).value, n - 1), v, v[n - 1].text);
    }
  }

  /** A line raises exactly when its scan does or when it starts with a
      lone "AL" (`v[1]` is read unguarded); the exception is an
      IndexError. */
  lemma MmtStepError(parse: FloatParser, st: MmtState, v: seq<Span>)
    requires Valid(st.result)
    ensures MmtStep(parse, st, v).Err? <==>
              LineScan(st.result, v, |v|).Err? || (|v| == 1 && v[0].text == AlHeader)
    ensures MmtStep(parse, st, v).Err? ==> MmtStep(parse, st, v).error == IndexOutOfRange
  {
    if LineScan(st.result, v, |v|).Err? {
      LineScanError(st.result, v, |v|);
    }
  }

  /** `get_mmt_data` raises exactly when some line raises after the lines
      before it went through; the exception is an IndexError. */
  lemma {:induction false} MmtRunError(parse: FloatParser, lines: seq<seq<Span>>, init: MmtState) returns (j: nat)
    requires Valid(init.result) && MmtRun(parse, lines, init).Err?
    ensures j < |lines| && MmtRun(parse, lines[..j], init).Ok?
    ensures MmtStep(parse, MmtRun(parse, lines[..j], init).value, lines[j]) == MmtRun(parse, lines, init)
    ensures MmtRun(parse, lines, init).error == IndexOutOfRange
  {
    var pre := lines[..|lines| - 1];
    if MmtRun(parse, pre, init).Err? {
      j := MmtRunError(parse, pre, init);
      assert lines[..j] == pre[..j] && lines[j] == pre[j];
    } else {
      j := |lines| - 1;
      MmtStepError(parse, MmtRun(parse, pre, init).value, lines[j]);
    }
  }
}
