/** Building blocks shared by the report parser: optional values, the Python
    exceptions that escape an extraction, decimal rendering of the running
    counters in keys such as `iol_3`, and the few `str` methods the parser
    relies on (`startswith`, `endswith`, `strip`, `split(sep, 1)`, `replace`). */
module Basics {

  datatype Option<+T> = None | Some(value: T)
  {
    function GetOr(default: T): T
    {
      match this
      case Some(v) => v
      case None => default
    }
  }

  /** The exceptions the parser lets escape to its caller. */
  datatype Error =
    | EmptyRegion       // the `assert spans` of the lens extractor
    | IndexOutOfRange   // an unguarded `v[1]` or `v[i-1]` on a short line

  /** The zero or one items of an optional value. */
  function AsSeq<T>(o: Option<T>): (s: seq<T>)
    ensures |s| <= 1 && (o.Some? <==> |s| == 1) && (o.Some? ==> s[0] == o.value)
  {
    if o.Some? then [o.value] else []
  }

  datatype Result<+T> = Ok(value: T) | Err(error: Error)

  /** Python's `float(text)`: a partial parser whose grammar is not modelled. */
  type FloatParser = string -> Option<real>

  // ---------------------------------------------------------------------
  // str(n) for the counters

  function DigitChar(d: nat): char
    requires d < 10
  {
    ('0' as int + d) as char
  }

  /** Decimal rendering of a non-negative counter, as `f"{n}"` does. */
  function NatToString(n: nat): (s: string)
    ensures 1 <= |s|
    ensures n < 10 <==> |s| == 1
    ensures forall i :: 0 <= i < |s| ==> '0' <= s[i] <= '9'
  {
    if n < 10 then [DigitChar(n)] else NatToString(n / 10) + [DigitChar(n % 10)]
  }

  lemma {:induction false} NatToStringInjective(a: nat, b: nat)
    requires NatToString(a) == NatToString(b)
    ensures a == b
  {
    if 10 <= a {
      var sa, sb := NatToString(a), NatToString(b);
      assert sa == NatToString(a / 10) + [DigitChar(a % 10)];
      assert sb == NatToString(b / 10) + [DigitChar(b % 10)];
      assert sa[..|sa| - 1] == NatToString(a / 10);
      assert sb[..|sb| - 1] == NatToString(b / 10);
      NatToStringInjective(a / 10, b / 10);
    }
  }

  /** The key `f"{stem}_{n}"` of the n-th captured value. */
  function Indexed(stem: string, n: nat): string
  {
    stem + "_" + NatToString(n)
  }

  /** An indexed key determines both its stem and its counter, because the
      digits of the counter never contain the separating underscore. */
  lemma IndexedInjective(s: string, a: nat, t: string, b: nat)
    requires Indexed(s, a) == Indexed(t, b)
    ensures s == t && a == b
  {
    var k := Indexed(s, a);
    assert k[|s|] == '_' && k[|t|] == '_';
    assert |s| == |t|;
    assert s == k[..|s|] == t;
    assert NatToString(a) == k[|s| + 1..] == NatToString(b);
    NatToStringInjective(a, b);
  }

  /** Only finitely many indexed keys of one stem fit in a finite key set:
      if `stem_0` .. `stem_{n-1}` are all present, there are at least n keys. */
  lemma {:induction false} IndexedKeysBound(keys: set<string>, stem: string, n: nat)
    requires forall j :: 0 <= j < n ==> Indexed(stem, j) in keys
    ensures n <= |keys|
  {
    var used := IndexedSet(stem, n);
    IndexedSetSize(stem, n);
    assert used <= keys;
    SubsetCard(used, keys);
  }

  function IndexedSet(stem: string, n: nat): (r: set<string>)
    ensures forall k :: k in r <==> exists j :: 0 <= j < n && k == Indexed(stem, j)
  {
    if n == 0 then {} else IndexedSet(stem, n - 1) + {Indexed(stem, n - 1)}
  }

  lemma {:induction false} IndexedSetSize(stem: string, n: nat)
    ensures |IndexedSet(stem, n)| == n
  {
    if n > 0 {
      var m: nat := n - 1;
      var before, k := IndexedSet(stem, m), Indexed(stem, m);
      IndexedSetSize(stem, m);
      if k in before {
        var j :| 0 <= j < m && k == Indexed(stem, j);
        IndexedInjective(stem, m, stem, j);
      }
      assert IndexedSet(stem, n) == before + {k};
    }
  }

  lemma SubsetCard<T>(a: set<T>, b: set<T>)
    requires a <= b
    ensures |a| <= |b|
  {
    assert b == a + (b - a);
  }

  // ---------------------------------------------------------------------
  // str methods

  predicate StartsWith(s: string, prefix: string)
  {
    |prefix| <= |s| && s[..|prefix|] == prefix
  }

  predicate EndsWith(s: string, suffix: string)
  {
    |suffix| <= |s| && s[|s| - |suffix|..] == suffix
  }

  /** `s[:-1]` on a non-empty string. */
  function DropLast(s: string): (r: string)
    requires s != []
    ensures s == r + [s[|s| - 1]]
  {
    s[..|s| - 1]
  }

  /** The characters that `strip(" ()")` removes. */
  const StripChars: set<char> := {' ', '(', ')'}

  predicate Stripped(s: string, chars: set<char>)
  {
    s == [] || (s[0] !in chars && s[|s| - 1] !in chars)
  }

  function StripLeft(s: string, chars: set<char>): (r: string)
    ensures |r| <= |s| && r == s[|s| - |r|..]
    ensures r == [] || r[0] !in chars
    ensures forall i :: 0 <= i < |s| - |r| ==> s[i] in chars
  {
    if s != [] && s[0] in chars then StripLeft(s[1..], chars) else s
  }

  function StripRight(s: string, chars: set<char>): (r: string)
    ensures |r| <= |s| && r == s[..|r|]
    ensures r == [] || r[|r| - 1] !in chars
    ensures forall i :: |r| <= i < |s| ==> s[i] in chars
  {
    if s != [] && s[|s| - 1] in chars then StripRight(s[..|s| - 1], chars) else s
  }

  /** Python's `s.strip(chars)`: the longest infix of `s` that neither starts
      nor ends with one of `chars`, every character cut away being one of them. */
  function Strip(s: string, chars: set<char>): (r: string)
    ensures Stripped(r, chars)
    ensures var i := |s| - |StripLeft(s, chars)|;
              i + |r| <= |s|
              && (forall k :: 0 <= k < |r| ==> r[k] == s[i + k])
              && (forall k :: 0 <= k < i ==> s[k] in chars)
              && (forall k :: i + |r| <= k < |s| ==> s[k] in chars)
  {
    var l := StripLeft(s, chars);
    var r := StripRight(l, chars);
    StripCutsOnlyChars(s, chars, l, r);
    r
  }

  lemma StripCutsOnlyChars(s: string, chars: set<char>, l: string, r: string)
    requires l == StripLeft(s, chars) && r == StripRight(l, chars)
    ensures Stripped(r, chars)
    ensures forall k :: |s| - |l| + |r| <= k < |s| ==> s[k] in chars
  {
    var i := |s| - |l|;
    assert r != [] ==> r[0] == l[0];
    assert l == s[i..];
    forall k | i + |r| <= k < |s|
      ensures s[k] in chars
    {
      assert s[k] == l[k - i];
    }
  }

  lemma {:induction false} StripStripped(s: string, chars: set<char>)
    requires Stripped(s, chars)
    ensures Strip(s, chars) == s
  {
    assert StripLeft(s, chars) == s;
    assert StripRight(s, chars) == s;
  }

  predicate OccursAt(s: string, pat: string, i: nat)
  {
    i + |pat| <= |s| && s[i..i + |pat|] == pat
  }

  function FindFrom(s: string, pat: string, i: nat): (r: Option<nat>)
    requires i <= |s|
    ensures r.Some? ==> i <= r.value && OccursAt(s, pat, r.value)
    ensures forall k :: i <= k <= |s| && (r.None? || k < r.value) ==> !OccursAt(s, pat, k)
    decreases |s| - i
  {
    if OccursAt(s, pat, i) then Some(i)
    else if i == |s| then None
    else FindFrom(s, pat, i + 1)
  }

  /** `s.split(sep, 1)` read as "two parts or not": the text before the first
      occurrence of `sep` and the text after it. */
  function SplitOnce(s: string, sep: string): (r: Option<(string, string)>)
    requires sep != []
    ensures r.None? <==> forall k :: 0 <= k <= |s| ==> !OccursAt(s, sep, k)
    ensures r.Some? ==> s == r.value.0 + sep + r.value.1
    ensures r.Some? ==> forall k :: 0 <= k < |r.value.0| ==> !OccursAt(s, sep, k)
  {
    match FindFrom(s, sep, 0)
    case None => None
    case Some(i) =>
      assert s == s[..i] + s[i..i + |sep|] + s[i + |sep|..];
      Some((s[..i], s[i + |sep|..]))
  }

  /** Python's `s.replace(pat, rep)`: every non-overlapping occurrence of
      `pat`, scanning from the left, is replaced. */
  function ReplaceAll(s: string, pat: string, rep: string): string
    requires pat != []
  {
    if |s| < |pat| then s
    else if s[..|pat|] == pat then rep + ReplaceAll(s[|pat|..], pat, rep)
    else [s[0]] + ReplaceAll(s[1..], pat, rep)
  }

  lemma {:induction false} ReplaceAbsent(s: string, pat: string, rep: string)
    requires pat != []
    requires forall k :: 0 <= k <= |s| ==> !OccursAt(s, pat, k)
    ensures ReplaceAll(s, pat, rep) == s
  {
    if |pat| <= |s| {
      assert !OccursAt(s, pat, 0);
      forall k | 0 <= k <= |s[1..]|
        ensures !OccursAt(s[1..], pat, k)
      {
        assert !OccursAt(s, pat, k + 1);
        if k + |pat| <= |s[1..]| {
          assert s[1..][k..k + |pat|] == s[k + 1..k + 1 + |pat|];
        }
      }
      ReplaceAbsent(s[1..], pat, rep);
    }
  }

  /** The unit suffix of an axial length such as `22.50 mm`. */
  const MillimetreSuffix := " mm"

  /** Removing " mm" from `a + " mm"` gives back `a` when `a` has no " mm" of
      its own: no occurrence can straddle the end of `a`, since no proper
      suffix of " mm" is a prefix of it. */
  lemma {:induction false} ReplaceUnitSuffix(a: string)
    requires forall k :: 0 <= k <= |a| ==> !OccursAt(a, MillimetreSuffix, k)
    ensures ReplaceAll(a + MillimetreSuffix, MillimetreSuffix, "") == a
  {
    var s := a + MillimetreSuffix;
    if a == [] {
      assert s[..3] == MillimetreSuffix;
      assert s[3..] == [];
    } else {
      if |a| >= 3 {
        assert !OccursAt(a, MillimetreSuffix, 0);
        assert s[..3] == a[..3];
      } else {
        assert s[..3] != MillimetreSuffix by {
          if |a| == 1 { assert s[1] == ' '; assert s[2] == 'm'; assert s[..3][1] != MillimetreSuffix[1]; }
          else { assert s[2] == ' '; assert s[..3][2] != MillimetreSuffix[2]; }
        }
      }
      forall k | 0 <= k <= |a[1..]|
        ensures !OccursAt(a[1..], MillimetreSuffix, k)
      {
        assert !OccursAt(a, MillimetreSuffix, k + 1);
        if k + 3 <= |a[1..]| {
          assert a[1..][k..k + 3] == a[k + 1..k + 4];
        }
      }
      ReplaceUnitSuffix(a[1..]);
      assert s[1..] == a[1..] + MillimetreSuffix;
    }
  }
}
