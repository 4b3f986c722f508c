/** The testspec version gate of `teds_core/version.py`: the supported
    major version and highest minor come from the bundled compatibility
    manifest (`teds_compat.yaml`), and a document's `version` string is
    checked against them. */
module Version {
  import opened Wrappers
  import opened Text
  import opened Json

  /** The supported major, the highest supported minor and the recommended
      minor. */
  datatype Compat = Compat(major: int, maxMinor: int, recMinor: int)

  /** What `_load_compat` falls back to whenever the manifest cannot be read
      or interpreted. */
  const Fallback: Compat := Compat(1, 0, 0)

  /** Python's `int(v)` on a loaded YAML value: integers as they are,
      booleans as 0 and 1, reals truncated toward zero, strings by
      `IntOfText`; `None`, lists and mappings raise. */
  function ToInt(v: Value): (r: Option<int>)
    ensures v.Int? ==> r == Some(v.i)
    ensures v.Bool? ==> r == Some(if v.b then 1 else 0)
    ensures v.Float? && v.r >= 0.0 ==> r.Some? && r.value as real <= v.r < r.value as real + 1.0
    ensures v.Float? && v.r < 0.0 ==> r.Some? && r.value as real - 1.0 < v.r <= r.value as real
    ensures v.Str? ==> r == IntOfText(v.s)
    ensures v.Null? || v.List? || v.Map? ==> r == None
  {
    match v
    case Int(i) => Some(i)
    case Bool(b) => Some(if b then 1 else 0)
    case Float(x) => Some(if x >= 0.0 then x.Floor else -((-x).Floor))
    case Str(s) => IntOfText(s)
    case _ => None
  }

  predicate Digit?(c: char) {
    '0' <= c <= '9'
  }

  /** The whitespace `int()` strips around a number, in the ASCII range. */
  const IntSpace: set<char> :=
    {' ', '\t', '\n', '\U{0B}', '\U{0C}', '\r', '\U{1C}', '\U{1D}', '\U{1E}', '\U{1F}'}

  /** Decimal digits, with single underscores allowed between two digits,
      as Python's integer literals have them. */
  predicate DigitText(t: string) {
    && t != [] && Digit?(t[0]) && Digit?(t[|t| - 1])
    && (forall i :: 0 <= i < |t| ==> Digit?(t[i]) || t[i] == '_')
    && (forall i, j :: 0 <= i < |t| && j == i + 1 && j < |t| ==> !(t[i] == '_' && t[j] == '_'))
  }

  /** The digits of a text, underscores dropped. */
  function Digits(t: string): string {
    if t == [] then [] else (if t[0] == '_' then [] else [t[0]]) + Digits(t[1..])
  }

  /** `int(s)` on a string: the whitespace around it stripped, an optional
      sign, then `DigitText`; anything else raises. */
  function IntOfText(s: string): Option<int> {
    SignedDigits(Strip(s, IntSpace))
  }

  /** A stripped text: an optional sign, then `DigitText`. */
  function SignedDigits(t: string): Option<int> {
    if t != [] && (t[0] == '+' || t[0] == '-') then
      if !DigitText(t[1..]) then None
      else if t[0] == '-' then Some(0 - ParseNat(Digits(t[1..])))
      else Some(ParseNat(Digits(t[1..])))
    else if DigitText(t) then Some(ParseNat(Digits(t)))
    else None
  }

  lemma {:induction false} DigitsOfDecimal(d: string)
    requires forall i :: 0 <= i < |d| ==> Digit?(d[i])
    ensures Digits(d) == d
  {
    if d != [] {
      DigitsOfDecimal(d[1..]);
      assert d == [d[0]] + d[1..];
    }
  }

  lemma {:induction false} DigitsAppend(a: string, b: string)
    ensures Digits(a + b) == Digits(a) + Digits(b)
  {
    if a == [] {
      assert a + b == b;
    } else {
      assert (a + b)[1..] == a[1..] + b;
      DigitsAppend(a[1..], b);
    }
  }

  /** A digit text reads as its digits. */
  lemma IntOfDigitText(t: string)
    requires DigitText(t)
    ensures IntOfText(t) == Some(ParseNat(Digits(t)))
  {
    StripNothing(t, IntSpace);
    assert t[0] != '+' && t[0] != '-';
  }

  /** A signed digit text reads as its digits, negated after `-`. */
  lemma IntOfSignedDigitText(t: string, sign: char)
    requires DigitText(t)
    requires sign == '+' || sign == '-'
    ensures IntOfText([sign] + t) == Some(if sign == '-' then 0 - ParseNat(Digits(t)) else ParseNat(Digits(t)))
  {
    SignedNothingToStrip(t, sign);
    SignedDigitsSigned(t, sign);
  }

  lemma SignedNothingToStrip(t: string, sign: char)
    requires t != [] && Digit?(t[|t| - 1])
    requires sign == '+' || sign == '-'
    ensures Strip([sign] + t, IntSpace) == [sign] + t
  {
    var st := [sign] + t;
    assert st[0] == sign && st[|st| - 1] == t[|t| - 1];
    StripNothing(st, IntSpace);
  }

  lemma SignedDigitsSigned(t: string, sign: char)
    requires DigitText(t)
    requires sign == '+' || sign == '-'
    ensures SignedDigits([sign] + t) == Some(if sign == '-' then 0 - ParseNat(Digits(t)) else ParseNat(Digits(t)))
  {
    assert ([sign] + t)[1..] == t;
  }

  lemma DigitTextOfDecimal(d: string)
    requires d != [] && forall i :: 0 <= i < |d| ==> Digit?(d[i])
    ensures DigitText(d) && Digits(d) == d
  {
    DigitsOfDecimal(d);
  }

  /** Decimal digits read as their value. */
  lemma IntOfDecimalText(d: string)
    requires d != [] && forall i :: 0 <= i < |d| ==> Digit?(d[i])
    ensures IntOfText(d) == Some(ParseNat(d))
  {
    DigitTextOfDecimal(d);
    IntOfDigitText(d);
  }

  /** Whitespace around the text changes nothing. */
  lemma IntOfTextSpaces(pre: string, s: string, post: string)
    requires forall i :: 0 <= i < |pre| ==> pre[i] in IntSpace
    requires forall i :: 0 <= i < |post| ==> post[i] in IntSpace
    ensures IntOfText(pre + s + post) == IntOfText(s)
  {
    StripSurround(pre, s, post, IntSpace);
  }

  lemma DigitTextJoin(a: string, b: string)
    requires a != [] && b != []
    requires forall i :: 0 <= i < |a| ==> Digit?(a[i])
    requires forall i :: 0 <= i < |b| ==> Digit?(b[i])
    ensures DigitText(a + ['_'] + b)
  {
    var u := a + ['_'] + b;
    assert u[|a|] == '_' && u[0] == a[0] && u[|u| - 1] == b[|b| - 1];
    forall i | 0 <= i < |u| ensures Digit?(u[i]) || u[i] == '_' {
      if i < |a| { assert u[i] == a[i]; } else if i > |a| { assert u[i] == b[i - |a| - 1]; }
    }
    forall i, j | 0 <= i < |u| && j == i + 1 && j < |u| ensures !(u[i] == '_' && u[j] == '_') {
      if i < |a| { assert u[i] == a[i]; } else if i == |a| { assert u[j] == b[0]; } else { assert u[i] == b[i - |a| - 1]; }
    }
  }

  lemma DigitsJoin(a: string, b: string)
    requires forall i :: 0 <= i < |a| ==> Digit?(a[i])
    requires forall i :: 0 <= i < |b| ==> Digit?(b[i])
    ensures Digits(a + ['_'] + b) == a + b
  {
    var c := ['_'] + b;
    assert a + ['_'] + b == a + c;
    DigitsAppend(a, c);
    assert c[1..] == b;
    assert Digits(c) == Digits(b);
    DigitsOfDecimal(a);
    DigitsOfDecimal(b);
  }

  /** An underscore between two runs of digits is dropped. */
  lemma IntOfTextUnderscore(a: string, b: string)
    requires a != [] && b != []
    requires forall i :: 0 <= i < |a| ==> Digit?(a[i])
    requires forall i :: 0 <= i < |b| ==> Digit?(b[i])
    ensures IntOfText(a + ['_'] + b) == IntOfText(a + b) == Some(ParseNat(a + b))
  {
    DigitTextJoin(a, b);
    DigitsJoin(a, b);
    IntOfDigitText(a + ['_'] + b);
    DigitTextOfDecimal(a + b);
    IntOfDigitText(a + b);
  }

  /** A character other than whitespace, a sign, a digit or an underscore
      makes `int()` raise. */
  lemma IntOfTextRejects(s: string, i: nat)
    requires i < |s| && s[i] !in IntSpace && !Digit?(s[i]) && s[i] !in "+-_"
    ensures IntOfText(s) == None
  {
    StripKeeps(s, IntSpace, i);
    var t := Strip(s, IntSpace);
    var k :| 0 <= k < |t| && t[k] == s[i];
    if t[0] == '+' || t[0] == '-' {
      assert k > 0 && t[1..][k - 1] == s[i];
    }
  }

  /** `_load_compat`, given the loaded manifest (`None` when reading or
      parsing it raised).  `spec.major` and `spec.max_minor` must convert to
      integers; `spec.recommended_minor` defaults to the max minor when the
      key is absent, but a key that is present and null is a conversion
      error.  Any failure gives the fallback. */
  function LoadCompat(manifest: Option<Value>): (c: Compat)
    ensures manifest.None? ==> c == Fallback
    ensures manifest.Some? && Truthy(manifest.value) && !manifest.value.Map? ==> c == Fallback
  {
    match manifest
    case None => Fallback
    case Some(doc) =>
      var compat := Or(doc, Map([]));
      if !compat.Map? then Fallback
      else
        var spec := Or(GetOr(compat.entries, "spec", Null), Map([]));
        if !spec.Map? then Fallback
        else
          var major := ToInt(GetOr(spec.entries, "major", Null));
          var maxMinor := ToInt(GetOr(spec.entries, "max_minor", Null));
          if major.None? || maxMinor.None? then Fallback
          else
            var rec := if HasKey(spec.entries, "recommended_minor")
                       then ToInt(Lookup(spec.entries, "recommended_minor").value)
                       else Some(maxMinor.value);
            if rec.None? then Fallback
            else Compat(major.value, maxMinor.value, rec.value)
  }

  /** A manifest stating only `major` and `max_minor` recommends the max
      minor. */
  lemma RecommendedDefaultsToMax(major: int, maxMinor: int)
    ensures LoadCompat(Some(Map([("spec", Map([("major", Int(major)), ("max_minor", Int(maxMinor))]))])))
         == Compat(major, maxMinor, maxMinor)
  {
    var spec: Entries := [("major", Int(major)), ("max_minor", Int(maxMinor))];
    assert !HasKey(spec, "recommended_minor") by {
      forall i | 0 <= i < |spec| ensures spec[i].0 != "recommended_minor" {
        assert spec[i].0 == "major" || spec[i].0 == "max_minor";
        if i == 0 { assert |spec[i].0| == 5; } else { assert |spec[i].0| == 9; }
      }
    }
    assert Lookup(spec, "major") == Some(Int(major));
    assert spec[0].0 != "max_minor" by { assert |spec[0].0| == 5; }
    assert IndexOf(spec[1..], "max_minor") == Some(0);
    assert IndexOf(spec, "max_minor") == Some(1);
  }

  /** A present but null `recommended_minor` is a conversion error, so the
      whole manifest falls back: the default applies only to an absent key. */
  lemma NullRecommendedFallsBack(major: int, maxMinor: int)
    ensures LoadCompat(Some(Map([("spec", Map([("major", Int(major)), ("max_minor", Int(maxMinor)),
                                                 ("recommended_minor", Null)]))])))
         == Fallback
  {
    var spec: Entries := [("major", Int(major)), ("max_minor", Int(maxMinor)), ("recommended_minor", Null)];
    assert spec[0].0 != "max_minor" by { assert |spec[0].0| == 5; }
    assert spec[0].0 != "recommended_minor" by { assert |spec[0].0| == 5; }
    assert spec[1].0 != "recommended_minor" by { assert |spec[1].0| == 9; }
    assert IndexOf(spec[2..], "recommended_minor") == Some(0);
    assert spec[1..][1..] == spec[2..];
    assert IndexOf(spec[1..], "recommended_minor") == Some(1);
    assert IndexOf(spec, "recommended_minor") == Some(2);
    assert Lookup(spec, "recommended_minor") == Some(Null);
  }

  /** A parsed semantic version. */
  datatype SemVer = SemVer(major: nat, minor: nat, patch: nat)

  /** `SpecVersionIssue`. */
  datatype Issue = Invalid | MajorMismatch | MinorTooNew

  /** `check_spec_compat`, given what `semver.VersionInfo.parse` made of the
      version string (`None` when it raised). */
  function CheckSpecCompat(parsed: Option<SemVer>, c: Compat): (r: (bool, Option<Issue>))
    ensures r.0 <==> r.1.None?
    ensures parsed.None? ==> r == (false, Some(Invalid))
    ensures parsed.Some? && parsed.value.major != c.major ==> r == (false, Some(MajorMismatch))
    ensures parsed.Some? && parsed.value.major == c.major && parsed.value.minor > c.maxMinor ==>
      r == (false, Some(MinorTooNew))
    ensures r.0 <==> parsed.Some? && parsed.value.major == c.major && parsed.value.minor <= c.maxMinor
  {
    match parsed
    case None => (false, Some(Invalid))
    case Some(v) =>
      if v.major != c.major then (false, Some(MajorMismatch))
      else if v.minor > c.maxMinor then (false, Some(MinorTooNew))
      else (true, None)
  }

  /** The patch number never matters. */
  lemma PatchIgnored(major: nat, minor: nat, p1: nat, p2: nat, c: Compat)
    ensures CheckSpecCompat(Some(SemVer(major, minor, p1)), c) == CheckSpecCompat(Some(SemVer(major, minor, p2)), c)
  {
  }

  /** The accepted versions of one major form a range from minor 0 up:
      lowering the minor of an accepted version keeps it accepted. */
  lemma AcceptedRangeIsDownwardClosed(v: SemVer, w: SemVer, c: Compat)
    requires CheckSpecCompat(Some(v), c).0
    requires w.major == v.major && w.minor <= v.minor
    ensures CheckSpecCompat(Some(w), c).0
  {
  }

  /** With the fallback manifest only `1.0.x` passes. */
  lemma FallbackAcceptsOnlyOneZero(v: SemVer)
    ensures CheckSpecCompat(Some(v), Fallback).0 <==> v.major == 1 && v.minor == 0
  {
  }

  /** `supported_spec_range_str`: `M.0-M.N`. */
  function SupportedSpecRangeStr(c: Compat): string {
    IntToString(c.major) + ".0-" + IntToString(c.major) + "." + IntToString(c.maxMinor)
  }

  /** `recommended_minor_str`: `M.R`. */
  function RecommendedMinorStr(c: Compat): string {
    IntToString(c.major) + "." + IntToString(c.recMinor)
  }

  /** `RECOMMENDED_TESTSPEC_VERSION`: `M.R.0`. */
  function RecommendedTestspecVersion(c: Compat): (v: string)
    ensures v == RecommendedMinorStr(c) + ".0"
  {
    IntToString(c.major) + "." + IntToString(c.recMinor) + ".0"
  }

  lemma NatNoSep(n: nat, sep: char)
    requires !Digit?(sep)
    ensures sep !in NatToString(n)
  {
  }

  /** For non-negative manifest numbers the range string reads back as the
      two bounds `M.0` and `M.N`, each naming the manifest's numbers. */
  lemma {:induction false} SupportedRangeReadsBack(c: Compat)
    requires c.major >= 0 && c.maxMinor >= 0
    ensures var halves := Split(SupportedSpecRangeStr(c), '-');
      && halves == [NatToString(c.major) + ".0", NatToString(c.major) + "." + NatToString(c.maxMinor)]
      && Split(halves[0], '.') == [NatToString(c.major), "0"]
      && Split(halves[1], '.') == [NatToString(c.major), NatToString(c.maxMinor)]
  {
    var m, n := NatToString(c.major), NatToString(c.maxMinor);
    NatNoSep(c.major, '-');
    NatNoSep(c.major, '.');
    NatNoSep(c.maxMinor, '-');
    NatNoSep(c.maxMinor, '.');
    var lo, hi := m + ".0", m + "." + n;
    DottedNoDash(m, "0");
    DottedNoDash(m, n);
    assert IntToString(c.major) == m && IntToString(c.maxMinor) == n;
    RangeShape(m, n);
    SplitPair(lo, hi, '-');
    SplitDotted(m, "0");
    assert lo == m + "." + "0";
    SplitDotted(m, n);
  }

  /** The range string is the lower bound, a dash and the upper bound. */
  lemma RangeShape(m: string, n: string)
    ensures m + ".0-" + m + "." + n == (m + ".0") + ['-'] + (m + "." + n)
  {
  }

  /** `a.b` of two dash-free pieces has no dash. */
  lemma DottedNoDash(a: string, b: string)
    requires '-' !in a && '-' !in b
    ensures '-' !in a + "." + b
  {
  }

  /** `a.b` of two dot-free pieces splits back at the dot. */
  lemma SplitDotted(a: string, b: string)
    requires '.' !in a && '.' !in b
    ensures Split(a + "." + b, '.') == [a, b]
  {
    assert a + "." + b == a + ['.'] + b;
    SplitPair(a, b, '.');
  }

  /** Two pieces without the separator, joined by it, split back. */
  lemma SplitPair(a: string, b: string, sep: char)
    requires sep !in a && sep !in b
    ensures Split(a + [sep] + b, sep) == [a, b]
  {
    SplitCons(a, b, sep);
    SplitNoSep(b, sep);
  }

  /** For non-negative manifest numbers the recommended version reads back
      as the three numbers `M`, `R` and `0`. */
  lemma {:induction false} RecommendedVersionReadsBack(c: Compat)
    requires c.major >= 0 && c.recMinor >= 0
    ensures var parts := Split(RecommendedTestspecVersion(c), '.');
      && |parts| == 3
      && ParseNat(parts[0]) == c.major && ParseNat(parts[1]) == c.recMinor && ParseNat(parts[2]) == 0
  {
    var m, r := NatToString(c.major), NatToString(c.recMinor);
    NatNoSep(c.major, '.');
    NatNoSep(c.recMinor, '.');
    assert RecommendedTestspecVersion(c) == m + "." + (r + "." + "0");
    SplitCons(m, r + "." + "0", '.');
    SplitCons(r, "0", '.');
    SplitNoSep("0", '.');
    ParseNatToString(c.major);
    ParseNatToString(c.recMinor);
    ParseNatToString(0);
  }
}
