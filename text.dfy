/** The pieces of Python's `str` behaviour the tool relies on: `lstrip`,
    `strip`, `split`, `join`, `replace`, `str(int)` and `sorted` on strings. */
module Text {

  /** `s.lstrip(cs)`: drops every leading character that is in `cs`. */
  function LStrip(s: string, cs: set<char>): (r: string)
    ensures |r| <= |s|
    ensures forall i :: 0 <= i < |r| ==> r[i] == s[|s| - |r| + i]
    ensures r == "" || r[0] !in cs
    ensures forall i :: 0 <= i < |s| - |r| ==> s[i] in cs
  {
    if |s| > 0 && s[0] in cs then LStrip(s[1..], cs) else s
  }

  /** `s.rstrip(cs)`: drops every trailing character that is in `cs`. */
  function RStrip(s: string, cs: set<char>): (r: string)
    ensures |r| <= |s|
    ensures forall i :: 0 <= i < |r| ==> r[i] == s[i]
    ensures r == "" || r[|r| - 1] !in cs
    ensures forall i :: |r| <= i < |s| ==> s[i] in cs
  {
    if |s| > 0 && s[|s| - 1] in cs then RStrip(s[..|s| - 1], cs) else s
  }

  /** `s.strip(cs)`. */
  function Strip(s: string, cs: set<char>): (r: string)
    ensures r == "" || (r[0] !in cs && r[|r| - 1] !in cs)
    ensures |r| <= |s|
  {
    RStrip(LStrip(s, cs), cs)
  }

  /** Stripping a string that neither starts nor ends with a character of
      `cs` changes nothing. */
  lemma RStripNothing(s: string, cs: set<char>)
    requires s == "" || s[|s| - 1] !in cs
    ensures RStrip(s, cs) == s
  {
  }

  /** Nothing to strip on the left. */
  lemma LStripNoLead(s: string, cs: set<char>)
    requires s == "" || s[0] !in cs
    ensures LStrip(s, cs) == s
  {
  }

  /** `lstrip` keeps the last character of a string it does not empty. */
  lemma LStripKeepsLast(s: string, cs: set<char>)
    requires LStrip(s, cs) != ""
    ensures LStrip(s, cs)[|LStrip(s, cs)| - 1] == s[|s| - 1]
  {
  }

  lemma StripNothing(s: string, cs: set<char>)
    requires s == "" || (s[0] !in cs && s[|s| - 1] !in cs)
    ensures Strip(s, cs) == s
  {
  }

  /** Leading characters of `cs` in front of a string are all stripped. */
  lemma {:induction false} LStripPrefix(marks: string, rest: string, cs: set<char>)
    requires forall i :: 0 <= i < |marks| ==> marks[i] in cs
    ensures LStrip(marks + rest, cs) == LStrip(rest, cs)
  {
    if marks != [] {
      assert (marks + rest)[1..] == marks[1..] + rest;
      LStripPrefix(marks[1..], rest, cs);
    } else {
      assert marks + rest == rest;
    }
  }

  /** Trailing characters of `cs` after a string are all stripped. */
  lemma {:induction false} RStripSuffix(rest: string, marks: string, cs: set<char>)
    requires forall i :: 0 <= i < |marks| ==> marks[i] in cs
    ensures RStrip(rest + marks, cs) == RStrip(rest, cs)
    decreases |marks|
  {
    if marks != [] {
      var m := marks[..|marks| - 1];
      assert (rest + marks)[..|rest + marks| - 1] == rest + m;
      RStripSuffix(rest, m, cs);
    } else {
      assert rest + marks == rest;
    }
  }

  /** What follows a string that `lstrip` does not empty is kept as it is. */
  lemma {:induction false} LStripAppend(s: string, t: string, cs: set<char>)
    requires LStrip(s, cs) != ""
    ensures LStrip(s + t, cs) == LStrip(s, cs) + t
  {
    if s[0] in cs {
      assert (s + t)[1..] == s[1..] + t;
      LStripAppend(s[1..], t, cs);
    }
  }

  /** `strip` ignores characters of `cs` around a string. */
  lemma StripSurround(pre: string, s: string, post: string, cs: set<char>)
    requires forall i :: 0 <= i < |pre| ==> pre[i] in cs
    requires forall i :: 0 <= i < |post| ==> post[i] in cs
    ensures Strip(pre + s + post, cs) == Strip(s, cs)
  {
    assert pre + s + post == pre + (s + post);
    LStripPrefix(pre, s + post, cs);
    if LStrip(s, cs) == "" {
      assert forall i :: 0 <= i < |s| ==> s[i] in cs;
      LStripPrefix(s, post, cs);
      LStripPrefix(post, "", cs);
      assert post + "" == post;
    } else {
      LStripAppend(s, post, cs);
      RStripSuffix(LStrip(s, cs), post, cs);
    }
  }

  /** A character outside `cs` survives `strip`. */
  lemma StripKeeps(s: string, cs: set<char>, i: nat)
    requires i < |s| && s[i] !in cs
    ensures s[i] in Strip(s, cs)
  {
    var l := LStrip(s, cs);
    var k := i - (|s| - |l|);
    assert 0 <= k < |l| && l[k] == s[i];
    var r := RStrip(l, cs);
    assert k < |r| && r[k] == l[k];
  }

  /** `s.startswith(p)`. */
  predicate StartsWith(s: string, p: string) {
    |p| <= |s| && s[..|p|] == p
  }

  /** `sep.join(parts)`. */
  function Join(parts: seq<string>, sep: string): string {
    if |parts| == 0 then ""
    else if |parts| == 1 then parts[0]
    else parts[0] + sep + Join(parts[1..], sep)
  }

  /** `s.split(sep)` for a one-character separator: the pieces between the
      separators, empty pieces included, so there is always at least one. */
  function Split(s: string, sep: char): (parts: seq<string>)
    ensures |parts| >= 1
    ensures forall p :: p in parts ==> sep !in p
    ensures Join(parts, [sep]) == s
  {
    if |s| == 0 then [""]
    else if s[0] == sep then
      var rest := Split(s[1..], sep);
      assert Join([""] + rest, [sep]) == [sep] + Join(rest, [sep]) by {
        assert ([""] + rest)[1..] == rest;
      }
      [""] + rest
    else
      var rest := Split(s[1..], sep);
      var parts := [[s[0]] + rest[0]] + rest[1..];
      assert Join(parts, [sep]) == [s[0]] + Join(rest, [sep]) by {
        assert parts[1..] == rest[1..];
      }
      parts
  }

  /** A string without the separator is its own only piece. */
  lemma {:induction false} SplitNoSep(s: string, sep: char)
    requires sep !in s
    ensures Split(s, sep) == [s]
  {
    if |s| > 0 {
      assert s[0] != sep;
      SplitNoSep(s[1..], sep);
      assert [s[0]] + s[1..] == s;
    }
  }

  /** A last piece without separator follows the pieces before it. */
  lemma SplitThenLast(a: string, b: string, sep: char)
    requires sep !in b
    ensures Split(a + [sep] + b, sep) == Split(a, sep) + [b]
  {
    SplitAppend(a, b, sep);
    SplitNoSep(b, sep);
  }

  /** A separator cuts the string into what stands before and after it. */
  lemma {:induction false} SplitAppend(a: string, b: string, sep: char)
    ensures Split(a + [sep] + b, sep) == Split(a, sep) + Split(b, sep)
  {
    if |a| == 0 {
      assert a + [sep] + b == [sep] + b;
      assert ([sep] + b)[1..] == b;
    } else {
      assert (a + [sep] + b)[1..] == a[1..] + [sep] + b;
      SplitAppend(a[1..], b, sep);
    }
  }

  /** Splitting `a + sep + b` where `a` holds no separator. */
  lemma SplitCons(a: string, b: string, sep: char)
    requires sep !in a
    ensures Split(a + [sep] + b, sep) == [a] + Split(b, sep)
  {
    SplitAppend(a, b, sep);
    SplitNoSep(a, sep);
  }

  /** Joining pieces without separators and splitting again gives the pieces
      back. */
  lemma {:induction false} SplitJoin(parts: seq<string>, sep: char)
    requires |parts| >= 1
    requires forall p :: p in parts ==> sep !in p
    ensures Split(Join(parts, [sep]), sep) == parts
  {
    if |parts| == 1 {
      SplitNoSep(parts[0], sep);
    } else {
      SplitJoin(parts[1..], sep);
      SplitCons(parts[0], Join(parts[1..], [sep]), sep);
      assert [parts[0]] + parts[1..] == parts;
    }
  }

  /** A join starts with its first part. */
  lemma JoinHead(parts: seq<string>, sep: string)
    requires |parts| >= 1
    ensures |Join(parts, sep)| >= |parts[0]|
    ensures Join(parts, sep)[..|parts[0]|] == parts[0]
  {
  }

  /** `Join` distributes over a split of its parts. */
  lemma {:induction false} JoinAppend(a: seq<string>, b: seq<string>, sep: string)
    requires |a| >= 1 && |b| >= 1
    ensures Join(a + b, sep) == Join(a, sep) + sep + Join(b, sep)
  {
    if |a| == 1 {
      assert (a + b)[1..] == b;
    } else {
      assert (a + b)[1..] == a[1..] + b;
      JoinAppend(a[1..], b, sep);
    }
  }

  /** `s.replace(pat, rep)`: every non-overlapping occurrence of `pat`, found
      from left to right, is replaced by `rep`. */
  function Replace(s: string, pat: string, rep: string): string
    requires |pat| > 0
  {
    if |s| < |pat| then s
    else if s[..|pat|] == pat then rep + Replace(s[|pat|..], pat, rep)
    else [s[0]] + Replace(s[1..], pat, rep)
  }

  /** A leading character that cannot start `pat` is copied unchanged. */
  lemma ReplaceSkip(c: char, t: string, pat: string, rep: string)
    requires |pat| > 0 && c != pat[0]
    ensures Replace([c] + t, pat, rep) == [c] + Replace(t, pat, rep)
  {
    var s := [c] + t;
    assert s[1..] == t;
    if |s| >= |pat| {
      assert s[..|pat|][0] == c;
    } else {
      assert |t| < |pat|;
    }
  }

  /** A string with no character of `pat` in it is left as it is. */
  lemma {:induction false} ReplaceAbsent(s: string, pat: string, rep: string)
    requires |pat| > 0 && pat[0] !in s
    ensures Replace(s, pat, rep) == s
  {
    if |s| > 0 {
      ReplaceAbsent(s[1..], pat, rep);
      ReplaceSkip(s[0], s[1..], pat, rep);
      assert [s[0]] + s[1..] == s;
    }
  }

  /** An occurrence of `pat` at the front is replaced. */
  lemma ReplaceHit(t: string, pat: string, rep: string)
    requires |pat| > 0
    ensures Replace(pat + t, pat, rep) == rep + Replace(t, pat, rep)
  {
    var s := pat + t;
    assert s[..|pat|] == pat;
    assert s[|pat|..] == t;
  }

  function Digit(d: nat): char
    requires d < 10
  {
    "0123456789"[d]
  }

  function DigitValue(c: char): nat {
    if '0' <= c <= '9' then (c as int - '0' as int) as nat else 0
  }

  /** `str(n)` for a natural number. */
  function NatToString(n: nat): (s: string)
    ensures |s| >= 1
    ensures forall i :: 0 <= i < |s| ==> '0' <= s[i] <= '9'
  {
    if n < 10 then [Digit(n)] else NatToString(n / 10) + [Digit(n % 10)]
  }

  /** The value of a string of decimal digits. */
  function ParseNat(s: string): nat {
    if s == [] then 0 else 10 * ParseNat(s[..|s| - 1]) + DigitValue(s[|s| - 1])
  }

  /** Reading back what `NatToString` wrote gives the number. */
  lemma {:induction false} ParseNatToString(n: nat)
    ensures ParseNat(NatToString(n)) == n
  {
    if n < 10 {
      DigitRoundTrip(n);
      assert NatToString(n)[..0] == [];
    } else {
      var s := NatToString(n);
      DigitRoundTrip(n % 10);
      assert s[..|s| - 1] == NatToString(n / 10);
      ParseNatToString(n / 10);
    }
  }

  /** Each digit reads back as its value. */
  lemma DigitRoundTrip(d: nat)
    requires d < 10
    ensures DigitValue(Digit(d)) == d
  {
  }

  /** Different numbers print differently. */
  lemma NatToStringInjective(m: nat, n: nat)
    requires NatToString(m) == NatToString(n)
    ensures m == n
  {
    ParseNatToString(m);
    ParseNatToString(n);
  }

  /** `str(i)` for any integer. */
  function IntToString(i: int): (s: string)
    ensures i >= 0 ==> s == NatToString(i)
    ensures i < 0 ==> s == "-" + NatToString(-i)
  {
    if i >= 0 then NatToString(i) else "-" + NatToString(-i)
  }

  /** Python's `<` on strings: code point by code point, a proper prefix
      first. */
  predicate Less(a: string, b: string) {
    if a == [] then b != []
    else if b == [] then false
    else if a[0] != b[0] then a[0] < b[0]
    else Less(a[1..], b[1..])
  }

  lemma {:induction false} LessIrreflexive(a: string)
    ensures !Less(a, a)
  {
    if a != [] {
      LessIrreflexive(a[1..]);
    }
  }

  lemma {:induction false} LessTransitive(a: string, b: string, c: string)
    requires Less(a, b) && Less(b, c)
    ensures Less(a, c)
  {
    if a != [] && a[0] == b[0] && b[0] == c[0] {
      LessTransitive(a[1..], b[1..], c[1..]);
    }
  }

  lemma {:induction false} LessTotal(a: string, b: string)
    ensures a == b || Less(a, b) || Less(b, a)
  {
    if a != [] && b != [] && a[0] == b[0] {
      LessTotal(a[1..], b[1..]);
      if a[1..] == b[1..] {
        assert a == [a[0]] + a[1..] && b == [b[0]] + b[1..];
      }
    }
  }

  /** The strings a list names. */
  function Elems(s: seq<string>): (r: set<string>)
    ensures forall y :: y in r <==> y in s
  {
    set y | y in s
  }

  /** Strictly increasing: sorted and without repetitions. */
  predicate StrictlySorted(s: seq<string>) {
    forall i, j :: 0 <= i < j < |s| ==> Less(s[i], s[j])
  }

  /** Puts `x` into its place in an increasing list, unless it is already
      there. */
  function Insert(x: string, s: seq<string>): seq<string> {
    if s == [] then [x]
    else if x == s[0] then s
    else if Less(x, s[0]) then [x] + s
    else [s[0]] + Insert(x, s[1..])
  }

  /** Inserting into a strictly increasing list keeps it strictly
      increasing and adds `x` to the strings it names. */
  lemma {:induction false} InsertSorted(x: string, s: seq<string>)
    requires StrictlySorted(s)
    ensures StrictlySorted(Insert(x, s))
    ensures Elems(Insert(x, s)) == Elems(s) + {x}
  {
    if s == [] {
    } else if x == s[0] {
    } else if Less(x, s[0]) {
      assert forall j :: 0 <= j < |s| ==> Less(x, s[j]) by {
        forall j | 0 <= j < |s| ensures Less(x, s[j]) {
          if j > 0 { LessTransitive(x, s[0], s[j]); }
        }
      }
    } else {
      LessTotal(x, s[0]);
      InsertSorted(x, s[1..]);
      var rest := Insert(x, s[1..]);
      assert forall y :: y in rest ==> Less(s[0], y) by {
        forall y | y in rest ensures Less(s[0], y) {
          if y != x {
            assert y in Elems(s[1..]);
            var j :| 0 <= j < |s[1..]| && s[1..][j] == y;
            assert s[j + 1] == y;
          }
        }
      }
      assert s == [s[0]] + s[1..];
    }
  }

  /** `sorted(set(xs))`. */
  function SortedSet(xs: seq<string>): seq<string> {
    if xs == [] then [] else Insert(xs[0], SortedSet(xs[1..]))
  }

  /** `sorted(set(xs))` is strictly increasing and names the strings of
      `xs`. */
  lemma {:induction false} SortedSetSpec(xs: seq<string>)
    ensures StrictlySorted(SortedSet(xs))
    ensures Elems(SortedSet(xs)) == Elems(xs)
  {
    if xs != [] {
      SortedSetSpec(xs[1..]);
      InsertSorted(xs[0], SortedSet(xs[1..]));
      assert xs == [xs[0]] + xs[1..];
    }
  }

  /** The first element of a strictly increasing list is its least. */
  lemma HeadIsLeast(s: seq<string>, y: string)
    requires StrictlySorted(s) && y in s && y != s[0]
    ensures Less(s[0], y)
  {
  }

  /** There is only one strictly increasing list over a given set of strings,
      so `sorted(set(xs))` depends on which strings occur, not on their
      order or repetitions. */
  lemma {:induction false} StrictlySortedUnique(a: seq<string>, b: seq<string>)
    requires StrictlySorted(a) && StrictlySorted(b)
    requires Elems(a) == Elems(b)
    ensures a == b
  {
    assert a == [] <==> b == [] by {
      if a != [] { assert a[0] in Elems(b); }
      if b != [] { assert b[0] in Elems(a); }
    }
    if a != [] {
      assert a[0] in b && b[0] in a;
      if a[0] != b[0] {
        HeadIsLeast(a, b[0]);
        HeadIsLeast(b, a[0]);
        LessTransitive(a[0], b[0], a[0]);
        LessIrreflexive(a[0]);
      } else {
        assert forall x :: x in a[1..] ==> x != a[0] by {
          forall x | x in a[1..] ensures x != a[0] {
            var j :| 0 <= j < |a[1..]| && a[1..][j] == x;
            assert Less(a[0], a[j + 1]);
            LessIrreflexive(a[0]);
          }
        }
        assert forall x :: x in b[1..] ==> x != b[0] by {
          forall x | x in b[1..] ensures x != b[0] {
            var j :| 0 <= j < |b[1..]| && b[1..][j] == x;
            assert Less(b[0], b[j + 1]);
            LessIrreflexive(b[0]);
          }
        }
        assert a == [a[0]] + a[1..] && b == [b[0]] + b[1..];
        forall x ensures x in a[1..] <==> x in b[1..] {
          assert x in a <==> x in b;
          assert x in a <==> x == a[0] || x in a[1..];
          assert x in b <==> x == b[0] || x in b[1..];
        }
        assert Elems(a[1..]) == Elems(b[1..]);
        StrictlySortedUnique(a[1..], b[1..]);
      }
    }
  }

  /** `sorted(set(xs))` is the same for any two lists naming the same
      strings. */
  lemma SortedSetDeterministic(xs: seq<string>, ys: seq<string>)
    requires Elems(xs) == Elems(ys)
    ensures SortedSet(xs) == SortedSet(ys)
  {
    SortedSetSpec(xs);
    SortedSetSpec(ys);
    StrictlySortedUnique(SortedSet(xs), SortedSet(ys));
  }
}
