/**
  The handful of Python `str` operations the telemetry parser relies on:
  `strip()`, `split(sep)`, `replace(a, b)` and `split(sep, 1)`, each over a
  string seen as a sequence of characters.
 */
module Text {

  /** The characters Python's `str.strip()` removes when called without an
      argument (those for which `str.isspace()` holds). */
  predicate IsSpace(c: char)
  {
    || ('\t' <= c <= '\r')
    || ('\U{1C}' <= c <= '\U{1F}')
    || c == ' '
    || c == '\U{85}'
    || c == '\U{A0}'
    || c == '\U{1680}'
    || ('\U{2000}' <= c <= '\U{200A}')
    || c == '\U{2028}'
    || c == '\U{2029}'
    || c == '\U{202F}'
    || c == '\U{205F}'
    || c == '\U{3000}'
  }

  predicate AllSpace(s: string)
  {
    forall i :: 0 <= i < |s| ==> IsSpace(s[i])
  }

  /** Neither the first nor the last character is whitespace. */
  predicate IsStripped(s: string)
  {
    s == [] || (!IsSpace(s[0]) && !IsSpace(s[|s| - 1]))
  }

  /** How many whitespace characters `s` starts with: `s.lstrip()` is `s[LeadingSpaces(s)..]`. */
  function LeadingSpaces(s: string): (n: nat)
    ensures n <= |s| && AllSpace(s[..n])
    ensures n == |s| || !IsSpace(s[n])
    decreases |s|
  {
    if |s| > 0 && IsSpace(s[0]) then
      var n := 1 + LeadingSpaces(s[1..]);
      assert s[..n] == [s[0]] + s[1..][..n - 1];
      n
    else 0
  }

  /** Python's `s.rstrip()`: the prefix left after dropping trailing whitespace. */
  function TrimEnd(s: string): (r: string)
    ensures |r| <= |s| && r == s[..|r|]
    ensures AllSpace(s[|r|..])
    ensures r == [] || !IsSpace(r[|r| - 1])
    decreases |s|
  {
    if |s| > 0 && IsSpace(s[|s| - 1]) then TrimEnd(s[..|s| - 1]) else s
  }

  /** Python's `s.strip()`: the stripped middle part of `s`, starting after
      its leading whitespace, with only whitespace after it. */
  function Strip(s: string): (r: string)
    ensures IsStripped(r)
    ensures LeadingSpaces(s) + |r| <= |s|
    ensures r == s[LeadingSpaces(s)..LeadingSpaces(s) + |r|]
    ensures AllSpace(s[LeadingSpaces(s) + |r|..])
  {
    var i := LeadingSpaces(s);
    var t := s[i..];
    var r := TrimEnd(t);
    assert r != [] ==> r[0] == s[i];
    assert s[i + |r|..] == t[|r|..];
    r
  }

  /** Whatever is absent from `s` is absent from `Strip(s)`. */
  lemma StripKeepsOut(s: string, c: char)
    requires c !in s
    ensures c !in Strip(s)
  {
    var r := Strip(s);
    var i := LeadingSpaces(s);
    assert forall k :: 0 <= k < |r| ==> r[k] == s[i + k];
  }

  /** `AllSpace` of a prefix, stated about the characters of `s` themselves. */
  lemma AllSpacePrefix(s: string, n: nat)
    requires n <= |s| && AllSpace(s[..n])
    ensures forall k :: 0 <= k < n ==> IsSpace(s[k])
  {
    forall k | 0 <= k < n ensures IsSpace(s[k]) {
      assert s[..n][k] == s[k];
    }
  }

  /** `AllSpace` of a suffix, stated about the characters of `s` themselves. */
  lemma AllSpaceSuffix(s: string, n: nat)
    requires n <= |s| && AllSpace(s[n..])
    ensures forall k :: n <= k < |s| ==> IsSpace(s[k])
  {
    forall k | n <= k < |s| ensures IsSpace(s[k]) {
      assert s[n..][k - n] == s[k];
    }
  }

  lemma LeadingSpacesAt(s: string, i: nat)
    requires i <= |s| && AllSpace(s[..i])
    requires i == |s| || !IsSpace(s[i])
    ensures LeadingSpaces(s) == i
  {
    AllSpacePrefix(s, i);
    AllSpacePrefix(s, LeadingSpaces(s));
  }

  lemma TrimEndAt(s: string, j: nat)
    requires j <= |s| && AllSpace(s[j..])
    requires j == 0 || !IsSpace(s[j - 1])
    ensures TrimEnd(s) == s[..j]
  {
    var r := TrimEnd(s);
    AllSpaceSuffix(s, j);
    AllSpaceSuffix(s, |r|);
    assert |r| > 0 ==> s[|r| - 1] == r[|r| - 1];
  }

  lemma StripOfSpaces(s: string)
    requires AllSpace(s)
    ensures Strip(s) == []
  {
    assert s[..|s|] == s;
    LeadingSpacesAt(s, |s|);
  }

  lemma StripAround(s: string, i: nat, j: nat)
    requires i < j <= |s|
    requires AllSpace(s[..i]) && AllSpace(s[j..]) && IsStripped(s[i..j])
    ensures Strip(s) == s[i..j]
  {
    var t := s[i..];
    LeadingSpacesAt(s, i);
    assert AllSpace(t[j - i..]) by {
      assert t[j - i..] == s[j..];
    }
    assert !IsSpace(t[j - i - 1]) by {
      assert t[j - i - 1] == s[i..j][j - i - 1];
    }
    TrimEndAt(t, j - i);
    assert t[..j - i] == s[i..j];
  }

  /** `Strip(s)` is the only stripped middle: any stripped `s[i..j]` with
      only whitespace on either side of it is what `Strip` returns. */
  lemma StripUnique(s: string, i: nat, j: nat)
    requires i <= j <= |s|
    requires AllSpace(s[..i]) && AllSpace(s[j..]) && IsStripped(s[i..j])
    ensures Strip(s) == s[i..j]
  {
    if i == j {
      AllSpacePrefix(s, i);
      AllSpaceSuffix(s, j);
      StripOfSpaces(s);
    } else {
      StripAround(s, i, j);
    }
  }

  /** Stripping twice is stripping once. */
  lemma StripIdempotent(s: string)
    ensures Strip(Strip(s)) == Strip(s)
  {
    var r := Strip(s);
    assert r[..0] == [] && r[|r|..] == [] && r[0..|r|] == r;
    StripUnique(r, 0, |r|);
  }

  /** The inverse of `Split`: the parts glued back with `sep` between them. */
  function Join(parts: seq<string>, sep: char): string
    requires |parts| >= 1
  {
    if |parts| == 1 then parts[0] else parts[0] + [sep] + Join(parts[1..], sep)
  }

  /** Python's `s.split(sep)` for a one-character separator: the maximal
      runs of `s` free of `sep`, empty runs included. */
  function Split(s: string, sep: char): (parts: seq<string>)
    ensures |parts| >= 1
    ensures forall k :: 0 <= k < |parts| ==> sep !in parts[k]
    ensures Join(parts, sep) == s
    decreases |s|
  {
    if |s| == 0 then [""]
    else
      var rest := Split(s[1..], sep);
      if s[0] == sep then
        assert [sep] + Join(rest, sep) == s;
        [""] + rest
      else
        var parts := [[s[0]] + rest[0]] + rest[1..];
        assert parts[1..] == rest[1..];
        assert |rest| > 1 ==> Join(rest, sep) == rest[0] + [sep] + Join(rest[1..], sep);
        parts
  }

  lemma {:induction false} SplitNoSeparator(p: string, sep: char)
    requires sep !in p
    ensures Split(p, sep) == [p]
    decreases |p|
  {
    if |p| > 0 {
      SplitNoSeparator(p[1..], sep);
    }
  }

  lemma {:induction false} SplitAfterPart(p: string, sep: char, rest: string)
    requires sep !in p
    ensures Split(p + [sep] + rest, sep) == [p] + Split(rest, sep)
    decreases |p|
  {
    var s := p + [sep] + rest;
    if |p| > 0 {
      assert s[1..] == p[1..] + [sep] + rest;
      SplitAfterPart(p[1..], sep, rest);
      var tail := Split(s[1..], sep);
      assert tail == [p[1..]] + Split(rest, sep);
      assert [p[0]] + p[1..] == p;
    } else {
      assert (p + [sep] + rest)[1..] == rest;
    }
  }

  /** Splitting what `Join` glued together gives the parts back. */
  lemma {:induction false} SplitJoin(parts: seq<string>, sep: char)
    requires |parts| >= 1
    requires forall k :: 0 <= k < |parts| ==> sep !in parts[k]
    ensures Split(Join(parts, sep), sep) == parts
    decreases |parts|
  {
    if |parts| == 1 {
      SplitNoSeparator(parts[0], sep);
    } else {
      SplitJoin(parts[1..], sep);
      SplitAfterPart(parts[0], sep, Join(parts[1..], sep));
      assert [parts[0]] + parts[1..] == parts;
    }
  }

  /** Python's `s.replace(target, replacement)` for single characters. */
  function Replace(s: string, target: char, replacement: char): (r: string)
    ensures |r| == |s|
    ensures target != replacement ==> target !in r
    ensures forall i :: 0 <= i < |s| ==> r[i] == (if s[i] == target then replacement else s[i])
  {
    seq(|s|, i requires 0 <= i < |s| => if s[i] == target then replacement else s[i])
  }

  /** Python's `s.split(sep, 1)` when `sep` occurs in `s`: the text before
      the first `sep` and the text after it. */
  function SplitFirst(s: string, sep: char): (r: (string, string))
    requires sep in s
    ensures s == r.0 + [sep] + r.1
    ensures sep !in r.0
    decreases |s|
  {
    if s[0] == sep then ([], s[1..])
    else
      var (before, after) := SplitFirst(s[1..], sep);
      ([s[0]] + before, after)
  }

  /** The split is at the first occurrence: any other way of writing `s`
      around a `sep` that has none before it is the one `SplitFirst` finds. */
  lemma {:induction false} SplitFirstUnique(s: string, sep: char, before: string, after: string)
    requires s == before + [sep] + after && sep !in before
    ensures SplitFirst(s, sep) == (before, after)
    decreases |before|
  {
    if before != [] {
      assert s[1..] == before[1..] + [sep] + after;
      SplitFirstUnique(s[1..], sep, before[1..], after);
      assert [before[0]] + before[1..] == before;
    }
  }
}
