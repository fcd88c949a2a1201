/** String helpers shared by the model: the two runtimes' notions of truthiness
    and whitespace, decimal digits, trimming, substring search, replacement,
    splitting on a separator and UTF-16 length. Strings are `seq<char>`. */
module Text {
  import opened Wrappers

  /** The scraper exists in a JavaScript and a PHP flavour; they disagree on
      which strings are falsy and on which characters are whitespace. */
  datatype Runtime = Js | Php

  /** `if (s)` on a string: JavaScript rejects only ""; PHP also rejects "0". */
  predicate Truthy(rt: Runtime, s: string) {
    s != "" && (rt == Php ==> s != "0")
  }

  // ---------------------------------------------------------------------------
  // Character classes

  predicate IsDigit(c: char) {
    '0' <= c <= '9'
  }

  predicate AllDigits(s: string) {
    forall i :: 0 <= i < |s| ==> IsDigit(s[i])
  }

  /** ECMAScript WhiteSpace and LineTerminator: what `String.prototype.trim`
      strips and what the regex class `\s` matches. */
  predicate IsJsSpace(c: char) {
    c == '\t' || c == '\n' || c == '\U{B}' || c == '\U{C}' || c == '\r' || c == ' '
    || c == '\U{A0}' || c == '\U{1680}' || ('\U{2000}' <= c <= '\U{200A}')
    || c == '\U{2028}' || c == '\U{2029}' || c == '\U{202F}' || c == '\U{205F}'
    || c == '\U{3000}' || c == '\U{FEFF}'
  }

  /** The characters PHP's `trim` strips by default. */
  predicate IsPhpTrimSpace(c: char) {
    c == ' ' || c == '\t' || c == '\n' || c == '\r' || c == '\0' || c == '\U{B}'
  }

  /** The characters PCRE's `\s` matches in `preg_match` without the `u` flag. */
  predicate IsPcreSpace(c: char) {
    c == ' ' || c == '\t' || c == '\n' || c == '\U{B}' || c == '\U{C}' || c == '\r'
  }

  /** Whitespace as stripped by the runtime's `trim`. */
  predicate IsTrimSpace(rt: Runtime, c: char) {
    match rt
    case Js => IsJsSpace(c)
    case Php => IsPhpTrimSpace(c)
  }

  /** Whitespace as matched by the runtime's regex class `\s`. */
  predicate IsRegexSpace(rt: Runtime, c: char) {
    match rt
    case Js => IsJsSpace(c)
    case Php => IsPcreSpace(c)
  }

  // ---------------------------------------------------------------------------
  // Trimming

  function TrimStart(rt: Runtime, s: string): (r: string)
    ensures |r| <= |s| && r == s[|s| - |r|..]
    ensures r == [] || !IsTrimSpace(rt, r[0])
    ensures forall i :: 0 <= i < |s| - |r| ==> IsTrimSpace(rt, s[i])
  {
    if |s| > 0 && IsTrimSpace(rt, s[0]) then TrimStart(rt, s[1..]) else s
  }

  function TrimEnd(rt: Runtime, s: string): (r: string)
    ensures |r| <= |s| && r == s[..|r|]
    ensures r == [] || !IsTrimSpace(rt, r[|r| - 1])
    ensures forall i :: |r| <= i < |s| ==> IsTrimSpace(rt, s[i])
  {
    if |s| > 0 && IsTrimSpace(rt, s[|s| - 1]) then TrimEnd(rt, s[..|s| - 1]) else s
  }

  /** `trim`: strips leading and trailing whitespace (`TrimShape` states
      what the result looks like). */
  function Trim(rt: Runtime, s: string): (r: string)
    ensures |r| <= |s|
  {
    TrimEnd(rt, TrimStart(rt, s))
  }

  /** The trimmed text neither starts nor ends with whitespace, and it is
      empty exactly when `s` is all whitespace. */
  lemma TrimShape(rt: Runtime, s: string)
    ensures var r := Trim(rt, s);
            r == [] || (!IsTrimSpace(rt, r[0]) && !IsTrimSpace(rt, r[|r| - 1]))
    ensures Trim(rt, s) == [] <==> forall i :: 0 <= i < |s| ==> IsTrimSpace(rt, s[i])
  {
    var t := TrimStart(rt, s);
    var r := TrimEnd(rt, t);
    assert r == [] ==> t == [];
  }

  /** What `trim` keeps is a contiguous piece of its input, and everything it
      cuts away on either side is whitespace. */
  lemma TrimIsInfix(rt: Runtime, s: string) returns (lo: nat)
    ensures lo + |Trim(rt, s)| <= |s| && Trim(rt, s) == s[lo..lo + |Trim(rt, s)|]
    ensures forall i :: 0 <= i < lo ==> IsTrimSpace(rt, s[i])
    ensures forall i :: lo + |Trim(rt, s)| <= i < |s| ==> IsTrimSpace(rt, s[i])
  {
    var t := TrimStart(rt, s);
    var r := TrimEnd(rt, t);
    lo := |s| - |t|;
    SliceOfSuffix(s, t, r, lo);
    forall i | lo + |r| <= i < |s| ensures IsTrimSpace(rt, s[i]) {
      assert s[i] == t[i - lo];
    }
  }

  /** A prefix `r` of the suffix `t` of `s` starting at `lo` is the slice of
      `s` at `lo`. */
  lemma SliceOfSuffix(s: string, t: string, r: string, lo: nat)
    requires lo <= |s| && t == s[lo..] && |r| <= |t| && r == t[..|r|]
    ensures r == s[lo..lo + |r|]
    ensures forall i :: lo <= i < |s| ==> s[i] == t[i - lo]
  {
  }

  lemma TrimIdempotent(rt: Runtime, s: string)
    ensures Trim(rt, Trim(rt, s)) == Trim(rt, s)
  {
    TrimShape(rt, s);
    TrimUnchanged(rt, Trim(rt, s));
  }

  /** A text that neither starts nor ends with whitespace is its own trim. */
  lemma TrimUnchanged(rt: Runtime, s: string)
    requires s == [] || (!IsTrimSpace(rt, s[0]) && !IsTrimSpace(rt, s[|s| - 1]))
    ensures Trim(rt, s) == s
  {
    TrimStartKeeps(rt, s);
    TrimEndKeeps(rt, s);
  }

  lemma TrimStartKeeps(rt: Runtime, s: string)
    requires s == [] || !IsTrimSpace(rt, s[0])
    ensures TrimStart(rt, s) == s
  {
  }

  lemma TrimEndKeeps(rt: Runtime, s: string)
    requires s == [] || !IsTrimSpace(rt, s[|s| - 1])
    ensures TrimEnd(rt, s) == s
  {
  }

  // ---------------------------------------------------------------------------
  // Decimal numbers

  function DigitValue(c: char): nat
    requires IsDigit(c)
  {
    c as int - '0' as int
  }

  function DigitChar(d: nat): (c: char)
    requires d < 10
    ensures IsDigit(c) && DigitValue(c) == d
  {
    ('0' as int + d) as char
  }

  /** `Number.parseInt(s, 10)` / `(int)$s` of a run of decimal digits. */
  function ParseDecimal(s: string): nat
    requires AllDigits(s)
  {
    if |s| == 0 then 0 else 10 * ParseDecimal(s[..|s| - 1]) + DigitValue(s[|s| - 1])
  }

  /** The decimal rendering of a natural number (`n.toString()`): non-empty,
      digits only, no leading zero, and it parses back to `n`. */
  function NatToString(n: nat): (r: string)
    ensures |r| >= 1 && AllDigits(r)
    ensures r[0] == '0' ==> n == 0
    ensures ParseDecimal(r) == n
  {
    if n < 10 then [DigitChar(n)]
    else
      var front := NatToString(n / 10);
      var r := front + [DigitChar(n % 10)];
      assert r[..|r| - 1] == front;
      r
  }

  /** Two numbers render alike only if they are equal. */
  lemma NatToStringInjective(m: nat, n: nat)
    requires NatToString(m) == NatToString(n)
    ensures m == n
  {
  }

  /** A JavaScript template-literal rendering of an integer. */
  function IntToString(i: int): (r: string)
    ensures i >= 0 ==> r == NatToString(i)
    ensures i < 0 ==> r == "-" + NatToString(-i)
  {
    if i < 0 then "-" + NatToString(-i) else NatToString(i)
  }

  /** The longest prefix of `s` made of digits. */
  function DigitPrefix(s: string): (r: string)
    ensures |r| <= |s| && r == s[..|r|] && AllDigits(r)
    ensures |r| < |s| ==> !IsDigit(s[|r|])
  {
    if |s| > 0 && IsDigit(s[0]) then [s[0]] + DigitPrefix(s[1..]) else ""
  }

  // ---------------------------------------------------------------------------
  // Searching sequences

  /** `xs.findIndex(p)`: the first position whose element satisfies `p`, or -1. */
  function FindIndex<T>(xs: seq<T>, p: T -> bool): (r: int)
    ensures -1 <= r < |xs|
    ensures r >= 0 ==> p(xs[r]) && forall j :: 0 <= j < r ==> !p(xs[j])
    ensures r == -1 ==> forall j :: 0 <= j < |xs| ==> !p(xs[j])
  {
    if |xs| == 0 then -1
    else if p(xs[0]) then 0
    else
      var r := FindIndex(xs[1..], p);
      assert forall j :: 1 <= j < |xs| ==> xs[j] == xs[1..][j - 1];
      if r == -1 then -1 else r + 1
  }

  // ---------------------------------------------------------------------------
  // Substring search and replacement

  predicate StartsWith(s: string, p: string) {
    |p| <= |s| && s[..|p|] == p
  }

  predicate OccursAt(s: string, p: string, i: int) {
    0 <= i <= |s| - |p| && s[i..i + |p|] == p
  }

  predicate Contains(s: string, p: string) {
    exists i :: 0 <= i <= |s| && OccursAt(s, p, i)
  }

  /** A text found in a piece is found in anything the piece is part of. */
  lemma ContainsInfix(a: string, b: string, c: string, p: string)
    requires Contains(b, p)
    ensures Contains(a + b + c, p)
  {
    var i :| 0 <= i <= |b| && OccursAt(b, p, i);
    var s := a + b + c;
    assert s[|a| + i..|a| + i + |p|] == b[i..i + |p|];
    assert OccursAt(s, p, |a| + i);
  }

  lemma ContainsPrefix(p: string, rest: string)
    ensures Contains(p + rest, p)
  {
    assert (p + rest)[0..|p|] == p;
    assert OccursAt(p + rest, p, 0);
  }

  lemma ContainsSuffix(front: string, s: string, p: string)
    requires Contains(s, p)
    ensures Contains(front + s, p)
  {
    ContainsInfix(front, s, "", p);
    assert front + s + "" == front + s;
  }

  function IndexFrom(s: string, p: string, from: nat): (r: Option<nat>)
    requires from <= |s|
    ensures r.Some? ==> from <= r.value && OccursAt(s, p, r.value)
                        && forall j :: from <= j < r.value ==> !OccursAt(s, p, j)
    ensures r.None? ==> forall j :: from <= j ==> !OccursAt(s, p, j)
    decreases |s| - from
  {
    if OccursAt(s, p, from) then Some(from)
    else if from + |p| >= |s| then None
    else IndexFrom(s, p, from + 1)
  }

  /** `indexOf` / `strpos`: the first position where `p` occurs in `s`. */
  function IndexOf(s: string, p: string): (r: Option<nat>)
    ensures r.None? <==> !Contains(s, p)
    ensures r.Some? ==> OccursAt(s, p, r.value)
                        && forall j :: 0 <= j < r.value ==> !OccursAt(s, p, j)
  {
    IndexFrom(s, p, 0)
  }

  /** JavaScript `s.replace(p, q)` with a string pattern: only the first
      occurrence of `p` is replaced. */
  function ReplaceFirst(s: string, p: string, q: string): string {
    match IndexOf(s, p)
    case None => s
    case Some(i) => s[..i] + q + s[i + |p|..]
  }

  /** PHP `str_replace(p, q, s)`: every occurrence of a non-empty `p`, scanned
      left to right without overlap, is replaced. */
  function ReplaceAll(s: string, p: string, q: string): string
    decreases |s|
  {
    if p == "" then s
    else
      match IndexOf(s, p)
      case None => s
      case Some(i) => s[..i] + q + ReplaceAll(s[i + |p|..], p, q)
  }

  /** One step of `str_replace`: the text before the first occurrence, the
      replacement, then the rest with its own occurrences replaced. */
  lemma ReplaceAllStep(s: string, p: string, q: string)
    requires |p| > 0 && IndexOf(s, p).Some?
    ensures ReplaceAll(s, p, q)
            == s[..IndexOf(s, p).value] + q + ReplaceAll(s[IndexOf(s, p).value + |p|..], p, q)
  {
  }

  /** `s.replace(/a/g, b)` or `str_replace(a, b, s)` for single characters. */
  function ReplaceChar(s: string, a: char, b: char): (r: string)
    ensures |r| == |s|
    ensures forall i :: 0 <= i < |s| ==> r[i] == (if s[i] == a then b else s[i])
  {
    seq(|s|, i requires 0 <= i < |s| => if s[i] == a then b else s[i])
  }

  // ---------------------------------------------------------------------------
  // Splitting, joining and concatenating

  /** `s.split(sep)` for a one-character separator. */
  function Split(s: string, sep: char): (parts: seq<string>)
    ensures |parts| >= 1
    ensures forall k :: 0 <= k < |parts| ==> sep !in parts[k]
  {
    if |s| == 0 then [""]
    else
      var rest := Split(s[1..], sep);
      if s[0] == sep then [""] + rest else [[s[0]] + rest[0]] + rest[1..]
  }

  /** `parts.join(sep)`. */
  function Join(parts: seq<string>, sep: string): string {
    if |parts| == 0 then ""
    else if |parts| == 1 then parts[0]
    else parts[0] + sep + Join(parts[1..], sep)
  }

  /** Splitting on a character and joining on it again gives the input back. */
  lemma {:induction false} JoinSplit(s: string, sep: char)
    ensures Join(Split(s, sep), [sep]) == s
  {
    if |s| > 0 {
      var rest := Split(s[1..], sep);
      JoinSplit(s[1..], sep);
      if s[0] == sep {
        assert Split(s, sep) == [""] + rest;
        assert s == [sep] + s[1..];
      } else {
        var parts := [[s[0]] + rest[0]] + rest[1..];
        assert Split(s, sep) == parts;
        if |rest| == 1 {
          assert Join(parts, [sep]) == [s[0]] + rest[0];
          assert s == [s[0]] + s[1..];
        } else {
          assert parts[1..] == rest[1..];
          assert Join(parts, [sep]) == [s[0]] + rest[0] + [sep] + Join(rest[1..], [sep]);
          assert s == [s[0]] + s[1..];
        }
      }
    }
  }

  /** A piece without the separator is a single part. */
  lemma {:induction false} SplitNoSep(a: string, sep: char)
    requires sep !in a
    ensures Split(a, sep) == [a]
  {
    if |a| > 0 {
      SplitNoSep(a[1..], sep);
      assert [a[0]] + a[1..] == a;
    }
  }

  /** Splitting at the first separator. */
  lemma {:induction false} SplitAtSep(a: string, b: string, sep: char)
    requires sep !in a
    ensures Split(a + [sep] + b, sep) == [a] + Split(b, sep)
  {
    if |a| == 0 {
      assert a + [sep] + b == [sep] + b;
      assert ([sep] + b)[1..] == b;
    } else {
      var s := a + [sep] + b;
      assert s[1..] == a[1..] + [sep] + b;
      SplitAtSep(a[1..], b, sep);
      assert [a[0]] + a[1..] == a;
    }
  }

  /** Joining parts that hold no separator and splitting again gives the
      parts back. */
  lemma {:induction false} SplitJoin(parts: seq<string>, sep: char)
    requires |parts| >= 1
    requires forall k :: 0 <= k < |parts| ==> sep !in parts[k]
    ensures Split(Join(parts, [sep]), sep) == parts
  {
    if |parts| == 1 {
      SplitNoSep(parts[0], sep);
    } else {
      SplitJoin(parts[1..], sep);
      SplitAtSep(parts[0], Join(parts[1..], [sep]), sep);
      assert [parts[0]] + parts[1..] == parts;
    }
  }

  function Concat(parts: seq<string>): string {
    if |parts| == 0 then "" else Concat(parts[..|parts| - 1]) + parts[|parts| - 1]
  }

  lemma {:induction false} ConcatAppend(a: seq<string>, b: seq<string>)
    ensures Concat(a + b) == Concat(a) + Concat(b)
    decreases |b|, 1
  {
    if |b| == 0 {
      assert a + b == a;
    } else {
      ConcatAppendStep(a, b);
    }
  }

  lemma {:induction false} ConcatAppendStep(a: seq<string>, b: seq<string>)
    requires |b| > 0
    ensures Concat(a + b) == Concat(a) + Concat(b)
    decreases |b|, 0
  {
    var front := b[..|b| - 1];
    var last := b[|b| - 1];
    ConcatAppend(a, front);
    assert (a + b)[..|a + b| - 1] == a + front;
    assert (a + b)[|a + b| - 1] == last;
    assert Concat(a + b) == Concat(a + front) + last;
    assert Concat(b) == Concat(front) + last;
  }

  // ---------------------------------------------------------------------------
  // UTF-16 length

  /** The number of UTF-16 code units of a string (JavaScript's `length`):
      characters outside the Basic Multilingual Plane take two. */
  function Units(s: string): nat {
    if |s| == 0 then 0
    else Units(s[..|s| - 1]) + (if s[|s| - 1] as int >= 0x10000 then 2 else 1)
  }

  lemma {:induction false} UnitsAppend(a: string, b: string)
    ensures Units(a + b) == Units(a) + Units(b)
    decreases |b|
  {
    if |b| == 0 {
      assert a + b == a;
    } else {
      assert (a + b)[..|a + b| - 1] == a + b[..|b| - 1];
      UnitsAppend(a, b[..|b| - 1]);
    }
  }

  lemma UnitsAtLeastLength(s: string)
    ensures |s| <= Units(s) <= 2 * |s|
  {
  }
}
