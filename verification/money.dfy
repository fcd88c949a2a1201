/** Money amounts as the scraper reads and writes them. The game prints baht
    amounts with a dot every three digits ("20.191.400 baht"); the scraper
    parses them to integers, prints integers back in the same style, and turns
    the displayed value into the sheet's comma style ("60,017,450"). */
module Money {
  import opened Wrappers
  import opened Text

  // ---------------------------------------------------------------------------
  // parseValue

  /** A character of the regex class `[\d.]`. */
  predicate IsAmountChar(c: char) {
    IsDigit(c) || c == '.'
  }

  predicate AllAmountChars(s: string) {
    forall i :: 0 <= i < |s| ==> IsAmountChar(s[i])
  }

  /** The longest prefix of `s` made of amount characters. */
  function AmountRun(s: string): (r: string)
    ensures |r| <= |s| && r == s[..|r|] && AllAmountChars(r)
    ensures |r| < |s| ==> !IsAmountChar(s[|r|])
  {
    if |s| > 0 && IsAmountChar(s[0]) then [s[0]] + AmountRun(s[1..]) else ""
  }

  /** `text.match(/[\d.]+/)`: the leftmost, longest run of digits and dots,
      or None when the text holds neither. */
  function AmountMatch(s: string): (m: Option<string>)
    ensures m.None? <==> forall i :: 0 <= i < |s| ==> !IsAmountChar(s[i])
    ensures m.Some? ==> AllAmountChars(m.value) && exists start :: 0 <= start < |s| && AmountMatchAt(s, start, m.value)
  {
    var start := FindIndex(s, IsAmountChar);
    if start == -1 then None
    else
      var r := AmountRun(s[start..]);
      assert IsAmountChar(s[start]) && forall i :: 0 <= i < start ==> !IsAmountChar(s[i]);
      assert |r| >= 1 && s[start..start + |r|] == r;
      assert AmountMatchAt(s, start, r);
      Some(r)
  }

  /** `run` is the match of `[\d.]+` starting at `start`: no amount character
      before it, a non-empty run, and no amount character right after it. */
  predicate AmountMatchAt(s: string, start: nat, run: string) {
    && start + |run| <= |s|
    && |run| >= 1
    && s[start..start + |run|] == run
    && AllAmountChars(run)
    && (forall i :: 0 <= i < start ==> !IsAmountChar(s[i]))
    && (start + |run| < |s| ==> !IsAmountChar(s[start + |run|]))
  }

  /** `replace(/\./g, "")`. */
  function StripDots(s: string): (r: string)
    ensures '.' !in r && |r| <= |s|
    ensures AllAmountChars(s) ==> AllDigits(r)
  {
    if |s| == 0 then ""
    else (if s[0] == '.' then "" else [s[0]]) + StripDots(s[1..])
  }

  /** `parseValue`: the digits of the first run of digits and dots, read as
      a decimal number; 0 for an empty text, a text with no run, or a run of
      dots only (`parseInt("")` is NaN and `NaN || 0` is 0). */
  function ParseValue(text: string): (n: nat)
    ensures (forall i :: 0 <= i < |text| ==> !IsDigit(text[i])) ==> n == 0
  {
    if text == "" then 0
    else
      match AmountMatch(text)
      case None => 0
      case Some(run) =>
        var digits := StripDots(run);
        if digits == "" then 0
        else
          NoDigitNoRunDigits(text, run);
          ParseDecimal(digits)
  }

  /** A text without digits has a run of dots only, which loses every
      character to `StripDots`. */
  lemma NoDigitNoRunDigits(text: string, run: string)
    requires AmountMatch(text) == Some(run)
    ensures (forall i :: 0 <= i < |text| ==> !IsDigit(text[i])) ==> StripDots(run) == ""
  {
    if forall i :: 0 <= i < |text| ==> !IsDigit(text[i]) {
      var start :| 0 <= start < |text| && AmountMatchAt(text, start, run);
      assert forall k :: 0 <= k < |run| ==> run[k] == text[start + k];
      DotsOnly(run);
    }
  }

  lemma {:induction false} DotsOnly(s: string)
    requires forall k :: 0 <= k < |s| ==> s[k] == '.'
    ensures StripDots(s) == ""
  {
    if |s| > 0 {
      DotsOnly(s[1..]);
    }
  }

  // ---------------------------------------------------------------------------
  // formatValue

  /** The effect of `replace(/\B(?=(\d{3})+(?!\d))/g, ".")` on a run of
      digits: a dot before every group of three digits counted from the right,
      except at the very start. */
  function GroupDigits(d: string): (r: string)
    requires AllDigits(d)
    ensures |d| >= 1 ==> |r| == |d| + (|d| - 1) / 3
    decreases |d|
  {
    if |d| <= 3 then d else GroupDigits(d[..|d| - 3]) + "." + d[|d| - 3..]
  }

  /** Removing the dots from a grouped rendering gives the digits back. */
  lemma {:induction false} StripGroupDigits(d: string)
    requires AllDigits(d)
    ensures StripDots(GroupDigits(d)) == d
    decreases |d|, 1
  {
    if |d| <= 3 {
      StripDotsNoDots(d);
    } else {
      StripGroupDigitsStep(d);
    }
  }

  lemma {:induction false} StripGroupDigitsStep(d: string)
    requires AllDigits(d) && |d| > 3
    ensures StripDots(GroupDigits(d)) == d
    decreases |d|, 0
  {
    var head := d[..|d| - 3];
    var tail := d[|d| - 3..];
    StripGroupDigits(head);
    assert '.' !in tail by {
      forall k | 0 <= k < |tail| ensures tail[k] != '.' {
        assert tail[k] == d[|d| - 3 + k];
      }
    }
    StripDotsJoin(GroupDigits(head), head, tail);
    assert d == head + tail;
  }

  /** Removing the dots from `front + "." + tail` when `tail` has none. */
  lemma StripDotsJoin(front: string, head: string, tail: string)
    requires StripDots(front) == head && '.' !in tail
    ensures StripDots(front + "." + tail) == head + tail
  {
    var dotTail := "." + tail;
    assert front + "." + tail == front + dotTail;
    StripDotsAppend(front, dotTail);
    StripDotsDot(dotTail, tail);
    StripDotsNoDots(tail);
  }

  lemma StripDotsDot(s: string, tail: string)
    requires |s| >= 1 && s[0] == '.' && s[1..] == tail
    ensures StripDots(s) == StripDots(tail)
  {
  }

  lemma {:induction false} StripDotsNoDots(s: string)
    requires '.' !in s
    ensures StripDots(s) == s
  {
    if |s| > 0 {
      StripDotsNoDots(s[1..]);
      assert s == [s[0]] + s[1..];
    }
  }

  lemma {:induction false} StripDotsAppend(a: string, b: string)
    ensures StripDots(a + b) == StripDots(a) + StripDots(b)
  {
    if |a| > 0 {
      assert (a + b)[1..] == a[1..] + b;
      StripDotsAppend(a[1..], b);
    } else {
      assert a + b == b;
    }
  }

  /** Where a dot sits in a grouped rendering of length `n`: at the positions
      4, 8, 12, … counted from the end, never first. */
  predicate DotPosition(n: nat, i: nat) {
    i > 0 && (n - i) % 4 == 0
  }

  /** The grouped rendering has a dot exactly at the dot positions and
      digits everywhere else. */
  lemma GroupDigitsShape(d: string)
    requires AllDigits(d) && |d| >= 1
    ensures var r := GroupDigits(d);
            forall i :: 0 <= i < |r| ==>
              (r[i] == '.' <==> DotPosition(|r|, i)) && (r[i] != '.' ==> IsDigit(r[i]))
  {
    var r := GroupDigits(d);
    forall i | 0 <= i < |r|
      ensures (r[i] == '.' <==> DotPosition(|r|, i)) && (r[i] != '.' ==> IsDigit(r[i]))
    {
      GroupDigitsAt(d, i);
    }
  }

  lemma {:induction false} GroupDigitsAt(d: string, i: nat)
    requires AllDigits(d) && |d| >= 1 && i < |GroupDigits(d)|
    ensures var r := GroupDigits(d);
            (r[i] == '.' <==> DotPosition(|r|, i)) && (r[i] != '.' ==> IsDigit(r[i]))
    decreases |d|, 1
  {
    var r := GroupDigits(d);
    if |d| <= 3 {
      assert r[i] == d[i] && IsDigit(d[i]);
      assert 1 <= |r| - i <= 3;
    } else {
      GroupDigitsAtStep(d, i);
    }
  }

  lemma {:induction false} GroupDigitsAtStep(d: string, i: nat)
    requires AllDigits(d) && |d| > 3 && i < |GroupDigits(d)|
    ensures var r := GroupDigits(d);
            (r[i] == '.' <==> DotPosition(|r|, i)) && (r[i] != '.' ==> IsDigit(r[i]))
    decreases |d|, 0
  {
    var head := d[..|d| - 3];
    var tail := d[|d| - 3..];
    var front := GroupDigits(head);
    assert AllDigits(head) && AllDigits(tail) by {
      assert forall k :: 0 <= k < |head| ==> head[k] == d[k];
      assert forall k :: 0 <= k < |tail| ==> tail[k] == d[|d| - 3 + k];
    }
    if i < |front| {
      GroupDigitsAt(head, i);
    }
    GroupShapeJoin(front, tail, GroupDigits(d), i);
  }

  /** The shape of `front + "." + tail` at `i`, for a group `tail` of three
      digits, from the shape of `front`. */
  lemma GroupShapeJoin(front: string, tail: string, r: string, i: nat)
    requires r == front + "." + tail && |tail| == 3 && AllDigits(tail) && |front| >= 1 && i < |r|
    requires i < |front| ==> (front[i] == '.' <==> DotPosition(|front|, i)) && (front[i] != '.' ==> IsDigit(front[i]))
    ensures (r[i] == '.' <==> DotPosition(|r|, i)) && (r[i] != '.' ==> IsDigit(r[i]))
  {
    if i < |front| {
      assert r[i] == front[i];
      assert (|r| - i) % 4 == (|front| - i) % 4;
    } else if i == |front| {
      assert r[i] == '.';
    } else {
      assert r[i] == tail[i - |front| - 1];
      assert 1 <= |r| - i <= 3;
    }
  }

  /** A grouped rendering is a non-empty run of amount characters starting
      with a digit. */
  lemma GroupedIsAmount(d: string)
    requires AllDigits(d) && |d| >= 1
    ensures var g := GroupDigits(d);
            |g| >= 1 && AllAmountChars(g) && IsDigit(g[0]) && ' ' !in g
  {
    var g := GroupDigits(d);
    forall i | 0 <= i < |g| ensures IsAmountChar(g[i]) && g[i] != ' ' {
      GroupDigitsAt(d, i);
    }
    GroupDigitsAt(d, 0);
  }

  /** `formatValue`: "0" for zero, otherwise the decimal rendering with a
      dot between groups of three digits. A minus sign is a word boundary for
      `\B`, so no dot follows it. */
  function FormatValue(value: int): (r: string)
    ensures |r| >= 1 && ' ' !in r
    ensures value >= 0 ==> AllAmountChars(r) && IsDigit(r[0])
    ensures value < 0 ==> |r| >= 2 && r[0] == '-' && AllAmountChars(r[1..]) && IsDigit(r[1])
  {
    if value == 0 then "0"
    else
      var g := GroupDigits(NatToString(if value > 0 then value else -value));
      GroupedIsAmount(NatToString(if value > 0 then value else -value));
      if value > 0 then g
      else
        assert ("-" + g)[1..] == g;
        "-" + g
  }

  /** Parsing a formatted amount gives back its magnitude (the sign is not an
      amount character and is skipped). */
  lemma ParseFormatValue(value: int)
    ensures ParseValue(FormatValue(value)) == if value < 0 then -value else value
  {
    if value != 0 {
      var n: nat := if value < 0 then -value else value;
      var d := NatToString(n);
      var sign := if value < 0 then "-" else "";
      var g := GroupDigits(d);
      assert FormatValue(value) == sign + g;
      SignHasNoAmount(sign);
      ParseAmountInText(sign, d, "");
      assert sign + g + "" == sign + g;
    } else {
      assert FormatValue(value) == "" + "0" + "";
      AmountMatchInText("", "0", "");
    }
  }

  lemma SignHasNoAmount(sign: string)
    requires sign == "" || sign == "-"
    ensures forall i :: 0 <= i < |sign| ==> !IsAmountChar(sign[i])
  {
  }

  /** A grouped amount inside a text, after anything without digits or dots
      and before anything that does not continue it, parses to the number its
      digits spell: "20.191.400 baht" parses to 20191400. */
  lemma ParseAmountInText(p: string, d: string, s: string)
    requires forall i :: 0 <= i < |p| ==> !IsAmountChar(p[i])
    requires AllDigits(d) && |d| >= 1
    requires s == "" || !IsAmountChar(s[0])
    ensures ParseValue(p + GroupDigits(d) + s) == ParseDecimal(d)
  {
    var g := GroupDigits(d);
    var t := p + g + s;
    GroupedIsAmount(d);
    AmountMatchInText(p, g, s);
    StripGroupDigits(d);
    assert t != "" && AmountMatch(t) == Some(g) && StripDots(g) == d != "";
  }

  /** The first run of `[\d.]+` in `p + g + s` is `g` when `p` holds no
      amount character and `s` does not continue `g`. */
  lemma AmountMatchInText(p: string, g: string, s: string)
    requires forall i :: 0 <= i < |p| ==> !IsAmountChar(p[i])
    requires |g| >= 1 && AllAmountChars(g)
    requires s == "" || !IsAmountChar(s[0])
    ensures AmountMatch(p + g + s) == Some(g)
  {
    var t := p + g + s;
    assert t[|p|..] == g + s;
    assert t[|p|] == g[0];
    assert forall i :: 0 <= i < |p| ==> t[i] == p[i];
    assert FindIndex(t, IsAmountChar) == |p|;
    AmountRunStops(g, s);
  }

  /** The amount run of a run of amount characters followed by a text that
      does not continue it is that run. */
  lemma {:induction false} AmountRunStops(g: string, s: string)
    requires AllAmountChars(g)
    requires s == "" || !IsAmountChar(s[0])
    ensures AmountRun(g + s) == g
  {
    if |g| > 0 {
      assert (g + s)[1..] == g[1..] + s;
      AmountRunStops(g[1..], s);
    } else {
      assert g + s == s;
    }
  }

  /** A text that does not continue an amount leaves its value alone. */
  lemma ParseValueSuffix(g: string, s: string)
    requires |g| >= 1 && AllAmountChars(g) && IsDigit(g[0])
    requires s == "" || !IsAmountChar(s[0])
    ensures ParseValue(g + s) == ParseValue(g)
  {
    AmountMatchInText("", g, s);
    AmountMatchInText("", g, "");
    assert "" + g + s == g + s;
    assert "" + g + "" == g;
  }

  /** A positive amount the scraper formatted, followed by " baht", parses
      back to itself. */
  lemma ParseFormattedBaht(value: int)
    requires value > 0
    ensures ParseValue(FormatValue(value) + " baht") == value
  {
    ParseFormatValue(value);
    ParseValueSuffix(FormatValue(value), " baht");
  }

  /** The documented example: "20.191.400 baht" parses to 20191400. */
  lemma ParseExample(text: string)
    requires text == "20.191.400 baht"
    ensures ParseValue(text) == 20191400
  {
    FormatExample();
    ParseFormattedBaht(20191400);
    BahtAfter(FormatValue(20191400), text);
  }

  lemma BahtAfter(g: string, text: string)
    requires g == "20.191.400" && text == "20.191.400 baht"
    ensures g + " baht" == text
  {
  }

  // ---------------------------------------------------------------------------
  // The displayed value written to the sheet

  /** `DateFormatter.formatValue`: "" for an empty text; otherwise the first
      " baht" is removed and every dot becomes a comma, each other character
      staying where it was. */
  function DisplayValue(text: string): (r: string)
    ensures text == "" ==> r == ""
    ensures '.' !in r
    ensures IndexOf(text, " baht").None? ==>
              |r| == |text| && forall i :: 0 <= i < |text| ==> r[i] == (if text[i] == '.' then ',' else text[i])
    ensures IndexOf(text, " baht").Some? ==>
              var k := IndexOf(text, " baht").value;
              && |r| == |text| - 5
              && (forall i :: 0 <= i < k ==> r[i] == (if text[i] == '.' then ',' else text[i]))
              && (forall i :: k <= i < |r| ==> r[i] == (if text[i + 5] == '.' then ',' else text[i + 5]))
  {
    if text == "" then "" else ReplaceChar(ReplaceFirst(text, " baht", ""), '.', ',')
  }

  /** The PHP script's conversion of the value cell: a truthy text loses every
      " baht" and has its dots turned into commas, and a falsy result (including
      "0") is written as "". */
  function PhpDisplayValue(text: string): (r: string)
    ensures r != "0"
    ensures text == "" || text == "0" ==> r == ""
    ensures Truthy(Php, text) ==> '.' !in r
    ensures Truthy(Php, text) && IndexOf(text, " baht").None? ==>
              |r| == |text| && forall i :: 0 <= i < |text| ==> r[i] == (if text[i] == '.' then ',' else text[i])
  {
    var converted := if Truthy(Php, text) then ReplaceChar(ReplaceAll(text, " baht", ""), '.', ',') else text;
    if Truthy(Php, converted) then converted else ""
  }

  /** On a text with at most one " baht" the two conversions agree, except
      that PHP writes a "0" result as "". */
  lemma PhpDisplayAgrees(text: string)
    requires IndexOf(text, " baht").Some? ==> !Contains(text[IndexOf(text, " baht").value + 5..], " baht")
    ensures PhpDisplayValue(text) == if DisplayValue(text) == "0" then "" else DisplayValue(text)
  {
    if Truthy(Php, text) {
      ReplaceAllOnce(text, " baht");
    }
  }

  /** Where a non-empty pattern occurs at most once, replacing every
      occurrence is replacing the first. */
  lemma ReplaceAllOnce(text: string, p: string)
    requires |p| > 0
    requires IndexOf(text, p).Some? ==> !Contains(text[IndexOf(text, p).value + |p|..], p)
    ensures ReplaceAll(text, p, "") == ReplaceFirst(text, p, "")
  {
    if IndexOf(text, p).Some? {
      var rest := text[IndexOf(text, p).value + |p|..];
      assert IndexOf(rest, p).None?;
      assert ReplaceAll(rest, p, "") == rest;
    }
  }

  /** Where a text holds " baht" twice, JavaScript removes the first only and
      PHP removes both. */
  lemma BahtTwiceDiffers(s: string)
    requires ' ' !in s && '.' !in s && Truthy(Php, s)
    ensures DisplayValue(s + " baht baht") == s + " baht"
    ensures PhpDisplayValue(s + " baht baht") == s
  {
    BahtTwiceText(s);
    BahtTwiceJs(s);
    BahtTwicePhp(s);
  }

  lemma BahtTwiceText(s: string)
    ensures s + " baht baht" == s + " baht" + " baht"
  {
  }

  lemma BahtTwiceJs(s: string)
    requires ' ' !in s && '.' !in s
    ensures DisplayValue(s + " baht" + " baht") == s + " baht"
  {
    PatternFirstRemoved(s, " baht");
    NoDotUnchanged(s + " baht");
  }

  lemma BahtTwicePhp(s: string)
    requires ' ' !in s && '.' !in s && Truthy(Php, s)
    ensures PhpDisplayValue(s + " baht" + " baht") == s
  {
    PatternAllRemoved(s, " baht");
    NoDotUnchanged(s);
  }

  /** Turning dots into commas leaves a text without dots unchanged. */
  lemma NoDotUnchanged(s: string)
    requires '.' !in s
    ensures ReplaceChar(s, '.', ',') == s
  {
  }

  /** Replacing every occurrence of a pattern whose first character `s`
      lacks in `s` followed by the pattern twice leaves `s`. */
  lemma PatternAllRemoved(s: string, p: string)
    requires |p| > 0 && p[0] !in s
    ensures ReplaceAll(s + p + p, p, "") == s
  {
    var t := s + p + p;
    PatternFound(s, p, p);
    assert t[..|s|] == s && t[|s| + |p|..] == p;
    ReplaceAllStep(t, p, "");
    PatternOnlyRemoved(p);
    assert s + "" + "" == s;
  }

  /** Replacing the first occurrence there leaves one. */
  lemma PatternFirstRemoved(s: string, p: string)
    requires |p| > 0 && p[0] !in s
    ensures ReplaceFirst(s + p + p, p, "") == s + p
  {
    var t := s + p + p;
    PatternFound(s, p, p);
    assert t[..|s|] == s && t[|s| + |p|..] == p;
    assert s + "" + p == s + p;
  }

  /** Removing a pattern from itself leaves nothing. */
  lemma PatternOnlyRemoved(p: string)
    requires |p| > 0
    ensures ReplaceAll(p, p, "") == ""
  {
    PatternFound("", p, "");
    assert "" + p + "" == p;
    ReplaceAllStep(p, p, "");
    assert p[|p|..] == "";
    assert IndexOf("", p).None?;
    assert p[..0] + "" + "" == "";
  }

  /** A pattern after a text without its first character is first found
      right after that text. */
  lemma PatternFound(s: string, p: string, rest: string)
    requires |p| > 0 && p[0] !in s
    ensures IndexOf(s + p + rest, p) == Some(|s|)
  {
    var t := s + p + rest;
    assert t[|s|..|s| + |p|] == p;
    assert OccursAt(t, p, |s|);
    forall j | 0 <= j < |s| ensures !OccursAt(t, p, j) {
      assert t[j] == s[j];
    }
  }

  /** " baht" after a text without spaces is first found right after it. */
  lemma BahtFound(s: string, rest: string)
    requires ' ' !in s
    ensures IndexOf(s + " baht" + rest, " baht") == Some(|s|)
  {
    PatternFound(s, " baht", rest);
  }

  /** Both runtimes turn an amount the scraper itself formatted, followed by
      " baht", into the comma-grouped number; PHP alone writes "" for zero. */
  lemma DisplayFormattedAmount(value: int)
    ensures DisplayValue(FormatValue(value) + " baht") == ReplaceChar(FormatValue(value), '.', ',')
    ensures value != 0 ==> PhpDisplayValue(FormatValue(value) + " baht") == ReplaceChar(FormatValue(value), '.', ',')
    ensures value == 0 ==> PhpDisplayValue(FormatValue(value) + " baht") == ""
  {
    var f := FormatValue(value);
    BahtFound(f, "");
    var t := f + " baht";
    assert t == f + " baht" + "";
    assert t[..|f|] == f && t[|f| + 5..] == "";
    assert ReplaceFirst(t, " baht", "") == f;
    assert IndexOf("", " baht") == None;
    assert ReplaceAll(t, " baht", "") == f + "" + ReplaceAll("", " baht", "");
    assert ReplaceAll(t, " baht", "") == f;
    if value == 0 {
      assert ReplaceChar(f, '.', ',') == "0";
    } else {
      assert |f| >= 2 || f[0] != '0';
    }
  }

  /** The documented example of `formatValue`: 20191400 is printed as
      "20.191.400". */
  lemma FormatExample()
    ensures FormatValue(20191400) == "20.191.400"
  {
    assert NatToString(2) == "2";
    assert NatToString(20) == "20";
    assert NatToString(201) == "201";
    assert NatToString(2019) == "2019";
    assert NatToString(20191) == "20191";
    assert NatToString(201914) == "201914";
    assert NatToString(2019140) == "2019140";
    assert NatToString(20191400) == "20191400";
    assert GroupDigits("20") == "20";
    assert "20191"[..2] == "20" && "20191"[2..] == "191";
    assert GroupDigits("20191") == "20.191";
    assert "20191400"[..5] == "20191" && "20191400"[5..] == "400";
    assert GroupDigits("20191400") == "20.191.400";
  }

  /** The documented example of the display: "60.017.450 baht" is displayed
      as "60,017,450". */
  lemma DisplayExample()
    ensures DisplayValue("60.017.450 baht") == "60,017,450"
  {
    var s := "60.017.450";
    assert "60.017.450 baht" == s + " baht" + "" == s + " baht";
    BahtFound(s, "");
    assert (s + " baht")[..|s|] == s && (s + " baht")[|s| + 5..] == "";
    assert ReplaceFirst(s + " baht", " baht", "") == s;
    var r := ReplaceChar(s, '.', ',');
    assert r == "60,017,450";
  }

}
