/** The detail phase: every player's page is visited and the detail columns
    of the player's row are filled in from it. A page that cannot be loaded
    counts as an error and leaves the row as it was. */
module Enrichment {
  import opened Wrappers
  import opened Text
  import opened PlayerMap
  import opened RowShaping
  import Money

  /** A `tr` of a player page: its whole text and the texts of its `td`s, as
      the DOM library returns them. */
  datatype PageRow = PageRow(text: string, tds: seq<string>)

  /** What a player page offers: the text of the first team link (None when
      the page has none), the texts the JavaScript runners' field selectors
      return ("" when nothing matches), and the rows the PHP script and the
      value lookup scan. */
  datatype PlayerPage = PlayerPage(
    teamLink: Option<string>,
    quality: string,
    affectedQuality: string,
    potential: string,
    penalties: string,
    rows: seq<PageRow>)

  // ---------------------------------------------------------------------------
  // Reading the fields

  /** The team: in JavaScript the trimmed link text, "Free Agent" when that
      is empty (a missing link reads as ""); in PHP "Free Agent" only when
      there is no link, the trimmed text (possibly "") otherwise. */
  function TeamValue(r: Runner, teamLink: Option<string>): (t: string)
    ensures r != ScriptPhp ==> t != "" && (t == Trim(Js, teamLink.GetOr("")) || t == "Free Agent")
    ensures r != ScriptPhp && Trim(Js, teamLink.GetOr("")) != "" ==> t == Trim(Js, teamLink.GetOr(""))
    ensures r == ScriptPhp && teamLink.Some? ==> t == Trim(Php, teamLink.value)
    ensures teamLink.None? ==> t == "Free Agent"
  {
    if r == ScriptPhp then
      if teamLink.None? then "Free Agent" else Trim(Php, teamLink.value)
    else
      var t := Trim(Js, teamLink.GetOr(""));
      if t == "" then "Free Agent" else t
  }

  /** A team link whose text is only a space: JavaScript reports a free
      agent, PHP an empty team. */
  lemma BlankTeamLinkDiffers()
    ensures TeamValue(ModularJs, Some(" ")) == "Free Agent"
    ensures TeamValue(ScriptPhp, Some(" ")) == ""
  {
    BlankTrim(Js);
    BlankTrim(Php);
  }

  lemma BlankTrim(rt: Runtime)
    ensures Trim(rt, " ") == ""
  {
    assert forall i :: 0 <= i < |" "| ==> " "[i] == ' ';
  }

  /** The fields the PHP script finds by scanning rows. */
  datatype Field = Quality | AffectedQuality | Potential | Penalties

  /** The rows a field's scan accepts, by their whole text. */
  predicate Accepts(f: Field, t: string) {
    match f
    case Quality => Contains(t, "Quality") && !Contains(t, "Affected")
    case AffectedQuality => Contains(t, "Affected Quality")
    case Potential => Contains(t, "Potential") && !Contains(t, "Next Season")
    case Penalties => Contains(t, "Penalties")
  }

  predicate Scanned(row: PageRow, f: Field) {
    Accepts(f, row.text) && |row.tds| >= 2
  }

  /** The cell a scanned row gives: the last cell for the potential, the
      second for the others. */
  function Picked(row: PageRow, f: Field): string
    requires |row.tds| >= 2
  {
    if f == Potential then row.tds[|row.tds| - 1] else row.tds[1]
  }

  /** The PHP script's row scan: every accepted row with at least two cells
      overwrites the result with its picked cell, so the last such row wins;
      "" when there is none. The script trims the cell it keeps; the model
      trims the scan's result, which is the same. */
  function PhpScan(rows: seq<PageRow>, f: Field): string
    decreases |rows|
  {
    if |rows| == 0 then ""
    else if Scanned(rows[|rows| - 1], f) then Picked(rows[|rows| - 1], f)
    else PhpScan(rows[..|rows| - 1], f)
  }

  /** The scan yields "" when no row is accepted. */
  lemma {:induction false} PhpScanNone(rows: seq<PageRow>, f: Field)
    requires forall k :: 0 <= k < |rows| ==> !Scanned(rows[k], f)
    ensures PhpScan(rows, f) == ""
    decreases |rows|
  {
    if |rows| > 0 {
      var prefix := rows[..|rows| - 1];
      assert forall k :: 0 <= k < |prefix| ==> prefix[k] == rows[k];
      PhpScanNone(prefix, f);
    }
  }

  /** The scan yields the picked cell of the last accepted row. */
  lemma {:induction false} PhpScanLastRow(rows: seq<PageRow>, f: Field, k: nat)
    requires k < |rows| && Scanned(rows[k], f)
    requires forall j :: k < j < |rows| ==> !Scanned(rows[j], f)
    ensures PhpScan(rows, f) == Picked(rows[k], f)
    decreases |rows|
  {
    var n := |rows| - 1;
    if k < n {
      var prefix := rows[..n];
      assert prefix[k] == rows[k];
      assert forall j :: k < j < |prefix| ==> prefix[j] == rows[j];
      PhpScanLastRow(prefix, f, k);
      assert !Scanned(rows[n], f);
      assert PhpScan(rows, f) == PhpScan(prefix, f);
    }
  }

  /** Cell `j` reads "Value" once trimmed and has a cell two to its right. */
  predicate ValueLabelAt(tds: seq<string>, j: int) {
    0 <= j && j + 2 < |tds| && Trim(Js, tds[j]) == "Value"
  }

  /** The first cell at or after `from` that reads "Value" and has a cell
      two to its right. */
  function ValueLabelFrom(tds: seq<string>, from: nat): (j: Option<nat>)
    ensures j.Some? ==> from <= j.value && ValueLabelAt(tds, j.value)
                        && forall i :: from <= i < j.value ==> !ValueLabelAt(tds, i)
    ensures j.None? ==> forall i :: from <= i ==> !ValueLabelAt(tds, i)
    decreases |tds| - from
  {
    if from + 2 >= |tds| then None
    else if Trim(Js, tds[from]) == "Value" then Some(from)
    else ValueLabelFrom(tds, from + 1)
  }

  /** The value candidate of one row: the cell two to the right of the first
      cell whose trimmed text is "Value" and that has such a neighbour. The
      lookup runs as JavaScript in the browser for every runner. */
  function RowValueCandidate(tds: seq<string>): (c: Option<string>)
    ensures c.None? <==> forall j :: 0 <= j ==> !ValueLabelAt(tds, j)
  {
    match ValueLabelFrom(tds, 0)
    case None => None
    case Some(j) => Some(Trim(Js, tds[j + 2]))
  }

  predicate HasCandidate(row: PageRow) {
    RowValueCandidate(row.tds).Some?
  }

  predicate HasFilledCandidate(row: PageRow) {
    RowValueCandidate(row.tds).Some? && RowValueCandidate(row.tds).value != ""
  }

  /** The modular scraper's value lookup: the first candidate, even an
      empty one; "" when there is none. */
  function FirstValue(rows: seq<PageRow>): (v: string)
  {
    if |rows| == 0 then ""
    else if HasCandidate(rows[0]) then RowValueCandidate(rows[0].tds).value
    else FirstValue(rows[1..])
  }

  /** The PHP script's value lookup: a row's candidate ends the search only
      when it is non-empty, so the first non-empty candidate wins; "" when
      there is none. */
  function FirstNonEmptyValue(rows: seq<PageRow>): (v: string)
  {
    if |rows| == 0 then ""
    else if HasFilledCandidate(rows[0]) then RowValueCandidate(rows[0].tds).value
    else FirstNonEmptyValue(rows[1..])
  }

  /** Each lookup returns the candidate of the first row it accepts, and ""
      when it accepts none. */
  lemma {:induction false} ValueLookups(rows: seq<PageRow>, k: nat)
    requires k <= |rows|
    requires forall j :: 0 <= j < k ==> !HasCandidate(rows[j])
    ensures k < |rows| && HasCandidate(rows[k]) ==> FirstValue(rows) == RowValueCandidate(rows[k].tds).value
    ensures k == |rows| ==> FirstValue(rows) == ""
    decreases k
  {
    if k > 0 {
      FirstValueSkip(rows);
      TailAccepted(rows, k);
      ValueLookups(rows[1..], k - 1);
      if k < |rows| {
        assert rows[1..][k - 1] == rows[k];
      }
    }
  }

  lemma {:induction false} NonEmptyValueLookups(rows: seq<PageRow>, k: nat)
    requires k <= |rows|
    requires forall j :: 0 <= j < k ==> !HasFilledCandidate(rows[j])
    ensures k < |rows| && HasFilledCandidate(rows[k]) ==> FirstNonEmptyValue(rows) == RowValueCandidate(rows[k].tds).value
    ensures k == |rows| ==> FirstNonEmptyValue(rows) == ""
    decreases k
  {
    if k > 0 {
      FirstNonEmptyValueSkip(rows);
      FilledTailAccepted(rows, k);
      NonEmptyValueLookups(rows[1..], k - 1);
      if k < |rows| {
        assert rows[1..][k - 1] == rows[k];
      }
    }
  }

  /** A row a lookup does not accept is passed over. */
  lemma FirstValueSkip(rows: seq<PageRow>)
    requires |rows| > 0 && !HasCandidate(rows[0])
    ensures FirstValue(rows) == FirstValue(rows[1..])
  {
  }

  lemma FirstNonEmptyValueSkip(rows: seq<PageRow>)
    requires |rows| > 0 && !HasFilledCandidate(rows[0])
    ensures FirstNonEmptyValue(rows) == FirstNonEmptyValue(rows[1..])
  {
  }

  /** No accepted row among the first k means none among the first k - 1 of
      the rest. */
  lemma TailAccepted(rows: seq<PageRow>, k: nat)
    requires 0 < k <= |rows|
    requires forall j :: 0 <= j < k ==> !HasCandidate(rows[j])
    ensures forall j :: 0 <= j < k - 1 ==> !HasCandidate(rows[1..][j])
  {
    forall j | 0 <= j < k - 1 ensures !HasCandidate(rows[1..][j]) {
      assert rows[1..][j] == rows[j + 1];
    }
  }

  lemma FilledTailAccepted(rows: seq<PageRow>, k: nat)
    requires 0 < k <= |rows|
    requires forall j :: 0 <= j < k ==> !HasFilledCandidate(rows[j])
    ensures forall j :: 0 <= j < k - 1 ==> !HasFilledCandidate(rows[1..][j])
  {
    forall j | 0 <= j < k - 1 ensures !HasFilledCandidate(rows[1..][j]) {
      assert rows[1..][j] == rows[j + 1];
    }
  }

  /** The two lookups agree unless the first candidate is empty; then the
      PHP script keeps looking and the modular scraper stops. */
  lemma {:induction false} ValueLookupsAgree(rows: seq<PageRow>)
    ensures FirstValue(rows) != "" ==> FirstNonEmptyValue(rows) == FirstValue(rows)
    ensures FirstNonEmptyValue(rows) == "" ==> FirstValue(rows) == ""
    decreases |rows|
  {
    if |rows| > 0 && !HasCandidate(rows[0]) {
      ValueLookupsAgree(rows[1..]);
    }
  }

  /** A page whose first "Value" row has an empty neighbour: the modular
      scraper reads "", the PHP script the next row's value. */
  lemma EmptyFirstValueDiffers()
    ensures var rows := [PageRow("", ["Value", "", ""]), PageRow("", ["Value", "", "7"])];
            FirstValue(rows) == "" && FirstNonEmptyValue(rows) == "7"
  {
    var a := PageRow("", ["Value", "", ""]);
    var b := PageRow("", ["Value", "", "7"]);
    CandidateExample("");
    CandidateExample("7");
    FirstValueOfEmpty(a, b);
    FirstNonEmptyOfSecond(a, b);
  }

  lemma FirstValueOfEmpty(a: PageRow, b: PageRow)
    requires RowValueCandidate(a.tds) == Some("")
    ensures FirstValue([a, b]) == ""
  {
    assert [a, b][0] == a;
    ValueLookups([a, b], 0);
  }

  lemma FirstNonEmptyOfSecond(a: PageRow, b: PageRow)
    requires RowValueCandidate(a.tds) == Some("") && RowValueCandidate(b.tds) == Some("7")
    ensures FirstNonEmptyValue([a, b]) == "7"
  {
    assert !HasFilledCandidate(a) && HasFilledCandidate(b);
    assert [a, b][1..] == [b];
  }

  lemma CandidateExample(v: string)
    requires v == "" || v == "7"
    ensures RowValueCandidate(["Value", "", v]) == Some(v)
  {
    var tds := ["Value", "", v];
    TrimUnchanged(Js, "Value");
    TrimUnchanged(Js, v);
    CandidateAtStart(tds);
  }

  /** A row of three cells that opens with the label has the third cell as
      its candidate. */
  lemma CandidateAtStart(tds: seq<string>)
    requires |tds| == 3 && Trim(Js, tds[0]) == "Value"
    ensures RowValueCandidate(tds) == Some(Trim(Js, tds[2]))
  {
    LabelAtStart(tds);
  }

  /** The label search stops at a first cell that reads "Value". */
  lemma LabelAtStart(tds: seq<string>)
    requires |tds| == 3 && Trim(Js, tds[0]) == "Value"
    ensures ValueLabelFrom(tds, 0) == Some(0)
  {
  }

  /** The detail values in the order of the runner's detail headers, the
      timestamp last. */
  function DetailValues(r: Runner, page: PlayerPage, now: string): (vs: seq<string>)
    ensures |vs| == |DetailHeaders(r)| && vs[0] == TeamValue(r, page.teamLink) && vs[|vs| - 1] == now
    ensures r == ModularJs ==> vs[5] == Money.DisplayValue(FirstValue(page.rows))
    ensures r == ScriptPhp ==> vs[5] == Money.PhpDisplayValue(FirstNonEmptyValue(page.rows))
  {
    var team := TeamValue(r, page.teamLink);
    match r
    case ModularJs =>
      [team, Trim(Js, page.quality), Trim(Js, page.affectedQuality), Trim(Js, page.potential),
       Trim(Js, page.penalties), Money.DisplayValue(FirstValue(page.rows)), now]
    case ScriptJs =>
      [team, Trim(Js, page.quality), Trim(Js, page.affectedQuality), Trim(Js, page.potential),
       Trim(Js, page.penalties), now]
    case ScriptPhp =>
      [team, Trim(Php, PhpScan(page.rows, Quality)), Trim(Php, PhpScan(page.rows, AffectedQuality)),
       Trim(Php, PhpScan(page.rows, Potential)), Trim(Php, PhpScan(page.rows, Penalties)),
       Money.PhpDisplayValue(FirstNonEmptyValue(page.rows)), now]
  }

  // ---------------------------------------------------------------------------
  // Writing the fields into a row

  /** Where a detail header sits: its first position in the enhanced
      headers; in JavaScript -1 when absent, in PHP 0 (the `false` of a
      failed `array_search` used as an index). */
  function DetailIndex(r: Runner, enhanced: seq<string>, name: string): (i: int)
    ensures -1 <= i && (i >= 0 ==> r == ScriptPhp || i < |enhanced|)
    ensures 0 <= i < |enhanced| && enhanced[i] == name ==> forall q :: 0 <= q < i ==> enhanced[q] != name
    ensures i == -1 <==> r != ScriptPhp && name !in enhanced
    ensures name in enhanced ==> 0 <= i < |enhanced| && enhanced[i] == name
  {
    var i := FindIndex(enhanced, (h: string) => h == name);
    if i == -1 && r == ScriptPhp then 0 else i
  }

  function DetailIndices(r: Runner, enhanced: seq<string>): (idx: seq<int>)
    ensures |idx| == |DetailHeaders(r)|
    ensures forall d :: 0 <= d < |idx| ==> idx[d] == DetailIndex(r, enhanced, DetailHeaders(r)[d])
  {
    seq(|DetailHeaders(r)|, d requires 0 <= d < |DetailHeaders(r)| => DetailIndex(r, enhanced, DetailHeaders(r)[d]))
  }

  /** `row[i] = v`: index -1 names no cell (JavaScript sets a property, not
      an element); an index past the end extends the row. The cells skipped
      over are holes in JavaScript (`undefined`, sent to the sheet as `null`)
      and are modelled as empty texts. */
  function SetCell(row: Row, i: int, v: string): (w: Row)
    ensures i < 0 ==> w == row
    ensures 0 <= i ==> |w| == (if i < |row| then |row| else i + 1) && w[i] == v
    ensures forall q :: 0 <= q < |w| && q != i ==> w[q] == (if q < |row| then row[q] else "")
  {
    if i < 0 then row
    else if i < |row| then row[i := v]
    else row + seq(i - |row|, _ => "") + [v]
  }

  /** The writes in order. */
  function WriteAll(row: Row, idx: seq<int>, vs: seq<string>): Row
    requires |idx| == |vs|
    decreases |idx|
  {
    if |idx| == 0 then row
    else SetCell(WriteAll(row, idx[..|idx| - 1], vs[..|vs| - 1]), idx[|idx| - 1], vs[|vs| - 1])
  }

  /** After the writes, a cell no write names keeps its value (or is empty
      when the row had to grow), and a cell some write names holds the value
      of the last such write. */
  lemma {:induction false} WriteAllCells(row: Row, idx: seq<int>, vs: seq<string>, q: nat)
    requires |idx| == |vs|
    ensures var w := WriteAll(row, idx, vs);
            && |w| >= |row|
            && ((forall d :: 0 <= d < |idx| ==> idx[d] != q) && q < |w| ==> w[q] == (if q < |row| then row[q] else ""))
            && (forall d :: 0 <= d < |idx| && idx[d] == q && (forall e :: d < e < |idx| ==> idx[e] != q) ==>
                  q < |w| && w[q] == vs[d])
    decreases |idx|
  {
    if |idx| > 0 {
      var n := |idx| - 1;
      WriteAllCells(row, idx[..n], vs[..n], q);
      assert forall d :: 0 <= d < n ==> idx[..n][d] == idx[d] && vs[..n][d] == vs[d];
    }
  }

  /** Writes that all land inside the row leave its length as it was. */
  lemma {:induction false} WriteAllInside(row: Row, idx: seq<int>, vs: seq<string>)
    requires |idx| == |vs| && forall d :: 0 <= d < |idx| ==> idx[d] < |row|
    ensures |WriteAll(row, idx, vs)| == |row|
    decreases |idx|
  {
    if |idx| > 0 {
      var n := |idx| - 1;
      assert forall d :: 0 <= d < n ==> idx[..n][d] == idx[d];
      WriteAllInside(row, idx[..n], vs[..n]);
    }
  }

  /** After the writes the row is as long as before, or just long enough for
      the furthest write; every write lands inside it. */
  lemma {:induction false} WriteAllLength(row: Row, idx: seq<int>, vs: seq<string>)
    requires |idx| == |vs|
    ensures var w := WriteAll(row, idx, vs);
            && |w| >= |row|
            && (forall d :: 0 <= d < |idx| && idx[d] >= 0 ==> idx[d] < |w|)
            && (|w| == |row| || exists d :: 0 <= d < |idx| && |w| == idx[d] + 1)
    decreases |idx|
  {
    if |idx| > 0 {
      var n := |idx| - 1;
      var wp := WriteAll(row, idx[..n], vs[..n]);
      WriteAllLength(row, idx[..n], vs[..n]);
      assert forall d :: 0 <= d < n ==> idx[..n][d] == idx[d];
      if |wp| != |row| {
        var d :| 0 <= d < n && |wp| == idx[..n][d] + 1;
        assert |wp| == idx[d] + 1;
      }
    }
  }

  /** A player's row after its page has been read. */
  function EnrichRow(r: Runner, enhanced: seq<string>, row: Row, page: PlayerPage, now: string): Row {
    WriteAll(row, DetailIndices(r, enhanced), DetailValues(r, page, now))
  }

  /** Every detail header is among the enhanced headers, so in both runners
      its index is a real position there: never JavaScript's -1, nor the 0
      that PHP's `false` stands for. */
  lemma DetailIndicesInside(r: Runner, headers: seq<string>)
    ensures var e := EnhancedHeaders(r, headers);
            forall d :: 0 <= d < |DetailHeaders(r)| ==>
              0 <= DetailIndices(r, e)[d] < |e| && e[DetailIndices(r, e)[d]] == DetailHeaders(r)[d]
  {
    var e := EnhancedHeaders(r, headers);
    var h := DetailHeaders(r);
    EnhancedHeadersShape(r, headers);
    forall d | 0 <= d < |h| ensures h[d] in e {
      assert e[|e| - |h|..][d] == h[d];
    }
  }

  /** Whatever the header row, a shaped row is at least as long as the
      enhanced headers and every detail write lands inside it, so enriching
      keeps the row's length. */
  lemma DetailWritesInsideRow(r: Runner, headers: seq<string>, texts: seq<string>, id: string, now: string, page: PlayerPage)
    ensures var e := EnhancedHeaders(r, headers);
            var row := ShapeRow(r, headers, ColumnMapping(headers), texts, id, now);
            && |row| >= |e|
            && (forall d :: 0 <= d < |DetailHeaders(r)| ==> 0 <= DetailIndices(r, e)[d] < |row|)
            && |EnrichRow(r, e, row, page, now)| == |row|
  {
    var e := EnhancedHeaders(r, headers);
    var row := ShapeRow(r, headers, ColumnMapping(headers), texts, id, now);
    ShapedRowCoversHeaders(r, headers, texts, id, now);
    DetailIndicesInside(r, headers);
    WriteAllInside(row, DetailIndices(r, e), DetailValues(r, page, now));
  }

  /** The detail headers are pairwise different. */
  lemma DetailHeadersDistinct(r: Runner)
    ensures forall d, e :: 0 <= d < e < |DetailHeaders(r)| ==> DetailHeaders(r)[d] != DetailHeaders(r)[e]
  {
    var h := DetailHeaders(r);
    assert h[0][0] == 'T' && h[1][0] == 'Q' && h[2][0] == 'A' && h[3][1] == 'o' && h[4][1] == 'e';
    assert h[|h| - 1][0] == 'L';
    assert r != ScriptJs ==> h[5][0] == 'V';
  }

  /** When the enhanced headers end with the detail headers and no earlier
      header repeats one of them, each detail header is found at its own
      position among the last columns. */
  lemma DetailIndicesAtEnd(r: Runner, base: seq<string>)
    requires forall q :: 0 <= q < |base| ==> base[q] !in DetailHeaders(r)
    ensures forall d :: 0 <= d < |DetailHeaders(r)| ==> DetailIndices(r, base + DetailHeaders(r))[d] == |base| + d
  {
    var h := DetailHeaders(r);
    var e := base + h;
    DetailHeadersDistinct(r);
    forall d | 0 <= d < |h| ensures DetailIndex(r, e, h[d]) == |base| + d {
      assert e[|base| + d] == h[d];
      assert forall q :: 0 <= q < |base| + d ==> e[q] != h[d] by {
        forall q | 0 <= q < |base| + d ensures e[q] != h[d] {
          if q >= |base| {
            assert e[q] == h[q - |base|];
          }
        }
      }
      assert FindIndex(e, (x: string) => x == h[d]) == |base| + d;
    }
  }

  /** A row shorter than the headers, as the modular scraper gets when a
      later page's header row keeps fewer columns than the first page's, is
      extended by the detail writes to exactly the width of the headers. */
  lemma ShortRowFilledToHeaders(r: Runner, base: seq<string>, row: Row, page: PlayerPage, now: string)
    requires forall q :: 0 <= q < |base| ==> base[q] !in DetailHeaders(r)
    requires |row| < |base| + |DetailHeaders(r)|
    ensures |EnrichRow(r, base + DetailHeaders(r), row, page, now)| == |base| + |DetailHeaders(r)|
  {
    var h := DetailHeaders(r);
    DetailIndicesAtEnd(r, base);
    WriteAllFillsTo(row, DetailIndices(r, base + h), DetailValues(r, page, now), |base| + |h|);
  }

  /** Writes inside a width, the last at its final position, extend a
      shorter row to exactly that width. */
  lemma WriteAllFillsTo(row: Row, idx: seq<int>, vs: seq<string>, width: nat)
    requires |idx| == |vs| && 0 < |idx| && |row| < width
    requires forall d :: 0 <= d < |idx| ==> idx[d] < width
    requires idx[|idx| - 1] == width - 1
    ensures |WriteAll(row, idx, vs)| == width
  {
    WriteAllLength(row, idx, vs);
  }

  /** Writing to the positions `start, start + 1, ...` of a row long enough
      replaces exactly those cells. */
  lemma {:induction false} WriteAllConsecutive(row: Row, start: nat, idx: seq<int>, vs: seq<string>)
    requires |idx| == |vs| && start + |idx| <= |row|
    requires forall d :: 0 <= d < |idx| ==> idx[d] == start + d
    ensures WriteAll(row, idx, vs) == row[..start] + vs + row[start + |idx|..]
    decreases |idx|
  {
    if |idx| > 0 {
      var n := |idx| - 1;
      WriteAllConsecutive(row, start, idx[..n], vs[..n]);
      assert vs == vs[..n] + [vs[n]];
    } else {
      assert row == row[..start] + row[start..];
    }
  }

  /** Enrichment writes exactly the detail positions: when the enhanced
      headers are `base` followed by the detail headers, no header of `base`
      is a detail header, and the row is as long as the headers, the enriched
      row keeps the first `|base|` cells and holds the detail values after
      them. */
  lemma EnrichRowWritesDetails(r: Runner, base: seq<string>, row: Row, page: PlayerPage, now: string)
    requires forall q :: 0 <= q < |base| ==> base[q] !in DetailHeaders(r)
    requires |row| == |base| + |DetailHeaders(r)|
    ensures EnrichRow(r, base + DetailHeaders(r), row, page, now) == row[..|base|] + DetailValues(r, page, now)
  {
    WriteDetails(r, base, row, DetailValues(r, page, now));
  }

  lemma WriteDetails(r: Runner, base: seq<string>, row: Row, vs: seq<string>)
    requires forall q :: 0 <= q < |base| ==> base[q] !in DetailHeaders(r)
    requires |row| == |base| + |DetailHeaders(r)| && |vs| == |DetailHeaders(r)|
    ensures WriteAll(row, DetailIndices(r, base + DetailHeaders(r)), vs) == row[..|base|] + vs
  {
    DetailIndicesAtEnd(r, base);
    WriteAllConsecutive(row, |base|, DetailIndices(r, base + DetailHeaders(r)), vs);
  }

  /** Whatever the headers, a cell that no detail header is found at is left
      as it was. */
  lemma EnrichRowKeepsOtherCells(r: Runner, enhanced: seq<string>, row: Row, page: PlayerPage, now: string, q: nat)
    requires q < |row|
    requires forall d :: 0 <= d < |DetailHeaders(r)| ==> DetailIndex(r, enhanced, DetailHeaders(r)[d]) != q
    ensures q < |EnrichRow(r, enhanced, row, page, now)| && EnrichRow(r, enhanced, row, page, now)[q] == row[q]
  {
    WriteDetailsKeeps(r, enhanced, row, DetailValues(r, page, now), q);
  }

  lemma WriteDetailsKeeps(r: Runner, enhanced: seq<string>, row: Row, vs: seq<string>, q: nat)
    requires q < |row| && |vs| == |DetailHeaders(r)|
    requires forall d :: 0 <= d < |DetailHeaders(r)| ==> DetailIndex(r, enhanced, DetailHeaders(r)[d]) != q
    ensures var w := WriteAll(row, DetailIndices(r, enhanced), vs); q < |w| && w[q] == row[q]
  {
    WriteAllCells(row, DetailIndices(r, enhanced), vs, q);
  }

  // ---------------------------------------------------------------------------
  // The detail loop

  /** The rows after the loop and the tallies of pages read and pages that
      failed. */
  datatype Report = Report(players: Players, success: nat, errors: nat)

  /** The IDs whose pages are visited: all of them, except that the modular
      scraper in test mode visits only the first. */
  function IdsToProcess(r: Runner, testMode: bool, ids: seq<string>): (todo: seq<string>)
    ensures r == ModularJs && testMode ==> todo == ids[..if |ids| < 1 then |ids| else 1]
    ensures !(r == ModularJs && testMode) ==> todo == ids
    ensures todo <= ids && (|ids| > 0 ==> |todo| > 0)
  {
    if r == ModularJs && testMode then ids[..if |ids| < 1 then |ids| else 1] else ids
  }

  /** Visiting the pages of `ids` in order; `pages` holds the pages that load,
      an ID missing from it is one whose page fails to load. */
  function EnrichAll(r: Runner, enhanced: seq<string>, players: Players, ids: seq<string>,
                     pages: map<string, PlayerPage>, now: string): (rep: Report)
    requires UniqueIds(players)
    ensures UniqueIds(rep.players)
    decreases |ids|
  {
    if |ids| == 0 then Report(players, 0, 0)
    else
      var rep := EnrichAll(r, enhanced, players, ids[..|ids| - 1], pages, now);
      var id := ids[|ids| - 1];
      if id !in pages then Report(rep.players, rep.success, rep.errors + 1)
      else
        var page := pages[id];
        match Get(rep.players, id)
        // The IDs are the map's own keys, so the row is always there; a
        // missing row would throw inside the `try` and count as an error.
        case None => Report(rep.players, rep.success, rep.errors + 1)
        case Some(row) => Report(Put(rep.players, id, EnrichRow(r, enhanced, row, page, now)), rep.success + 1, rep.errors)
  }

  /** The detail phase of a runner. */
  function Enrich(r: Runner, testMode: bool, enhanced: seq<string>, players: Players,
                  pages: map<string, PlayerPage>, now: string): (rep: Report)
    requires UniqueIds(players)
    ensures UniqueIds(rep.players)
  {
    EnrichAll(r, enhanced, players, IdsToProcess(r, testMode, Ids(players)), pages, now)
  }

  /** Every visited ID counts once: as a success or as an error; and a page
      that loads counts as a success when the player is in the map. */
  lemma {:induction false} EnrichAllCounts(r: Runner, enhanced: seq<string>, players: Players, ids: seq<string>,
                                           pages: map<string, PlayerPage>, now: string)
    requires UniqueIds(players)
    ensures var rep := EnrichAll(r, enhanced, players, ids, pages, now);
            rep.success + rep.errors == |ids|
    decreases |ids|
  {
    if |ids| > 0 {
      EnrichAllCounts(r, enhanced, players, ids[..|ids| - 1], pages, now);
    }
  }

  /** One more ID in the loop replaces at most that ID's row in place. */
  lemma EnrichAllStepIds(r: Runner, enhanced: seq<string>, players: Players, ids: seq<string>,
                         pages: map<string, PlayerPage>, now: string)
    requires UniqueIds(players) && |ids| > 0
    ensures Ids(EnrichAll(r, enhanced, players, ids, pages, now).players)
            == Ids(EnrichAll(r, enhanced, players, ids[..|ids| - 1], pages, now).players)
  {
    var n := |ids| - 1;
    var rep := EnrichAll(r, enhanced, players, ids[..n], pages, now);
    var id := ids[n];
    if id in pages && Get(rep.players, id).Some? {
      PutKeepsIds(rep.players, id, EnrichRow(r, enhanced, Get(rep.players, id).value, pages[id], now));
    }
  }

  /** The detail loop changes no ID and no order: every row is replaced in
      place. */
  lemma {:induction false} EnrichAllKeepsIds(r: Runner, enhanced: seq<string>, players: Players, ids: seq<string>,
                                             pages: map<string, PlayerPage>, now: string)
    requires UniqueIds(players)
    ensures Ids(EnrichAll(r, enhanced, players, ids, pages, now).players) == Ids(players)
    decreases |ids|
  {
    if |ids| == 0 {
      assert EnrichAll(r, enhanced, players, ids, pages, now).players == players;
    } else {
      EnrichAllKeepsIds(r, enhanced, players, ids[..|ids| - 1], pages, now);
      EnrichAllStepIds(r, enhanced, players, ids, pages, now);
    }
  }

  /** The row an ID holds after the loop over `ids`. */
  function Expected(r: Runner, enhanced: seq<string>, players: Players, ids: seq<string>,
                    pages: map<string, PlayerPage>, now: string, id: string): Option<Row>
  {
    if id in ids && id in pages && Get(players, id).Some?
    then Some(EnrichRow(r, enhanced, Get(players, id).value, pages[id], now))
    else Get(players, id)
  }

  /** One more ID in the loop: that ID's row is enriched when its page loads,
      every other row is as before. */
  lemma EnrichAllStep(r: Runner, enhanced: seq<string>, players: Players, ids: seq<string>,
                      pages: map<string, PlayerPage>, now: string, id: string)
    requires UniqueIds(players) && |ids| > 0
    ensures var n := |ids| - 1;
            var before := EnrichAll(r, enhanced, players, ids[..n], pages, now).players;
            var after := EnrichAll(r, enhanced, players, ids, pages, now).players;
            var last := ids[n];
            Get(after, id) == if id == last && last in pages && Get(before, last).Some?
                              then Some(EnrichRow(r, enhanced, Get(before, last).value, pages[last], now))
                              else Get(before, id)
  {
    var n := |ids| - 1;
    var before := EnrichAll(r, enhanced, players, ids[..n], pages, now).players;
    var after := EnrichAll(r, enhanced, players, ids, pages, now).players;
    var last := ids[n];
    if last in pages && Get(before, last).Some? {
      var row' := EnrichRow(r, enhanced, Get(before, last).value, pages[last], now);
      assert after == Put(before, last, row');
      PutGet(before, last, row', id);
    } else {
      assert after == before;
    }
  }

  /** After the loop over distinct IDs, a visited ID whose page loads holds
      its enriched row, and every other ID keeps its row. */
  lemma {:induction false} EnrichAllRows(r: Runner, enhanced: seq<string>, players: Players, ids: seq<string>,
                                         pages: map<string, PlayerPage>, now: string, id: string)
    requires UniqueIds(players)
    requires forall i, j :: 0 <= i < j < |ids| ==> ids[i] != ids[j]
    ensures Get(EnrichAll(r, enhanced, players, ids, pages, now).players, id) == Expected(r, enhanced, players, ids, pages, now, id)
    decreases |ids|
  {
    if |ids| > 0 {
      var n := |ids| - 1;
      var prefix := ids[..n];
      var last := ids[n];
      EnrichAllRows(r, enhanced, players, prefix, pages, now, id);
      EnrichAllRows(r, enhanced, players, prefix, pages, now, last);
      EnrichAllStep(r, enhanced, players, ids, pages, now, id);
      assert ids == prefix + [last];
      assert last !in prefix;
      assert id in ids <==> id in prefix || id == last;
    }
  }

  /** The IDs of a map are distinct. */
  lemma IdsDistinct(players: Players)
    requires UniqueIds(players)
    ensures forall i, j :: 0 <= i < j < |Ids(players)| ==> Ids(players)[i] != Ids(players)[j]
  {
  }

  /** The detail phase: every visited player whose page loads gets its
      enriched row, every other row is unchanged, the IDs and their order are
      unchanged, and successes and errors add up to the visited IDs. In test
      mode the modular scraper visits only the first player. */
  lemma EnrichSpec(r: Runner, testMode: bool, enhanced: seq<string>, players: Players,
                   pages: map<string, PlayerPage>, now: string, id: string)
    requires UniqueIds(players)
    ensures var rep := Enrich(r, testMode, enhanced, players, pages, now);
            var todo := IdsToProcess(r, testMode, Ids(players));
            && Ids(rep.players) == Ids(players)
            && rep.success + rep.errors == |todo|
            && (if id in todo && id in pages
                then Has(players, id) && Get(rep.players, id) == Some(EnrichRow(r, enhanced, Get(players, id).value, pages[id], now))
                else Get(rep.players, id) == Get(players, id))
  {
    var todo := IdsToProcess(r, testMode, Ids(players));
    IdsDistinct(players);
    assert forall i, j :: 0 <= i < j < |todo| ==> todo[i] != todo[j];
    EnrichAllCounts(r, enhanced, players, todo, pages, now);
    EnrichAllKeepsIds(r, enhanced, players, todo, pages, now);
    EnrichAllRows(r, enhanced, players, todo, pages, now, id);
    if id in todo {
      var k :| 0 <= k < |todo| && todo[k] == id;
      assert Ids(players)[k] == id;
      assert Has(players, id);
    }
  }
}
