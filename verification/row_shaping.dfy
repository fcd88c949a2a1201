/** Turning a page of search results into player rows. The first table with
    more than five rows is the result list; its first row names the columns.
    Excluded columns are dropped, an ID column is inserted after "Name", and
    placeholder detail columns are appended; every data row with a player
    link is shaped to line up with that header row.

    Three runners do this: the modular JavaScript scraper, the stand-alone
    JavaScript script and the PHP script. They differ in the ID column's
    name, the detail columns, trimming and truthiness. */
module RowShaping {
  import opened Wrappers
  import opened Text
  import opened Navigation
  import opened PlayerMap

  datatype Runner =
    | ModularJs  // the scraper built from services
    | ScriptJs   // the stand-alone JavaScript script
    | ScriptPhp  // the PHP script

  function RuntimeOf(r: Runner): Runtime {
    if r == ScriptPhp then Php else Js
  }

  const ExcludeColumns: seq<string> := ["Wage", "Ask. Price", "Deadline", ""]

  /** The inserted ID column. */
  function IdHeader(r: Runner): string {
    if r == ScriptJs then "Name_PlayerID" else "PlayerID"
  }

  /** The detail columns appended after the scraped ones; the stand-alone
      JavaScript script has no "Value" column. */
  function DetailHeaders(r: Runner): (d: seq<string>)
    ensures |d| >= 1 && d[|d| - 1] == "Last Updated"
  {
    if r == ScriptJs then ["Team", "Quality", "Affected Quality", "Potential", "Penalties", "Last Updated"]
    else ["Team", "Quality", "Affected Quality", "Potential", "Penalties", "Value", "Last Updated"]
  }

  // ---------------------------------------------------------------------------
  // The header row

  /** The kept column indices below `n`, in increasing order. */
  function ColumnMappingUpTo(headers: seq<string>, n: nat): (m: seq<nat>)
    requires n <= |headers|
    ensures forall k :: 0 <= k < |m| ==> m[k] < n && headers[m[k]] !in ExcludeColumns
    ensures forall k, l :: 0 <= k < l < |m| ==> m[k] < m[l]
    ensures forall j :: 0 <= j < n && headers[j] !in ExcludeColumns ==> j in m
  {
    if n == 0 then []
    else ColumnMappingUpTo(headers, n - 1) + (if headers[n - 1] in ExcludeColumns then [] else [n - 1])
  }

  /** `columnMapping`: the strictly increasing list of the indices of the
      columns that are not excluded. */
  function ColumnMapping(headers: seq<string>): (m: seq<nat>)
    ensures forall k :: 0 <= k < |m| ==> m[k] < |headers| && headers[m[k]] !in ExcludeColumns
    ensures forall k, l :: 0 <= k < l < |m| ==> m[k] < m[l]
    ensures forall j :: 0 <= j < |headers| && headers[j] !in ExcludeColumns ==> j in m
  {
    ColumnMappingUpTo(headers, |headers|)
  }

  predicate ValidMapping(headers: seq<string>, m: seq<nat>) {
    forall k :: 0 <= k < |m| ==> m[k] < |headers|
  }

  /** The headers of the kept columns, in their original order. */
  function Kept(headers: seq<string>, m: seq<nat>): (kept: seq<string>)
    requires ValidMapping(headers, m)
    ensures |kept| == |m| && forall k :: 0 <= k < |m| ==> kept[k] == headers[m[k]]
  {
    seq(|m|, k requires 0 <= k < |m| => headers[m[k]])
  }

  /** `xs.splice(at, 0, x)`. */
  function InsertAt(xs: seq<string>, at: nat, x: string): (r: seq<string>)
    requires at <= |xs|
    ensures |r| == |xs| + 1 && r[at] == x
    ensures forall k :: 0 <= k < at ==> r[k] == xs[k]
    ensures forall k :: at <= k < |xs| ==> r[k + 1] == xs[k]
  {
    xs[..at] + [x] + xs[at..]
  }

  /** Where the ID column goes: after the first "Name" among the kept
      headers. Were "Name" missing there, JavaScript's `indexOf` would give -1
      (so position 0) and PHP's `array_search` false (so position 1). */
  function IdPosition(r: Runner, kept: seq<string>): (at: nat)
    ensures at <= |kept|
  {
    var i := NameIndex(kept);
    if i >= 0 then i + 1
    else if r == ScriptPhp && |kept| >= 1 then 1
    else 0
  }

  /** The position of the first "Name" among the kept headers, or -1. */
  function NameIndex(kept: seq<string>): (i: int)
    ensures -1 <= i < |kept|
    ensures i >= 0 ==> kept[i] == "Name" && forall j :: 0 <= j < i ==> kept[j] != "Name"
    ensures i == -1 <==> "Name" !in kept
  {
    FindIndex(kept, (h: string) => h == "Name")
  }

  /** `enhancedHeaders`: the kept headers, the ID column after "Name" when the
      header row has a "Name" column, then the detail columns. */
  function EnhancedHeaders(r: Runner, headers: seq<string>): seq<string> {
    var kept := Kept(headers, ColumnMapping(headers));
    var withId := if "Name" in headers then InsertAt(kept, IdPosition(r, kept), IdHeader(r)) else kept;
    withId + DetailHeaders(r)
  }

  /** The enhanced headers are the kept headers with the ID column right
      after the first "Name", followed by the detail columns; without a
      "Name" column no ID column is inserted. */
  lemma EnhancedHeadersShape(r: Runner, headers: seq<string>)
    ensures var kept := Kept(headers, ColumnMapping(headers));
            var e := EnhancedHeaders(r, headers);
            && e[|e| - |DetailHeaders(r)|..] == DetailHeaders(r)
            && ("Name" !in headers ==> e[..|e| - |DetailHeaders(r)|] == kept)
            && ("Name" in headers ==>
                  var p := NameIndex(kept);
                  && 0 <= p < |kept| && kept[p] == "Name"
                  && (forall q :: 0 <= q < p ==> kept[q] != "Name")
                  && e[..|e| - |DetailHeaders(r)|] == kept[..p + 1] + [IdHeader(r)] + kept[p + 1..])
  {
    var kept := Kept(headers, ColumnMapping(headers));
    var named := "Name" in headers;
    if named {
      NameIsKept(headers);
    }
    assert EnhancedHeaders(r, headers) == (if named then InsertAt(kept, IdPosition(r, kept), IdHeader(r)) else kept) + DetailHeaders(r);
    HeaderShape(r, named, kept, EnhancedHeaders(r, headers));
  }

  /** The shape of the enhanced headers built from any list of kept headers. */
  lemma HeaderShape(r: Runner, named: bool, kept: seq<string>, e: seq<string>)
    requires named ==> "Name" in kept
    requires e == (if named then InsertAt(kept, IdPosition(r, kept), IdHeader(r)) else kept) + DetailHeaders(r)
    ensures e[|e| - |DetailHeaders(r)|..] == DetailHeaders(r)
    ensures !named ==> e[..|e| - |DetailHeaders(r)|] == kept
    ensures named ==> var p := NameIndex(kept);
                      && 0 <= p < |kept| && kept[p] == "Name"
                      && (forall q :: 0 <= q < p ==> kept[q] != "Name")
                      && e[..|e| - |DetailHeaders(r)|] == kept[..p + 1] + [IdHeader(r)] + kept[p + 1..]
  {
    var withId := if named then InsertAt(kept, IdPosition(r, kept), IdHeader(r)) else kept;
    AppendParts(withId, DetailHeaders(r));
    if named {
      var p := NameIndex(kept);
      assert withId == kept[..p + 1] + [IdHeader(r)] + kept[p + 1..];
    }
  }

  /** The two parts of a concatenation are its slices. */
  lemma AppendParts(a: seq<string>, b: seq<string>)
    ensures (a + b)[..|a|] == a && (a + b)[|a|..] == b
    ensures |a + b| - |b| == |a|
  {
  }

  /** "Name" is not excluded, so a "Name" column is always kept. */
  lemma NameIsKept(headers: seq<string>)
    requires "Name" in headers
    ensures "Name" in Kept(headers, ColumnMapping(headers))
  {
    var j :| 0 <= j < |headers| && headers[j] == "Name";
    var m := ColumnMapping(headers);
    assert j in m;
    var k :| 0 <= k < |m| && m[k] == j;
    assert Kept(headers, m)[k] == "Name";
  }

  // ---------------------------------------------------------------------------
  // Data rows

  /** One `th` or `td` of a table row: its text, whether it is a `th`, and
      the `href` of its player link (an anchor whose `href` contains
      "ver_jogador.asp?jog_id="), if any. */
  datatype Cell = Cell(text: string, isTh: bool, link: Option<string>)

  type Tr = seq<Cell>
  type Table = seq<Tr>

  /** The `td` cells of a row, in order. */
  function DataCells(tr: Tr): (tds: seq<Cell>)
    ensures |tds| <= |tr| && forall k :: 0 <= k < |tds| ==> !tds[k].isTh
    decreases |tr|
  {
    if |tr| == 0 then []
    else DataCells(tr[..|tr| - 1]) + (if tr[|tr| - 1].isTh then [] else [tr[|tr| - 1]])
  }

  /** The player ID of a row: every cell whose link matches `/jog_id=(\d+)/`
      overwrites it, so the last such cell wins. */
  function RowPlayerId(tds: seq<Cell>): (id: Option<string>)
    ensures id.Some? ==> exists k :: 0 <= k < |tds| && LinkId(tds[k]) == id
                                     && forall j :: k < j < |tds| ==> LinkId(tds[j]).None?
    ensures id.None? ==> forall k :: 0 <= k < |tds| ==> LinkId(tds[k]).None?
    decreases |tds|
  {
    if |tds| == 0 then None
    else
      var last := tds[|tds| - 1];
      match LinkId(last)
      case Some(v) => Some(v)
      case None =>
        var id := RowPlayerId(tds[..|tds| - 1]);
        RowIdExtends(tds, id);
        id
  }

  /** A last cell without a player link leaves the row's ID as the other
      cells give it. */
  lemma RowIdExtends(tds: seq<Cell>, id: Option<string>)
    requires |tds| > 0 && LinkId(tds[|tds| - 1]).None?
    requires var p := tds[..|tds| - 1];
             && (id.Some? ==> exists k :: 0 <= k < |p| && LinkId(p[k]) == id
                                          && forall j :: k < j < |p| ==> LinkId(p[j]).None?)
             && (id.None? ==> forall k :: 0 <= k < |p| ==> LinkId(p[k]).None?)
    ensures id.Some? ==> exists k :: 0 <= k < |tds| && LinkId(tds[k]) == id
                                     && forall j :: k < j < |tds| ==> LinkId(tds[j]).None?
    ensures id.None? ==> forall k :: 0 <= k < |tds| ==> LinkId(tds[k]).None?
  {
    var p := tds[..|tds| - 1];
    if id.Some? {
      var k :| 0 <= k < |p| && LinkId(p[k]) == id && forall j :: k < j < |p| ==> LinkId(p[j]).None?;
      NoLinkAfter(tds, p, k);
      assert tds[k] == p[k];
    } else {
      NoLinkAfter(tds, p, -1);
    }
  }

  /** The cells after `k` carry no player link in `tds` when they carry none in
      its prefix `p` and the last cell carries none. */
  lemma NoLinkAfter(tds: seq<Cell>, p: seq<Cell>, k: int)
    requires |tds| > 0 && p == tds[..|tds| - 1] && LinkId(tds[|tds| - 1]).None?
    requires forall j :: k < j < |p| && 0 <= j ==> LinkId(p[j]).None?
    ensures forall j :: k < j < |tds| && 0 <= j ==> LinkId(tds[j]).None?
  {
    forall j | k < j < |tds| && 0 <= j ensures LinkId(tds[j]).None? {
      if j < |p| {
        assert tds[j] == p[j];
      }
    }
  }

  /** The ID a single cell's link yields. */
  function LinkId(c: Cell): Option<string> {
    match c.link
    case None => None
    case Some(href) => MatchPlayerId(href)
  }

  /** The text of a cell as stored: trimmed by the runtime's `trim`. */
  function CellText(r: Runner, c: Cell): string {
    Trim(RuntimeOf(r), c.text)
  }

  function CellTexts(r: Runner, tds: seq<Cell>): (texts: seq<string>)
    ensures |texts| == |tds| && forall k :: 0 <= k < |tds| ==> texts[k] == CellText(r, tds[k])
  {
    seq(|tds|, k requires 0 <= k < |tds| => CellText(r, tds[k]))
  }

  /** The text of cell `i`. A cell the row does not have reads as
      `undefined` in JavaScript and `null` in PHP; the model gives it the
      empty text, which is how such a cell shows in the written sheet. */
  function TextAt(texts: seq<string>, i: nat): string {
    if i < |texts| then texts[i] else ""
  }

  /** The mapped cells: each kept column's text, and the ID right after every
      column whose header is "Name". */
  function MappedCells(headers: seq<string>, m: seq<nat>, texts: seq<string>, id: string): seq<string>
    requires ValidMapping(headers, m)
    decreases |m|
  {
    if |m| == 0 then []
    else
      var j := m[|m| - 1];
      MappedCells(headers, m[..|m| - 1], texts, id) + [TextAt(texts, j)] + (if headers[j] == "Name" then [id] else [])
  }

  /** The placeholder detail cells: empty strings and the timestamp last. */
  function Placeholders(r: Runner, now: string): (p: seq<string>)
    ensures |p| == |DetailHeaders(r)| && p[|p| - 1] == now
    ensures forall k :: 0 <= k < |p| - 1 ==> p[k] == ""
  {
    seq(|DetailHeaders(r)| - 1, _ => "") + [now]
  }

  /** A shaped row: the mapped cells followed by the placeholders. */
  function ShapeRow(r: Runner, headers: seq<string>, m: seq<nat>, texts: seq<string>, id: string, now: string): seq<string>
    requires ValidMapping(headers, m)
  {
    MappedCells(headers, m, texts, id) + Placeholders(r, now)
  }

  /** One row of the result table, or None when it is skipped: a row without
      `td` cells, without a player link, or (PHP) whose ID is falsy. */
  function ExtractRow(r: Runner, headers: seq<string>, m: seq<nat>, tr: Tr, now: string): (e: Option<Entry>)
    requires ValidMapping(headers, m)
    ensures e.Some? <==> |DataCells(tr)| > 0 && RowPlayerId(DataCells(tr)).Some?
                         && Truthy(RuntimeOf(r), RowPlayerId(DataCells(tr)).value)
    ensures e.Some? ==> e.value.id == RowPlayerId(DataCells(tr)).value
                        && e.value.row == ShapeRow(r, headers, m, CellTexts(r, DataCells(tr)), e.value.id, now)
  {
    var tds := DataCells(tr);
    if |tds| == 0 then None
    else
      match RowPlayerId(tds)
      case None => None
      case Some(id) =>
        if Truthy(RuntimeOf(r), id) then Some(Entry(id, ShapeRow(r, headers, m, CellTexts(r, tds), id, now)))
        else None
  }

  /** The extracted rows of a table's data rows, in order. */
  function ExtractRows(r: Runner, headers: seq<string>, m: seq<nat>, trs: seq<Tr>, now: string): (es: seq<Entry>)
    requires ValidMapping(headers, m)
    ensures |es| <= |trs|
    decreases |trs|
  {
    if |trs| == 0 then []
    else
      var e := ExtractRow(r, headers, m, trs[|trs| - 1], now);
      ExtractRows(r, headers, m, trs[..|trs| - 1], now) + (if e.Some? then [e.value] else [])
  }

  /** The column layout derived from a header row. */
  datatype Layout = Layout(headers: seq<string>, mapping: seq<nat>, enhanced: seq<string>)

  predicate ValidLayout(l: Layout) {
    ValidMapping(l.headers, l.mapping)
  }

  /** The header texts of a row (`th` and `td`): JavaScript keeps the text
      as it is, PHP trims it. */
  function HeaderTexts(r: Runner, tr: Tr): (hs: seq<string>)
    ensures |hs| == |tr|
  {
    seq(|tr|, k requires 0 <= k < |tr| => if r == ScriptPhp then Trim(Php, tr[k].text) else tr[k].text)
  }

  function MakeLayout(r: Runner, headers: seq<string>): (l: Layout)
    ensures ValidLayout(l) && l.headers == headers
  {
    Layout(headers, ColumnMapping(headers), EnhancedHeaders(r, headers))
  }

  /** One result page: the first table with more than five rows is read
      (its header row is used unless a layout is already known) and the rest
      of the page is ignored; without such a table the page yields nothing. */
  function ScrapePage(r: Runner, known: Option<Layout>, tables: seq<Table>, now: string): (res: (Option<Layout>, seq<Entry>))
    requires known.Some? ==> ValidLayout(known.value)
    ensures res.0.Some? ==> ValidLayout(res.0.value)
    ensures known.Some? ==> res.0 == known
    ensures FindIndex(tables, (t: Table) => |t| > 5) == -1 ==> res == (known, [])
  {
    var ti := FindIndex(tables, (t: Table) => |t| > 5);
    if ti == -1 then (known, [])
    else
      var t := tables[ti];
      var l := if known.Some? then known.value else MakeLayout(r, HeaderTexts(r, t[0]));
      (Some(l), ExtractRows(r, l.headers, l.mapping, t[1..], now))
  }

  // ---------------------------------------------------------------------------
  // Alignment of a shaped row with the header row

  /** Where kept column `k` lands once the ID column follows kept column
      `k0`. */
  function Pos(k: nat, k0: nat): nat {
    if k <= k0 then k else k + 1
  }

  /** With a single "Name" column among the mapped ones (at `k0`, which may
      lie beyond `m` while the prefix is being built), the mapped cells hold
      each column's text at its shifted position and the ID right after
      "Name". */
  lemma {:induction false} MappedCellsAt(headers: seq<string>, m: seq<nat>, texts: seq<string>, id: string, k0: nat)
    requires ValidMapping(headers, m)
    requires forall k :: 0 <= k < |m| ==> (headers[m[k]] == "Name" <==> k == k0)
    ensures var c := MappedCells(headers, m, texts, id);
            && |c| == |m| + (if k0 < |m| then 1 else 0)
            && (forall k :: 0 <= k < |m| ==> c[Pos(k, k0)] == TextAt(texts, m[k]))
            && (k0 < |m| ==> c[k0 + 1] == id)
    decreases |m|
  {
    if |m| > 0 {
      var n := |m| - 1;
      var prefix := m[..n];
      MappedCellsAt(headers, prefix, texts, id, k0);
      var c := MappedCells(headers, m, texts, id);
      var cp := MappedCells(headers, prefix, texts, id);
      assert c == cp + [TextAt(texts, m[n])] + (if headers[m[n]] == "Name" then [id] else []);
      forall k | 0 <= k < |m| ensures c[Pos(k, k0)] == TextAt(texts, m[k]) {
        if k < n {
          assert prefix[k] == m[k];
          assert c[Pos(k, k0)] == cp[Pos(k, k0)];
        }
      }
    }
  }

  /** The mapped cells hold a cell for every kept column, and one more when
      some kept column is "Name". */
  lemma {:induction false} MappedCellsLength(headers: seq<string>, m: seq<nat>, texts: seq<string>, id: string)
    requires ValidMapping(headers, m)
    ensures var c := MappedCells(headers, m, texts, id);
            && |c| >= |m|
            && ((exists k :: 0 <= k < |m| && headers[m[k]] == "Name") ==> |c| >= |m| + 1)
    decreases |m|
  {
    if |m| > 0 {
      var n := |m| - 1;
      MappedCellsLength(headers, m[..n], texts, id);
      if headers[m[n]] != "Name" && exists k :: 0 <= k < |m| && headers[m[k]] == "Name" {
        var k :| 0 <= k < |m| && headers[m[k]] == "Name";
        assert m[..n][k] == m[k];
      }
    }
  }

  /** Whatever the header row, a shaped row is at least as long as the
      enhanced headers: a cell per kept column, one more after each kept
      "Name" where the headers get a single ID column, and one cell per
      detail header. */
  lemma ShapedRowCoversHeaders(r: Runner, headers: seq<string>, texts: seq<string>, id: string, now: string)
    ensures |ShapeRow(r, headers, ColumnMapping(headers), texts, id, now)| >= |EnhancedHeaders(r, headers)|
  {
    var m := ColumnMapping(headers);
    var kept := Kept(headers, m);
    MappedCellsLength(headers, m, texts, id);
    if "Name" in headers {
      NameIsKept(headers);
      var k :| 0 <= k < |kept| && kept[k] == "Name";
      assert headers[m[k]] == "Name";
    }
  }

  /** A single "Name" among the kept columns, at kept column `k0`. */
  predicate OneNameAt(headers: seq<string>, k0: nat) {
    var m := ColumnMapping(headers);
    k0 < |m| && forall k :: 0 <= k < |m| ==> (headers[m[k]] == "Name" <==> k == k0)
  }

  lemma OneNameInHeaders(headers: seq<string>, k0: nat)
    requires OneNameAt(headers, k0)
    ensures "Name" in headers
  {
    var m := ColumnMapping(headers);
    assert headers[m[k0]] == "Name";
  }

  lemma OneNameIdPosition(r: Runner, headers: seq<string>, k0: nat)
    requires OneNameAt(headers, k0)
    ensures IdPosition(r, Kept(headers, ColumnMapping(headers))) == k0 + 1
  {
    var m := ColumnMapping(headers);
    var kept := Kept(headers, m);
    assert kept[k0] == "Name";
  }

  /** With a single kept "Name" column at `k0`, the ID column goes right
      after it and the enhanced headers are that row plus the details. */
  lemma EnhancedHeadersOneName(r: Runner, headers: seq<string>, k0: nat)
    requires OneNameAt(headers, k0)
    ensures var kept := Kept(headers, ColumnMapping(headers));
            EnhancedHeaders(r, headers) == InsertAt(kept, k0 + 1, IdHeader(r)) + DetailHeaders(r)
  {
    OneNameInHeaders(headers, k0);
    OneNameIdPosition(r, headers, k0);
  }

  /** Inserting after kept column `k0` shifts the later columns by one. */
  lemma InsertAfterAt(kept: seq<string>, k0: nat, x: string)
    requires k0 < |kept|
    ensures forall k :: 0 <= k < |kept| ==> InsertAt(kept, k0 + 1, x)[Pos(k, k0)] == kept[k]
  {
  }

  /** The enhanced headers with a single kept "Name" column at `k0`: each
      kept header at its shifted position, the ID column after "Name", the
      detail columns last. */
  lemma {:induction false} HeadersAt(r: Runner, headers: seq<string>, k0: nat)
    requires OneNameAt(headers, k0)
    ensures var m := ColumnMapping(headers);
            var e := EnhancedHeaders(r, headers);
            && |e| == |m| + 1 + |DetailHeaders(r)|
            && e[k0 + 1] == IdHeader(r)
            && (forall k :: 0 <= k < |m| ==> e[Pos(k, k0)] == headers[m[k]])
            && e[|m| + 1..] == DetailHeaders(r)
  {
    var m := ColumnMapping(headers);
    var kept := Kept(headers, m);
    var withId := InsertAt(kept, k0 + 1, IdHeader(r));
    EnhancedHeadersOneName(r, headers, k0);
    InsertAfterAt(kept, k0, IdHeader(r));
    assert |withId| == |m| + 1;
  }

  /** A shaped row with a single "Name" column at `k0`: each kept cell at its
      shifted position, the ID after "Name", the placeholders last. */
  lemma {:induction false} CellsAt(r: Runner, headers: seq<string>, m: seq<nat>, texts: seq<string>, id: string, now: string, k0: nat)
    requires ValidMapping(headers, m)
    requires k0 < |m| && forall k :: 0 <= k < |m| ==> (headers[m[k]] == "Name" <==> k == k0)
    ensures var row := ShapeRow(r, headers, m, texts, id, now);
            && |row| == |m| + 1 + |DetailHeaders(r)|
            && row[k0 + 1] == id
            && (forall k :: 0 <= k < |m| ==> row[Pos(k, k0)] == TextAt(texts, m[k]))
            && row[|m| + 1..] == Placeholders(r, now)
  {
    MappedCellsAt(headers, m, texts, id, k0);
  }

  /** With exactly one "Name" column among the kept ones (kept column
      `k0`), a shaped row lines up with the enhanced headers: same length, the
      ID under the ID column, each kept cell under its own header, and the
      placeholders under the detail columns with the timestamp last. */
  lemma RowAlignsWithHeaders(r: Runner, headers: seq<string>, texts: seq<string>, id: string, now: string, k0: nat)
    requires OneNameAt(headers, k0)
    ensures var m := ColumnMapping(headers);
            var e := EnhancedHeaders(r, headers);
            var row := ShapeRow(r, headers, m, texts, id, now);
            && |row| == |e|
            && e[k0 + 1] == IdHeader(r) && row[k0 + 1] == id
            && (forall k :: 0 <= k < |m| ==> e[Pos(k, k0)] == headers[m[k]] && row[Pos(k, k0)] == TextAt(texts, m[k]))
            && e[|m| + 1..] == DetailHeaders(r)
            && row[|row| - 1] == now
            && (forall q :: |m| + 1 <= q < |row| - 1 ==> row[q] == "")
  {
    var m := ColumnMapping(headers);
    HeadersAt(r, headers, k0);
    CellsAt(r, headers, m, texts, id, now, k0);
    var row := ShapeRow(r, headers, m, texts, id, now);
    var p := Placeholders(r, now);
    forall q | |m| + 1 <= q < |row| - 1 ensures row[q] == "" {
      assert row[q] == p[q - |m| - 1];
    }
  }

  lemma NameAgeKept()
    ensures "Name" !in ExcludeColumns && "Age" !in ExcludeColumns
  {
    assert "Name"[0] == 'N' && "Age"[0] == 'A';
  }

  lemma MappingExample()
    ensures ColumnMapping(["Name", "Age", "Wage"]) == [0, 1]
  {
    var h := ["Name", "Age", "Wage"];
    NameAgeKept();
    assert h[2] == ExcludeColumns[0];
    MappingDropsThird(h);
  }

  lemma MappingDropsThird(h: seq<string>)
    requires |h| == 3 && h[0] !in ExcludeColumns && h[1] !in ExcludeColumns && h[2] in ExcludeColumns
    ensures ColumnMapping(h) == [0, 1]
  {
    MappingUpToStep(h, 1);
    MappingUpToStep(h, 2);
    MappingUpToStep(h, 3);
  }

  /** One column more: kept or dropped according to its header. */
  lemma MappingUpToStep(headers: seq<string>, n: nat)
    requires 0 < n <= |headers|
    ensures headers[n - 1] !in ExcludeColumns ==> ColumnMappingUpTo(headers, n) == ColumnMappingUpTo(headers, n - 1) + [n - 1]
    ensures headers[n - 1] in ExcludeColumns ==> ColumnMappingUpTo(headers, n) == ColumnMappingUpTo(headers, n - 1)
  {
  }

  /** A worked header row: the wage column is dropped and the ID column
      follows "Name". */
  lemma HeaderExample()
    ensures EnhancedHeaders(ModularJs, ["Name", "Age", "Wage"]) == ["Name", "PlayerID", "Age"] + DetailHeaders(ModularJs)
    ensures EnhancedHeaders(ScriptJs, ["Name", "Age", "Wage"]) == ["Name", "Name_PlayerID", "Age"] + DetailHeaders(ScriptJs)
  {
    var h := ["Name", "Age", "Wage"];
    NameAgeKept();
    assert h[1][0] != h[0][0];
    assert h[2] == ExcludeColumns[0];
    HeadersOfThree(ModularJs, h);
    HeadersOfThree(ScriptJs, h);
  }

  /** A "Name" column, another kept column and an excluded one. */
  lemma HeadersOfThree(r: Runner, h: seq<string>)
    requires |h| == 3 && h[0] == "Name" && h[1] != "Name"
    requires h[1] !in ExcludeColumns && h[2] in ExcludeColumns
    ensures EnhancedHeaders(r, h) == [h[0], IdHeader(r), h[1]] + DetailHeaders(r)
  {
    NameAgeKept();
    MappingDropsThird(h);
    var kept := Kept(h, [0, 1]);
    assert kept == [h[0], h[1]];
    assert NameIndex(kept) == 0;
    assert InsertAt(kept, 1, IdHeader(r)) == [h[0], IdHeader(r), h[1]];
  }

  // ---------------------------------------------------------------------------
  // The page loop

  /** How many result pages a runner reads: the modular scraper one in test
      mode and all otherwise, the JavaScript script all, the PHP script one. */
  function PagesToScrape(r: Runner, testMode: bool, totalPages: nat): (n: nat)
    ensures n <= 1 || n == totalPages
    ensures r == ScriptJs || (r == ModularJs && !testMode) ==> n == totalPages
    ensures r == ScriptPhp || (r == ModularJs && testMode) ==> n == 1
  {
    match r
    case ModularJs => if testMode then 1 else totalPages
    case ScriptJs => totalPages
    case ScriptPhp => 1
  }

  /** The layout in force before page `n + 1` is read, and the entries read
      from pages `1..n` of `page` (page contents by page number). The modular
      scraper derives the layout again on every page and keeps the first one
      as its result; the scripts derive it once and reuse it. */
  function ScrapedSoFar(r: Runner, page: nat -> seq<Table>, now: string, n: nat): (res: (Option<Layout>, seq<Entry>))
    ensures res.0.Some? ==> ValidLayout(res.0.value)
    decreases n
  {
    if n == 0 then (None, [])
    else
      var (layout, entries) := ScrapedSoFar(r, page, now, n - 1);
      var (l, es) := PageEntries(r, layout, page(n), now);
      (if layout.Some? then layout else l, entries + es)
  }

  /** The entries one page contributes, given the layout known so far. */
  function PageEntries(r: Runner, layout: Option<Layout>, tables: seq<Table>, now: string): (res: (Option<Layout>, seq<Entry>))
    requires layout.Some? ==> ValidLayout(layout.value)
    ensures res.0.Some? ==> ValidLayout(res.0.value)
  {
    ScrapePage(r, if r == ModularJs then None else layout, tables, now)
  }

  /** The page loop: every page's entries are set into the player map in
      order. The modular scraper first collects a page into a map of its own
      and then copies that map over. */
  function ScrapePages(r: Runner, page: nat -> seq<Table>, now: string, n: nat): (res: (Option<Layout>, Players))
    ensures UniqueIds(res.1)
    decreases n
  {
    if n == 0 then (None, [])
    else
      var (layout, players) := ScrapePages(r, page, now, n - 1);
      var known := ScrapedSoFar(r, page, now, n - 1).0;
      var (l, es) := PageEntries(r, known, page(n), now);
      var batch := if r == ModularJs then PutAll([], es) else es;
      (if layout.Some? then layout else l, PutAll(players, batch))
  }

  /** The player list read from pages `1..PagesToScrape`. */
  function ScrapePlayerList(r: Runner, testMode: bool, totalPages: nat, page: nat -> seq<Table>, now: string): (res: (Option<Layout>, Players))
    ensures UniqueIds(res.1)
  {
    ScrapePages(r, page, now, PagesToScrape(r, testMode, totalPages))
  }

  /** Both loops keep the first layout found. */
  lemma {:induction false} ScrapePagesLayout(r: Runner, page: nat -> seq<Table>, now: string, n: nat)
    ensures ScrapePages(r, page, now, n).0 == ScrapedSoFar(r, page, now, n).0
    decreases n
  {
    if n > 0 {
      ScrapePagesLayout(r, page, now, n - 1);
    }
  }

  /** One more page sets that page's entries into the player map (through a
      map of its own in the modular scraper). */
  lemma ScrapePagesStep(r: Runner, page: nat -> seq<Table>, now: string, n: nat)
    requires n > 0
    ensures var known := ScrapedSoFar(r, page, now, n - 1).0;
            var es := PageEntries(r, known, page(n), now).1;
            var players := ScrapePages(r, page, now, n - 1).1;
            && ScrapePages(r, page, now, n).1 == PutAll(players, if r == ModularJs then PutAll([], es) else es)
            && ScrapedSoFar(r, page, now, n).1 == ScrapedSoFar(r, page, now, n - 1).1 + es
  {
  }

  /** Before any page is read there are no players and no layout. */
  lemma NoPagesNoPlayers(r: Runner, page: nat -> seq<Table>, now: string, id: string)
    ensures ScrapePages(r, page, now, 0) == (None, [])
    ensures ScrapedSoFar(r, page, now, 0) == (None, [])
    ensures Get(ScrapePages(r, page, now, 0).1, id) == Get(PutAll([], ScrapedSoFar(r, page, now, 0).1), id)
  {
    assert PutAll([], []) == [];
  }

  /** If the player map agrees with setting all entries so far, it still
      does after one more page. */
  lemma ScrapePagesAgreeStep(r: Runner, page: nat -> seq<Table>, now: string, n: nat, id: string)
    requires n > 0
    requires Get(ScrapePages(r, page, now, n - 1).1, id) == Get(PutAll([], ScrapedSoFar(r, page, now, n - 1).1), id)
    ensures Get(ScrapePages(r, page, now, n).1, id) == Get(PutAll([], ScrapedSoFar(r, page, now, n).1), id)
  {
    ScrapePagesStep(r, page, now, n);
    var players := ScrapePages(r, page, now, n - 1).1;
    var known := ScrapedSoFar(r, page, now, n - 1).0;
    var entries := ScrapedSoFar(r, page, now, n - 1).1;
    var es := PageEntries(r, known, page(n), now).1;
    assert Get(ScrapePages(r, page, now, n).1, id) == Get(PutAll(players, es), id) by {
      if r == ModularJs {
        CopyAgrees(players, es, id);
      }
    }
    PutAllAgrees(players, PutAll([], entries), es, id);
    assert Get(PutAll(players, es), id) == Get(PutAll(PutAll([], entries), es), id);
    PutAllAppend([], entries, es);
    assert ScrapedSoFar(r, page, now, n).1 == entries + es;
  }

  /** Whatever the runner, after `n` pages every player ID holds the row of
      its last scraped entry, exactly as if all entries of all pages had been
      set in page order. */
  lemma {:induction false} ScrapePagesLastWins(r: Runner, page: nat -> seq<Table>, now: string, n: nat, id: string)
    ensures Get(ScrapePages(r, page, now, n).1, id) == Get(PutAll([], ScrapedSoFar(r, page, now, n).1), id)
    decreases n, 1
  {
    if n > 0 {
      ScrapePagesLastWinsStep(r, page, now, n, id);
    } else {
      NoPagesNoPlayers(r, page, now, id);
    }
  }

  /** `ScrapePagesLastWins` for `n > 0`, from the claim for `n - 1`. */
  lemma ScrapePagesLastWinsStep(r: Runner, page: nat -> seq<Table>, now: string, n: nat, id: string)
    requires n > 0
    ensures Get(ScrapePages(r, page, now, n).1, id) == Get(PutAll([], ScrapedSoFar(r, page, now, n).1), id)
    decreases n, 0
  {
    ScrapePagesLastWins(r, page, now, n - 1, id);
    ScrapePagesAgreeStep(r, page, now, n, id);
  }

  // ---------------------------------------------------------------------------
  // The upload key column

  /** A header the runner takes for the key column: exactly "PlayerID", or
      (the JavaScript script) any header containing "_PlayerID". */
  predicate IsIdHeader(r: Runner, h: string) {
    if r == ScriptJs then Contains(h, "_PlayerID") else h == "PlayerID"
  }

  /** The index of the key column passed to the upsert: the first ID header,
      -1 in JavaScript when there is none, and 0 in PHP, where the `false`
      of a failed `array_search` is used as an array index. */
  function KeyIndex(r: Runner, enhanced: seq<string>): (i: int)
    ensures i == -1 <==> r != ScriptPhp && forall q :: 0 <= q < |enhanced| ==> !IsIdHeader(r, enhanced[q])
    ensures 0 <= i < |enhanced| && IsIdHeader(r, enhanced[i]) ==> forall q :: 0 <= q < i ==> !IsIdHeader(r, enhanced[q])
    ensures r == ScriptPhp && (forall q :: 0 <= q < |enhanced| ==> !IsIdHeader(r, enhanced[q])) ==> i == 0
  {
    var i := FindIndex(enhanced, (h: string) => IsIdHeader(r, h));
    if i == -1 && r == ScriptPhp then 0 else i
  }

  /** The inserted ID column is an ID header for its own runner. */
  lemma IdHeaderIsIdHeader(r: Runner)
    ensures IsIdHeader(r, IdHeader(r))
  {
    if r == ScriptJs {
      assert OccursAt("Name_PlayerID", "_PlayerID", 4);
    }
  }

  /** The key index is the first ID header. */
  lemma KeyIndexAt(r: Runner, e: seq<string>, p: nat)
    requires p < |e| && IsIdHeader(r, e[p])
    requires forall q :: 0 <= q < p ==> !IsIdHeader(r, e[q])
    ensures KeyIndex(r, e) == p
  {
    assert FindIndex(e, (h: string) => IsIdHeader(r, h)) == p;
  }

  lemma KeyIsIdColumn(r: Runner, headers: seq<string>, k0: nat)
    requires OneNameAt(headers, k0)
    requires forall k :: 0 <= k <= k0 ==> !IsIdHeader(r, headers[ColumnMapping(headers)[k]])
    ensures KeyIndex(r, EnhancedHeaders(r, headers)) == k0 + 1
  {
    var m := ColumnMapping(headers);
    var e := EnhancedHeaders(r, headers);
    HeadersAt(r, headers, k0);
    IdHeaderIsIdHeader(r);
    forall q | 0 <= q < k0 + 1 ensures !IsIdHeader(r, e[q]) {
      assert Pos(q, k0) == q;
    }
    KeyIndexAt(r, e, k0 + 1);
  }

  /** With a single "Name" column and no ID-like header among the kept columns
      up to it, the key column the runner uploads with is the inserted ID
      column, and in every shaped row that column holds the row's player ID. */
  lemma KeyColumnHoldsId(r: Runner, headers: seq<string>, texts: seq<string>, id: string, now: string, k0: nat)
    requires OneNameAt(headers, k0)
    requires forall k :: 0 <= k <= k0 ==> !IsIdHeader(r, headers[ColumnMapping(headers)[k]])
    ensures KeyIndex(r, EnhancedHeaders(r, headers)) == k0 + 1
    ensures var row := ShapeRow(r, headers, ColumnMapping(headers), texts, id, now);
            k0 + 1 < |row| && row[k0 + 1] == id
  {
    var m := ColumnMapping(headers);
    CellsAt(r, headers, m, texts, id, now, k0);
    KeyIsIdColumn(r, headers, k0);
  }
}
