/** The spreadsheet upsert: the table already in the sheet (a header row and
    data rows) is merged with a freshly scraped batch keyed by player ID, and
    the result is written back under the batch's header row.

    Three near-identical implementations exist; `Variant` selects one. They
    differ only in how the existing key column is found when the caller passes
    -1, and in PHP treating the key "0" as absent. */
module SheetMerge {
  import opened Wrappers
  import opened Text

  type Row = seq<string>
  type Table = seq<Row>

  datatype Variant =
    | ServiceJs  // the service class of the modular JavaScript scraper
    | LegacyJs   // the stand-alone JavaScript sheets manager
    | PhpManager // the PHP sheets manager

  function RuntimeOf(v: Variant): Runtime {
    if v == PhpManager then Php else Js
  }

  /** `row[i]`, where a cell the sheet did not return (a short row, or the
      index -1) reads as "", which both runtimes treat as falsy. */
  function CellAt(row: Row, i: int): string {
    if 0 <= i < |row| then row[i] else ""
  }

  /** A cell value that `if (playerId)` accepts as a key. */
  predicate IsKey(v: Variant, s: string) {
    Truthy(RuntimeOf(v), s)
  }

  /** The column of the existing table whose cells are read as keys. The
      caller's index is used as given, except that -1 makes the JavaScript
      variants look the key column up in the old header row. */
  function ExistingKeyColumn(v: Variant, existingHeaders: Row, keyIdx: int): (col: int)
    ensures keyIdx != -1 ==> col == keyIdx
    ensures keyIdx == -1 && v == PhpManager ==> col == -1
    ensures keyIdx == -1 && v == ServiceJs ==>
              -1 <= col < |existingHeaders|
              && (col >= 0 ==> existingHeaders[col] == "PlayerID")
              && forall j :: 0 <= j < |existingHeaders| && (col == -1 || j < col) ==>
                   existingHeaders[j] != "PlayerID"
    ensures keyIdx == -1 && v == LegacyJs ==>
              -1 <= col < |existingHeaders|
              && (col >= 0 ==> Contains(existingHeaders[col], "_PlayerID"))
              && forall j :: 0 <= j < |existingHeaders| && (col == -1 || j < col) ==>
                   !Contains(existingHeaders[j], "_PlayerID")
  {
    if keyIdx != -1 then keyIdx
    else
      match v
      case ServiceJs => FindIndex(existingHeaders, (h: string) => h == "PlayerID")
      case LegacyJs => FindIndex(existingHeaders, (h: string) => Contains(h, "_PlayerID"))
      case PhpManager => -1
  }

  // ---------------------------------------------------------------------------
  // The map from player ID to the table row holding it

  /** The map built by the loop over table rows 1 .. n-1: each row whose key
      cell is truthy maps that key to the row's index, a later row overwriting
      an earlier one. Indices count the header as row 0. */
  function KeyMapUpTo(v: Variant, t: Table, col: int, n: nat): (m: map<string, nat>)
    requires n <= |t|
    ensures forall k :: k in m ==> 1 <= m[k] < n
  {
    if n <= 1 then map[]
    else
      var m := KeyMapUpTo(v, t, col, n - 1);
      var key := CellAt(t[n - 1], col);
      if IsKey(v, key) then m[key := n - 1] else m
  }

  /** The existing-ID map; no map is built when the key column is -1. */
  function KeyMap(v: Variant, t: Table, col: int): (m: map<string, nat>)
    ensures forall k :: k in m ==> 1 <= m[k] < |t|
  {
    if col == -1 then map[] else KeyMapUpTo(v, t, col, |t|)
  }

  /** Key `k` is read in column `col` of table row `i` (a data row). */
  predicate KeyAt(v: Variant, t: Table, col: int, i: int, k: string) {
    1 <= i < |t| && IsKey(v, k) && CellAt(t[i], col) == k
  }

  /** The key map holds exactly the truthy keys of the data rows, each mapped
      to the LAST row carrying it. */
  lemma {:induction false} KeyMapUpToSpec(v: Variant, t: Table, col: int, n: nat)
    requires n <= |t|
    ensures forall k :: k in KeyMapUpTo(v, t, col, n) <==>
              exists i :: 1 <= i < n && KeyAt(v, t, col, i, k)
    ensures forall k :: k in KeyMapUpTo(v, t, col, n) ==>
              KeyAt(v, t, col, KeyMapUpTo(v, t, col, n)[k], k)
              && forall j :: KeyMapUpTo(v, t, col, n)[k] < j < n ==> CellAt(t[j], col) != k
  {
    if n > 1 {
      KeyMapUpToSpec(v, t, col, n - 1);
      var m := KeyMapUpTo(v, t, col, n - 1);
      var key := CellAt(t[n - 1], col);
      forall k ensures k in KeyMapUpTo(v, t, col, n) <==> exists i :: 1 <= i < n && KeyAt(v, t, col, i, k) {
        if k == key && IsKey(v, key) {
          assert KeyAt(v, t, col, n - 1, k);
        } else if exists i :: 1 <= i < n && KeyAt(v, t, col, i, k) {
          var i :| 1 <= i < n && KeyAt(v, t, col, i, k);
          assert i < n - 1;
        }
      }
    }
  }

  /** Specification of `KeyMap` for a key column other than -1. */
  lemma KeyMapSpec(v: Variant, t: Table, col: int)
    requires col != -1
    ensures forall k :: k in KeyMap(v, t, col) <==> exists i :: 1 <= i < |t| && KeyAt(v, t, col, i, k)
    ensures forall k :: k in KeyMap(v, t, col) ==>
              KeyAt(v, t, col, KeyMap(v, t, col)[k], k)
              && forall j :: KeyMap(v, t, col)[k] < j < |t| ==> CellAt(t[j], col) != k
  {
    KeyMapUpToSpec(v, t, col, |t|);
  }

  /** A truthy key read in row `p` and in no later row is mapped to `p`. */
  lemma KeyMapFindsLast(v: Variant, t: Table, col: int, p: int, k: string)
    requires col != -1
    requires KeyAt(v, t, col, p, k)
    requires forall q :: p < q < |t| ==> CellAt(t[q], col) != k
    ensures k in KeyMap(v, t, col) && KeyMap(v, t, col)[k] == p
  {
    KeyMapSpec(v, t, col);
  }

  // ---------------------------------------------------------------------------
  // Merging the batch into the existing data rows

  /** The merged rows and the two counters the source logs. */
  datatype Tally = Tally(rows: Table, updated: nat, added: nat)

  /** The batch row's key is truthy and already known: it overwrites. */
  predicate Updates(v: Variant, km: map<string, nat>, keyIdx: int, row: Row) {
    IsKey(v, CellAt(row, keyIdx)) && CellAt(row, keyIdx) in km
  }

  /** The batch row overwrites merged row `s` (a data-row index). */
  predicate UpdatesSlot(v: Variant, km: map<string, nat>, keyIdx: int, row: Row, s: int) {
    Updates(v, km, keyIdx, row) && km[CellAt(row, keyIdx)] == s + 1
  }

  predicate ValidMap(km: map<string, nat>, n: nat) {
    forall k :: k in km ==> 1 <= km[k] <= n
  }

  /** One iteration of the merge loop. */
  function Step(v: Variant, km: map<string, nat>, keyIdx: int, acc: Tally, row: Row): Tally
    requires ValidMap(km, |acc.rows|)
  {
    if Updates(v, km, keyIdx, row) then
      Tally(acc.rows[km[CellAt(row, keyIdx)] - 1 := row], acc.updated + 1, acc.added)
    else
      Tally(acc.rows + [row], acc.updated, acc.added + 1)
  }

  /** The merge loop over the batch, in batch order. The map is not updated
      during the loop. Every batch row is counted once, as an update or as an
      addition, and only additions lengthen the table. */
  function Fold(v: Variant, km: map<string, nat>, keyIdx: int, data: Table, batch: Table): (t: Tally)
    requires ValidMap(km, |data|)
    ensures |t.rows| == |data| + t.added
    ensures t.updated + t.added == |batch|
    decreases |batch|
  {
    if |batch| == 0 then Tally(data, 0, 0)
    else Step(v, km, keyIdx, Fold(v, km, keyIdx, data, batch[..|batch| - 1]), batch[|batch| - 1])
  }

  /** Reference: the rows appended, in batch order. */
  function Appended(v: Variant, km: map<string, nat>, keyIdx: int, batch: Table): Table {
    if |batch| == 0 then []
    else
      var last := batch[|batch| - 1];
      Appended(v, km, keyIdx, batch[..|batch| - 1]) + (if Updates(v, km, keyIdx, last) then [] else [last])
  }

  /** Reference: the content of data slot `s` after the merge, i.e. the last
      batch row that overwrites it, or its old content `prior` if none does. */
  function SlotValue(v: Variant, km: map<string, nat>, keyIdx: int, prior: Row, batch: Table, s: int): Row {
    if |batch| == 0 then prior
    else if UpdatesSlot(v, km, keyIdx, batch[|batch| - 1], s) then batch[|batch| - 1]
    else SlotValue(v, km, keyIdx, prior, batch[..|batch| - 1], s)
  }

  /** The merged rows are the old data rows with every overwritten slot
      holding its last overwriting batch row, followed by the appended rows
      in batch order. */
  lemma {:induction false} FoldCharacterization(v: Variant, km: map<string, nat>, keyIdx: int, data: Table, batch: Table)
    requires ValidMap(km, |data|)
    ensures var t := Fold(v, km, keyIdx, data, batch);
            && t.rows[|data|..] == Appended(v, km, keyIdx, batch)
            && t.added == |Appended(v, km, keyIdx, batch)|
            && forall s :: 0 <= s < |data| ==> t.rows[s] == SlotValue(v, km, keyIdx, data[s], batch, s)
    decreases |batch|
  {
    if |batch| > 0 {
      var prefix := batch[..|batch| - 1];
      var last := batch[|batch| - 1];
      FoldCharacterization(v, km, keyIdx, data, prefix);
      var prev := Fold(v, km, keyIdx, data, prefix);
      var t := Fold(v, km, keyIdx, data, batch);
      assert t == Step(v, km, keyIdx, prev, last);
      if Updates(v, km, keyIdx, last) {
        var s := km[CellAt(last, keyIdx)] - 1;
        assert t.rows == prev.rows[s := last];
        assert t.rows[|data|..] == prev.rows[|data|..];
      } else {
        assert t.rows == prev.rows + [last];
        assert t.rows[|data|..] == prev.rows[|data|..] + [last];
      }
    }
  }

  /** A slot no batch row overwrites keeps its old content. */
  lemma {:induction false} SlotValueUntouched(v: Variant, km: map<string, nat>, keyIdx: int, prior: Row, batch: Table, s: int)
    requires forall i :: 0 <= i < |batch| ==> !UpdatesSlot(v, km, keyIdx, batch[i], s)
    ensures SlotValue(v, km, keyIdx, prior, batch, s) == prior
    decreases |batch|
  {
    if |batch| > 0 {
      assert !UpdatesSlot(v, km, keyIdx, batch[|batch| - 1], s);
      SlotValueUntouched(v, km, keyIdx, prior, batch[..|batch| - 1], s);
    }
  }

  /** A slot is overwritten by batch row `i` when no later batch row
      overwrites the same slot. */
  lemma {:induction false} SlotValueLastWriter(v: Variant, km: map<string, nat>, keyIdx: int, prior: Row, batch: Table, s: int, i: nat)
    requires i < |batch| && UpdatesSlot(v, km, keyIdx, batch[i], s)
    requires forall j :: i < j < |batch| ==> !UpdatesSlot(v, km, keyIdx, batch[j], s)
    ensures SlotValue(v, km, keyIdx, prior, batch, s) == batch[i]
    decreases |batch|
  {
    if i < |batch| - 1 {
      SlotValueLastWriter(v, km, keyIdx, prior, batch[..|batch| - 1], s, i);
    }
  }

  /** A slot's final content is its old content or some batch row that
      overwrites it. */
  lemma {:induction false} SlotValueSource(v: Variant, km: map<string, nat>, keyIdx: int, prior: Row, batch: Table, s: int)
    ensures var r := SlotValue(v, km, keyIdx, prior, batch, s);
            r == prior || exists i :: 0 <= i < |batch| && UpdatesSlot(v, km, keyIdx, batch[i], s) && r == batch[i]
    decreases |batch|
  {
    if |batch| > 0 && !UpdatesSlot(v, km, keyIdx, batch[|batch| - 1], s) {
      var prefix := batch[..|batch| - 1];
      SlotValueSource(v, km, keyIdx, prior, prefix, s);
      var r := SlotValue(v, km, keyIdx, prior, prefix, s);
      if r != prior {
        var i :| 0 <= i < |prefix| && UpdatesSlot(v, km, keyIdx, prefix[i], s) && r == prefix[i];
        assert batch[i] == prefix[i];
      }
    }
  }

  /** Every appended row is a batch row that does not overwrite. */
  lemma {:induction false} AppendedFromBatch(v: Variant, km: map<string, nat>, keyIdx: int, batch: Table)
    ensures forall q :: 0 <= q < |Appended(v, km, keyIdx, batch)| ==>
              exists i :: 0 <= i < |batch| && Appended(v, km, keyIdx, batch)[q] == batch[i]
                          && !Updates(v, km, keyIdx, batch[i])
    decreases |batch|
  {
    var a := Appended(v, km, keyIdx, batch);
    if |batch| == 0 {
      assert a == [];
    } else {
      var prefix := batch[..|batch| - 1];
      var last := batch[|batch| - 1];
      var ap := Appended(v, km, keyIdx, prefix);
      AppendedFromBatch(v, km, keyIdx, prefix);
      assert a == ap + (if Updates(v, km, keyIdx, last) then [] else [last]);
      forall q | 0 <= q < |a|
        ensures exists i :: 0 <= i < |batch| && a[q] == batch[i] && !Updates(v, km, keyIdx, batch[i])
      {
        if q < |ap| {
          var i :| 0 <= i < |prefix| && ap[q] == prefix[i] && !Updates(v, km, keyIdx, prefix[i]);
          assert a[q] == batch[i];
        } else {
          assert a[q] == batch[|batch| - 1];
        }
      }
    }
  }

  /** Pairwise distinct keys in the batch (the scraper deduplicates by ID). */
  predicate DistinctKeys(batch: Table, keyIdx: int) {
    forall i, j :: 0 <= i < j < |batch| ==> CellAt(batch[i], keyIdx) != CellAt(batch[j], keyIdx)
  }

  /** With distinct keys, a non-overwriting batch row is appended, and no row
      appended after it carries its key. */
  lemma {:induction false} AppendedPosition(v: Variant, km: map<string, nat>, keyIdx: int, batch: Table, i: nat)
    returns (p: nat)
    requires DistinctKeys(batch, keyIdx)
    requires i < |batch| && !Updates(v, km, keyIdx, batch[i])
    ensures var a := Appended(v, km, keyIdx, batch);
            && p < |a| && a[p] == batch[i]
            && forall q :: p < q < |a| ==> CellAt(a[q], keyIdx) != CellAt(batch[i], keyIdx)
    decreases |batch|
  {
    var a := Appended(v, km, keyIdx, batch);
    var prefix := batch[..|batch| - 1];
    var last := batch[|batch| - 1];
    var ap := Appended(v, km, keyIdx, prefix);
    assert a == ap + (if Updates(v, km, keyIdx, last) then [] else [last]);
    if i == |batch| - 1 {
      p := |ap|;
    } else {
      assert DistinctKeys(prefix, keyIdx);
      p := AppendedPosition(v, km, keyIdx, prefix, i);
      assert a[p] == ap[p];
      forall q | p < q < |a| ensures CellAt(a[q], keyIdx) != CellAt(batch[i], keyIdx) {
        if q >= |ap| {
          assert a[q] == last;
        } else {
          assert a[q] == ap[q];
        }
      }
    }
  }

  /** Re-applying rows that already sit where they would be written changes
      nothing. */
  lemma {:induction false} FoldRewritesInPlace(v: Variant, km: map<string, nat>, keyIdx: int, data: Table, batch: Table)
    requires ValidMap(km, |data|)
    requires forall i :: 0 <= i < |batch| ==>
               Updates(v, km, keyIdx, batch[i]) && data[km[CellAt(batch[i], keyIdx)] - 1] == batch[i]
    ensures Fold(v, km, keyIdx, data, batch).rows == data
    ensures Fold(v, km, keyIdx, data, batch).added == 0
    decreases |batch|
  {
    if |batch| > 0 {
      FoldRewritesInPlace(v, km, keyIdx, data, batch[..|batch| - 1]);
      var last := batch[|batch| - 1];
      assert Updates(v, km, keyIdx, last);
    }
  }

  // ---------------------------------------------------------------------------
  // upsertToSheet

  /** The merged data rows: an empty sheet is replaced by the batch;
      otherwise the batch is folded into the old data rows. */
  function MergeData(v: Variant, existing: Table, batch: Table, keyIdx: int): (t: Tally)
    ensures t.updated + t.added == |batch|
    ensures |existing| == 0 ==> t.rows == batch
    ensures |existing| > 0 ==> |t.rows| == |existing| - 1 + t.added
  {
    if |existing| == 0 then Tally(batch, 0, |batch|)
    else
      var col := ExistingKeyColumn(v, existing[0], keyIdx);
      Fold(v, KeyMap(v, existing, col), keyIdx, existing[1..], batch)
  }

  /** The table written back: always the batch's header row first, never the
      old one, followed by the merged rows. */
  function Upsert(v: Variant, existing: Table, headers: Row, batch: Table, keyIdx: int): (written: Table)
    ensures |written| >= 1 && written[0] == headers
    ensures written[1..] == MergeData(v, existing, batch, keyIdx).rows
  {
    [headers] + MergeData(v, existing, batch, keyIdx).rows
  }

  /** A key is already present in the existing table's key column. */
  predicate Known(v: Variant, existing: Table, col: int, k: string) {
    col != -1 && exists i :: 1 <= i < |existing| && KeyAt(v, existing, col, i, k)
  }

  /** Reference: the batch rows the merge appends, chosen from the table
      instead of the map: those whose key is falsy or not yet in the sheet. */
  function NewRows(v: Variant, existing: Table, col: int, keyIdx: int, batch: Table): Table {
    if |batch| == 0 then []
    else
      var last := batch[|batch| - 1];
      var k := CellAt(last, keyIdx);
      NewRows(v, existing, col, keyIdx, batch[..|batch| - 1])
        + (if IsKey(v, k) && Known(v, existing, col, k) then [] else [last])
  }

  lemma {:induction false} AppendedIsNewRows(v: Variant, existing: Table, col: int, keyIdx: int, batch: Table)
    requires forall k :: k in KeyMap(v, existing, col) <==> IsKey(v, k) && Known(v, existing, col, k)
    ensures Appended(v, KeyMap(v, existing, col), keyIdx, batch) == NewRows(v, existing, col, keyIdx, batch)
    decreases |batch|
  {
    if |batch| > 0 {
      AppendedIsNewRows(v, existing, col, keyIdx, batch[..|batch| - 1]);
    }
  }

  lemma KeyMapIsKnown(v: Variant, existing: Table, col: int)
    ensures forall k :: k in KeyMap(v, existing, col) <==> IsKey(v, k) && Known(v, existing, col, k)
  {
    if col != -1 {
      KeyMapSpec(v, existing, col);
    }
  }

  /** An empty sheet, or one holding only a header row, is overwritten by the
      new header row and the batch verbatim. */
  lemma UpsertIntoEmptySheet(v: Variant, existing: Table, headers: Row, batch: Table, keyIdx: int)
    requires |existing| <= 1
    ensures Upsert(v, existing, headers, batch, keyIdx) == [headers] + batch
  {
    if |existing| == 1 {
      var col := ExistingKeyColumn(v, existing[0], keyIdx);
      var km := KeyMap(v, existing, col);
      assert km == map[];
      FoldCharacterization(v, km, keyIdx, [], batch);
      AppendedIsNewRows(v, existing, col, keyIdx, batch);
      NewRowsAllWhenNothingKnown(v, existing, col, keyIdx, batch);
    }
  }

  lemma {:induction false} NewRowsAllWhenNothingKnown(v: Variant, existing: Table, col: int, keyIdx: int, batch: Table)
    requires forall i :: 0 <= i < |batch| ==> !(IsKey(v, CellAt(batch[i], keyIdx)) && Known(v, existing, col, CellAt(batch[i], keyIdx)))
    ensures NewRows(v, existing, col, keyIdx, batch) == batch
    decreases |batch|
  {
    if |batch| > 0 {
      NewRowsAllWhenNothingKnown(v, existing, col, keyIdx, batch[..|batch| - 1]);
      assert batch[..|batch| - 1] + [batch[|batch| - 1]] == batch;
    }
  }

  /** The new rows of the batch are appended after the old data rows, in
      batch order: a row whose key is empty/falsy or not yet in the sheet.
      Two batch rows with the same new key are therefore both appended. */
  lemma UpsertAppendsNewRows(v: Variant, existing: Table, headers: Row, batch: Table, keyIdx: int)
    requires |existing| >= 1
    ensures var written := Upsert(v, existing, headers, batch, keyIdx);
            var col := ExistingKeyColumn(v, existing[0], keyIdx);
            && |written| >= |existing|
            && written[|existing|..] == NewRows(v, existing, col, keyIdx, batch)
  {
    var col := ExistingKeyColumn(v, existing[0], keyIdx);
    var km := KeyMap(v, existing, col);
    var data := existing[1..];
    FoldCharacterization(v, km, keyIdx, data, batch);
    KeyMapIsKnown(v, existing, col);
    AppendedIsNewRows(v, existing, col, keyIdx, batch);
    var written := Upsert(v, existing, headers, batch, keyIdx);
    var rows := Fold(v, km, keyIdx, data, batch).rows;
    assert written == [headers] + rows;
    assert written[|existing|..] == rows[|data|..];
  }

  /** An existing data row (table row `p`) whose key no batch row carries is
      written back unchanged at the same position. */
  lemma UpsertKeepsUnmatchedRow(v: Variant, existing: Table, headers: Row, batch: Table, keyIdx: int, p: nat)
    requires 1 <= p < |existing|
    requires var col := ExistingKeyColumn(v, existing[0], keyIdx);
             forall i :: 0 <= i < |batch| ==> CellAt(batch[i], keyIdx) != CellAt(existing[p], col)
    ensures Upsert(v, existing, headers, batch, keyIdx)[p] == existing[p]
  {
    var col := ExistingKeyColumn(v, existing[0], keyIdx);
    var km := KeyMap(v, existing, col);
    if col != -1 {
      KeyMapSpec(v, existing, col);
    }
    forall i | 0 <= i < |batch| ensures !UpdatesSlot(v, km, keyIdx, batch[i], p - 1) {
    }
    UntouchedSlotKept(v, existing, headers, batch, keyIdx, p);
  }

  /** An existing row shadowed by a later row with the same key (an earlier
      duplicate) is never overwritten. */
  lemma UpsertKeepsEarlierDuplicate(v: Variant, existing: Table, headers: Row, batch: Table, keyIdx: int, p: nat, later: nat)
    requires p < later < |existing| && 1 <= p
    requires var col := ExistingKeyColumn(v, existing[0], keyIdx);
             CellAt(existing[later], col) == CellAt(existing[p], col)
    ensures Upsert(v, existing, headers, batch, keyIdx)[p] == existing[p]
  {
    var col := ExistingKeyColumn(v, existing[0], keyIdx);
    var km := KeyMap(v, existing, col);
    if col != -1 {
      KeyMapSpec(v, existing, col);
    }
    UnmappedSlotKept(v, existing, headers, batch, keyIdx, p);
  }

  /** A data row no key maps to is written back unchanged. */
  lemma UnmappedSlotKept(v: Variant, existing: Table, headers: Row, batch: Table, keyIdx: int, p: nat)
    requires 1 <= p < |existing|
    requires var km := KeyMap(v, existing, ExistingKeyColumn(v, existing[0], keyIdx));
             forall k :: k in km ==> km[k] != p
    ensures Upsert(v, existing, headers, batch, keyIdx)[p] == existing[p]
  {
    var km := KeyMap(v, existing, ExistingKeyColumn(v, existing[0], keyIdx));
    forall i | 0 <= i < |batch| ensures !UpdatesSlot(v, km, keyIdx, batch[i], p - 1) {
    }
    UntouchedSlotKept(v, existing, headers, batch, keyIdx, p);
  }

  /** A data row no batch row overwrites is written back unchanged. */
  lemma UntouchedSlotKept(v: Variant, existing: Table, headers: Row, batch: Table, keyIdx: int, p: nat)
    requires 1 <= p < |existing|
    requires var km := KeyMap(v, existing, ExistingKeyColumn(v, existing[0], keyIdx));
             forall i :: 0 <= i < |batch| ==> !UpdatesSlot(v, km, keyIdx, batch[i], p - 1)
    ensures Upsert(v, existing, headers, batch, keyIdx)[p] == existing[p]
  {
    var km := KeyMap(v, existing, ExistingKeyColumn(v, existing[0], keyIdx));
    UpsertLayout(v, existing, headers, batch, keyIdx);
    SlotValueUntouched(v, km, keyIdx, existing[p], batch, p - 1);
  }

  /** Two keys the map sends to the same row are the same key. */
  lemma KeyMapSlotKey(v: Variant, t: Table, col: int, k: string, k2: string)
    requires col != -1
    requires k in KeyMap(v, t, col) && k2 in KeyMap(v, t, col)
    requires KeyMap(v, t, col)[k] == KeyMap(v, t, col)[k2]
    ensures k == k2
  {
    KeyMapSpec(v, t, col);
  }

  /** Layout of the written table over a non-empty sheet: the header row, the
      old data slots with their final contents, then the appended rows. */
  lemma UpsertLayout(v: Variant, existing: Table, headers: Row, batch: Table, keyIdx: int)
    requires |existing| >= 1
    ensures var km := KeyMap(v, existing, ExistingKeyColumn(v, existing[0], keyIdx));
            var w := Upsert(v, existing, headers, batch, keyIdx);
            var a := Appended(v, km, keyIdx, batch);
            && |w| == |existing| + |a|
            && (forall q :: 1 <= q < |existing| ==> w[q] == SlotValue(v, km, keyIdx, existing[q], batch, q - 1))
            && (forall q :: |existing| <= q < |w| ==> w[q] == a[q - |existing|])
  {
    var col := ExistingKeyColumn(v, existing[0], keyIdx);
    var km := KeyMap(v, existing, col);
    var data := existing[1..];
    FoldCharacterization(v, km, keyIdx, data, batch);
    var w := Upsert(v, existing, headers, batch, keyIdx);
    assert MergeData(v, existing, batch, keyIdx) == Fold(v, km, keyIdx, data, batch);
    FoldLayout(v, km, keyIdx, data, batch, w);
    forall q | 1 <= q < |existing| ensures w[q] == SlotValue(v, km, keyIdx, existing[q], batch, q - 1) {
      assert data[q - 1] == existing[q];
    }
  }

  /** `UpsertLayout` for a given map: a table whose rows after the first are
      the merged rows. */
  lemma FoldLayout(v: Variant, km: map<string, nat>, keyIdx: int, data: Table, batch: Table, w: Table)
    requires ValidMap(km, |data|)
    requires |w| >= 1 && w[1..] == Fold(v, km, keyIdx, data, batch).rows
    ensures var a := Appended(v, km, keyIdx, batch);
            && |w| == |data| + 1 + |a|
            && (forall q :: 1 <= q <= |data| ==> w[q] == SlotValue(v, km, keyIdx, data[q - 1], batch, q - 1))
            && (forall q :: |data| + 1 <= q < |w| ==> w[q] == a[q - |data| - 1])
  {
    FoldCharacterization(v, km, keyIdx, data, batch);
    var rows := w[1..];
    var a := Appended(v, km, keyIdx, batch);
    assert forall q :: 1 <= q < |w| ==> w[q] == rows[q - 1];
    forall q | |data| + 1 <= q < |w| ensures w[q] == a[q - |data| - 1] {
      assert rows[q - 1] == rows[|data|..][q - 1 - |data|];
    }
  }

  /** A batch row whose truthy key was last seen in table row `p` replaces
      that whole row, provided no later batch row carries the same key. */
  lemma UpsertReplacesKnownRow(v: Variant, existing: Table, headers: Row, batch: Table, keyIdx: int, i: nat, p: nat)
    requires i < |batch| && 1 <= p < |existing|
    requires var col := ExistingKeyColumn(v, existing[0], keyIdx);
             && col != -1
             && KeyAt(v, existing, col, p, CellAt(batch[i], keyIdx))
             && (forall q :: p < q < |existing| ==> CellAt(existing[q], col) != CellAt(batch[i], keyIdx))
    requires forall j :: i < j < |batch| ==> CellAt(batch[j], keyIdx) != CellAt(batch[i], keyIdx)
    ensures Upsert(v, existing, headers, batch, keyIdx)[p] == batch[i]
  {
    var col := ExistingKeyColumn(v, existing[0], keyIdx);
    var km := KeyMap(v, existing, col);
    var k := CellAt(batch[i], keyIdx);
    KeyMapFindsLast(v, existing, col, p, k);
    forall j | i < j < |batch| ensures !UpdatesSlot(v, km, keyIdx, batch[j], p - 1) {
      if UpdatesSlot(v, km, keyIdx, batch[j], p - 1) {
        KeyMapSlotKey(v, existing, col, k, CellAt(batch[j], keyIdx));
      }
    }
    SlotValueLastWriter(v, km, keyIdx, existing[p], batch, p - 1, i);
    UpsertLayout(v, existing, headers, batch, keyIdx);
  }

  /** With key index -1 no batch row has a key (`row[-1]` is undefined), so
      the whole batch is appended after the old data rows, whatever column
      the old header row designates. */
  lemma UpsertUnknownKeyAppendsAll(v: Variant, existing: Table, headers: Row, batch: Table)
    requires |existing| >= 1
    ensures Upsert(v, existing, headers, batch, -1) == [headers] + existing[1..] + batch
    ensures MergeData(v, existing, batch, -1).added == |batch|
  {
    var km := KeyMap(v, existing, ExistingKeyColumn(v, existing[0], -1));
    FoldUnkeyed(v, km, existing[1..], batch);
  }

  /** The merge loop with key index -1 appends every batch row. */
  lemma {:induction false} FoldUnkeyed(v: Variant, km: map<string, nat>, data: Table, batch: Table)
    requires ValidMap(km, |data|)
    ensures Fold(v, km, -1, data, batch) == Tally(data + batch, 0, |batch|)
    decreases |batch|
  {
    if |batch| > 0 {
      var init := batch[..|batch| - 1];
      FoldUnkeyed(v, km, data, init);
      assert batch == init + [batch[|batch| - 1]];
      assert !Updates(v, km, -1, batch[|batch| - 1]);
    }
  }

  /** With a real key column and distinct truthy batch keys, merging the same
      batch into the table just written changes nothing. */
  lemma UpsertIdempotent(v: Variant, existing: Table, headers: Row, batch: Table, keyIdx: int)
    requires keyIdx >= 0
    requires forall i :: 0 <= i < |batch| ==> IsKey(v, CellAt(batch[i], keyIdx))
    requires DistinctKeys(batch, keyIdx)
    ensures var written := Upsert(v, existing, headers, batch, keyIdx);
            Upsert(v, written, headers, batch, keyIdx) == written
  {
    var w1 := Upsert(v, existing, headers, batch, keyIdx);
    var r := w1[1..];
    assert ExistingKeyColumn(v, w1[0], keyIdx) == keyIdx;
    var km2 := KeyMap(v, w1, keyIdx);
    forall i | 0 <= i < |batch|
      ensures Updates(v, km2, keyIdx, batch[i]) && r[km2[CellAt(batch[i], keyIdx)] - 1] == batch[i]
    {
      var p := WrittenPosition(v, existing, headers, batch, keyIdx, i);
      KeyMapFindsLast(v, w1, keyIdx, p, CellAt(batch[i], keyIdx));
    }
    FoldRewritesInPlace(v, km2, keyIdx, r, batch);
  }

  /** Where batch row `i` sits in the written table, with no later row
      carrying its key. */
  lemma WrittenPosition(v: Variant, existing: Table, headers: Row, batch: Table, keyIdx: int, i: nat) returns (p: nat)
    requires keyIdx >= 0
    requires forall j :: 0 <= j < |batch| ==> IsKey(v, CellAt(batch[j], keyIdx))
    requires DistinctKeys(batch, keyIdx)
    requires i < |batch|
    ensures var w := Upsert(v, existing, headers, batch, keyIdx);
            && 1 <= p < |w| && w[p] == batch[i]
            && KeyAt(v, w, keyIdx, p, CellAt(batch[i], keyIdx))
            && forall q :: p < q < |w| ==> CellAt(w[q], keyIdx) != CellAt(batch[i], keyIdx)
  {
    var w := Upsert(v, existing, headers, batch, keyIdx);
    var k := CellAt(batch[i], keyIdx);
    if |existing| == 0 {
      p := i + 1;
      assert w == [headers] + batch;
      forall q | p < q < |w| ensures CellAt(w[q], keyIdx) != k {
        assert w[q] == batch[q - 1];
      }
    } else {
      var km := KeyMap(v, existing, ExistingKeyColumn(v, existing[0], keyIdx));
      if Updates(v, km, keyIdx, batch[i]) {
        p := WrittenPositionUpdated(v, existing, headers, batch, keyIdx, i);
      } else {
        p := WrittenPositionAppended(v, existing, headers, batch, keyIdx, i);
      }
    }
  }

  /** `WrittenPosition` for a batch row that overwrites a known row. */
  lemma WrittenPositionUpdated(v: Variant, existing: Table, headers: Row, batch: Table, keyIdx: int, i: nat) returns (p: nat)
    requires keyIdx >= 0 && |existing| >= 1
    requires forall j :: 0 <= j < |batch| ==> IsKey(v, CellAt(batch[j], keyIdx))
    requires DistinctKeys(batch, keyIdx)
    requires i < |batch|
    requires Updates(v, KeyMap(v, existing, ExistingKeyColumn(v, existing[0], keyIdx)), keyIdx, batch[i])
    ensures var w := Upsert(v, existing, headers, batch, keyIdx);
            && 1 <= p < |existing| && w[p] == batch[i]
            && forall q :: p < q < |w| ==> CellAt(w[q], keyIdx) != CellAt(batch[i], keyIdx)
  {
    var col := ExistingKeyColumn(v, existing[0], keyIdx);
    var km := KeyMap(v, existing, col);
    var w := Upsert(v, existing, headers, batch, keyIdx);
    var k := CellAt(batch[i], keyIdx);
    p := km[k];
    UpsertLayout(v, existing, headers, batch, keyIdx);
    forall j | i < j < |batch| ensures !UpdatesSlot(v, km, keyIdx, batch[j], p - 1) {
      if UpdatesSlot(v, km, keyIdx, batch[j], p - 1) {
        KeyMapSlotKey(v, existing, col, k, CellAt(batch[j], keyIdx));
      }
    }
    SlotValueLastWriter(v, km, keyIdx, existing[p], batch, p - 1, i);
    forall q | p < q < |w| ensures CellAt(w[q], keyIdx) != k {
      KeyAbsentAfter(v, existing, headers, batch, keyIdx, k, q);
    }
  }

  /** A truthy key the map sends to row `km[k]` is not read in any later row
      of the written table. */
  lemma KeyAbsentAfter(v: Variant, existing: Table, headers: Row, batch: Table, keyIdx: int, k: string, q: nat)
    requires keyIdx >= 0 && |existing| >= 1
    requires ExistingKeyColumn(v, existing[0], keyIdx) == keyIdx
    requires IsKey(v, k) && k in KeyMap(v, existing, keyIdx)
    requires KeyMap(v, existing, keyIdx)[k] < q < |Upsert(v, existing, headers, batch, keyIdx)|
    ensures CellAt(Upsert(v, existing, headers, batch, keyIdx)[q], keyIdx) != k
  {
    UpsertLayout(v, existing, headers, batch, keyIdx);
    if q < |existing| {
      KeyAbsentInSlot(v, existing, batch, keyIdx, k, q);
    } else {
      var km := KeyMap(v, existing, keyIdx);
      var a := Appended(v, km, keyIdx, batch);
      AppendedFromBatch(v, km, keyIdx, batch);
      assert Upsert(v, existing, headers, batch, keyIdx)[q] == a[q - |existing|];
    }
  }

  lemma KeyAbsentInSlot(v: Variant, existing: Table, batch: Table, keyIdx: int, k: string, q: nat)
    requires keyIdx >= 0
    requires k in KeyMap(v, existing, keyIdx) && KeyMap(v, existing, keyIdx)[k] < q < |existing|
    ensures CellAt(SlotValue(v, KeyMap(v, existing, keyIdx), keyIdx, existing[q], batch, q - 1), keyIdx) != k
  {
    KeyMapSpec(v, existing, keyIdx);
    SlotValueSource(v, KeyMap(v, existing, keyIdx), keyIdx, existing[q], batch, q - 1);
  }

  /** `WrittenPosition` for a batch row that is appended. */
  lemma WrittenPositionAppended(v: Variant, existing: Table, headers: Row, batch: Table, keyIdx: int, i: nat) returns (p: nat)
    requires |existing| >= 1
    requires DistinctKeys(batch, keyIdx)
    requires i < |batch|
    requires !Updates(v, KeyMap(v, existing, ExistingKeyColumn(v, existing[0], keyIdx)), keyIdx, batch[i])
    ensures var w := Upsert(v, existing, headers, batch, keyIdx);
            && |existing| <= p < |w| && w[p] == batch[i]
            && forall q :: p < q < |w| ==> CellAt(w[q], keyIdx) != CellAt(batch[i], keyIdx)
  {
    var km := KeyMap(v, existing, ExistingKeyColumn(v, existing[0], keyIdx));
    var w := Upsert(v, existing, headers, batch, keyIdx);
    var a := Appended(v, km, keyIdx, batch);
    var pa := AppendedPosition(v, km, keyIdx, batch, i);
    UpsertLayout(v, existing, headers, batch, keyIdx);
    p := |existing| + pa;
    forall q | p < q < |w| ensures CellAt(w[q], keyIdx) != CellAt(batch[i], keyIdx) {
      assert w[q] == a[q - |existing|];
    }
  }

  // ---------------------------------------------------------------------------
  // The imperative upsert, as the source writes it

  /** The first loop of `upsertToSheet`: the ID map over the old data rows. */
  method BuildKeyMap(v: Variant, existing: Table, col: int) returns (km: map<string, nat>)
    ensures km == KeyMap(v, existing, col)
  {
    km := map[];
    if col == -1 || |existing| == 0 {
      return;
    }
    var i := 1;
    while i < |existing|
      invariant 1 <= i <= |existing|
      invariant km == KeyMapUpTo(v, existing, col, i)
    {
      var key := CellAt(existing[i], col);
      if IsKey(v, key) {
        km := km[key := i];
      }
      i := i + 1;
    }
  }

  /** The second loop of `upsertToSheet`: overwrite or append each batch row. */
  method MergeLoop(v: Variant, km: map<string, nat>, keyIdx: int, data: Table, batch: Table)
    returns (rows: Table, updated: nat, added: nat)
    requires ValidMap(km, |data|)
    ensures Tally(rows, updated, added) == Fold(v, km, keyIdx, data, batch)
  {
    rows, updated, added := data, 0, 0;
    var n := 0;
    while n < |batch|
      invariant 0 <= n <= |batch|
      invariant Tally(rows, updated, added) == Fold(v, km, keyIdx, data, batch[..n])
    {
      var row := batch[n];
      FoldPrefixStep(v, km, keyIdx, data, batch, n);
      var key := CellAt(row, keyIdx);
      if IsKey(v, key) && key in km {
        rows := rows[km[key] - 1 := row];
        updated := updated + 1;
      } else {
        rows := rows + [row];
        added := added + 1;
      }
      n := n + 1;
    }
    assert batch[..n] == batch;
  }

  /** The fold over one more batch row is one more step. */
  lemma FoldPrefixStep(v: Variant, km: map<string, nat>, keyIdx: int, data: Table, batch: Table, n: nat)
    requires ValidMap(km, |data|) && n < |batch|
    ensures var t := Fold(v, km, keyIdx, data, batch[..n]);
            ValidMap(km, |t.rows|) && Fold(v, km, keyIdx, data, batch[..n + 1]) == Step(v, km, keyIdx, t, batch[n])
  {
    assert batch[..n + 1][..n] == batch[..n];
  }

  /** `upsertToSheet`: an empty sheet is overwritten with the batch, otherwise
      the two loops run and the header row is replaced by the batch's. */
  method UpsertToSheet(v: Variant, existing: Table, headers: Row, batch: Table, keyIdx: int)
    returns (written: Table, updated: nat, added: nat)
    ensures written == Upsert(v, existing, headers, batch, keyIdx)
    ensures updated == MergeData(v, existing, batch, keyIdx).updated
    ensures added == MergeData(v, existing, batch, keyIdx).added
    ensures updated + added == |batch|
  {
    if |existing| == 0 {
      return [headers] + batch, 0, |batch|;
    }
    var col := ExistingKeyColumn(v, existing[0], keyIdx);
    var km := BuildKeyMap(v, existing, col);
    var rows;
    rows, updated, added := MergeLoop(v, km, keyIdx, existing[1..], batch);
    written := [headers] + rows;
  }

  // ---------------------------------------------------------------------------
  // Worked examples

  /** Rows keep their positions: an updated row stays where it was and a new
      one is appended. */
  lemma UpdateKeepsPosition()
    ensures Upsert(ServiceJs, [["Name", "PlayerID"], ["A", "1"], ["B", "2"]], ["Name", "PlayerID"],
                   [["B", "2", "x"], ["C", "3"]], 1)
         == [["Name", "PlayerID"], ["A", "1"], ["B", "2", "x"], ["C", "3"]]
  {
    var existing := [["Name", "PlayerID"], ["A", "1"], ["B", "2"]];
    assert KeyMapUpTo(ServiceJs, existing, 1, 2) == map["1" := 1];
    assert KeyMapUpTo(ServiceJs, existing, 1, 3) == map["1" := 1, "2" := 2];
    var km := KeyMap(ServiceJs, existing, 1);
    var batch := [["B", "2", "x"], ["C", "3"]];
    assert Fold(ServiceJs, km, 1, existing[1..], batch[..1]) == Tally([["A", "1"], ["B", "2", "x"]], 1, 0);
  }

  /** PHP treats the key "0" as absent and appends; JavaScript updates. */
  lemma ZeroKeyDiffersByRuntime()
    ensures Upsert(PhpManager, [["PlayerID"], ["0"]], ["PlayerID"], [["0"]], 0) == [["PlayerID"], ["0"], ["0"]]
    ensures Upsert(ServiceJs, [["PlayerID"], ["0"]], ["PlayerID"], [["0"]], 0) == [["PlayerID"], ["0"]]
  {
    assert KeyMap(PhpManager, [["PlayerID"], ["0"]], 0) == map[];
    assert KeyMap(ServiceJs, [["PlayerID"], ["0"]], 0) == map["0" := 1];
  }
}
