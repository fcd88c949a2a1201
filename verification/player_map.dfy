/** The players collected so far: an insertion-ordered map from player ID to
    row, as a JavaScript `Map` or a PHP array keyed by ID behaves. Setting an
    existing key replaces its row in place; a new key goes to the end. */
module PlayerMap {
  import opened Wrappers

  type Row = seq<string>

  datatype Entry = Entry(id: string, row: Row)

  /** Entries in insertion order; the ID of each entry is unique. */
  type Players = seq<Entry>

  predicate UniqueIds(m: Players) {
    forall i, j :: 0 <= i < j < |m| ==> m[i].id != m[j].id
  }

  function Ids(m: Players): (ids: seq<string>)
    ensures |ids| == |m| && forall i :: 0 <= i < |m| ==> ids[i] == m[i].id
  {
    seq(|m|, i requires 0 <= i < |m| => m[i].id)
  }

  predicate Has(m: Players, id: string) {
    exists i :: 0 <= i < |m| && m[i].id == id
  }

  /** The position of `id`, if present. */
  function Find(m: Players, id: string): (r: Option<nat>)
    ensures r.Some? ==> r.value < |m| && m[r.value].id == id
                        && forall j :: 0 <= j < r.value ==> m[j].id != id
    ensures r.None? <==> !Has(m, id)
  {
    if |m| == 0 then None
    else if m[0].id == id then Some(0)
    else
      match Find(m[1..], id)
      case None => None
      case Some(k) => Some(k + 1)
  }

  /** `map.get(id)`. */
  function Get(m: Players, id: string): (r: Option<Row>)
    ensures r.Some? <==> Has(m, id)
  {
    match Find(m, id)
    case None => None
    case Some(k) => Some(m[k].row)
  }

  /** `map.set(id, row)` / `$players[$id] = $row`. */
  function Put(m: Players, id: string, row: Row): (r: Players)
    requires UniqueIds(m)
    ensures UniqueIds(r)
    ensures Has(m, id) ==> |r| == |m|
    ensures !Has(m, id) ==> |r| == |m| + 1 && r[|m|] == Entry(id, row) && r[..|m|] == m
  {
    match Find(m, id)
    case None => m + [Entry(id, row)]
    case Some(k) => m[k := Entry(id, row)]
  }

  /** The row just set is read back, every other ID keeps its row, and the
      order of the IDs already present is unchanged. */
  lemma PutGet(m: Players, id: string, row: Row, other: string)
    requires UniqueIds(m)
    ensures Get(Put(m, id, row), id) == Some(row)
    ensures other != id ==> Get(Put(m, id, row), other) == Get(m, other)
    ensures Ids(Put(m, id, row))[..|m|] == Ids(m)
  {
    if other != id {
      PutGetOther(m, id, row, other);
    }
    PutGetSame(m, id, row);
    PutKeepsOrder(m, id, row);
  }

  lemma PutGetOther(m: Players, id: string, row: Row, other: string)
    requires UniqueIds(m) && other != id
    ensures Get(Put(m, id, row), other) == Get(m, other)
  {
    var r := Put(m, id, row);
    var f := Find(m, other);
    if f.Some? {
      assert r[f.value] == m[f.value];
      assert Find(r, other) == f;
    } else {
      assert !Has(r, other);
    }
  }

  lemma PutGetSame(m: Players, id: string, row: Row)
    requires UniqueIds(m)
    ensures Get(Put(m, id, row), id) == Some(row)
  {
    var r := Put(m, id, row);
    if Has(m, id) {
      var k := Find(m, id).value;
      assert r[k].id == id && Has(r, id);
      assert forall j :: 0 <= j < k ==> r[j] == m[j];
      assert Find(r, id) == Some(k);
    } else {
      assert Find(r, id) == Some(|m|);
    }
  }

  lemma PutKeepsOrder(m: Players, id: string, row: Row)
    requires UniqueIds(m)
    ensures Ids(Put(m, id, row))[..|m|] == Ids(m)
  {
  }

  /** What an ID reads after one set. */
  lemma PutRead(m: Players, id: string, row: Row, other: string)
    requires UniqueIds(m)
    ensures Get(Put(m, id, row), other) == if other == id then Some(row) else Get(m, other)
  {
    PutGet(m, id, row, other);
  }

  /** Setting an ID that is present keeps the IDs and their order. */
  lemma PutKeepsIds(m: Players, id: string, row: Row)
    requires UniqueIds(m) && Has(m, id)
    ensures Ids(Put(m, id, row)) == Ids(m)
  {
    PutGet(m, id, row, id);
    assert Ids(Put(m, id, row)) == Ids(Put(m, id, row))[..|m|];
  }

  /** Setting every pair of a list in order. */
  function PutAll(m: Players, pairs: seq<Entry>): (r: Players)
    requires UniqueIds(m)
    ensures UniqueIds(r)
    decreases |pairs|
  {
    if |pairs| == 0 then m
    else Put(PutAll(m, pairs[..|pairs| - 1]), pairs[|pairs| - 1].id, pairs[|pairs| - 1].row)
  }

  /** After setting a list of pairs, an ID holds the row of its last pair in
      the list, or its old row when the list does not mention it. */
  lemma {:induction false} PutAllLastWins(m: Players, pairs: seq<Entry>, id: string)
    requires UniqueIds(m)
    ensures (forall k :: 0 <= k < |pairs| ==> pairs[k].id != id) ==> Get(PutAll(m, pairs), id) == Get(m, id)
    ensures forall k :: 0 <= k < |pairs| && pairs[k].id == id
                        && (forall j :: k < j < |pairs| ==> pairs[j].id != id) ==>
              Get(PutAll(m, pairs), id) == Some(pairs[k].row)
    decreases |pairs|, 1
  {
    if |pairs| > 0 {
      PutAllLastWinsStep(m, pairs, id);
    }
  }

  lemma {:induction false} PutAllLastWinsStep(m: Players, pairs: seq<Entry>, id: string)
    requires UniqueIds(m) && |pairs| > 0
    ensures (forall k :: 0 <= k < |pairs| ==> pairs[k].id != id) ==> Get(PutAll(m, pairs), id) == Get(m, id)
    ensures forall k :: 0 <= k < |pairs| && pairs[k].id == id
                        && (forall j :: k < j < |pairs| ==> pairs[j].id != id) ==>
              Get(PutAll(m, pairs), id) == Some(pairs[k].row)
    decreases |pairs|, 0
  {
    var prefix := pairs[..|pairs| - 1];
    var last := pairs[|pairs| - 1];
    PutAllLastWins(m, prefix, id);
    PutRead(PutAll(m, prefix), last.id, last.row, id);
    assert PutAll(m, pairs) == Put(PutAll(m, prefix), last.id, last.row);
    forall k | 0 <= k < |pairs| && pairs[k].id == id && (forall j :: k < j < |pairs| ==> pairs[j].id != id)
      ensures Get(PutAll(m, pairs), id) == Some(pairs[k].row)
    {
      if k < |pairs| - 1 {
        assert prefix[k] == pairs[k];
        assert forall j :: k < j < |prefix| ==> prefix[j] == pairs[j];
      }
    }
    if forall k :: 0 <= k < |pairs| ==> pairs[k].id != id {
      assert forall k :: 0 <= k < |prefix| ==> prefix[k] == pairs[k];
    }
  }

  /** An ID is present after setting a list of pairs exactly when it was
      present before or the list mentions it. */
  lemma {:induction false} PutAllHas(m: Players, pairs: seq<Entry>, id: string)
    requires UniqueIds(m)
    ensures Has(PutAll(m, pairs), id) <==> Has(m, id) || exists k :: 0 <= k < |pairs| && pairs[k].id == id
    decreases |pairs|
  {
    if |pairs| > 0 {
      var prefix := pairs[..|pairs| - 1];
      var last := pairs[|pairs| - 1];
      PutAllHas(m, prefix, id);
      PutRead(PutAll(m, prefix), last.id, last.row, id);
      if exists k :: 0 <= k < |pairs| && pairs[k].id == id {
        var k :| 0 <= k < |pairs| && pairs[k].id == id;
        if k < |pairs| - 1 {
          assert prefix[k].id == id;
        }
      }
      if exists k :: 0 <= k < |prefix| && prefix[k].id == id {
        var k :| 0 <= k < |prefix| && prefix[k].id == id;
        assert pairs[k].id == id;
      }
    }
  }

  /** The row of the last pair for `id` in a list, if any. */
  function LastRow(pairs: seq<Entry>, id: string): (r: Option<Row>)
    ensures r.Some? <==> exists k :: 0 <= k < |pairs| && pairs[k].id == id
    decreases |pairs|
  {
    if |pairs| == 0 then None
    else if pairs[|pairs| - 1].id == id then Some(pairs[|pairs| - 1].row)
    else
      var r := LastRow(pairs[..|pairs| - 1], id);
      assert forall k :: 0 <= k < |pairs| - 1 ==> pairs[..|pairs| - 1][k] == pairs[k];
      r
  }

  /** Setting a list of pairs: an ID it mentions holds its last row, any
      other ID keeps what it had. */
  lemma {:induction false} PutAllGet(m: Players, pairs: seq<Entry>, id: string)
    requires UniqueIds(m)
    ensures Get(PutAll(m, pairs), id) == if LastRow(pairs, id).Some? then LastRow(pairs, id) else Get(m, id)
    decreases |pairs|
  {
    if |pairs| > 0 {
      var last := pairs[|pairs| - 1];
      PutAllGet(m, pairs[..|pairs| - 1], id);
      PutRead(PutAll(m, pairs[..|pairs| - 1]), last.id, last.row, id);
    }
  }

  /** In a map, the last pair for an ID is its only pair. */
  lemma {:induction false} LastRowOfMap(m: Players, id: string)
    requires UniqueIds(m)
    ensures LastRow(m, id) == Get(m, id)
    decreases |m|
  {
    if |m| > 0 {
      var p := m[..|m| - 1];
      LastRowOfMap(p, id);
      if m[|m| - 1].id == id {
        assert Find(m, id) == Some(|m| - 1);
      } else {
        match Find(p, id)
        case Some(k) =>
          assert p[k] == m[k];
          assert Find(m, id) == Some(k);
        case None =>
          assert !Has(m, id);
      }
    }
  }

  /** Setting two lists in turn is setting their concatenation. */
  lemma {:induction false} PutAllAppend(m: Players, a: seq<Entry>, b: seq<Entry>)
    requires UniqueIds(m)
    ensures PutAll(PutAll(m, a), b) == PutAll(m, a + b)
    decreases |b|
  {
    if |b| == 0 {
      assert a + b == a;
    } else {
      PutAllAppend(m, a, b[..|b| - 1]);
      assert (a + b)[..|a + b| - 1] == a + b[..|b| - 1];
      assert (a + b)[|a + b| - 1] == b[|b| - 1];
    }
  }

  /** Copying a map built from a list into another map gives every ID the
      row that setting the list itself would. */
  lemma CopyAgrees(m: Players, pairs: seq<Entry>, id: string)
    requires UniqueIds(m)
    ensures Get(PutAll(m, PutAll([], pairs)), id) == Get(PutAll(m, pairs), id)
  {
    var d := PutAll([], pairs);
    PutAllGet(m, d, id);
    PutAllGet(m, pairs, id);
    PutAllGet([], pairs, id);
    LastRowOfMap(d, id);
  }

  /** Two maps that agree on an ID still agree after the same pairs are set
      into both. */
  lemma PutAllAgrees(m1: Players, m2: Players, pairs: seq<Entry>, id: string)
    requires UniqueIds(m1) && UniqueIds(m2)
    requires Get(m1, id) == Get(m2, id)
    ensures Get(PutAll(m1, pairs), id) == Get(PutAll(m2, pairs), id)
  {
    PutAllGet(m1, pairs, id);
    PutAllGet(m2, pairs, id);
  }
}
