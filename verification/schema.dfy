/** The record shapes of the four backend tables, documents with ids, and
    the `by_cell` index lookup of the two report tables. */
module Schema {
  import opened GeoCell

  datatype Option<T> = None | Some(value: T)

  /** A document id. Ids are handed out in creation order. */
  type Id = nat

  /** Milliseconds since the epoch, as the clock gives them. */
  type Timestamp = int

  /** A stored row together with its id. */
  datatype Doc<T> = Doc(id: Id, value: T)

  /** A confirmed supply point. It stores no cell key. */
  datatype Place = Place(
    name: string,
    placeType: string,
    latitude: Coord,
    longitude: Coord,
    createdAt: Timestamp)

  /** A confirmed hazard zone; the timestamp field is spelled `createAt`. */
  datatype Hazard = Hazard(
    name: string,
    latitude: Coord,
    longitude: Coord,
    radiusMeters: int,
    severity: int,
    createAt: Timestamp)

  /** Raw evidence for a place: the place type, no severity. */
  datatype PlaceReport = PlaceReport(
    placeType: string,
    latitude: Coord,
    longitude: Coord,
    cellLat: Coord,
    cellLong: Coord,
    createdAt: Timestamp,
    reporterId: string)

  /** Raw evidence for a hazard: the severity, no type and no radius. */
  datatype HazardReport = HazardReport(
    severity: int,
    latitude: Coord,
    longitude: Coord,
    cellLat: Coord,
    cellLong: Coord,
    createdAt: Timestamp,
    reporterId: string)

  /** The key of the `by_cell` index: the pair (cellLat, cellLong). */
  datatype CellKey = CellKey(cellLat: Coord, cellLong: Coord)

  function PlaceReportCell(r: PlaceReport): CellKey
  {
    CellKey(r.cellLat, r.cellLong)
  }

  function HazardReportCell(r: HazardReport): CellKey
  {
    CellKey(r.cellLat, r.cellLong)
  }

  /** The `by_cell` index lookup: the rows whose two cell fields equal the
      key, in table order, each as often as it occurs in the table, so the
      length of the result is the number of rows in the cell. */
  function ByCell<R>(rows: seq<R>, cellOf: R -> CellKey, key: CellKey): (r: seq<R>)
    ensures |r| <= |rows|
    ensures forall i :: 0 <= i < |r| ==> r[i] in rows && cellOf(r[i]) == key
    ensures forall i :: 0 <= i < |rows| && cellOf(rows[i]) == key ==> rows[i] in r
    ensures multiset(r) <= multiset(rows)
    ensures forall i :: 0 <= i < |rows| && cellOf(rows[i]) == key ==> multiset(r)[rows[i]] == multiset(rows)[rows[i]]
  {
    assert rows != [] ==> rows == [rows[0]] + rows[1..];
    if rows == [] then []
    else if cellOf(rows[0]) == key then [rows[0]] + ByCell(rows[1..], cellOf, key)
    else ByCell(rows[1..], cellOf, key)
  }

  /** Appending a row to a table extends its lookup by that row exactly
      when the row lies in the looked-up cell. */
  lemma {:induction false} ByCellAppend<R>(rows: seq<R>, cellOf: R -> CellKey, key: CellKey, x: R)
    ensures ByCell(rows + [x], cellOf, key)
         == ByCell(rows, cellOf, key) + (if cellOf(x) == key then [x] else [])
  {
    if rows == [] {
      assert rows + [x] == [x];
    } else {
      assert (rows + [x])[1..] == rows[1..] + [x];
      ByCellAppend(rows[1..], cellOf, key, x);
    }
  }

  // ----- documents and ids -----

  /** Ids strictly increase along a table (creation order). */
  ghost predicate IdsAscending<T>(docs: seq<Doc<T>>)
  {
    forall i, j :: 0 <= i < j < |docs| ==> docs[i].id < docs[j].id
  }

  /** Every id in the table was handed out before `next`. */
  ghost predicate IdsBelow<T>(docs: seq<Doc<T>>, next: Id)
  {
    forall i :: 0 <= i < |docs| ==> docs[i].id < next
  }

  /** A row inserted with the next id keeps the ids ascending, and the
      counter moves past it. */
  lemma AppendFreshDoc<T>(docs: seq<Doc<T>>, next: Id, v: T)
    requires IdsAscending(docs) && IdsBelow(docs, next)
    ensures IdsAscending(docs + [Doc(next, v)]) && IdsBelow(docs + [Doc(next, v)], next + 1)
  {
  }

  predicate HasId<T>(docs: seq<Doc<T>>, id: Id)
  {
    exists i :: 0 <= i < |docs| && docs[i].id == id
  }

  /** The position of the first document with the given id, or -1. */
  function IndexOf<T>(docs: seq<Doc<T>>, id: Id): (k: int)
    ensures -1 <= k < |docs|
    ensures k == -1 <==> !HasId(docs, id)
    ensures 0 <= k ==> docs[k].id == id && forall j :: 0 <= j < k ==> docs[j].id != id
  {
    if docs == [] then -1
    else if docs[0].id == id then 0
    else
      var k := IndexOf(docs[1..], id);
      assert forall j :: 0 < j < |docs| ==> docs[1..][j - 1] == docs[j];
      if k < 0 then -1 else k + 1
  }

  /** Hard delete of the document with the given id; a table without it is
      returned as it was. */
  function DeleteDoc<T>(docs: seq<Doc<T>>, id: Id): (r: seq<Doc<T>>)
    ensures |r| == if HasId(docs, id) then |docs| - 1 else |docs|
    ensures forall i :: 0 <= i < |r| ==> r[i] in docs
    ensures !HasId(docs, id) ==> r == docs
  {
    var k := IndexOf(docs, id);
    if k < 0 then docs else docs[..k] + docs[k + 1..]
  }

  /** In a table with distinct ids, deleting removes exactly the row with
      that id, keeps the order of the rest and keeps the ids ascending and
      below `next`. */
  lemma DeleteDocExact<T>(docs: seq<Doc<T>>, id: Id, next: Id)
    requires IdsAscending(docs)
    ensures forall d :: d in DeleteDoc(docs, id) <==> d in docs && d.id != id
    ensures |DeleteDoc(docs, id)| == if HasId(docs, id) then |docs| - 1 else |docs|
    ensures IdsAscending(DeleteDoc(docs, id))
    ensures IdsBelow(docs, next) ==> IdsBelow(DeleteDoc(docs, id), next)
  {
    var k := IndexOf(docs, id);
    if 0 <= k {
      DeleteAtMembers(docs, k);
      DeleteAtAscending(docs, k);
    }
  }

  /** Removing position `k` from a table with distinct ids keeps exactly
      the rows whose id differs from that of row `k`. */
  lemma DeleteAtMembers<T>(docs: seq<Doc<T>>, k: nat)
    requires IdsAscending(docs) && k < |docs|
    ensures forall d :: d in docs[..k] + docs[k + 1..] <==> d in docs && d.id != docs[k].id
  {
    var r := docs[..k] + docs[k + 1..];
    forall d | d in r ensures d in docs && d.id != docs[k].id {
      var i :| 0 <= i < |r| && r[i] == d;
      if i < k { assert docs[i] == d; } else { assert docs[i + 1] == d; }
    }
    forall d | d in docs && d.id != docs[k].id ensures d in r {
      var i :| 0 <= i < |docs| && docs[i] == d;
      if i < k { assert r[i] == d; } else { assert r[i - 1] == d; }
    }
  }

  /** Removing a position keeps ids ascending. */
  lemma DeleteAtAscending<T>(docs: seq<Doc<T>>, k: nat)
    requires IdsAscending(docs) && k < |docs|
    ensures IdsAscending(docs[..k] + docs[k + 1..])
  {
    var r := docs[..k] + docs[k + 1..];
    forall i, j | 0 <= i < j < |r| ensures r[i].id < r[j].id {
      var i', j' := if i < k then i else i + 1, if j < k then j else j + 1;
      assert r[i] == docs[i'] && r[j] == docs[j'];
    }
  }
}
