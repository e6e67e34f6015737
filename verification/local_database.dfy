/** The on-device store: two tables keyed by a text primary key,
    `test_ids` (id, created_at) and `scanned_qr_codes` (id, infected,
    scanned_at). Inserts refuse an id already present, deletes report
    "not found" when no row was removed, and listings come newest first. */
module LocalDatabase {

  /** The `{ success, message }` object every write returns. */
  datatype Response = Response(success: bool, message: string)

  /** A row of `test_ids`. */
  datatype IdRow = IdRow(id: string, createdAt: int)

  /** A row of `scanned_qr_codes`; `infected` is stored as an integer. */
  datatype QrRow = QrRow(id: string, infected: int, scannedAt: int)

  /** A scanned code as the listing hands it to the screens. */
  datatype QRCodeData = QRCodeData(id: string, infected: bool, scannedAt: int)

  function IdRowKey(r: IdRow): string { r.id }
  function QrRowKey(r: QrRow): string { r.id }
  function CreatedAt(r: IdRow): int { r.createdAt }
  function ScannedAt(r: QrRow): int { r.scannedAt }

  /** The boolean as written to the `infected` column. */
  function EncodeInfected(infected: bool): (v: int)
    ensures v == 0 || v == 1
    ensures v == 1 <==> infected
  {
    if infected then 1 else 0
  }

  /** The column read back: only 1 means infected. */
  function DecodeInfected(v: int): (infected: bool)
    ensures v == 0 || v == 1 ==> EncodeInfected(infected) == v
  {
    v == 1
  }

  lemma InfectedRoundTrip(infected: bool)
    ensures DecodeInfected(EncodeInfected(infected)) == infected
  {
  }

  // ----- keyed tables -----

  /** The primary key holds: no two rows share an id. */
  ghost predicate UniqueKeys<R>(rows: seq<R>, key: R -> string)
  {
    forall i, j :: 0 <= i < j < |rows| ==> key(rows[i]) != key(rows[j])
  }

  /** `SELECT id FROM ... WHERE id = ?` finds a row. */
  predicate Present<R>(rows: seq<R>, key: R -> string, id: string)
  {
    exists i :: 0 <= i < |rows| && key(rows[i]) == id
  }

  /** `DELETE FROM ... WHERE id = ?`: the table without the rows whose key
      is `id`, the rest in their order. */
  function DeleteWhere<R>(rows: seq<R>, key: R -> string, id: string): (r: seq<R>)
    ensures |r| <= |rows|
    ensures |r| == |rows| <==> !Present(rows, key, id)
    ensures forall i :: 0 <= i < |r| ==> r[i] in rows && key(r[i]) != id
    ensures forall i :: 0 <= i < |rows| && key(rows[i]) != id ==> rows[i] in r
  {
    if rows == [] then []
    else
      var rest := DeleteWhere(rows[1..], key, id);
      assert forall i :: 1 <= i < |rows| ==> rows[i] == rows[1..][i - 1];
      if key(rows[0]) == id then rest else [rows[0]] + rest
  }

  /** Under the primary key, a delete removes exactly one row when the id
      is present, and the key stays unique. */
  lemma {:induction false} DeleteWhereUnique<R>(rows: seq<R>, key: R -> string, id: string)
    requires UniqueKeys(rows, key)
    ensures |DeleteWhere(rows, key, id)| == if Present(rows, key, id) then |rows| - 1 else |rows|
    ensures UniqueKeys(DeleteWhere(rows, key, id), key)
  {
    if rows != [] {
      var tail := rows[1..];
      assert forall i :: 1 <= i < |rows| ==> rows[i] == tail[i - 1];
      assert UniqueKeys(tail, key);
      DeleteWhereUnique(tail, key, id);
      var rest := DeleteWhere(tail, key, id);
      if key(rows[0]) == id {
        assert !Present(tail, key, id);
      } else {
        assert Present(rows, key, id) <==> Present(tail, key, id);
        forall i | 0 <= i < |rest| ensures key(rest[i]) != key(rows[0]) {
          var j :| 0 <= j < |tail| && tail[j] == rest[i];
          assert rows[j + 1] == rest[i];
        }
      }
    }
  }

  /** Appending a row whose key is absent keeps the key unique. */
  lemma InsertKeepsKeysUnique<R>(rows: seq<R>, key: R -> string, row: R)
    requires UniqueKeys(rows, key) && !Present(rows, key, key(row))
    ensures UniqueKeys(rows + [row], key) && Present(rows + [row], key, key(row))
  {
    assert (rows + [row])[|rows|] == row;
  }

  // ----- ORDER BY ... DESC -----

  ghost predicate SortedDesc<R>(s: seq<R>, key: R -> int)
  {
    forall i, j :: 0 <= i < j < |s| ==> key(s[i]) >= key(s[j])
  }

  function InsertDesc<R>(x: R, s: seq<R>, key: R -> int): (r: seq<R>)
    requires SortedDesc(s, key)
    ensures SortedDesc(r, key)
    ensures multiset(r) == multiset(s) + multiset{x}
    ensures |r| == |s| + 1 && (r[0] == x || (|s| > 0 && r[0] == s[0]))
  {
    if s == [] || key(s[0]) <= key(x) then [x] + s
    else
      assert s == [s[0]] + s[1..];
      [s[0]] + InsertDesc(x, s[1..], key)
  }

  /** The rows ordered by `key`, largest first; rows with equal keys may
      come in any order, as SQL leaves them. */
  function SortDesc<R>(s: seq<R>, key: R -> int): (r: seq<R>)
    ensures SortedDesc(r, key)
    ensures multiset(r) == multiset(s)
    ensures |r| == |s|
  {
    if s == [] then []
    else
      assert s == [s[0]] + s[1..];
      InsertDesc(s[0], SortDesc(s[1..], key), key)
  }

  /** `getAllIds`: every row of `test_ids`, newest `created_at` first. */
  function GetAllIds(testIds: seq<IdRow>): (r: seq<IdRow>)
    ensures SortedDesc(r, CreatedAt)
    ensures multiset(r) == multiset(testIds)
  {
    SortDesc(testIds, CreatedAt)
  }

  function ToData(row: QrRow): QRCodeData
  {
    QRCodeData(row.id, DecodeInfected(row.infected), row.scannedAt)
  }

  /** `getAllScannedQRCodes`: every row of `scanned_qr_codes`, newest
      `scanned_at` first, with the stored integer read back as a boolean. */
  function GetAllScannedQRCodes(rows: seq<QrRow>): (r: seq<QRCodeData>)
    ensures |r| == |rows|
    ensures forall i, j :: 0 <= i < j < |r| ==> r[i].scannedAt >= r[j].scannedAt
    ensures forall i :: 0 <= i < |rows| ==> ToData(rows[i]) in r
    ensures forall i :: 0 <= i < |r| ==> exists j :: 0 <= j < |rows| && r[i] == ToData(rows[j])
  {
    var sorted := SortDesc(rows, ScannedAt);
    var r := seq(|sorted|, i requires 0 <= i < |sorted| => ToData(sorted[i]));
    ListingCoversRows(rows, sorted, r);
    r
  }

  /** A listing built from a reordering of the rows holds each row's data
      and nothing else. */
  lemma ListingCoversRows(rows: seq<QrRow>, sorted: seq<QrRow>, r: seq<QRCodeData>)
    requires multiset(sorted) == multiset(rows) && |r| == |sorted|
    requires forall i :: 0 <= i < |sorted| ==> r[i] == ToData(sorted[i])
    ensures forall i :: 0 <= i < |rows| ==> ToData(rows[i]) in r
    ensures forall i :: 0 <= i < |r| ==> exists j :: 0 <= j < |rows| && r[i] == ToData(rows[j])
  {
    forall i | 0 <= i < |rows| ensures ToData(rows[i]) in r {
      assert rows[i] in multiset(sorted);
      var k :| 0 <= k < |sorted| && sorted[k] == rows[i];
      assert r[k] == ToData(rows[i]);
    }
    forall i | 0 <= i < |r| ensures exists j :: 0 <= j < |rows| && r[i] == ToData(rows[j]) {
      assert sorted[i] in multiset(rows);
      var j :| 0 <= j < |rows| && rows[j] == sorted[i];
      assert r[i] == ToData(rows[j]);
    }
  }

  /** A code saved with a flag is listed back with that same flag. */
  lemma SavedScanIsListed(rows: seq<QrRow>, id: string, infected: bool, now: int)
    ensures QRCodeData(id, infected, now) in GetAllScannedQRCodes(rows + [QrRow(id, EncodeInfected(infected), now)])
  {
    var rows' := rows + [QrRow(id, EncodeInfected(infected), now)];
    assert ToData(rows'[|rows|]) == QRCodeData(id, infected, now);
  }

  /** The two tables, updated in place by the write helpers. */
  class Database {
    var testIds: seq<IdRow>
    var scannedQrCodes: seq<QrRow>

    ghost predicate Valid()
      reads this
    {
      && UniqueKeys(testIds, IdRowKey)
      && UniqueKeys(scannedQrCodes, QrRowKey)
      && forall i :: 0 <= i < |scannedQrCodes| ==> scannedQrCodes[i].infected in {0, 1}
    }

    /** `initDatabase` on a fresh device: both tables exist and are empty. */
    constructor ()
      ensures Valid() && testIds == [] && scannedQrCodes == []
    {
      testIds, scannedQrCodes := [], [];
    }

    /** `saveId`, with the clock reading `now`. */
    method SaveId(id: string, now: int) returns (r: Response)
      requires Valid()
      modifies this
      ensures Valid()
      ensures scannedQrCodes == old(scannedQrCodes)
      ensures r.success <==> !Present(old(testIds), IdRowKey, id)
      ensures r.success ==> r.message == "ID saved successfully!" && testIds == old(testIds) + [IdRow(id, now)]
      ensures !r.success ==> r.message == "ID already exists!" && testIds == old(testIds)
      ensures Present(testIds, IdRowKey, id)
    {
      if Present(testIds, IdRowKey, id) {
        return Response(false, "ID already exists!");
      }
      InsertKeepsKeysUnique(testIds, IdRowKey, IdRow(id, now));
      testIds := testIds + [IdRow(id, now)];
      return Response(true, "ID saved successfully!");
    }

    /** `deleteId`: failure exactly when the delete changed no row. */
    method DeleteId(id: string) returns (r: Response)
      requires Valid()
      modifies this
      ensures Valid()
      ensures scannedQrCodes == old(scannedQrCodes)
      ensures testIds == DeleteWhere(old(testIds), IdRowKey, id)
      ensures |testIds| == if r.success then |old(testIds)| - 1 else |old(testIds)|
      ensures r == if Present(old(testIds), IdRowKey, id) then Response(true, "ID deleted successfully!")
                   else Response(false, "ID not found!")
    {
      DeleteWhereUnique(testIds, IdRowKey, id);
      var before := |testIds|;
      testIds := DeleteWhere(testIds, IdRowKey, id);
      var changes := before - |testIds|;
      if changes == 0 {
        return Response(false, "ID not found!");
      }
      return Response(true, "ID deleted successfully!");
    }

    /** `saveScannedQRCode`, with the clock reading `now`. */
    method SaveScannedQRCode(id: string, infected: bool, now: int) returns (r: Response)
      requires Valid()
      modifies this
      ensures Valid()
      ensures testIds == old(testIds)
      ensures r.success <==> !Present(old(scannedQrCodes), QrRowKey, id)
      ensures r.success ==> (r.message == "QR Code scanned and saved successfully!"
                             && scannedQrCodes == old(scannedQrCodes) + [QrRow(id, EncodeInfected(infected), now)])
      ensures !r.success ==> r.message == "QR Code already scanned!" && scannedQrCodes == old(scannedQrCodes)
    {
      if Present(scannedQrCodes, QrRowKey, id) {
        return Response(false, "QR Code already scanned!");
      }
      var row := QrRow(id, EncodeInfected(infected), now);
      InsertKeepsKeysUnique(scannedQrCodes, QrRowKey, row);
      scannedQrCodes := scannedQrCodes + [row];
      return Response(true, "QR Code scanned and saved successfully!");
    }

    /** `deleteScannedQRCode`: failure exactly when the delete changed no row. */
    method DeleteScannedQRCode(id: string) returns (r: Response)
      requires Valid()
      modifies this
      ensures Valid()
      ensures testIds == old(testIds)
      ensures scannedQrCodes == DeleteWhere(old(scannedQrCodes), QrRowKey, id)
      ensures |scannedQrCodes| == if r.success then |old(scannedQrCodes)| - 1 else |old(scannedQrCodes)|
      ensures r == if Present(old(scannedQrCodes), QrRowKey, id)
                   then Response(true, "QR Code deleted successfully!")
                   else Response(false, "QR Code not found!")
    {
      DeleteWhereUnique(scannedQrCodes, QrRowKey, id);
      var before := |scannedQrCodes|;
      scannedQrCodes := DeleteWhere(scannedQrCodes, QrRowKey, id);
      var changes := before - |scannedQrCodes|;
      if changes == 0 {
        return Response(false, "QR Code not found!");
      }
      return Response(true, "QR Code deleted successfully!");
    }
  }
}
