# SurvivalKit crowd-report backend, modelled in Dafny

SurvivalKit lets phones report supply points ("places") and hazard zones
at GPS coordinates. The backend keeps every raw report in an append-only
log and promotes a report to a confirmed map entity unless a confirmed
entity of the same kind already lies near the report's grid cell. The
phone also keeps a small local SQLite store of test ids and scanned QR
codes.

This project models:

- **Grid cells** (`geocell.dfy`, module `GeoCell`). Coordinates are integers
  in micro-degrees. Rounding to three decimals, ties away from zero, becomes
  rounding to a multiple of 1000. The ±0.001° dedup window becomes ±1000.
- **Tables** (`schema.dfy`, module `Schema`). These are the record shapes of
  `places`, `hazards`, `placeReports` and `hazardReports`, documents with
  ids, the `by_cell` index lookup, lookup by id and hard delete.
- **Report handlers** (`reports.dfy`, module `Reports`).
  - The four tables as a value `Tables`.
  - One transition function per mutation (`ReportPlaceNext`,
    `ReportHazardNext`, `UpdateHazardNext`, `DeleteHazardNext`,
    `DeletePlaceNext`), plus `Step` and `Run` for sequences of mutations.
  - The class `ConvexDb`. Its methods perform each handler step by step:
    append the report, count the cell through `ByCell`, scan for a match
    with `FindFirst`, then insert, patch or delete. Each method is proved to
    make exactly the corresponding transition.
- **Laws** (`reports_laws.dfy`, module `ReportLaws`). These are the
  properties of the transitions:
  - the new report is always counted;
  - promotion therefore depends on dedup alone;
  - every report leaves a matching entity near its cell, so repeated
    reports add at most one entity;
  - the report logs only grow;
  - patch and delete touch only their target row;
  - a deleted hazard is recreated by the next report in its cell.
- **Map snapshot** (`map.dfy`, module `MapQuery`). `GetMapData` returns both
  confirmed tables in full. A report is always followed by an entity on
  the map within 0.0015° of the reported point.
- **Local store** (`local_database.dfy`, module `LocalDatabase`). The class
  `Database` holds the `test_ids` and `scanned_qr_codes` tables. Inserts
  refuse duplicates, deletes report "not found" from the change count,
  listings are sorted by timestamp, newest first, and the `infected` flag
  is stored as 1/0 and read back as `== 1`.

The handlers validate nothing. A place type is any string, and severity and
radius are any number. No invalid-argument error exists, and none is
modelled. The threshold is the constant 1, and the count is taken after the
new report is appended, so the count test always passes. The place-report
count covers place reports of every type in the cell. Place dedup compares
type and position; hazard dedup compares position only.

## Model

| member | source | states |
|---|---|---|
| `GeoCell.RoundCoordinate` | AMC-2025/convex/reports.ts:4-6 | the cell value is a multiple of 0.001° and lies within half a cell (0.0005°) of the input |
| `GeoCell.RoundCoordinateBucket` | AMC-2025/convex/reports.ts:4-6 | a coordinate rounds to `c` iff it lies in the bucket of `c`: a window of width one cell centred on `c`, closed towards zero (ties go away from zero) |
| `GeoCell.SameBucketSameKey` | AMC-2025/convex/reports.ts:16-17 | two coordinates in the same 0.001° bucket get the same cell key |
| `GeoCell.RoundCoordinateIdempotent` | AMC-2025/convex/reports.ts:4-6 | a cell value is a fixed point of the rounding: rounding it again gives it back |
| `GeoCell.RoundCoordinateMonotone` | AMC-2025/convex/reports.ts:4-6 | rounding never reorders two coordinates |
| `Schema.ByCell` | AMC-2025/convex/schema.ts:23-41 | the `by_cell` lookup returns the rows whose `cellLat`/`cellLong` equal the key, each exactly as many times as it occurs in the table and nothing else, so its length is the number of reports in the cell |
| `Schema.ByCellAppend` | AMC-2025/convex/reports.ts:19-35 | appending a report extends the lookup of a cell by that report iff it lies in that cell |
| `Schema.IndexOf` | AMC-2025/convex/reports.ts:178-182 | finds the first row with the given id, or reports that none exists |
| `Schema.AppendFreshDoc` | AMC-2025/convex/reports.ts:51-57 | inserting a row with the next id keeps the ids ascending, and the counter moves past every id |
| `Schema.DeleteDoc` | AMC-2025/convex/reports.ts:187-204 | `ctx.db.delete`: one row fewer when the id is present, the table unchanged when it is absent, and every row kept was in the table (exactness under distinct ids is `DeleteDocExact`) |
| `Schema.DeleteDocExact` | AMC-2025/convex/reports.ts:192 | with distinct ids, a hard delete removes exactly the row with that id, keeps the rest and their id order |
| `Reports.HazardName` | AMC-2025/convex/reports.ts:106-120 | `getHazardName`: the default "Zone très dangereuse" is given exactly to severities outside 1 to 4; the full table is `HazardNameTable` |
| `Reports.InBox` | AMC-2025/convex/reports.ts:43-46 | the dedup window holds exactly the points within 0.001° of the cell value on both axes, bounds included |
| `Reports.PlaceMatches` | AMC-2025/convex/reports.ts:40-47 | a place suppresses a new one iff it has the same type and lies within 0.001° of the cell value on both axes |
| `Reports.HazardMatches` | AMC-2025/convex/reports.ts:95-102 | a hazard suppresses a new one iff it lies within 0.001° of the cell value on both axes; its severity plays no part |
| `Reports.ReportPlaceNext` | AMC-2025/convex/reports.ts:15-58 | `reportPlace`: one report is appended after the old log, the hazard tables are untouched, and at most one place is appended after the old ones (which one, and when, is `ReportPlacePromotion`) |
| `Reports.ReportHazardNext` | AMC-2025/convex/reports.ts:70-151 | `reportHazard`: one report is appended after the old log, the place tables are untouched, and at most one hazard is appended after the old ones (which one, and when, is `ReportHazardPromotion`) |
| `Reports.UpdateHazardNext` | AMC-2025/convex/reports.ts:161-183 | `updateHazard`: only the hazards table changes, keeping its length and every id; an unknown id changes nothing (the fields patched are `UpdateHazardOnlyTarget`) |
| `Reports.DeleteHazardNext` | AMC-2025/convex/reports.ts:191-193 | `deleteHazard`: only the hazards table changes, losing one row when the id is present; an unknown id changes nothing |
| `Reports.DeletePlaceNext` | AMC-2025/convex/reports.ts:201-203 | `deletePlace`: only the places table changes, losing one row when the id is present; an unknown id changes nothing |
| `Reports.FindFirst` | AMC-2025/convex/reports.ts:38-49 | `.filter().first()`: returns nothing iff no row matches, otherwise the first matching row |
| `Reports.ConvexDb.constructor` | AMC-2025/convex/schema.ts:3-42 | a new store has four empty tables |
| `Reports.ConvexDb.ReportPlace` | AMC-2025/convex/reports.ts:8-60 | the append/count/dedup/insert steps make exactly the `reportPlace` transition and keep ids distinct |
| `Reports.ConvexDb.ReportHazard` | AMC-2025/convex/reports.ts:62-152 | the append/count/dedup/insert steps make exactly the `reportHazard` transition and keep ids distinct |
| `Reports.ConvexDb.UpdateHazard` | AMC-2025/convex/reports.ts:155-184 | patches name, severity and radius of the hazard; an unknown id fails with nothing changed |
| `Reports.ConvexDb.DeleteHazard` | AMC-2025/convex/reports.ts:187-194 | hard-deletes the hazard; an unknown id fails with nothing changed |
| `Reports.ConvexDb.DeletePlace` | AMC-2025/convex/reports.ts:197-204 | hard-deletes the place; an unknown id fails with nothing changed |
| `ReportLaws.PlaceReportIsCounted` | AMC-2025/convex/reports.ts:29-36 | the cell's place-report count grows by one, so it always reaches the threshold 1 |
| `ReportLaws.HazardReportIsCounted` | AMC-2025/convex/reports.ts:84-91 | the cell's hazard-report count grows by one, so it always reaches the threshold 1 |
| `ReportLaws.ReportPlacePromotion` | AMC-2025/convex/reports.ts:19-58 | exactly one report row (type, exact point, cell, time, reporter) is appended. A place named `type + " (confirmé)"` with the exact point is created iff no place of the same type lies in the cell's window. Hazard tables are unchanged |
| `ReportLaws.ReportHazardPromotion` | AMC-2025/convex/reports.ts:74-137 | exactly one report row (severity, no radius) is appended. A hazard is created iff no hazard of any severity lies in the window. It copies the point, radius and severity and is named `HazardName(severity)`. Place tables are unchanged |
| `ReportLaws.PointInOwnBox` | AMC-2025/convex/reports.ts:43-46 | a submitted point lies in the dedup window of its own cell |
| `ReportLaws.ReportPlaceLeavesMatch` | AMC-2025/convex/reports.ts:38-57 | after a place report, a place of that type lies in the window of its cell |
| `ReportLaws.ReportHazardLeavesMatch` | AMC-2025/convex/reports.ts:93-137 | after a hazard report, a hazard lies in the window of its cell |
| `ReportLaws.RepeatedPlaceReportsAddAtMostOne` | AMC-2025/convex/reports.ts:38-57 | any number of same-type reports rounding to one cell add one place if none was in the window, else none |
| `ReportLaws.RepeatedHazardReportsAddAtMostOne` | AMC-2025/convex/reports.ts:93-137 | any number of hazard reports rounding to one cell, of any severities, add one hazard if none was in the window, else none |
| `ReportLaws.StepKeepsReports` | AMC-2025/convex/reports.ts:8-204 | no mutation removes or rewrites a report row: each log before is a prefix of the log after |
| `ReportLaws.ReportLogsOnlyGrow` | AMC-2025/convex/reports.ts:8-204 | over any sequence of mutations the report logs are append-only |
| `ReportLaws.StepWellFormed` | AMC-2025/convex/reports.ts:8-204 | every mutation keeps confirmed ids distinct, in creation order and below the next id; ids from one shared counter are this model's stand-in for Convex `_id` (see Left out) |
| `ReportLaws.RunWellFormed` | AMC-2025/convex/reports.ts:51-57 | the id invariant holds after any sequence of mutations |
| `ReportLaws.UpdateHazardOnlyTarget` | AMC-2025/convex/reports.ts:178-182 | only the target hazard changes, and only its name (`HazardName(severity)`), severity and radius. Its id, coordinates and `createAt`, all other rows and both logs are unchanged |
| `ReportLaws.DeleteHazardOnlyTarget` | AMC-2025/convex/reports.ts:192 | the hazards after are those before minus the one with that id; everything else is unchanged |
| `ReportLaws.DeletePlaceOnlyTarget` | AMC-2025/convex/reports.ts:202 | the places after are those before minus the one with that id; everything else is unchanged |
| `ReportLaws.DeleteHazardThenReportRecreates` | AMC-2025/convex/reports.ts:187-194 | when the deleted hazard was the only one in a cell's window, the next report in that cell creates a hazard again; earlier reports stay |
| `ReportLaws.HazardNameTable` | AMC-2025/convex/reports.ts:106-120 | 1 to 4 map to their names; 5 and every other value map to "Zone très dangereuse" (the copy at reports.ts:162-176 is the same table) |
| `ReportLaws.HazardNamesDistinct` | AMC-2025/convex/reports.ts:162-176 | the five severity levels have five distinct names |
| `ReportLaws.FirstHazardReportConfirmed` | AMC-2025/convex/reports.ts:62-137 | a first report at (45.5, -73.57), severity 3, radius 50 creates "Zone légèrement dangereuse" with radius 50 and severity 3 |
| `ReportLaws.FirstFoodReportConfirmed` | AMC-2025/convex/reports.ts:8-58 | a first food report at (45.1234, -73.5678) lands in cell (45.123, -73.568) and creates "food (confirmé)" at the exact point with id 0 |
| `ReportLaws.SecondFoodReportNoDuplicate` | AMC-2025/convex/reports.ts:8-58 | food at (45.1234, -73.5678) then (45.1236, -73.5679): the cells differ (45.123 vs 45.124), but the second report finds the first place and adds none |
| `MapQuery.GetMapData` | AMC-2025/convex/map.ts:3-11 | both confirmed tables are returned whole and in order: no filter, viewport or pagination, and the report logs are not read |
| `MapQuery.ReportedPlaceOnMap` | AMC-2025/convex/map.ts:6 | after a place report, the map lists a place of that type within 0.0015° of the point on each axis |
| `MapQuery.ReportedHazardOnMap` | AMC-2025/convex/map.ts:7 | after a hazard report, the map lists a hazard within 0.0015° of the point on each axis |
| `LocalDatabase.EncodeInfected` | AMC-2025/lib/database.ts:96-98 | the flag is stored as 1 when infected and 0 otherwise |
| `LocalDatabase.DecodeInfected` | AMC-2025/lib/database.ts:114 | `infected === 1`: on a stored 0 or 1, encoding the decoded flag gives the stored value back |
| `LocalDatabase.InfectedRoundTrip` | AMC-2025/lib/database.ts:114 | reading the stored value back as `=== 1` gives the original flag |
| `LocalDatabase.DeleteWhere` | AMC-2025/lib/database.ts:46 | DELETE removes the rows with that id and keeps the others; nothing changes iff the id is absent |
| `LocalDatabase.DeleteWhereUnique` | AMC-2025/lib/database.ts:44-52 | under the primary key a delete changes exactly one row when the id is present, zero otherwise, and keeps ids unique |
| `LocalDatabase.InsertKeepsKeysUnique` | AMC-2025/lib/database.ts:7-18 | inserting an absent id keeps at most one row per id, and the id is then present |
| `LocalDatabase.SortDesc` | AMC-2025/lib/database.ts:61 | `ORDER BY … DESC`: the result is sorted by the key, largest first, and is a permutation of the rows |
| `LocalDatabase.GetAllIds` | AMC-2025/lib/database.ts:58-68 | every `test_ids` row, exactly once, ordered by `created_at` descending |
| `LocalDatabase.GetAllScannedQRCodes` | AMC-2025/lib/database.ts:107-121 | one entry per stored row, ordered by `scanned_at` descending; each entry is a row with `infected` read as `=== 1` |
| `LocalDatabase.SavedScanIsListed` | AMC-2025/lib/database.ts:96-116 | a code saved with a flag is listed with that same flag and time |
| `LocalDatabase.Database.constructor` | AMC-2025/lib/database.ts:5-20 | on a fresh device both tables exist and are empty |
| `LocalDatabase.Database.SaveId` | AMC-2025/lib/database.ts:22-42 | a present id gives "ID already exists!" and no change. Otherwise exactly one row is appended with success. The id is present afterwards |
| `LocalDatabase.Database.DeleteId` | AMC-2025/lib/database.ts:44-56 | an absent id (zero changes) gives "ID not found!". Otherwise exactly that row is removed with success |
| `LocalDatabase.Database.SaveScannedQRCode` | AMC-2025/lib/database.ts:82-105 | a scanned id gives "QR Code already scanned!" and no change. Otherwise one row with the flag as 1/0 is appended |
| `LocalDatabase.Database.DeleteScannedQRCode` | AMC-2025/lib/database.ts:123-135 | an absent id gives "QR Code not found!". Otherwise exactly that row is removed |

## Left out

- Floating point: `Number(value.toFixed(3))` works on doubles, and the window bounds `cellLat ± 0.001` are float sums. Coordinates here are exact micro-degrees. Inputs finer than 1e-6°, and doubles just below a tie (such as 1.0005 stored as 1.000499…), are not modelled.
- Severity and radius are integers here. A fractional severity (such as 2.5, which gets the default name) and a fractional radius are not modelled.
- Clock readings: each `Date.now()` call is a parameter. The report's time is `reportedAt` and the confirmed entity's time is `confirmedAt`.
- Logging (`console.log`, `console.error`) is dropped.
- Convex system fields: only `_id` is modelled. It is a number from one counter shared by `places` and `hazards`. `_creationTime` is not modelled, and report rows carry no id because nothing reads one.
- A patch or delete of a missing id makes Convex throw and roll back. Here it returns `NotFound` with the tables unchanged.
- Concurrency: each mutation is one atomic step. Races between mutations on neighbouring cells are not modelled.
- `database.ts`:
  - the `catch` branches that turn SQLite exceptions into `Error: …` messages are not modelled;
  - `getAllIds`/`getAllScannedQRCodes` returning `[]` on an exception is not modelled;
  - `initDatabase` on a device whose tables already exist is not modelled (the constructor is a fresh device);
  - `generateRandomId` uses `Math.random` and is not modelled.
- The getters read the table as a value passed in, not the `Database` object.
- Not part of this model: the haversine distance and zombie alert (`ZombieWatcher.tsx`), `offsetCoordinates` and `cn` (`lib/utils.ts`), the chat relay (`convex/chat.ts`), the place-type icon table (`constants.ts`), and all screens and app setup.
