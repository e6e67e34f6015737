/** What the report handlers promise: the new report is always counted, so
    promotion depends on dedup alone; a report always leaves a matching
    confirmed entity near its cell, so repeated reports add at most one;
    the report logs only grow; patch and delete touch only their row. */
module ReportLaws {
  import opened GeoCell
  import opened Schema
  import opened Reports

  /** The freshly appended place report is found by the `by_cell` lookup of
      its own cell, so the count reaches the threshold on every call. */
  lemma PlaceReportIsCounted(t: Tables, placeType: string, latitude: Coord, longitude: Coord,
                             reporterId: string, reportedAt: Timestamp, confirmedAt: Timestamp)
    ensures var t' := ReportPlaceNext(t, placeType, latitude, longitude, reporterId, reportedAt, confirmedAt);
            var key := CellKey(RoundCoordinate(latitude), RoundCoordinate(longitude));
            && |ByCell(t'.placeReports, PlaceReportCell, key)| == |ByCell(t.placeReports, PlaceReportCell, key)| + 1
            && |ByCell(t'.placeReports, PlaceReportCell, key)| >= Threshold
  {
    var key := CellKey(RoundCoordinate(latitude), RoundCoordinate(longitude));
    var row := PlaceReport(placeType, latitude, longitude, key.cellLat, key.cellLong, reportedAt, reporterId);
    ByCellAppend(t.placeReports, PlaceReportCell, key, row);
  }

  lemma HazardReportIsCounted(t: Tables, latitude: Coord, longitude: Coord, radiusMeters: int,
                              severity: int, reporterId: string, reportedAt: Timestamp,
                              confirmedAt: Timestamp)
    ensures var t' := ReportHazardNext(t, latitude, longitude, radiusMeters, severity, reporterId,
                                       reportedAt, confirmedAt);
            var key := CellKey(RoundCoordinate(latitude), RoundCoordinate(longitude));
            && |ByCell(t'.hazardReports, HazardReportCell, key)| == |ByCell(t.hazardReports, HazardReportCell, key)| + 1
            && |ByCell(t'.hazardReports, HazardReportCell, key)| >= Threshold
  {
    var key := CellKey(RoundCoordinate(latitude), RoundCoordinate(longitude));
    var row := HazardReport(severity, latitude, longitude, key.cellLat, key.cellLong, reportedAt, reporterId);
    ByCellAppend(t.hazardReports, HazardReportCell, key, row);
  }

  /** Promotion law for places: exactly one report row is appended, and a
      place named after its type, at the exact submitted point, is created
      iff no place of the same type lies in the window of the cell. The
      hazard tables are untouched. */
  lemma ReportPlacePromotion(t: Tables, placeType: string, latitude: Coord, longitude: Coord,
                             reporterId: string, reportedAt: Timestamp, confirmedAt: Timestamp)
    ensures var t' := ReportPlaceNext(t, placeType, latitude, longitude, reporterId, reportedAt, confirmedAt);
            var cellLat, cellLong := RoundCoordinate(latitude), RoundCoordinate(longitude);
            && t'.placeReports == t.placeReports
                 + [PlaceReport(placeType, latitude, longitude, cellLat, cellLong, reportedAt, reporterId)]
            && t'.hazards == t.hazards && t'.hazardReports == t.hazardReports
            && (if HasPlaceMatch(t.places, placeType, cellLat, cellLong)
                then t'.places == t.places && t'.nextId == t.nextId
                else (t'.nextId == t.nextId + 1
                      && t'.places == t.places
                           + [Doc(t.nextId, Place(placeType + " (confirmé)", placeType, latitude, longitude,
                                                  confirmedAt))]))
  {
    PlaceReportIsCounted(t, placeType, latitude, longitude, reporterId, reportedAt, confirmedAt);
  }

  /** Promotion law for hazards: any hazard in the window, whatever its
      severity, suppresses creation; otherwise the new hazard copies the
      submitted point, radius and severity and is named by severity. */
  lemma ReportHazardPromotion(t: Tables, latitude: Coord, longitude: Coord, radiusMeters: int,
                              severity: int, reporterId: string, reportedAt: Timestamp,
                              confirmedAt: Timestamp)
    ensures var t' := ReportHazardNext(t, latitude, longitude, radiusMeters, severity, reporterId,
                                       reportedAt, confirmedAt);
            var cellLat, cellLong := RoundCoordinate(latitude), RoundCoordinate(longitude);
            && t'.hazardReports == t.hazardReports
                 + [HazardReport(severity, latitude, longitude, cellLat, cellLong, reportedAt, reporterId)]
            && t'.places == t.places && t'.placeReports == t.placeReports
            && (if HasHazardMatch(t.hazards, cellLat, cellLong)
                then t'.hazards == t.hazards && t'.nextId == t.nextId
                else (t'.nextId == t.nextId + 1
                      && t'.hazards == t.hazards
                           + [Doc(t.nextId, Hazard(HazardName(severity), latitude, longitude,
                                                   radiusMeters, severity, confirmedAt))]))
  {
    HazardReportIsCounted(t, latitude, longitude, radiusMeters, severity, reporterId, reportedAt, confirmedAt);
  }

  /** A submitted point lies in the window of its own cell. */
  lemma PointInOwnBox(latitude: Coord, longitude: Coord)
    ensures InBox(latitude, longitude, RoundCoordinate(latitude), RoundCoordinate(longitude))
  {
  }

  /** After a place report, a place of that type lies in the window of the
      report's cell: either the one found, or the one just created. */
  lemma ReportPlaceLeavesMatch(t: Tables, placeType: string, latitude: Coord, longitude: Coord,
                               reporterId: string, reportedAt: Timestamp, confirmedAt: Timestamp)
    ensures HasPlaceMatch(ReportPlaceNext(t, placeType, latitude, longitude, reporterId, reportedAt, confirmedAt).places,
                          placeType, RoundCoordinate(latitude), RoundCoordinate(longitude))
  {
    var t' := ReportPlaceNext(t, placeType, latitude, longitude, reporterId, reportedAt, confirmedAt);
    var cellLat, cellLong := RoundCoordinate(latitude), RoundCoordinate(longitude);
    ReportPlacePromotion(t, placeType, latitude, longitude, reporterId, reportedAt, confirmedAt);
    if HasPlaceMatch(t.places, placeType, cellLat, cellLong) {
      var i :| 0 <= i < |t.places| && PlaceMatches(t.places[i].value, placeType, cellLat, cellLong);
      assert t'.places[i] == t.places[i];
    } else {
      PointInOwnBox(latitude, longitude);
      assert PlaceMatches(t'.places[|t.places|].value, placeType, cellLat, cellLong);
    }
  }

  lemma ReportHazardLeavesMatch(t: Tables, latitude: Coord, longitude: Coord, radiusMeters: int,
                                severity: int, reporterId: string, reportedAt: Timestamp,
                                confirmedAt: Timestamp)
    ensures HasHazardMatch(ReportHazardNext(t, latitude, longitude, radiusMeters, severity, reporterId,
                                            reportedAt, confirmedAt).hazards,
                           RoundCoordinate(latitude), RoundCoordinate(longitude))
  {
    var t' := ReportHazardNext(t, latitude, longitude, radiusMeters, severity, reporterId, reportedAt, confirmedAt);
    var cellLat, cellLong := RoundCoordinate(latitude), RoundCoordinate(longitude);
    ReportHazardPromotion(t, latitude, longitude, radiusMeters, severity, reporterId, reportedAt, confirmedAt);
    if HasHazardMatch(t.hazards, cellLat, cellLong) {
      var i :| 0 <= i < |t.hazards| && HazardMatches(t.hazards[i].value, cellLat, cellLong);
      assert t'.hazards[i] == t.hazards[i];
    } else {
      PointInOwnBox(latitude, longitude);
      assert HazardMatches(t'.hazards[|t.hazards|].value, cellLat, cellLong);
    }
  }

  /** Every op of `ops` reports a place of `placeType` in the cell
      (`cellLat`, `cellLong`). */
  predicate AllPlaceReportsIn(ops: seq<Op>, placeType: string, cellLat: Coord, cellLong: Coord)
  {
    forall i :: 0 <= i < |ops| ==>
      && ops[i].ReportPlace?
      && ops[i].placeType == placeType
      && RoundCoordinate(ops[i].latitude) == cellLat
      && RoundCoordinate(ops[i].longitude) == cellLong
  }

  /** Every op of `ops` reports a hazard in the cell (`cellLat`, `cellLong`). */
  predicate AllHazardReportsIn(ops: seq<Op>, cellLat: Coord, cellLong: Coord)
  {
    forall i :: 0 <= i < |ops| ==>
      && ops[i].ReportHazard?
      && RoundCoordinate(ops[i].latitude) == cellLat
      && RoundCoordinate(ops[i].longitude) == cellLong
  }

  /** Dedup idempotence for places: any number of reports of one type that
      round to one cell add one confirmed place if none of that type was in
      the window before, and none otherwise. */
  lemma {:induction false} RepeatedPlaceReportsAddAtMostOne(t: Tables, ops: seq<Op>, placeType: string,
                                                             cellLat: Coord, cellLong: Coord)
    requires AllPlaceReportsIn(ops, placeType, cellLat, cellLong)
    ensures |Run(t, ops).places|
         == |t.places| + (if ops == [] || HasPlaceMatch(t.places, placeType, cellLat, cellLong) then 0 else 1)
    ensures ops != [] ==> HasPlaceMatch(Run(t, ops).places, placeType, cellLat, cellLong)
    decreases |ops|
  {
    if ops != [] {
      var op := ops[0];
      var t1 := Step(t, op);
      ReportPlacePromotion(t, placeType, op.latitude, op.longitude, op.reporterId, op.reportedAt, op.confirmedAt);
      ReportPlaceLeavesMatch(t, placeType, op.latitude, op.longitude, op.reporterId, op.reportedAt, op.confirmedAt);
      assert AllPlaceReportsIn(ops[1..], placeType, cellLat, cellLong) by {
        forall i | 0 <= i < |ops[1..]| ensures ops[1..][i] == ops[i + 1] { }
      }
      RepeatedPlaceReportsAddAtMostOne(t1, ops[1..], placeType, cellLat, cellLong);
    }
  }

  /** Dedup idempotence for hazards: any number of hazard reports that round
      to one cell, of any severities, add one confirmed hazard if none was
      in the window before, and none otherwise. */
  lemma {:induction false} RepeatedHazardReportsAddAtMostOne(t: Tables, ops: seq<Op>,
                                                              cellLat: Coord, cellLong: Coord)
    requires AllHazardReportsIn(ops, cellLat, cellLong)
    ensures |Run(t, ops).hazards|
         == |t.hazards| + (if ops == [] || HasHazardMatch(t.hazards, cellLat, cellLong) then 0 else 1)
    ensures ops != [] ==> HasHazardMatch(Run(t, ops).hazards, cellLat, cellLong)
    decreases |ops|
  {
    if ops != [] {
      var op := ops[0];
      var t1 := Step(t, op);
      ReportHazardPromotion(t, op.latitude, op.longitude, op.radiusMeters, op.severity, op.reporterId,
                            op.reportedAt, op.confirmedAt);
      ReportHazardLeavesMatch(t, op.latitude, op.longitude, op.radiusMeters, op.severity, op.reporterId,
                              op.reportedAt, op.confirmedAt);
      assert AllHazardReportsIn(ops[1..], cellLat, cellLong) by {
        forall i | 0 <= i < |ops[1..]| ensures ops[1..][i] == ops[i + 1] { }
      }
      RepeatedHazardReportsAddAtMostOne(t1, ops[1..], cellLat, cellLong);
    }
  }

  /** No mutation removes or rewrites a report row: each report log of the
      state before is a prefix of the log after. */
  lemma StepKeepsReports(t: Tables, op: Op)
    ensures t.placeReports <= Step(t, op).placeReports
    ensures t.hazardReports <= Step(t, op).hazardReports
  {
  }

  /** The report logs are append-only over any run of mutations. */
  lemma {:induction false} ReportLogsOnlyGrow(t: Tables, ops: seq<Op>)
    ensures t.placeReports <= Run(t, ops).placeReports
    ensures t.hazardReports <= Run(t, ops).hazardReports
    decreases |ops|
  {
    if ops != [] {
      StepKeepsReports(t, ops[0]);
      ReportLogsOnlyGrow(Step(t, ops[0]), ops[1..]);
    }
  }

  /** Every mutation keeps confirmed ids distinct, ascending and below the
      next id. */
  lemma StepWellFormed(t: Tables, op: Op)
    requires WellFormed(t)
    ensures WellFormed(Step(t, op))
  {
    match op
    case ReportPlace(ty, lat, long, who, at, at2) =>
      var place := Place(ConfirmedName(ty), ty, lat, long, at2);
      AppendFreshDoc(t.places, t.nextId, place);
    case ReportHazard(lat, long, rad, sev, who, at, at2) =>
      var hazard := Hazard(HazardName(sev), lat, long, rad, sev, at2);
      AppendFreshDoc(t.hazards, t.nextId, hazard);
    case UpdateHazard(id, sev, rad) =>
      var t' := UpdateHazardNext(t, id, sev, rad);
      assert forall i :: 0 <= i < |t.hazards| ==> t'.hazards[i].id == t.hazards[i].id;
    case DeleteHazard(id) => DeleteDocExact(t.hazards, id, t.nextId);
    case DeletePlace(id) => DeleteDocExact(t.places, id, t.nextId);
  }

  lemma {:induction false} RunWellFormed(t: Tables, ops: seq<Op>)
    requires WellFormed(t)
    ensures WellFormed(Run(t, ops))
    decreases |ops|
  {
    if ops != [] {
      StepWellFormed(t, ops[0]);
      RunWellFormed(Step(t, ops[0]), ops[1..]);
    }
  }

  /** `updateHazard` sets exactly the name, severity and radius of the
      hazard with that id; its id, coordinates and creation time, every
      other hazard, the places and both report logs are unchanged. An
      unknown id changes nothing. */
  lemma UpdateHazardOnlyTarget(t: Tables, hazardId: Id, severity: int, radiusMeters: int)
    requires WellFormed(t)
    ensures var t' := UpdateHazardNext(t, hazardId, severity, radiusMeters);
            && t'.places == t.places && t'.nextId == t.nextId
            && t'.placeReports == t.placeReports && t'.hazardReports == t.hazardReports
            && |t'.hazards| == |t.hazards|
            && forall i :: 0 <= i < |t.hazards| ==>
                 var (was, now) := (t.hazards[i], t'.hazards[i]);
                 if was.id == hazardId then
                   now == Doc(was.id, Hazard(HazardName(severity), was.value.latitude, was.value.longitude,
                                             radiusMeters, severity, was.value.createAt))
                 else now == was
  {
  }

  /** `deleteHazard` removes exactly the row with that id and nothing else. */
  lemma DeleteHazardOnlyTarget(t: Tables, hazardId: Id)
    requires WellFormed(t)
    ensures var t' := DeleteHazardNext(t, hazardId);
            && (forall d :: d in t'.hazards <==> d in t.hazards && d.id != hazardId)
            && |t'.hazards| == (if HasId(t.hazards, hazardId) then |t.hazards| - 1 else |t.hazards|)
            && t'.places == t.places && t'.nextId == t.nextId
            && t'.placeReports == t.placeReports && t'.hazardReports == t.hazardReports
  {
    DeleteDocExact(t.hazards, hazardId, t.nextId);
  }

  /** `deletePlace` removes exactly the row with that id and nothing else. */
  lemma DeletePlaceOnlyTarget(t: Tables, placeId: Id)
    requires WellFormed(t)
    ensures var t' := DeletePlaceNext(t, placeId);
            && (forall d :: d in t'.places <==> d in t.places && d.id != placeId)
            && |t'.places| == (if HasId(t.places, placeId) then |t.places| - 1 else |t.places|)
            && t'.hazards == t.hazards && t'.nextId == t.nextId
            && t'.placeReports == t.placeReports && t'.hazardReports == t.hazardReports
  {
    DeleteDocExact(t.places, placeId, t.nextId);
  }

  /** Deletion is not evidence-aware: when the deleted hazard was the only
      one in the window of a cell, the next hazard report in that cell
      creates a hazard again, while the cell's earlier reports stay. */
  lemma DeleteHazardThenReportRecreates(t: Tables, hazardId: Id, latitude: Coord, longitude: Coord,
                                        radiusMeters: int, severity: int, reporterId: string,
                                        reportedAt: Timestamp, confirmedAt: Timestamp)
    requires WellFormed(t)
    requires forall i :: 0 <= i < |t.hazards| &&
               HazardMatches(t.hazards[i].value, RoundCoordinate(latitude), RoundCoordinate(longitude))
               ==> t.hazards[i].id == hazardId
    ensures var t1 := DeleteHazardNext(t, hazardId);
            var t2 := ReportHazardNext(t1, latitude, longitude, radiusMeters, severity, reporterId,
                                       reportedAt, confirmedAt);
            && |t2.hazards| == |t1.hazards| + 1
            && t2.hazards[|t1.hazards|].value
                 == Hazard(HazardName(severity), latitude, longitude, radiusMeters, severity, confirmedAt)
            && t.hazardReports < t2.hazardReports
  {
    var cellLat, cellLong := RoundCoordinate(latitude), RoundCoordinate(longitude);
    var t1 := DeleteHazardNext(t, hazardId);
    DeleteHazardOnlyTarget(t, hazardId);
    forall i | 0 <= i < |t1.hazards| ensures !HazardMatches(t1.hazards[i].value, cellLat, cellLong) {
      assert t1.hazards[i] in t1.hazards;
    }
    ReportHazardPromotion(t1, latitude, longitude, radiusMeters, severity, reporterId, reportedAt, confirmedAt);
  }

  /** The name table: severities 1 to 4 have their own names and every
      other value, 5 included, gets the name of the highest level. */
  lemma HazardNameTable(severity: int)
    ensures HazardName(1) == "Zone sécuritaire"
    ensures HazardName(2) == "Zone moins sécuritaire"
    ensures HazardName(3) == "Zone légèrement dangereuse"
    ensures HazardName(4) == "Zone moyennement dangereuse"
    ensures HazardName(5) == "Zone très dangereuse"
    ensures !(1 <= severity <= 4) ==> HazardName(severity) == "Zone très dangereuse"
  {
  }

  /** The five severity levels have five distinct names. */
  lemma HazardNamesDistinct(a: int, b: int)
    requires 1 <= a <= 5 && 1 <= b <= 5 && a != b
    ensures HazardName(a) != HazardName(b)
  {
  }

  /** A first hazard report at (45.5000, -73.5700) with severity 3 and
      radius 50 lands in cell (45.500, -73.570) and is confirmed at once. */
  lemma FirstHazardReportConfirmed()
    ensures var t := ReportHazardNext(NoTables, 45500000, -73570000, 50, 3, "device", 0, 0);
            && t.hazardReports[0].cellLat == 45500000 && t.hazardReports[0].cellLong == -73570000
            && t.hazards == [Doc(0, Hazard("Zone légèrement dangereuse", 45500000, -73570000, 50, 3, 0))]
  {
    ReportHazardPromotion(NoTables, 45500000, -73570000, 50, 3, "device", 0, 0);
  }

  /** The first food report at (45.1234, -73.5678) lands in cell
      (45.123, -73.568) and is confirmed at once. */
  lemma FirstFoodReportConfirmed()
    ensures ReportPlaceNext(NoTables, "food", 45123400, -73567800, "a", 0, 0)
         == Tables([Doc(0, Place("food (confirmé)", "food", 45123400, -73567800, 0))], [],
                   [PlaceReport("food", 45123400, -73567800, 45123000, -73568000, 0, "a")], [], 1)
  {
    assert RoundCoordinate(45123400) == 45123000 && RoundCoordinate(-73567800) == -73568000;
    assert "food" + " (confirmé)" == "food (confirmé)";
    ReportPlacePromotion(NoTables, "food", 45123400, -73567800, "a", 0, 0);
  }

  /** Food reports at (45.1234, -73.5678) and then (45.1236, -73.5679)
      fall in neighbouring cells, 45.123 and 45.124, yet the second finds
      the first place in its window and creates no duplicate. */
  lemma SecondFoodReportNoDuplicate()
    ensures var t1 := ReportPlaceNext(NoTables, "food", 45123400, -73567800, "a", 0, 0);
            var t2 := ReportPlaceNext(t1, "food", 45123600, -73567900, "b", 1, 1);
            && t2.placeReports[0].cellLat == 45123000 && t2.placeReports[1].cellLat == 45124000
            && t2.placeReports[0].cellLong == t2.placeReports[1].cellLong == -73568000
            && t2.places == [Doc(0, Place("food (confirmé)", "food", 45123400, -73567800, 0))]
  {
    assert RoundCoordinate(45123600) == 45124000 && RoundCoordinate(-73567900) == -73568000;
    FirstFoodReportConfirmed();
    var t1 := ReportPlaceNext(NoTables, "food", 45123400, -73567800, "a", 0, 0);
    assert PlaceMatches(t1.places[0].value, "food", 45124000, -73568000);
    assert HasPlaceMatch(t1.places, "food", 45124000, -73568000);
    ReportPlacePromotion(t1, "food", 45123600, -73567900, "b", 1, 1);
  }
}
