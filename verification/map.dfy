/** The map snapshot query: both confirmed tables, read in full. */
module MapQuery {
  import opened GeoCell
  import opened Schema
  import opened Reports
  import opened ReportLaws

  /** What the map receives: every confirmed place and every confirmed
      hazard, side by side. */
  datatype MapData = MapData(places: seq<Doc<Place>>, hazards: seq<Doc<Hazard>>)

  /** `getMapData`: a read of the two confirmed tables with no filtering,
      no viewport and no pagination; the report logs are not read. */
  function GetMapData(t: Tables): (r: MapData)
    ensures |r.places| == |t.places| && |r.hazards| == |t.hazards|
    ensures forall i :: 0 <= i < |t.places| ==> r.places[i] == t.places[i]
    ensures forall i :: 0 <= i < |t.hazards| ==> r.hazards[i] == t.hazards[i]
  {
    MapData(t.places, t.hazards)
  }

  /** After a place report at a point, the map shows a place of that type
      within 0.0015 degree of the point on each axis: within one cell width
      of the cell value, which is within half a cell of the point. */
  lemma ReportedPlaceOnMap(t: Tables, placeType: string, latitude: Coord, longitude: Coord,
                           reporterId: string, reportedAt: Timestamp, confirmedAt: Timestamp)
    ensures var shown := GetMapData(ReportPlaceNext(t, placeType, latitude, longitude, reporterId,
                                                    reportedAt, confirmedAt)).places;
            exists i :: 0 <= i < |shown| && shown[i].value.placeType == placeType
                          && Abs(shown[i].value.latitude - latitude) <= CellSize + HalfCell
                          && Abs(shown[i].value.longitude - longitude) <= CellSize + HalfCell
  {
    var t' := ReportPlaceNext(t, placeType, latitude, longitude, reporterId, reportedAt, confirmedAt);
    ReportPlaceLeavesMatch(t, placeType, latitude, longitude, reporterId, reportedAt, confirmedAt);
    var cellLat, cellLong := RoundCoordinate(latitude), RoundCoordinate(longitude);
    var i :| 0 <= i < |t'.places| && PlaceMatches(t'.places[i].value, placeType, cellLat, cellLong);
    assert GetMapData(t').places[i] == t'.places[i];
  }

  /** After a hazard report at a point, the map shows a hazard within
      0.0015 degree of the point on each axis. */
  lemma ReportedHazardOnMap(t: Tables, latitude: Coord, longitude: Coord, radiusMeters: int,
                            severity: int, reporterId: string, reportedAt: Timestamp,
                            confirmedAt: Timestamp)
    ensures var shown := GetMapData(ReportHazardNext(t, latitude, longitude, radiusMeters, severity,
                                                     reporterId, reportedAt, confirmedAt)).hazards;
            exists i :: 0 <= i < |shown|
                          && Abs(shown[i].value.latitude - latitude) <= CellSize + HalfCell
                          && Abs(shown[i].value.longitude - longitude) <= CellSize + HalfCell
  {
    var t' := ReportHazardNext(t, latitude, longitude, radiusMeters, severity, reporterId, reportedAt, confirmedAt);
    ReportHazardLeavesMatch(t, latitude, longitude, radiusMeters, severity, reporterId, reportedAt, confirmedAt);
    var cellLat, cellLong := RoundCoordinate(latitude), RoundCoordinate(longitude);
    var i :| 0 <= i < |t'.hazards| && HazardMatches(t'.hazards[i].value, cellLat, cellLong);
    assert GetMapData(t').hazards[i] == t'.hazards[i];
  }
}
