/** Crowd-report ingestion: the report handlers append raw evidence to a
    report log, count the reports of the cell through the `by_cell` index,
    look for a confirmed entity near the cell, and promote the report to a
    confirmed place or hazard when the count reaches the threshold and
    nothing was found. Confirmed hazards can be patched; confirmed places
    and hazards can be deleted.

    The four tables are first described as a value (`Tables`) with one
    transition function per handler; the class `ConvexDb` then performs
    each handler step by step and is proved to make that transition. */
module Reports {
  import opened GeoCell
  import opened Schema

  /** Reports needed in a cell before an entity is confirmed. */
  const Threshold: int := 1

  /** The display name of a hazard zone, by severity; every value other
      than 1 to 4 (5 included) falls to the last entry. */
  function HazardName(severity: int): (name: string)
    ensures name == "Zone très dangereuse" <==> !(1 <= severity <= 4)
  {
    match severity
    case 1 => "Zone sécuritaire"
    case 2 => "Zone moins sécuritaire"
    case 3 => "Zone légèrement dangereuse"
    case 4 => "Zone moyennement dangereuse"
    case _ => "Zone très dangereuse"
  }

  /** The name given to a place confirmed from reports of `placeType`. */
  function ConfirmedName(placeType: string): string
  {
    placeType + " (confirmé)"
  }

  /** The dedup window: within one cell width of the cell value on both
      axes, bounds included. */
  predicate InBox(latitude: Coord, longitude: Coord, cellLat: Coord, cellLong: Coord): (r: bool)
    ensures r <==> Abs(latitude - cellLat) <= CellSize && Abs(longitude - cellLong) <= CellSize
  {
    && cellLat - CellSize <= latitude <= cellLat + CellSize
    && cellLong - CellSize <= longitude <= cellLong + CellSize
  }

  /** A confirmed place suppresses a new one when it has the same type and
      lies in the window. */
  predicate PlaceMatches(p: Place, placeType: string, cellLat: Coord, cellLong: Coord): (r: bool)
    ensures r <==> p.placeType == placeType
                   && Abs(p.latitude - cellLat) <= CellSize && Abs(p.longitude - cellLong) <= CellSize
  {
    p.placeType == placeType && InBox(p.latitude, p.longitude, cellLat, cellLong)
  }

  /** Any confirmed hazard in the window suppresses a new one, whatever its
      severity. */
  predicate HazardMatches(h: Hazard, cellLat: Coord, cellLong: Coord): (r: bool)
    ensures r <==> Abs(h.latitude - cellLat) <= CellSize && Abs(h.longitude - cellLong) <= CellSize
  {
    InBox(h.latitude, h.longitude, cellLat, cellLong)
  }

  predicate HasPlaceMatch(places: seq<Doc<Place>>, placeType: string, cellLat: Coord, cellLong: Coord)
  {
    exists i :: 0 <= i < |places| && PlaceMatches(places[i].value, placeType, cellLat, cellLong)
  }

  predicate HasHazardMatch(hazards: seq<Doc<Hazard>>, cellLat: Coord, cellLong: Coord)
  {
    exists i :: 0 <= i < |hazards| && HazardMatches(hazards[i].value, cellLat, cellLong)
  }

  // ----- the four tables as a value -----

  datatype Tables = Tables(
    places: seq<Doc<Place>>,
    hazards: seq<Doc<Hazard>>,
    placeReports: seq<PlaceReport>,
    hazardReports: seq<HazardReport>,
    nextId: Id)

  /** Ids of confirmed rows are distinct, in creation order, and below the
      next id to be handed out. */
  ghost predicate WellFormed(t: Tables)
  {
    && IdsAscending(t.places) && IdsBelow(t.places, t.nextId)
    && IdsAscending(t.hazards) && IdsBelow(t.hazards, t.nextId)
  }

  const NoTables := Tables([], [], [], [], 0)

  /** The transition of `reportPlace`. The count is taken after the new
      report is appended and over place reports of every type. */
  function ReportPlaceNext(t: Tables, placeType: string, latitude: Coord, longitude: Coord,
                           reporterId: string, reportedAt: Timestamp, confirmedAt: Timestamp): (r: Tables)
    ensures r.hazards == t.hazards && r.hazardReports == t.hazardReports
    ensures |r.placeReports| == |t.placeReports| + 1 && r.placeReports[..|t.placeReports|] == t.placeReports
    ensures |t.places| <= |r.places| <= |t.places| + 1 && r.places[..|t.places|] == t.places
  {
    var cellLat := RoundCoordinate(latitude);
    var cellLong := RoundCoordinate(longitude);
    var reports := t.placeReports
      + [PlaceReport(placeType, latitude, longitude, cellLat, cellLong, reportedAt, reporterId)];
    var count := |ByCell(reports, PlaceReportCell, CellKey(cellLat, cellLong))|;
    if count >= Threshold && !HasPlaceMatch(t.places, placeType, cellLat, cellLong) then
      var place := Place(ConfirmedName(placeType), placeType, latitude, longitude, confirmedAt);
      t.(placeReports := reports, places := t.places + [Doc(t.nextId, place)], nextId := t.nextId + 1)
    else
      t.(placeReports := reports)
  }

  /** The transition of `reportHazard`. The report keeps the severity but
      not the radius; a confirmed hazard copies both. */
  function ReportHazardNext(t: Tables, latitude: Coord, longitude: Coord, radiusMeters: int,
                            severity: int, reporterId: string, reportedAt: Timestamp,
                            confirmedAt: Timestamp): (r: Tables)
    ensures r.places == t.places && r.placeReports == t.placeReports
    ensures |r.hazardReports| == |t.hazardReports| + 1 && r.hazardReports[..|t.hazardReports|] == t.hazardReports
    ensures |t.hazards| <= |r.hazards| <= |t.hazards| + 1 && r.hazards[..|t.hazards|] == t.hazards
  {
    var cellLat := RoundCoordinate(latitude);
    var cellLong := RoundCoordinate(longitude);
    var reports := t.hazardReports
      + [HazardReport(severity, latitude, longitude, cellLat, cellLong, reportedAt, reporterId)];
    var count := |ByCell(reports, HazardReportCell, CellKey(cellLat, cellLong))|;
    if count >= Threshold && !HasHazardMatch(t.hazards, cellLat, cellLong) then
      var hazard := Hazard(HazardName(severity), latitude, longitude, radiusMeters, severity, confirmedAt);
      t.(hazardReports := reports, hazards := t.hazards + [Doc(t.nextId, hazard)], nextId := t.nextId + 1)
    else
      t.(hazardReports := reports)
  }

  /** The transition of `updateHazard`: name, severity and radius of the
      hazard are replaced; an unknown id aborts with nothing changed. */
  function UpdateHazardNext(t: Tables, hazardId: Id, severity: int, radiusMeters: int): (r: Tables)
    ensures r.places == t.places && r.placeReports == t.placeReports
    ensures r.hazardReports == t.hazardReports && r.nextId == t.nextId
    ensures |r.hazards| == |t.hazards| && forall i :: 0 <= i < |t.hazards| ==> r.hazards[i].id == t.hazards[i].id
    ensures !HasId(t.hazards, hazardId) ==> r == t
  {
    var k := IndexOf(t.hazards, hazardId);
    if k < 0 then t
    else
      var h := t.hazards[k].value;
      var patched := h.(name := HazardName(severity), severity := severity, radiusMeters := radiusMeters);
      t.(hazards := t.hazards[k := Doc(hazardId, patched)])
  }

  function DeleteHazardNext(t: Tables, hazardId: Id): (r: Tables)
    ensures r.places == t.places && r.placeReports == t.placeReports
    ensures r.hazardReports == t.hazardReports && r.nextId == t.nextId
    ensures |r.hazards| == if HasId(t.hazards, hazardId) then |t.hazards| - 1 else |t.hazards|
    ensures !HasId(t.hazards, hazardId) ==> r == t
  {
    t.(hazards := DeleteDoc(t.hazards, hazardId))
  }

  function DeletePlaceNext(t: Tables, placeId: Id): (r: Tables)
    ensures r.hazards == t.hazards && r.placeReports == t.placeReports
    ensures r.hazardReports == t.hazardReports && r.nextId == t.nextId
    ensures |r.places| == if HasId(t.places, placeId) then |t.places| - 1 else |t.places|
    ensures !HasId(t.places, placeId) ==> r == t
  {
    t.(places := DeleteDoc(t.places, placeId))
  }

  /** One call of a mutation, with the clock readings it takes. */
  datatype Op =
    | ReportPlace(placeType: string, latitude: Coord, longitude: Coord, reporterId: string,
                  reportedAt: Timestamp, confirmedAt: Timestamp)
    | ReportHazard(latitude: Coord, longitude: Coord, radiusMeters: int, severity: int,
                   reporterId: string, reportedAt: Timestamp, confirmedAt: Timestamp)
    | UpdateHazard(hazardId: Id, severity: int, radiusMeters: int)
    | DeleteHazard(hazardId: Id)
    | DeletePlace(placeId: Id)

  /** Each mutation runs atomically, as one step. */
  function Step(t: Tables, op: Op): Tables
  {
    match op
    case ReportPlace(ty, lat, long, who, at, at2) => ReportPlaceNext(t, ty, lat, long, who, at, at2)
    case ReportHazard(lat, long, rad, sev, who, at, at2) => ReportHazardNext(t, lat, long, rad, sev, who, at, at2)
    case UpdateHazard(id, sev, rad) => UpdateHazardNext(t, id, sev, rad)
    case DeleteHazard(id) => DeleteHazardNext(t, id)
    case DeletePlace(id) => DeletePlaceNext(t, id)
  }

  /** A sequence of mutations, one after another. */
  function Run(t: Tables, ops: seq<Op>): Tables
    decreases |ops|
  {
    if ops == [] then t else Run(Step(t, ops[0]), ops[1..])
  }

  // ----- the store, updated in place -----

  /** Result of a patch or delete: Convex fails the mutation when the id
      names no row. */
  datatype MutationResult = Done | NotFound

  /** `.filter(...).first()`: scans a table in order and returns the first
      row whose value satisfies `matches`. */
  method FindFirst<T>(docs: seq<Doc<T>>, matches: T -> bool) returns (found: Option<Doc<T>>)
    ensures found.None? <==> forall i :: 0 <= i < |docs| ==> !matches(docs[i].value)
    ensures found.Some? ==> exists k :: 0 <= k < |docs| && docs[k] == found.value && matches(docs[k].value)
                                         && forall j :: 0 <= j < k ==> !matches(docs[j].value)
  {
    var i := 0;
    while i < |docs|
      invariant 0 <= i <= |docs|
      invariant forall j :: 0 <= j < i ==> !matches(docs[j].value)
    {
      if matches(docs[i].value) {
        return Some(docs[i]);
      }
      i := i + 1;
    }
    return None;
  }

  class ConvexDb {
    var places: seq<Doc<Place>>
    var hazards: seq<Doc<Hazard>>
    var placeReports: seq<PlaceReport>
    var hazardReports: seq<HazardReport>
    var nextId: Id

    function State(): Tables
      reads this
    {
      Tables(places, hazards, placeReports, hazardReports, nextId)
    }

    ghost predicate Valid()
      reads this
    {
      WellFormed(State())
    }

    constructor ()
      ensures Valid() && State() == NoTables
    {
      places, hazards, placeReports, hazardReports, nextId := [], [], [], [], 0;
    }

    /** `reportPlace`. */
    method ReportPlace(placeType: string, latitude: Coord, longitude: Coord, reporterId: string,
                       reportedAt: Timestamp, confirmedAt: Timestamp)
      requires Valid()
      modifies this
      ensures Valid()
      ensures State() == ReportPlaceNext(old(State()), placeType, latitude, longitude,
                                         reporterId, reportedAt, confirmedAt)
    {
      var cellLat := RoundCoordinate(latitude);
      var cellLong := RoundCoordinate(longitude);
      placeReports := placeReports
        + [PlaceReport(placeType, latitude, longitude, cellLat, cellLong, reportedAt, reporterId)];
      var reports := ByCell(placeReports, PlaceReportCell, CellKey(cellLat, cellLong));
      var count := |reports|;
      var existing := FindFirst(places, p => PlaceMatches(p, placeType, cellLat, cellLong));
      if count >= Threshold && existing.None? {
        var place := Place(ConfirmedName(placeType), placeType, latitude, longitude, confirmedAt);
        AppendFreshDoc(places, nextId, place);
        places := places + [Doc(nextId, place)];
        nextId := nextId + 1;
      }
    }

    /** `reportHazard`. */
    method ReportHazard(latitude: Coord, longitude: Coord, radiusMeters: int, severity: int,
                        reporterId: string, reportedAt: Timestamp, confirmedAt: Timestamp)
      requires Valid()
      modifies this
      ensures Valid()
      ensures State() == ReportHazardNext(old(State()), latitude, longitude, radiusMeters,
                                          severity, reporterId, reportedAt, confirmedAt)
    {
      var cellLat := RoundCoordinate(latitude);
      var cellLong := RoundCoordinate(longitude);
      hazardReports := hazardReports
        + [HazardReport(severity, latitude, longitude, cellLat, cellLong, reportedAt, reporterId)];
      var reports := ByCell(hazardReports, HazardReportCell, CellKey(cellLat, cellLong));
      var count := |reports|;
      var existing := FindFirst(hazards, h => HazardMatches(h, cellLat, cellLong));
      if count >= Threshold && existing.None? {
        var hazard := Hazard(HazardName(severity), latitude, longitude, radiusMeters, severity, confirmedAt);
        AppendFreshDoc(hazards, nextId, hazard);
        hazards := hazards + [Doc(nextId, hazard)];
        nextId := nextId + 1;
      }
    }

    /** `updateHazard`. */
    method UpdateHazard(hazardId: Id, severity: int, radiusMeters: int) returns (r: MutationResult)
      requires Valid()
      modifies this
      ensures Valid()
      ensures r == if HasId(old(hazards), hazardId) then Done else NotFound
      ensures State() == UpdateHazardNext(old(State()), hazardId, severity, radiusMeters)
    {
      var k := IndexOf(hazards, hazardId);
      if k < 0 {
        return NotFound;
      }
      var h := hazards[k].value;
      hazards := hazards[k := Doc(hazardId, h.(name := HazardName(severity), severity := severity,
                                               radiusMeters := radiusMeters))];
      return Done;
    }

    /** `deleteHazard`. */
    method DeleteHazard(hazardId: Id) returns (r: MutationResult)
      requires Valid()
      modifies this
      ensures Valid()
      ensures r == if HasId(old(hazards), hazardId) then Done else NotFound
      ensures State() == DeleteHazardNext(old(State()), hazardId)
    {
      if !HasId(hazards, hazardId) {
        return NotFound;
      }
      DeleteDocExact(hazards, hazardId, nextId);
      hazards := DeleteDoc(hazards, hazardId);
      return Done;
    }

    /** `deletePlace`. */
    method DeletePlace(placeId: Id) returns (r: MutationResult)
      requires Valid()
      modifies this
      ensures Valid()
      ensures r == if HasId(old(places), placeId) then Done else NotFound
      ensures State() == DeletePlaceNext(old(State()), placeId)
    {
      if !HasId(places, placeId) {
        return NotFound;
      }
      DeleteDocExact(places, placeId, nextId);
      places := DeleteDoc(places, placeId);
      return Done;
    }
  }
}
