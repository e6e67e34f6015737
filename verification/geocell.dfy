/** Grid-cell keys for reported coordinates.

    Coordinates are fixed-point integers in micro-degrees (1e-6 degree), so
    the three-decimal rounding of the backend becomes rounding to a multiple
    of 1000, and its +-0.001 degree window becomes +-1000. */
module GeoCell {

  /** A latitude or longitude in micro-degrees. */
  type Coord = int

  /** 0.001 degree: the width of one grid cell. */
  const CellSize: int := 1000

  /** 0.0005 degree: half a cell. */
  const HalfCell: int := 500

  function Abs(x: int): (r: nat)
    ensures r == x || r == -x
  {
    if x < 0 then -x else x
  }

  /** Rounds a coordinate to three decimals, ties away from zero, as
      `Number(value.toFixed(3))` does: the magnitude is rounded half up and
      the sign put back. */
  function RoundCoordinate(v: Coord): (c: Coord)
    ensures c % CellSize == 0
    ensures Abs(c - v) <= HalfCell
  {
    var m := (Abs(v) + HalfCell) / CellSize * CellSize;
    if v < 0 then -m else m
  }

  /** An independent description of the bucket that rounds to the cell
      value `c`: a half-open window of width one cell centred on `c`,
      closed on the side towards zero; the bucket of 0 is open on both
      sides. */
  predicate InBucket(v: Coord, c: Coord)
  {
    && c % CellSize == 0
    && (if c > 0 then c - HalfCell <= v < c + HalfCell
        else if c < 0 then c - HalfCell < v <= c + HalfCell
        else -HalfCell < v < HalfCell)
  }

  /** Rounding to `c` happens exactly when `v` lies in the bucket of `c`. */
  lemma RoundCoordinateBucket(v: Coord, c: Coord)
    ensures RoundCoordinate(v) == c <==> InBucket(v, c)
  {
  }

  /** Two coordinates in the same bucket get the same key. */
  lemma SameBucketSameKey(a: Coord, b: Coord, c: Coord)
    requires InBucket(a, c) && InBucket(b, c)
    ensures RoundCoordinate(a) == RoundCoordinate(b) == c
  {
    RoundCoordinateBucket(a, c);
    RoundCoordinateBucket(b, c);
  }

  /** Rounding a cell value gives it back. */
  lemma RoundCoordinateIdempotent(v: Coord)
    ensures RoundCoordinate(RoundCoordinate(v)) == RoundCoordinate(v)
  {
    var c := RoundCoordinate(v);
    RoundCoordinateBucket(c, c);
  }

  /** Rounding never reorders two coordinates. */
  lemma RoundCoordinateMonotone(a: Coord, b: Coord)
    requires a <= b
    ensures RoundCoordinate(a) <= RoundCoordinate(b)
  {
  }
}
