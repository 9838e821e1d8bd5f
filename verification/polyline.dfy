/** `Polyline` of 1_concepts/1_1_default_clone_copy/src/main.rs: a sequence of
    points that every constructor keeps at two points or more. Coordinates are
    only copied, never computed with, so `f32` is stood in for by `real`. */
module Polylines {
  import opened Base

  datatype Point = Point(x: real, y: real)

  datatype Polyline = Polyline(points: seq<Point>)

  const TOO_SHORT: string := "must have at least 2 points"

  /** What every constructor promises: a line has at least two points. */
  predicate Valid(l: Polyline)
  {
    |l.points| >= 2
  }

  /** `Polyline::new(p1, p2, rest)`: the two given points, then the rest. */
  function New(p1: Point, p2: Point, rest: seq<Point>): (r: Polyline)
    ensures Valid(r) && |r.points| == 2 + |rest|
    ensures r.points[0] == p1 && r.points[1] == p2 && r.points[2..] == rest
  {
    Polyline([p1, p2] + rest)
  }

  /** `TryFrom<Vec<Point>>`: rejects fewer than two points, otherwise keeps the
      vector as it is. */
  function TryFrom(v: seq<Point>): (r: Result<Polyline, string>)
    ensures r.Err? <==> |v| < 2
    ensures r.Err? ==> r.error == TOO_SHORT
    ensures r.Ok? ==> Valid(r.value) && r.value.points == v
  {
    if |v| < 2 then Err(TOO_SHORT) else Ok(Polyline(v))
  }

  /** `From<[Point; S]>`, which only exists for `S > 1`. */
  function FromArray(arr: seq<Point>): (r: Polyline)
    requires |arr| > 1
    ensures Valid(r) && r.points == arr
  {
    Polyline(arr)
  }

  /** The validating conversion accepts exactly what the array conversion
      accepts and builds the same line. */
  lemma TryFromAgreesWithFromArray(v: seq<Point>)
    ensures |v| > 1 ==> TryFrom(v) == Ok(FromArray(v))
    ensures |v| <= 1 ==> TryFrom(v).Err?
  {
  }

  /** Every valid line is accepted back by `try_from`, and a line made by
      `new` is one. */
  lemma TryFromAcceptsValid(l: Polyline, p1: Point, p2: Point, rest: seq<Point>)
    ensures Valid(l) ==> TryFrom(l.points) == Ok(l)
    ensures TryFrom(New(p1, p2, rest).points) == Ok(New(p1, p2, rest))
  {
  }

  /** The three lines `main` builds from the same two points are equal. */
  lemma MainLinesAgree()
    ensures FromArray([Point(0.0, 1.0), Point(1.0, 0.0)]) == New(Point(0.0, 1.0), Point(1.0, 0.0), [])
    ensures TryFrom([Point(0.0, 1.0), Point(1.0, 0.0)]) == Ok(New(Point(0.0, 1.0), Point(1.0, 0.0), []))
  {
  }
}
