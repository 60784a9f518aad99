/**
 * The cells that meet a box, found by flooding the grid from the box's middle
 * (`neighbors` and `hashesForBBox` of cpp/spatial/geohash.cpp).
 */
module GeohashCover {
  import opened Basics
  import opened Powers
  import opened Bisection
  import opened GeohashCells
  import opened Geohash
  import opened Geometry
  import opened Flood

  // ----- the eight neighbours

  /** The cell some columns and rows further, or at the edge of the grid. */
  function Step(n: nat, c: Cell, dx: int, dy: int): (r: Cell)
    ensures InGrid(n, r)
  {
    var r := Cell(Clamp(Columns(n), c.x + dx), Clamp(Rows(n), c.y + dy));
    GridSize(n, r);
    r
  }

  /** The place some lengths of a range away from its middle. */
  function Away(lo: real, hi: real, d: int): real {
    (lo + hi) / 2.0 + d as real * (hi - lo)
  }

  /** The code of the place some box lengths away from the middle of a box. */
  ghost function HashBeside(p: nat, box: BBox, dy: int, dx: int): (h: string)
    ensures |h| == p
  {
    HashAt(p, Away(box.minLat, box.maxLat, dy), Away(box.minLon, box.maxLon, dx))
  }

  lemma AwayIsStep(ax: Axis, k: nat, i: nat, d: int)
    requires ax.span > 0.0 && i < Pow2(k) && -1 <= d <= 1
    ensures IndexOf(ax, k, Away(Edge(ax, k, i), Edge(ax, k, i + 1), d)) == Clamp(k, i + d)
  {
    IndexOfStep(ax, k, i, d);
  }

  lemma CellBeside(n: nat, c: Cell, box: BBox, dy: int, dx: int)
    requires InGrid(n, c) && box == BoxOfCell(n, c) && -1 <= dy <= 1 && -1 <= dx <= 1
    ensures CellAt(n, Away(box.minLat, box.maxLat, dy), Away(box.minLon, box.maxLon, dx)) == Step(n, c, dx, dy)
  {
    GridSize(n, c);
    AwayIsStep(LON, Columns(n), c.x, dx);
    AwayIsStep(LAT, Rows(n), c.y, dy);
  }

  lemma BesideIsStep(h: string, dy: int, dx: int)
    requires IsHash(h) && -1 <= dy <= 1 && -1 <= dx <= 1
    ensures HashBeside(|h|, BoxOfHash(h).value, dy, dx) == HashOf(|h|, Step(5 * |h|, CellOfHash(h), dx, dy))
  {
    var box := BoxOfHash(h).value;
    BoxIsCell(h);
    CellBeside(5 * |h|, CellOfHash(h), box, dy, dx);
    HashNamesCell(|h|, Away(box.minLat, box.maxLat, dy), Away(box.minLon, box.maxLon, dx));
  }

  /** `encode` at a precision, as a function of the place. */
  ghost function Code(p: nat): (real, real) -> string {
    (lat: real, lon: real) => HashAt(p, lat, lon)
  }

  ghost predicate IsCode(p: nat, code: (real, real) -> string) {
    forall lat, lon {:trigger HashAt(p, lat, lon)} :: code(lat, lon) == HashAt(p, lat, lon)
  }

  lemma CodeIsCode(p: nat)
    ensures IsCode(p, Code(p))
  {
  }

  /** The codes around a place: north, then clockwise. */
  ghost function Around(code: (real, real) -> string, lat: real, lon: real, latStep: real, lonStep: real): seq<string> {
    [code(lat + latStep, lon), code(lat + latStep, lon + lonStep),
     code(lat, lon + lonStep), code(lat - latStep, lon + lonStep),
     code(lat - latStep, lon), code(lat - latStep, lon - lonStep),
     code(lat, lon - lonStep), code(lat + latStep, lon - lonStep)]
  }

  /** The codes around the middle of a box, a box length away. */
  ghost function AroundMiddle(code: (real, real) -> string, box: BBox): seq<string> {
    Around(code, (box.minLat + box.maxLat) / 2.0, (box.minLon + box.maxLon) / 2.0,
           box.maxLat - box.minLat, box.maxLon - box.minLon)
  }

  /** The neighbours of a code. */
  ghost function Beside(h: string): seq<string> {
    if !IsHash(h) then [] else AroundMiddle(Code(|h|), BoxOfHash(h).value)
  }

  /** Where the neighbour in a direction stands in the list. */
  function Place(dx: int, dy: int): nat {
    if dy > 0 then (if dx < 0 then 7 else if dx > 0 then 1 else 0)
    else if dy < 0 then (if dx < 0 then 5 else if dx > 0 then 3 else 4)
    else if dx > 0 then 2 else 6
  }

  lemma AroundHolds(code: (real, real) -> string, box: BBox, dx: int, dy: int)
    requires -1 <= dx <= 1 && -1 <= dy <= 1 && (dx, dy) != (0, 0)
    ensures |AroundMiddle(code, box)| == 8
    ensures AroundMiddle(code, box)[Place(dx, dy)] == code(Away(box.minLat, box.maxLat, dy), Away(box.minLon, box.maxLon, dx))
  {
    AwayBySign(box.minLat, box.maxLat);
    AwayBySign(box.minLon, box.maxLon);
  }

  lemma BesideHolds(h: string, dx: int, dy: int)
    requires IsHash(h) && -1 <= dx <= 1 && -1 <= dy <= 1 && (dx, dy) != (0, 0)
    ensures |Beside(h)| == 8 && Beside(h)[Place(dx, dy)] == HashBeside(|h|, BoxOfHash(h).value, dy, dx)
  {
    CodeIsCode(|h|);
    HoldsCode(|h|, Code(|h|), BoxOfHash(h).value, dx, dy);
  }

  lemma HoldsCode(p: nat, code: (real, real) -> string, box: BBox, dx: int, dy: int)
    requires IsCode(p, code) && -1 <= dx <= 1 && -1 <= dy <= 1 && (dx, dy) != (0, 0)
    ensures |AroundMiddle(code, box)| == 8 && AroundMiddle(code, box)[Place(dx, dy)] == HashBeside(p, box, dy, dx)
  {
    AroundHolds(code, box, dx, dy);
  }

  lemma AwayBySign(lo: real, hi: real)
    ensures Away(lo, hi, 0) == (lo + hi) / 2.0
    ensures Away(lo, hi, 1) == (lo + hi) / 2.0 + (hi - lo)
    ensures Away(lo, hi, -1) == (lo + hi) / 2.0 - (hi - lo)
  {
  }

  method EncodePlace(lat: real, lon: real, p: nat, ghost code: (real, real) -> string) returns (h: string)
    requires IsCode(p, code)
    ensures h == code(lat, lon)
  {
    var r := Encode(lat, lon, p);
    h := r.value;
  }

  /** North, north-east, east and south-east. */
  method EncodeEast(p: nat, lat: real, lon: real, latStep: real, lonStep: real, ghost code: (real, real) -> string)
    returns (r: seq<string>)
    requires IsCode(p, code)
    ensures r == [code(lat + latStep, lon), code(lat + latStep, lon + lonStep),
                  code(lat, lon + lonStep), code(lat - latStep, lon + lonStep)]
  {
    var n := EncodePlace(lat + latStep, lon, p, code);
    var ne := EncodePlace(lat + latStep, lon + lonStep, p, code);
    var e := EncodePlace(lat, lon + lonStep, p, code);
    var se := EncodePlace(lat - latStep, lon + lonStep, p, code);
    r := [n, ne, e, se];
  }

  /** South, south-west, west and north-west. */
  method EncodeWest(p: nat, lat: real, lon: real, latStep: real, lonStep: real, ghost code: (real, real) -> string)
    returns (r: seq<string>)
    requires IsCode(p, code)
    ensures r == [code(lat - latStep, lon), code(lat - latStep, lon - lonStep),
                  code(lat, lon - lonStep), code(lat + latStep, lon - lonStep)]
  {
    var s := EncodePlace(lat - latStep, lon, p, code);
    var sw := EncodePlace(lat - latStep, lon - lonStep, p, code);
    var w := EncodePlace(lat, lon - lonStep, p, code);
    var nw := EncodePlace(lat + latStep, lon - lonStep, p, code);
    r := [s, sw, w, nw];
  }

  method EncodeAround(p: nat, lat: real, lon: real, latStep: real, lonStep: real, ghost code: (real, real) -> string)
    returns (r: seq<string>)
    requires IsCode(p, code)
    ensures r == Around(code, lat, lon, latStep, lonStep)
  {
    var east := EncodeEast(p, lat, lon, latStep, lonStep, code);
    var west := EncodeWest(p, lat, lon, latStep, lonStep, code);
    r := east + west;
  }

  method EncodeBeside(p: nat, b: BBox, ghost code: (real, real) -> string) returns (r: seq<string>)
    requires IsCode(p, code)
    ensures r == AroundMiddle(code, b)
  {
    r := EncodeAround(p, (b.minLat + b.maxLat) / 2.0, (b.minLon + b.maxLon) / 2.0,
                      b.maxLat - b.minLat, b.maxLon - b.minLon, code);
  }

  method Neighbors(h: string) returns (r: Option<seq<string>>)
    ensures r == if IsHash(h) then Some(Beside(h)) else None
  {
    var box := DecodeBBox(h);
    if box.None? { return None; }
    CodeIsCode(|h|);
    var around := EncodeBeside(|h|, box.value, Code(|h|));
    r := Some(around);
  }

  /** The neighbour in a direction is the code of the cell one step that way, at the edge of the world the cell itself. */
  lemma NeighborsAreSteps(h: string, dx: int, dy: int)
    requires IsHash(h) && -1 <= dx <= 1 && -1 <= dy <= 1 && (dx, dy) != (0, 0)
    ensures |Beside(h)| == 8 && Beside(h)[Place(dx, dy)] == HashOf(|h|, Step(5 * |h|, CellOfHash(h), dx, dy))
  {
    BesideIsStep(h, dy, dx);
    BesideHolds(h, dx, dy);
  }

  /** North first, and then clockwise. */
  lemma NeighborList(h: string)
    requires IsHash(h)
    ensures var n, c := 5 * |h|, CellOfHash(h);
      Beside(h) == [HashOf(|h|, Step(n, c, 0, 1)), HashOf(|h|, Step(n, c, 1, 1)), HashOf(|h|, Step(n, c, 1, 0)),
                    HashOf(|h|, Step(n, c, 1, -1)), HashOf(|h|, Step(n, c, 0, -1)), HashOf(|h|, Step(n, c, -1, -1)),
                    HashOf(|h|, Step(n, c, -1, 0)), HashOf(|h|, Step(n, c, -1, 1))]
  {
    NeighborsAreSteps(h, 0, 1);
    NeighborsAreSteps(h, 1, 1);
    NeighborsAreSteps(h, 1, 0);
    NeighborsAreSteps(h, 1, -1);
    NeighborsAreSteps(h, 0, -1);
    NeighborsAreSteps(h, -1, -1);
    NeighborsAreSteps(h, -1, 0);
    NeighborsAreSteps(h, -1, 1);
  }

  lemma NeighborsAreHashes(h: string, g: string)
    requires g in Beside(h)
    ensures |g| == |h| && IsHash(g)
  {
    CodeIsCode(|h|);
    CodesAround(|h|, Code(|h|), BoxOfHash(h).value, g);
  }

  lemma CodesAround(p: nat, code: (real, real) -> string, box: BBox, g: string)
    requires IsCode(p, code) && g in AroundMiddle(code, box)
    ensures |g| == p && IsHash(g)
  {
    var lat, lon := AroundMembers(code, (box.minLat + box.maxLat) / 2.0, (box.minLon + box.maxLon) / 2.0,
                                  box.maxLat - box.minLat, box.maxLon - box.minLon, g);
    HashIsHash(p, lat, lon);
  }

  lemma AroundMembers(code: (real, real) -> string, lat: real, lon: real, latStep: real, lonStep: real, g: string)
    returns (y: real, x: real)
    requires g in Around(code, lat, lon, latStep, lonStep)
    ensures g == code(y, x)
  {
    var i :| 0 <= i < 8 && g == Around(code, lat, lon, latStep, lonStep)[i];
    y := if i in {0, 1, 7} then lat + latStep else if i in {2, 6} then lat else lat - latStep;
    x := if i in {1, 2, 3} then lon + lonStep else if i in {0, 4} then lon else lon - lonStep;
  }

  // ----- the cells that meet a box

  ghost predicate Touches(p: nat, bbox: BBox, h: string) {
    |h| == p && IsHash(h) && BoxOfHash(h).value.Intersects(bbox)
  }

  ghost predicate CellMeets(n: nat, bbox: BBox, c: Cell) {
    && Meets(LON, Columns(n), c.x, bbox.minLon, bbox.maxLon)
    && Meets(LAT, Rows(n), c.y, bbox.minLat, bbox.maxLat)
  }

  lemma CellIntersects(n: nat, bbox: BBox, c: Cell)
    ensures BoxOfCell(n, c).Intersects(bbox) <==> CellMeets(n, bbox, c)
  {
  }

  lemma TouchesIsMeets(p: nat, bbox: BBox, c: Cell)
    requires InGrid(5 * p, c)
    ensures Touches(p, bbox, HashOf(p, c)) <==> CellMeets(5 * p, bbox, c)
  {
    HashRoundTrip(p, c);
    BoxIsCell(HashOf(p, c));
    CellIntersects(5 * p, bbox, c);
  }

  /** One step from i toward j. */
  function Toward(i: nat, j: nat): nat {
    if i < j then i + 1 else if i > j then i - 1 else i
  }

  function Distance(c: Cell, m: Cell): nat {
    (if c.x < m.x then m.x - c.x else c.x - m.x) + (if c.y < m.y then m.y - c.y else c.y - m.y)
  }

  lemma TowardMeets(n: nat, bbox: BBox, c: Cell, m: Cell)
    requires InGrid(n, c) && InGrid(n, m) && CellMeets(n, bbox, c) && CellMeets(n, bbox, m)
    ensures var c' := Cell(Toward(c.x, m.x), Toward(c.y, m.y));
      InGrid(n, c') && CellMeets(n, bbox, c') && Step(n, c', c.x - c'.x, c.y - c'.y) == c
  {
    var c' := Cell(Toward(c.x, m.x), Toward(c.y, m.y));
    GridSize(n, c);
    GridSize(n, m);
    GridSize(n, c');
    MeetsBetween(LON, Columns(n), c.x, c'.x, m.x, bbox.minLon, bbox.maxLon);
    MeetsBetween(LAT, Rows(n), c.y, c'.y, m.y, bbox.minLat, bbox.maxLat);
  }

  ghost predicate Closed(p: nat, bbox: BBox, found: seq<string>) {
    forall h, g :: h in found && g in Beside(h) && Touches(p, bbox, g) ==> g in found
  }

  /** The cells that meet a box hang together: what is closed and holds one holds all. */
  lemma {:induction false} Reached(p: nat, bbox: BBox, found: seq<string>, m: Cell, c: Cell)
    requires InGrid(5 * p, c) && InGrid(5 * p, m) && CellMeets(5 * p, bbox, c) && CellMeets(5 * p, bbox, m)
    requires Closed(p, bbox, found) && HashOf(p, m) in found
    ensures HashOf(p, c) in found
    decreases Distance(c, m)
  {
    if c != m {
      var c' := Cell(Toward(c.x, m.x), Toward(c.y, m.y));
      TowardMeets(5 * p, bbox, c, m);
      Reached(p, bbox, found, m, c');
      HashRoundTrip(p, c');
      NeighborsAreSteps(HashOf(p, c'), c.x - c'.x, c.y - c'.y);
      TouchesIsMeets(p, bbox, c);
    }
  }

  /** If any cell meets a box, the cell of its middle does. */
  lemma MiddleCellMeets(n: nat, bbox: BBox, c: Cell)
    requires InGrid(n, c) && CellMeets(n, bbox, c)
    ensures CellMeets(n, bbox, CellAt(n, (bbox.minLat + bbox.maxLat) / 2.0, (bbox.minLon + bbox.maxLon) / 2.0))
  {
    GridSize(n, c);
    MiddleMeets(LON, Columns(n), c.x, bbox.minLon, bbox.maxLon);
    MiddleMeets(LAT, Rows(n), c.y, bbox.minLat, bbox.maxLat);
  }

  lemma FloodIsComplete(p: nat, bbox: BBox, found: seq<string>, h: string)
    requires Closed(p, bbox, found) && Touches(p, bbox, h)
    requires var start := HashAt(p, (bbox.minLat + bbox.maxLat) / 2.0, (bbox.minLon + bbox.maxLon) / 2.0);
      Touches(p, bbox, start) ==> start in found
    ensures h in found
  {
    var lat, lon := (bbox.minLat + bbox.maxLat) / 2.0, (bbox.minLon + bbox.maxLon) / 2.0;
    var c, m := CellOfHash(h), CellAt(5 * p, lat, lon);
    CellRoundTrip(h);
    TouchesIsMeets(p, bbox, c);
    MiddleCellMeets(5 * p, bbox, c);
    HashNamesCell(p, lat, lon);
    TouchesIsMeets(p, bbox, m);
    Reached(p, bbox, found, m, c);
  }

  // ----- the flood

  const SAFETY_LIMIT: nat := 5000

  /** No code twice, each a cell that meets the box, and all of those unless the safety limit is passed. */
  ghost predicate Covering(p: nat, bbox: BBox, found: seq<string>) {
    && Distinct(found)
    && (forall h :: h in found ==> Touches(p, bbox, h))
    && |found| <= 5001
    && (|found| <= 5000 ==> forall h :: Touches(p, bbox, h) ==> h in found)
  }

  ghost function AllHashes(p: nat): set<string> {
    set x, y | 0 <= x < Pow2(Columns(5 * p)) && 0 <= y < Pow2(Rows(5 * p)) && InGrid(5 * p, Cell(x, y)) :: HashOf(p, Cell(x, y))
  }

  lemma AllHashesAreHashes(p: nat, h: string)
    ensures h in AllHashes(p) <==> |h| == p && IsHash(h)
  {
    if |h| == p && IsHash(h) {
      GridSize(5 * p, CellOfHash(h));
      CellRoundTrip(h);
    } else if h in AllHashes(p) {
      var x, y :| InGrid(5 * p, Cell(x, y)) && h == HashOf(p, Cell(x, y));
      HashRoundTrip(p, Cell(x, y));
    }
  }

  /** The test, the neighbours and the strings of a flood, by names that say no more than is asked of them. */
  ghost predicate Means(p: nat, bbox: BBox, touches: string -> bool, around: string -> seq<string>, all: set<string>) {
    && (forall h {:trigger Touches(p, bbox, h)} :: touches(h) == Touches(p, bbox, h))
    && (forall h {:trigger Beside(h)} :: around(h) == Beside(h))
    && (forall h {:trigger IsHash(h)} :: h in all <==> |h| == p && IsHash(h))
  }

  lemma Meaning(p: nat, bbox: BBox)
    returns (touches: string -> bool, around: string -> seq<string>, all: set<string>)
    ensures Means(p, bbox, touches, around, all)
  {
    touches, around, all := h => Touches(p, bbox, h), h => Beside(h), AllHashes(p);
    forall h ensures h in all <==> |h| == p && IsHash(h) {
      AllHashesAreHashes(p, h);
    }
  }

  /** One turn of the flood. */
  method Visit(
    h: string, bbox: BBox, visited: set<string>, q: seq<string>,
    ghost touches: string -> bool, ghost around: string -> seq<string>, ghost all: set<string>)
    returns (touched: bool, visited': set<string>, q': seq<string>, ghost added: seq<string>)
    requires Means(|h|, bbox, touches, around, all) && h in all
    ensures touched == touches(h)
    ensures !touched ==> visited' == visited && q' == q
    ensures touched ==> q' == q + added && Distinct(added)
    ensures touched ==> forall g :: g in added ==> g !in visited && g in all
    ensures touched ==> forall g :: g in visited' <==> g in visited || g in added
    ensures touched ==> forall g :: g in around(h) ==> g in visited'
  {
    touched, visited', q', added := false, visited, q, [];
    assert IsHash(h) && touches(h) == Touches(|h|, bbox, h) && around(h) == Beside(h);
    var box := DecodeBBox(h);
    if !box.value.Intersects(bbox) { return; }
    var nbs := Neighbors(h);
    touched := true;
    visited', q', added := Enqueue(nbs.value, visited, q);
    forall g | g in added ensures g in all {
      NeighborsAreHashes(h, g);
    }
  }

  ghost predicate Filled(
    touches: string -> bool, around: string -> seq<string>, start: string, found: seq<string>)
  {
    && Distinct(found)
    && (forall h :: h in found ==> touches(h))
    && |found| <= SAFETY_LIMIT + 1
    && (|found| <= SAFETY_LIMIT ==>
          && (touches(start) ==> start in found)
          && forall h, g :: h in found && g in around(h) && touches(g) ==> g in found)
  }

  method Fill(
    start: string, bbox: BBox,
    ghost touches: string -> bool, ghost around: string -> seq<string>, ghost all: set<string>)
    returns (result: seq<string>)
    requires Means(|start|, bbox, touches, around, all) && start in all
    ensures Filled(touches, around, start, result)
  {
    var visited, q := {start}, [start];
    result := [];
    Start(touches, around, start);
    while q != []
      invariant Exploring(touches, around, visited, q, result) && |result| <= SAFETY_LIMIT
      invariant start in visited && visited <= all
      decreases all - visited, |q|
    {
      var h := q[0];
      ghost var q0, seen0 := q, visited;
      var touched;
      ghost var added;
      SameLength(start, h, bbox, touches, around, all);
      touched, visited, q, added := Visit(h, bbox, visited, q[1..], touches, around, all);
      if !touched {
        Reject(touches, around, seen0, q0, result);
        continue;
      }
      Accept(touches, around, seen0, q0, result, visited, added);
      result := result + [h];
      if |result| > SAFETY_LIMIT { return; }
      if added == [] {
        assert visited == seen0;
      } else {
        assert added[0] in all - seen0 && added[0] !in all - visited;
      }
    }
    Finished(touches, around, visited, result);
  }

  lemma SameLength(
    start: string, h: string, bbox: BBox, touches: string -> bool, around: string -> seq<string>, all: set<string>)
    requires Means(|start|, bbox, touches, around, all) && h in all
    ensures |h| == |start|
  {
    assert IsHash(h) || !IsHash(h);
  }

  lemma FilledCovers(
    p: nat, bbox: BBox, touches: string -> bool, around: string -> seq<string>, all: set<string>, found: seq<string>)
    requires Means(p, bbox, touches, around, all)
    requires Filled(touches, around, HashAt(p, (bbox.minLat + bbox.maxLat) / 2.0, (bbox.minLon + bbox.maxLon) / 2.0), found)
    ensures Covering(p, bbox, found)
  {
    var start := HashAt(p, (bbox.minLat + bbox.maxLat) / 2.0, (bbox.minLon + bbox.maxLon) / 2.0);
    forall h ensures touches(h) == Touches(p, bbox, h) && around(h) == Beside(h) {}
    if |found| <= SAFETY_LIMIT {
      assert Closed(p, bbox, found);
      forall h | Touches(p, bbox, h) ensures h in found {
        FloodIsComplete(p, bbox, found, h);
      }
    }
  }

  /** `hashesForBBox`, from whatever box, turned around or outside the world too. */
  method HashesForBBox(bbox: BBox, precision: int) returns (r: Option<seq<string>>)
    ensures precision < 0 <==> r.None?
    ensures r.Some? ==> Covering(precision, bbox, r.value)
  {
    var center := Encode((bbox.minLat + bbox.maxLat) / 2.0, (bbox.minLon + bbox.maxLon) / 2.0, precision);
    if center.None? { return None; }
    ghost var touches, around, all := Meaning(precision, bbox);
    HashIsHash(precision, (bbox.minLat + bbox.maxLat) / 2.0, (bbox.minLon + bbox.maxLon) / 2.0);
    var result := Fill(center.value, bbox, touches, around, all);
    FilledCovers(precision, bbox, touches, around, all, result);
    r := Some(result);
  }
}
