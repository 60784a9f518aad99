/**
 * What each bit of a geohash means (cpp/spatial/geohash.cpp), without the
 * loop: the bits of the letters are the binary digits of how far east and how
 * far north the place lies, the longitude's and the latitude's in turn.
 */
module GeohashBits {
  import opened Basics
  import opened Powers
  import opened Bisection
  import opened GeohashCells
  import opened Geometry
  import opened Geohash

  // ----- longitudes first, and then in turn

  lemma {:induction false} Turns(n: nat)
    ensures ByLon(n) <==> n % 2 == 0
  {
    if n > 0 { Turns(n - 1); }
  }

  /** Of n bits the longitude has every other one, and the odd one as well. */
  lemma {:induction false} Shares(n: nat)
    ensures Columns(n) == (n + 1) / 2 && Rows(n) == n / 2
  {
    if n > 0 {
      Turns(n - 1);
      Shares(n - 1);
    }
  }

  // ----- a part of an interval is the whole number of a fraction

  lemma {:induction false} WidthTimes(ax: Axis, k: nat)
    ensures Width(ax, k) * Pow2(k) as real == ax.span
  {
    if k > 0 {
      WidthTimes(ax, k - 1);
      var w, m := Width(ax, k - 1), Pow2(k - 1) as real;
      assert Pow2(k) as real == 2.0 * m;
      assert (w / 2.0) * (2.0 * m) == w * m;
    }
  }

  /** A distance d of a whole, counted in the m parts of the whole. */
  function Counted(d: real, span: real, m: nat): real
    requires span > 0.0
  {
    d / span * m as real
  }

  /** How many parts of 2^k lie below a value of an interval, no more than all but the last. */
  function Part(k: nat, lo: real, span: real, v: real): (i: nat)
    requires span > 0.0
    ensures i < Pow2(k)
  {
    Clamp(k, Counted(v - lo, span, Pow2(k)).Floor)
  }

  lemma ScaleBack(w: real, m: real, span: real, d: real, q: real)
    requires w > 0.0 && span > 0.0 && w * m == span && q == d / span * m
    ensures q * w == d
  {
    assert d / span * m * w == d / span * (m * w);
    assert d / span * span == d;
  }

  lemma TimesOrder(w: real, a: real, b: real)
    requires w > 0.0
    ensures a <= b <==> a * w <= b * w
  {
    assert b * w - a * w == (b - a) * w;
  }

  lemma FromEdge(lo: real, w: real, x: real, q: real, v: real)
    requires w > 0.0 && q * w == v - lo
    ensures x <= q <==> lo + x * w <= v
  {
    TimesOrder(w, x, q);
  }

  /** The whole number below a value counted in parts is the part that the value is in. */
  lemma FloorLocates(ax: Axis, k: nat, v: real, q: real)
    requires ax.span > 0.0 && q * Width(ax, k) == v - ax.lo
    ensures Located(ax, k, v, Clamp(k, q.Floor))
  {
    var i := Clamp(k, q.Floor);
    WidthPositive(ax, k);
    FromEdge(ax.lo, Width(ax, k), i as real, q, v);
    FromEdge(ax.lo, Width(ax, k), (i + 1) as real, q, v);
  }

  lemma Scaled(ax: Axis, k: nat, d: real, m: nat)
    requires ax.span > 0.0 && m == Pow2(k)
    ensures Counted(d, ax.span, m) * Width(ax, k) == d
  {
    WidthPositive(ax, k);
    WidthTimes(ax, k);
    ScaleBack(Width(ax, k), m as real, ax.span, d, Counted(d, ax.span, m));
  }

  lemma IndexByParts(ax: Axis, k: nat, v: real, q: real)
    requires ax.span > 0.0 && q * Width(ax, k) == v - ax.lo
    ensures IndexOf(ax, k, v) == Clamp(k, q.Floor)
  {
    FloorLocates(ax, k, v, q);
    IndexLocated(ax, k, v);
    LocatedOnce(ax, k, v, Clamp(k, q.Floor), IndexOf(ax, k, v));
  }

  lemma PartIsIndex(ax: Axis, k: nat, v: real)
    requires ax.span > 0.0
    ensures IndexOf(ax, k, v) == Part(k, ax.lo, ax.span, v)
  {
    Scaled(ax, k, v - ax.lo, Pow2(k));
    IndexByParts(ax, k, v, Counted(v - ax.lo, ax.span, Pow2(k)));
  }

  // ----- the bits

  lemma ChoiceIsChosen(m: nat, lat: real, lon: real)
    ensures Choice(m, lat, lon) <==> Chosen(m, CellAt(m + 1, lat, lon))
  {
    TrailLeads(m, lat, lon);
    CellAtHalf(m, lat, lon);
    WholeOfHalf(m, CellAt(m, lat, lon), Choice(m, lat, lon));
  }

  lemma CellParts(n: nat, lat: real, lon: real)
    ensures CellAt(n, lat, lon).x == Part(Columns(n), -180.0, 360.0, lon)
    ensures CellAt(n, lat, lon).y == Part(Rows(n), -90.0, 180.0, lat)
  {
    PartIsIndex(LON, Columns(n), lon);
    PartIsIndex(LAT, Rows(n), lat);
  }

  /** The m-th bit says whether the part of the longitude, or of the latitude, is an odd one. */
  lemma ChoiceIsDigit(m: nat, lat: real, lon: real)
    ensures Choice(m, lat, lon) <==>
      if m % 2 == 0 then Part(m / 2 + 1, -180.0, 360.0, lon) % 2 == 1 else Part(m / 2 + 1, -90.0, 180.0, lat) % 2 == 1
  {
    Turns(m);
    Shares(m + 1);
    ChoiceIsChosen(m, lat, lon);
    CellParts(m + 1, lat, lon);
  }

  lemma DropLast(a: nat, b: nat, t: nat)
    requires b < 2
    ensures (2 * a + b) % 2 == b && ShiftRight(2 * a + b, t + 1) == ShiftRight(a, t)
  {
    assert (2 * a + b) / 2 == a;
  }

  lemma {:induction false} PendingBit(k: nat, i: nat, j: nat, lat: real, lon: real)
    requires j < i
    ensures ShiftRight(Pending(k, i, lat, lon), i - 1 - j) % 2 == 1 <==> Choice(5 * k + j, lat, lon)
  {
    DropLast(Pending(k, i - 1, lat, lon), BitValue(Choice(5 * k + i - 1, lat, lon)), if j < i - 1 then i - 2 - j else 0);
    if j < i - 1 { PendingBit(k, i - 1, j, lat, lon); }
  }

  lemma {:induction false} LetterOf(p: nat, k: nat, lat: real, lon: real)
    requires k < p
    ensures LetterValue(HashAt(p, lat, lon)[k]) == Some(Pending(k, GROUP, lat, lon))
  {
    if k < p - 1 {
      LetterOf(p - 1, k, lat, lon);
    } else {
      LetterPending(k, lat, lon);
      LetterHasValue(Pending(k, GROUP, lat, lon));
    }
  }

  /** Bit j of letter k, for every place: binary digit by binary digit, east and north in turn. */
  lemma BitMeans(p: nat, k: nat, j: nat, lat: real, lon: real)
    requires k < p && j < 5
    ensures LetterValue(HashAt(p, lat, lon)[k]).Some?
    ensures var m := 5 * k + j;
      ShiftRight(LetterValue(HashAt(p, lat, lon)[k]).value, 4 - j) % 2 == 1 <==>
      if m % 2 == 0 then Part(m / 2 + 1, -180.0, 360.0, lon) % 2 == 1 else Part(m / 2 + 1, -90.0, 180.0, lat) % 2 == 1
  {
    LetterOf(p, k, lat, lon);
    PendingBit(k, GROUP, j, lat, lon);
    ChoiceIsDigit(5 * k + j, lat, lon);
  }

  lemma FirstBits(lat: real, lon: real)
    ensures Choice(0, lat, lon) <==> lon >= 0.0
    ensures Choice(1, lat, lon) <==> lat >= 0.0
  {
    assert Narrowed(0, lat, lon) == BBox(-90.0, -180.0, 90.0, 180.0);
    Turns(1);
    assert Narrowed(1, lat, lon).minLat == -90.0 && Narrowed(1, lat, lon).maxLat == 90.0;
  }

  lemma HalvedThrice(v: nat)
    ensures ShiftRight(v, 3) == v / 8
  {
    assert ShiftRight(v, 3) == ShiftRight(v / 2, 2) == ShiftRight(v / 2 / 2, 1) == v / 2 / 2 / 2;
  }

  lemma HalvedFourTimes(v: nat)
    ensures ShiftRight(v, 4) == v / 16
  {
    assert ShiftRight(v, 4) == ShiftRight(v / 2, 3);
    HalvedThrice(v / 2);
  }

  lemma HighBit(v: nat)
    requires v < 32
    ensures ShiftRight(v, 4) % 2 == 1 <==> v >= 16
  {
    HalvedFourTimes(v);
  }

  lemma EastBit(v: nat, lat: real, lon: real)
    requires v == Pending(0, GROUP, lat, lon)
    ensures v < 32 && (v >= 16 <==> lon >= 0.0)
  {
    LetterPending(0, lat, lon);
    PendingBit(0, GROUP, 0, lat, lon);
    HighBit(v);
    FirstBits(lat, lon);
  }

  lemma NorthBit(v: nat, lat: real, lon: real)
    requires v == Pending(0, GROUP, lat, lon) < 32
    ensures v / 8 % 2 == 1 <==> lat >= 0.0
  {
    PendingBit(0, GROUP, 1, lat, lon);
    HalvedThrice(v);
    FirstBits(lat, lon);
  }

  /** The first letter tells east from west, and then north from south. */
  lemma FirstLetter(p: nat, lat: real, lon: real)
    requires p >= 1
    ensures var v := LetterValue(HashAt(p, lat, lon)[0]);
      v.Some? && (v.value >= 16 <==> lon >= 0.0) && (v.value / 8 % 2 == 1 <==> lat >= 0.0)
  {
    LetterOf(p, 0, lat, lon);
    EastBit(Pending(0, GROUP, lat, lon), lat, lon);
    NorthBit(Pending(0, GROUP, lat, lon), lat, lon);
  }

  // ----- boxes

  function Times(m: nat, length: real): real {
    length * m as real
  }

  lemma SizeTimes(ax: Axis, k: nat, i: int, m: nat, low: real, high: real)
    requires low == Edge(ax, k, i) && high == Edge(ax, k, i + 1) && m == Pow2(k)
    ensures Times(m, high - low) == ax.span
  {
    EdgeStep(ax, k, i);
    WidthTimes(ax, k);
  }

  /** The box of a string of n letters is the 2^((5n + 1) / 2)-th part of the world in width, and the 2^(5n / 2)-th in height. */
  lemma BoxSize(h: string)
    requires IsHash(h)
    ensures var box := BoxOfHash(h).value; var n := 5 * |h|;
      && Times(Pow2((n + 1) / 2), box.maxLon - box.minLon) == 360.0
      && Times(Pow2(n / 2), box.maxLat - box.minLat) == 180.0
  {
    var c, n, box := CellOfHash(h), 5 * |h|, BoxOfHash(h).value;
    BoxIsCell(h);
    Shares(n);
    SizeTimes(LON, Columns(n), c.x, Pow2((n + 1) / 2), box.minLon, box.maxLon);
    SizeTimes(LAT, Rows(n), c.y, Pow2(n / 2), box.minLat, box.maxLat);
  }

  /** The places of a string's box, its upper sides left out, have that string, and no other place of the world short of those sides. */
  lemma BoxIsPlaces(h: string, lat: real, lon: real)
    requires IsHash(h) && -90.0 <= lat < 90.0 && -180.0 <= lon < 180.0
    ensures var box := BoxOfHash(h).value;
      HashAt(|h|, lat, lon) == h <==> box.minLat <= lat < box.maxLat && box.minLon <= lon < box.maxLon
  {
    var c, n := CellOfHash(h), 5 * |h|;
    BoxIsCell(h);
    EncodesIff(h, lat, lon);
    GridSize(n, c);
    LastEdge(LON, Columns(n));
    LastEdge(LAT, Rows(n));
  }
}
