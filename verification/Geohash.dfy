/**
 * The geohash codec of cpp/spatial/geohash.cpp, and its twin in
 * internal/domain/spatial_entity.go: strings name the cells of the grids that
 * halving longitudes and latitudes in turn makes of the world.
 */
module Geohash {
  import opened Basics
  import opened Powers
  import opened Bisection
  import opened GeohashCells
  import opened Geometry

  const LON: Axis := Axis(-180.0, 360.0)
  const LAT: Axis := Axis(-90.0, 180.0)

  // ----- cells of the world

  function BoxOfCell(n: nat, c: Cell): BBox {
    BBox(Edge(LAT, Rows(n), c.y), Edge(LON, Columns(n), c.x),
         Edge(LAT, Rows(n), c.y + 1), Edge(LON, Columns(n), c.x + 1))
  }

  /** The cell that n rounds of halving lead to. */
  function CellAt(n: nat, lat: real, lon: real): (c: Cell)
    ensures InGrid(n, c)
  {
    var c := Cell(IndexOf(LON, Columns(n), lon), IndexOf(LAT, Rows(n), lat));
    GridSize(n, c);
    c
  }

  /** One round of either loop: the box is cut in half, by longitude or by latitude. */
  function HalfBox(byLon: bool, box: BBox, upper: bool): BBox {
    if byLon then
      var mid := (box.minLon + box.maxLon) / 2.0;
      if upper then box.(minLon := mid) else box.(maxLon := mid)
    else
      var mid := (box.minLat + box.maxLat) / 2.0;
      if upper then box.(minLat := mid) else box.(maxLat := mid)
  }

  /** Whether a point goes to the upper half. */
  predicate Upper(byLon: bool, box: BBox, lat: real, lon: real) {
    if byLon then lon >= (box.minLon + box.maxLon) / 2.0 else lat >= (box.minLat + box.maxLat) / 2.0
  }

  lemma BoxOfHalf(n: nat, c: Cell, b: bool)
    ensures BoxOfCell(n + 1, Half(n, c, b)) == HalfBox(ByLon(n), BoxOfCell(n, c), b)
  {
    if ByLon(n) {
      HalfEdges(LON, Columns(n), c.x, Half(n, c, b).x);
    } else {
      HalfEdges(LAT, Rows(n), c.y, Half(n, c, b).y);
    }
  }

  lemma CellAtHalf(n: nat, lat: real, lon: real)
    ensures CellAt(n + 1, lat, lon) ==
            Half(n, CellAt(n, lat, lon), Upper(ByLon(n), BoxOfCell(n, CellAt(n, lat, lon)), lat, lon))
  {
    if ByLon(n) {
      IndexHalves(LON, Columns(n), lon);
    } else {
      IndexHalves(LAT, Rows(n), lat);
    }
  }

  // ----- encoding

  /** The box after n rounds of the loop, and the bit that the next round chooses. */
  ghost function Narrowed(n: nat, lat: real, lon: real): BBox
    decreases n, 0
  {
    if n == 0 then BBox(-90.0, -180.0, 90.0, 180.0)
    else HalfBox(ByLon(n - 1), Narrowed(n - 1, lat, lon), Choice(n - 1, lat, lon))
  }

  ghost predicate Choice(n: nat, lat: real, lon: real)
    decreases n, 1
  {
    Upper(ByLon(n), Narrowed(n, lat, lon), lat, lon)
  }

  /** The value of the first j bits of the k-th letter. */
  ghost function Pending(k: nat, j: nat, lat: real, lon: real): nat {
    if j == 0 then 0 else 2 * Pending(k, j - 1, lat, lon) + BitValue(Choice(5 * k + j - 1, lat, lon))
  }

  lemma {:induction false} PendingFits(k: nat, j: nat, lat: real, lon: real)
    ensures Pending(k, j, lat, lon) < Pow2(j)
  {
    if j > 0 { PendingFits(k, j - 1, lat, lon); }
  }

  lemma LetterPending(k: nat, lat: real, lon: real)
    ensures Pending(k, GROUP, lat, lon) < 32
  {
    PendingFits(k, GROUP, lat, lon);
    GroupSize();
  }

  /** The string of k letters for a place. */
  ghost function HashAt(k: nat, lat: real, lon: real): (h: string)
    ensures |h| == k
  {
    if k == 0 then []
    else
      LetterPending(k - 1, lat, lon);
      HashAt(k - 1, lat, lon) + [Letter(Pending(k - 1, GROUP, lat, lon))]
  }

  /** `encode`; a negative precision is an error, as no string can reserve its length. */
  method Encode(lat: real, lon: real, precision: int) returns (r: Option<string>)
    ensures r == if precision < 0 then None else Some(HashAt(precision, lat, lon))
  {
    if precision < 0 { return None; }
    var latMin, latMax, lonMin, lonMax := -90.0, 90.0, -180.0, 180.0;
    var result: string := "";
    var bits: nat, bit: nat := 0, 0;
    var useLon := true;
    ghost var n: nat := 0;
    while |result| < precision
      invariant bits < 5 && |result| <= precision && (|result| == precision ==> bits == 0)
      invariant n == 5 * |result| + bits && useLon == ByLon(n)
      invariant BBox(latMin, lonMin, latMax, lonMax) == Narrowed(n, lat, lon)
      invariant result == HashAt(|result|, lat, lon)
      invariant bit == Pending(|result|, bits, lat, lon)
      decreases 5 * precision - n
    {
      if useLon {
        var mid := (lonMin + lonMax) / 2.0;
        if lon >= mid { bit := 2 * bit + 1; lonMin := mid; } else { bit := 2 * bit; lonMax := mid; }
      } else {
        var mid := (latMin + latMax) / 2.0;
        if lat >= mid { bit := 2 * bit + 1; latMin := mid; } else { bit := 2 * bit; latMax := mid; }
      }
      useLon, bits, n := !useLon, bits + 1, n + 1;
      assert BBox(latMin, lonMin, latMax, lonMax) == Narrowed(n, lat, lon);
      assert bit == Pending(|result|, bits, lat, lon);
      if bits == GROUP {
        LetterPending(|result|, lat, lon);
        var letter := LetterAt(bit);
        result, bits, bit := result + [letter], 0, 0;
      }
    }
    r := Some(result);
  }

  // ----- the loop follows the grid

  ghost function Trail(n: nat, lat: real, lon: real): (bits: Bits)
    ensures |bits| == n
  {
    if n == 0 then [] else Trail(n - 1, lat, lon) + [Choice(n - 1, lat, lon)]
  }

  /** The bits and the box of n rounds belong to the cell of the place. */
  predicate Leads(n: nat, lat: real, lon: real, bits: Bits, box: BBox) {
    CellOf(bits) == CellAt(n, lat, lon) && box == BoxOfCell(n, CellAt(n, lat, lon))
  }

  lemma NextRound(n: nat, lat: real, lon: real, bits: Bits, box: BBox, b: bool)
    requires |bits| == n && Leads(n, lat, lon, bits, box) && b == Upper(ByLon(n), box, lat, lon)
    ensures Leads(n + 1, lat, lon, bits + [b], HalfBox(ByLon(n), box, b))
  {
    CellAtHalf(n, lat, lon);
    CellOfMore(bits, b);
    BoxOfHalf(n, CellAt(n, lat, lon), b);
  }

  lemma {:induction false} TrailIs(n: nat, lat: real, lon: real)
    ensures Leads(n, lat, lon, Trail(n, lat, lon), Narrowed(n, lat, lon))
  {
    if n > 0 {
      TrailIs(n - 1, lat, lon);
      NextRound(n - 1, lat, lon, Trail(n - 1, lat, lon), Narrowed(n - 1, lat, lon), Choice(n - 1, lat, lon));
    }
  }

  lemma TrailLeads(n: nat, lat: real, lon: real)
    ensures CellOf(Trail(n, lat, lon)) == CellAt(n, lat, lon)
    ensures Narrowed(n, lat, lon) == BoxOfCell(n, CellAt(n, lat, lon))
  {
    TrailIs(n, lat, lon);
  }

  lemma {:induction false} TrailOfLetter(k: nat, j: nat, lat: real, lon: real)
    ensures Trail(5 * k + j, lat, lon)[..5 * k] == Trail(5 * k, lat, lon)
    ensures Number(Trail(5 * k + j, lat, lon)[5 * k..]) == Pending(k, j, lat, lon)
  {
    var t := Trail(5 * k + j, lat, lon);
    if j == 0 {
      assert t[..5 * k] == t && t[5 * k..] == [];
    } else {
      TrailOfLetter(k, j - 1, lat, lon);
      var front := Trail(5 * k + j - 1, lat, lon);
      assert t[..5 * k] == front[..5 * k];
      assert t[5 * k..][..j - 1] == front[5 * k..];
    }
  }

  lemma {:induction false} HashPacksTrail(k: nat, lat: real, lon: real)
    ensures HashAt(k, lat, lon) == Pack(k, Trail(5 * k, lat, lon))
  {
    if k > 0 {
      HashPacksTrail(k - 1, lat, lon);
      TrailOfLetter(k - 1, GROUP, lat, lon);
    }
  }

  /** The string for a place names the cell that the place is in. */
  lemma HashNamesCell(p: nat, lat: real, lon: real)
    ensures HashAt(p, lat, lon) == HashOf(p, CellAt(5 * p, lat, lon))
  {
    HashPacksTrail(p, lat, lon);
    TrailLeads(5 * p, lat, lon);
    BitsOfCell(Trail(5 * p, lat, lon));
  }

  // ----- the twin encoder

  /** `ch | (1 << k)`. */
  function SetBit(ch: nat, k: nat): nat {
    if k > 0 then 2 * SetBit(ch / 2, k - 1) + ch % 2
    else if ch % 2 == 1 then ch
    else ch + 1
  }

  /** `m << k`. */
  ghost function ShiftLeft(m: nat, k: nat): nat {
    if k == 0 then m else 2 * ShiftLeft(m, k - 1)
  }

  lemma {:induction false} SetClearBit(m: nat, k: nat)
    ensures ShiftLeft(m, k + 1) == ShiftLeft(2 * m, k)
    ensures SetBit(ShiftLeft(m, k + 1), k) == ShiftLeft(2 * m + 1, k)
  {
    if k > 0 { SetClearBit(m, k - 1); }
  }

  /** The letter in the making after j of its bits. */
  ghost function Masked(k: nat, j: nat, lat: real, lon: real): nat
    requires j <= 5
  {
    if j == 0 then 0
    else if Choice(5 * k + j - 1, lat, lon) then SetBit(Masked(k, j - 1, lat, lon), 5 - j)
    else Masked(k, j - 1, lat, lon)
  }

  lemma {:induction false} MaskedIsPending(k: nat, j: nat, lat: real, lon: real)
    requires j <= 5
    ensures Masked(k, j, lat, lon) == ShiftLeft(Pending(k, j, lat, lon), 5 - j)
  {
    if j > 0 {
      MaskedIsPending(k, j - 1, lat, lon);
      SetClearBit(Pending(k, j - 1, lat, lon), 5 - j);
    }
  }

  lemma MaskedLetter(k: nat, lat: real, lon: real)
    ensures Masked(k, GROUP, lat, lon) == Pending(k, GROUP, lat, lon) < 32
  {
    MaskedIsPending(k, GROUP, lat, lon);
    LetterPending(k, lat, lon);
  }

  /** `encodeGeohash`, which sets the bits of a letter from the highest down. */
  method EncodeGo(lat: real, lon: real, precision: int) returns (result: string)
    ensures result == if 1 <= precision <= 12 then HashAt(precision, lat, lon) else ""
  {
    result := "";
    if precision <= 0 || precision > 12 { return; }
    var bits: nat, ch: nat := 0, 0;
    var isLon := true;
    var minLat, maxLat, minLon, maxLon := -90.0, 90.0, -180.0, 180.0;
    ghost var n: nat := 0;
    while |result| < precision
      invariant bits < 5 && |result| <= precision && (|result| == precision ==> bits == 0)
      invariant n == 5 * |result| + bits && isLon == ByLon(n)
      invariant BBox(minLat, minLon, maxLat, maxLon) == Narrowed(n, lat, lon)
      invariant result == HashAt(|result|, lat, lon)
      invariant ch == Masked(|result|, bits, lat, lon)
      decreases 5 * precision - n
    {
      if isLon {
        var mid := (minLon + maxLon) / 2.0;
        if lon >= mid { ch := SetBit(ch, 4 - bits); minLon := mid; } else { maxLon := mid; }
      } else {
        var mid := (minLat + maxLat) / 2.0;
        if lat >= mid { ch := SetBit(ch, 4 - bits); minLat := mid; } else { maxLat := mid; }
      }
      isLon, bits, n := !isLon, bits + 1, n + 1;
      assert BBox(minLat, minLon, maxLat, maxLon) == Narrowed(n, lat, lon);
      assert ch == Masked(|result|, bits, lat, lon);
      if bits == GROUP {
        MaskedLetter(|result|, lat, lon);
        var letter := LetterAt(ch);
        result, bits, ch := result + [letter], 0, 0;
      }
    }
  }

  // ----- decoding

  ghost function BoxOfBits(bits: Bits): BBox {
    if bits == [] then BBox(-90.0, -180.0, 90.0, 180.0)
    else HalfBox(ByLon(|bits| - 1), BoxOfBits(bits[..|bits| - 1]), bits[|bits| - 1])
  }

  /** The box of a string, unless a character is outside the alphabet. */
  ghost function BoxOfHash(h: string): Option<BBox> {
    if IsHash(h) then Some(BoxOfBits(Unpack(h).value)) else None
  }

  lemma {:induction false} BitsLead(bits: Bits)
    ensures BoxOfBits(bits) == BoxOfCell(|bits|, CellOf(bits))
  {
    if bits != [] {
      var front, b := bits[..|bits| - 1], bits[|bits| - 1];
      BitsLead(front);
      BoxOfHalf(|front|, CellOf(front), b);
    }
  }

  /** `v >> k`. */
  function ShiftRight(v: nat, k: nat): nat {
    if k == 0 then v else ShiftRight(v / 2, k - 1)
  }

  lemma {:induction false} DigitAt(k: nat, v: nat, j: nat)
    requires j < k
    ensures Digits(k, v)[j] == (ShiftRight(v, k - 1 - j) % 2 == 1)
  {
    if j < k - 1 { DigitAt(k - 1, v / 2, j); }
  }

  ghost predicate Spells(v: nat, bits: Bits) {
    |bits| == 5 && forall j :: 0 <= j < 5 ==> bits[j] == (ShiftRight(v, 4 - j) % 2 == 1)
  }

  lemma DigitsSpell(v: nat)
    ensures Spells(v, Digits(GROUP, v))
  {
    forall j | 0 <= j < 5 ensures Digits(GROUP, v)[j] == (ShiftRight(v, 4 - j) % 2 == 1) {
      DigitAt(GROUP, v, j);
    }
  }

  /** The inner loop of `decodeBBox`: a letter halves the box five times. */
  method RefineBox(box: BBox, byLon: bool, val: nat, ghost trail: Bits, ghost bits: Bits) returns (r: BBox, useLon: bool)
    requires box == BoxOfBits(trail) && byLon == ByLon(|trail|) && Spells(val, bits)
    ensures r == BoxOfBits(trail + bits) && useLon == ByLon(|trail| + 5)
  {
    var BBox(latMin, lonMin, latMax, lonMax) := box;
    useLon := byLon;
    ghost var done: Bits := trail;
    assert trail + bits[..0] == trail;
    for j := 0 to 5
      invariant done == trail + bits[..j]
      invariant useLon == ByLon(|done|)
      invariant BBox(latMin, lonMin, latMax, lonMax) == BoxOfBits(done)
    {
      var bit := ShiftRight(val, 4 - j) % 2;
      if useLon {
        var mid := (lonMin + lonMax) / 2.0;
        if bit == 1 { lonMin := mid; } else { lonMax := mid; }
      } else {
        var mid := (latMin + latMax) / 2.0;
        if bit == 1 { latMin := mid; } else { latMax := mid; }
      }
      useLon := !useLon;
      assert trail + bits[..j + 1] == done + [bits[j]] && (done + [bits[j]])[..|done|] == done;
      done := done + [bits[j]];
    }
    assert bits[..5] == bits;
    r := BBox(latMin, lonMin, latMax, lonMax);
  }

  lemma UnpackNext(hash: string, k: nat)
    requires k < |hash| && Unpack(hash[..k]).Some?
    ensures LetterValue(hash[k]).None? ==> !IsHash(hash)
    ensures LetterValue(hash[k]).Some? ==>
      Unpack(hash[..k + 1]) == Some(Unpack(hash[..k]).value + Digits(GROUP, LetterValue(hash[k]).value))
  {
    assert hash[..k + 1][..k] == hash[..k];
    if IsHash(hash) { UnpackFront(hash, k + 1); }
  }

  /** The box of a string is the cell that it names. */
  lemma BoxIsCell(h: string)
    requires IsHash(h)
    ensures BoxOfHash(h) == Some(BoxOfCell(5 * |h|, CellOfHash(h)))
  {
    BitsLead(Unpack(h).value);
  }

  method DecodeBBox(hash: string) returns (r: Option<BBox>)
    ensures r == BoxOfHash(hash)
  {
    var box := BBox(-90.0, -180.0, 90.0, 180.0);
    var useLon := true;
    ghost var trail: Bits := [];
    for k := 0 to |hash|
      invariant Unpack(hash[..k]) == Some(trail)
      invariant useLon == ByLon(|trail|)
      invariant box == BoxOfBits(trail)
    {
      UnpackNext(hash, k);
      var val := CharToIdx(hash[k]);
      if val.None? { return None; }
      DigitsSpell(val.value);
      ghost var bits := Digits(GROUP, val.value);
      box, useLon := RefineBox(box, useLon, val.value, trail, bits);
      trail := trail + bits;
    }
    assert hash[..|hash|] == hash;
    r := Some(box);
  }

  // ----- what the codec promises

  /** A string is the code of exactly the places that its cell is the place of. */
  lemma EncodesIff(h: string, lat: real, lon: real)
    requires IsHash(h)
    ensures var c := CellOfHash(h); var n := 5 * |h|;
      HashAt(|h|, lat, lon) == h <==> Located(LON, Columns(n), lon, c.x) && Located(LAT, Rows(n), lat, c.y)
  {
    var c, n := CellOfHash(h), 5 * |h|;
    var c' := CellAt(n, lat, lon);
    HashNamesCell(|h|, lat, lon);
    CellRoundTrip(h);
    HashRoundTrip(|h|, c');
    IndexLocated(LON, Columns(n), lon);
    IndexLocated(LAT, Rows(n), lat);
    if Located(LON, Columns(n), lon, c.x) && Located(LAT, Rows(n), lat, c.y) {
      LocatedOnce(LON, Columns(n), lon, c.x, c'.x);
      LocatedOnce(LAT, Rows(n), lat, c.y, c'.y);
    }
  }

  lemma HashIsHash(p: nat, lat: real, lon: real)
    ensures IsHash(HashAt(p, lat, lon)) && CellOfHash(HashAt(p, lat, lon)) == CellAt(5 * p, lat, lon)
  {
    HashNamesCell(p, lat, lon);
    HashRoundTrip(p, CellAt(5 * p, lat, lon));
  }

  /** A place in the world lies in the box of its code. */
  lemma PlaceInItsBox(p: nat, lat: real, lon: real)
    requires -90.0 <= lat <= 90.0 && -180.0 <= lon <= 180.0
    ensures IsHash(HashAt(p, lat, lon)) && BoxOfHash(HashAt(p, lat, lon)).value.Contains(Point(lat, lon))
  {
    HashIsHash(p, lat, lon);
    BoxIsCell(HashAt(p, lat, lon));
    IndexContains(LON, Columns(5 * p), lon);
    IndexContains(LAT, Rows(5 * p), lat);
  }

  /** `decode`: the middle of the box. */
  ghost function Decode(h: string): Option<Point> {
    var box :- BoxOfHash(h);
    Some(Point((box.minLat + box.maxLat) / 2.0, (box.minLon + box.maxLon) / 2.0))
  }

  /** The middle of a string's box encodes to the string. */
  lemma DecodedEncodesBack(h: string)
    requires IsHash(h)
    ensures HashAt(|h|, Decode(h).value.lat, Decode(h).value.lon) == h
  {
    var c, n := CellOfHash(h), 5 * |h|;
    BoxIsCell(h);
    GridSize(n, c);
    MiddleInside(LON, Columns(n), c.x);
    MiddleInside(LAT, Rows(n), c.y);
    EncodesIff(h, Decode(h).value.lat, Decode(h).value.lon);
  }

  /** A shorter code is a prefix of a longer one. */
  lemma {:induction false} ShorterIsPrefix(k: nat, p: nat, lat: real, lon: real)
    requires k <= p
    ensures HashAt(p, lat, lon)[..k] == HashAt(k, lat, lon)
  {
    if k < p { ShorterIsPrefix(k, p - 1, lat, lon); }
  }

  lemma {:induction false} BitsNest(bits: Bits, k: nat)
    requires k <= |bits|
    ensures var box := BoxOfBits(bits);
      box.minLat < box.maxLat && box.minLon < box.maxLon && BoxOfBits(bits[..k]).Covers(box)
  {
    if bits != [] {
      var front := bits[..|bits| - 1];
      BitsNest(front, if k < |bits| then k else 0);
      assert k < |bits| ==> front[..k] == bits[..k];
      assert k == |bits| ==> bits[..k] == bits;
    } else {
      assert bits[..k] == [];
    }
  }

  /** The box of a string lies in the box of each of its prefixes. */
  lemma PrefixCovers(h: string, k: nat)
    requires IsHash(h) && k <= |h|
    ensures IsHash(h[..k]) && BoxOfHash(h[..k]).value.Covers(BoxOfHash(h).value)
  {
    UnpackFront(h, k);
    BitsNest(Unpack(h).value, 5 * k);
  }

  function Parent(h: string): string {
    if |h| <= 1 then "" else h[..|h| - 1]
  }

  /** The parent lacks the last letter and no more, and its box covers the child's. */
  lemma ParentCovers(h: string)
    requires IsHash(h)
    ensures Parent(h) <= h && |Parent(h)| == if h == "" then 0 else |h| - 1
    ensures IsHash(Parent(h)) && BoxOfHash(Parent(h)).value.Covers(BoxOfHash(h).value)
  {
    PrefixCovers(h, |Parent(h)|);
  }

  /** The parent of a place's code is the place's code with one letter less. */
  lemma ParentOfCode(p: nat, lat: real, lon: real)
    requires p >= 1
    ensures Parent(HashAt(p, lat, lon)) == HashAt(p - 1, lat, lon)
  {
    ShorterIsPrefix(p - 1, p, lat, lon);
  }
}
