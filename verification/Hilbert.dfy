/**
 * The Hilbert space-filling curve of cpp/spatial/hilbert.cpp.
 *
 * `XyToD` and `DToXY` are the two loops of the source, over 32-bit unsigned
 * words held as naturals with the wrap-around written out. Each is proved
 * against a top-down recursive description of the curve, and what the curve
 * promises (bijection, adjacency, end points) is proved of that description.
 */
module Hilbert {
  import opened Powers

  /** One past the largest `uint32_t`, and one past the largest `uint64_t`. */
  const WORD: nat := 0x1_0000_0000
  const LONG: nat := 0x1_0000_0000_0000_0000

  datatype Cell = Cell(x: nat, y: nat)

  predicate InGrid(k: nat, c: Cell) {
    c.x < Pow2(k) && c.y < Pow2(k)
  }

  /** Quadrants in the order the curve visits them: up the left half, down the right half. */
  datatype Quad = Q0 | Q1 | Q2 | Q3

  /** Where a quadrant's stretch of the curve begins, in a square whose quadrants hold m cells. */
  function Start(q: Quad, m: nat): nat {
    match q case Q0 => 0 case Q1 => m case Q2 => 2 * m case Q3 => 3 * m
  }

  /** The quadrant whose stretch of the curve holds the distance d. */
  function QuadAt(d: nat, m: nat): (q: Quad)
    requires d < 4 * m
    ensures Start(q, m) <= d < Start(q, m) + m
  {
    if d < m then Q0 else if d < 2 * m then Q1 else if d < 3 * m then Q2 else Q3
  }

  /** The quadrant of the square of side 2s that holds the cell c. */
  function QuadOf(s: nat, c: Cell): Quad {
    if c.x < s then (if c.y < s then Q0 else Q1) else (if c.y < s then Q3 else Q2)
  }

  /** Puts a cell of an s by s square into a quadrant: transposed, shifted, or turned over. */
  function Place(s: nat, q: Quad, c: Cell): (r: Cell)
    requires c.x < s && c.y < s
    ensures r.x < 2 * s && r.y < 2 * s
  {
    match q
    case Q0 => Cell(c.y, c.x)
    case Q1 => Cell(c.x, c.y + s)
    case Q2 => Cell(c.x + s, c.y + s)
    case Q3 => Cell(2 * s - 1 - c.y, s - 1 - c.x)
  }

  /** Takes a cell of the square of side 2s back to the s by s square of its quadrant. */
  function Inner(s: nat, c: Cell): (r: Cell)
    requires c.x < 2 * s && c.y < 2 * s
    ensures r.x < s && r.y < s
    ensures Place(s, QuadOf(s, c), r) == c
  {
    match QuadOf(s, c)
    case Q0 => Cell(c.y, c.x)
    case Q1 => Cell(c.x, c.y - s)
    case Q2 => Cell(c.x - s, c.y - s)
    case Q3 => Cell(s - 1 - c.y, 2 * s - 1 - c.x)
  }

  /** Distance along the order-k curve of a cell of the 2^k by 2^k grid. */
  function ToIndex(k: nat, c: Cell): (d: nat)
    requires InGrid(k, c)
    ensures d < Pow4(k)
  {
    if k == 0 then 0
    else Start(QuadOf(Pow2(k - 1), c), Pow4(k - 1)) + ToIndex(k - 1, Inner(Pow2(k - 1), c))
  }

  predicate Inside(s: nat, curve: seq<Cell>) {
    forall i :: 0 <= i < |curve| ==> curve[i].x < s && curve[i].y < s
  }

  /** A curve through an s by s square, moved into one quadrant. */
  function Copy(s: nat, q: Quad, curve: seq<Cell>): (r: seq<Cell>)
    requires Inside(s, curve)
    ensures |r| == |curve| && Inside(2 * s, r)
  {
    seq(|curve|, i requires 0 <= i < |curve| => Place(s, q, curve[i]))
  }

  /** Four copies of a curve, one in each quadrant, laid end to end. */
  function FourCopies(s: nat, curve: seq<Cell>): (r: seq<Cell>)
    requires Inside(s, curve)
    ensures |r| == 4 * |curve| && Inside(2 * s, r)
  {
    Copy(s, Q0, curve) + Copy(s, Q1, curve) + Copy(s, Q2, curve) + Copy(s, Q3, curve)
  }

  /** The order-k curve: every cell of the 2^k by 2^k grid, in the order it is met. */
  function Curve(k: nat): (r: seq<Cell>)
    ensures |r| == Pow4(k) && Inside(Pow2(k), r)
    decreases k, 1
  {
    if k == 0 then [Cell(0, 0)] else Refined(k)
  }

  /** The curve of the order before, four times. */
  function Refined(k: nat): (r: seq<Cell>)
    requires k > 0
    ensures |r| == Pow4(k) && Inside(Pow2(k), r)
    decreases k, 0
  {
    FourCopies(Pow2(k - 1), Curve(k - 1))
  }

  lemma CellInQuad(s: nat, curve: seq<Cell>, q: Quad, r: nat)
    requires Inside(s, curve) && r < |curve|
    ensures Start(q, |curve|) + r < 4 * |curve|
    ensures FourCopies(s, curve)[Start(q, |curve|) + r] == Place(s, q, curve[r])
  {
  }

  lemma InnerPlace(s: nat, q: Quad, c: Cell)
    requires c.x < s && c.y < s
    ensures QuadOf(s, Place(s, q, c)) == q && Inner(s, Place(s, q, c)) == c
  {
  }

  lemma CurveInQuad(k: nat, q: Quad, r: nat, d: nat)
    requires k > 0 && r < Pow4(k - 1) && d == Start(q, Pow4(k - 1)) + r
    ensures d < Pow4(k) && Curve(k)[d] == Place(Pow2(k - 1), q, Curve(k - 1)[r])
  {
    CellInQuad(Pow2(k - 1), Curve(k - 1), q, r);
  }

  /** Every cell is met: decoding its index gives the cell back. */
  lemma {:induction false} CellOfIndex(k: nat, c: Cell)
    requires InGrid(k, c)
    ensures Curve(k)[ToIndex(k, c)] == c
  {
    if k > 0 {
      var s := Pow2(k - 1);
      CellOfIndex(k - 1, Inner(s, c));
      CurveInQuad(k, QuadOf(s, c), ToIndex(k - 1, Inner(s, c)), ToIndex(k, c));
    }
  }

  /** No cell is met twice: encoding the cell at a distance gives the distance back. */
  lemma {:induction false} IndexOfCell(k: nat, d: nat)
    requires d < Pow4(k)
    ensures ToIndex(k, Curve(k)[d]) == d
  {
    if k > 0 {
      var s, m := Pow2(k - 1), Pow4(k - 1);
      var q := QuadAt(d, m);
      var r := d - Start(q, m);
      IndexOfCell(k - 1, r);
      CurveInQuad(k, q, r, d);
      InnerPlace(s, q, Curve(k - 1)[r]);
    }
  }

  function Apart(a: nat, b: nat): nat {
    if a <= b then b - a else a - b
  }

  predicate Neighbours(a: Cell, b: Cell) {
    Apart(a.x, b.x) + Apart(a.y, b.y) == 1
  }

  /** Each cell is at Manhattan distance exactly one from the next. */
  predicate Chained(curve: seq<Cell>) {
    forall i, j :: 0 <= i < |curve| && j == i + 1 < |curve| ==> Neighbours(curve[i], curve[j])
  }

  lemma PlaceKeepsNeighbours(s: nat, q: Quad, a: Cell, b: Cell)
    requires a.x < s && a.y < s && b.x < s && b.y < s && Neighbours(a, b)
    ensures Neighbours(Place(s, q, a), Place(s, q, b))
  {
  }

  lemma CopyIsChained(s: nat, q: Quad, curve: seq<Cell>)
    requires Inside(s, curve) && Chained(curve)
    ensures Chained(Copy(s, q, curve))
  {
    forall i, j | 0 <= i < |curve| && j == i + 1 < |curve| ensures Neighbours(Copy(s, q, curve)[i], Copy(s, q, curve)[j]) {
      PlaceKeepsNeighbours(s, q, curve[i], curve[j]);
    }
  }

  lemma ConcatIsChained(a: seq<Cell>, b: seq<Cell>)
    requires Chained(a) && Chained(b) && |a| > 0 && |b| > 0
    requires Neighbours(a[|a| - 1], b[0])
    ensures Chained(a + b)
  {
  }

  /** A path of unit steps that enters at the origin and leaves at the far end of the bottom row. */
  predicate IsPath(s: nat, c: seq<Cell>) {
    s > 0 && c != [] && Chained(c) && c[0] == Cell(0, 0) && c[|c| - 1] == Cell(s - 1, 0)
  }

  lemma {:induction false} CurvePath(k: nat)
    ensures IsPath(Pow2(k), Curve(k))
  {
    if k > 0 {
      CurvePath(k - 1);
      FourCopiesArePath(Pow2(k - 1), Curve(k - 1));
    }
  }

  /**
   * Consecutive distances are neighbouring cells; the curve enters at the origin
   * and leaves at the far end of the bottom row.
   */
  lemma CurveIsPath(k: nat)
    ensures Chained(Curve(k))
    ensures Curve(k)[0] == Cell(0, 0)
    ensures Curve(k)[Pow4(k) - 1] == Cell(Pow2(k) - 1, 0)
  {
    CurvePath(k);
  }

  lemma FourCopiesArePath(s: nat, c: seq<Cell>)
    requires Inside(s, c) && IsPath(s, c)
    ensures IsPath(2 * s, FourCopies(s, c))
  {
    CopiesMeet(s, c);
    CopyIsChained(s, Q0, c);
    CopyIsChained(s, Q1, c);
    CopyIsChained(s, Q2, c);
    CopyIsChained(s, Q3, c);
    FourChained(Copy(s, Q0, c), Copy(s, Q1, c), Copy(s, Q2, c), Copy(s, Q3, c));
  }

  /** Each copy of a curve begins beside the end of the one before; the first begins where the last ends, far along the row. */
  lemma CopiesMeet(s: nat, c: seq<Cell>)
    requires Inside(s, c) && c != [] && c[0] == Cell(0, 0) && c[|c| - 1] == Cell(s - 1, 0)
    ensures Meet(Copy(s, Q0, c), Copy(s, Q1, c)) && Meet(Copy(s, Q1, c), Copy(s, Q2, c)) && Meet(Copy(s, Q2, c), Copy(s, Q3, c))
    ensures Copy(s, Q0, c)[0] == Cell(0, 0) && Copy(s, Q3, c)[|c| - 1] == Cell(2 * s - 1, 0)
  {
  }

  predicate Meet(a: seq<Cell>, b: seq<Cell>) {
    a != [] && b != [] && Neighbours(a[|a| - 1], b[0])
  }

  lemma FourChained(a: seq<Cell>, b: seq<Cell>, c: seq<Cell>, d: seq<Cell>)
    requires Chained(a) && Chained(b) && Chained(c) && Chained(d) && Meet(a, b) && Meet(b, c) && Meet(c, d)
    ensures var all := a + b + c + d; Chained(all) && all[0] == a[0] && all[|all| - 1] == d[|d| - 1]
  {
    ConcatIsChained(a, b);
    ConcatIsChained(a + b, c);
    ConcatIsChained(a + b + c, d);
  }

  // ----- xyToD

  /** Whether `(v & s) > 0`, for a power of two s. */
  function And(v: nat, s: nat): (bit: nat)
    requires s > 0
    ensures bit < 2
  {
    if s == 1 then v % 2 else And(v / 2, s / 2)
  }

  /** The number held in the j low bits of a word. */
  function Low(v: nat, j: nat): (r: nat)
    ensures r < Pow2(j)
  {
    if j == 0 then 0 else v % 2 + 2 * Low(v / 2, j - 1)
  }

  lemma DoubleRemainder(v: nat, h: nat, p: nat)
    requires p > 0 && h == v / 2
    ensures v % (2 * p) == v % 2 + 2 * (h % p)
  {
    var q := h / p;
    assert h == q * p + h % p;
    assert q * (2 * p) == 2 * (q * p);
    DivModUnique(q, v % 2 + 2 * (h % p), 2 * p);
  }

  lemma {:induction false} LowIsRemainder(v: nat, j: nat)
    ensures Low(v, j) == v % Pow2(j)
  {
    if j > 0 {
      var p, h := Pow2(j - 1), v / 2;
      LowIsRemainder(h, j - 1);
      DoubleRemainder(v, h, p);
    }
  }

  lemma {:induction false} LowSplitsTopBit(v: nat, j: nat)
    ensures Low(v, j + 1) == Low(v, j) + if And(v, Pow2(j)) == 1 then Pow2(j) else 0
  {
    if j > 0 { LowSplitsTopBit(v / 2, j - 1); }
  }

  /** `s - 1 - v` on an unsigned word that holds the numbers below m. */
  function Reflect(v: nat, s: nat, m: nat): (r: nat)
    requires 0 < s <= m && v < m
    ensures r < m
  {
    if v < s then s - 1 - v else m + s - 1 - v
  }

  /** Wrap-around does no harm: below s the bits come out reflected whether or not v exceeds s. */
  lemma {:induction false} ReflectLowBits(v: nat, j: nat, w: nat)
    requires j <= w && v < Pow2(w)
    ensures Pow2(j) <= Pow2(w)
    ensures Low(Reflect(v, Pow2(j), Pow2(w)), j) == Pow2(j) - 1 - Low(v, j)
  {
    Pow2Monotone(j, w);
    if j > 0 {
      ReflectLowBits(v / 2, j - 1, w - 1);
      var r := Reflect(v, Pow2(j), Pow2(w));
      assert r / 2 == Reflect(v / 2, Pow2(j - 1), Pow2(w - 1));
      assert r % 2 == 1 - v % 2;
    }
  }

  /** Which quadrant the two bits at s select. */
  function QuadOfBits(rx: nat, ry: nat): Quad {
    if rx == 1 then (if ry == 1 then Q2 else Q3) else (if ry == 1 then Q1 else Q0)
  }

  /** `s * s * ((3 * rx) ^ ry)` on single bits. */
  function Weight(s: nat, rx: nat, ry: nat): nat
    requires rx < 2 && ry < 2
  {
    s * s * (if rx == 1 then 3 - ry else ry)
  }

  lemma WeightIsStart(s: nat, rx: nat, ry: nat, m: nat)
    requires rx < 2 && ry < 2 && m == s * s
    ensures Weight(s, rx, ry) == Start(QuadOfBits(rx, ry), m)
  {
  }

  lemma InnerOfBits(s: nat, c: Cell, lx: nat, ly: nat, rx: nat, ry: nat)
    requires lx < s && ly < s && rx < 2 && ry < 2
    requires c == Cell(lx + if rx == 1 then s else 0, ly + if ry == 1 then s else 0)
    ensures QuadOf(s, c) == QuadOfBits(rx, ry)
    ensures Inner(s, c) ==
            match QuadOfBits(rx, ry)
            case Q0 => Cell(ly, lx)
            case Q3 => Cell(s - 1 - ly, s - 1 - lx)
            case _ => Cell(lx, ly)
  {
  }

  /** The words that one pass of the `XyToD` loop leaves for the next pass. */
  function Pass(s: nat, x: nat, y: nat): (r: (nat, nat))
    requires 0 < s <= WORD && x < WORD && y < WORD
    ensures r.0 < WORD && r.1 < WORD
  {
    if And(y, s) != 0 then (x, y)
    else if And(x, s) == 1 then (Reflect(y, s, WORD), Reflect(x, s, WORD))
    else (y, x)
  }

  function LowCell(x: nat, y: nat, j: nat): (c: Cell)
    ensures InGrid(j, c)
  {
    Cell(Low(x, j), Low(y, j))
  }

  lemma LowCellSplits(j: nat, x: nat, y: nat)
    ensures var s, c := Pow2(j), LowCell(x, y, j + 1);
            && QuadOf(s, c) == QuadOfBits(And(x, s), And(y, s))
            && Inner(s, c) == match QuadOfBits(And(x, s), And(y, s))
                              case Q0 => Cell(Low(y, j), Low(x, j))
                              case Q3 => Cell(s - 1 - Low(y, j), s - 1 - Low(x, j))
                              case _ => Cell(Low(x, j), Low(y, j))
  {
    LowSplitsTopBit(x, j);
    LowSplitsTopBit(y, j);
    InnerOfBits(Pow2(j), LowCell(x, y, j + 1), Low(x, j), Low(y, j), And(x, Pow2(j)), And(y, Pow2(j)));
  }

  lemma ReflectWord(v: nat, j: nat)
    requires j <= 31 && v < WORD
    ensures Pow2(j) <= WORD
    ensures Low(Reflect(v, Pow2(j), WORD), j) == Pow2(j) - 1 - Low(v, j)
  {
    WordSize();
    ReflectLowBits(v, j, 32);
  }

  lemma PassLowBits(j: nat, x: nat, y: nat)
    requires j <= 31 && x < WORD && y < WORD
    ensures Pow2(j) <= WORD
    ensures var r := Pass(Pow2(j), x, y);
            Inner(Pow2(j), LowCell(x, y, j + 1)) == LowCell(r.0, r.1, j)
  {
    LowCellSplits(j, x, y);
    ReflectWord(x, j);
    ReflectWord(y, j);
    PassCases(Pow2(j), j, x, y, LowCell(x, y, j + 1));
  }

  lemma PassCases(s: nat, j: nat, x: nat, y: nat, c: Cell)
    requires 0 < s <= WORD && x < WORD && y < WORD && c.x < 2 * s && c.y < 2 * s
    requires Low(Reflect(x, s, WORD), j) == s - 1 - Low(x, j)
    requires Low(Reflect(y, s, WORD), j) == s - 1 - Low(y, j)
    requires Inner(s, c) == match QuadOfBits(And(x, s), And(y, s))
                            case Q0 => Cell(Low(y, j), Low(x, j))
                            case Q3 => Cell(s - 1 - Low(y, j), s - 1 - Low(x, j))
                            case _ => Cell(Low(x, j), Low(y, j))
    ensures var r := Pass(s, x, y); Inner(s, c) == LowCell(r.0, r.1, j)
  {
  }

  /** What is still to be added when only the j low bits of the words are unread. */
  function Remaining(j: nat, x: nat, y: nat): nat {
    ToIndex(j, LowCell(x, y, j))
  }

  /** One pass peels the top digit of the distance and keeps the rest. */
  lemma OnePass(j: nat, x: nat, y: nat)
    requires j < 31 && x < WORD && y < WORD
    ensures Pow2(j) <= WORD
    ensures var s, r := Pow2(j), Pass(Pow2(j), x, y);
            Remaining(j + 1, x, y) == Weight(s, And(x, s), And(y, s)) + Remaining(j, r.0, r.1)
  {
    LowCellSplits(j, x, y);
    PassLowBits(j, x, y);
    Pow4IsSquare(j);
    WeightIsStart(Pow2(j), And(x, Pow2(j)), And(y, Pow2(j)), Pow4(j));
  }

  lemma Pow4Fits(k: nat)
    requires k <= 31
    ensures Pow4(k) <= 0x4000_0000_0000_0000
  {
    WordSize();
    Pow4IsSquare(31);
    Pow4Monotone(k, 31);
  }

  /** `a + b` on `uint64_t`. */
  function AddLong(a: nat, b: nat): (r: nat)
    ensures a + b < LONG ==> r == a + b
  {
    (a + b) % LONG
  }

  method XyToD(ghost k: nat, n: nat, x0: nat, y0: nat) returns (d: nat)
    requires k <= 31 && n == Pow2(k)
    requires x0 < WORD && y0 < WORD
    ensures d == ToIndex(k, Cell(x0 % n, y0 % n))
  {
    var x: nat, y: nat, s: nat := x0, y0, n / 2;
    d := 0;
    ghost var j, goal := k, Remaining(k, x0, y0);
    Pow4Fits(k);
    while s > 0
      invariant 0 <= j <= k && s == if j == 0 then 0 else Pow2(j - 1)
      invariant x < WORD && y < WORD
      invariant d + Remaining(j, x, y) == goal
      decreases s
    {
      j := j - 1;
      OnePass(j, x, y);
      ghost var r := Pass(s, x, y);
      var rx, ry := And(x, s), And(y, s);
      d := AddLong(d, Weight(s, rx, ry));
      if ry == 0 {
        if rx == 1 {
          x, y := Reflect(x, s, WORD), Reflect(y, s, WORD);
        }
        x, y := y, x;
      }
      assert r == (x, y);
      s := s / 2;
    }
    LowIsRemainder(x0, k);
    LowIsRemainder(y0, k);
  }

  // ----- dToXY

  function QuadOfDigit(q: nat): Quad {
    if q == 0 then Q0 else if q == 1 then Q1 else if q == 2 then Q2 else Q3
  }

  /** A distance with its j low base-4 digits dropped. */
  function Shifted(d: nat, j: nat): nat {
    if j == 0 then d else Shifted(d, j - 1) / 4
  }

  /** The cell built from the j low base-4 digits of a distance, lowest digit innermost. */
  function Trace(j: nat, d: nat): (c: Cell)
    ensures InGrid(j, c)
  {
    if j == 0 then Cell(0, 0)
    else Place(Pow2(j - 1), QuadOfDigit(Shifted(d, j - 1) % 4), Trace(j - 1, d))
  }

  /** The number held in the j low base-4 digits of a distance. */
  function LowDigits(d: nat, j: nat): (r: nat)
    ensures r < Pow4(j)
  {
    if j == 0 then 0
    else Start(QuadOfDigit(Shifted(d, j - 1) % 4), Pow4(j - 1)) + LowDigits(d, j - 1)
  }

  lemma StartOfDigit(q: nat, m: nat)
    requires q < 4
    ensures q * m == Start(QuadOfDigit(q), m)
  {
  }

  lemma NextDigit(d: nat, m: nat, h: nat, l: nat)
    requires d == h * m + l
    ensures d == (h / 4) * (4 * m) + (Start(QuadOfDigit(h % 4), m) + l)
  {
    assert h * m == (h / 4) * (4 * m) + (h % 4) * m;
    StartOfDigit(h % 4, m);
  }

  lemma {:induction false} SplitDigits(d: nat, j: nat)
    ensures d == Shifted(d, j) * Pow4(j) + LowDigits(d, j)
  {
    if j > 0 {
      SplitDigits(d, j - 1);
      NextDigit(d, Pow4(j - 1), Shifted(d, j - 1), LowDigits(d, j - 1));
    }
  }

  lemma LowDigitsIsRemainder(d: nat, j: nat)
    ensures LowDigits(d, j) == d % Pow4(j)
  {
    SplitDigits(d, j);
    DivModUnique(Shifted(d, j), LowDigits(d, j), Pow4(j));
  }

  /** Building a cell digit by digit from the bottom follows the curve. */
  lemma {:induction false} TraceFollowsCurve(k: nat, d: nat)
    ensures Trace(k, d) == Curve(k)[LowDigits(d, k)]
  {
    if k > 0 {
      TraceFollowsCurve(k - 1, d);
      NextOnCurve(k, QuadOfDigit(Shifted(d, k - 1) % 4), LowDigits(d, k - 1), Trace(k - 1, d), LowDigits(d, k));
    }
  }

  lemma NextOnCurve(k: nat, q: Quad, r: nat, c: Cell, j: nat)
    requires k > 0 && r < Pow4(k - 1) && c == Curve(k - 1)[r] && j == Start(q, Pow4(k - 1)) + r
    ensures c.x < Pow2(k - 1) && c.y < Pow2(k - 1) && j < Pow4(k) && Place(Pow2(k - 1), q, c) == Curve(k)[j]
  {
    CurveInQuad(k, q, r, j);
  }

  /** The bits `rx` and `ry` that `DToXY` reads from a digit. */
  lemma BitsOfDigit(d: nat)
    ensures QuadOfDigit(d % 4) == QuadOfBits(d / 2 % 2, (d + d / 2 % 2) % 2)
  {
  }

  /** The reflection and swap in one pass of the `DToXY` loop. */
  function Turned(s: nat, rx: nat, ry: nat, c: Cell): Cell
    requires c.x < s && c.y < s
  {
    if ry != 0 then c else if rx == 1 then Cell(s - 1 - c.y, s - 1 - c.x) else Cell(c.y, c.x)
  }

  lemma TurnThenShift(s: nat, rx: nat, ry: nat, c: Cell)
    requires c.x < s && c.y < s && rx < 2 && ry < 2
    ensures var t := Turned(s, rx, ry, c);
            Cell(t.x + s * rx, t.y + s * ry) == Place(s, QuadOfBits(rx, ry), c)
  {
    assert s * 0 == 0 && s * 1 == s;
  }

  /** One pass of the `DToXY` loop over x and y. */
  method PlaceByDigit(s: nat, d: nat, x0: nat, y0: nat) returns (x: nat, y: nat)
    requires x0 < s && y0 < s
    ensures Cell(x, y) == Place(s, QuadOfDigit(d % 4), Cell(x0, y0))
  {
    x, y := x0, y0;
    var rx, ry := d / 2 % 2, (d + d / 2 % 2) % 2;
    if ry == 0 {
      if rx == 1 {
        x, y := s - 1 - x, s - 1 - y;
      }
      x, y := y, x;
    }
    assert Cell(x, y) == Turned(s, rx, ry, Cell(x0, y0));
    TurnThenShift(s, rx, ry, Cell(x0, y0));
    BitsOfDigit(d);
    x, y := x + s * rx, y + s * ry;
  }

  method DToXY(ghost k: nat, n: nat, d0: nat) returns (x: nat, y: nat)
    requires k <= 31 && n == Pow2(k)
    ensures Cell(x, y) == Curve(k)[d0 % Pow4(k)]
  {
    x, y := 0, 0;
    var s: nat, d: nat := 1, d0;
    ghost var j := 0;
    while s < n
      invariant 0 <= j <= k && s == Pow2(j)
      invariant d == Shifted(d0, j)
      invariant Cell(x, y) == Trace(j, d0)
      decreases k - j
    {
      x, y := PlaceByDigit(s, d, x, y);
      d, s, j := d / 4, 2 * s, j + 1;
    }
    Pow2Injective(j, k);
    TraceFollowsCurve(k, d0);
    LowDigitsIsRemainder(d0, k);
  }

  // ----- encodeLonLat and decode, over the reals

  /** Column (or row) of a coordinate in a world that starts at lo and is `span` wide. */
  function GridLine(n: nat, v: real, lo: real, span: real): (x: nat)
    requires n > 0 && span > 0.0 && lo <= v
    ensures x < n
  {
    var t := (v - lo) / span * n as real;
    assert t >= 0.0;
    if t.Floor < n then t.Floor else n - 1
  }

  function CoordOf(n: nat, x: nat, lo: real, span: real): real
    requires n > 0
  {
    x as real / n as real * span + lo
  }

  predicate InWorld(lon: real, lat: real) {
    -180.0 <= lon <= 180.0 && -90.0 <= lat <= 90.0
  }

  function EncodeLonLat(k: nat, lon: real, lat: real): nat
    requires InWorld(lon, lat)
  {
    ToIndex(k, Cell(GridLine(Pow2(k), lon, -180.0, 360.0), GridLine(Pow2(k), lat, -90.0, 180.0)))
  }

  /** Longitude and latitude of the low corner of the cell at a distance. */
  function Decode(k: nat, d: nat): (real, real)
    requires d < Pow4(k)
  {
    var c := Curve(k)[d];
    (CoordOf(Pow2(k), c.x, -180.0, 360.0), CoordOf(Pow2(k), c.y, -90.0, 180.0))
  }

  lemma MulDiv(q: real, span: real)
    requires span != 0.0
    ensures q * span / span == q && q / span * span == q
  {
  }

  lemma MulOrder(a: real, b: real, c: real)
    requires c > 0.0
    ensures (a < b <==> a * c < b * c) && (a == b <==> a * c == b * c)
  {
    if a < b {
      assert (b - a) * c > 0.0;
    } else if b < a {
      assert (a - b) * c > 0.0;
    }
  }

  lemma CoordSplits(n: nat, x: nat, lo: real, span: real) returns (q: real)
    requires x < n
    ensures 0.0 <= q < 1.0 && q * n as real == x as real && CoordOf(n, x, lo, span) == q * span + lo
  {
    q := x as real / n as real;
    MulDiv(x as real, n as real);
  }

  lemma GridLineOfCoord(n: nat, x: nat, lo: real, span: real)
    requires x < n && span > 0.0
    ensures lo <= CoordOf(n, x, lo, span) < lo + span
    ensures GridLine(n, CoordOf(n, x, lo, span), lo, span) == x
  {
    var q := CoordSplits(n, x, lo, span);
    MulOrder(q, 1.0, span);
    MulOrder(0.0, q, span);
    GridLineIs(n, CoordOf(n, x, lo, span), lo, span, q, x);
  }

  lemma GridLineIs(n: nat, v: real, lo: real, span: real, q: real, x: nat)
    requires x < n && span > 0.0 && lo <= v == q * span + lo && q * n as real == x as real
    ensures GridLine(n, v, lo, span) == x
  {
    MulDiv(q, span);
    assert v - lo == q * span;
  }

  /** A real number u of cells, rounded down to a whole number x of cells, times the cell size. */
  lemma RoundDown(u: real, x: real, m: real, span: real)
    requires m > 0.0 && span > 0.0 && x <= u * m
    ensures x / m * span <= u * span
    ensures u * m < x + 1.0 ==> u * span < x / m * span + span / m
    ensures u * m == x + 1.0 ==> u * span == x / m * span + span / m
  {
    var c := span / m;
    MulDiv(span, m);
    MulDiv(x, m);
    Scaled(u, m, c, span);
    Scaled(x / m, m, c, span);
    MulOrder(x, u * m, c);
    MulOrder(u * m, x + 1.0, c);
    assert (x + 1.0) * c == x * c + c;
  }

  lemma Scaled(u: real, m: real, c: real, span: real)
    requires c * m == span
    ensures u * span == u * m * c
  {
    assert u * (c * m) == u * m * c;
  }

  lemma CoordOfGridLine(n: nat, v: real, lo: real, span: real)
    requires n > 0 && span > 0.0 && lo <= v <= lo + span
    ensures var c := CoordOf(n, GridLine(n, v, lo, span), lo, span);
            c <= v && (v < c + span / n as real || v == lo + span == c + span / n as real)
  {
    var u, x := (v - lo) / span, GridLine(n, v, lo, span);
    MulDiv(v - lo, span);
    Fraction(u, span, v - lo);
    MulOrder(u, 1.0, n as real);
    RoundDown(u, x as real, n as real, span);
  }

  lemma Fraction(u: real, span: real, part: real)
    requires span > 0.0 && u * span == part && 0.0 <= part <= span
    ensures 0.0 <= u <= 1.0
  {
    MulOrder(u, 0.0, span);
    MulOrder(u, 1.0, span);
  }

  /** Decoding any distance and encoding the point again gives the distance back. */
  lemma ReencodeDecoded(k: nat, d: nat)
    requires d < Pow4(k)
    ensures var p := Decode(k, d); InWorld(p.0, p.1) && EncodeLonLat(k, p.0, p.1) == d
  {
    var c := Curve(k)[d];
    GridLineOfCoord(Pow2(k), c.x, -180.0, 360.0);
    GridLineOfCoord(Pow2(k), c.y, -90.0, 180.0);
    IndexOfCell(k, d);
  }

  /** A point and what its index decodes to are less than one cell apart in each direction. */
  lemma DecodeEncoded(k: nat, lon: real, lat: real)
    requires InWorld(lon, lat)
    ensures var p := Decode(k, EncodeLonLat(k, lon, lat));
            && 0.0 <= lon - p.0 <= 360.0 / Pow2(k) as real
            && 0.0 <= lat - p.1 <= 180.0 / Pow2(k) as real
            && (lon - p.0 == 360.0 / Pow2(k) as real ==> lon == 180.0)
            && (lat - p.1 == 180.0 / Pow2(k) as real ==> lat == 90.0)
  {
    var n := Pow2(k);
    CellOfIndex(k, Cell(GridLine(n, lon, -180.0, 360.0), GridLine(n, lat, -90.0, 180.0)));
    CoordOfGridLine(n, lon, -180.0, 360.0);
    CoordOfGridLine(n, lat, -90.0, 180.0);
  }

  // ----- which axis is which

  lemma HalfWay(t: real, v: real, lo: real, span: real, m: nat)
    requires m > 0 && span > 0.0 && t == (v - lo) / span
    ensures t * (2 * m) as real >= m as real <==> v >= lo + span / 2.0
  {
    MulDiv(v - lo, span);
    MulOrder(t, 0.5, span);
    MulOrder(t, 0.5, (2 * m) as real);
    assert 0.5 * (2 * m) as real == m as real;
  }

  /** The upper half of the grid lines are those of the upper half of the world. */
  lemma UpperLines(m: nat, v: real, lo: real, span: real)
    requires m > 0 && span > 0.0 && lo <= v
    ensures GridLine(2 * m, v, lo, span) >= m <==> v >= lo + span / 2.0
  {
    HalfWay((v - lo) / span, v, lo, span, m);
  }

  /** The curve goes through the south-west, the north-west, the north-east and the south-east of the world, in turn. */
  lemma Quarters(k: nat, lon: real, lat: real)
    requires k >= 1 && InWorld(lon, lat)
    ensures var d, m := EncodeLonLat(k, lon, lat), Pow4(k - 1);
      && (lon < 0.0 && lat < 0.0 <==> d < m)
      && (lon < 0.0 && lat >= 0.0 <==> m <= d < 2 * m)
      && (lon >= 0.0 && lat >= 0.0 <==> 2 * m <= d < 3 * m)
      && (lon >= 0.0 && lat < 0.0 <==> 3 * m <= d < 4 * m)
  {
    var s := Pow2(k - 1);
    UpperLines(s, lon, -180.0, 360.0);
    UpperLines(s, lat, -90.0, 180.0);
  }
}
