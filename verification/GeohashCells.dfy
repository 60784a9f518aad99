/**
 * Geohash strings as addresses of grid cells (cpp/spatial/geohash.cpp): a
 * string of p letters is 5p bits, which address the columns and the rows of a
 * grid in turn, and the string and the cell determine each other.
 */
module GeohashCells {
  import opened Basics
  import opened Powers

  type Bits = seq<bool>

  function BitValue(b: bool): nat {
    if b then 1 else 0
  }

  // ----- letters

  const BASE32: string := "0123456789bcdefghjkmnpqrstuvwxyz"

  /** The place of a letter in the alphabet, which lacks a, i, l and o. */
  function LetterValue(c: char): (r: Option<nat>)
    ensures r.Some? ==> r.value < 32
  {
    if '0' <= c <= '9' then Some(c as int - '0' as int)
    else if 'b' <= c <= 'h' then Some(c as int - 'b' as int + 10)
    else if 'j' <= c <= 'k' then Some(c as int - 'j' as int + 17)
    else if 'm' <= c <= 'n' then Some(c as int - 'm' as int + 19)
    else if 'p' <= c <= 'z' then Some(c as int - 'p' as int + 21)
    else None
  }

  /** The letter at a place of the alphabet. */
  function Letter(v: nat): (c: char)
    requires v < 32
  {
    if v < 10 then '0' + v as char
    else if v < 17 then 'b' + (v - 10) as char
    else if v < 19 then 'j' + (v - 17) as char
    else if v < 21 then 'm' + (v - 19) as char
    else 'p' + (v - 21) as char
  }

  lemma LetterHasValue(v: nat)
    requires v < 32
    ensures LetterValue(Letter(v)) == Some(v)
  {
  }

  lemma ValueHasLetter(c: char)
    requires LetterValue(c).Some?
    ensures Letter(LetterValue(c).value) == c
  {
  }

  lemma Alphabet(v: nat)
    requires v < 32
    ensures |BASE32| == 32 && BASE32[v] == Letter(v)
  {
    if v < 16 {
      assert v == 0 || v == 1 || v == 2 || v == 3 || v == 4 || v == 5 || v == 6 || v == 7 ||
             v == 8 || v == 9 || v == 10 || v == 11 || v == 12 || v == 13 || v == 14 || v == 15;
    } else {
      assert v == 16 || v == 17 || v == 18 || v == 19 || v == 20 || v == 21 || v == 22 || v == 23 ||
             v == 24 || v == 25 || v == 26 || v == 27 || v == 28 || v == 29 || v == 30 || v == 31;
    }
  }

  lemma AlphabetIsWhole(c: char)
    ensures LetterValue(c).Some? <==> c in BASE32
  {
    if LetterValue(c).Some? {
      Alphabet(LetterValue(c).value);
    } else {
      assert |BASE32| == 32;
      forall i | 0 <= i < |BASE32| ensures BASE32[i] != c {
        Alphabet(i);
        LetterHasValue(i);
      }
    }
  }

  /** `BASE32[i]`. */
  method LetterAt(i: nat) returns (c: char)
    requires i < 32
    ensures c == Letter(i)
  {
    Alphabet(i);
    c := BASE32[i];
  }

  /** `charToIdx`; a character outside the alphabet is an error. */
  method CharToIdx(c: char) returns (r: Option<nat>)
    ensures r == LetterValue(c)
  {
    for i := 0 to 32
      invariant forall j :: 0 <= j < i ==> c != Letter(j)
    {
      LetterHasValue(i);
      var letter := LetterAt(i);
      if letter == c { return Some(i); }
    }
    if LetterValue(c).Some? { ValueHasLetter(c); }
    return None;
  }

  // ----- five bits to a letter

  const GROUP: nat := 5

  /** The number that bits spell, the first the highest. */
  function Number(bits: Bits): (n: nat)
    ensures n < Pow2(|bits|)
  {
    if bits == [] then 0 else 2 * Number(bits[..|bits| - 1]) + BitValue(bits[|bits| - 1])
  }

  /** The last k binary digits of a number, the highest first. */
  function Digits(k: nat, n: nat): (bits: Bits)
    ensures |bits| == k
  {
    if k == 0 then [] else Digits(k - 1, n / 2) + [n % 2 == 1]
  }

  lemma {:induction false} NumberOfDigits(k: nat, n: nat)
    requires n < Pow2(k)
    ensures Number(Digits(k, n)) == n
  {
    if k > 0 {
      NumberOfDigits(k - 1, n / 2);
      assert Digits(k, n)[..k - 1] == Digits(k - 1, n / 2);
    }
  }

  lemma {:induction false} DigitsOfNumber(bits: Bits)
    ensures Digits(|bits|, Number(bits)) == bits
  {
    if bits != [] {
      DigitsOfNumber(bits[..|bits| - 1]);
    }
  }

  /** The string whose p letters stand for groups of five bits. */
  function Pack(p: nat, bits: Bits): (h: string)
    requires |bits| == 5 * p
    ensures |h| == p
  {
    if p == 0 then []
    else
      var n := 5 * (p - 1);
      LetterFits(bits[n..]);
      Pack(p - 1, bits[..n]) + [Letter(Number(bits[n..]))]
  }

  lemma LetterFits(group: Bits)
    requires |group| == 5
    ensures Number(group) < 32
  {
    GroupSize();
  }

  lemma GroupSize()
    ensures Pow2(GROUP) == 32
  {
    assert Pow2(5) == 32;
  }

  /** The bits of a string, unless a character is outside the alphabet. */
  function Unpack(h: string): (r: Option<Bits>)
    ensures r.Some? ==> |r.value| == 5 * |h|
  {
    if h == [] then Some([])
    else
      var front :- Unpack(h[..|h| - 1]);
      var v :- LetterValue(h[|h| - 1]);
      Some(front + Digits(GROUP, v))
  }

  lemma PackGroup(p: nat, front: Bits, group: Bits)
    requires |front| == 5 * p && |group| == 5
    ensures Number(group) < 32
    ensures Pack(p + 1, front + group) == Pack(p, front) + [Letter(Number(group))]
  {
    LetterFits(group);
    assert (front + group)[..|front|] == front && (front + group)[|front|..] == group;
  }

  lemma UnpackLetter(front: string, v: nat)
    requires v < 32 && Unpack(front).Some?
    ensures Unpack(front + [Letter(v)]) == Some(Unpack(front).value + Digits(GROUP, v))
  {
    LetterHasValue(v);
    assert (front + [Letter(v)])[..|front|] == front;
  }

  lemma UnpackGroup(p: nat, front: Bits, group: Bits)
    requires |front| == 5 * p && |group| == 5 && Unpack(Pack(p, front)) == Some(front)
    ensures Unpack(Pack(p + 1, front + group)) == Some(front + group)
  {
    PackGroup(p, front, group);
    UnpackLetter(Pack(p, front), Number(group));
    DigitsOfNumber(group);
  }

  lemma {:induction false} UnpackPacked(p: nat, bits: Bits)
    requires |bits| == 5 * p
    ensures Unpack(Pack(p, bits)) == Some(bits)
  {
    if p > 0 {
      var n := 5 * (p - 1);
      UnpackPacked(p - 1, bits[..n]);
      Halves(bits, n);
      UnpackNext(p - 1, bits[..n], bits[n..], bits);
    }
  }

  lemma UnpackNext(p: nat, front: Bits, group: Bits, bits: Bits)
    requires |front| == 5 * p && |group| == 5 && bits == front + group && Unpack(Pack(p, front)) == Some(front)
    ensures Unpack(Pack(p + 1, bits)) == Some(bits)
  {
    UnpackGroup(p, front, group);
  }

  lemma PackDigits(p: nat, bits: Bits, v: nat)
    requires |bits| == 5 * p && v < 32
    ensures Pack(p + 1, bits + Digits(GROUP, v)) == Pack(p, bits) + [Letter(v)]
  {
    GroupSize();
    NumberOfDigits(GROUP, v);
    PackGroup(p, bits, Digits(GROUP, v));
  }

  lemma UnpackLast(h: string) returns (v: nat)
    requires h != [] && Unpack(h).Some?
    ensures v < 32 && Letter(v) == h[|h| - 1] && Unpack(h[..|h| - 1]).Some?
    ensures Unpack(h).value == Unpack(h[..|h| - 1]).value + Digits(GROUP, v)
  {
    ValueHasLetter(h[|h| - 1]);
    v := LetterValue(h[|h| - 1]).value;
  }

  lemma {:induction false} PackUnpacked(h: string)
    requires Unpack(h).Some?
    ensures Pack(|h|, Unpack(h).value) == h
  {
    if h != [] {
      var v := UnpackLast(h);
      PackUnpacked(h[..|h| - 1]);
      PackDigits(|h| - 1, Unpack(h[..|h| - 1]).value, v);
      SplitLast(h);
    }
  }

  lemma SplitLast(h: string)
    requires h != []
    ensures h == h[..|h| - 1] + [h[|h| - 1]]
  {
  }

  /** A bad character spoils every longer string. */
  lemma {:induction false} UnpackFront(h: string, k: nat)
    requires k <= |h| && Unpack(h).Some?
    ensures Unpack(h[..k]).Some? && Unpack(h[..k]).value == Unpack(h).value[..5 * k]
  {
    if k == |h| {
      assert h[..k] == h;
    } else {
      var front := h[..|h| - 1];
      UnpackFront(front, k);
      assert front[..k] == h[..k];
    }
  }

  // ----- bits to a cell

  /** A column and a row. */
  datatype Cell = Cell(x: nat, y: nat)

  /** The bits halve the longitudes and the latitudes in turn, the longitudes first. */
  predicate ByLon(n: nat) {
    n == 0 || !ByLon(n - 1)
  }

  /** Of n bits, those that halve the longitudes, and those that halve the latitudes. */
  function Columns(n: nat): nat {
    if n == 0 then 0 else if ByLon(n - 1) then Columns(n - 1) + 1 else Columns(n - 1)
  }

  function Rows(n: nat): nat {
    if n == 0 then 0 else if ByLon(n - 1) then Rows(n - 1) else Rows(n - 1) + 1
  }

  /** The half of cell c that the (n + 1)-st bit chooses. */
  function Half(n: nat, c: Cell, b: bool): Cell {
    if ByLon(n) then c.(x := 2 * c.x + BitValue(b)) else c.(y := 2 * c.y + BitValue(b))
  }

  /** The cell that c is a half of, and the bit that chooses it. */
  function Whole(n: nat, c: Cell): Cell {
    if ByLon(n) then c.(x := c.x / 2) else c.(y := c.y / 2)
  }

  predicate Chosen(n: nat, c: Cell) {
    if ByLon(n) then c.x % 2 == 1 else c.y % 2 == 1
  }

  lemma HalfOfWhole(n: nat, c: Cell)
    ensures Half(n, Whole(n, c), Chosen(n, c)) == c
  {
  }

  lemma WholeOfHalf(n: nat, c: Cell, b: bool)
    ensures Whole(n, Half(n, c, b)) == c && Chosen(n, Half(n, c, b)) == b
  {
  }

  /** The cells that n halvings of the one cell lead to. */
  predicate InGrid(n: nat, c: Cell) {
    if n == 0 then c == Cell(0, 0) else InGrid(n - 1, Whole(n - 1, c))
  }

  lemma {:induction false} GridSize(n: nat, c: Cell)
    ensures InGrid(n, c) <==> c.x < Pow2(Columns(n)) && c.y < Pow2(Rows(n))
  {
    if n > 0 { GridSize(n - 1, Whole(n - 1, c)); }
  }

  function CellOf(bits: Bits): Cell {
    if bits == [] then Cell(0, 0) else Half(|bits| - 1, CellOf(bits[..|bits| - 1]), bits[|bits| - 1])
  }

  lemma CellOfMore(bits: Bits, b: bool)
    ensures CellOf(bits + [b]) == Half(|bits|, CellOf(bits), b)
  {
    assert (bits + [b])[..|bits|] == bits;
  }

  lemma {:induction false} CellInGrid(bits: Bits)
    ensures InGrid(|bits|, CellOf(bits))
  {
    if bits != [] {
      var front := bits[..|bits| - 1];
      CellInGrid(front);
      WholeOfHalf(|front|, CellOf(front), bits[|front|]);
    }
  }

  function BitsOf(n: nat, c: Cell): (bits: Bits)
    ensures |bits| == n
  {
    if n == 0 then [] else BitsOf(n - 1, Whole(n - 1, c)) + [Chosen(n - 1, c)]
  }

  lemma {:induction false} CellOfBits(n: nat, c: Cell)
    requires InGrid(n, c)
    ensures CellOf(BitsOf(n, c)) == c
  {
    if n > 0 {
      HalfOfWhole(n - 1, c);
      CellOfBits(n - 1, Whole(n - 1, c));
      CellOfMore(BitsOf(n - 1, Whole(n - 1, c)), Chosen(n - 1, c));
    }
  }

  lemma {:induction false} BitsOfCell(bits: Bits)
    ensures BitsOf(|bits|, CellOf(bits)) == bits
  {
    if bits != [] {
      var front, b := bits[..|bits| - 1], bits[|bits| - 1];
      BitsOfCell(front);
      WholeOfHalf(|front|, CellOf(front), b);
      assert bits == front + [b];
    }
  }

  // ----- strings and cells

  /** The string of p letters for a cell. */
  function HashOf(p: nat, c: Cell): (h: string)
    requires InGrid(5 * p, c)
    ensures |h| == p
  {
    Pack(p, BitsOf(5 * p, c))
  }

  predicate IsHash(h: string) {
    Unpack(h).Some?
  }

  function CellOfHash(h: string): (c: Cell)
    requires IsHash(h)
    ensures InGrid(5 * |h|, c)
  {
    CellInGrid(Unpack(h).value);
    CellOf(Unpack(h).value)
  }

  /** Cells and strings of p letters are in one-to-one correspondence. */
  lemma HashRoundTrip(p: nat, c: Cell)
    requires InGrid(5 * p, c)
    ensures IsHash(HashOf(p, c)) && CellOfHash(HashOf(p, c)) == c
  {
    UnpackPacked(p, BitsOf(5 * p, c));
    CellOfBits(5 * p, c);
  }

  lemma CellRoundTrip(h: string)
    requires IsHash(h)
    ensures HashOf(|h|, CellOfHash(h)) == h
  {
    BitsOfCell(Unpack(h).value);
    PackUnpacked(h);
  }
}
