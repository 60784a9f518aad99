/**
 * The reader of a record's content (internal/formats/shapefile/byteslicereader.go):
 * each method takes bytes off the front of `rest`, and once one runs short the
 * reader has failed and gives nothing any more.
 */
module ShapefileReader {
  import opened Records
  import opened ShapefileRings
  import opened ShapefileContent
  import opened ShapefileShape

  lemma {:induction false} FieldAt(bs: Bytes, w: nat, n: nat, k: nat)
    requires Start(w, n) <= |bs| && k < n
    ensures Start(w, k + 1) <= Start(w, n)
    ensures Fields(bs, w, n)[k] == Decode(bs[Start(w, k)..Start(w, k + 1)])
    decreases n
  {
    if k < n - 1 { FieldAt(bs, w, n - 1, k); }
  }

  lemma Sizes(n: nat)
    ensures Start(4, n) == 4 * n && Start(8, n) == 8 * n
  {
    StartIsProduct(4, n);
    StartIsProduct(8, n);
  }

  // ----- writing coordinates into a flat sequence

  function WriteXYs(flat: seq<nat>, words: seq<nat>, stride: nat, k: nat): (r: seq<nat>)
    requires stride >= 2 && Start(stride, k) <= |flat| && 2 * k <= |words|
    ensures |r| == |flat|
    decreases k
  {
    if k == 0 then flat
    else
      var at := Start(stride, k - 1);
      WriteXYs(flat, words, stride, k - 1)[at := words[2 * (k - 1)]][at + 1 := words[2 * (k - 1) + 1]]
  }

  function WriteOrdinates(flat: seq<nat>, words: seq<nat>, stride: nat, j: nat, k: nat): (r: seq<nat>)
    requires j < stride && Start(stride, k) <= |flat| && k <= |words|
    ensures |r| == |flat|
    decreases k
  {
    if k == 0 then flat
    else WriteOrdinates(flat, words, stride, j, k - 1)[Start(stride, k - 1) + j := words[k - 1]]
  }

  lemma {:induction false} WroteXYs(flat: seq<nat>, words: seq<nat>, stride: nat, k: nat, i: nat)
    requires stride >= 2 && Start(stride, k) <= |flat| && 2 * k <= |words| && i < k
    ensures Start(stride, i) + stride <= Start(stride, k)
    ensures var r := WriteXYs(flat, words, stride, k);
      r[Start(stride, i)] == words[2 * i] && r[Start(stride, i) + 1] == words[2 * i + 1]
    decreases k
  {
    if i < k - 1 { WroteXYs(flat, words, stride, k - 1, i); }
  }

  /** Only the j-th coordinate of a point changes. */
  lemma {:induction false} WroteOrdinates(flat: seq<nat>, words: seq<nat>, stride: nat, j: nat, k: nat, i: nat, j': nat)
    requires j < stride && j' < stride && Start(stride, k) <= |flat| && k <= |words| && i < k
    ensures Start(stride, i) + stride <= Start(stride, k)
    ensures WriteOrdinates(flat, words, stride, j, k)[Start(stride, i) + j'] ==
            if j' == j then words[i] else flat[Start(stride, i) + j']
    decreases k
  {
    if i < k - 1 {
      WroteOrdinates(flat, words, stride, j, k - 1, i, j');
    } else {
      NotYetWritten(flat, words, stride, j, k - 1, Start(stride, i) + j');
    }
  }

  lemma {:induction false} NotYetWritten(flat: seq<nat>, words: seq<nat>, stride: nat, j: nat, k: nat, x: nat)
    requires j < stride && Start(stride, k) <= x < |flat| && k <= |words|
    ensures WriteOrdinates(flat, words, stride, j, k)[x] == flat[x]
    decreases k
  {
    if k > 0 { NotYetWritten(flat, words, stride, j, k - 1, x); }
  }

  // ----- the reader

  class ByteSliceReader {
    var rest: Bytes
    var failed: bool

    constructor (data: Bytes)
      ensures rest == data && !failed
    {
      rest, failed := data, false;
    }

    /** Whether n bytes can be taken. */
    predicate Has(n: nat)
      reads this
    {
      !failed && |rest| >= n
    }

    method ReadUint32() returns (u: nat)
      modifies this
      ensures old(Has(4)) ==> !failed && rest == old(rest)[4..] && u == Fields(old(rest), 4, 1)[0]
      ensures !old(Has(4)) ==> failed && rest == old(rest) && u == 0
    {
      if failed { return 0; }
      if |rest| < 4 { failed := true; return 0; }
      u := Decode(rest[..4]);
      assert rest[0..4] == rest[..4];
      rest := rest[4..];
    }

    method ReadFloat64Pair() returns (a: nat, b: nat)
      modifies this
      ensures old(Has(16)) ==> !failed && rest == old(rest)[16..] && [a, b] == Fields(old(rest), 8, 2)
      ensures !old(Has(16)) ==> failed && rest == old(rest)
    {
      if failed { return 0, 0; }
      if |rest| < 16 { failed := true; return 0, 0; }
      a, b := Decode(rest[..8]), Decode(rest[8..16]);
      assert rest[0..8] == rest[..8];
      rest := rest[16..];
    }

    method ReadFloat64s(n: nat) returns (ws: seq<nat>)
      modifies this
      ensures old(Has(8 * n)) ==> !failed && Start(8, n) == 8 * n && rest == old(rest)[8 * n..] && ws == Fields(old(rest), 8, n)
      ensures !old(Has(8 * n)) ==> failed && rest == old(rest)
    {
      ws := [];
      if failed { return; }
      if |rest| < 8 * n { failed := true; return; }
      for i := 0 to n
        invariant rest == old(rest) && !failed
        invariant Start(8, i) == 8 * i && ws == Fields(rest, 8, i)
      {
        ws := ws + [Decode(rest[8 * i..8 * i + 8])];
      }
      rest := rest[8 * n..];
    }

    /** `readEnds`, whose reads are in range when the caller has checked the length. */
    method ReadEnds(stride: nat, numParts: nat, numPoints: nat) returns (ends: seq<nat>)
      requires stride > 0 && numParts > 0 && (failed || |rest| >= Start(4, numParts))
      modifies this
      ensures old(failed) ==> failed
      ensures !old(failed) ==> failed == !StartsFit(Fields(old(rest), 4, numParts), numPoints)
      ensures !failed ==> rest == old(rest)[Start(4, numParts)..]
      ensures !failed ==> EndsAt(stride, Fields(old(rest), 4, numParts)[1..] + [numPoints], ends)
    {
      ends := [];
      if failed { return; }
      Sizes(numParts);
      ghost var starts := Fields(rest, 4, numParts);
      FieldAt(rest, 4, numParts, 0);
      assert rest[0..4] == rest[..4];
      if Decode(rest[..4]) != 0 { failed := true; return; }
      var maxPart := stride * numPoints;
      for i := 1 to numParts
        invariant rest == old(rest) && !failed && |ends| == i - 1
        invariant forall k :: 0 <= k < i ==> starts[k] <= numPoints
        invariant forall k :: 0 <= k < i - 1 ==> ends[k] == Start(stride, starts[k + 1])
      {
        Sizes(i);
        FieldAt(rest, 4, numParts, i);
        var part := stride * Decode(rest[4 * i..4 * i + 4]);
        Scales(stride, starts[i], numPoints);
        if part > maxPart {
          failed, ends := true, [];
          return;
        }
        ends := ends + [part];
      }
      StartIsProduct(stride, numPoints);
      ends := ends + [maxPart];
      rest := rest[4 * numParts..];
    }

    method ReadXYs(flat: array<nat>, n: nat, stride: nat)
      requires Has(16 * n) && n > 0 ==> stride >= 2
      requires Has(16 * n) ==> Start(stride, n) <= flat.Length
      modifies this, flat
      ensures old(Has(16 * n)) && n == 0 ==> !failed && rest == old(rest) && flat[..] == old(flat[..])
      ensures old(Has(16 * n)) && n > 0 ==> !failed && Start(8, 2 * n) == 16 * n && rest == old(rest)[16 * n..]
      ensures old(Has(16 * n)) && n > 0 ==> flat[..] == WriteXYs(old(flat[..]), Fields(old(rest), 8, 2 * n), stride, n)
      ensures !old(Has(16 * n)) ==> failed && rest == old(rest) && flat[..] == old(flat[..])
    {
      if failed { return; }
      if |rest| < 16 * n { failed := true; return; }
      if n == 0 { return; }
      Sizes(2 * n);
      ghost var words := Fields(rest, 8, 2 * n);
      for i := 0 to n
        invariant rest == old(rest) && !failed
        invariant Start(stride, i) <= Start(stride, n)
        invariant flat[..] == WriteXYs(old(flat[..]), words, stride, i)
      {
        TwoWords(rest, n, i);
        StartIsProduct(stride, i);
        StartOrder(stride, i, n);
        flat[i * stride] := Decode(rest[16 * i..16 * i + 8]);
        flat[i * stride + 1] := Decode(rest[16 * i + 8..16 * i + 16]);
      }
      rest := rest[16 * n..];
    }

    method ReadOrdinates(flat: array<nat>, n: nat, stride: nat, index: nat)
      requires index < stride && Start(stride, n) <= flat.Length
      modifies this, flat
      ensures old(Has(8 * n)) ==> !failed && Start(8, n) == 8 * n && rest == old(rest)[8 * n..]
      ensures old(Has(8 * n)) ==> flat[..] == WriteOrdinates(old(flat[..]), Fields(old(rest), 8, n), stride, index, n)
      ensures !old(Has(8 * n)) ==> failed && rest == old(rest) && flat[..] == old(flat[..])
    {
      if failed { return; }
      if |rest| < 8 * n { failed := true; return; }
      Sizes(n);
      ghost var words := Fields(rest, 8, n);
      for i := 0 to n
        invariant rest == old(rest) && !failed
        invariant Start(stride, i) <= Start(stride, n)
        invariant flat[..] == WriteOrdinates(old(flat[..]), words, stride, index, i)
      {
        OneWord(rest, n, i);
        StartIsProduct(stride, i);
        StartOrder(stride, i, n);
        flat[i * stride + index] := Decode(rest[8 * i..8 * i + 8]);
      }
      rest := rest[8 * n..];
    }
  }

  lemma Scales(m: nat, a: nat, b: nat)
    requires m > 0
    ensures m * a > m * b <==> a > b
    ensures Start(m, a) == m * a
  {
    StartIsProduct(m, a);
    StartIsProduct(m, b);
    if a < b { StartOrder(m, a, b); }
    if a > b { StartOrder(m, b, a); }
  }

  lemma OneWord(bs: Bytes, n: nat, i: nat)
    requires 8 * n <= |bs| && i < n
    ensures Start(8, n) == 8 * n && Fields(bs, 8, n)[i] == Decode(bs[8 * i..8 * i + 8])
  {
    Sizes(n);
    Sizes(i);
    FieldAt(bs, 8, n, i);
  }

  lemma TwoWords(bs: Bytes, n: nat, i: nat)
    requires 16 * n <= |bs| && i < n
    ensures Start(8, 2 * n) == 16 * n
    ensures Fields(bs, 8, 2 * n)[2 * i] == Decode(bs[16 * i..16 * i + 8])
    ensures Fields(bs, 8, 2 * n)[2 * i + 1] == Decode(bs[16 * i + 8..16 * i + 16])
  {
    OneWord(bs, 2 * n, 2 * i);
    OneWord(bs, 2 * n, 2 * i + 1);
  }
}
