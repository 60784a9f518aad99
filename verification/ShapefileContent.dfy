/**
 * The content of a shapefile record (ESRI Shapefile Technical Description,
 * July 1998, main file record contents) as bytes and as a shape, and that the
 * two determine each other.
 */
module ShapefileContent {
  import opened Basics
  import opened Records
  import opened ShapefileRings

  // ----- shape types

  /** Coordinates to a point: XY, XYM or XYZM, and none for a type without a layout. */
  function Stride(t: nat): nat {
    if t in {1, 3, 5, 8} then 2
    else if t in {21, 23, 25, 28} then 3
    else if t in {11, 13, 15, 18} then 4
    else 0
  }

  predicate IsPoint(t: nat) { t in {1, 11, 21} }
  predicate IsPolygon(t: nat) { t in {5, 15, 25} }
  predicate HasParts(t: nat) { t in {3, 13, 23} || IsPolygon(t) }

  // ----- numbers of a fixed width, lowest byte first

  /** The first n values of w bytes each. */
  function Unpack<T>(read: Bytes -> T, bs: Bytes, w: nat, n: nat): (us: seq<T>)
    requires Start(w, n) <= |bs|
    ensures |us| == n
    decreases n
  {
    if n == 0 then [] else Unpack(read, bs, w, n - 1) + [read(bs[Start(w, n - 1)..Start(w, n)])]
  }

  function Pack<T>(write: T -> Bytes, us: seq<T>): Bytes {
    if us == [] then [] else Pack(write, us[..|us| - 1]) + write(us[|us| - 1])
  }

  lemma Middle(a: Bytes, b: Bytes, c: Bytes)
    ensures (a + (b + c))[|a|..|a| + |b|] == b
  {
  }

  lemma {:induction false} UnpackPacked<T>(write: T -> Bytes, read: Bytes -> T, us: seq<T>, w: nat, more: Bytes)
    requires forall i :: 0 <= i < |us| ==> |write(us[i])| == w && read(write(us[i])) == us[i]
    ensures |Pack(write, us)| == Start(w, |us|) && Unpack(read, Pack(write, us) + more, w, |us|) == us
    decreases us
  {
    if us != [] {
      var front, u := us[..|us| - 1], us[|us| - 1];
      UnpackPacked(write, read, front, w, write(u) + more);
      Associates(Pack(write, front), write(u), more);
      Middle(Pack(write, front), write(u), more);
      UnpackNext(read, Pack(write, front) + (write(u) + more), w, us, |us| - 1);
    }
  }

  lemma UnpackNext<T>(read: Bytes -> T, bs: Bytes, w: nat, us: seq<T>, n: nat)
    requires |us| == n + 1 && Start(w, n + 1) <= |bs| && Unpack(read, bs, w, n) == us[..n]
    requires read(bs[Start(w, n)..Start(w, n + 1)]) == us[n]
    ensures Unpack(read, bs, w, n + 1) == us
  {
    assert us == us[..n] + [us[n]];
  }

  lemma PackMore<T>(write: T -> Bytes, front: seq<T>, u: T)
    ensures Pack(write, front + [u]) == Pack(write, front) + write(u)
  {
    assert (front + [u])[..|front|] == front;
  }

  lemma {:induction false} PackUnpacked<T>(write: T -> Bytes, read: Bytes -> T, bs: Bytes, w: nat, n: nat)
    requires Start(w, n) <= |bs| && forall word :: |word| == w ==> write(read(word)) == word
    ensures Pack(write, Unpack(read, bs, w, n)) == bs[..Start(w, n)]
    decreases n
  {
    if n > 0 {
      PackUnpacked(write, read, bs, w, n - 1);
      PackMore(write, Unpack(read, bs, w, n - 1), read(bs[Start(w, n - 1)..Start(w, n)]));
      Rejoin(bs, Start(w, n - 1), Start(w, n));
    }
  }

  /** The first n numbers of w bytes. */
  function Fields(bs: Bytes, w: nat, n: nat): (us: seq<nat>)
    requires Start(w, n) <= |bs|
    ensures |us| == n
    decreases n
  {
    if n == 0 then [] else Fields(bs, w, n - 1) + [Decode(bs[Start(w, n - 1)..Start(w, n)])]
  }

  function BytesOf(us: seq<nat>, w: nat): (bs: Bytes)
    ensures |bs| == Start(w, |us|)
  {
    if us == [] then [] else BytesOf(us[..|us| - 1], w) + Encode(us[|us| - 1], w)
  }

  function Encoder(w: nat): nat -> Bytes { (u: nat) => Encode(u, w) }

  lemma {:induction false} FieldsUnpack(bs: Bytes, w: nat, n: nat)
    requires Start(w, n) <= |bs|
    ensures Fields(bs, w, n) == Unpack(Decode, bs, w, n)
    decreases n
  {
    if n > 0 { FieldsUnpack(bs, w, n - 1); }
  }

  lemma {:induction false} BytesPack(us: seq<nat>, w: nat)
    ensures BytesOf(us, w) == Pack(Encoder(w), us)
    decreases us
  {
    if us != [] { BytesPack(us[..|us| - 1], w); }
  }

  predicate Fit(us: seq<nat>, w: nat) {
    forall i :: 0 <= i < |us| ==> us[i] < Limit(w)
  }

  lemma {:induction false} FieldsFit(bs: Bytes, w: nat, n: nat)
    requires Start(w, n) <= |bs|
    ensures Fit(Fields(bs, w, n), w)
    decreases n
  {
    if n > 0 {
      FieldsFit(bs, w, n - 1);
      DecodeFits(bs[Start(w, n - 1)..Start(w, n)]);
    }
  }

  /** Numbers that fit their width come back from their bytes, whatever follows. */
  lemma FieldsBack(us: seq<nat>, w: nat, more: Bytes)
    requires Fit(us, w)
    ensures Fields(BytesOf(us, w) + more, w, |us|) == us
  {
    forall i | 0 <= i < |us| ensures Decode(Encoder(w)(us[i])) == us[i] { DecodeEncode(us[i], w); }
    UnpackPacked(Encoder(w), Decode, us, w, more);
    BytesPack(us, w);
    FieldsUnpack(BytesOf(us, w) + more, w, |us|);
  }

  /** The bytes of the numbers read are the bytes that were there. */
  lemma BytesBack(bs: Bytes, w: nat, n: nat)
    requires Start(w, n) <= |bs|
    ensures BytesOf(Fields(bs, w, n), w) == bs[..Start(w, n)]
  {
    forall word: Bytes | |word| == w ensures Encoder(w)(Decode(word)) == word { EncodeDecode(word); }
    PackUnpacked(Encoder(w), Decode, bs, w, n);
    FieldsUnpack(bs, w, n);
    BytesPack(Fields(bs, w, n), w);
  }

  // ----- coordinates by point and coordinates by kind

  predicate IsLayout(stride: nat) { 2 <= stride <= 4 }

  /** Words that hold n points: x and y by turns, and then each further kind with its range before it. */
  function BodySize(stride: nat, n: nat): nat {
    if stride == 0 then 0 else if stride == 2 then 2 * n else if stride == 3 then 3 * n + 2 else 4 * n + 4
  }

  /** Where the values of a further kind start. */
  function KindStart(n: nat, j: nat): nat {
    if j == 2 then 2 * n + 2 else 3 * n + 4
  }

  function PointOf(body: seq<nat>, stride: nat, n: nat, i: nat): (p: seq<nat>)
    requires IsLayout(stride) && |body| == BodySize(stride, n) && i < n
    ensures |p| == stride
  {
    [body[2 * i], body[2 * i + 1]]
      + (if stride >= 3 then [body[KindStart(n, 2) + i]] else [])
      + (if stride == 4 then [body[KindStart(n, 3) + i]] else [])
  }

  /** The first k points, one after the other. */
  function FlatOf(body: seq<nat>, stride: nat, n: nat, k: nat): (flat: seq<nat>)
    requires IsLayout(stride) && |body| == BodySize(stride, n) && k <= n
    ensures |flat| == Start(stride, k)
  {
    if k == 0 then [] else FlatOf(body, stride, n, k - 1) + PointOf(body, stride, n, k - 1)
  }

  function RangesOf(body: seq<nat>, stride: nat, n: nat): (ranges: seq<nat>)
    requires IsLayout(stride) && |body| == BodySize(stride, n)
    ensures |ranges| == 2 * (stride - 2)
  {
    (if stride >= 3 then body[2 * n..2 * n + 2] else []) + (if stride == 4 then body[3 * n + 2..3 * n + 4] else [])
  }

  function XYs(flat: seq<nat>, stride: nat, k: nat): (ws: seq<nat>)
    requires IsLayout(stride) && Start(stride, k) <= |flat|
    ensures |ws| == 2 * k
  {
    if k == 0 then []
    else XYs(flat, stride, k - 1) + [flat[Start(stride, k - 1)], flat[Start(stride, k - 1) + 1]]
  }

  function Ordinates(flat: seq<nat>, stride: nat, k: nat, j: nat): (ws: seq<nat>)
    requires IsLayout(stride) && Start(stride, k) <= |flat| && j < stride
    ensures |ws| == k
    decreases k
  {
    if k == 0 then [] else Ordinates(flat, stride, k - 1, j) + [flat[Start(stride, k - 1) + j]]
  }

  function BodyOf(flat: seq<nat>, ranges: seq<nat>, stride: nat, n: nat): (body: seq<nat>)
    requires IsLayout(stride) && Start(stride, n) == |flat| && |ranges| == 2 * (stride - 2)
    ensures |body| == BodySize(stride, n)
  {
    XYs(flat, stride, n)
      + (if stride >= 3 then ranges[..2] + Ordinates(flat, stride, n, 2) else [])
      + (if stride == 4 then ranges[2..] + Ordinates(flat, stride, n, 3) else [])
  }

  lemma {:induction false} XYsAt(flat: seq<nat>, stride: nat, k: nat, i: nat)
    requires IsLayout(stride) && Start(stride, k) <= |flat| && i < k
    ensures Start(stride, i) + stride <= Start(stride, k)
    ensures XYs(flat, stride, k)[2 * i] == flat[Start(stride, i)]
    ensures XYs(flat, stride, k)[2 * i + 1] == flat[Start(stride, i) + 1]
  {
    if i < k - 1 { XYsAt(flat, stride, k - 1, i); }
  }

  lemma {:induction false} OrdinatesAt(flat: seq<nat>, stride: nat, k: nat, j: nat, i: nat)
    requires IsLayout(stride) && Start(stride, k) <= |flat| && j < stride && i < k
    ensures Start(stride, i) + stride <= Start(stride, k)
    ensures Ordinates(flat, stride, k, j)[i] == flat[Start(stride, i) + j]
    decreases k
  {
    if i < k - 1 { OrdinatesAt(flat, stride, k - 1, j, i); }
  }

  /** Point number i of the flat sequence is what the body says of it. */
  predicate CarriesAt(flat: seq<nat>, body: seq<nat>, stride: nat, n: nat, i: nat)
    requires IsLayout(stride) && |body| == BodySize(stride, n) && i < n
  {
    var at := Start(stride, i);
    && at + stride <= |flat|
    && flat[at] == body[2 * i] && flat[at + 1] == body[2 * i + 1]
    && (stride >= 3 ==> flat[at + 2] == body[KindStart(n, 2) + i])
    && (stride == 4 ==> flat[at + 3] == body[KindStart(n, 3) + i])
  }

  predicate Carries(flat: seq<nat>, body: seq<nat>, stride: nat, n: nat)
    requires IsLayout(stride) && |body| == BodySize(stride, n)
  {
    |flat| == Start(stride, n) && forall i :: 0 <= i < n ==> CarriesAt(flat, body, stride, n, i)
  }

  lemma {:induction false} FlatAt(body: seq<nat>, stride: nat, n: nat, k: nat, i: nat)
    requires IsLayout(stride) && |body| == BodySize(stride, n) && k <= n && i < k
    ensures CarriesAt(FlatOf(body, stride, n, k), body, stride, n, i)
    decreases k
  {
    if i < k - 1 { FlatAt(body, stride, n, k - 1, i); }
  }

  lemma FlatCarries(body: seq<nat>, stride: nat, n: nat)
    requires IsLayout(stride) && |body| == BodySize(stride, n)
    ensures Carries(FlatOf(body, stride, n, n), body, stride, n)
  {
    forall i | 0 <= i < n ensures CarriesAt(FlatOf(body, stride, n, n), body, stride, n, i) {
      FlatAt(body, stride, n, n, i);
    }
  }

  lemma PointCarried(flat: seq<nat>, body: seq<nat>, stride: nat, n: nat, i: nat)
    requires IsLayout(stride) && |body| == BodySize(stride, n) && i < n && CarriesAt(flat, body, stride, n, i)
    ensures flat[Start(stride, i)..Start(stride, i) + stride] == PointOf(body, stride, n, i)
  {
    var at := Start(stride, i);
    if stride == 2 {
      assert flat[at..at + 2] == [flat[at], flat[at + 1]];
    } else if stride == 3 {
      assert flat[at..at + 3] == [flat[at], flat[at + 1]] + [flat[at + 2]] + [];
    } else {
      assert flat[at..at + 4] == [flat[at], flat[at + 1]] + [flat[at + 2]] + [flat[at + 3]];
    }
  }

  lemma {:induction false} CarriesIsFlat(flat: seq<nat>, body: seq<nat>, stride: nat, n: nat, k: nat)
    requires IsLayout(stride) && |body| == BodySize(stride, n) && k <= n && Carries(flat, body, stride, n)
    ensures Start(stride, k) <= |flat| && flat[..Start(stride, k)] == FlatOf(body, stride, n, k)
    decreases k
  {
    if k > 0 {
      CarriesIsFlat(flat, body, stride, n, k - 1);
      PointCarried(flat, body, stride, n, k - 1);
      Rejoin(flat, Start(stride, k - 1), Start(stride, k));
    }
  }

  lemma BodyAt(flat: seq<nat>, ranges: seq<nat>, stride: nat, n: nat, i: nat)
    requires IsLayout(stride) && Start(stride, n) == |flat| && |ranges| == 2 * (stride - 2) && i < n
    ensures CarriesAt(flat, BodyOf(flat, ranges, stride, n), stride, n, i)
  {
    XYsAt(flat, stride, n, i);
    if stride >= 3 { OrdinatesAt(flat, stride, n, 2, i); }
    if stride == 4 { OrdinatesAt(flat, stride, n, 3, i); }
  }

  lemma FlatBack(flat: seq<nat>, ranges: seq<nat>, stride: nat, n: nat)
    requires IsLayout(stride) && Start(stride, n) == |flat| && |ranges| == 2 * (stride - 2)
    ensures FlatOf(BodyOf(flat, ranges, stride, n), stride, n, n) == flat
  {
    var body := BodyOf(flat, ranges, stride, n);
    forall i | 0 <= i < n ensures CarriesAt(flat, body, stride, n, i) {
      BodyAt(flat, ranges, stride, n, i);
    }
    CarriesIsFlat(flat, body, stride, n, n);
    assert flat[..|flat|] == flat;
  }

  lemma RangesBack(flat: seq<nat>, ranges: seq<nat>, stride: nat, n: nat)
    requires IsLayout(stride) && Start(stride, n) == |flat| && |ranges| == 2 * (stride - 2)
    ensures RangesOf(BodyOf(flat, ranges, stride, n), stride, n) == ranges
  {
    var body := BodyOf(flat, ranges, stride, n);
    if stride >= 3 { assert body[2 * n..2 * n + 2] == ranges[..2]; }
    if stride == 4 { assert body[3 * n + 2..3 * n + 4] == ranges[2..]; }
  }

  lemma {:induction false} XYsCarried(flat: seq<nat>, body: seq<nat>, stride: nat, n: nat, k: nat)
    requires IsLayout(stride) && |body| == BodySize(stride, n) && k <= n && Carries(flat, body, stride, n)
    ensures Start(stride, k) <= |flat| && XYs(flat, stride, k) == body[..2 * k]
    decreases k
  {
    if k > 0 {
      XYsCarried(flat, body, stride, n, k - 1);
      assert CarriesAt(flat, body, stride, n, k - 1);
      assert body[..2 * k] == body[..2 * (k - 1)] + [body[2 * k - 2], body[2 * k - 1]];
    }
  }

  lemma OrdinateCarried(flat: seq<nat>, body: seq<nat>, stride: nat, n: nat, i: nat, j: nat)
    requires IsLayout(stride) && |body| == BodySize(stride, n) && i < n && 2 <= j < stride && CarriesAt(flat, body, stride, n, i)
    ensures flat[Start(stride, i) + j] == body[KindStart(n, j) + i]
  {
  }

  lemma SliceMore<T>(s: seq<T>, i: nat, j: nat)
    requires i <= j < |s|
    ensures s[i..j] + [s[j]] == s[i..j + 1]
  {
  }

  lemma {:induction false} OrdinatesCarried(flat: seq<nat>, body: seq<nat>, stride: nat, n: nat, k: nat, j: nat)
    requires IsLayout(stride) && |body| == BodySize(stride, n) && k <= n && 2 <= j < stride && Carries(flat, body, stride, n)
    ensures Start(stride, k) <= |flat|
    ensures Ordinates(flat, stride, k, j) == body[KindStart(n, j)..KindStart(n, j) + k]
    decreases k
  {
    if k > 0 {
      OrdinatesCarried(flat, body, stride, n, k - 1, j);
      OrdinateCarried(flat, body, stride, n, k - 1, j);
      SliceMore(body, KindStart(n, j), KindStart(n, j) + k - 1);
    }
  }

  lemma BodyBack(body: seq<nat>, stride: nat, n: nat)
    requires IsLayout(stride) && |body| == BodySize(stride, n)
    ensures BodyOf(FlatOf(body, stride, n, n), RangesOf(body, stride, n), stride, n) == body
  {
    FlatCarries(body, stride, n);
    BodyCarried(FlatOf(body, stride, n, n), body, stride, n);
  }

  lemma Assemble2(body: seq<nat>, n: nat)
    requires |body| == BodySize(2, n)
    ensures body[..2 * n] + [] + [] == body
  {
  }

  lemma Assemble3(body: seq<nat>, n: nat, ranges: seq<nat>)
    requires |body| == BodySize(3, n) && ranges == body[2 * n..2 * n + 2] + []
    ensures body[..2 * n] + (ranges[..2] + body[2 * n + 2..3 * n + 2]) + [] == body
  {
  }

  lemma Assemble4(body: seq<nat>, n: nat, ranges: seq<nat>)
    requires |body| == BodySize(4, n) && ranges == body[2 * n..2 * n + 2] + body[3 * n + 2..3 * n + 4]
    ensures body[..2 * n] + (ranges[..2] + body[2 * n + 2..3 * n + 2]) + (ranges[2..] + body[3 * n + 4..4 * n + 4]) == body
  {
    assert ranges[..2] == body[2 * n..2 * n + 2];
    assert ranges[2..] == body[3 * n + 2..3 * n + 4];
  }

  lemma Carried2(flat: seq<nat>, body: seq<nat>, n: nat)
    requires |body| == BodySize(2, n) && Carries(flat, body, 2, n)
    ensures BodyOf(flat, RangesOf(body, 2, n), 2, n) == body
  {
    XYsCarried(flat, body, 2, n, n);
    Assemble2(body, n);
  }

  lemma Carried3(flat: seq<nat>, body: seq<nat>, n: nat)
    requires |body| == BodySize(3, n) && Carries(flat, body, 3, n)
    ensures BodyOf(flat, RangesOf(body, 3, n), 3, n) == body
  {
    XYsCarried(flat, body, 3, n, n);
    OrdinatesCarried(flat, body, 3, n, n, 2);
    Assemble3(body, n, RangesOf(body, 3, n));
  }

  lemma Carried4(flat: seq<nat>, body: seq<nat>, n: nat)
    requires |body| == BodySize(4, n) && Carries(flat, body, 4, n)
    ensures BodyOf(flat, RangesOf(body, 4, n), 4, n) == body
  {
    XYsCarried(flat, body, 4, n, n);
    OrdinatesCarried(flat, body, 4, n, n, 2);
    OrdinatesCarried(flat, body, 4, n, n, 3);
    Assemble4(body, n, RangesOf(body, 4, n));
  }

  lemma BodyCarried(flat: seq<nat>, body: seq<nat>, stride: nat, n: nat)
    requires IsLayout(stride) && |body| == BodySize(stride, n) && Carries(flat, body, stride, n)
    ensures BodyOf(flat, RangesOf(body, stride, n), stride, n) == body
  {
    if stride == 2 {
      Carried2(flat, body, n);
    } else if stride == 3 {
      Carried3(flat, body, n);
    } else {
      Carried4(flat, body, n);
    }
  }
}
