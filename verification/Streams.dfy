/**
 * Streams of self-delimiting records, whatever the record: the reading loops
 * of cpp/storage/wal.cpp and cpp/storage/snapshot.cpp share this shape.
 */
module Streams {
  import opened Basics
  import opened Records

  /**
   * A writer and a reader that fit each other: what the writer makes of a good
   * record reads back whatever follows it and reads as nothing when cut short, and
   * the reader accepts good records only.
   */
  ghost predicate Codec<E(!new)>(write: E -> Bytes, read: Bytes -> Option<(E, Bytes)>, good: E -> bool) {
    && (forall bs :: read(bs).Some? ==> good(read(bs).value.0) && |read(bs).value.1| < |bs|)
    && (forall e :: |write(e)| > 0)
    && (forall e, rest :: good(e) ==> read(write(e) + rest) == Some((e, rest)))
    && (forall e, n :: good(e) && 0 <= n < |write(e)| ==> read(write(e)[..n]) == None)
  }

  predicate AllGood<E>(good: E -> bool, es: seq<E>) {
    forall i :: 0 <= i < |es| ==> good(es[i])
  }

  function WriteAll<E>(write: E -> Bytes, es: seq<E>): Bytes {
    if es == [] then [] else write(es[0]) + WriteAll(write, es[1..])
  }

  /** Reads at most `limit` records, stopping at the first that cannot be read. */
  function ReadAll<E>(read: Bytes -> Option<(E, Bytes)>, bs: Bytes, limit: nat): seq<E>
    decreases limit
  {
    if limit == 0 || read(bs).None? then [] else [read(bs).value.0] + ReadAll(read, read(bs).value.1, limit - 1)
  }

  lemma {:induction false} WriteAllConcat<E>(write: E -> Bytes, a: seq<E>, b: seq<E>)
    ensures WriteAll(write, a + b) == WriteAll(write, a) + WriteAll(write, b)
  {
    if a == [] {
      assert a + b == b;
    } else {
      WriteAllConcat(write, a[1..], b);
      assert (a + b)[1..] == a[1..] + b;
      Associates(write(a[0]), WriteAll(write, a[1..]), WriteAll(write, b));
    }
  }

  lemma {:induction false} AllReadAreGood<E(!new)>(write: E -> Bytes, read: Bytes -> Option<(E, Bytes)>, good: E -> bool,
                                                   bs: Bytes, limit: nat)
    requires Codec(write, read, good)
    ensures AllGood(good, ReadAll(read, bs, limit)) && |ReadAll(read, bs, limit)| <= limit
    decreases limit
  {
    if limit > 0 && read(bs).Some? { AllReadAreGood(write, read, good, read(bs).value.1, limit - 1); }
  }

  /** What TornStream promises of the number m of records read. */
  ghost predicate ReadsUpTo<E(!new)>(write: E -> Bytes, read: Bytes -> Option<(E, Bytes)>, es: seq<E>, n: nat, limit: nat, m: nat)
    requires n <= |WriteAll(write, es)|
  {
    && m <= |es| && ReadAll(read, WriteAll(write, es)[..n], limit) == es[..m]
    && |WriteAll(write, es[..m])| <= n && (m < |es| ==> n < |WriteAll(write, es[..m + 1])|)
  }

  lemma TornInFirst<E(!new)>(write: E -> Bytes, read: Bytes -> Option<(E, Bytes)>, good: E -> bool, es: seq<E>, n: nat, limit: nat)
    requires Codec(write, read, good) && AllGood(good, es) && es != []
    requires n < |write(es[0])|
    ensures n <= |WriteAll(write, es)| && ReadsUpTo(write, read, es, n, limit, 0)
  {
    var head := write(es[0]);
    assert WriteAll(write, es)[..n] == head[..n];
    assert es[..1] == [es[0]] && es[..1][1..] == [];
  }

  lemma TornAfterFirst<E(!new)>(write: E -> Bytes, read: Bytes -> Option<(E, Bytes)>, good: E -> bool,
                                es: seq<E>, n: nat, limit: nat, k: nat)
    requires Codec(write, read, good) && AllGood(good, es) && es != []
    requires |write(es[0])| <= n <= |WriteAll(write, es)| && limit > 0
    requires ReadsUpTo(write, read, es[1..], n - |write(es[0])|, limit - 1, k)
    ensures ReadsUpTo(write, read, es, n, limit, k + 1)
  {
    ReadsFirst(write, read, good, es, n, limit);
    ReadsOneMore(write, read, es, n, limit, k);
  }

  lemma ReadsFirst<E(!new)>(write: E -> Bytes, read: Bytes -> Option<(E, Bytes)>, good: E -> bool, es: seq<E>, n: nat, limit: nat)
    requires Codec(write, read, good) && AllGood(good, es) && es != []
    requires |write(es[0])| <= n <= |WriteAll(write, es)| && limit > 0
    ensures ReadAll(read, WriteAll(write, es)[..n], limit) ==
            [es[0]] + ReadAll(read, WriteAll(write, es[1..])[..n - |write(es[0])|], limit - 1)
  {
    var head := write(es[0]);
    var tail := WriteAll(write, es[1..])[..n - |head|];
    CutAfter(head, WriteAll(write, es[1..]), n);
    assert read(head + tail) == Some((es[0], tail));
  }

  lemma ReadsOneMore<E(!new)>(write: E -> Bytes, read: Bytes -> Option<(E, Bytes)>, es: seq<E>, n: nat, limit: nat, k: nat)
    requires es != [] && |write(es[0])| <= n <= |WriteAll(write, es)| && limit > 0
    requires ReadAll(read, WriteAll(write, es)[..n], limit) ==
             [es[0]] + ReadAll(read, WriteAll(write, es[1..])[..n - |write(es[0])|], limit - 1)
    requires ReadsUpTo(write, read, es[1..], n - |write(es[0])|, limit - 1, k)
    ensures ReadsUpTo(write, read, es, n, limit, k + 1)
  {
    FirstAndMore(es, k);
    WriteFirst(write, es, k);
    if k + 1 < |es| { WriteFirst(write, es, k + 1); }
  }

  lemma CutAfter(a: Bytes, b: Bytes, n: nat)
    requires |a| <= n <= |a + b|
    ensures (a + b)[..n] == a + b[..n - |a|]
  {
  }

  lemma FirstAndMore<E>(es: seq<E>, k: nat)
    requires k < |es|
    ensures es[..k + 1] == [es[0]] + es[1..][..k]
  {
  }

  lemma WriteFirst<E>(write: E -> Bytes, es: seq<E>, k: nat)
    requires k < |es|
    ensures WriteAll(write, es[..k + 1]) == write(es[0]) + WriteAll(write, es[1..][..k])
  {
    assert es[..k + 1][1..] == es[1..][..k];
  }

  /**
   * A stream of good records cut at any byte reads exactly the records that lie
   * wholly before the cut, m of them.
   */
  lemma {:induction false} TornStream<E(!new)>(write: E -> Bytes, read: Bytes -> Option<(E, Bytes)>, good: E -> bool,
                                               es: seq<E>, n: nat, limit: nat) returns (m: nat)
    requires Codec(write, read, good) && AllGood(good, es)
    requires n <= |WriteAll(write, es)| && limit >= |es|
    ensures ReadsUpTo(write, read, es, n, limit, m)
    decreases |es|
  {
    if es == [] {
      m := 0;
      NothingReadsNothing(write, read, good);
    } else if n < |write(es[0])| {
      m := 0;
      TornInFirst(write, read, good, es, n, limit);
    } else {
      var k := TornStream(write, read, good, es[1..], n - |write(es[0])|, limit - 1);
      TornAfterFirst(write, read, good, es, n, limit, k);
      m := k + 1;
    }
  }

  lemma NothingReadsNothing<E(!new)>(write: E -> Bytes, read: Bytes -> Option<(E, Bytes)>, good: E -> bool)
    requires Codec(write, read, good)
    ensures read([]) == None
  {
  }

  /** A whole stream reads back as it was written exactly when every record is good. */
  lemma StreamExact<E(!new)>(write: E -> Bytes, read: Bytes -> Option<(E, Bytes)>, good: E -> bool, es: seq<E>, limit: nat)
    requires Codec(write, read, good) && limit >= |es|
    ensures ReadAll(read, WriteAll(write, es), limit) == es <==> AllGood(good, es)
  {
    AllReadAreGood(write, read, good, WriteAll(write, es), limit);
    if AllGood(good, es) {
      var bs := WriteAll(write, es);
      var m := TornStream(write, read, good, es, |bs|, limit);
      assert bs[..|bs|] == bs;
      var k := if m < |es| then m + 1 else m;
      WriteAllConcat(write, es[..k], es[k..]);
      assert es[..k] + es[k..] == es;
    }
  }

  lemma {:induction false} WriteAllGrows<E(!new)>(write: E -> Bytes, read: Bytes -> Option<(E, Bytes)>, good: E -> bool, es: seq<E>)
    requires Codec(write, read, good)
    ensures |WriteAll(write, es)| >= |es|
    decreases |es|
  {
    if es != [] { WriteAllGrows(write, read, good, es[1..]); }
  }

  /** One record per byte is limit enough. */
  lemma {:induction false} ReadAllEnough<E(!new)>(write: E -> Bytes, read: Bytes -> Option<(E, Bytes)>, good: E -> bool,
                                                  bs: Bytes, limit: nat)
    requires Codec(write, read, good) && limit >= |bs|
    ensures ReadAll(read, bs, limit) == ReadAll(read, bs, |bs|)
    decreases |bs|
  {
    if read(bs).Some? {
      ReadAllEnough(write, read, good, read(bs).value.1, limit - 1);
      ReadAllEnough(write, read, good, read(bs).value.1, |bs| - 1);
    }
  }

  lemma WritePrefixLength<E>(write: E -> Bytes, es: seq<E>, j: nat, k: nat)
    requires j <= k <= |es|
    ensures |WriteAll(write, es[..j])| <= |WriteAll(write, es[..k])|
  {
    WriteAllConcat(write, es[..j], es[j..k]);
    assert es[..j] + es[j..k] == es[..k];
  }

  lemma WriteSplit<E>(write: E -> Bytes, es: seq<E>, k: nat)
    requires k <= |es|
    ensures WriteAll(write, es) == WriteAll(write, es[..k]) + WriteAll(write, es[k..])
  {
    Halves(es, k);
    WriteAllConcat(write, es[..k], es[k..]);
  }

  /** A stream whose first k records are whole and whose rest is cut anywhere: at least those k are read. */
  lemma TornTail<E(!new)>(write: E -> Bytes, read: Bytes -> Option<(E, Bytes)>, good: E -> bool,
                          es: seq<E>, k: nat, n: nat) returns (m: nat)
    requires Codec(write, read, good) && AllGood(good, es)
    requires k <= |es| && n <= |WriteAll(write, es[k..])|
    ensures k <= m <= |es|
    ensures var file := WriteAll(write, es[..k]) + WriteAll(write, es[k..])[..n];
            ReadAll(read, file, |file|) == es[..m]
  {
    WriteSplit(write, es, k);
    var all, cut := WriteAll(write, es), |WriteAll(write, es[..k])| + n;
    assert WriteAll(write, es[..k]) + WriteAll(write, es[k..])[..n] == all[..cut];
    WriteAllGrows(write, read, good, es);
    m := TornStream(write, read, good, es, cut, |all|);
    ReadAllEnough(write, read, good, all[..cut], |all|);
    if m < k { WritePrefixLength(write, es, m + 1, k); }
  }

  lemma ReadAllNext<E(!new)>(write: E -> Bytes, read: Bytes -> Option<(E, Bytes)>, good: E -> bool, bs: Bytes)
    requires Codec(write, read, good) && read(bs).Some?
    ensures var rest := read(bs).value.1;
            |rest| < |bs| && ReadAll(read, bs, |bs|) == [read(bs).value.0] + ReadAll(read, rest, |rest|)
  {
    ReadAllEnough(write, read, good, read(bs).value.1, |bs| - 1);
  }
}
