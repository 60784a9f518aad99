/**
 * Flood fill over strings with a queue and a set of strings seen: what a run
 * has found, whatever the test and the neighbours are.
 */
module Flood {

  ghost predicate Distinct(s: seq<string>) {
    forall i, j :: 0 <= i < j < |s| ==> s[i] != s[j]
  }

  ghost predicate Apart(s: seq<string>, t: seq<string>) {
    forall h :: h in s ==> h !in t
  }

  ghost predicate Exploring(
    touches: string -> bool, around: string -> seq<string>, seen: set<string>, queue: seq<string>, found: seq<string>)
  {
    && Distinct(queue) && Distinct(found) && Apart(queue, found)
    && (forall h :: h in queue ==> h in seen)
    && (forall h :: h in found ==> h in seen && touches(h))
    && (forall h :: h in seen ==> h in queue || h in found || !touches(h))
    && (forall h, g :: h in found && g in around(h) ==> g in seen)
  }

  lemma Start(touches: string -> bool, around: string -> seq<string>, h: string)
    ensures Exploring(touches, around, {h}, [h], [])
  {
  }

  lemma Reject(
    touches: string -> bool, around: string -> seq<string>, seen: set<string>, queue: seq<string>, found: seq<string>)
    requires queue != [] && Exploring(touches, around, seen, queue, found) && !touches(queue[0])
    ensures Exploring(touches, around, seen, queue[1..], found)
  {
    forall h | h in seen ensures h in queue[1..] || h in found || !touches(h) {
      if h in queue && h != queue[0] { assert h in queue[1..]; }
    }
  }

  lemma Accept(
    touches: string -> bool, around: string -> seq<string>, seen: set<string>, queue: seq<string>, found: seq<string>,
    seen': set<string>, added: seq<string>)
    requires queue != [] && Exploring(touches, around, seen, queue, found) && touches(queue[0])
    requires Distinct(added) && (forall h :: h in added ==> h !in seen)
    requires forall h :: h in seen' <==> h in seen || h in added
    requires forall g :: g in around(queue[0]) ==> g in seen'
    ensures Exploring(touches, around, seen', queue[1..] + added, found + [queue[0]])
  {
    var head, tail := queue[0], queue[1..];
    assert queue == [head] + tail;
    assert head !in tail && head in seen;
    assert Distinct(tail);
    forall h | h in tail ensures h in queue {}
    AppendDistinct(tail, added);
    AppendDistinct(found, [head]);
    forall h | h in seen' ensures h in tail + added || h in found + [head] || !touches(h) {
      if h in queue && h != head { assert h in tail; }
    }
  }

  lemma AppendDistinct(s: seq<string>, t: seq<string>)
    requires Distinct(s) && Distinct(t) && Apart(s, t)
    ensures Distinct(s + t)
  {
    forall i, j | 0 <= i < j < |s + t| ensures (s + t)[i] != (s + t)[j] {
      if i < |s| <= j { assert (s + t)[i] in s && (s + t)[j] in t; }
    }
  }

  /** An emptied queue leaves what was found closed under touching neighbours. */
  lemma Finished(
    touches: string -> bool, around: string -> seq<string>, seen: set<string>, found: seq<string>)
    requires Exploring(touches, around, seen, [], found)
    ensures forall h :: h in seen && touches(h) ==> h in found
    ensures forall h, g :: h in found && g in around(h) && touches(g) ==> g in found
  {
  }

  /** The inner loop: neighbours not seen before are marked and queued. */
  method Enqueue(around: seq<string>, seen: set<string>, queue: seq<string>)
    returns (seen': set<string>, queue': seq<string>, ghost added: seq<string>)
    ensures queue' == queue + added
    ensures Distinct(added) && (forall h :: h in added ==> h !in seen && h in around)
    ensures forall h :: h in seen' <==> h in seen || h in added
    ensures forall h :: h in around ==> h in seen'
  {
    seen', queue', added := seen, queue, [];
    for i := 0 to |around|
      invariant queue' == queue + added
      invariant Distinct(added) && (forall h :: h in added ==> h !in seen && h in around)
      invariant forall h :: h in seen' <==> h in seen || h in added
      invariant forall h :: h in around[..i] ==> h in seen'
    {
      var nb := around[i];
      assert around[..i + 1] == around[..i] + [nb];
      if nb !in seen' {
        seen', queue', added := seen' + {nb}, queue' + [nb], added + [nb];
      }
    }
    assert around[..|around|] == around;
  }
}
