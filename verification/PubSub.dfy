/**
 * The publish/subscribe broker of cpp/net/pubsub/pubsub.cpp. A handler is
 * known by the id of its subscriber; matching a pattern is a parameter.
 */
module PubSub {

  datatype Subscriber = Subscriber(channels: set<string>, patterns: set<string>)

  // ----- indexes from names to ids

  type Index = map<string, set<nat>>

  predicate Lists(ix: Index, name: string, id: nat) {
    name in ix && id in ix[name]
  }

  function Added(ix: Index, name: string, id: nat): Index {
    ix[name := (if name in ix then ix[name] else {}) + {id}]
  }

  /** The id goes, and with the last id of a name the name. */
  function Removed(ix: Index, name: string, id: nat): Index {
    if name !in ix then ix
    else if ix[name] <= {id} then ix - {name}
    else ix[name := ix[name] - {id}]
  }

  lemma AddedLists(ix: Index, name: string, id: nat)
    ensures forall n, i: nat :: Lists(Added(ix, name, id), n, i) <==> Lists(ix, n, i) || (n == name && i == id)
  {
  }

  lemma RemovedLists(ix: Index, name: string, id: nat)
    ensures forall n, i: nat :: Lists(Removed(ix, name, id), n, i) <==> Lists(ix, n, i) && !(n == name && i == id)
  {
  }

  /** The loop over a subscriber's names. */
  method RemoveAll(ix: Index, names: set<string>, id: nat) returns (r: Index)
    ensures forall n, i: nat :: Lists(r, n, i) <==> Lists(ix, n, i) && !(n in names && i == id)
  {
    r := ix;
    var left := names;
    while left != {}
      invariant left <= names
      invariant forall n, i: nat :: Lists(r, n, i) <==> Lists(ix, n, i) && !(n in names - left && i == id)
      decreases left
    {
      var name :| name in left;
      RemovedLists(r, name, id);
      r := Removed(r, name, id);
      left := left - {name};
    }
  }

  class PubSubBroker {
    const matches: (string, string) -> bool
    var nextId: nat
    var channelSubs: Index
    var patternSubs: Index
    var subscribers: map<nat, Subscriber>

    /** The indexes are right about every live subscriber, none has two names, and no id is used before its time. */
    ghost predicate Valid()
      reads this
    {
      && (forall id: nat :: id in subscribers ==> id < nextId)
      && (forall n, id: nat :: Lists(channelSubs, n, id) || Lists(patternSubs, n, id) ==> id < nextId)
      && (forall n, id: nat :: id in subscribers ==> (n in subscribers[id].channels <==> Lists(channelSubs, n, id)))
      && (forall n, id: nat :: id in subscribers ==> (n in subscribers[id].patterns <==> Lists(patternSubs, n, id)))
      && (forall id: nat :: id in subscribers ==> AtMostOne(subscribers[id].patterns))
    }

    /** Whether a subscriber is to get what is published on a channel. */
    ghost predicate Hears(id: nat, channel: string)
      reads this
    {
      && id in subscribers
      && (channel in subscribers[id].channels || exists p :: p in subscribers[id].patterns && matches(p, channel))
    }

    constructor (m: (string, string) -> bool)
      ensures Valid() && subscribers == map[] && matches == m
    {
      matches, nextId, channelSubs, patternSubs, subscribers := m, 1, map[], map[], map[];
    }

    method Subscribe(channel: string) returns (id: nat)
      requires Valid()
      modifies this
      ensures Valid() && id !in old(subscribers)
      ensures subscribers == old(subscribers)[id := Subscriber({channel}, {})]
    {
      id := nextId;
      nextId := nextId + 1;
      subscribers := subscribers[id := Subscriber({channel}, {})];
      AddedLists(channelSubs, channel, id);
      channelSubs := Added(channelSubs, channel, id);
    }

    method PSubscribe(pattern: string) returns (id: nat)
      requires Valid()
      modifies this
      ensures Valid() && id !in old(subscribers)
      ensures subscribers == old(subscribers)[id := Subscriber({}, {pattern})]
    {
      id := nextId;
      nextId := nextId + 1;
      subscribers := subscribers[id := Subscriber({}, {pattern})];
      AddedLists(patternSubs, pattern, id);
      patternSubs := Added(patternSubs, pattern, id);
    }

    /** Without a channel the subscriber goes, its patterns left listed; with one it goes when nothing is left of it. */
    method Unsubscribe(id: nat, channel: string)
      requires Valid()
      modifies this
      ensures Valid()
      ensures id !in old(subscribers) ==> subscribers == old(subscribers)
      ensures id in old(subscribers) && channel == "" ==> subscribers == old(subscribers) - {id}
      ensures id in old(subscribers) && channel != "" ==>
        var s := old(subscribers)[id].(channels := old(subscribers)[id].channels - {channel});
        subscribers == if s == Subscriber({}, {}) then old(subscribers) - {id} else old(subscribers)[id := s]
    {
      if id !in subscribers { return; }
      var s := subscribers[id];
      if channel == "" {
        channelSubs := RemoveAll(channelSubs, s.channels, id);
        subscribers := subscribers - {id};
      } else {
        var s' := s.(channels := s.channels - {channel});
        channelSubs := RemoveAll(channelSubs, {channel}, id);
        subscribers := if s' == Subscriber({}, {}) then subscribers - {id} else subscribers[id := s'];
      }
    }

    /** Without a pattern the subscriber goes, its channels left listed; with one it stays, even with nothing left. */
    method PUnsubscribe(id: nat, pattern: string)
      requires Valid()
      modifies this
      ensures Valid()
      ensures id !in old(subscribers) ==> subscribers == old(subscribers)
      ensures id in old(subscribers) && pattern == "" ==> subscribers == old(subscribers) - {id}
      ensures id in old(subscribers) && pattern != "" ==>
        subscribers == old(subscribers)[id := old(subscribers)[id].(patterns := old(subscribers)[id].patterns - {pattern})]
    {
      if id !in subscribers { return; }
      var s := subscribers[id];
      if pattern == "" {
        patternSubs := RemoveAll(patternSubs, s.patterns, id);
        subscribers := subscribers - {id};
      } else {
        patternSubs := RemoveAll(patternSubs, {pattern}, id);
        subscribers := subscribers[id := s.(patterns := s.patterns - {pattern})];
      }
    }

    /** The live subscribers of some ids that are not among others, in whatever order a set is gone through. */
    method LiveOf(ids: set<nat>, others: set<nat>) returns (live: seq<nat>)
      ensures Distinct(live) && forall id: nat :: id in live <==> id in ids && id !in others && id in subscribers
    {
      live := [];
      var left := ids;
      while left != {}
        invariant left <= ids && Distinct(live)
        invariant forall id: nat :: id in live <==> id in ids - left && id !in others && id in subscribers
        decreases left
      {
        var id :| id in left;
        left := left - {id};
        if id !in others && id in subscribers { live := live + [id]; }
      }
    }

    /** Whom the patterns gone through so far reach. */
    ghost predicate Reached(id: nat, channel: string, patterns: set<string>)
      reads this
    {
      id in subscribers && (Lists(channelSubs, channel, id) || exists p :: p in patterns && matches(p, channel) && Lists(patternSubs, p, id))
    }

    /** `publish`: every subscriber that is to hear is called exactly once, and nobody else. */
    method Publish(channel: string) returns (called: seq<nat>)
      requires Valid()
      ensures Distinct(called) && forall id: nat :: id in called <==> Hears(id, channel)
    {
      var direct := if channel in channelSubs then channelSubs[channel] else {};
      called := LiveOf(direct, {});
      var left := patternSubs.Keys;
      while left != {}
        invariant left <= patternSubs.Keys && Distinct(called)
        invariant forall id: nat :: id in called <==> Reached(id, channel, patternSubs.Keys - left)
        decreases left
      {
        var pattern :| pattern in left;
        ghost var done := patternSubs.Keys - left;
        left := left - {pattern};
        assert patternSubs.Keys - left == done + {pattern};
        if matches(pattern, channel) {
          var more := LiveOf(patternSubs[pattern], direct);
          forall id: nat | id in more ensures id !in called {
            assert Lists(patternSubs, pattern, id) && !Lists(channelSubs, channel, id);
          }
          JoinDistinct(called, more);
          called := called + more;
        }
      }
      forall id: nat ensures Reached(id, channel, patternSubs.Keys) <==> Hears(id, channel) {}
    }
  }

  predicate Distinct(s: seq<nat>) {
    forall i, j :: 0 <= i < j < |s| ==> s[i] != s[j]
  }

  lemma JoinDistinct(a: seq<nat>, b: seq<nat>)
    requires Distinct(a) && Distinct(b) && forall id :: id in b ==> id !in a
    ensures Distinct(a + b)
  {
    forall i, j | 0 <= i < j < |a + b| ensures (a + b)[i] != (a + b)[j] {
      if i < |a| <= j { assert (a + b)[i] in a && (a + b)[j] in b; }
    }
  }

  ghost predicate AtMostOne(names: set<string>) {
    forall a, b :: a in names && b in names ==> a == b
  }
}
