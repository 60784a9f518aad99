/**
 * `ConnPool` (cpp/net/conn_pool.cpp): its methods between taking and leaving
 * the lock, each a step or a few steps of the state machine.
 */
module ConnPool {
  import opened Basics
  import opened ConnPoolModel

  /** What one locked pass of `acquire` comes to. */
  datatype Outcome = Got(conn: Conn) | MustWait | MustCreate

  /** The loop of `evictIdleLocked`: the queue is emptied into another, and the counter follows. */
  method KeepFresh(queue: seq<Conn>, count: nat, now: Time, maxIdle: nat) returns (kept: seq<Conn>, total: nat)
    ensures kept == FreshOf(queue, now, maxIdle) && total == DecrementBy(count, |queue| - |kept|)
  {
    kept, total := [], count;
    var idle := queue;
    ghost var done: seq<Conn> := [];
    while idle != []
      invariant done + idle == queue
      invariant kept == FreshOf(done, now, maxIdle)
      invariant total == DecrementBy(count, |done| - |kept|)
      decreases |idle|
    {
      var conn := idle[0];
      FreshMore(done, conn, now, maxIdle);
      Moved(done, idle);
      idle := idle[1..];
      done := done + [conn];
      if Minus(now, conn.lastUsed) > maxIdle {
        total := Decrement(total);
      } else {
        kept := kept + [conn];
      }
    }
    assert done == queue by { assert done + idle == done; }
  }

  lemma Moved<T>(done: seq<T>, left: seq<T>)
    requires left != []
    ensures done + [left[0]] + left[1..] == done + left
  {
  }

  /** None of the first j connections is healthy and answers. */
  predicate NoneAnswers(conns: seq<Conn>, j: nat, ping: Conn -> bool)
    requires j <= |conns|
  {
    forall i :: 0 <= i < j ==> !(conns[i].healthy && ping(conns[i]))
  }

  lemma OneMore(conns: seq<Conn>, j: nat, ping: Conn -> bool)
    requires j < |conns| && NoneAnswers(conns, j, ping)
    ensures NoneAnswers(conns, j + 1, ping) <==> !(conns[j].healthy && ping(conns[j]))
  {
  }

  class ConnectionPool {
    const cfg: Config
    var idle: seq<Conn>
    var total: nat
    ghost var out: set<nat>
    ghost var creating: set<nat>

    ghost function Now(): State
      reads this
    {
      State(idle, total, out, creating)
    }

    ghost predicate Valid()
      reads this
    {
      GoodConfig(cfg) && Inv(cfg, Now())
    }

    /** The constructor, with those of the first connections that could be made. */
    constructor (c: Config, made: seq<Conn>)
      requires GoodConfig(c) && |made| <= c.minSize && Distinct(made)
      ensures Valid() && cfg == c && Init(c, Now()) && idle == made
    {
      cfg, idle, total, out, creating := c, made, |made|, {}, {};
    }

    method EvictIdleLocked(now: Time)
      requires Valid()
      modifies this
      ensures Valid() && Now() == Apply(cfg, old(Now()), Evict(now))
    {
      StepKeeps(cfg, Now(), Evict(now));
      idle, total := KeepFresh(idle, total, now, cfg.maxIdle);
    }

    /** One step of the machine, done in place. */
    ghost predicate Does(before: State, step: Step)
      reads this
    {
      GoodConfig(cfg) && Inv(cfg, before) && Enabled(cfg, before, step) && Now() == Apply(cfg, before, step)
    }

    /** Takes the first idle connection off the queue, and drops it if it does not answer. */
    method PopIdle(now: Time, answers: bool) returns (r: Option<Conn>)
      requires Valid() && idle != []
      modifies this
      ensures Valid() && r.Some? == (old(idle)[0].healthy && answers)
      ensures r.Some? ==> Does(old(Now()), TakeIdle) && r.value == old(idle)[0].(lastUsed := now)
      ensures r.None? ==> Does(old(Now()), DropDead)
      ensures idle == old(idle)[1..] && out == if r.Some? then old(out) + {old(idle)[0].key} else old(out)
      ensures total == if r.Some? then old(total) else old(total) - 1
    {
      var conn := idle[0];
      if conn.healthy && answers {
        StepKeeps(cfg, Now(), TakeIdle);
        idle, out := idle[1..], out + {conn.key};
        return Some(conn.(lastUsed := now));
      }
      StepKeeps(cfg, Now(), DropDead);
      idle, total := idle[1..], Decrement(total);
      return None;
    }

    /** One turn of the loop of `acquire` over the idle queue. */
    method TryIdle(now: Time, ping: Conn -> bool) returns (found: bool, r: Option<Conn>, ghost steps: seq<Step>)
      requires Valid()
      modifies this
      ensures Valid() && creating == old(creating) && Reaches(cfg, old(Now()), steps, Now())
      ensures var young := FreshOf(old(idle), now, cfg.maxIdle);
        && found == (young != [])
        && (found ==> idle == young[1..] && r.Some? == (young[0].healthy && ping(young[0])))
        && (!found ==> idle == [] && r.None?)
        && (r.None? ==> out == old(out))
        && (r.Some? ==> r.value == young[0].(lastUsed := now) && out == old(out) + {young[0].key})
        && total == old(total) - (|old(idle)| - |young|) - (if found && r.None? then 1 else 0)
    {
      EvictIdleLocked(now);
      found, r, steps := idle != [], None, [Evict(now)];
      if found {
        ghost var s := Now();
        r := PopIdle(now, ping(idle[0]));
        steps := [Evict(now), if r.Some? then TakeIdle else DropDead];
        TwoSteps(cfg, old(Now()), steps[0], s, steps[1], Now());
      }
    }

    /**
     * `acquire` up to where it returns, waits, or leaves the lock to connect. Of the connections
     * within the idle limit those up to the first that is healthy and answers leave the queue,
     * and that one is handed out; if there is none, the queue is empty.
     */
    method AcquireLocked(now: Time, thread: nat, ping: Conn -> bool) returns (o: Outcome, ghost steps: seq<Step>, ghost j: nat)
      requires Valid() && thread !in creating && |creating| < cfg.threads
      modifies this
      ensures Valid() && Reaches(cfg, old(Now()), steps, Now())
      ensures var young := FreshOf(old(idle), now, cfg.maxIdle);
        && j <= |young| && NoneAnswers(young, j, ping)
        && (o.Got? <==> j < |young|)
        && (o.Got? ==> young[j].healthy && ping(young[j]) && o.conn == young[j].(lastUsed := now)
                       && idle == young[j + 1..] && out == old(out) + {young[j].key})
        && (!o.Got? ==> idle == [] && out == old(out))
        && total == old(total) - (|old(idle)| - |young|) - j
      ensures o.MustWait? <==> !o.Got? && total >= cfg.maxSize
      ensures creating == if o.MustCreate? then old(creating) + {thread} else old(creating)
    {
      ghost var young := FreshOf(idle, now, cfg.maxIdle);
      steps, j := [], 0;
      while true
        invariant Valid() && Reaches(cfg, old(Now()), steps, Now())
        invariant out == old(out) && creating == old(creating)
        invariant j <= |young| && FreshOf(idle, now, cfg.maxIdle) == young[j..]
        invariant NoneAnswers(young, j, ping)
        decreases |idle|
      {
        ghost var s := Now();
        var found, conn, turn := TryIdle(now, ping);
        ReachesOn(cfg, old(Now()), steps, s, turn, Now());
        steps := steps + turn;
        if !found {
          if total >= cfg.maxSize { return MustWait, steps, j; }
          s := Now();
          StepKeeps(cfg, Now(), StartCreate(thread));
          creating := creating + {thread};
          OneStep(cfg, s, StartCreate(thread), Now());
          ReachesOn(cfg, old(Now()), steps, s, [StartCreate(thread)], Now());
          return MustCreate, steps + [StartCreate(thread)], j;
        }
        OneMore(young, j, ping);
        if conn.Some? { return Got(conn.value), steps, j; }
        j := j + 1;
        FreshAgain(old(idle), now, cfg.maxIdle, j);
      }
    }

    /** The end of `acquire` after connecting: the lock is taken again only for a connection. */
    method FinishCreate(thread: nat, conn: Option<Conn>) returns (r: Option<Conn>)
      requires Valid() && thread in creating
      requires conn.Some? ==> conn.value.key !in out && conn.value.key !in Keys(idle)
      modifies this
      ensures Valid() && r == conn
      ensures Does(old(Now()), if conn.Some? then CreateOk(thread, conn.value.key) else CreateFail(thread))
    {
      StepKeeps(cfg, Now(), if conn.Some? then CreateOk(thread, conn.value.key) else CreateFail(thread));
      creating := creating - {thread};
      if conn.Some? {
        total, out := Increment(total), out + {conn.value.key};
      }
      r := conn;
    }

    /** `release`, of any connection: the pool stays good if and only if the connection was out. */
    method ReleaseConn(conn: Option<Conn>, now: Time)
      requires Valid()
      modifies this
      ensures conn.None? ==> Now() == old(Now())
      ensures conn.Some? ==> Now() == HandBack(old(Now()), Release(conn.value, now))
      ensures Valid() <==> conn.None? || conn.value.key in old(out)
    {
      if conn.None? { return; }
      HandBackIff(cfg, Now(), Release(conn.value, now));
      idle, out := SharedAll(idle, Release(conn.value, now)), out - {conn.value.key};
      if !conn.value.healthy {
        total := Decrement(total);
        return;
      }
      idle := idle + [conn.value.(lastUsed := now)];
    }

    /** `invalidate`, of any connection. */
    method InvalidateConn(conn: Option<Conn>)
      requires Valid()
      modifies this
      ensures conn.None? ==> Now() == old(Now())
      ensures conn.Some? ==> Now() == HandBack(old(Now()), Invalidate(conn.value.key))
      ensures Valid() <==> conn.None? || conn.value.key in old(out)
    {
      if conn.None? { return; }
      HandBackIff(cfg, Now(), Invalidate(conn.value.key));
      idle, out := SharedAll(idle, Invalidate(conn.value.key)), out - {conn.value.key};
      total := Decrement(total);
    }
  }
}
