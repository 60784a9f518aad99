/**
 * The connection pool of cpp/net/conn_pool.cpp as a state machine: a step is
 * what a thread does while it holds the lock, and a run is any interleaving of
 * the steps of any number of threads.
 */
module ConnPoolModel {

  /** A `size_t` or `uint64_t` wraps around. */
  const WORD: nat := 0x1_0000_0000_0000_0000

  function Increment(n: nat): nat { if n + 1 == WORD then 0 else n + 1 }
  function Decrement(n: nat): nat { if n == 0 then WORD - 1 else n - 1 }

  /** `a - b` of two 64-bit words. */
  function Minus(a: nat, b: nat): nat
    requires a < WORD && b < WORD
  {
    if a >= b then a - b else a + WORD - b
  }

  type Time = t: nat | t < WORD

  /** A connection; the key tells it from every other. */
  datatype Conn = Conn(key: nat, healthy: bool, lastUsed: Time)

  /** Sizes, the idle limit in seconds, and how many threads may be connecting at once. */
  datatype Config = Config(minSize: nat, maxSize: nat, maxIdle: nat, threads: nat)

  predicate GoodConfig(cfg: Config) {
    cfg.minSize <= cfg.maxSize && cfg.threads >= 1 && cfg.maxSize + cfg.threads <= WORD
  }

  /** The idle queue and the counter, with the connections handed out and the threads that are connecting. */
  datatype State = State(idle: seq<Conn>, total: nat, out: set<nat>, creating: set<nat>)

  datatype Step =
    | Evict(now: Time)
    | TakeIdle
    | DropDead
    | StartCreate(thread: nat)
    | CreateOk(thread: nat, key: nat)
    | CreateFail(thread: nat)
    | Release(conn: Conn, now: Time)
    | Invalidate(key: nat)

  predicate Stale(c: Conn, now: Time, maxIdle: nat) {
    Minus(now, c.lastUsed) > maxIdle
  }

  /** The connections that eviction keeps, in their order. */
  function FreshOf(idle: seq<Conn>, now: Time, maxIdle: nat): (kept: seq<Conn>)
    ensures |kept| <= |idle|
  {
    if idle == [] then []
    else if Stale(idle[|idle| - 1], now, maxIdle) then FreshOf(idle[..|idle| - 1], now, maxIdle)
    else FreshOf(idle[..|idle| - 1], now, maxIdle) + [idle[|idle| - 1]]
  }

  function DecrementBy(n: nat, k: nat): nat {
    if k == 0 then n else Decrement(DecrementBy(n, k - 1))
  }

  function Keys(idle: seq<Conn>): set<nat> {
    set i | 0 <= i < |idle| :: idle[i].key
  }

  lemma FreshMore(done: seq<Conn>, c: Conn, now: Time, maxIdle: nat)
    ensures FreshOf(done + [c], now, maxIdle) ==
            if Stale(c, now, maxIdle) then FreshOf(done, now, maxIdle) else FreshOf(done, now, maxIdle) + [c]
  {
    assert (done + [c])[..|done|] == done;
  }

  /** Eviction treats each connection by itself. */
  lemma {:induction false} FreshConcat(a: seq<Conn>, b: seq<Conn>, now: Time, maxIdle: nat)
    ensures FreshOf(a + b, now, maxIdle) == FreshOf(a, now, maxIdle) + FreshOf(b, now, maxIdle)
  {
    if b == [] {
      assert a + b == a;
    } else {
      var front, c := b[..|b| - 1], b[|b| - 1];
      FreshConcat(a, front, now, maxIdle);
      assert a + b == (a + front) + [c] && b == front + [c];
      FreshMore(a + front, c, now, maxIdle);
      FreshMore(front, c, now, maxIdle);
    }
  }

  /** A connection is kept exactly when its age, as a 64-bit word, is within the limit. */
  lemma FreshOne(c: Conn, now: Time, maxIdle: nat)
    ensures FreshOf([c], now, maxIdle) == if (now - c.lastUsed) % 0x1_0000_0000_0000_0000 <= maxIdle then [c] else []
  {
    assert [c][..0] == [];
    if now < c.lastUsed { assert (now - c.lastUsed) % 0x1_0000_0000_0000_0000 == now - c.lastUsed + 0x1_0000_0000_0000_0000; }
  }

  lemma {:induction false} FreshStays(idle: seq<Conn>, now: Time, maxIdle: nat)
    requires forall i :: 0 <= i < |idle| ==> !Stale(idle[i], now, maxIdle)
    ensures FreshOf(idle, now, maxIdle) == idle
  {
    if idle != [] { FreshStays(idle[..|idle| - 1], now, maxIdle); }
  }

  lemma {:induction false} FreshIsFresh(idle: seq<Conn>, now: Time, maxIdle: nat)
    ensures forall i :: 0 <= i < |FreshOf(idle, now, maxIdle)| ==> !Stale(FreshOf(idle, now, maxIdle)[i], now, maxIdle)
  {
    if idle != [] { FreshIsFresh(idle[..|idle| - 1], now, maxIdle); }
  }

  /** A second eviction at the same time drops nothing more, also from what is left of the queue. */
  lemma FreshAgain(idle: seq<Conn>, now: Time, maxIdle: nat, j: nat)
    requires j <= |FreshOf(idle, now, maxIdle)|
    ensures FreshOf(FreshOf(idle, now, maxIdle)[j..], now, maxIdle) == FreshOf(idle, now, maxIdle)[j..]
  {
    FreshIsFresh(idle, now, maxIdle);
    FreshStays(FreshOf(idle, now, maxIdle)[j..], now, maxIdle);
  }

  /** When a step can be taken; a connection is handed back by a thread that has it. */
  predicate Enabled(cfg: Config, s: State, step: Step) {
    match step
    case Evict(_) => true
    case TakeIdle => s.idle != [] && s.idle[0].healthy
    case DropDead => s.idle != []
    case StartCreate(t) => s.idle == [] && s.total < cfg.maxSize && t !in s.creating && |s.creating| < cfg.threads
    case CreateOk(t, k) => t in s.creating && k !in s.out && k !in Keys(s.idle)
    case CreateFail(t) => t in s.creating
    case Release(c, _) => c.key in s.out
    case Invalidate(k) => k in s.out
  }

  function KeyIn(step: Step): nat
    requires step.Release? || step.Invalidate?
  {
    if step.Release? then step.conn.key else step.key
  }

  /** Handing a connection back changes the object, and an idle entry for it is that object. */
  function Shared(c: Conn, step: Step): Conn
    requires step.Release? || step.Invalidate?
  {
    if c.key != KeyIn(step) then c
    else if step.Invalidate? then c.(healthy := false)
    else if step.conn.healthy then c.(lastUsed := step.now)
    else c
  }

  function SharedAll(idle: seq<Conn>, step: Step): (r: seq<Conn>)
    requires step.Release? || step.Invalidate?
    ensures |r| == |idle| && forall i :: 0 <= i < |r| ==> r[i] == Shared(idle[i], step)
  {
    seq(|idle|, i requires 0 <= i < |idle| => Shared(idle[i], step))
  }

  /** What handing a connection back does, whether or not it had been handed out. */
  function HandBack(s: State, step: Step): State
    requires step.Release? || step.Invalidate?
  {
    var rest := s.(idle := SharedAll(s.idle, step), out := s.out - {KeyIn(step)});
    if step.Release? && step.conn.healthy then rest.(idle := rest.idle + [step.conn.(lastUsed := step.now)])
    else rest.(total := Decrement(s.total))
  }

  lemma SharedNone(idle: seq<Conn>, step: Step)
    requires (step.Release? || step.Invalidate?) && KeyIn(step) !in Keys(idle)
    ensures SharedAll(idle, step) == idle
  {
    forall i | 0 <= i < |idle| ensures Shared(idle[i], step) == idle[i] {
      assert idle[i].key in Keys(idle);
    }
  }

  function Apply(cfg: Config, s: State, step: Step): State
    requires Enabled(cfg, s, step)
  {
    match step
    case Evict(now) =>
      var kept := FreshOf(s.idle, now, cfg.maxIdle);
      s.(idle := kept, total := DecrementBy(s.total, |s.idle| - |kept|))
    case TakeIdle => s.(idle := s.idle[1..], out := s.out + {s.idle[0].key})
    case DropDead => s.(idle := s.idle[1..], total := Decrement(s.total))
    case StartCreate(t) => s.(creating := s.creating + {t})
    case CreateOk(t, k) => s.(creating := s.creating - {t}, out := s.out + {k}, total := Increment(s.total))
    case CreateFail(t) => s.(creating := s.creating - {t})
    case Release(_, _) => HandBack(s, step)
    case Invalidate(_) => HandBack(s, step)
  }

  // ----- what every step keeps

  predicate Distinct(idle: seq<Conn>) {
    forall i, j :: 0 <= i < j < |idle| ==> idle[i].key != idle[j].key
  }

  /** The counter is right, and exceeds the limit by no more than the threads that passed the check together. */
  ghost predicate Inv(cfg: Config, s: State) {
    && Distinct(s.idle) && Keys(s.idle) !! s.out
    && s.total == |s.idle| + |s.out|
    && |s.creating| <= cfg.threads
    && s.total + |s.creating| <= cfg.maxSize - 1 + cfg.threads
  }

  lemma {:induction false} DecrementAll(n: nat, k: nat)
    requires k <= n
    ensures DecrementBy(n, k) == n - k
  {
    if k > 0 { DecrementAll(n, k - 1); }
  }

  lemma {:induction false} FreshIsSome(idle: seq<Conn>, now: Time, maxIdle: nat)
    requires Distinct(idle)
    ensures var kept := FreshOf(idle, now, maxIdle); Distinct(kept) && Keys(kept) <= Keys(idle)
  {
    if idle != [] {
      var front, last := idle[..|idle| - 1], idle[|idle| - 1];
      FreshIsSome(front, now, maxIdle);
      var kept := FreshOf(front, now, maxIdle);
      forall i | 0 <= i < |kept| ensures kept[i].key != last.key && kept[i].key in Keys(idle) {
        assert kept[i].key in Keys(kept);
        var j :| 0 <= j < |front| && front[j].key == kept[i].key;
        assert idle[j].key == kept[i].key;
      }
    }
  }

  lemma StepKeepsEvict(cfg: Config, s: State, now: Time)
    requires Inv(cfg, s)
    ensures Inv(cfg, Apply(cfg, s, Evict(now)))
  {
    FreshIsSome(s.idle, now, cfg.maxIdle);
    DecrementAll(s.total, |s.idle| - |FreshOf(s.idle, now, cfg.maxIdle)|);
  }

  lemma PopKeeps(cfg: Config, s: State)
    requires Inv(cfg, s) && s.idle != []
    ensures Distinct(s.idle[1..]) && Keys(s.idle[1..]) <= Keys(s.idle) && s.idle[0].key !in Keys(s.idle[1..])
    ensures s.idle[0].key !in s.out
  {
    assert s.idle[0].key in Keys(s.idle);
    forall k | k in Keys(s.idle[1..]) ensures k in Keys(s.idle) && k != s.idle[0].key {
      var i :| 0 <= i < |s.idle[1..]| && s.idle[1..][i].key == k;
      assert s.idle[i + 1].key == k;
    }
  }

  lemma PushKeeps(idle: seq<Conn>, c: Conn)
    requires Distinct(idle) && c.key !in Keys(idle)
    ensures Distinct(idle + [c]) && Keys(idle + [c]) == Keys(idle) + {c.key}
  {
    var more := idle + [c];
    forall i | 0 <= i < |idle| ensures idle[i].key != c.key && more[i].key in Keys(idle) {
      assert idle[i].key in Keys(idle);
    }
    assert more[|idle|].key in Keys(more);
    forall k | k in Keys(idle) ensures k in Keys(more) {
      var i :| 0 <= i < |idle| && idle[i].key == k;
      assert more[i].key == k;
    }
  }

  lemma StepKeeps(cfg: Config, s: State, step: Step)
    requires GoodConfig(cfg) && Inv(cfg, s) && Enabled(cfg, s, step)
    ensures Inv(cfg, Apply(cfg, s, step))
  {
    match step
    case Evict(now) => StepKeepsEvict(cfg, s, now);
    case TakeIdle => PopKeeps(cfg, s);
    case DropDead => PopKeeps(cfg, s);
    case StartCreate(t) =>
    case CreateOk(t, k) =>
    case CreateFail(t) =>
    case Release(c, now) =>
      SharedNone(s.idle, step);
      if c.healthy { PushKeeps(s.idle, c.(lastUsed := now)); }
    case Invalidate(k) => SharedNone(s.idle, step);
  }

  // ----- runs

  /** What the constructor leaves: at most the least number of connections, all idle. */
  ghost predicate Init(cfg: Config, s: State) {
    |s.idle| <= cfg.minSize && Distinct(s.idle) && s.total == |s.idle| && s.out == {} && s.creating == {}
  }

  predicate CanRun(cfg: Config, s: State, steps: seq<Step>)
    decreases |steps|
  {
    steps == [] || (Enabled(cfg, s, steps[0]) && CanRun(cfg, Apply(cfg, s, steps[0]), steps[1..]))
  }

  function Run(cfg: Config, s: State, steps: seq<Step>): State
    requires CanRun(cfg, s, steps)
    decreases |steps|
  {
    if steps == [] then s else Run(cfg, Apply(cfg, s, steps[0]), steps[1..])
  }

  lemma {:induction false} RunKeeps(cfg: Config, s: State, steps: seq<Step>)
    requires GoodConfig(cfg) && Inv(cfg, s) && CanRun(cfg, s, steps)
    ensures Inv(cfg, Run(cfg, s, steps))
    decreases |steps|
  {
    if steps != [] {
      StepKeeps(cfg, s, steps[0]);
      RunKeeps(cfg, Apply(cfg, s, steps[0]), steps[1..]);
    }
  }

  /** A run of the machine from one state to another. */
  predicate Reaches(cfg: Config, s: State, steps: seq<Step>, t: State) {
    CanRun(cfg, s, steps) && Run(cfg, s, steps) == t
  }

  lemma OneStep(cfg: Config, s: State, step: Step, t: State)
    requires Enabled(cfg, s, step) && Apply(cfg, s, step) == t
    ensures Reaches(cfg, s, [step], t)
  {
    assert [step][1..] == [];
    assert CanRun(cfg, t, [step][1..]);
  }

  lemma {:induction false} ReachesOn(cfg: Config, s: State, steps: seq<Step>, t: State, more: seq<Step>, u: State)
    requires Reaches(cfg, s, steps, t) && Reaches(cfg, t, more, u)
    ensures Reaches(cfg, s, steps + more, u)
    decreases |steps|
  {
    if steps == [] {
      assert steps + more == more;
    } else {
      assert (steps + more)[0] == steps[0] && (steps + more)[1..] == steps[1..] + more;
      ReachesOn(cfg, Apply(cfg, s, steps[0]), steps[1..], t, more, u);
    }
  }

  lemma TwoSteps(cfg: Config, s: State, one: Step, t: State, two: Step, u: State)
    requires Enabled(cfg, s, one) && Apply(cfg, s, one) == t
    requires Enabled(cfg, t, two) && Apply(cfg, t, two) == u
    ensures Reaches(cfg, s, [one, two], u)
  {
    OneStep(cfg, s, one, t);
    OneStep(cfg, t, two, u);
    ReachesOn(cfg, s, [one], t, [two], u);
    assert [one] + [two] == [one, two];
  }

  /** In every interleaving the counter is the idle and the handed-out connections, and within the bound. */
  lemma EveryRun(cfg: Config, s: State, steps: seq<Step>)
    requires GoodConfig(cfg) && Init(cfg, s) && CanRun(cfg, s, steps)
    ensures var s' := Run(cfg, s, steps);
      s'.total == |s'.idle| + |s'.out| && s'.total <= cfg.maxSize - 1 + cfg.threads
  {
    RunKeeps(cfg, s, steps);
  }

  // ----- the bound is met

  ghost function Between(m: nat, n: nat): (r: set<nat>)
    ensures forall i :: i in r <==> m <= i < n
  {
    if n <= m then {} else Between(m, n - 1) + {n - 1}
  }

  ghost function Upto(n: nat): set<nat> {
    Between(0, n)
  }

  lemma {:induction false} UptoSize(n: nat)
    ensures |Upto(n)| == n
  {
    if n > 0 {
      UptoSize(n - 1);
      assert Upto(n) == Upto(n - 1) + {n - 1};
    } else {
      assert Upto(0) == {};
    }
  }

  const EMPTY: State := State([], 0, {}, {})

  lemma {:induction false} RunAppend(cfg: Config, s: State, steps: seq<Step>, step: Step)
    requires CanRun(cfg, s, steps) && Enabled(cfg, Run(cfg, s, steps), step)
    ensures CanRun(cfg, s, steps + [step])
    ensures Run(cfg, s, steps + [step]) == Apply(cfg, Run(cfg, s, steps), step)
    decreases |steps|
  {
    var more := steps + [step];
    if steps == [] {
      assert more == [step] && more[1..] == [];
    } else {
      assert more[0] == steps[0] && more[1..] == steps[1..] + [step];
      RunAppend(cfg, Apply(cfg, s, steps[0]), steps[1..], step);
    }
  }

  /** One thread alone fills the pool up to one below the limit. */
  lemma {:induction false} FillAlone(cfg: Config, k: nat) returns (steps: seq<Step>)
    requires GoodConfig(cfg) && k < cfg.maxSize
    ensures CanRun(cfg, EMPTY, steps) && Run(cfg, EMPTY, steps) == State([], k, Upto(k), {})
  {
    if k == 0 {
      steps := [];
      assert Upto(0) == {};
    } else {
      steps := FillAlone(cfg, k - 1);
      RunAppend(cfg, EMPTY, steps, StartCreate(0));
      steps := steps + [StartCreate(0)];
      RunAppend(cfg, EMPTY, steps, CreateOk(0, k - 1));
      steps := steps + [CreateOk(0, k - 1)];
      assert Upto(k) == Upto(k - 1) + {k - 1};
      assert {0} - {0} == {};
    }
  }

  /** Then threads pass the check one after the other, before any has connected. */
  lemma {:induction false} PassTogether(cfg: Config, c: nat) returns (steps: seq<Step>)
    requires GoodConfig(cfg) && cfg.maxSize >= 1 && c <= cfg.threads
    ensures CanRun(cfg, EMPTY, steps)
    ensures Run(cfg, EMPTY, steps) == State([], cfg.maxSize - 1, Upto(cfg.maxSize - 1), Upto(c))
  {
    if c == 0 {
      steps := FillAlone(cfg, cfg.maxSize - 1);
      assert Upto(0) == {};
    } else {
      steps := PassTogether(cfg, c - 1);
      UptoSize(c - 1);
      RunAppend(cfg, EMPTY, steps, StartCreate(c - 1));
      steps := steps + [StartCreate(c - 1)];
      assert Upto(c) == Upto(c - 1) + {c - 1};
    }
  }

  /** The pool one below its limit and then d more, while the other threads are still connecting. */
  ghost function Crowd(cfg: Config, d: nat): State
    requires cfg.maxSize >= 1
  {
    State([], cfg.maxSize - 1 + d, Upto(cfg.maxSize - 1 + d), Between(d, cfg.threads))
  }

  ghost predicate Takes(cfg: Config, s: State, step: Step, t: State) {
    Enabled(cfg, s, step) && Apply(cfg, s, step) == t
  }

  ghost predicate Went(cfg: Config, steps: seq<Step>, s: State) {
    CanRun(cfg, EMPTY, steps) && Run(cfg, EMPTY, steps) == s
  }

  lemma ConnectOne(cfg: Config, t: nat, s: State, step: Step, s': State)
    requires GoodConfig(cfg) && cfg.maxSize >= 1 && t < cfg.threads
    requires s == Crowd(cfg, t) && step == CreateOk(t, cfg.maxSize - 1 + t) && s' == Crowd(cfg, t + 1)
    ensures Takes(cfg, s, step, s')
  {
    var key := cfg.maxSize - 1 + t;
    assert Upto(key + 1) == Upto(key) + {key};
    assert Between(t + 1, cfg.threads) == Between(t, cfg.threads) - {t};
  }

  lemma GoOn(cfg: Config, steps: seq<Step>, s: State, step: Step, t: State) returns (more: seq<Step>)
    requires Went(cfg, steps, s) && Takes(cfg, s, step, t)
    ensures Went(cfg, more, t)
  {
    RunAppend(cfg, EMPTY, steps, step);
    more := steps + [step];
  }

  /** A run goes on through a series of states. */
  lemma {:induction false} GoOnThrough(cfg: Config, steps: seq<Step>, series: nat -> State, step: nat -> Step, d: nat) returns (more: seq<Step>)
    requires Went(cfg, steps, series(0))
    requires forall i: nat, j: nat :: i < d && j == i + 1 ==> Takes(cfg, series(i), step(i), series(j))
    ensures Went(cfg, more, series(d))
    decreases d
  {
    if d == 0 {
      more := steps;
    } else {
      more := GoOnThrough(cfg, steps, series, step, d - 1);
      more := GoOn(cfg, more, series(d - 1), step(d - 1), series(d));
    }
  }

  ghost function Crowds(cfg: Config): nat -> State
    requires cfg.maxSize >= 1
  {
    (d: nat) => Crowd(cfg, d)
  }

  ghost function Connects(cfg: Config): nat -> Step
    requires cfg.maxSize >= 1
  {
    (t: nat) => CreateOk(t, cfg.maxSize - 1 + t)
  }

  lemma ConnectEach(cfg: Config, series: nat -> State, step: nat -> Step)
    requires GoodConfig(cfg) && cfg.maxSize >= 1 && series == Crowds(cfg) && step == Connects(cfg)
    ensures forall i: nat, j: nat :: i < cfg.threads && j == i + 1 ==> Takes(cfg, series(i), step(i), series(j))
  {
    forall i: nat, j: nat | i < cfg.threads && j == i + 1 ensures Takes(cfg, series(i), step(i), series(j)) {
      ConnectOne(cfg, i, series(i), step(i), series(j));
    }
  }

  lemma CrowdEnds(cfg: Config, series: nat -> State)
    requires cfg.maxSize >= 1 && series == Crowds(cfg)
    ensures series(0) == State([], cfg.maxSize - 1, Upto(cfg.maxSize - 1), Upto(cfg.threads))
    ensures series(cfg.threads).total == cfg.maxSize - 1 + cfg.threads
  {
  }

  /** And then all of them connect. */
  lemma ConnectAll(cfg: Config) returns (steps: seq<Step>)
    requires GoodConfig(cfg) && cfg.maxSize >= 1
    ensures CanRun(cfg, EMPTY, steps) && Run(cfg, EMPTY, steps).total == cfg.maxSize - 1 + cfg.threads
  {
    steps := PassTogether(cfg, cfg.threads);
    CrowdEnds(cfg, Crowds(cfg));
    ConnectEach(cfg, Crowds(cfg), Connects(cfg));
    steps := GoOnThrough(cfg, steps, Crowds(cfg), Connects(cfg), cfg.threads);
  }

  /** From every start the bound is met: the idle connections turn out dead, and then all the threads connect at once. */
  lemma {:induction false} BoundMet(cfg: Config, s: State) returns (steps: seq<Step>)
    requires GoodConfig(cfg) && cfg.maxSize >= 1 && s.total == |s.idle| && s.out == {} && s.creating == {}
    ensures CanRun(cfg, s, steps) && Run(cfg, s, steps).total == cfg.maxSize - 1 + cfg.threads
    decreases |s.idle|
  {
    if s.idle == [] {
      steps := ConnectAll(cfg);
    } else {
      var rest := BoundMet(cfg, Apply(cfg, s, DropDead));
      steps := [DropDead] + rest;
      assert steps[1..] == rest;
    }
  }

  /** A pool of no connections stays one. */
  lemma {:induction false} NoneAllowed(cfg: Config, steps: seq<Step>)
    requires cfg.maxSize == 0 && CanRun(cfg, EMPTY, steps)
    ensures Run(cfg, EMPTY, steps) == EMPTY
    decreases |steps|
  {
    if steps != [] { NoneAllowed(cfg, steps[1..]); }
  }

  ghost predicate Within(cfg: Config, s: State) {
    forall steps :: CanRun(cfg, s, steps) ==> Run(cfg, s, steps).total <= cfg.maxSize
  }

  /** From each start, the pool stays within its limit in every run exactly when no two threads connect at once, or none may. */
  lemma LimitHeldIff(cfg: Config, s: State)
    requires GoodConfig(cfg) && Init(cfg, s)
    ensures Within(cfg, s) <==> cfg.threads == 1 || cfg.maxSize == 0
  {
    if cfg.maxSize == 0 {
      assert s == EMPTY;
      forall steps | CanRun(cfg, s, steps) ensures Run(cfg, s, steps).total <= cfg.maxSize { NoneAllowed(cfg, steps); }
    } else if cfg.threads == 1 {
      forall steps | CanRun(cfg, s, steps) ensures Run(cfg, s, steps).total <= cfg.maxSize { EveryRun(cfg, s, steps); }
    } else {
      var steps := BoundMet(cfg, s);
    }
  }

  // ----- handing back a connection that one does not have

  /** From a good state, handing back leaves the counter right, and the state good, if and only if the connection was out. */
  lemma HandBackIff(cfg: Config, s: State, step: Step)
    requires GoodConfig(cfg) && Inv(cfg, s) && (step.Release? || step.Invalidate?)
    ensures var s' := HandBack(s, step); s'.total == |s'.idle| + |s'.out| <==> KeyIn(step) in s.out
    ensures Inv(cfg, HandBack(s, step)) <==> KeyIn(step) in s.out
  {
    if KeyIn(step) in s.out {
      StepKeeps(cfg, s, step);
    } else {
      assert s.out - {KeyIn(step)} == s.out;
    }
  }

  /** So a second hand-back of the same connection always breaks the counter, whichever two they are. */
  lemma HandedBackTwice(cfg: Config, s: State, first: Step, second: Step)
    requires GoodConfig(cfg) && Inv(cfg, s) && (first.Release? || first.Invalidate?) && (second.Release? || second.Invalidate?)
    requires KeyIn(first) in s.out && KeyIn(second) == KeyIn(first)
    ensures var s' := HandBack(HandBack(s, first), second); s'.total != |s'.idle| + |s'.out|
  {
    HandBackIff(cfg, s, first);
    HandBackIff(cfg, HandBack(s, first), second);
  }
}
