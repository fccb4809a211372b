/** The per-caller token-bucket limiter of gm-ca (gm-ca/src/service.rs).

    Instants and durations are whole nanoseconds. A call of `check` reads the clock up to
    three times: once for reaping, once when it creates a bucket and once in `refill`. */
module Limiter {
  import opened ModArith

  type Time = nat

  datatype Bucket = Bucket(tokens: nat, lastRefill: Time)
  datatype Config = Config(capacity: nat, refillPeriod: nat, idleTtl: nat)

  /** The clock readings of one `check` call, in the order they are taken. */
  datatype Clock = Clock(reap: Time, create: Time, refill: Time) {
    ghost predicate Valid() { reap <= create <= refill }
  }

  datatype Call<C> = Call(caller: C, clock: Clock)

  function Since(now: Time, earlier: Time): (d: nat) {
    if now >= earlier then now - earlier else 0
  }

  // ---------------------------------------------------------------- one bucket

  /** TokenBucket::refill followed by the token test of try_consume. */
  function Consume(capacity: nat, period: nat, b: Bucket, now: Time): (r: (Bucket, bool)) {
    var b1 := if Since(now, b.lastRefill) >= period then Bucket(capacity, now) else b;
    if b1.tokens > 0 then (b1.(tokens := b1.tokens - 1), true) else (b1, false)
  }

  class TokenBucket {
    var capacity: nat
    var tokens: nat
    var refillPeriod: nat
    var lastRefill: Time

    ghost function Value(): Bucket
      reads this
    {
      Bucket(tokens, lastRefill)
    }

    constructor (capacity: nat, refillPeriod: nat, now: Time)
      ensures this.capacity == capacity && this.refillPeriod == refillPeriod
      ensures Value() == Bucket(capacity, now)
    {
      this.capacity, tokens, this.refillPeriod, lastRefill := capacity, capacity, refillPeriod, now;
    }

    method Refill(now: Time)
      modifies this`tokens, this`lastRefill
      ensures Value() == if Since(now, old(lastRefill)) >= refillPeriod then Bucket(capacity, now) else old(Value())
    {
      var elapsed := Since(now, lastRefill);
      if elapsed >= refillPeriod {
        tokens := capacity;
        lastRefill := now;
      }
    }

    method TryConsume(now: Time) returns (ok: bool)
      modifies this`tokens, this`lastRefill
      ensures (Value(), ok) == Consume(capacity, refillPeriod, old(Value()), now)
    {
      Refill(now);
      if tokens > 0 {
        tokens := tokens - 1;
        ok := true;
      } else {
        ok := false;
      }
    }
  }

  // ---------------------------------------------------------------- the map of buckets

  type Buckets<C> = map<C, Bucket>

  /** HashMap::retain in `check`. */
  function Reap<C>(cfg: Config, m: Buckets<C>, now: Time): (r: Buckets<C>) {
    map c | c in m && Since(now, m[c].lastRefill) <= cfg.idleTtl :: m[c]
  }

  /** One `check`: reap, find or create the caller's bucket, consume. */
  function Check<C>(cfg: Config, m: Buckets<C>, call: Call<C>): (r: (Buckets<C>, bool)) {
    var live := Reap(cfg, m, call.clock.reap);
    var b := if call.caller in live then live[call.caller] else Bucket(cfg.capacity, call.clock.create);
    var (b', ok) := Consume(cfg.capacity, cfg.refillPeriod, b, call.clock.refill);
    (live[call.caller := b'], ok)
  }

  class PerCallerLimiter<C(==)> {
    var buckets: map<C, TokenBucket>
    const cfg: Config

    ghost predicate Valid()
      reads this, buckets.Values
    {
      && (forall c :: c in buckets ==>
           buckets[c].capacity == cfg.capacity && buckets[c].refillPeriod == cfg.refillPeriod)
      && forall c, d :: c in buckets && d in buckets && buckets[c] == buckets[d] ==> c == d
    }

    ghost function Value(): Buckets<C>
      reads this, buckets.Values
    {
      map c | c in buckets :: buckets[c].Value()
    }

    constructor (cfg: Config)
      ensures Valid() && Value() == map[] && this.cfg == cfg
    {
      this.cfg := cfg;
      buckets := map[];
    }

    /** The opportunistic reaping at the start of `check`. */
    method Retain(now: Time)
      requires Valid()
      modifies this`buckets
      ensures Valid() && buckets.Values <= old(buckets.Values)
      ensures Value() == Reap(cfg, old(Value()), now)
    {
      buckets := map c | c in buckets && Since(now, buckets[c].lastRefill) <= cfg.idleTtl :: buckets[c];
    }

    method CheckCall(call: Call<C>) returns (ok: bool)
      requires Valid()
      modifies this`buckets, buckets.Values
      ensures Valid()
      ensures (Value(), ok) == Check(cfg, old(Value()), call)
    {
      hide Consume, Since;
      Retain(call.clock.reap);
      ghost var live := Value();
      var bucket;
      if call.caller in buckets {
        bucket := buckets[call.caller];
      } else {
        bucket := new TokenBucket(cfg.capacity, cfg.refillPeriod, call.clock.create);
        buckets := buckets[call.caller := bucket];
      }
      ok := bucket.TryConsume(call.clock.refill);
      assert Value() == live[call.caller := bucket.Value()];
    }
  }

  // ---------------------------------------------------------------- runs

  /** The decisions of a run, one per call. */
  function Run<C>(cfg: Config, m: Buckets<C>, calls: seq<Call<C>>): (r: seq<bool>)
    ensures |r| == |calls|
    decreases |calls|
  {
    if calls == [] then [] else
    var (m', ok) := Check(cfg, m, calls[0]);
    [ok] + Run(cfg, m', calls[1..])
  }

  /** Readings never go backwards, within a call and from one call to the next. */
  ghost predicate Monotone<C>(calls: seq<Call<C>>) {
    && (forall i :: 0 <= i < |calls| ==> calls[i].clock.Valid())
    && forall i, j :: 0 <= i < j < |calls| ==> calls[i].clock.refill <= calls[j].clock.reap
  }

  /** Calls and decisions of one caller, in order. */
  function Own<C(==)>(c: C, calls: seq<Call<C>>): (r: seq<Call<C>>) {
    if calls == [] then [] else
    (if calls[0].caller == c then [calls[0]] else []) + Own(c, calls[1..])
  }

  function OwnDecisions<C(==)>(c: C, calls: seq<Call<C>>, decisions: seq<bool>): (r: seq<bool>)
    requires |calls| == |decisions|
    decreases |calls|
  {
    if calls == [] then [] else
    (if calls[0].caller == c then [decisions[0]] else []) + OwnDecisions(c, calls[1..], decisions[1..])
  }

  // ---------------------------------------------------------------- isolation

  /** From reading `t` on, `c` finds the same bucket in both maps: equal buckets, or none that
      a reap at `t` or later would leave. */
  ghost predicate SameFor<C(!new)>(cfg: Config, c: C, m: Buckets<C>, n: Buckets<C>, t: Time) {
    var m', n' := Reap(cfg, m, t), Reap(cfg, n, t);
    (c in m' <==> c in n') && (c in m' ==> m'[c] == n'[c])
  }

  lemma SameForLater<C(!new)>(cfg: Config, c: C, m: Buckets<C>, n: Buckets<C>, t: Time, u: Time)
    requires SameFor(cfg, c, m, n, t) && t <= u
    ensures SameFor(cfg, c, m, n, u)
  {
    if c in m { assert c in Reap(cfg, m, u) ==> c in Reap(cfg, m, t); }
    if c in n { assert c in Reap(cfg, n, u) ==> c in Reap(cfg, n, t); }
  }

  lemma {:induction false} IsolationFrom<C(!new)>(cfg: Config, c: C, m: Buckets<C>, n: Buckets<C>, calls: seq<Call<C>>,
                                                  t: Time)
    requires Monotone(calls) && SameFor(cfg, c, m, n, t)
    requires calls != [] ==> t <= calls[0].clock.reap
    ensures OwnDecisions(c, calls, Run(cfg, m, calls)) == Run(cfg, n, Own(c, calls))
    decreases |calls|
  {
    if calls != [] {
      var call, rest := calls[0], calls[1..];
      var now := call.clock.reap;
      SameForLater(cfg, c, m, n, t, now);
      var (m', ok) := Check(cfg, m, call);
      assert Run(cfg, m, calls)[1..] == Run(cfg, m', rest);
      assert rest != [] ==> call.clock.refill <= rest[0].clock.reap;
      if call.caller == c {
        var (n', ok') := Check(cfg, n, call);
        assert ok == ok' && m'[c] == n'[c];
        IsolationFrom(cfg, c, m', n', rest, call.clock.refill);
        assert Own(c, calls) == [call] + Own(c, rest);
        assert Own(c, calls)[1..] == Own(c, rest);
      } else {
        assert SameFor(cfg, c, m', n, call.clock.refill);
        IsolationFrom(cfg, c, m', n, rest, call.clock.refill);
        assert Own(c, calls) == Own(c, rest);
      }
    }
  }

  /** A caller's decisions are those of a limiter that only ever sees that caller, whatever
      the other callers do and whatever the idle time-to-live is. */
  lemma Isolation<C(!new)>(cfg: Config, c: C, calls: seq<Call<C>>)
    requires Monotone(calls)
    ensures OwnDecisions(c, calls, Run(cfg, map[], calls)) == Run(cfg, map[], Own(c, calls))
  {
    IsolationFrom(cfg, c, map[], map[], calls, 0);
  }

  // ---------------------------------------------------------------- reaping is invisible, exactly when

  /** The same limiter with the reaping line deleted. */
  function CheckKeep<C>(cfg: Config, m: Buckets<C>, call: Call<C>): (r: (Buckets<C>, bool)) {
    var b := if call.caller in m then m[call.caller] else Bucket(cfg.capacity, call.clock.create);
    var (b', ok) := Consume(cfg.capacity, cfg.refillPeriod, b, call.clock.refill);
    (m[call.caller := b'], ok)
  }

  function RunKeep<C>(cfg: Config, m: Buckets<C>, calls: seq<Call<C>>): (r: seq<bool>)
    ensures |r| == |calls|
    decreases |calls|
  {
    if calls == [] then [] else
    var (m', ok) := CheckKeep(cfg, m, calls[0]);
    [ok] + RunKeep(cfg, m', calls[1..])
  }

  /** Every call reads the clock once. */
  ghost predicate OneReading<C>(calls: seq<Call<C>>) {
    forall i :: 0 <= i < |calls| ==> calls[i].clock.reap == calls[i].clock.create == calls[i].clock.refill
  }

  /** Reaping acts like a refill as soon as a bucket has been idle for more than the
      time-to-live, so it can only shorten the period. */
  function Effective(cfg: Config): (r: Config) {
    if cfg.refillPeriod <= cfg.idleTtl + 1 then cfg else cfg.(refillPeriod := cfg.idleTtl + 1)
  }

  /** The reaping map is the keeping map without some buckets that are due for a refill. */
  ghost predicate Lags<C(!new)>(cfg: Config, m: Buckets<C>, k: Buckets<C>, t: Time) {
    && m.Keys <= k.Keys
    && (forall c :: c in m ==> m[c] == k[c])
    && forall c :: c in k && c !in m ==> t >= k[c].lastRefill + Effective(cfg).refillPeriod
  }

  /** The reading of a call that decides: the one that dates a renewed or new bucket, and the
      first one if the bucket is left as it is. */
  function Deciding<C>(cfg: Config, m: Buckets<C>, call: Call<C>): (t: Time) {
    var live := Reap(cfg, m, call.clock.reap);
    if call.caller in live then
      if Since(call.clock.refill, live[call.caller].lastRefill) >= cfg.refillPeriod
      then call.clock.refill else call.clock.reap
    else
      if Since(call.clock.refill, call.clock.create) >= cfg.refillPeriod then call.clock.refill else call.clock.create
  }

  /** The call with its deciding reading in place of all three. */
  function OnceAt<C>(cfg: Config, m: Buckets<C>, call: Call<C>): (r: Call<C>) {
    var t := Deciding(cfg, m, call);
    Call(call.caller, Clock(t, t, t))
  }

  function Once<C>(cfg: Config, m: Buckets<C>, calls: seq<Call<C>>): (r: seq<Call<C>>)
    ensures |r| == |calls|
    decreases |calls|
  {
    if calls == [] then [] else
    [OnceAt(cfg, m, calls[0])] + Once(cfg, Check(cfg, m, calls[0]).0, calls[1..])
  }

  lemma CheckLags<C(!new)>(cfg: Config, m: Buckets<C>, k: Buckets<C>, call: Call<C>, t: Time)
    requires call.clock.Valid() && t <= call.clock.reap && Lags(cfg, m, k, t)
    ensures Check(cfg, m, call).1 == CheckKeep(Effective(cfg), k, OnceAt(cfg, m, call)).1
    ensures Lags(cfg, Check(cfg, m, call).0, CheckKeep(Effective(cfg), k, OnceAt(cfg, m, call)).0, call.clock.refill)
  {
  }

  lemma {:induction false} RunLags<C(!new)>(cfg: Config, m: Buckets<C>, k: Buckets<C>, calls: seq<Call<C>>, t: Time)
    requires Monotone(calls) && Lags(cfg, m, k, t)
    requires calls != [] ==> t <= calls[0].clock.reap
    ensures Run(cfg, m, calls) == RunKeep(Effective(cfg), k, Once(cfg, m, calls))
    decreases |calls|
  {
    hide Check, CheckKeep, OnceAt, Lags;
    if calls != [] {
      var call, rest := calls[0], calls[1..];
      CheckLags(cfg, m, k, call, t);
      var m', k' := Check(cfg, m, call).0, CheckKeep(Effective(cfg), k, OnceAt(cfg, m, call)).0;
      RunLags(cfg, m', k', rest, call.clock.refill);
      assert Once(cfg, m, calls)[1..] == Once(cfg, m', rest);
    }
  }

  /** One of the call's own readings is put in place of all three. */
  predicate OneOfItsReadings<C(==)>(call: Call<C>, once: Call<C>) {
    && once.caller == call.caller && once.clock.reap == once.clock.create == once.clock.refill
    && once.clock.reap in {call.clock.reap, call.clock.create, call.clock.refill}
  }

  lemma {:induction false} OnceReadings<C(!new)>(cfg: Config, m: Buckets<C>, calls: seq<Call<C>>)
    requires Monotone(calls)
    ensures var once := Once(cfg, m, calls);
            forall i :: 0 <= i < |calls| ==> OneOfItsReadings(calls[i], once[i])
    decreases |calls|
  {
    hide Check;
    if calls != [] { OnceReadings(cfg, Check(cfg, m, calls[0]).0, calls[1..]); }
  }

  /** In every run the reaping limiter decides like the limiter that never reaps, whose refill
      period is min(refill_period, idle_ttl + 1), on a run in which each call reads the clock once,
      at one of its own readings. */
  lemma ReapingShortensPeriod<C(!new)>(cfg: Config, calls: seq<Call<C>>)
    requires Monotone(calls)
    ensures var once := Once(cfg, map[], calls);
            && (forall i :: 0 <= i < |calls| ==> OneOfItsReadings(calls[i], once[i]))
            && Monotone(once) && OneReading(once)
            && Run(cfg, map[], calls) == RunKeep(Effective(cfg), map[], once)
  {
    RunLags(cfg, map[], map[], calls, 0);
    OnceReadings(cfg, map[], calls);
    var once := Once(cfg, map[], calls);
    forall i, j | 0 <= i < j < |once| ensures once[i].clock.refill <= once[j].clock.reap {
      assert OneOfItsReadings(calls[i], once[i]) && OneOfItsReadings(calls[j], once[j]);
    }
    forall i | 0 <= i < |once| ensures once[i].clock.Valid() { assert OneOfItsReadings(calls[i], once[i]); }
  }

  /** So with one reading per call it is that limiter on the same run. */
  lemma OneReadingShortens<C(!new)>(cfg: Config, calls: seq<Call<C>>)
    requires Monotone(calls) && OneReading(calls)
    ensures Run(cfg, map[], calls) == RunKeep(Effective(cfg), map[], calls)
  {
    ReapingShortensPeriod(cfg, calls);
    var once := Once(cfg, map[], calls);
    forall i | 0 <= i < |calls| ensures once[i] == calls[i] { assert OneOfItsReadings(calls[i], once[i]); }
    assert once == calls;
  }

  // ---------------------------------------------------------------- runs on which reaping shows

  function At<C>(c: C, t: Time): (r: Call<C>) { Call(c, Clock(t, t, t)) }

  /** n calls at u and one at v. */
  function Drain<C>(c: C, n: nat, u: Time, v: Time): (r: seq<Call<C>>)
    ensures |r| == n + 1
  {
    seq(n, _ => At(c, u)) + [At(c, v)]
  }

  /** One draining call: with and without reaping a token goes and nothing is renewed. */
  lemma DrainStep<C(!new)>(cfg: Config, c: C, n: nat, a: Time, b: Time, u: Time)
    requires n > 0 && a <= u && b <= u && u - a < cfg.refillPeriod && u - b < cfg.refillPeriod && u - a <= cfg.idleTtl
    ensures Check(cfg, map[c := Bucket(n, a)], At(c, u)) == (map[c := Bucket(n - 1, a)], true)
    ensures CheckKeep(cfg, map[c := Bucket(n, b)], At(c, u)) == (map[c := Bucket(n - 1, b)], true)
  {
    assert Check(cfg, map[c := Bucket(n, a)], At(c, u)).0 == map[c := Bucket(n - 1, a)];
    assert CheckKeep(cfg, map[c := Bucket(n, b)], At(c, u)).0 == map[c := Bucket(n - 1, b)];
  }

  /** The last call finds the reaping limiter's bucket renewed or gone, and the other's empty. */
  lemma DrainedThenLate<C(!new)>(cfg: Config, c: C, a: Time, b: Time, v: Time)
    requires cfg.capacity > 0 && a <= v && b <= v && v - b < cfg.refillPeriod
    requires v - a >= cfg.refillPeriod || v - a > cfg.idleTtl
    ensures Check(cfg, map[c := Bucket(0, a)], At(c, v)).1 && !CheckKeep(cfg, map[c := Bucket(0, b)], At(c, v)).1
  {
    if v - a > cfg.idleTtl { assert c !in Reap(cfg, map[c := Bucket(0, a)], v); }
  }

  lemma {:induction false} DrainApart<C(!new)>(cfg: Config, c: C, n: nat, a: Time, b: Time, u: Time, v: Time)
    requires cfg.capacity > 0 && a <= u <= v && b <= u && v - b < cfg.refillPeriod
    requires u - a < cfg.refillPeriod && u - a <= cfg.idleTtl
    requires v - a >= cfg.refillPeriod || v - a > cfg.idleTtl
    ensures Run(cfg, map[c := Bucket(n, a)], Drain(c, n, u, v))
            != RunKeep(cfg, map[c := Bucket(n, b)], Drain(c, n, u, v))
    decreases n
  {
    hide Check, CheckKeep;
    var calls := Drain(c, n, u, v);
    var m, k := map[c := Bucket(n, a)], map[c := Bucket(n, b)];
    if n == 0 {
      assert calls == [At(c, v)];
      DrainedThenLate(cfg, c, a, b, v);
      assert Run(cfg, m, calls)[0] && !RunKeep(cfg, k, calls)[0];
    } else {
      assert calls[0] == At(c, u) && calls[1..] == Drain(c, n - 1, u, v);
      DrainStep(cfg, c, n, a, b, u);
      DrainApart(cfg, c, n - 1, a, b, u, v);
      assert Run(cfg, m, calls)[1..] == Run(cfg, map[c := Bucket(n - 1, a)], calls[1..]);
      assert RunKeep(cfg, k, calls)[1..] == RunKeep(cfg, map[c := Bucket(n - 1, b)], calls[1..]);
    }
  }

  /** What one more call in front does. */
  lemma InFront<C(!new)>(cfg: Config, m: Buckets<C>, k: Buckets<C>, call: Call<C>, rest: seq<Call<C>>)
    requires Run(cfg, Check(cfg, m, call).0, rest) != RunKeep(cfg, CheckKeep(cfg, k, call).0, rest)
    ensures Run(cfg, m, [call] + rest) != RunKeep(cfg, k, [call] + rest)
  {
    hide Check, CheckKeep;
    var calls := [call] + rest;
    assert calls[1..] == rest;
    assert Run(cfg, m, calls)[1..] == Run(cfg, Check(cfg, m, call).0, rest);
    assert RunKeep(cfg, k, calls)[1..] == RunKeep(cfg, CheckKeep(cfg, k, call).0, rest);
  }

  lemma FirstCall<C(!new)>(cfg: Config, c: C)
    requires cfg.capacity > 0 && cfg.refillPeriod > 0
    ensures Check(cfg, map[], At(c, 0)).0 == map[c := Bucket(cfg.capacity - 1, 0)]
    ensures CheckKeep(cfg, map[], At(c, 0)).0 == map[c := Bucket(cfg.capacity - 1, 0)]
  {
    var none: Buckets<C> := map[];
    assert Reap(cfg, none, 0) == none;
  }

  lemma LateCall<C(!new)>(cfg: Config, c: C)
    requires 1 < cfg.refillPeriod <= cfg.idleTtl + 1 && cfg.capacity > 0
    ensures var t, n := cfg.idleTtl + 1, cfg.capacity - 1;
            && Check(cfg, map[c := Bucket(n, 0)], Call(c, Clock(t, t, t + 1))).0 == map[c := Bucket(n, t)]
            && CheckKeep(cfg, map[c := Bucket(n, 0)], Call(c, Clock(t, t, t + 1))).0 == map[c := Bucket(n, t + 1)]
  {
    assert Reap(cfg, map[c := Bucket(cfg.capacity - 1, 0)], cfg.idleTtl + 1) == map[];
  }

  /** A first call at time 0 makes the bucket; `capacity - 1` more drain it; one just past the
      time-to-live finds it reaped although it is not yet due for a refill. */
  function ShortTtlRun<C>(cfg: Config, c: C): (r: seq<Call<C>>)
    requires cfg.capacity > 0
  {
    [At(c, 0)] + Drain(c, cfg.capacity - 1, 0, cfg.idleTtl + 1)
  }

  lemma DrainDiffers<C(!new)>(cfg: Config, c: C)
    requires cfg.idleTtl + 1 < cfg.refillPeriod && cfg.capacity > 0
    ensures Run(cfg, map[], ShortTtlRun(cfg, c)) != RunKeep(cfg, map[], ShortTtlRun(cfg, c))
    ensures Monotone(ShortTtlRun(cfg, c)) && OneReading(ShortTtlRun(cfg, c))
  {
    hide Check, CheckKeep, Run, RunKeep;
    FirstCall(cfg, c);
    DrainApart(cfg, c, cfg.capacity - 1, 0, 0, 0, cfg.idleTtl + 1);
    InFront(cfg, map[], map[], At(c, 0), Drain(c, cfg.capacity - 1, 0, cfg.idleTtl + 1));
  }

  ghost predicate NoneBefore<C>(calls: seq<Call<C>>, t: Time) {
    forall i :: 0 <= i < |calls| ==> calls[i].clock.reap >= t
  }

  lemma DrainMonotone<C(!new)>(c: C, n: nat, u: Time, v: Time)
    requires u <= v
    ensures Monotone(Drain(c, n, u, v)) && NoneBefore(Drain(c, n, u, v), u)
  {
  }

  lemma MonotoneInFront<C(!new)>(call: Call<C>, rest: seq<Call<C>>)
    requires call.clock.Valid() && Monotone(rest) && NoneBefore(rest, call.clock.refill)
    ensures Monotone([call] + rest) && NoneBefore([call] + rest, call.clock.reap)
  {
    var calls := [call] + rest;
    forall i, j | 0 <= i < j < |calls| ensures calls[i].clock.refill <= calls[j].clock.reap {
      assert calls[j] == rest[j - 1];
      if i > 0 { assert calls[i] == rest[i - 1]; }
    }
  }

  /** With a longer time-to-live: a bucket reaped by a call that reads the clock again one tick
      later is dated that tick earlier than one that was kept and refilled. */
  function TickRun<C>(cfg: Config, c: C): (r: seq<Call<C>>)
    requires cfg.capacity > 0
  {
    var t := cfg.idleTtl + 1;
    [At(c, 0)] + ([Call(c, Clock(t, t, t + 1))] + Drain(c, cfg.capacity - 1, t + 1, t + cfg.refillPeriod))
  }

  lemma StillLater<C(!new)>(calls: seq<Call<C>>, t: Time, earlier: Time)
    requires NoneBefore(calls, t) && earlier <= t
    ensures NoneBefore(calls, earlier)
  {
  }

  lemma TickMonotone<C(!new)>(cfg: Config, c: C)
    requires cfg.refillPeriod > 0 && cfg.capacity > 0
    ensures Monotone(TickRun(cfg, c))
  {
    hide Monotone, NoneBefore, Drain;
    var t, n := cfg.idleTtl + 1, cfg.capacity - 1;
    var late, drain := Call(c, Clock(t, t, t + 1)), Drain(c, n, t + 1, t + cfg.refillPeriod);
    DrainMonotone(c, n, t + 1, t + cfg.refillPeriod);
    MonotoneInFront(late, drain);
    StillLater([late] + drain, t, 0);
    MonotoneInFront(At(c, 0), [late] + drain);
  }

  /** The part of that run after its first call. */
  lemma TickDrain<C(!new)>(cfg: Config, c: C, late: Call<C>, drain: seq<Call<C>>)
    requires 1 < cfg.refillPeriod <= cfg.idleTtl + 1 && cfg.capacity > 0
    requires late == Call(c, Clock(cfg.idleTtl + 1, cfg.idleTtl + 1, cfg.idleTtl + 2))
    requires drain == Drain(c, cfg.capacity - 1, cfg.idleTtl + 2, cfg.idleTtl + 1 + cfg.refillPeriod)
    ensures var first := map[c := Bucket(cfg.capacity - 1, 0)];
            Run(cfg, first, [late] + drain) != RunKeep(cfg, first, [late] + drain)
  {
    hide Check, CheckKeep, Run, RunKeep, Drain;
    var t, first := cfg.idleTtl + 1, map[c := Bucket(cfg.capacity - 1, 0)];
    LateCall(cfg, c);
    DrainApart(cfg, c, cfg.capacity - 1, t, t + 1, t + 1, t + cfg.refillPeriod);
    InFront(cfg, first, first, late, drain);
  }

  lemma TickDiffers<C(!new)>(cfg: Config, c: C)
    requires 1 < cfg.refillPeriod <= cfg.idleTtl + 1 && cfg.capacity > 0
    ensures Run(cfg, map[], TickRun(cfg, c)) != RunKeep(cfg, map[], TickRun(cfg, c))
  {
    hide Check, CheckKeep, Run, RunKeep, Drain;
    var t := cfg.idleTtl + 1;
    var late, drain := Call(c, Clock(t, t, t + 1)), Drain(c, cfg.capacity - 1, t + 1, t + cfg.refillPeriod);
    FirstCall(cfg, c);
    TickDrain(cfg, c, late, drain);
    InFront(cfg, map[], map[], At(c, 0), [late] + drain);
  }

  // ---------------------------------------------------------------- exactly when it does not show

  /** With one reading per call it decides like the unchanged limiter without the reaping line, in
      every run, if and only if the time-to-live is at least the refill period less one tick, or
      the capacity is 0. */
  lemma ReapingInvisible<C(!new)>(cfg: Config, c: C)
    ensures (forall calls: seq<Call<C>> :: Monotone(calls) && OneReading(calls) ==>
               Run(cfg, map[], calls) == RunKeep(cfg, map[], calls))
       <==> cfg.refillPeriod <= cfg.idleTtl + 1 || cfg.capacity == 0
  {
    if cfg.refillPeriod <= cfg.idleTtl + 1 {
      forall calls: seq<Call<C>> | Monotone(calls) && OneReading(calls)
        ensures Run(cfg, map[], calls) == RunKeep(cfg, map[], calls)
      {
        OneReadingShortens(cfg, calls);
      }
    } else if cfg.capacity == 0 {
      forall calls: seq<Call<C>> ensures Run(cfg, map[], calls) == RunKeep(cfg, map[], calls) {
        NothingAccepted(cfg, map[], map[], calls);
      }
    } else {
      DrainDiffers(cfg, c);
    }
  }

  /** With the readings the code takes, it does so if and only if the refill period is at most one
      tick of the clock or the capacity is 0. */
  lemma ReapingInvisibleAnyReadings<C(!new)>(cfg: Config, c: C)
    ensures (forall calls: seq<Call<C>> :: Monotone(calls) ==> Run(cfg, map[], calls) == RunKeep(cfg, map[], calls))
       <==> cfg.refillPeriod <= 1 || cfg.capacity == 0
  {
    if cfg.capacity == 0 {
      forall calls: seq<Call<C>> ensures Run(cfg, map[], calls) == RunKeep(cfg, map[], calls) {
        NothingAccepted(cfg, map[], map[], calls);
      }
    } else if cfg.refillPeriod <= 1 {
      forall calls: seq<Call<C>> | Monotone(calls) ensures Run(cfg, map[], calls) == RunKeep(cfg, map[], calls) {
        TickPeriodLags(cfg, map[], map[], calls, 0);
      }
    } else if cfg.refillPeriod <= cfg.idleTtl + 1 {
      TickDiffers(cfg, c);
      TickMonotone(cfg, c);
    } else {
      DrainDiffers(cfg, c);
    }
  }

  lemma {:induction false} TickPeriodLags<C(!new)>(cfg: Config, m: Buckets<C>, k: Buckets<C>, calls: seq<Call<C>>,
                                                   t: Time)
    requires cfg.refillPeriod <= 1 && Monotone(calls) && Lags(cfg, m, k, t)
    requires calls != [] ==> t <= calls[0].clock.reap
    ensures Run(cfg, m, calls) == RunKeep(cfg, k, calls)
    decreases |calls|
  {
    if calls != [] {
      TickPeriodCheck(cfg, m, k, calls[0], t);
      hide Check, CheckKeep, Lags;
      TickPeriodLags(cfg, Check(cfg, m, calls[0]).0, CheckKeep(cfg, k, calls[0]).0, calls[1..], calls[0].clock.refill);
    }
  }

  lemma TickPeriodCheck<C(!new)>(cfg: Config, m: Buckets<C>, k: Buckets<C>, call: Call<C>, t: Time)
    requires cfg.refillPeriod <= 1 && call.clock.Valid() && t <= call.clock.reap && Lags(cfg, m, k, t)
    ensures Check(cfg, m, call).1 == CheckKeep(cfg, k, call).1
    ensures Lags(cfg, Check(cfg, m, call).0, CheckKeep(cfg, k, call).0, call.clock.refill)
  {
  }

  lemma {:induction false} NothingAccepted<C(!new)>(cfg: Config, m: Buckets<C>, k: Buckets<C>, calls: seq<Call<C>>)
    requires cfg.capacity == 0
    requires forall c :: c in m ==> m[c].tokens == 0
    requires forall c :: c in k ==> k[c].tokens == 0
    ensures Run(cfg, m, calls) == RunKeep(cfg, k, calls)
    decreases |calls|
  {
    if calls != [] {
      NothingAccepted(cfg, Check(cfg, m, calls[0]).0, CheckKeep(cfg, k, calls[0]).0, calls[1..]);
    }
  }

  // ---------------------------------------------------------------- rate bound

  /** Accepted calls whose reading lies in [from, until]. */
  function Accepted<C>(calls: seq<Call<C>>, decisions: seq<bool>, from: Time, until: Time): (r: nat)
    requires |calls| == |decisions|
    decreases |calls|
  {
    if calls == [] then 0 else
    (if decisions[0] && from <= calls[0].clock.refill <= until then 1 else 0)
    + Accepted(calls[1..], decisions[1..], from, until)
  }

  lemma ProductMonotone(c: nat, a: nat, b: nat)
    requires a <= b
    ensures c * a <= c * b
  {
  }

  lemma DivMonotone(a: nat, b: nat, p: nat)
    requires p > 0 && a <= b
    ensures a / p <= b / p
  {
    var d := b / p - a / p;
    assert a == (a / p) * p + a % p && b == (b / p) * p + b % p;
    assert d * p == b - a - b % p + a % p;
    ProductSign(d, p);
  }

  lemma DivNext(a: nat, p: nat)
    requires p > 0
    ensures (a + p) / p == a / p + 1
  {
    var d := (a + p) / p - (a / p + 1);
    assert a == (a / p) * p + a % p && a + p == ((a + p) / p) * p + (a + p) % p;
    assert d * p == a % p - (a + p) % p;
    ProductSign(d, p);
  }

  /** How often a bucket can be renewed in [start, until]. */
  function Renewals(p: nat, start: Time, until: Time): (r: nat)
    requires p > 0
  {
    if start <= until then 1 + (until - start) / p else 0
  }

  /** A renewal leaves one fewer. */
  lemma RenewalSpent(p: nat, start: Time, until: Time)
    requires p > 0 && start <= until
    ensures Renewals(p, start + p, until) + 1 == Renewals(p, start, until)
  {
    if start + p <= until { DivNext(until - start - p, p); } else { SmallDiv(until - start, p); }
  }

  lemma SmallDiv(a: nat, p: nat)
    requires a < p
    ensures a / p == 0
  {
  }

  lemma RenewalsLater(p: nat, start: Time, later: Time, until: Time)
    requires p > 0 && start <= later
    ensures Renewals(p, later, until) <= Renewals(p, start, until)
  {
    if later <= until { DivMonotone(until - later, until - start, p); }
  }

  /** The next renewal comes no earlier than a period after the last, and not before t. */
  function NextRenewal(cfg: Config, b: Bucket, t: Time): (r: Time) {
    if b.lastRefill + cfg.refillPeriod >= t then b.lastRefill + cfg.refillPeriod else t
  }

  /** What a bucket can still grant from t up to `until`. */
  function Budget(cfg: Config, b: Bucket, t: Time, until: Time): (r: nat)
    requires cfg.refillPeriod > 0
  {
    b.tokens + cfg.capacity * Renewals(cfg.refillPeriod, NextRenewal(cfg, b, t), until)
  }

  /** Serving a call that decides at `now` and ends at `end` spends from the budget at least what
      it accepts. */
  lemma ConsumeBudget(cfg: Config, b: Bucket, t: Time, now: Time, end: Time, until: Time)
    requires cfg.refillPeriod > 0 && t <= now <= end <= until && b.lastRefill <= now && b.tokens <= cfg.capacity
    ensures var (b', ok) := Consume(cfg.capacity, cfg.refillPeriod, b, now);
            Budget(cfg, b', end, until) + (if ok then 1 else 0) <= Budget(cfg, b, t, until)
  {
    var p := cfg.refillPeriod;
    var b' := Consume(cfg.capacity, p, b, now).0;
    var before, after := NextRenewal(cfg, b, t), NextRenewal(cfg, b', end);
    if now - b.lastRefill >= p {
      RenewalsLater(p, before, now, until);
      RenewalSpent(p, now, until);
      RenewalsLater(p, now + p, after, until);
      ProductMonotone(cfg.capacity, Renewals(p, after, until) + 1, Renewals(p, before, until));
    } else {
      RenewalsLater(p, before, after, until);
      ProductMonotone(cfg.capacity, Renewals(p, after, until), Renewals(p, before, until));
    }
  }

  /** The most a window of length `len` can see accepted. */
  function WindowMax(cfg: Config, len: nat): (r: nat)
    requires cfg.refillPeriod > 0
  {
    cfg.capacity * (len / cfg.refillPeriod + 2)
  }

  /** What the first call inside a window accepts and leaves. */
  lemma WindowBudget(cfg: Config, b: Bucket, now: Time, end: Time, from: Time, until: Time)
    requires cfg.refillPeriod > 0 && b.lastRefill <= now <= end && from <= end <= until && b.tokens <= cfg.capacity
    ensures var (b', ok) := Consume(cfg.capacity, cfg.refillPeriod, b, now);
            Budget(cfg, b', end, until) + (if ok then 1 else 0) <= WindowMax(cfg, until - from)
  {
    var p := cfg.refillPeriod;
    var b' := Consume(cfg.capacity, p, b, now).0;
    RenewalsLater(p, end, NextRenewal(cfg, b', end), until);
    RenewalsLater(p, from, end, until);
    ProductMonotone(cfg.capacity, Renewals(p, NextRenewal(cfg, b', end), until) + 1, (until - from) / p + 2);
  }

  /** Calls of `c`, each beside the reading that decides it: not before the call before it ended,
      and not after it ended. */
  ghost predicate Paired<C(!new)>(c: C, calls: seq<Call<C>>, once: seq<Call<C>>, t: Time)
    decreases |calls|
  {
    && |calls| == |once|
    && (calls == [] ||
        var now, end := once[0].clock.refill, calls[0].clock.refill;
        && once[0] == At(c, now) && t <= now <= end
        && Paired(c, calls[1..], once[1..], end))
  }

  lemma {:induction false} AcceptedWithinBudget<C(!new)>(cfg: Config, c: C, m: Buckets<C>, calls: seq<Call<C>>,
                                                         once: seq<Call<C>>, from: Time, until: Time, t: Time)
    requires cfg.refillPeriod > 0 && Paired(c, calls, once, t)
    requires c in m && m[c].lastRefill <= t && m[c].tokens <= cfg.capacity
    ensures Accepted(calls, RunKeep(cfg, m, once), from, until) <= Budget(cfg, m[c], t, until)
    decreases |calls|
  {
    hide Budget;
    if calls != [] {
      var now, end := once[0].clock.refill, calls[0].clock.refill;
      var (m', ok) := CheckKeep(cfg, m, once[0]);
      assert RunKeep(cfg, m, once)[1..] == RunKeep(cfg, m', once[1..]);
      if end <= until {
        ConsumeBudget(cfg, m[c], t, now, end, until);
        AcceptedWithinBudget(cfg, c, m', calls[1..], once[1..], from, until, end);
      } else {
        NoneLate(cfg, c, m', calls[1..], once[1..], from, until, end);
      }
    }
  }

  lemma {:induction false} NoneLate<C(!new)>(cfg: Config, c: C, m: Buckets<C>, calls: seq<Call<C>>, once: seq<Call<C>>,
                                             from: Time, until: Time, t: Time)
    requires until < t && Paired(c, calls, once, t)
    ensures Accepted(calls, RunKeep(cfg, m, once), from, until) == 0
    decreases |calls|
  {
    if calls != [] {
      var m' := CheckKeep(cfg, m, once[0]).0;
      assert RunKeep(cfg, m, once)[1..] == RunKeep(cfg, m', once[1..]);
      NoneLate(cfg, c, m', calls[1..], once[1..], from, until, calls[0].clock.refill);
    }
  }

  lemma {:induction false} WindowBound<C(!new)>(cfg: Config, c: C, m: Buckets<C>, calls: seq<Call<C>>,
                                                once: seq<Call<C>>, from: Time, until: Time, t: Time)
    requires cfg.refillPeriod > 0 && from <= until && Paired(c, calls, once, t)
    requires c in m ==> m[c].lastRefill <= t && m[c].tokens <= cfg.capacity
    ensures Accepted(calls, RunKeep(cfg, m, once), from, until) <= WindowMax(cfg, until - from)
    decreases |calls|
  {
    hide Budget, WindowMax;
    if calls != [] {
      var now, end := once[0].clock.refill, calls[0].clock.refill;
      var b := if c in m then m[c] else Bucket(cfg.capacity, now);
      var (m', ok) := CheckKeep(cfg, m, once[0]);
      assert m'[c] == Consume(cfg.capacity, cfg.refillPeriod, b, now).0;
      assert RunKeep(cfg, m, once)[1..] == RunKeep(cfg, m', once[1..]);
      if end < from {
        WindowBound(cfg, c, m', calls[1..], once[1..], from, until, end);
      } else if end <= until {
        WindowBudget(cfg, b, now, end, from, until);
        AcceptedWithinBudget(cfg, c, m', calls[1..], once[1..], from, until, end);
      } else {
        NoneLate(cfg, c, m', calls[1..], once[1..], from, until, end);
      }
    } else {
      SomeWindow(cfg, until - from);
    }
  }

  lemma SomeWindow(cfg: Config, len: nat)
    requires cfg.refillPeriod > 0
    ensures WindowMax(cfg, len) >= 0
  {
  }

  /** Only calls of `c`, none before `t`. */
  ghost predicate Alone<C>(c: C, calls: seq<Call<C>>, t: Time) {
    && Monotone(calls)
    && forall i :: 0 <= i < |calls| ==> calls[i].caller == c && calls[i].clock.reap >= t
  }

  lemma {:induction false} OwnAlone<C(!new)>(c: C, calls: seq<Call<C>>, t: Time)
    requires Monotone(calls)
    requires forall i :: 0 <= i < |calls| ==> calls[i].clock.reap >= t
    ensures Alone(c, Own(c, calls), t)
    decreases |calls|
  {
    if calls != [] {
      OwnAlone(c, calls[1..], calls[0].clock.refill);
      OwnAlone(c, calls[1..], t);
    }
  }

  lemma {:induction false} OncePaired<C(!new)>(cfg: Config, c: C, m: Buckets<C>, calls: seq<Call<C>>, t: Time)
    requires Alone(c, calls, t)
    ensures Paired(c, calls, Once(cfg, m, calls), t)
    decreases |calls|
  {
    hide Check;
    if calls != [] {
      var m' := Check(cfg, m, calls[0]).0;
      OncePaired(cfg, c, m', calls[1..], calls[0].clock.refill);
      assert Once(cfg, m, calls)[1..] == Once(cfg, m', calls[1..]);
    }
  }

  /** In every run and every window [from, until], one caller has at most
      capacity * (floor(length / period) + 2) accepted calls, where the period is the refill
      period, or idle_ttl + 1 if that is shorter. A call belongs to the window by its last
      reading. */
  lemma RateBound<C(!new)>(cfg: Config, c: C, calls: seq<Call<C>>, from: Time, until: Time)
    requires 0 < cfg.refillPeriod && from <= until
    requires Monotone(calls)
    ensures var own := Own(c, calls);
            var decisions := OwnDecisions(c, calls, Run(cfg, map[], calls));
            |own| == |decisions| &&
            Accepted(own, decisions, from, until)
              <= cfg.capacity * ((until - from) / Effective(cfg).refillPeriod + 2)
  {
    var own := Own(c, calls);
    Isolation(cfg, c, calls);
    OwnAlone(c, calls, 0);
    ReapingShortensPeriod(cfg, own);
    OncePaired(cfg, c, map[], own, 0);
    WindowBound(Effective(cfg), c, map[], own, Once(cfg, map[], own), from, until, 0);
  }
}
