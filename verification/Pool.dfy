/** The per-host connection pool of gm-http-client (gm-http-client/src/pool.rs).

    A stream is an identifier; `is_alive` is an answer of the outside world, so every call that
    asks it carries the set of streams alive at that moment. */
module Pool {
  import opened Bytes

  type Time = nat
  type Stream = nat
  datatype Entry = Entry(stream: Stream, lastUsed: Time)
  type Entries = seq<Entry>
  type Conns = map<string, Entries>

  const MAX_IDLE_TIME: nat := 300_000_000_000

  // ---------------------------------------------------------------- keys

  function Digit(d: nat): (c: char)
    requires d < 10
  {
    "0123456789"[d]
  }

  function Decimal(n: nat): (s: string)
    ensures |s| > 0 && ':' !in s
  {
    if n < 10 then [Digit(n)] else Decimal(n / 10) + [Digit(n % 10)]
  }

  /** format!("{}:{}", host, port) */
  function Key(host: string, port: nat): (k: string) { host + ":" + Decimal(port) }

  lemma DecimalLength(n: nat)
    ensures |Decimal(n)| > 1 <==> n >= 10
  {
    if n >= 10 { assert |Decimal(n / 10)| > 0; }
  }

  lemma {:induction false} DecimalInjective(m: nat, n: nat)
    requires Decimal(m) == Decimal(n)
    ensures m == n
  {
    var s := Decimal(m);
    assert s[|s| - 1] == Digit(m % 10) == Digit(n % 10);
    DecimalLength(m);
    DecimalLength(n);
    if m >= 10 {
      assert s[..|s| - 1] == Decimal(m / 10) == Decimal(n / 10);
      DecimalInjective(m / 10, n / 10);
    }
  }

  lemma LaterColon(h1: string, d1: string, h2: string, d2: string)
    requires h1 + ":" + d1 == h2 + ":" + d2 && |h1| < |h2|
    ensures ':' in d1
  {
    assert (h1 + ":" + d1)[|h2|] == ':' == d1[|h2| - |h1| - 1];
  }

  /** Distinct hosts or ports never share a list, even when the host contains a colon. */
  lemma KeyInjective(h1: string, p1: nat, h2: string, p2: nat)
    requires Key(h1, p1) == Key(h2, p2)
    ensures h1 == h2 && p1 == p2
  {
    var k, d1, d2 := Key(h1, p1), Decimal(p1), Decimal(p2);
    if |h1| < |h2| {
      LaterColon(h1, d1, h2, d2);
    } else if |h2| < |h1| {
      LaterColon(h2, d2, h1, d1);
    } else {
      assert h1 == k[..|h1|] && d1 == k[|h1| + 1..] && h2 == k[..|h2|] && d2 == k[|h2| + 1..];
      DecimalInjective(p1, p2);
    }
  }

  // ---------------------------------------------------------------- one list

  /** Instant::duration_since, zero for a reading taken before the entry was used. */
  function Idle(e: Entry, now: Time): (d: nat) {
    if now >= e.lastUsed then now - e.lastUsed else 0
  }

  predicate Usable(e: Entry, maxIdle: nat, now: Time, alive: set<Stream>) {
    Idle(e, now) < maxIdle && e.stream in alive
  }

  /** Vec::retain with the cleanup predicate: the usable entries, in order. */
  function Retain(l: Entries, maxIdle: nat, now: Time, alive: set<Stream>): (r: Entries)
    ensures |r| <= |l| && forall e :: e in r ==> e in l
  {
    if l == [] then [] else
    Retain(l[..|l| - 1], maxIdle, now, alive)
    + (if Usable(l[|l| - 1], maxIdle, now, alive) then [l[|l| - 1]] else [])
  }

  /** What the popping loop of get_connection returns and leaves behind. */
  function Pop(l: Entries, maxIdle: nat, now: Time, alive: set<Stream>): (r: (Option<Stream>, Entries))
    ensures r.1 <= l && (r.0.Some? ==> |r.1| < |l| && l[|r.1|].stream == r.0.value)
  {
    if l == [] then (None, [])
    else if Usable(l[|l| - 1], maxIdle, now, alive) then (Some(l[|l| - 1].stream), l[..|l| - 1])
    else Pop(l[..|l| - 1], maxIdle, now, alive)
  }

  /** The newest usable entry, as the last element of the usable entries. */
  function Newest(usable: Entries): (r: Option<Stream>) {
    if usable == [] then None else Some(usable[|usable| - 1].stream)
  }

  function ButNewest(usable: Entries): (r: Entries) {
    if usable == [] then [] else usable[..|usable| - 1]
  }

  /** get yields the newest usable stream and removes only that one from the usable entries; it
      yields nothing exactly when no entry is usable, and then it leaves an empty list. */
  lemma {:induction false} PopIsNewest(l: Entries, maxIdle: nat, now: Time, alive: set<Stream>)
    ensures var (r, rest) := Pop(l, maxIdle, now, alive);
            var usable := Retain(l, maxIdle, now, alive);
            && r == Newest(usable)
            && Retain(rest, maxIdle, now, alive) == ButNewest(usable)
            && rest <= l
            && (r.None? ==> rest == [])
    decreases |l|
  {
    if l != [] && !Usable(l[|l| - 1], maxIdle, now, alive) {
      PopIsNewest(l[..|l| - 1], maxIdle, now, alive);
      assert Retain(l, maxIdle, now, alive) == Retain(l[..|l| - 1], maxIdle, now, alive);
    } else if l != [] {
      var usable := Retain(l, maxIdle, now, alive);
      assert ButNewest(usable) == Retain(l[..|l| - 1], maxIdle, now, alive);
    }
  }

  /** Time passes and dead streams stay dead: the usable entries later are the later-usable ones
      among those usable now. */
  lemma {:induction false} RetainLater(l: Entries, maxIdle: nat, now: Time, alive: set<Stream>,
                                       now': Time, alive': set<Stream>)
    requires now <= now' && alive' <= alive
    ensures Retain(Retain(l, maxIdle, now, alive), maxIdle, now', alive') == Retain(l, maxIdle, now', alive')
    decreases |l|
  {
    if l != [] {
      var init, e := l[..|l| - 1], l[|l| - 1];
      RetainLater(init, maxIdle, now, alive, now', alive');
      var u := Retain(init, maxIdle, now, alive);
      if Usable(e, maxIdle, now, alive) {
        assert (u + [e])[..|u + [e]| - 1] == u;
      } else {
        assert Retain(l, maxIdle, now, alive) == u;
      }
    }
  }

  // ---------------------------------------------------------------- the pool object

  function Get(m: Conns, key: string, maxIdle: nat, now: Time, alive: set<Stream>): (r: (Option<Stream>, Conns)) {
    if key in m then
      var (s, rest) := Pop(m[key], maxIdle, now, alive);
      (s, m[key := rest])
    else (None, m)
  }

  function Return(m: Conns, key: string, maxPerHost: nat, s: Stream, now: Time): (r: Conns) {
    var l := if key in m then m[key] else [];
    m[key := if |l| < maxPerHost then l + [Entry(s, now)] else l]
  }

  function Cleanup(m: Conns, maxIdle: nat, now: Time, alive: set<Stream>): (r: Conns) {
    map k | k in m :: Retain(m[k], maxIdle, now, alive)
  }

  class ConnectionPool {
    var connections: Conns
    const maxPerHost: nat
    const maxIdleTime: nat

    constructor (maxPerHost: nat)
      ensures connections == map[] && this.maxPerHost == maxPerHost && maxIdleTime == MAX_IDLE_TIME
    {
      connections, this.maxPerHost, maxIdleTime := map[], maxPerHost, MAX_IDLE_TIME;
    }

    method GetConnection(host: string, port: nat, now: Time, alive: set<Stream>) returns (r: Option<Stream>)
      modifies this`connections
      ensures (r, connections) == Get(old(connections), Key(host, port), maxIdleTime, now, alive)
    {
      var key := Key(host, port);
      if key in connections {
        var pool := connections[key];
        while pool != []
          invariant Pop(pool, maxIdleTime, now, alive) == Pop(old(connections)[key], maxIdleTime, now, alive)
          decreases |pool|
        {
          var entry := pool[|pool| - 1];
          pool := pool[..|pool| - 1];
          if Usable(entry, maxIdleTime, now, alive) {
            connections := connections[key := pool];
            return Some(entry.stream);
          }
        }
        connections := connections[key := pool];
      }
      r := None;
    }

    method ReturnConnection(host: string, port: nat, stream: Stream, now: Time)
      modifies this`connections
      ensures connections == Return(old(connections), Key(host, port), maxPerHost, stream, now)
    {
      var key := Key(host, port);
      if key !in connections {
        connections := connections[key := []];
      }
      if |connections[key]| < maxPerHost {
        connections := connections[key := connections[key] + [Entry(stream, now)]];
      }
    }

    /** The lists are visited in an arbitrary order. */
    method CleanUp(now: Time, alive: set<Stream>)
      modifies this`connections
      ensures connections == Cleanup(old(connections), maxIdleTime, now, alive)
    {
      var todo := connections.Keys;
      while todo != {}
        invariant todo <= connections.Keys == old(connections).Keys
        invariant forall k :: k in connections ==>
                    connections[k] == if k in todo then old(connections)[k]
                                      else Retain(old(connections)[k], maxIdleTime, now, alive)
        decreases |todo|
      {
        var k :| k in todo;
        connections := connections[k := Retain(connections[k], maxIdleTime, now, alive)];
        todo := todo - {k};
      }
    }
  }

  // ---------------------------------------------------------------- what comes out is what went in

  /** The entry's stream is alive and was used less than maxIdle ago. */
  predicate Fresh(e: Entry, maxIdle: nat, now: Time, alive: set<Stream>) {
    e.stream in alive && maxIdle > 0 && now < e.lastUsed + maxIdle
  }

  lemma LastOrBefore(l: Entries, e: Entry)
    requires l != []
    ensures e in l <==> e in l[..|l| - 1] || e == l[|l| - 1]
  {
    assert l == l[..|l| - 1] + [l[|l| - 1]];
  }

  /** Retaining keeps the fresh entries and no others. */
  lemma {:induction false} RetainExactly(l: Entries, maxIdle: nat, now: Time, alive: set<Stream>, e: Entry)
    ensures e in Retain(l, maxIdle, now, alive) <==> e in l && Fresh(e, maxIdle, now, alive)
    decreases |l|
  {
    if l != [] {
      RetainExactly(l[..|l| - 1], maxIdle, now, alive, e);
      LastOrBefore(l, e);
    }
  }

  /** A cleanup keeps in every list the fresh entries and no others. */
  lemma CleanupExactly(m: Conns, maxIdle: nat, now: Time, alive: set<Stream>, key: string, e: Entry)
    requires key in m
    ensures e in Cleanup(m, maxIdle, now, alive)[key] <==> e in m[key] && Fresh(e, maxIdle, now, alive)
  {
    RetainExactly(m[key], maxIdle, now, alive, e);
  }

  /** What a get yields is the last fresh entry of its list, everything after it being dropped;
      it yields nothing exactly when the list has no fresh entry. Other lists are left alone. */
  lemma GetExactly(m: Conns, key: string, maxIdle: nat, now: Time, alive: set<Stream>)
    ensures var (r, m') := Get(m, key, maxIdle, now, alive);
            && (r.None? <==> key !in m || forall e :: e in m[key] ==> !Fresh(e, maxIdle, now, alive))
            && (r.Some? ==>
                  && key in m && key in m' && |m'[key]| < |m[key]| && m'[key] == m[key][..|m'[key]|]
                  && m[key][|m'[key]|].stream == r.value && Fresh(m[key][|m'[key]|], maxIdle, now, alive)
                  && forall i :: |m'[key]| < i < |m[key]| ==> !Fresh(m[key][i], maxIdle, now, alive))
            && m'.Keys == m.Keys && forall k :: k in m && k != key ==> m'[k] == m[k]
  {
    if key in m { PopExactly(m[key], maxIdle, now, alive); }
  }

  lemma {:induction false} PopExactly(l: Entries, maxIdle: nat, now: Time, alive: set<Stream>)
    ensures var (r, rest) := Pop(l, maxIdle, now, alive);
            && (r.None? <==> forall e :: e in l ==> !Fresh(e, maxIdle, now, alive))
            && (r.Some? ==> Fresh(l[|rest|], maxIdle, now, alive))
            && (r.Some? ==> forall i :: |rest| < i < |l| ==> !Fresh(l[i], maxIdle, now, alive))
    decreases |l|
  {
    if l != [] {
      forall e ensures e in l <==> e in l[..|l| - 1] || e == l[|l| - 1] { LastOrBefore(l, e); }
      if Usable(l[|l| - 1], maxIdle, now, alive) {
        assert l[|l| - 1] in l && Fresh(l[|l| - 1], maxIdle, now, alive);
      } else {
        PopExactly(l[..|l| - 1], maxIdle, now, alive);
      }
    }
  }

  function ListAt(m: Conns, key: string): (l: Entries) { if key in m then m[key] else [] }

  /** A stream returned to a list with room is the next one a get yields, if it is alive and the
      get comes in time, and the list is then as before; a full list stays as it is. Other lists
      are left alone. */
  lemma ReturnThenGet(m: Conns, key: string, maxPerHost: nat, maxIdle: nat, s: Stream, now: Time, later: Time,
                      alive: set<Stream>)
    requires now <= later
    ensures var l, m' := ListAt(m, key), Return(m, key, maxPerHost, s, now);
            && key in m' && (forall k :: k in m && k != key ==> k in m' && m'[k] == m[k])
            && (|l| < maxPerHost && s in alive && later < now + maxIdle ==>
                  Get(m', key, maxIdle, later, alive) == (Some(s), m[key := l]))
            && (|l| >= maxPerHost ==> m' == m[key := l])
  {
    var l, m' := ListAt(m, key), Return(m, key, maxPerHost, s, now);
    if |l| < maxPerHost {
      var e := Entry(s, now);
      assert m'[key] == l + [e] && (l + [e])[..|l|] == l;
      assert m'[key := l] == m[key := l];
    }
  }

  // ---------------------------------------------------------------- runs with stream ownership

  /** `held` are the streams callers own right now; `seen` every stream opened so far. */
  datatype World = World(conns: Conns, held: set<Stream>, seen: set<Stream>, now: Time)

  datatype Op =
    | DoOpen(stream: Stream, now: Time)
    | DoDrop(stream: Stream, now: Time)
    | DoGet(key: string, now: Time, alive: set<Stream>)
    | DoReturn(key: string, now: Time, stream: Stream)
    | DoCleanup(now: Time, alive: set<Stream>)

  /** The clock does not go back, except that a cleanup may come with a reading it took before it
      waited for the lock; new streams are new, and only an owner can give a stream away. */
  ghost predicate Allowed(w: World, op: Op) {
    && (!op.DoCleanup? ==> w.now <= op.now)
    && (op.DoOpen? ==> op.stream !in w.seen)
    && (op.DoDrop? || op.DoReturn? ==> op.stream in w.held)
  }

  function Yield(w: World, op: Op, maxIdle: nat): (r: Option<Stream>) {
    if op.DoGet? then Get(w.conns, op.key, maxIdle, op.now, op.alive).0 else None
  }

  function Step(w: World, op: Op, maxPerHost: nat, maxIdle: nat): (r: World) {
    var w' := w.(now := if op.now >= w.now then op.now else w.now);
    match op
    case DoOpen(s, _) => w'.(held := w.held + {s}, seen := w.seen + {s})
    case DoDrop(s, _) => w'.(held := w.held - {s})
    case DoGet(key, now, alive) =>
      var (r, m) := Get(w.conns, key, maxIdle, now, alive);
      w'.(conns := m, held := if r.Some? then w.held + {r.value} else w.held)
    case DoReturn(key, now, s) =>
      w'.(conns := Return(w.conns, key, maxPerHost, s, now), held := w.held - {s})
    case DoCleanup(now, alive) => w'.(conns := Cleanup(w.conns, maxIdle, now, alive))
  }

  function After(ops: seq<Op>, maxPerHost: nat, maxIdle: nat): (w: World) {
    if ops == [] then World(map[], {}, {}, 0) else
    Step(After(ops[..|ops| - 1], maxPerHost, maxIdle), ops[|ops| - 1], maxPerHost, maxIdle)
  }

  ghost predicate Legal(ops: seq<Op>, maxPerHost: nat, maxIdle: nat) {
    ops != [] ==>
      var past := ops[..|ops| - 1];
      Legal(past, maxPerHost, maxIdle) && Allowed(After(past, maxPerHost, maxIdle), ops[|ops| - 1])
  }

  ghost predicate Pooled(m: Conns, s: Stream) {
    exists k, e :: k in m && e in m[k] && e.stream == s
  }

  /** Ordered by last use, no stream twice. */
  ghost predicate Ordered(l: Entries) {
    l != [] ==>
      var init, last := l[..|l| - 1], l[|l| - 1];
      Ordered(init) && forall e :: e in init ==> e.lastUsed <= last.lastUsed && e.stream != last.stream
  }

  ghost predicate ListOk(l: Entries, maxPerHost: nat, now: Time) {
    |l| <= maxPerHost && Ordered(l) && forall e :: e in l ==> e.lastUsed <= now
  }

  /** Every list is bounded and ordered by last use, and no stream is in two places. */
  ghost predicate Inv(w: World, maxPerHost: nat) {
    && (forall k :: k in w.conns ==> ListOk(w.conns[k], maxPerHost, w.now))
    && (forall k, e :: k in w.conns && e in w.conns[k] ==> e.stream in w.seen && e.stream !in w.held)
    && (forall k, e, k', e' | k in w.conns && k' in w.conns && e in w.conns[k] && e' in w.conns[k'] ::
          e.stream == e'.stream ==> k == k')
    && w.held <= w.seen
  }

  lemma {:induction false} RetainOrdered(l: Entries, maxIdle: nat, now: Time, alive: set<Stream>)
    requires Ordered(l)
    ensures Ordered(Retain(l, maxIdle, now, alive))
    decreases |l|
  {
    if l != [] {
      var init, last := l[..|l| - 1], l[|l| - 1];
      RetainOrdered(init, maxIdle, now, alive);
      var u := Retain(init, maxIdle, now, alive);
      assert (u + [last])[..|u|] == u && u + [] == u;
    }
  }

  lemma {:induction false} PrefixOrdered(l: Entries, n: nat)
    requires Ordered(l) && n <= |l|
    ensures Ordered(l[..n])
    ensures n < |l| ==> forall e :: e in l[..n] ==> e.stream != l[n].stream
    decreases |l|
  {
    if n < |l| {
      var init := l[..|l| - 1];
      assert l[..n] == init[..n];
      PrefixOrdered(init, n);
    } else {
      assert l[..n] == l;
    }
  }

  /** One list is replaced: its entries are new to the pool or came from that same list. */
  lemma ReplaceList(w: World, key: string, l: Entries, held: set<Stream>, now: Time, maxPerHost: nat)
    requires Inv(w, maxPerHost) && w.now <= now && held <= w.seen
    requires ListOk(l, maxPerHost, now)
    requires forall e :: e in l ==> e.stream in w.seen && e.stream !in held
    requires forall e, k, e' | e in l && k in w.conns && e' in w.conns[k] :: e.stream == e'.stream ==> k == key
    requires forall k, e | k in w.conns && e in w.conns[k] :: k != key ==> e.stream !in held
    ensures Inv(World(w.conns[key := l], held, w.seen, now), maxPerHost)
  {
  }

  lemma GetInv(w: World, op: Op, maxPerHost: nat, maxIdle: nat)
    requires Inv(w, maxPerHost) && op.DoGet? && w.now <= op.now
    ensures Inv(Step(w, op, maxPerHost, maxIdle), maxPerHost)
  {
    if op.key in w.conns {
      var l := w.conns[op.key];
      var (r, rest) := Pop(l, maxIdle, op.now, op.alive);
      PrefixOrdered(l, |rest|);
      assert rest == l[..|rest|];
      assert forall e :: e in rest ==> e in l;
      assert r.Some? ==> l[|rest|] in l;
      var held := if r.Some? then w.held + {r.value} else w.held;
      ReplaceList(w, op.key, rest, held, op.now, maxPerHost);
    }
  }

  lemma OrderedAppend(l: Entries, e: Entry)
    requires Ordered(l) && forall x :: x in l ==> x.lastUsed <= e.lastUsed && x.stream != e.stream
    ensures Ordered(l + [e])
  {
    assert (l + [e])[..|l|] == l;
  }

  /** The list a return finds, and that list with the stream at its end. */
  lemma ReturnLists(w: World, key: string, s: Stream, now: Time, l: Entries, maxPerHost: nat)
    requires Inv(w, maxPerHost) && w.now <= now && s in w.held && l == (if key in w.conns then w.conns[key] else [])
    ensures ListOk(l, maxPerHost, now) && forall e :: e in l ==> e.stream in w.seen && e.stream !in w.held
    ensures |l| < maxPerHost ==> ListOk(l + [Entry(s, now)], maxPerHost, now)
  {
    assert Ordered(l);
    OrderedAppend(l, Entry(s, now));
    hide Ordered;
  }

  lemma ReturnInv(w: World, op: Op, maxPerHost: nat, maxIdle: nat)
    requires Inv(w, maxPerHost) && op.DoReturn? && Allowed(w, op)
    ensures Inv(Step(w, op, maxPerHost, maxIdle), maxPerHost)
  {
    hide ListOk;
    var l := if op.key in w.conns then w.conns[op.key] else [];
    ReturnLists(w, op.key, op.stream, op.now, l, maxPerHost);
    var l' := if |l| < maxPerHost then l + [Entry(op.stream, op.now)] else l;
    ReplaceList(w, op.key, l', w.held - {op.stream}, op.now, maxPerHost);
  }

  lemma CleanupInv(w: World, op: Op, maxPerHost: nat, maxIdle: nat)
    requires Inv(w, maxPerHost) && op.DoCleanup?
    ensures Inv(Step(w, op, maxPerHost, maxIdle), maxPerHost)
  {
    forall k | k in w.conns ensures Ordered(Retain(w.conns[k], maxIdle, op.now, op.alive)) {
      RetainOrdered(w.conns[k], maxIdle, op.now, op.alive);
    }
  }

  lemma StepInv(w: World, op: Op, maxPerHost: nat, maxIdle: nat)
    requires Inv(w, maxPerHost) && Allowed(w, op)
    ensures Inv(Step(w, op, maxPerHost, maxIdle), maxPerHost)
  {
    match op
    case DoOpen(_, _) =>
    case DoDrop(_, _) =>
    case DoGet(_, _, _) => GetInv(w, op, maxPerHost, maxIdle);
    case DoReturn(_, _, _) => ReturnInv(w, op, maxPerHost, maxIdle);
    case DoCleanup(_, _) => CleanupInv(w, op, maxPerHost, maxIdle);
  }

  /** In every run each list is within max_per_host and ordered by last use, and every stream is
      in one place. */
  lemma {:induction false} RunInv(ops: seq<Op>, maxPerHost: nat, maxIdle: nat)
    requires Legal(ops, maxPerHost, maxIdle)
    ensures Inv(After(ops, maxPerHost, maxIdle), maxPerHost)
    decreases |ops|
  {
    if ops != [] {
      RunInv(ops[..|ops| - 1], maxPerHost, maxIdle);
      StepInv(After(ops[..|ops| - 1], maxPerHost, maxIdle), ops[|ops| - 1], maxPerHost, maxIdle);
    }
  }

  lemma {:induction false} LegalPrefix(ops: seq<Op>, n: nat, maxPerHost: nat, maxIdle: nat)
    requires Legal(ops, maxPerHost, maxIdle) && n <= |ops|
    ensures Legal(ops[..n], maxPerHost, maxIdle)
    decreases |ops|
  {
    if n < |ops| {
      var past := ops[..|ops| - 1];
      LegalPrefix(past, n, maxPerHost, maxIdle);
      assert past[..n] == ops[..n];
    } else {
      assert ops[..n] == ops;
    }
  }

  /** Only a return puts a stream into the pool. */
  lemma StepStaysOut(w: World, op: Op, s: Stream, maxPerHost: nat, maxIdle: nat)
    requires !Pooled(w.conns, s) && !(op.DoReturn? && op.stream == s)
    ensures !Pooled(Step(w, op, maxPerHost, maxIdle).conns, s)
  {
    var m := Step(w, op, maxPerHost, maxIdle).conns;
    forall k, e: Entry | k in m && e in m[k] ensures e.stream != s {
      if k in w.conns { assert e in w.conns[k] || (op.DoReturn? && e.stream == op.stream); }
    }
  }

  lemma {:induction false} StaysOut(ops: seq<Op>, i: nat, j: nat, s: Stream, maxPerHost: nat, maxIdle: nat)
    requires i <= j <= |ops|
    requires forall k :: i <= k < j ==> !(ops[k].DoReturn? && ops[k].stream == s)
    requires !Pooled(After(ops[..i], maxPerHost, maxIdle).conns, s)
    ensures !Pooled(After(ops[..j], maxPerHost, maxIdle).conns, s)
    decreases j
  {
    if i < j {
      StaysOut(ops, i, j - 1, s, maxPerHost, maxIdle);
      assert ops[..j][..j - 1] == ops[..j - 1];
      StepStaysOut(After(ops[..j - 1], maxPerHost, maxIdle), ops[j - 1], s, maxPerHost, maxIdle);
    }
  }

  lemma YieldMoves(w: World, op: Op, maxPerHost: nat, maxIdle: nat)
    requires Yield(w, op, maxIdle).Some?
    ensures Pooled(w.conns, Yield(w, op, maxIdle).value)
    ensures Yield(w, op, maxIdle).value in Step(w, op, maxPerHost, maxIdle).held
  {
    var l := w.conns[op.key];
    assert l[|Pop(l, maxIdle, op.now, op.alive).1|] in l;
  }

  /** No stream is handed out twice: between two gets that yield the same stream, its owner
      returned it. */
  lemma HandedOutOnce(ops: seq<Op>, i: nat, j: nat, s: Stream, maxPerHost: nat, maxIdle: nat)
    requires Legal(ops, maxPerHost, maxIdle) && i < j < |ops|
    requires Yield(After(ops[..i], maxPerHost, maxIdle), ops[i], maxIdle) == Some(s)
    requires Yield(After(ops[..j], maxPerHost, maxIdle), ops[j], maxIdle) == Some(s)
    ensures exists k :: i < k < j && ops[k].DoReturn? && ops[k].stream == s
  {
    YieldMoves(After(ops[..i], maxPerHost, maxIdle), ops[i], maxPerHost, maxIdle);
    assert ops[..i + 1][..i] == ops[..i];
    LegalPrefix(ops, i + 1, maxPerHost, maxIdle);
    RunInv(ops[..i + 1], maxPerHost, maxIdle);
    assert !Pooled(After(ops[..i + 1], maxPerHost, maxIdle).conns, s);
    YieldMoves(After(ops[..j], maxPerHost, maxIdle), ops[j], maxPerHost, maxIdle);
    if forall k :: i < k < j ==> !(ops[k].DoReturn? && ops[k].stream == s) {
      StaysOut(ops, i + 1, j, s, maxPerHost, maxIdle);
    }
  }

  // ---------------------------------------------------------------- cleanup is invisible to get

  /** Only gets and cleanups, a clock that never goes back but for the readings of cleanups, and
      dead streams that stay dead. */
  ghost predicate Quiet(ops: seq<Op>) {
    ops == [] ||
    (&& (ops[0].DoGet? || ops[0].DoCleanup?)
     && (forall op :: op in ops[1..] && op.DoGet? ==> ops[0].now <= op.now)
     && (forall op :: op in ops[1..] && (op.DoGet? || op.DoCleanup?) ==> op.alive <= ops[0].alive)
     && Quiet(ops[1..]))
  }

  /** What the gets of a run yield. */
  function Yields(m: Conns, ops: seq<Op>, maxIdle: nat): (r: seq<Option<Stream>>)
    requires Quiet(ops)
    decreases |ops|
  {
    if ops == [] then [] else
    match ops[0]
    case DoGet(key, now, alive) =>
      var (s, m') := Get(m, key, maxIdle, now, alive);
      [s] + Yields(m', ops[1..], maxIdle)
    case DoCleanup(now, alive) => Yields(Cleanup(m, maxIdle, now, alive), ops[1..], maxIdle)
  }

  function NoCleanups(ops: seq<Op>): (r: seq<Op>)
    ensures forall op :: op in r ==> op in ops && !op.DoCleanup?
  {
    if ops == [] then [] else (if ops[0].DoCleanup? then [] else [ops[0]]) + NoCleanups(ops[1..])
  }

  /** The two pools hold the same usable entries from (now, alive) on. */
  ghost predicate SameUsable(m: Conns, n: Conns, maxIdle: nat, now: Time, alive: set<Stream>) {
    && m.Keys == n.Keys
    && forall k :: k in m ==> Retain(m[k], maxIdle, now, alive) == Retain(n[k], maxIdle, now, alive)
  }

  lemma SameUsableLater(m: Conns, n: Conns, maxIdle: nat, now: Time, alive: set<Stream>,
                        now': Time, alive': set<Stream>)
    requires SameUsable(m, n, maxIdle, now, alive) && now <= now' && alive' <= alive
    ensures SameUsable(m, n, maxIdle, now', alive')
  {
    forall k | k in m ensures Retain(m[k], maxIdle, now', alive') == Retain(n[k], maxIdle, now', alive') {
      RetainLater(m[k], maxIdle, now, alive, now', alive');
      RetainLater(n[k], maxIdle, now, alive, now', alive');
    }
  }

  lemma {:induction false} QuietWithout(ops: seq<Op>)
    requires Quiet(ops)
    ensures Quiet(NoCleanups(ops))
    decreases |ops|
  {
    if ops != [] {
      QuietWithout(ops[1..]);
      var rest := NoCleanups(ops[1..]);
      if ops[0].DoCleanup? {
        assert NoCleanups(ops) == rest;
      } else {
        assert NoCleanups(ops) == [ops[0]] + rest && ([ops[0]] + rest)[1..] == rest;
      }
    }
  }

  lemma GetSame(m: Conns, n: Conns, maxIdle: nat, key: string, now: Time, alive: set<Stream>)
    requires SameUsable(m, n, maxIdle, now, alive)
    ensures Get(m, key, maxIdle, now, alive).0 == Get(n, key, maxIdle, now, alive).0
    ensures SameUsable(Get(m, key, maxIdle, now, alive).1, Get(n, key, maxIdle, now, alive).1, maxIdle, now, alive)
  {
    if key in m {
      PopIsNewest(m[key], maxIdle, now, alive);
      PopIsNewest(n[key], maxIdle, now, alive);
    }
  }

  /** A cleanup, whenever its reading was taken. */
  lemma CleanupSame(m: Conns, n: Conns, maxIdle: nat, t: Time, now: Time, alive: set<Stream>)
    requires SameUsable(m, n, maxIdle, now, alive) && t <= now
    ensures SameUsable(Cleanup(m, maxIdle, t, alive), n, maxIdle, now, alive)
  {
    forall k | k in m
      ensures Retain(Cleanup(m, maxIdle, t, alive)[k], maxIdle, now, alive) == Retain(m[k], maxIdle, now, alive)
    {
      RetainLater(m[k], maxIdle, t, alive, now, alive);
    }
  }

  /** Every get still to come reads the clock at `now` or later, and finds no more streams alive. */
  ghost predicate From(ops: seq<Op>, now: Time, alive: set<Stream>) {
    && (forall op :: op in ops && op.DoGet? ==> now <= op.now)
    && (forall op :: op in ops && (op.DoGet? || op.DoCleanup?) ==> op.alive <= alive)
  }

  lemma {:induction false} YieldsSame(m: Conns, n: Conns, ops: seq<Op>, maxIdle: nat, now: Time, alive: set<Stream>)
    requires Quiet(ops) && Quiet(NoCleanups(ops))
    requires SameUsable(m, n, maxIdle, now, alive) && From(ops, now, alive)
    ensures Yields(m, ops, maxIdle) == Yields(n, NoCleanups(ops), maxIdle)
    decreases |ops|
  {
    if ops != [] {
      var op, rest := ops[0], ops[1..];
      var latest := if op.now >= now then op.now else now;
      QuietWithout(rest);
      SameUsableLater(m, n, maxIdle, now, alive, latest, op.alive);
      assert From(rest, latest, op.alive);
      match op
      case DoGet(key, t, a) =>
        GetSame(m, n, maxIdle, key, t, a);
        YieldsSame(Get(m, key, maxIdle, t, a).1, Get(n, key, maxIdle, t, a).1, rest, maxIdle, t, a);
        assert NoCleanups(ops) == [op] + NoCleanups(rest);
        assert NoCleanups(ops)[1..] == NoCleanups(rest);
      case DoCleanup(t, a) =>
        CleanupSame(m, n, maxIdle, t, latest, a);
        YieldsSame(Cleanup(m, maxIdle, t, a), n, rest, maxIdle, latest, a);
        assert NoCleanups(ops) == NoCleanups(rest);
    }
  }

  /** Between two returns, deleting every cleanup from a run leaves all gets with the same
      streams, from any pool. */
  lemma CleanupInvisible(m: Conns, ops: seq<Op>, maxIdle: nat)
    requires Quiet(ops)
    ensures Quiet(NoCleanups(ops))
    ensures Yields(m, ops, maxIdle) == Yields(m, NoCleanups(ops), maxIdle)
  {
    QuietWithout(ops);
    if ops != [] { YieldsSame(m, m, ops, maxIdle, 0, ops[0].alive); }
  }
}
