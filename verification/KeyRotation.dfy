/** The versioned master-key manager of gm-sm9-rs (gm-sm9-rs/src/key_rotation.rs).

    The signing half and the encryption half of the manager are the same code over different
    fields; `KeyRing` models one half. Instants are whole ticks of an arbitrary unit. */
module KeyRotation {
  import opened Bytes

  type Time = nat

  datatype Entry<K> = Entry(key: K, createdAt: Time, expiresAt: Option<Time>, active: bool)

  /** RotationRecord; its `grace_expired` field is always false. */
  datatype Record = Record(fromVersion: nat, toVersion: nat, rotatedAt: Time, grace: nat)

  datatype Ring<K> = Ring(keys: map<nat, Entry<K>>, current: nat, maxRetained: nat, rotations: seq<Record>)

  // ---------------------------------------------------------------- the operations on values

  function Empty<K>(maxRetained: nat): (r: Ring<K>) { Ring(map[], 0, maxRetained, []) }

  function Register<K>(s: Ring<K>, key: K, now: Time): (r: Result<Ring<K>>) {
    if s.keys != map[] then Err else
    Ok(s.(current := 1, keys := map[1 := Entry(key, now, None, true)]))
  }

  /** The filter of prune_expired_*_keys, true of the entries to remove. The retention limit is
      cast from usize to u32 and subtracted with saturation at zero. */
  predicate Prunable<K>(ver: nat, e: Entry<K>, current: nat, maxRetained: nat, now: Time) {
    && ver != current
    && !e.active
    && (e.expiresAt.None? || now >= e.expiresAt.value)
    && ver + maxRetained % 0x1_0000_0000 < current
  }

  function Prune<K>(s: Ring<K>, now: Time): (r: Ring<K>) {
    s.(keys := map v | v in s.keys && !Prunable(v, s.keys[v], s.current, s.maxRetained, now) :: s.keys[v])
  }

  /** The next version number: 32 bits, wrapping as in a release build. */
  function Next(v: nat): (r: nat) { if v == 0xFFFF_FFFF then 0 else v + 1 }

  /** rotate_*_key up to its call of prune. */
  function Supersede<K>(s: Ring<K>, key: K, grace: nat, now: Time): (r: Ring<K>) {
    var aged := if s.current in s.keys
                then s.keys[s.current := s.keys[s.current].(active := false, expiresAt := Some(now + grace))]
                else s.keys;
    s.(keys := aged[Next(s.current) := Entry(key, now, None, true)],
       current := Next(s.current),
       rotations := s.rotations + [Record(s.current, Next(s.current), now, grace)])
  }

  function Rotate<K>(s: Ring<K>, key: K, grace: nat, now: Time, pruneNow: Time): (r: Ring<K>) {
    Prune(Supersede(s, key, grace, now), pruneNow)
  }

  predicate IsValid<K>(s: Ring<K>, ver: nat, now: Time) {
    ver in s.keys && (s.keys[ver].active || (s.keys[ver].expiresAt.Some? && now < s.keys[ver].expiresAt.value))
  }

  // ---------------------------------------------------------------- the manager object

  class KeyRing<K(==)> {
    var keys: map<nat, Entry<K>>
    var currentVersion: nat
    var maxRetained: nat
    var rotations: seq<Record>

    ghost function Value(): Ring<K>
      reads this
    {
      Ring(keys, currentVersion, maxRetained, rotations)
    }

    constructor (maxRetained: nat)
      ensures Value() == Empty(maxRetained)
    {
      keys, currentVersion, this.maxRetained, rotations := map[], 0, maxRetained, [];
    }

    method RegisterKey(key: K, now: Time) returns (r: Result<nat>)
      modifies this
      ensures match Register(old(Value()), key, now)
              case Ok(s) => Value() == s && r == Ok(1)
              case Err => Value() == old(Value()) && r == Err
    {
      if keys != map[] {
        return Err;
      }
      var version := 1;
      currentVersion := version;
      keys := keys[version := Entry(key, now, None, true)];
      r := Ok(version);
    }

    method RotateKey(key: K, grace: nat, now: Time, pruneNow: Time) returns (record: Record)
      modifies this
      ensures Value() == Rotate(old(Value()), key, grace, now, pruneNow)
      ensures rotations == old(rotations) + [record]
    {
      var oldVersion := currentVersion;
      var newVersion := if oldVersion == 0xFFFF_FFFF then 0 else oldVersion + 1;
      if oldVersion in keys {
        keys := keys[oldVersion := keys[oldVersion].(active := false, expiresAt := Some(now + grace))];
      }
      keys := keys[newVersion := Entry(key, now, None, true)];
      currentVersion := newVersion;
      record := Record(oldVersion, newVersion, now, grace);
      rotations := rotations + [record];
      PruneExpired(pruneNow);
    }

    /** Collects the versions to remove, then removes them one by one. */
    method PruneExpired(now: Time)
      modifies this`keys
      ensures Value() == Prune(old(Value()), now)
    {
      var toRemove := set v | v in keys && Prunable(v, keys[v], currentVersion, maxRetained, now);
      while toRemove != {}
        invariant toRemove <= old(keys).Keys
        invariant forall v :: v in toRemove ==> Prunable(v, old(keys)[v], currentVersion, maxRetained, now)
        invariant keys == map v | v in old(keys)
                    && (!Prunable(v, old(keys)[v], currentVersion, maxRetained, now) || v in toRemove) :: old(keys)[v]
        decreases |toRemove|
      {
        var v :| v in toRemove;
        toRemove := toRemove - {v};
        keys := keys - {v};
      }
    }

    /** is_*_key_valid. */
    method IsKeyValid(ver: nat, now: Time) returns (valid: bool)
      ensures valid == IsValid(Value(), ver, now)
    {
      if ver !in keys {
        return false;
      }
      var e := keys[ver];
      if e.active {
        return true;
      }
      match e.expiresAt
      case Some(exp) => valid := now < exp;
      case None => valid := false;
    }
  }

  // ---------------------------------------------------------------- runs

  datatype Op<K> =
    | DoRegister(key: K, now: Time)
    | DoRotate(key: K, grace: nat, now: Time, pruneNow: Time)
  {
    function Start(): Time { now }
    function Finish(): Time { if DoRotate? then pruneNow else now }
  }

  function Apply<K>(s: Ring<K>, op: Op<K>): (r: Ring<K>) {
    match op
    case DoRegister(key, now) => var r := Register(s, key, now); if r.Ok? then r.value else s
    case DoRotate(key, grace, now, pruneNow) => Rotate(s, key, grace, now, pruneNow)
  }

  /** The ring after a run; the last operation is the last element. */
  function After<K>(maxRetained: nat, ops: seq<Op<K>>): (r: Ring<K>) {
    if ops == [] then Empty(maxRetained) else Apply(After(maxRetained, ops[..|ops| - 1]), ops[|ops| - 1])
  }

  /** The clock never runs backwards. */
  ghost predicate Monotone<K>(ops: seq<Op<K>>) {
    && (forall i :: 0 <= i < |ops| ==> ops[i].Start() <= ops[i].Finish())
    && forall i, j :: 0 <= i < j < |ops| ==> ops[i].Finish() <= ops[j].Start()
  }

  // ---------------------------------------------------------------- the declarative history

  /** Everything that ever happened to a version: who created it, when it was superseded. */
  datatype Life<K> = Life(key: K, createdAt: Time, expiresAt: Option<Time>)

  /** All versions ever made, never pruned: element i is version i + 1. */
  function Lives<K>(ops: seq<Op<K>>): (r: seq<Life<K>>) {
    if ops == [] then [] else
    var past := Lives(ops[..|ops| - 1]);
    match ops[|ops| - 1]
    case DoRegister(key, now) => if past == [] then [Life(key, now, None)] else past
    case DoRotate(key, grace, now, _) =>
      var aged := if past == [] then past
                  else past[|past| - 1 := past[|past| - 1].(expiresAt := Some(now + grace))];
      aged + [Life(key, now, None)]
  }

  /** The reading of the last pruning, if any rotation happened. */
  function LastPrune<K>(ops: seq<Op<K>>): (r: Option<Time>) {
    if ops == [] then None else
    match ops[|ops| - 1]
    case DoRotate(_, _, _, pruneNow) => Some(pruneNow)
    case DoRegister(_, _) => LastPrune(ops[..|ops| - 1])
  }

  /** The entry version i + 1 has while it is retained. */
  function EntryOf<K>(lives: seq<Life<K>>, i: nat): (e: Entry<K>)
    requires i < |lives|
  {
    Entry(lives[i].key, lives[i].createdAt, lives[i].expiresAt, i + 1 == |lives|)
  }

  /** The pruning filter evaluated once, over the whole history, at the last pruning. */
  predicate Retained<K>(lives: seq<Life<K>>, lastPrune: Option<Time>, maxRetained: nat, ver: nat) {
    && 1 <= ver <= |lives|
    && (lastPrune.Some? ==> !Prunable(ver, EntryOf(lives, ver - 1), |lives|, maxRetained, lastPrune.value))
  }

  /** Superseded versions, and only those, carry an expiry; a ring with no rotation has at most
      one version. */
  ghost predicate LivesOk<K>(lives: seq<Life<K>>, lastPrune: Option<Time>) {
    && (forall i :: 0 <= i < |lives| ==> (lives[i].expiresAt.Some? <==> i + 1 < |lives|))
    && (lastPrune.None? ==> |lives| <= 1)
  }

  /** The whole ring, from the history. */
  ghost predicate ClosedForm<K>(s: Ring<K>, lives: seq<Life<K>>, lastPrune: Option<Time>, maxRetained: nat) {
    && s.current == |lives|
    && s.maxRetained == maxRetained
    && (forall v :: v in s.keys <==> Retained(lives, lastPrune, maxRetained, v))
    && (forall v :: v in s.keys ==> s.keys[v] == EntryOf(lives, v - 1))
  }

  lemma RotateClosed<K>(s: Ring<K>, lives: seq<Life<K>>, last: Option<Time>, max: nat,
                        key: K, grace: nat, now: Time, pruneNow: Time, lives': seq<Life<K>>)
    requires LivesOk(lives, last) && ClosedForm(s, lives, last, max) && |lives| < 0xFFFF_FFFF
    requires last.Some? ==> last.value <= pruneNow
    requires lives' == (if lives == [] then lives
                        else lives[|lives| - 1 := lives[|lives| - 1].(expiresAt := Some(now + grace))])
                       + [Life(key, now, None)]
    ensures LivesOk(lives', Some(pruneNow))
    ensures ClosedForm(Rotate(s, key, grace, now, pruneNow), lives', Some(pruneNow), max)
  {
    var mid := Supersede(s, key, grace, now);
    var s' := Rotate(s, key, grace, now, pruneNow);
    assert forall v :: v in s.keys ==> 1 <= v <= |lives|;
    forall v: nat ensures v in s'.keys <==> Retained(lives', Some(pruneNow), max, v)
             ensures v in s'.keys ==> s'.keys[v] == EntryOf(lives', v - 1)
    {
      if 1 <= v < |lives| {
        assert lives'[v - 1] == lives[v - 1] && EntryOf(lives', v - 1) == EntryOf(lives, v - 1);
      }
      if v in mid.keys { assert mid.keys[v] == EntryOf(lives', v - 1); }
    }
  }

  /** After any run that makes fewer than 2^32 versions, with a clock that never goes back, the
      ring is a function of the history: the retained versions are exactly those the pruning
      filter, evaluated once at the last pruning over all versions ever made, would keep. */
  lemma {:induction false} RunClosedForm<K>(maxRetained: nat, ops: seq<Op<K>>)
    requires Monotone(ops) && |Lives(ops)| < 0x1_0000_0000
    ensures LivesOk(Lives(ops), LastPrune(ops))
    ensures ClosedForm(After(maxRetained, ops), Lives(ops), LastPrune(ops), maxRetained)
    ensures LastPrune(ops).Some? ==> |ops| > 0 && LastPrune(ops).value <= ops[|ops| - 1].Finish()
    decreases |ops|
  {
    if ops != [] {
      var past, op := ops[..|ops| - 1], ops[|ops| - 1];
      RunClosedForm(maxRetained, past);
      var s := After(maxRetained, past);
      if past != [] { assert past[|past| - 1].Finish() <= op.Start(); }
      match op
      case DoRegister(key, now) =>
        if Lives(past) != [] {
          assert |Lives(past)| in s.keys;
        } else {
          assert s.keys == map[];
          assert past == [] || LastPrune(past).None?  by { RotationMakesVersion(past); }
        }
      case DoRotate(key, grace, now, pruneNow) =>
        RotateClosed(s, Lives(past), LastPrune(past), maxRetained, key, grace, now, pruneNow, Lives(ops));
    }
  }

  lemma {:induction false} RotationMakesVersion<K>(ops: seq<Op<K>>)
    ensures LastPrune(ops).Some? ==> Lives(ops) != []
    decreases |ops|
  {
    if ops != [] { RotationMakesVersion(ops[..|ops| - 1]); }
  }

  // ---------------------------------------------------------------- consequences

  /** Validity read off the history: the current version, or a grace period still running. */
  predicate ValidByHistory<K>(lives: seq<Life<K>>, ver: nat, now: Time) {
    && 1 <= ver <= |lives|
    && (ver == |lives| || (lives[ver - 1].expiresAt.Some? && now < lives[ver - 1].expiresAt.value))
  }

  /** A version is valid at `now` exactly when it is the current one or its grace period has not
      ended; pruning never shows. */
  lemma ValidityClosedForm<K>(maxRetained: nat, ops: seq<Op<K>>, ver: nat, now: Time)
    requires Monotone(ops) && |Lives(ops)| < 0x1_0000_0000
    requires ops != [] ==> ops[|ops| - 1].Finish() <= now
    ensures LivesOk(Lives(ops), LastPrune(ops))
    ensures IsValid(After(maxRetained, ops), ver, now) == ValidByHistory(Lives(ops), ver, now)
  {
    RunClosedForm(maxRetained, ops);
  }

  /** Exactly one version is active, the current one, as soon as there is any. */
  lemma OneActive<K>(maxRetained: nat, ops: seq<Op<K>>)
    requires Monotone(ops) && |Lives(ops)| < 0x1_0000_0000
    ensures var s := After(maxRetained, ops);
            && (s.keys == map[] <==> Lives(ops) == [])
            && forall v :: v in s.keys && s.keys[v].active <==> v == s.current && Lives(ops) != []
  {
    RunClosedForm(maxRetained, ops);
    var s, n := After(maxRetained, ops), |Lives(ops)|;
    if n > 0 { assert n in s.keys; }
  }

  /** One more operation keeps every version and its expiry, except that a rotation supersedes
      the current version. */
  lemma LivesStep<K>(ops: seq<Op<K>>, op: Op<K>, ver: nat)
    requires 1 <= ver <= |Lives(ops)|
    ensures var old', new' := Lives(ops), Lives(ops + [op]);
            && |old'| <= |new'| && old'[ver - 1].key == new'[ver - 1].key
            && (ver < |old'| ==> new'[ver - 1] == old'[ver - 1])
  {
    assert (ops + [op])[..|ops|] == ops;
  }

  /** Once a version is no longer valid it never becomes valid again, whatever follows. */
  lemma {:induction false} ValidityNeverReturns<K>(maxRetained: nat, ops: seq<Op<K>>, more: seq<Op<K>>,
                                                   ver: nat, now: Time, later: Time)
    requires Monotone(ops + more) && |Lives(ops + more)| < 0x1_0000_0000 && now <= later
    requires ops != [] ==> ops[|ops| - 1].Finish() <= now
    requires more != [] ==> now <= more[0].Start() && more[|more| - 1].Finish() <= later
    requires 1 <= ver <= |Lives(ops)| && !IsValid(After(maxRetained, ops), ver, now)
    ensures !IsValid(After(maxRetained, ops + more), ver, later)
  {
    assert Monotone(ops) by { assert forall i :: 0 <= i < |ops| ==> ops[i] == (ops + more)[i]; }
    LivesGrow(ops, more);
    ValidityClosedForm(maxRetained, ops, ver, now);
    if more != [] { assert (ops + more)[|ops + more| - 1] == more[|more| - 1]; }
    else { assert ops + more == ops; }
    ValidityClosedForm(maxRetained, ops + more, ver, later);
    LivesKept(ops, more, ver);
  }

  lemma {:induction false} LivesGrow<K>(ops: seq<Op<K>>, more: seq<Op<K>>)
    ensures |Lives(ops)| <= |Lives(ops + more)|
    decreases |more|
  {
    if more == [] {
      assert ops + more == ops;
    } else {
      var m := more[..|more| - 1];
      LivesGrow(ops, m);
      assert (ops + more)[..|ops + more| - 1] == ops + m;
    }
  }

  lemma {:induction false} LivesKept<K>(ops: seq<Op<K>>, more: seq<Op<K>>, ver: nat)
    requires 1 <= ver < |Lives(ops)|
    ensures ver < |Lives(ops + more)| && Lives(ops + more)[ver - 1] == Lives(ops)[ver - 1]
    decreases |more|
  {
    if more == [] {
      assert ops + more == ops;
    } else {
      var m := more[..|more| - 1];
      LivesKept(ops, m, ver);
      assert ops + more == (ops + m) + [more[|more| - 1]];
      LivesStep(ops + m, more[|more| - 1], ver);
    }
  }

  /** A version that was made is gone if and only if a rotation happened, its grace period had ended
      at the reading of the last one, and more than the retention limit of versions came after it. */
  lemma RemovedExactly<K>(maxRetained: nat, ops: seq<Op<K>>, ver: nat)
    requires Monotone(ops) && |Lives(ops)| < 0x1_0000_0000 && 1 <= ver <= |Lives(ops)|
    ensures ver !in After(maxRetained, ops).keys <==>
            && LastPrune(ops).Some? && Lives(ops)[ver - 1].expiresAt.Some?
            && Lives(ops)[ver - 1].expiresAt.value <= LastPrune(ops).value
            && ver + maxRetained % 0x1_0000_0000 < |Lives(ops)|
  {
    RunClosedForm(maxRetained, ops);
  }

  /** Nothing else is ever in the ring, and what is there is as it was made. */
  lemma RetainedAsMade<K>(maxRetained: nat, ops: seq<Op<K>>, ver: nat)
    requires Monotone(ops) && |Lives(ops)| < 0x1_0000_0000 && ver in After(maxRetained, ops).keys
    ensures 1 <= ver <= |Lives(ops)|
    ensures var e, life := After(maxRetained, ops).keys[ver], Lives(ops)[ver - 1];
            && e.key == life.key && e.createdAt == life.createdAt && e.expiresAt == life.expiresAt
            && (e.active <==> ver == |Lives(ops)|)
  {
    RunClosedForm(maxRetained, ops);
  }

  /** A version inside its grace period is never removed: whatever a rotation prunes had
      already expired at the reading it pruned with. */
  lemma GraceKept<K>(maxRetained: nat, ops: seq<Op<K>>, ver: nat)
    requires Monotone(ops) && |Lives(ops)| < 0x1_0000_0000 && 1 <= ver <= |Lives(ops)|
    requires ver !in After(maxRetained, ops).keys
    ensures LastPrune(ops).Some? && ver < |Lives(ops)|
    ensures Lives(ops)[ver - 1].expiresAt.Some? && Lives(ops)[ver - 1].expiresAt.value <= LastPrune(ops).value
    ensures ver + maxRetained % 0x1_0000_0000 < |Lives(ops)|
  {
    RemovedExactly(maxRetained, ops, ver);
  }

  // ---------------------------------------------------------------- the history from the calls

  /** The rotations among the calls, in order. */
  function Rotations<K>(ops: seq<Op<K>>): (r: seq<Op<K>>)
    ensures forall i :: 0 <= i < |r| ==> r[i].DoRotate?
  {
    if ops == [] then []
    else Rotations(ops[..|ops| - 1]) + if ops[|ops| - 1].DoRotate? then [ops[|ops| - 1]] else []
  }

  /** Versions made before the first rotation. */
  function Base<K>(ops: seq<Op<K>>): (b: nat) { if ops != [] && ops[0].DoRegister? then 1 else 0 }

  /** Each rotation makes one version with its key and time, and lets the version before it expire
      after its grace period. */
  ghost predicate MadeBy<K>(lives: seq<Life<K>>, b: nat, rots: seq<Op<K>>) {
    && |lives| == b + |rots|
    && (forall i :: 0 <= i < |rots| ==>
          rots[i].DoRotate? && lives[b + i].key == rots[i].key && lives[b + i].createdAt == rots[i].now)
    && (forall i :: 0 <= i < |rots| && b + i > 0 ==>
          lives[b + i - 1].expiresAt == Some(rots[i].now + rots[i].grace))
  }

  lemma MadeByOne<K>(lives: seq<Life<K>>, b: nat, rots: seq<Op<K>>, op: Op<K>, lives': seq<Life<K>>)
    requires MadeBy(lives, b, rots) && op.DoRotate?
    requires lives' == (if lives == [] then lives
                        else lives[|lives| - 1 := lives[|lives| - 1].(expiresAt := Some(op.now + op.grace))])
                       + [Life(op.key, op.now, None)]
    ensures MadeBy(lives', b, rots + [op])
  {
  }

  /** The versions are those of a first registration, if there is one, and of the rotations. */
  lemma {:induction false} LivesOfCalls<K>(ops: seq<Op<K>>)
    ensures MadeBy(Lives(ops), Base(ops), Rotations(ops))
    decreases |ops|
  {
    hide MadeBy;
    if ops == [] {
      NothingMade<K>();
    } else {
      var past, op := ops[..|ops| - 1], ops[|ops| - 1];
      LivesOfCalls(past);
      if op.DoRotate? {
        MadeByOne(Lives(past), Base(past), Rotations(past), op, Lives(ops));
      } else if past == [] {
        RegisteredFirst(Life(op.key, op.now, None));
      } else {
        FirstOpMakesVersion(past);
        assert Rotations(ops) == Rotations(past);
      }
    }
  }

  lemma NothingMade<K>()
    ensures MadeBy<K>([], 0, [])
  {
  }

  lemma RegisteredFirst<K>(life: Life<K>)
    ensures MadeBy([life], 1, [])
  {
  }

  /** The first version keeps the key and the time of the first call. */
  lemma {:induction false} FirstLife<K>(ops: seq<Op<K>>)
    requires ops != []
    ensures |Lives(ops)| > 0 && Lives(ops)[0].key == ops[0].key && Lives(ops)[0].createdAt == ops[0].now
    decreases |ops|
  {
    if |ops| > 1 { FirstLife(ops[..|ops| - 1]); }
  }

  /** Each rotation is on record with its time and grace period, in order. */
  lemma {:induction false} RecordsOfCalls<K>(maxRetained: nat, ops: seq<Op<K>>)
    ensures var records, rots := After(maxRetained, ops).rotations, Rotations(ops);
            && |records| == |rots|
            && forall i :: 0 <= i < |rots| ==> records[i].rotatedAt == rots[i].now && records[i].grace == rots[i].grace
    decreases |ops|
  {
    if ops != [] { RecordsOfCalls(maxRetained, ops[..|ops| - 1]); }
  }

  /** The audit history is a gap-free chain of versions ending at the current one; it starts at
      version 1 when a key was registered first, and at 0 when the first key was rotated in. */
  lemma {:induction false} HistoryChain<K>(maxRetained: nat, ops: seq<Op<K>>)
    requires Monotone(ops) && |Lives(ops)| < 0x1_0000_0000
    ensures var s := After(maxRetained, ops);
            var base := s.current - |s.rotations|;
            && 0 <= base <= 1
            && (ops != [] ==> base == (if ops[0].DoRegister? then 1 else 0))
            && forall i :: 0 <= i < |s.rotations| ==>
                 s.rotations[i].fromVersion == base + i && s.rotations[i].toVersion == base + i + 1
    decreases |ops|
  {
    if ops != [] {
      var past := ops[..|ops| - 1];
      RunClosedForm(maxRetained, past);
      HistoryChain(maxRetained, past);
      OneActive(maxRetained, past);
      if past != [] { FirstOpMakesVersion(past); }
    }
  }

  lemma {:induction false} FirstOpMakesVersion<K>(ops: seq<Op<K>>)
    requires ops != []
    ensures Lives(ops) != []
    decreases |ops|
  {
    if |ops| > 1 { FirstOpMakesVersion(ops[..|ops| - 1]); }
  }
}
