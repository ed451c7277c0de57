/**
 The Redis deploy lock (internal/service/deploy_lock_service.go) as every release
 operation uses it: set-if-absent with a time limit, compare-and-delete with the
 holder's token. Times are seconds on one clock that never goes back.
 */
module DeployLock {
  import opened Common

  /** A stored lock; Redis drops it once `expires` is reached. */
  datatype Entry = Entry(token: nat, expires: int)

  type LockTable = map<string, Entry>

  predicate Live(t: LockTable, key: string, now: int) {
    key in t && now < t[key].expires
  }

  /** SETNX with a time limit, then GET-and-DEL under the script. */
  function Acquired(t: LockTable, key: string, token: nat, now: int, ttl: int): Option<LockTable> {
    if Live(t, key, now) then None else Some(t[key := Entry(token, now + ttl)])
  }

  function Freed(t: LockTable, key: string, token: nat, now: int): LockTable {
    if Live(t, key, now) && t[key].token == token then t - {key} else t
  }

  // ------------------------------------------------------------- lock keys

  function Digits(n: nat): string {
    if n < 10 then [('0' as int + n) as char] else Digits(n / 10) + [('0' as int + n % 10) as char]
  }

  /** A number as %d prints it. */
  function Decimal(n: int): string {
    if n < 0 then "-" + Digits(-n) else Digits(n)
  }

  /** ReleaseLockKey: the key of one (application, env, instance). */
  function ReleaseLockKey(app: int, env: string, instance: string): string {
    "release:" + (Decimal(app) + ":" + (env + ":" + instance))
  }

  lemma {:induction false} DigitsRange(n: nat)
    ensures Digits(n) != [] && forall i | 0 <= i < |Digits(n)| :: '0' <= Digits(n)[i] <= '9'
    decreases n
  {
    if n >= 10 {
      DigitsRange(n / 10);
    }
  }

  lemma {:induction false} DigitsInjective(m: nat, n: nat)
    requires Digits(m) == Digits(n)
    ensures m == n
    decreases m
  {
    var a, b := Digits(m), Digits(n);
    assert a[|a| - 1] == b[|b| - 1];
    DigitsRange(m / 10);
    DigitsRange(n / 10);
    assert m % 10 == n % 10;
    if m >= 10 && n >= 10 {
      assert a[..|a| - 1] == Digits(m / 10) && b[..|b| - 1] == Digits(n / 10);
      DigitsInjective(m / 10, n / 10);
    }
  }

  lemma DecimalSign(n: int)
    ensures Decimal(n) != [] && (Decimal(n)[0] == '-' <==> n < 0)
    ensures n < 0 ==> Decimal(n)[1..] == Digits(-n)
  {
    DigitsRange(if n < 0 then -n else n);
  }

  lemma DecimalInjective(m: int, n: int)
    requires Decimal(m) == Decimal(n)
    ensures m == n
  {
    DecimalSign(m);
    DecimalSign(n);
    if m < 0 {
      DigitsInjective(-m, -n);
    } else {
      DigitsInjective(m, n);
    }
  }

  lemma ColonSplits(a: string, b: string, a': string, b': string)
    requires a + ":" + b == a' + ":" + b' && ':' !in a && ':' !in a'
    ensures a == a' && b == b'
  {
    var s := a + ":" + b;
    assert s[|a|] == ':' && s[|a'|] == ':';
    assert s[..|a|] == a && s[..|a'|] == a';
    assert s[|a| + 1..] == b && s[|a'| + 1..] == b';
  }

  lemma DecimalHasNoColon(n: int)
    ensures ':' !in Decimal(n)
  {
    DigitsRange(if n < 0 then -n else n);
  }

  /** Two operations share a lock key exactly when they target the same instance;
      environment names hold no colon, instance names may hold anything. */
  lemma KeysIdentifyInstances(app: int, env: string, instance: string, app': int, env': string, instance': string)
    requires ':' !in env && ':' !in env'
    ensures ReleaseLockKey(app, env, instance) == ReleaseLockKey(app', env', instance')
            <==> app == app' && env == env' && instance == instance'
  {
    var k, k' := ReleaseLockKey(app, env, instance), ReleaseLockKey(app', env', instance');
    if k == k' {
      assert k[8..] == Decimal(app) + ":" + (env + ":" + instance) && k'[8..] == Decimal(app') + ":" + (env' + ":" + instance');
      DecimalHasNoColon(app);
      DecimalHasNoColon(app');
      ColonSplits(Decimal(app), env + ":" + instance, Decimal(app'), env' + ":" + instance');
      DecimalInjective(app, app');
      ColonSplits(env, instance, env', instance');
    }
  }

  const DEFAULT_TIMEOUT := 20 * 60

  /** runAsync's deadline, and the lock's time limit, from the configured timeout. */
  function RunTimeout(configured: int): (seconds: int)
    ensures seconds == if configured == 0 then 1200 else configured
  {
    if configured == 0 then DEFAULT_TIMEOUT else configured
  }

  function LockTTL(configured: int): (seconds: int)
    ensures seconds == if configured == 0 then 1230 else configured + 30
  {
    RunTimeout(configured) + 30
  }

  /** The table, as the service changes it. */
  class LockService {
    var locks: LockTable
    var tokens: nat

    constructor ()
      ensures locks == map[] && tokens == 0
    {
      locks, tokens := map[], 0;
    }

    /** Every call draws a token no call has drawn before. */
    method AcquireKey(key: string, now: int, ttl: int) returns (token: Option<nat>)
      modifies this
      ensures tokens == old(tokens) + 1
      ensures match Acquired(old(locks), key, old(tokens), now, ttl)
              case None => token == None && locks == old(locks)
              case Some(t) => token == Some(old(tokens)) && locks == t
    {
      var drawn := tokens;
      tokens := tokens + 1;
      if key in locks && now < locks[key].expires {
        return None;
      }
      locks := locks[key := Entry(drawn, now + ttl)];
      token := Some(drawn);
    }

    method ReleaseKey(key: string, token: nat, now: int)
      modifies this`locks
      ensures locks == Freed(old(locks), key, token, now)
    {
      if key in locks && now < locks[key].expires && locks[key].token == token {
        locks := locks - {key};
      }
    }
  }

  // ------------------------------------------------------------ the protocol

  /** An operation that got the lock: runAsync is called at `started`, some time after
      the lock was acquired, and the operation is over at `ended`. */
  datatype Op = Op(key: string, acquired: int, ttl: int, started: Option<int>, ended: Option<int>)

  /** Operations by token. */
  datatype System = System(now: int, locks: LockTable, ops: map<nat, Op>, tokens: nat)

  datatype Event =
    | Tick(seconds: nat)
    | Acquire(key: string, ttl: int)
    | StartRun(token: nat)
    | EndRun(token: nat)
    | Release(key: string, token: nat)    // after the operation's end, any number of times, or with a token that holds nothing

  ghost predicate Enabled(y: System, e: Event) {
    match e
    case Acquire(_, ttl) => ttl > 0
    case StartRun(token) => token in y.ops && y.ops[token].started.None? && y.ops[token].ended.None?
    case EndRun(token) => token in y.ops && y.ops[token].ended.None?
    case Release(key, token) => token in y.ops ==> y.ops[token].ended.Some? && y.ops[token].key == key
    case _ => true
  }

  ghost function Next(y: System, e: Event): System
    requires Enabled(y, e)
  {
    match e
    case Tick(s) => y.(now := y.now + s)
    case Acquire(key, ttl) =>
      var locks := Acquired(y.locks, key, y.tokens, y.now, ttl);
      if locks.None? then y.(tokens := y.tokens + 1)
      else y.(locks := locks.value, tokens := y.tokens + 1, ops := y.ops[y.tokens := Op(key, y.now, ttl, None, None)])
    case StartRun(token) => y.(ops := y.ops[token := y.ops[token].(started := Some(y.now))])
    case EndRun(token) => y.(ops := y.ops[token := y.ops[token].(ended := Some(y.now))])
    case Release(key, token) => y.(locks := Freed(y.locks, key, token, y.now))
  }

  ghost predicate IsRun(ys: seq<System>, events: seq<Event>) {
    && |ys| == |events| + 1 && ys[0].locks == map[] && ys[0].ops == map[]
    && forall i | 0 <= i < |events| :: StepAt(ys, events, i)
  }

  ghost predicate StepAt(ys: seq<System>, events: seq<Event>, i: nat)
    requires i < |events| == |ys| - 1
  {
    Enabled(ys[i], events[i]) && ys[i + 1] == Next(ys[i], events[i])
  }

  // -------------------------------------------------------------- invariants

  function Expires(o: Op): int {
    o.acquired + o.ttl
  }

  /** The operation's run is on and its lock has not run out. */
  predicate Holds(y: System, token: nat) {
    token in y.ops && y.ops[token].ended.None? && y.now < Expires(y.ops[token])
  }

  /** The last moment an operation's lock keeps others out: its end, or its limit. */
  function Until(o: Op): int {
    if o.ended.Some? && o.ended.value <= Expires(o) then o.ended.value else Expires(o)
  }

  /** Two operations on one key, one of which was over, or out of time, when the
      other acquired. */
  ghost predicate Disjoint(a: Op, b: Op) {
    Until(a) <= b.acquired || Until(b) <= a.acquired
  }

  ghost predicate TimesInv(y: System) {
    forall token | token in y.ops ::
      && token < y.tokens && y.ops[token].ttl > 0 && y.ops[token].acquired <= y.now
      && (y.ops[token].started.Some? ==> y.ops[token].acquired <= y.ops[token].started.value <= y.now)
      && (y.ops[token].ended.Some? ==> y.ops[token].acquired <= y.ops[token].ended.value <= y.now)
  }

  ghost predicate HoldersStored(y: System) {
    forall token | Holds(y, token) ::
      y.ops[token].key in y.locks && y.locks[y.ops[token].key] == Entry(token, Expires(y.ops[token]))
  }

  ghost predicate AllDisjoint(ops: map<nat, Op>) {
    forall a, b | a in ops && b in ops && a != b && ops[a].key == ops[b].key :: Disjoint(ops[a], ops[b])
  }

  ghost predicate Inv(y: System) {
    TimesInv(y) && HoldersStored(y) && AllDisjoint(y.ops)
  }

  /** An acquirer finds every earlier holder of its key over or out of time. */
  lemma AcquireFindsKeyFree(y: System, key: string, token: nat)
    requires Inv(y) && !Live(y.locks, key, y.now) && token in y.ops && y.ops[token].key == key
    ensures Until(y.ops[token]) <= y.now
  {
    assert !Holds(y, token);
  }

  lemma AcquireKeepsInv(y: System, key: string, ttl: int)
    requires Inv(y) && ttl > 0 && !Live(y.locks, key, y.now)
    ensures Inv(Next(y, Acquire(key, ttl)))
  {
    var y', drawn := Next(y, Acquire(key, ttl)), y.tokens;
    forall a, b | a in y'.ops && b in y'.ops && a != b && y'.ops[a].key == y'.ops[b].key
      ensures Disjoint(y'.ops[a], y'.ops[b])
    {
      if a == drawn {
        AcquireFindsKeyFree(y, y'.ops[b].key, b);
      } else if b == drawn {
        AcquireFindsKeyFree(y, y'.ops[a].key, a);
      } else {
        assert Disjoint(y.ops[a], y.ops[b]);
      }
    }
    forall token | Holds(y', token)
      ensures y'.ops[token].key in y'.locks && y'.locks[y'.ops[token].key] == Entry(token, Expires(y'.ops[token]))
    {
      if token != drawn {
        assert Holds(y, token);
      }
    }
  }

  lemma EndRunKeepsInv(y: System, token: nat)
    requires Inv(y) && Enabled(y, EndRun(token))
    ensures Inv(Next(y, EndRun(token)))
  {
    var y' := Next(y, EndRun(token));
    forall a, b | a in y'.ops && b in y'.ops && a != b && y'.ops[a].key == y'.ops[b].key
      ensures Disjoint(y'.ops[a], y'.ops[b])
    {
      assert Disjoint(y.ops[a], y.ops[b]);
    }
    forall t | Holds(y', t) ensures Holds(y, t) && t != token {
    }
  }

  lemma StartRunKeepsInv(y: System, token: nat)
    requires Inv(y) && Enabled(y, StartRun(token))
    ensures Inv(Next(y, StartRun(token)))
  {
    var y' := Next(y, StartRun(token));
    forall a, b | a in y'.ops && b in y'.ops && a != b && y'.ops[a].key == y'.ops[b].key
      ensures Disjoint(y'.ops[a], y'.ops[b])
    {
      assert Disjoint(y.ops[a], y.ops[b]);
    }
    forall t | Holds(y', t) ensures Holds(y, t) {
    }
  }

  lemma NextKeepsInv(y: System, e: Event)
    requires Inv(y) && Enabled(y, e)
    ensures Inv(Next(y, e))
  {
    var y' := Next(y, e);
    match e
    case Acquire(key, ttl) =>
      if !Live(y.locks, key, y.now) {
        AcquireKeepsInv(y, key, ttl);
      } else {
        forall t | Holds(y', t) ensures Holds(y, t) {
        }
      }
    case StartRun(token) => StartRunKeepsInv(y, token);
    case EndRun(token) => EndRunKeepsInv(y, token);
    case Tick(_) =>
      forall t | Holds(y', t) ensures Holds(y, t) {
      }
    case Release(key, token) =>
      forall t | Holds(y', t) ensures Holds(y, t) && t != token {
      }
  }

  lemma {:induction false} RunKeepsInv(ys: seq<System>, events: seq<Event>, i: nat)
    requires IsRun(ys, events) && i < |ys|
    ensures Inv(ys[i])
    decreases i
  {
    if i > 0 {
      RunKeepsInv(ys, events, i - 1);
      assert StepAt(ys, events, i - 1);
      NextKeepsInv(ys[i - 1], events[i - 1]);
    }
  }

  // ---------------------------------------------------------------- theorems

  /** At most one operation holds an unexpired lock on a key. */
  lemma AtMostOneHolder(ys: seq<System>, events: seq<Event>, i: nat, a: nat, b: nat)
    requires IsRun(ys, events) && i < |ys|
    requires Holds(ys[i], a) && Holds(ys[i], b) && ys[i].ops[a].key == ys[i].ops[b].key
    ensures a == b
  {
    RunKeepsInv(ys, events, i);
  }

  /** Releasing, with whatever token, never takes the lock from a running holder. */
  lemma ReleaseSparesHolders(ys: seq<System>, events: seq<Event>, i: nat, holder: nat)
    requires IsRun(ys, events) && i < |events| && events[i].Release? && Holds(ys[i], holder)
    ensures Holds(ys[i + 1], holder) && Live(ys[i + 1].locks, ys[i].ops[holder].key, ys[i + 1].now)
    ensures ys[i + 1].locks[ys[i].ops[holder].key].token == holder
  {
    RunKeepsInv(ys, events, i);
    RunKeepsInv(ys, events, i + 1);
    assert StepAt(ys, events, i);
    assert Holds(ys[i + 1], holder);
  }

  /** Runs that end within the lock's time limit of their acquisition never overlap
      on one instance. */
  lemma TimelyRunsNeverOverlap(ys: seq<System>, events: seq<Event>, i: nat, a: nat, b: nat)
    requires IsRun(ys, events) && i < |ys| && a in ys[i].ops && b in ys[i].ops && a != b
    requires ys[i].ops[a].key == ys[i].ops[b].key
    requires forall t | t in {a, b} :: ys[i].ops[t].ended.Some? && ys[i].ops[t].ended.value <= Expires(ys[i].ops[t])
    ensures ys[i].ops[a].ended.value <= ys[i].ops[b].acquired || ys[i].ops[b].ended.value <= ys[i].ops[a].acquired
  {
    RunKeepsInv(ys, events, i);
    assert Disjoint(ys[i].ops[a], ys[i].ops[b]);
  }

  /** What call `j` of AcquireKey was granted still locks `key` before step `i`: it has
      not run out and was not given back with its token. */
  ghost predicate StillLocks(ys: seq<System>, events: seq<Event>, j: nat, i: nat, key: string)
    requires j < i < |ys| == |events| + 1
  {
    && events[j].Acquire? && events[j].key == key && ys[j].tokens in ys[j + 1].ops
    && ys[i].now < ys[j].now + events[j].ttl
    && forall k | j < k < i :: events[k] != Release(key, ys[j].tokens)
  }

  lemma {:induction false} LockIsStored(ys: seq<System>, events: seq<Event>, j: nat, i: nat, key: string)
    requires IsRun(ys, events) && j < i < |ys| && StillLocks(ys, events, j, i, key)
    ensures key in ys[i].locks && ys[i].locks[key] == Entry(ys[j].tokens, ys[j].now + events[j].ttl)
    decreases i
  {
    assert StepAt(ys, events, i - 1);
    if j == i - 1 {
      RunKeepsInv(ys, events, j);
    } else {
      assert StillLocks(ys, events, j, i - 1, key);
      LockIsStored(ys, events, j, i - 1, key);
    }
  }

  lemma {:induction false} LiveLockWasGranted(ys: seq<System>, events: seq<Event>, i: nat, key: string) returns (j: nat)
    requires IsRun(ys, events) && i < |ys| && Live(ys[i].locks, key, ys[i].now)
    ensures j < i && StillLocks(ys, events, j, i, key)
    decreases i
  {
    assert i > 0;
    assert StepAt(ys, events, i - 1);
    var e := events[i - 1];
    if e.Acquire? && e.key == key && !Live(ys[i - 1].locks, key, ys[i - 1].now) {
      j := i - 1;
    } else {
      j := LiveLockWasGranted(ys, events, i - 1, key);
      LockIsStored(ys, events, j, i - 1, key);
      assert e != Release(key, ys[j].tokens);
    }
  }

  /** In every run, a call gets the lock exactly when no earlier grant of the key is
      still neither given back by its holder nor out of time. */
  lemma GrantedIff(ys: seq<System>, events: seq<Event>, i: nat)
    requires IsRun(ys, events) && i < |events| && events[i].Acquire?
    ensures ys[i].tokens in ys[i + 1].ops <==> !exists j | 0 <= j < i :: StillLocks(ys, events, j, i, events[i].key)
  {
    var key := events[i].key;
    assert StepAt(ys, events, i);
    RunKeepsInv(ys, events, i);
    if Live(ys[i].locks, key, ys[i].now) {
      var j := LiveLockWasGranted(ys, events, i, key);
    } else {
      forall j | 0 <= j < i ensures !StillLocks(ys, events, j, i, key) {
        if StillLocks(ys, events, j, i, key) {
          LockIsStored(ys, events, j, i, key);
        }
      }
    }
  }

  // -------------------------------------------------------------- deadlines

  /** Locked for lockTTL, started at most `delay` after the lock was acquired, and over
      at most `grace` after the deadline that runAsync counts from the start. */
  predicate OnSchedule(o: Op, configured: int, delay: nat, grace: nat) {
    && o.ttl == LockTTL(configured)
    && (o.started.Some? ==>
          && o.started.value <= o.acquired + delay
          && (o.ended.Some? ==> o.ended.value <= o.started.value + RunTimeout(configured) + grace))
  }

  /** Both ran, and for some time at once. */
  predicate Overlap(a: Op, b: Op) {
    && a.started.Some? && a.ended.Some? && b.started.Some? && b.ended.Some?
    && a.started.value < b.ended.value && b.started.value < a.ended.value
  }

  /** Two operations of a reachable state that kept to the schedule and overlapped on one key. */
  ghost predicate Clash(ys: seq<System>, events: seq<Event>, i: nat, a: nat, b: nat, configured: int, delay: nat, grace: nat) {
    && IsRun(ys, events) && i < |ys| && a in ys[i].ops && b in ys[i].ops && a != b && ys[i].ops[a].key == ys[i].ops[b].key
    && OnSchedule(ys[i].ops[a], configured, delay, grace) && OnSchedule(ys[i].ops[b], configured, delay, grace)
    && Overlap(ys[i].ops[a], ys[i].ops[b])
  }

  lemma NoClashInTime(ys: seq<System>, events: seq<Event>, i: nat, a: nat, b: nat, configured: int, delay: nat, grace: nat)
    requires delay + grace <= 30
    ensures !Clash(ys, events, i, a, b, configured, delay, grace)
  {
    if Clash(ys, events, i, a, b, configured, delay, grace) {
      RunKeepsInv(ys, events, i);
      TimelyRunsNeverOverlap(ys, events, i, a, b);
    }
  }

  /** A run of `n` steps that ends in `y`. */
  ghost predicate Reaches(ys: seq<System>, events: seq<Event>, n: nat, y: System) {
    IsRun(ys, events) && |events| == n && ys[n] == y
  }

  lemma Onward(ys: seq<System>, events: seq<Event>, n: nat, y: System, e: Event, y': System)
    returns (ys': seq<System>, events': seq<Event>)
    requires Reaches(ys, events, n, y) && Enabled(y, e) && Next(y, e) == y'
    ensures Reaches(ys', events', n + 1, y')
  {
    ys', events' := ys + [y'], events + [e];
    forall i | 0 <= i <= |events| ensures StepAt(ys', events', i) {
      if i < |events| {
        assert StepAt(ys, events, i);
      }
    }
  }

  /** An operation acquires at 0 and starts after `delay`; at `t`, its lock having run
      out, another one acquires and starts. */
  lemma SecondStarts(key: string, ttl: int, delay: nat, t: nat) returns (ys: seq<System>, events: seq<Event>)
    requires 0 < ttl <= t && delay <= t
    ensures Reaches(ys, events, 6,
                    System(t, map[key := Entry(1, t + ttl)],
                           map[0 := Op(key, 0, ttl, Some(delay), None), 1 := Op(key, t, ttl, Some(t), None)], 2))
  {
    var first := Op(key, 0, ttl, None, None);
    var y0 := System(0, map[], map[], 0);
    var y1 := System(0, map[key := Entry(0, ttl)], map[0 := first], 1);
    var y2 := y1.(now := delay);
    var y3 := y2.(ops := map[0 := first.(started := Some(delay))]);
    var y4 := y3.(now := t);
    var y5 := System(t, map[key := Entry(1, t + ttl)], map[0 := first.(started := Some(delay)), 1 := Op(key, t, ttl, None, None)], 2);
    var y6 := y5.(ops := map[0 := first.(started := Some(delay)), 1 := Op(key, t, ttl, Some(t), None)]);
    ys, events := Onward([y0], [], 0, y0, Acquire(key, ttl), y1);
    ys, events := Onward(ys, events, 1, y1, Tick(delay), y2);
    ys, events := Onward(ys, events, 2, y2, StartRun(0), y3);
    ys, events := Onward(ys, events, 3, y3, Tick(t - delay), y4);
    ys, events := Onward(ys, events, 4, y4, Acquire(key, ttl), y5);
    ys, events := Onward(ys, events, 5, y5, StartRun(1), y6);
  }

  /** Both end at `end`. */
  lemma BothEnd(ys: seq<System>, events: seq<Event>, y: System, end: int) returns (ys': seq<System>, events': seq<Event>, y': System)
    requires Reaches(ys, events, 6, y) && y.ops.Keys == {0, 1} && y.ops[0].ended == y.ops[1].ended == None && y.now <= end
    ensures Reaches(ys', events', 9, y')
    ensures y'.ops == map[0 := y.ops[0].(ended := Some(end)), 1 := y.ops[1].(ended := Some(end))]
  {
    var y1 := y.(now := end);
    var y2 := y1.(ops := y.ops[0 := y.ops[0].(ended := Some(end))]);
    y' := y2.(ops := y2.ops[1 := y.ops[1].(ended := Some(end))]);
    ys', events' := Onward(ys, events, 6, y, Tick(end - y.now), y1);
    ys', events' := Onward(ys', events', 7, y1, EndRun(0), y2);
    ys', events' := Onward(ys', events', 8, y2, EndRun(1), y');
  }

  lemma ClashTooLate(key: string, configured: int, delay: nat, grace: nat)
    returns (ys: seq<System>, events: seq<Event>)
    requires configured >= 0 && delay + grace > 30
    ensures Clash(ys, events, 9, 0, 1, configured, delay, grace)
  {
    var ttl := LockTTL(configured);
    var t: nat := if delay < ttl then ttl else delay;
    var y6 := System(t, map[key := Entry(1, t + ttl)],
                     map[0 := Op(key, 0, ttl, Some(delay), None), 1 := Op(key, t, ttl, Some(t), None)], 2);
    ys, events := SecondStarts(key, ttl, delay, t);
    var y;
    ys, events, y := BothEnd(ys, events, y6, delay + RunTimeout(configured) + grace);
  }

  /**
   runAsync starts its timeout after the lock was acquired and the run prepared. Runs
   that start within `delay` of their acquisition and are over within `grace` of that
   deadline never overlap on one key if and only if delay and grace fit into the thirty
   seconds that lockTTL adds to the timeout.
   */
  lemma ScheduledRunsNeverOverlapIff(configured: int, delay: nat, grace: nat)
    requires configured >= 0
    ensures (forall ys, events, i: nat, a: nat, b: nat :: !Clash(ys, events, i, a, b, configured, delay, grace))
            <==> delay + grace <= 30
  {
    if delay + grace <= 30 {
      forall ys, events, i: nat, a: nat, b: nat ensures !Clash(ys, events, i, a, b, configured, delay, grace) {
        NoClashInTime(ys, events, i, a, b, configured, delay, grace);
      }
    } else {
      var ys, events := ClashTooLate("release:1:prod:default", configured, delay, grace);
    }
  }
}
