/**
 The WebSocket tunnel registry (internal/wstunnel/registry.go): one slot table and
 three count indexes over it. Each method holds the registry's mutex, so a method
 is one step; Release is two, because its flag is set before the lock is taken.
 */
module TunnelRegistry {
  import opened Common

  datatype Key = Key(route: string, instance: string)

  /** A zero field means no limit at that level. */
  datatype Limits = Limits(total: int, perRoute: int, perIP: int)

  datatype Reject = Draining | TotalLimit | RouteLimit | ClientLimit

  datatype Slot = Slot(key: Key, ip: string, conn: bool, forced: bool, released: bool)

  /** `info` holds every slot ever handed out, by id; `live` the ids in the table. */
  datatype State = State(
    info: map<nat, Slot>,
    live: set<nat>,
    byRoute: map<string, nat>,
    byKey: map<Key, nat>,
    byIP: map<string, nat>,
    draining: bool,
    next: nat)

  // ------------------------------------------------------------ count indexes

  function Get<T>(m: map<T, nat>, t: T): nat {
    if t in m then m[t] else 0
  }

  function Incr<T>(m: map<T, nat>, t: T): map<T, nat> {
    m[t := Get(m, t) + 1]
  }

  function Decr<T>(m: map<T, nat>, t: T): map<T, nat> {
    if Get(m, t) <= 1 then m - {t} else m[t := m[t] - 1]
  }

  /** The ids that `f` sends to `t`. */
  ghost function Fiber<T>(ids: set<nat>, f: map<nat, T>, t: T): set<nat> {
    set id | id in ids && id in f && f[id] == t
  }

  ghost function Count<T>(ids: set<nat>, f: map<nat, T>, t: T): nat {
    |Fiber(ids, f, t)|
  }

  /** `idx` holds exactly the non-zero counts of `f` over `ids`. */
  ghost predicate Indexes<T(!new)>(idx: map<T, nat>, ids: set<nat>, f: map<nat, T>) {
    && ids <= f.Keys
    && (forall t :: Get(idx, t) == Count(ids, f, t))
    && (forall t | t in idx :: idx[t] > 0)
  }

  ghost predicate Agree<T(!new)>(f: map<nat, T>, f': map<nat, T>, ids: set<nat>) {
    forall i | i in ids :: i in f && i in f' && f'[i] == f[i]
  }

  lemma CountAdd<T(!new)>(ids: set<nat>, f: map<nat, T>, id: nat, f': map<nat, T>, t: T)
    requires Agree(f, f', ids) && id !in ids && id in f'
    ensures Count(ids + {id}, f', t) == Count(ids, f, t) + if t == f'[id] then 1 else 0
  {
    assert Fiber(ids + {id}, f', t) == Fiber(ids, f, t) + (if t == f'[id] then {id} else {});
  }

  lemma CountSame<T(!new)>(ids: set<nat>, f: map<nat, T>, f': map<nat, T>, t: T)
    requires Agree(f, f', ids)
    ensures Count(ids, f', t) == Count(ids, f, t)
  {
    assert Fiber(ids, f', t) == Fiber(ids, f, t);
  }

  lemma AddToIndex<T(!new)>(idx: map<T, nat>, ids: set<nat>, f: map<nat, T>, id: nat, f': map<nat, T>)
    requires Indexes(idx, ids, f) && Agree(f, f', ids) && id !in ids && id in f'
    ensures Indexes(Incr(idx, f'[id]), ids + {id}, f')
  {
    forall t ensures Get(Incr(idx, f'[id]), t) == Count(ids + {id}, f', t) {
      CountAdd(ids, f, id, f', t);
    }
  }

  lemma RemoveFromIndex<T(!new)>(idx: map<T, nat>, ids: set<nat>, f: map<nat, T>, id: nat)
    requires Indexes(idx, ids, f) && id in ids
    ensures Indexes(Decr(idx, f[id]), ids - {id}, f)
  {
    var rest := ids - {id};
    assert rest + {id} == ids;
    forall t ensures Get(Decr(idx, f[id]), t) == Count(rest, f, t) {
      CountAdd(rest, f, id, f, t);
    }
  }

  lemma SameIndex<T(!new)>(idx: map<T, nat>, ids: set<nat>, f: map<nat, T>, f': map<nat, T>)
    requires Indexes(idx, ids, f) && Agree(f, f', ids)
    ensures Indexes(idx, ids, f')
  {
    forall t ensures Count(ids, f', t) == Count(ids, f, t) {
      CountSame(ids, f, f', t);
    }
  }

  ghost function Sum<T(!new)>(m: map<T, nat>): nat
    decreases m.Keys
  {
    if m == map[] then 0 else
      var t :| t in m;
      assert (m - {t}).Keys == m.Keys - {t};
      m[t] + Sum(m - {t})
  }

  lemma {:induction false} SumStep<T(!new)>(m: map<T, nat>, t: T)
    requires t in m
    ensures Sum(m) == m[t] + Sum(m - {t})
    decreases m.Keys
  {
    var u :| u in m && Sum(m) == m[u] + Sum(m - {u});
    if u != t {
      assert (m - {u}).Keys == m.Keys - {u} && (m - {t}).Keys == m.Keys - {t};
      SumStep(m - {u}, t);
      SumStep(m - {t}, u);
      assert (m - {u}) - {t} == (m - {t}) - {u};
    }
  }

  lemma CountPositive<T(!new)>(ids: set<nat>, f: map<nat, T>, id: nat)
    requires id in ids && id in f
    ensures Count(ids, f, f[id]) > 0
  {
    assert id in Fiber(ids, f, f[id]);
  }

  lemma CountWithout<T(!new)>(ids: set<nat>, f: map<nat, T>, t: T, u: T)
    ensures Count(ids - Fiber(ids, f, t), f, u) == if u == t then 0 else Count(ids, f, u)
  {
    assert Fiber(ids - Fiber(ids, f, t), f, u) == if u == t then {} else Fiber(ids, f, u);
  }

  /** The counts of an index add up to the number of ids it counts. */
  lemma {:induction false} IndexTotal<T(!new)>(idx: map<T, nat>, ids: set<nat>, f: map<nat, T>)
    requires Indexes(idx, ids, f)
    ensures Sum(idx) == |ids|
    decreases idx.Keys
  {
    if idx == map[] {
      if ids != {} {
        var id :| id in ids;
        CountPositive(ids, f, id);
      }
    } else {
      var t :| t in idx;
      var fiber, idx' := Fiber(ids, f, t), idx - {t};
      assert idx'.Keys == idx.Keys - {t};
      forall u ensures Get(idx', u) == Count(ids - fiber, f, u) {
        CountWithout(ids, f, t, u);
      }
      IndexTotal(idx', ids - fiber, f);
      SumStep(idx, t);
      assert ids == (ids - fiber) + fiber;
      assert idx[t] == Get(idx, t) == |fiber|;
    }
  }

  // ---------------------------------------------------------------- the steps

  function Routes(s: State): map<nat, string> {
    map id | id in s.info :: s.info[id].key.route
  }

  function Keys(s: State): map<nat, Key> {
    map id | id in s.info :: s.info[id].key
  }

  function IPs(s: State): map<nat, string> {
    map id | id in s.info :: s.info[id].ip
  }

  /** Live slots with a client address; the others are not counted per client. */
  function Addressed(s: State): set<nat> {
    set id | id in s.live && id in s.info && s.info[id].ip != ""
  }

  const EMPTY := State(map[], {}, map[], map[], map[], false, 0)

  function Refusal(s: State, key: Key, ip: string, l: Limits): Option<Reject> {
    if s.draining then Some(Draining)
    else if l.total > 0 && |s.live| >= l.total then Some(TotalLimit)
    else if l.perRoute > 0 && Get(s.byRoute, key.route) >= l.perRoute then Some(RouteLimit)
    else if l.perIP > 0 && ip != "" && Get(s.byIP, ip) >= l.perIP then Some(ClientLimit)
    else None
  }

  function Reserve(s: State, key: Key, ip: string): State {
    var id := s.next + 1;
    s.(next := id, info := s.info[id := Slot(key, ip, false, false, false)], live := s.live + {id},
       byRoute := Incr(s.byRoute, key.route), byKey := Incr(s.byKey, key),
       byIP := if ip != "" then Incr(s.byIP, ip) else s.byIP)
  }

  function Admitted(s: State, key: Key, ip: string, l: Limits): State {
    if Refusal(s, key, ip, l).Some? then s else Reserve(s, key, ip)
  }

  function Attached(s: State, id: nat): State {
    if id in s.info then s.(info := s.info[id := s.info[id].(conn := true)]) else s
  }

  /** Release, first half: the released flag is swapped in once. */
  function MarkReleased(s: State, id: nat): State {
    if id in s.info then s.(info := s.info[id := s.info[id].(released := true)]) else s
  }

  /** Release, second half, under the lock. */
  function Remove(s: State, id: nat): State
    requires id in s.info
  {
    var slot := s.info[id];
    s.(live := s.live - {id},
       byRoute := Decr(s.byRoute, slot.key.route), byKey := Decr(s.byKey, slot.key),
       byIP := if slot.ip != "" then Decr(s.byIP, slot.ip) else s.byIP)
  }

  function DrainBegun(s: State): State {
    s.(draining := true)
  }

  function Established(s: State): set<nat> {
    set id | id in s.live && id in s.info && s.info[id].conn
  }

  function AllClosed(s: State): State {
    s.(info := map id | id in s.info :: if id in Established(s) then s.info[id].(forced := true) else s.info[id])
  }

  /** What any caller may do next. `EndRelease` is the second half of a Release whose
      first half swapped the flag and has not been finished. */
  datatype Event =
    | DoAdmit(key: Key, ip: string, limits: Limits)
    | DoAttach(id: nat)
    | StartRelease(id: nat)
    | EndRelease(id: nat)
    | DoBeginDrain
    | DoCloseAll

  /** The registry together with the releases between their two halves. */
  datatype System = System(reg: State, halfway: set<nat>)

  function Step(y: System, e: Event): System {
    match e
    case DoAdmit(key, ip, l) => y.(reg := Admitted(y.reg, key, ip, l))
    case DoAttach(id) => y.(reg := Attached(y.reg, id))
    case StartRelease(id) =>
      // a nil slot, or one whose flag is already set, returns at once
      if id in y.reg.info && !y.reg.info[id].released then
        System(MarkReleased(y.reg, id), y.halfway + {id})
      else y
    case EndRelease(id) =>
      if id in y.halfway && id in y.reg.info then System(Remove(y.reg, id), y.halfway - {id}) else y
    case DoBeginDrain => y.(reg := DrainBegun(y.reg))
    case DoCloseAll => y.(reg := AllClosed(y.reg))
  }

  function Steps(y: System, events: seq<Event>): System
    decreases |events|
  {
    if events == [] then y else Steps(Step(y, events[0]), events[1..])
  }

  // ------------------------------------------------------------- invariants

  /** The three indexes are the counts computed from the slot table. */
  ghost predicate Consistent(s: State) {
    && s.live <= s.info.Keys
    && (forall id | id in s.info :: id <= s.next)
    && Indexes(s.byRoute, s.live, Routes(s))
    && Indexes(s.byKey, s.live, Keys(s))
    && Indexes(s.byIP, Addressed(s), IPs(s))
  }

  ghost predicate Inv(y: System) {
    && Consistent(y.reg)
    && y.halfway <= y.reg.live
    && forall id | id in y.reg.info :: y.reg.info[id].released <==> (id !in y.reg.live || id in y.halfway)
  }

  lemma ReserveCountsClient(s: State, key: Key, ip: string)
    requires Consistent(s)
    ensures var s' := Reserve(s, key, ip); Indexes(s'.byIP, Addressed(s'), IPs(s'))
  {
    var s', id := Reserve(s, key, ip), s.next + 1;
    if ip != "" {
      assert Addressed(s') == Addressed(s) + {id};
      AddToIndex(s.byIP, Addressed(s), IPs(s), id, IPs(s'));
    } else {
      assert Addressed(s') == Addressed(s);
      SameIndex(s.byIP, Addressed(s), IPs(s), IPs(s'));
    }
  }

  lemma ReserveKeeps(s: State, key: Key, ip: string)
    requires Consistent(s)
    ensures Consistent(Reserve(s, key, ip))
  {
    var s', id := Reserve(s, key, ip), s.next + 1;
    AddToIndex(s.byRoute, s.live, Routes(s), id, Routes(s'));
    AddToIndex(s.byKey, s.live, Keys(s), id, Keys(s'));
    ReserveCountsClient(s, key, ip);
  }

  lemma RemoveKeeps(s: State, id: nat)
    requires Consistent(s) && id in s.live
    ensures Consistent(Remove(s, id))
  {
    var s' := Remove(s, id);
    assert Routes(s') == Routes(s) && Keys(s') == Keys(s) && IPs(s') == IPs(s);
    RemoveFromIndex(s.byRoute, s.live, Routes(s), id);
    RemoveFromIndex(s.byKey, s.live, Keys(s), id);
    if s.info[id].ip != "" {
      assert Addressed(s') == Addressed(s) - {id};
      RemoveFromIndex(s.byIP, Addressed(s), IPs(s), id);
    } else {
      assert Addressed(s') == Addressed(s);
    }
  }

  /** Connection, forced and released flags do not enter the counts. */
  lemma FlagsDoNotCount(s: State, s': State)
    requires Consistent(s)
    requires s' == s.(info := s'.info, draining := s'.draining) && s'.info.Keys == s.info.Keys
    requires forall id | id in s.info :: s'.info[id].key == s.info[id].key && s'.info[id].ip == s.info[id].ip
    ensures Consistent(s')
  {
    assert Routes(s') == Routes(s) && Keys(s') == Keys(s) && IPs(s') == IPs(s) && Addressed(s') == Addressed(s);
  }

  lemma AdmitKeeps(y: System, key: Key, ip: string, l: Limits)
    requires Inv(y)
    ensures Inv(Step(y, DoAdmit(key, ip, l)))
  {
    if Refusal(y.reg, key, ip, l).None? {
      ReserveKeeps(y.reg, key, ip);
    }
  }

  lemma StartReleaseKeeps(y: System, id: nat)
    requires Inv(y)
    ensures Inv(Step(y, StartRelease(id)))
  {
    if id in y.reg.info && !y.reg.info[id].released {
      var s, s' := y.reg, MarkReleased(y.reg, id);
      assert s'.info.Keys == s.info.Keys;
      FlagsDoNotCount(s, s');
      assert id in s.live;
    }
  }

  lemma EndReleaseKeeps(y: System, id: nat)
    requires Inv(y)
    ensures Inv(Step(y, EndRelease(id)))
  {
    if id in y.halfway {
      RemoveKeeps(y.reg, id);
    }
  }

  lemma StepKeeps(y: System, e: Event)
    requires Inv(y)
    ensures Inv(Step(y, e))
  {
    match e
    case DoAdmit(key, ip, l) => AdmitKeeps(y, key, ip, l);
    case StartRelease(id) => StartReleaseKeeps(y, id);
    case EndRelease(id) => EndReleaseKeeps(y, id);
    case DoAttach(id) => AttachKeeps(y, id);
    case DoBeginDrain => FlagsDoNotCount(y.reg, DrainBegun(y.reg));
    case DoCloseAll => CloseKeeps(y);
  }

  lemma AttachKeeps(y: System, id: nat)
    requires Inv(y)
    ensures Inv(y.(reg := Attached(y.reg, id)))
  {
    if id in y.reg.info {
      var s' := Attached(y.reg, id);
      assert s'.info.Keys == y.reg.info.Keys;
      FlagsDoNotCount(y.reg, s');
    }
  }

  lemma CloseKeeps(y: System)
    requires Inv(y)
    ensures Inv(y.(reg := AllClosed(y.reg)))
  {
    FlagsDoNotCount(y.reg, AllClosed(y.reg));
  }

  lemma {:induction false} StepsKeep(y: System, events: seq<Event>)
    requires Inv(y)
    ensures Inv(Steps(y, events))
    decreases |events|
  {
    if events != [] {
      StepKeeps(y, events[0]);
      StepsKeep(Step(y, events[0]), events[1..]);
    }
  }

  /** In every interleaving from an empty registry the indexes are the counts of the
      slot table, without zero entries, and Stats adds up to Active. */
  lemma IndexesAlwaysCount(events: seq<Event>)
    ensures var s := Steps(System(EMPTY, {}), events).reg;
            Consistent(s) && Sum(s.byKey) == |s.live| && Sum(s.byRoute) == |s.live| && Sum(s.byIP) == |Addressed(s)|
  {
    var start := System(EMPTY, {});
    assert Addressed(EMPTY) == {};
    StepsKeep(start, events);
    var s := Steps(start, events).reg;
    IndexTotal(s.byKey, s.live, Keys(s));
    IndexTotal(s.byRoute, s.live, Routes(s));
    IndexTotal(s.byIP, Addressed(s), IPs(s));
  }

  // ------------------------------------------------------------------ limits

  /** No non-zero limit is exceeded by the slot table. */
  ghost predicate Within(s: State, l: Limits) {
    && (l.total > 0 ==> |s.live| <= l.total)
    && (l.perRoute > 0 ==> forall r :: Count(s.live, Routes(s), r) <= l.perRoute)
    && (l.perIP > 0 ==> forall ip :: ip != "" ==> Count(s.live, IPs(s), ip) <= l.perIP)
  }

  ghost predicate SameLimits(events: seq<Event>, l: Limits) {
    forall i | 0 <= i < |events| :: events[i].DoAdmit? ==> events[i].limits == l
  }

  lemma AddressedCount(s: State, ip: string)
    requires s.live <= s.info.Keys && ip != ""
    ensures Count(Addressed(s), IPs(s), ip) == Count(s.live, IPs(s), ip)
  {
    assert Fiber(Addressed(s), IPs(s), ip) == Fiber(s.live, IPs(s), ip);
  }

  lemma CountShrinks<T(!new)>(ids: set<nat>, ids': set<nat>, f: map<nat, T>, f': map<nat, T>, t: T)
    requires ids' <= ids && Agree(f, f', ids')
    ensures Count(ids', f', t) <= Count(ids, f, t)
  {
    Subset(Fiber(ids', f', t), Fiber(ids, f, t));
  }

  lemma Subset<T>(a: set<T>, b: set<T>)
    requires a <= b
    ensures |a| <= |b|
  {
    assert b == a + (b - a);
  }

  lemma ReserveWithin(s: State, key: Key, ip: string, l: Limits)
    requires Consistent(s) && Within(s, l) && Refusal(s, key, ip, l).None?
    ensures Within(Reserve(s, key, ip), l)
  {
    var s', id := Reserve(s, key, ip), s.next + 1;
    forall r ensures Count(s'.live, Routes(s'), r) == Count(s.live, Routes(s), r) + if r == key.route then 1 else 0 {
      CountAdd(s.live, Routes(s), id, Routes(s'), r);
    }
    assert Get(s.byRoute, key.route) == Count(s.live, Routes(s), key.route);
    forall a | a != ""
      ensures Count(s'.live, IPs(s'), a) == Count(s.live, IPs(s), a) + (if a == ip then 1 else 0)
      ensures Get(s.byIP, a) == Count(s.live, IPs(s), a)
    {
      CountAdd(s.live, IPs(s), id, IPs(s'), a);
      AddressedCount(s, a);
    }
  }

  lemma StepWithin(y: System, e: Event, l: Limits)
    requires Inv(y) && Within(y.reg, l) && (e.DoAdmit? ==> e.limits == l)
    ensures Within(Step(y, e).reg, l)
  {
    if e.DoAdmit? {
      if Refusal(y.reg, e.key, e.ip, l).None? {
        ReserveWithin(y.reg, e.key, e.ip, l);
      }
    } else {
      NothingAdded(y, e);
      SameSlotsAgree(y.reg, Step(y, e).reg);
      ShrinkWithin(y.reg, Step(y, e).reg, l);
    }
  }

  /** Every slot known to `s` is still known, for the same instance and client. */
  ghost predicate SameSlots(s: State, s': State) {
    forall id | id in s.info :: id in s'.info && s'.info[id].key == s.info[id].key && s'.info[id].ip == s.info[id].ip
  }

  /** Only an admission adds a slot, and no event changes whose slot it is. */
  lemma NothingAdded(y: System, e: Event)
    requires !e.DoAdmit?
    ensures Step(y, e).reg.live <= y.reg.live && SameSlots(y.reg, Step(y, e).reg)
  {
    match e
    case DoAttach(id) => AttachKeepsSlots(y.reg, id);
    case StartRelease(id) => MarkKeepsSlots(y.reg, id);
    case DoCloseAll => CloseKeepsSlots(y.reg);
    case _ =>
  }

  lemma AttachKeepsSlots(s: State, id: nat)
    ensures SameSlots(s, Attached(s, id)) && Attached(s, id).live == s.live
  {
  }

  lemma MarkKeepsSlots(s: State, id: nat)
    ensures SameSlots(s, MarkReleased(s, id)) && MarkReleased(s, id).live == s.live
  {
  }

  lemma CloseKeepsSlots(s: State)
    ensures SameSlots(s, AllClosed(s)) && AllClosed(s).live == s.live
  {
  }

  lemma SameSlotsAgree(s: State, s': State)
    requires s'.live <= s.live <= s.info.Keys && SameSlots(s, s')
    ensures Agree(Routes(s), Routes(s'), s'.live) && Agree(IPs(s), IPs(s'), s'.live)
  {
  }

  lemma ShrinkWithin(s: State, s': State, l: Limits)
    requires Within(s, l) && s'.live <= s.live
    requires Agree(Routes(s), Routes(s'), s'.live) && Agree(IPs(s), IPs(s'), s'.live)
    ensures Within(s', l)
  {
    Subset(s'.live, s.live);
    forall r ensures Count(s'.live, Routes(s'), r) <= Count(s.live, Routes(s), r) {
      CountShrinks(s.live, s'.live, Routes(s), Routes(s'), r);
    }
    forall a ensures Count(s'.live, IPs(s'), a) <= Count(s.live, IPs(s), a) {
      CountShrinks(s.live, s'.live, IPs(s), IPs(s'), a);
    }
  }

  lemma {:induction false} StepsWithin(y: System, events: seq<Event>, l: Limits)
    requires Inv(y) && Within(y.reg, l) && SameLimits(events, l)
    ensures Within(Steps(y, events).reg, l)
    decreases |events|
  {
    if events != [] {
      StepKeeps(y, events[0]);
      StepWithin(y, events[0], l);
      StepsWithin(Step(y, events[0]), events[1..], l);
    }
  }

  ghost function OnRoute(s: State, route: string): set<nat>
    requires s.live <= s.info.Keys
  {
    set id | id in s.live && s.info[id].key.route == route
  }

  ghost function OfClient(s: State, ip: string): set<nat>
    requires s.live <= s.info.Keys
  {
    set id | id in s.live && s.info[id].ip == ip
  }

  ghost predicate OverLimit(limit: int, slots: set<nat>) {
    limit > 0 && |slots| >= limit
  }

  /** What refuses a request, by the slots in the table: the drain, then the total, the
      route's and the client's limit; a client without an address has no limit. */
  lemma RefusedIff(s: State, key: Key, ip: string, l: Limits)
    requires Consistent(s)
    ensures var onRoute, ofClient := OnRoute(s, key.route), OfClient(s, ip);
            var r := Refusal(s, key, ip, l);
            && (r == Some(Draining) <==> s.draining)
            && (r == Some(TotalLimit) <==> !s.draining && OverLimit(l.total, s.live))
            && (r == Some(RouteLimit) <==> !s.draining && !OverLimit(l.total, s.live) && OverLimit(l.perRoute, onRoute))
            && (r == Some(ClientLimit) <==> !s.draining && !OverLimit(l.total, s.live) && !OverLimit(l.perRoute, onRoute)
                                            && ip != "" && OverLimit(l.perIP, ofClient))
  {
    assert Fiber(s.live, Routes(s), key.route) == OnRoute(s, key.route);
    assert Get(s.byRoute, key.route) == Count(s.live, Routes(s), key.route);
    if ip != "" {
      assert Fiber(s.live, IPs(s), ip) == OfClient(s, ip);
      assert Get(s.byIP, ip) == Count(Addressed(s), IPs(s), ip);
      AddressedCount(s, ip);
    }
  }

  /** What each step does to the slots; the indexes follow, being their counts. */
  ghost predicate Effect(s: State, halfway: set<nat>, e: Event, s': State, halfway': set<nat>) {
    match e
    case DoAdmit(key, ip, l) =>
      && halfway' == halfway
      && if Refusal(s, key, ip, l).Some? then s' == s
         else
           && s.next + 1 !in s.info && s'.next == s.next + 1 && s'.live == s.live + {s.next + 1}
           && s'.info == s.info[s.next + 1 := Slot(key, ip, false, false, false)] && !s'.draining
    case DoAttach(id) =>
      && halfway' == halfway
      && s' == if id in s.info then s.(info := s.info[id := s.info[id].(conn := true)]) else s
    case StartRelease(id) =>
      if id in s.info && !s.info[id].released
      then s' == s.(info := s.info[id := s.info[id].(released := true)]) && halfway' == halfway + {id}
      else s' == s && halfway' == halfway
    case EndRelease(id) =>
      && s'.live == (if id in halfway then s.live - {id} else s.live) && halfway' == halfway - {id}
      && s'.info == s.info && s'.next == s.next && s'.draining == s.draining
    case DoBeginDrain => s' == s.(draining := true) && halfway' == halfway
    case DoCloseAll =>
      && halfway' == halfway && s' == s.(info := s'.info) && s'.info.Keys == s.info.Keys
      && forall id | id in s.info ::
        s'.info[id] == if id in s.live && s.info[id].conn then s.info[id].(forced := true) else s.info[id]
  }

  lemma StepEffect(y: System, e: Event)
    requires Inv(y)
    ensures Effect(y.reg, y.halfway, e, Step(y, e).reg, Step(y, e).halfway) && Consistent(Step(y, e).reg)
  {
    StepKeeps(y, e);
  }

  /** Fixed limits are never exceeded, in any interleaving. */
  lemma LimitsNeverExceeded(events: seq<Event>, l: Limits)
    requires SameLimits(events, l)
    ensures Within(Steps(System(EMPTY, {}), events).reg, l)
  {
    var start := System(EMPTY, {});
    assert Addressed(EMPTY) == {};
    StepsWithin(start, events, l);
  }

  /** Once a drain has begun the slot table never grows. */
  lemma {:induction false} DrainNeverGrows(y: System, events: seq<Event>)
    requires y.reg.draining
    ensures Steps(y, events).reg.draining && Steps(y, events).reg.live <= y.reg.live
    ensures |Steps(y, events).reg.live| <= |y.reg.live|
    decreases |events|
  {
    if events != [] {
      var y' := Step(y, events[0]);
      DrainNeverGrows(y', events[1..]);
      assert Steps(y, events).reg.live <= y'.reg.live <= y.reg.live;
    }
    Subset(Steps(y, events).reg.live, y.reg.live);
  }

  /** A slot leaves the table exactly once: releasing it again, finished or not,
      changes nothing. */
  lemma SecondReleaseDoesNothing(y: System, id: nat)
    requires Inv(y) && id in y.reg.info && y.reg.info[id].released
    ensures Step(y, StartRelease(id)) == y
    ensures id !in y.halfway ==> Step(y, EndRelease(id)) == y && id !in y.reg.live
  {
  }

  // ------------------------------------------------------------- the registry

  datatype Stat = Stat(key: Key, active: nat)

  ghost function Total(stats: seq<Stat>): nat {
    if stats == [] then 0 else Total(stats[..|stats| - 1]) + stats[|stats| - 1].active
  }

  /** The mutable registry, as the gateway holds it. */
  class Registry {
    var info: map<nat, Slot>
    var live: set<nat>
    var byRoute: map<string, nat>
    var byKey: map<Key, nat>
    var byIP: map<string, nat>
    var draining: bool
    var next: nat

    ghost function View(): State
      reads this
    {
      State(info, live, byRoute, byKey, byIP, draining, next)
    }

    constructor ()
      ensures View() == EMPTY
    {
      info, live, byRoute, byKey, byIP, draining, next := map[], {}, map[], map[], map[], false, 0;
    }

    method Admit(key: Key, ip: string, limits: Limits) returns (r: Result<nat, Reject>)
      modifies this
      ensures View() == Admitted(old(View()), key, ip, limits)
      ensures r == match Refusal(old(View()), key, ip, limits) case Some(why) => Err(why) case None => Ok(next)
    {
      if draining {
        return Err(Draining);
      }
      if limits.total > 0 && |live| >= limits.total {
        return Err(TotalLimit);
      }
      if limits.perRoute > 0 && Get(byRoute, key.route) >= limits.perRoute {
        return Err(RouteLimit);
      }
      if limits.perIP > 0 && ip != "" && Get(byIP, ip) >= limits.perIP {
        return Err(ClientLimit);
      }
      TakeSlot(key, ip);
      r := Ok(next);
    }

    /** The reservation itself, under the lock Admit holds. */
    method TakeSlot(key: Key, ip: string)
      modifies this
      ensures View() == Reserve(old(View()), key, ip)
    {
      next := next + 1;
      info := info[next := Slot(key, ip, false, false, false)];
      live := live + {next};
      byRoute := byRoute[key.route := Get(byRoute, key.route) + 1];
      byKey := byKey[key := Get(byKey, key) + 1];
      if ip != "" {
        byIP := byIP[ip := Get(byIP, ip) + 1];
      }
    }

    method Attach(id: nat)
      requires id in info
      modifies this
      ensures View() == Attached(old(View()), id)
    {
      info := info[id := info[id].(conn := true)];
    }

    /** Both halves of Release without another caller in between. */
    method Release(id: nat)
      requires id in info
      modifies this
      ensures System(View(), {}) == Step(Step(System(old(View()), {}), StartRelease(id)), EndRelease(id))
    {
      if !info[id].released {
        info := info[id := info[id].(released := true)];
        var slot := info[id];
        live := live - {id};
        byRoute := Decr(byRoute, slot.key.route);
        byKey := Decr(byKey, slot.key);
        if slot.ip != "" {
          byIP := Decr(byIP, slot.ip);
        }
        assert {id} - {id} == {};
      }
    }

    method BeginDrain()
      modifies this
      ensures View() == DrainBegun(old(View()))
    {
      draining := true;
    }

    /** Flags every established tunnel as force-closed and returns how many there were. */
    method CloseAll() returns (closed: nat)
      requires live <= info.Keys
      modifies this
      ensures View() == AllClosed(old(View())) && closed == |Established(old(View()))|
    {
      var flagged, conns := FlagEstablished(info, live);
      assert conns == Established(View());
      assert flagged == AllClosed(View()).info;
      closed := |conns|;
      info := flagged;
    }

    /** One entry per (route, instance) with its count, in key order; they add up to Active. */
    method Stats() returns (out: seq<Stat>)
      requires Consistent(View())
      ensures Total(out) == |live|
      ensures KeysOf(out) == byKey.Keys && InOrder(out)
      ensures forall st | st in out :: st.active == Count(live, Keys(View()), st.key) && st.active > 0
    {
      IndexTotal(byKey, live, Keys(View()));
      out := ListCounts(byKey);
      forall st | st in out ensures st.active == Count(live, Keys(View()), st.key) {
        assert Get(byKey, st.key) == Count(live, Keys(View()), st.key);
      }
    }
  }

  ghost function KeysOf(stats: seq<Stat>): set<Key> {
    set st | st in stats :: st.key
  }

  method FlagEstablished(info: map<nat, Slot>, live: set<nat>) returns (flagged: map<nat, Slot>, conns: set<nat>)
    requires live <= info.Keys
    ensures conns == set id | id in live && info[id].conn
    ensures flagged.Keys == info.Keys
    ensures forall id | id in info :: flagged[id] == if id in conns then info[id].(forced := true) else info[id]
  {
    var todo := live;
    flagged, conns := info, {};
    while todo != {}
      invariant todo <= live && flagged.Keys == info.Keys
      invariant conns == set id | id in live && id !in todo && info[id].conn
      invariant forall id | id in info :: flagged[id] == if id in conns then info[id].(forced := true) else info[id]
      decreases todo
    {
      var id :| id in todo;
      if flagged[id].conn {
        flagged := flagged[id := flagged[id].(forced := true)];
        conns := conns + {id};
      }
      todo := todo - {id};
    }
  }

  // ------------------------------------------------------- the order of Stats

  /** Go's order of strings. */
  predicate Less(a: string, b: string) {
    b != [] && (a == [] || a[0] < b[0] || (a[0] == b[0] && Less(a[1..], b[1..])))
  }

  /** The first `k` characters agree, and `a` ends there or has the smaller one next. */
  ghost predicate SmallerAt(a: string, b: string, k: nat) {
    && k <= |a| && k < |b| && (forall i | 0 <= i < k :: a[i] == b[i])
    && (k == |a| || a[k] < b[k])
  }

  ghost predicate Before(a: string, b: string) {
    exists k :: SmallerAt(a, b, k)
  }

  lemma {:induction false} LessSomewhere(a: string, b: string) returns (k: nat)
    requires Less(a, b)
    ensures SmallerAt(a, b, k)
    decreases |a|
  {
    k := 0;
    if a != [] && a[0] == b[0] {
      var rest := LessSomewhere(a[1..], b[1..]);
      k := rest + 1;
      assert forall i | 0 < i < k :: a[i] == a[1..][i - 1] && b[i] == b[1..][i - 1];
    }
  }

  lemma {:induction false} SmallerIsLess(a: string, b: string, k: nat)
    requires SmallerAt(a, b, k)
    ensures Less(a, b)
    decreases |a|
  {
    if k > 0 {
      SmallerIsLess(a[1..], b[1..], k - 1);
    }
  }

  lemma LessIff(a: string, b: string)
    ensures Less(a, b) <==> Before(a, b)
  {
    if Less(a, b) {
      var k := LessSomewhere(a, b);
    }
    forall k | SmallerAt(a, b, k) ensures Less(a, b) {
      SmallerIsLess(a, b, k);
    }
  }

  predicate KeyLess(a: Key, b: Key) {
    if a.route != b.route then Less(a.route, b.route) else Less(a.instance, b.instance)
  }

  lemma {:induction false} LessTotal(a: string, b: string)
    requires a != b
    ensures Less(a, b) || Less(b, a)
  {
    if a != [] && b != [] && a[0] == b[0] {
      assert a == [a[0]] + a[1..] && b == [b[0]] + b[1..];
      LessTotal(a[1..], b[1..]);
    }
  }

  lemma {:induction false} LessIsStrict(a: string)
    ensures !Less(a, a)
  {
    if a != [] {
      LessIsStrict(a[1..]);
    }
  }

  lemma {:induction false} LessTransitive(a: string, b: string, c: string)
    requires Less(a, b) && Less(b, c)
    ensures Less(a, c)
  {
    if a != [] && a[0] == b[0] == c[0] {
      LessTransitive(a[1..], b[1..], c[1..]);
    }
  }

  lemma KeyLessTotal(a: Key, b: Key)
    requires a != b
    ensures KeyLess(a, b) || KeyLess(b, a)
  {
    LessTotal(if a.route != b.route then a.route else a.instance, if a.route != b.route then b.route else b.instance);
  }

  lemma KeyLessTransitive(a: Key, b: Key, c: Key)
    requires KeyLess(a, b) && KeyLess(b, c)
    ensures KeyLess(a, c)
  {
    if a.route == b.route == c.route {
      LessTransitive(a.instance, b.instance, c.instance);
    } else if a.route != b.route && b.route != c.route {
      LessTransitive(a.route, b.route, c.route);
      LessIsStrict(a.route);
    }
  }

  ghost predicate KeyBefore(a: Key, b: Key) {
    Before(a.route, b.route) || (a.route == b.route && Before(a.instance, b.instance))
  }

  lemma KeyLessIff(a: Key, b: Key)
    ensures KeyLess(a, b) <==> KeyBefore(a, b)
  {
    LessIff(a.route, b.route);
    LessIff(a.instance, b.instance);
    LessIsStrict(a.route);
  }

  /** Strictly increasing keys, by route and then by instance. */
  ghost predicate InOrder(stats: seq<Stat>) {
    forall i, j | 0 <= i < j < |stats| :: KeyBefore(stats[i].key, stats[j].key)
  }

  lemma {:induction false} TotalConcat(a: seq<Stat>, b: seq<Stat>)
    ensures Total(a + b) == Total(a) + Total(b)
    decreases |b|
  {
    if b == [] {
      assert a + b == a;
    } else {
      var n := |b| - 1;
      assert (a + b)[..|a + b| - 1] == a + b[..n];
      TotalConcat(a, b[..n]);
    }
  }

  /** Puts an entry where its key belongs. */
  method Insert(stats: seq<Stat>, st: Stat) returns (out: seq<Stat>)
    requires InOrder(stats) && st.key !in KeysOf(stats)
    ensures InOrder(out) && KeysOf(out) == KeysOf(stats) + {st.key}
    ensures Total(out) == Total(stats) + st.active
    ensures forall x :: x in out <==> x in stats || x == st
  {
    var k := 0;
    while k < |stats| && KeyLess(stats[k].key, st.key)
      invariant 0 <= k <= |stats|
      invariant forall i | 0 <= i < k :: KeyLess(stats[i].key, st.key)
    {
      k := k + 1;
    }
    InsertedInOrder(stats, st, k);
    InsertedHolds(stats, st, k);
    out := stats[..k] + [st] + stats[k..];
  }

  lemma InsertedHolds(stats: seq<Stat>, st: Stat, k: nat)
    requires k <= |stats|
    ensures var out := stats[..k] + [st] + stats[k..];
            && Total(out) == Total(stats) + st.active
            && (forall x :: x in out <==> x in stats || x == st)
            && KeysOf(out) == KeysOf(stats) + {st.key}
  {
    InsertedTotal(stats, st, k);
    InsertedMembers(stats, st, k);
    var out := stats[..k] + [st] + stats[k..];
    assert KeysOf(out) == KeysOf(stats) + {st.key};
  }

  lemma InsertedTotal(stats: seq<Stat>, st: Stat, k: nat)
    requires k <= |stats|
    ensures Total(stats[..k] + [st] + stats[k..]) == Total(stats) + st.active
  {
    TotalConcat(stats[..k], stats[k..]);
    TotalConcat(stats[..k] + [st], stats[k..]);
    TotalConcat(stats[..k], [st]);
    assert stats == stats[..k] + stats[k..];
    assert [st][..0] == [];
  }

  lemma InsertedMembers(stats: seq<Stat>, st: Stat, k: nat)
    requires k <= |stats|
    ensures forall x :: x in stats[..k] + [st] + stats[k..] <==> x in stats || x == st
  {
    assert stats == stats[..k] + stats[k..];
  }

  lemma InsertedInOrder(stats: seq<Stat>, st: Stat, k: nat)
    requires InOrder(stats) && st.key !in KeysOf(stats) && k <= |stats|
    requires forall i | 0 <= i < k :: KeyLess(stats[i].key, st.key)
    requires k < |stats| ==> !KeyLess(stats[k].key, st.key)
    ensures InOrder(stats[..k] + [st] + stats[k..])
  {
    forall i | 0 <= i < k ensures KeyBefore(stats[i].key, st.key) {
      KeyLessIff(stats[i].key, st.key);
    }
    forall j | k <= j < |stats| ensures KeyBefore(st.key, stats[j].key) {
      assert stats[k] in stats && stats[k].key in KeysOf(stats);
      KeyLessTotal(st.key, stats[k].key);
      if k < j {
        KeyLessIff(stats[k].key, stats[j].key);
        KeyLessTransitive(st.key, stats[k].key, stats[j].key);
      }
      KeyLessIff(st.key, stats[j].key);
    }
  }

  /** The loop over the index, in whatever order the map yields its keys, and the sort. */
  method ListCounts(m: map<Key, nat>) returns (out: seq<Stat>)
    ensures Total(out) == Sum(m)
    ensures KeysOf(out) == m.Keys && InOrder(out)
    ensures forall st | st in out :: st.key in m && st.active == m[st.key]
  {
    out := [];
    var todo := m;
    while todo != map[]
      invariant todo.Keys <= m.Keys && forall k | k in todo :: todo[k] == m[k]
      invariant Total(out) + Sum(todo) == Sum(m)
      invariant KeysOf(out) == m.Keys - todo.Keys && InOrder(out)
      invariant forall st | st in out :: st.key in m && st.active == m[st.key]
      decreases todo.Keys
    {
      var k :| k in todo;
      SumStep(todo, k);
      out := Insert(out, Stat(k, m[k]));
      todo := todo - {k};
    }
  }
}
