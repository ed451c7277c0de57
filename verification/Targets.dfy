/**
 Synchronising an application's deploy targets (syncTargets and validateTarget in
 internal/service/application_service.go) over the target table
 (internal/repository/application_target_repository.go). Environments and instance
 names are as after defaulting and normalisation, which every stored row went through.
 */
module Targets {
  import opened Common

  datatype Key = Key(app: int, env: string, instance: string)

  /** A target row; `details` stands for the columns that no check reads. */
  datatype Target = Target(key: Key, machine: int, port: int, enabled: bool, details: string)

  type Rows = map<nat, Target>

  /** A target that occupies its port on a machine. */
  ghost predicate Occupies(t: Target, machine: int, port: int) {
    t.enabled && t.machine == machine && t.port == port && machine > 0
  }

  /** No two enabled targets share a positive machine id and a port. */
  ghost predicate Exclusive(rows: Rows) {
    forall i, j | i in rows && j in rows && i != j :: !Occupies(rows[j], rows[i].machine, rows[i].port) || !rows[i].enabled
  }

  /** The table's unique index. */
  ghost predicate UniqueKeys(rows: Rows) {
    forall i, j | i in rows && j in rows && i != j :: rows[i].key != rows[j].key
  }

  ghost predicate Inv(rows: Rows, nextId: nat) {
    Exclusive(rows) && UniqueKeys(rows) && forall i | i in rows :: 0 < i < nextId
  }

  ghost predicate Has(rows: Rows, k: Key) {
    exists i | i in rows :: rows[i].key == k
  }

  /** Only the row with `t`'s own key may occupy `t`'s machine port. */
  ghost predicate Free(rows: Rows, t: Target) {
    t.enabled ==> forall i | i in rows && Occupies(rows[i], t.machine, t.port) :: rows[i].key == t.key
  }

  // ------------------------------------------------------------- the table

  class TargetTable {
    var rows: Rows
    var nextId: nat

    ghost predicate Valid()
      reads this
    {
      Inv(rows, nextId) && nextId > 0
    }

    constructor ()
      ensures Valid() && rows == map[]
    {
      rows, nextId := map[], 1;
    }

    method Find(k: Key) returns (id: Option<nat>)
      requires UniqueKeys(rows)
      ensures id.Some? ==> id.value in rows && rows[id.value].key == k
      ensures id.None? ==> !Has(rows, k)
    {
      if exists i | i in rows :: rows[i].key == k {
        var i :| i in rows && rows[i].key == k;
        return Some(i);
      }
      id := None;
    }

    /** Updates the row with the target's key in place, or inserts one. */
    method Upsert(t: Target) returns (id: nat)
      requires Valid() && Free(rows, t)
      modifies this
      ensures Valid() && id in rows && rows == old(rows)[id := t]
      ensures id in old(rows) ==> old(rows)[id].key == t.key
      ensures id !in old(rows) ==> !Has(old(rows), t.key)
    {
      var found := Find(t.key);
      if found.Some? {
        id := found.value;
      } else {
        id := nextId;
        nextId := nextId + 1;
      }
      UpsertKeeps(rows, t, id);
      rows := rows[id := t];
    }

    method Delete(k: Key)
      requires Valid()
      modifies this
      ensures Valid() && nextId == old(nextId)
      ensures forall i :: i in rows <==> i in old(rows) && old(rows)[i].key != k
      ensures forall i | i in rows :: rows[i] == old(rows)[i]
    {
      rows := map i | i in rows && rows[i].key != k :: rows[i];
    }
  }

  lemma UpsertKeeps(rows: Rows, t: Target, id: nat)
    requires Exclusive(rows) && UniqueKeys(rows) && Free(rows, t)
    requires if id in rows then rows[id].key == t.key else !Has(rows, t.key)
    ensures Exclusive(rows[id := t]) && UniqueKeys(rows[id := t])
  {
    forall i | i in rows && i != id ensures rows[i].key != t.key && (t.enabled ==> !Occupies(rows[i], t.machine, t.port)) {
    }
  }

  // ------------------------------------------------------------ validation

  /** A requested target; `checksOk` stands for the request's own checks (env and
      instance name, health check settings, gateway routes). */
  datatype Request = Request(env: string, instance: string, machine: int, port: int, enabled: bool, details: string, checksOk: bool)

  datatype SyncError = DuplicateTarget | InvalidRequest | DuplicatePort | PortOutOfRange | UnknownMachine | WrongMachineType
                     | PortInUse | WriteFailed

  function TargetOf(app: int, r: Request): Target {
    Target(Key(app, r.env, r.instance), r.machine, r.port, r.enabled, r.details)
  }

  /** What validateTarget accepts, on the table as it is before any write. */
  ghost predicate Accepted(rows: Rows, machines: map<int, string>, t: Target) {
    t.enabled ==>
      && 0 < t.port <= 65535
      && (t.machine > 0 ==>
            && t.machine in machines && (machines[t.machine] == "" || machines[t.machine] == t.key.env)
            && Free(rows, t))
  }

  /** The first of a refused target's faults. */
  ghost function Fault(machines: map<int, string>, t: Target): SyncError {
    if !(0 < t.port <= 65535) then PortOutOfRange
    else if t.machine !in machines then UnknownMachine
    else if machines[t.machine] != "" && machines[t.machine] != t.key.env then WrongMachineType
    else PortInUse
  }

  method ValidateTarget(table: TargetTable, machines: map<int, string>, t: Target) returns (e: Option<SyncError>)
    requires table.Valid()
    ensures e.None? <==> Accepted(table.rows, machines, t)
    ensures e.Some? ==> e.value == Fault(machines, t)
  {
    if !t.enabled {
      return None;
    }
    if t.port <= 0 || t.port > 65535 {
      return Some(PortOutOfRange);
    }
    if t.machine <= 0 {
      return None;
    }
    if t.machine !in machines {
      return Some(UnknownMachine);
    }
    if machines[t.machine] != "" && machines[t.machine] != t.key.env {
      return Some(WrongMachineType);
    }
    var own := table.Find(t.key);
    var rows := table.rows;
    if exists i | i in rows :: rows[i].enabled && rows[i].machine == t.machine && rows[i].port == t.port && own != Some(i) {
      ghost var i :| i in rows && rows[i].enabled && rows[i].machine == t.machine && rows[i].port == t.port && own != Some(i);
      assert rows[i].key != t.key && Occupies(rows[i], t.machine, t.port);
      return Some(PortInUse);
    }
    e := None;
  }

  /** Two items never claim the same target or the same machine port. */
  ghost predicate Compatible(a: Target, b: Target) {
    a.key != b.key && !(a.enabled && Occupies(b, a.machine, a.port))
  }

  ghost predicate AllCompatible(items: seq<Target>) {
    forall i, j | 0 <= i < j < |items| :: Compatible(items[i], items[j])
  }

  function Items(app: int, reqs: seq<Request>): seq<Target> {
    seq(|reqs|, i requires 0 <= i < |reqs| => TargetOf(app, reqs[i]))
  }

  /** The whole request is acceptable on the table as it stands. */
  ghost predicate AllAccepted(rows: Rows, machines: map<int, string>, app: int, reqs: seq<Request>) {
    && AllCompatible(Items(app, reqs))
    && forall i | 0 <= i < |reqs| :: reqs[i].checksOk && Accepted(rows, machines, TargetOf(app, reqs[i]))
  }

  lemma AcceptOneMore(rows: Rows, machines: map<int, string>, app: int, reqs: seq<Request>, n: nat)
    requires n < |reqs| && AllAccepted(rows, machines, app, reqs[..n])
    requires reqs[n].checksOk && Accepted(rows, machines, TargetOf(app, reqs[n]))
    requires forall i | 0 <= i < n :: Compatible(TargetOf(app, reqs[i]), TargetOf(app, reqs[n]))
    ensures AllAccepted(rows, machines, app, reqs[..n + 1])
  {
    var some, more := Items(app, reqs[..n]), Items(app, reqs[..n + 1]);
    forall i, j | 0 <= i < j < n + 1 ensures Compatible(more[i], more[j]) {
      if j < n {
        assert some[i] == more[i] && some[j] == more[j];
      }
    }
  }

  /** Request `n` is the first that cannot be accepted, and `e` says why. */
  ghost predicate FaultAt(rows: Rows, machines: map<int, string>, app: int, reqs: seq<Request>, n: nat, e: SyncError) {
    && n < |reqs| && AllAccepted(rows, machines, app, reqs[..n])
    && var t := TargetOf(app, reqs[n]);
    if exists i | 0 <= i < n :: TargetOf(app, reqs[i]).key == t.key then e == DuplicateTarget
    else if !reqs[n].checksOk then e == InvalidRequest
    else if t.enabled && exists i | 0 <= i < n :: reqs[i].enabled && Occupies(TargetOf(app, reqs[i]), t.machine, t.port) then e == DuplicatePort
    else !Accepted(rows, machines, t) && e == Fault(machines, t)
  }

  /** The loop over the requests: nothing is written before all of them passed. */
  method ValidateAll(table: TargetTable, machines: map<int, string>, app: int, reqs: seq<Request>) returns (e: Option<SyncError>)
    requires table.Valid()
    ensures e.None? <==> AllAccepted(table.rows, machines, app, reqs)
    ensures e.Some? ==> exists n :: FaultAt(table.rows, machines, app, reqs, n, e.value)
  {
    var seen: set<Key> := {};
    var seenPorts: set<(int, int)> := {};
    for n := 0 to |reqs|
      invariant seen == set i | 0 <= i < n :: TargetOf(app, reqs[i]).key
      invariant seenPorts == set i | 0 <= i < n && reqs[i].enabled && reqs[i].machine > 0 :: (reqs[i].machine, reqs[i].port)
      invariant AllAccepted(table.rows, machines, app, reqs[..n])
    {
      var r := reqs[n];
      var t := TargetOf(app, r);
      ghost var items := Items(app, reqs);
      assert items[n] == t;
      if t.key in seen {
        ghost var i :| 0 <= i < n && TargetOf(app, reqs[i]).key == t.key;
        assert !Compatible(items[i], items[n]);
        assert FaultAt(table.rows, machines, app, reqs, n, DuplicateTarget);
        return Some(DuplicateTarget);
      }
      seen := seen + {t.key};
      if !r.checksOk {
        assert FaultAt(table.rows, machines, app, reqs, n, InvalidRequest);
        return Some(InvalidRequest);
      }
      if t.enabled && t.machine > 0 {
        if (t.machine, t.port) in seenPorts {
          ghost var i :| 0 <= i < n && reqs[i].enabled && reqs[i].machine > 0 && (reqs[i].machine, reqs[i].port) == (t.machine, t.port);
          assert !Compatible(items[i], items[n]);
          assert Occupies(TargetOf(app, reqs[i]), t.machine, t.port);
          assert FaultAt(table.rows, machines, app, reqs, n, DuplicatePort);
          return Some(DuplicatePort);
        }
        seenPorts := seenPorts + {(t.machine, t.port)};
      }
      e := ValidateTarget(table, machines, t);
      if e.Some? {
        assert FaultAt(table.rows, machines, app, reqs, n, e.value);
        return;
      }
      forall i | 0 <= i < n ensures Compatible(TargetOf(app, reqs[i]), t) {
        assert TargetOf(app, reqs[i]).key in seen;
      }
      AcceptOneMore(table.rows, machines, app, reqs, n);
    }
    assert reqs[..|reqs|] == reqs;
    e := None;
  }

  // ------------------------------------------------------------- the writes

  lemma StaysFree(rows: Rows, id: nat, written: Target, t: Target)
    requires Free(rows, t) && Compatible(written, t)
    ensures Free(rows[id := written], t)
  {
  }

  /** Rows of other applications are the same in both tables. */
  ghost predicate SameElsewhere(before: Rows, after: Rows, app: int) {
    && (forall i | i in before && before[i].key.app != app :: i in after && after[i] == before[i])
    && (forall i | i in after && after[i].key.app != app :: i in before && after[i] == before[i])
  }

  function KeysOf(items: seq<Target>): set<Key> {
    set t | t in items :: t.key
  }

  ghost predicate Stored(rows: Rows, t: Target) {
    exists i | i in rows :: rows[i] == t
  }

  /** The first items are stored; rows with no such key are as they were. */
  ghost predicate Progress(before: Rows, rows: Rows, app: int, done: seq<Target>) {
    && SameElsewhere(before, rows, app)
    && (forall t | t in done :: Stored(rows, t))
    && (forall i | i in rows && rows[i].key !in KeysOf(done) :: i in before && rows[i] == before[i])
    && (forall i | i in before :: i in rows && rows[i].key == before[i].key)
  }

  lemma UpsertProgress(before: Rows, rows: Rows, app: int, done: seq<Target>, t: Target, id: nat)
    requires Progress(before, rows, app, done) && t.key.app == app && t.key !in KeysOf(done)
    requires if id in rows then rows[id].key == t.key else !Has(rows, t.key)
    requires id !in rows ==> id !in before
    ensures Progress(before, rows[id := t], app, done + [t])
  {
    var rows', done' := rows[id := t], done + [t];
    forall u | u in done' ensures Stored(rows', u) {
      if u in done {
        StoredStays(rows, u, id, t, done);
      } else {
        assert rows'[id] == u;
      }
    }
    assert KeysOf(done') == KeysOf(done) + {t.key};
    UpsertElsewhere(before, rows, app, t, id);
  }

  lemma UpsertElsewhere(before: Rows, rows: Rows, app: int, t: Target, id: nat)
    requires SameElsewhere(before, rows, app) && t.key.app == app
    requires id in rows ==> rows[id].key == t.key
    requires forall i | i in before :: i in rows && rows[i].key == before[i].key
    ensures SameElsewhere(before, rows[id := t], app)
  {
  }

  lemma StoredStays(rows: Rows, u: Target, id: nat, t: Target, done: seq<Target>)
    requires Stored(rows, u) && u in done && t.key !in KeysOf(done) && (id in rows ==> rows[id].key == t.key)
    ensures Stored(rows[id := t], u)
  {
    var i :| i in rows && rows[i] == u;
    assert u.key in KeysOf(done);
    assert i in rows[id := t] && rows[id := t][i] == u;
  }

  lemma UpsertStep(before: Rows, rows: Rows, app: int, items: seq<Target>, n: nat, id: nat)
    requires AllCompatible(items) && n < |items| && items[n].key.app == app
    requires Progress(before, rows, app, items[..n])
    requires forall k | n <= k < |items| :: Free(rows, items[k])
    requires if id in rows then rows[id].key == items[n].key else !Has(rows, items[n].key)
    ensures Progress(before, rows[id := items[n]], app, items[..n + 1])
    ensures forall k | n < k < |items| :: Free(rows[id := items[n]], items[k])
  {
    forall k | 0 <= k < n ensures items[k].key != items[n].key {
      assert Compatible(items[k], items[n]);
    }
    UpsertProgress(before, rows, app, items[..n], items[n], id);
    assert items[..n] + [items[n]] == items[..n + 1];
    LaterStayFree(rows, items, n, id);
  }

  lemma LaterStayFree(rows: Rows, items: seq<Target>, n: nat, id: nat)
    requires AllCompatible(items) && n < |items| && forall k | n <= k < |items| :: Free(rows, items[k])
    ensures forall k | n < k < |items| :: Free(rows[id := items[n]], items[k])
  {
    forall k | n < k < |items| ensures Free(rows[id := items[n]], items[k]) {
      assert Compatible(items[n], items[k]);
      StaysFree(rows, id, items[n], items[k]);
    }
  }

  /** The first write loop. It may fail at any write; the table stays exclusive. */
  method UpsertAll(table: TargetTable, app: int, items: seq<Target>, writes: nat) returns (left: nat, ok: bool)
    requires table.Valid() && AllCompatible(items)
    requires forall k | 0 <= k < |items| :: items[k].key.app == app && Free(table.rows, items[k])
    modifies table
    ensures table.Valid() && SameElsewhere(old(table.rows), table.rows, app)
    ensures ok <==> writes >= |items|
    ensures Progress(old(table.rows), table.rows, app, if ok then items else items[..writes])
    ensures ok ==> left == writes - |items|
  {
    left, ok := writes, true;
    ghost var before := table.rows;
    for n := 0 to |items|
      invariant table.Valid() && Progress(before, table.rows, app, items[..n]) && left == writes - n && ok
      invariant forall k | n <= k < |items| :: Free(table.rows, items[k])
    {
      if left == 0 {
        ok := false;
        return;
      }
      left := left - 1;
      ghost var rows := table.rows;
      var id := table.Upsert(items[n]);
      UpsertStep(before, rows, app, items, n, id);
    }
    assert items[..|items|] == items;
  }

  /** The table after a completed call: the application's rows are exactly the
      requested targets, rows that were there keep their ids, and the rest is as before. */
  ghost predicate Synced(before: Rows, after: Rows, app: int, items: seq<Target>) {
    && SameElsewhere(before, after, app)
    && (forall t | t in items :: Stored(after, t))
    && (forall i | i in after && after[i].key.app == app :: after[i] in items)
    && (forall i | i in before && before[i].key in KeysOf(items) :: i in after && after[i].key == before[i].key)
  }

  /** During the deletes, `rows` is what is left of `start`: all of it except rows
      of the application whose keys are neither requested nor still to be deleted. */
  ghost predicate Deleting(start: Rows, rows: Rows, app: int, seen: set<Key>, todo: set<Key>) {
    && (forall k | k in todo :: k.app == app && k !in seen)
    && (forall i | i in rows :: i in start && rows[i] == start[i])
    && (forall i | i in start :: i in rows <==> Remains(start[i].key, app, seen, todo))
  }

  predicate Remains(k: Key, app: int, seen: set<Key>, todo: set<Key>) {
    k.app != app || k in seen || k in todo
  }

  lemma DeleteStep(start: Rows, rows: Rows, rows': Rows, app: int, seen: set<Key>, todo: set<Key>, k: Key)
    requires Deleting(start, rows, app, seen, todo) && k in todo
    requires forall i :: i in rows' <==> i in rows && rows[i].key != k
    requires forall i | i in rows' :: rows'[i] == rows[i]
    ensures Deleting(start, rows', app, seen, todo - {k})
  {
    forall i | i in start ensures i in rows' <==> Remains(start[i].key, app, seen, todo - {k}) {
      if i in rows {
        assert rows[i] == start[i];
      }
    }
  }

  function Unrequested(rows: Rows, app: int, seen: set<Key>): set<Key> {
    set i | i in rows && rows[i].key.app == app && rows[i].key !in seen :: rows[i].key
  }

  lemma SameUnrequested(before: Rows, rows: Rows, app: int, items: seq<Target>)
    requires Progress(before, rows, app, items)
    ensures Unrequested(rows, app, KeysOf(items)) == Unrequested(before, app, KeysOf(items))
  {
    var seen := KeysOf(items);
    forall k | k in Unrequested(before, app, seen) ensures k in Unrequested(rows, app, seen) {
      var i :| i in before && before[i].key == k;
      assert i in rows && rows[i].key == k;
    }
    forall k | k in Unrequested(rows, app, seen) ensures k in Unrequested(before, app, seen) {
      var i :| i in rows && rows[i].key == k;
      assert i in before && before[i].key == k;
    }
  }

  lemma DeletingStarts(rows: Rows, app: int, seen: set<Key>)
    ensures Deleting(rows, rows, app, seen, Unrequested(rows, app, seen))
  {
  }

  lemma DeletingSpares(before: Rows, start: Rows, rows: Rows, app: int, seen: set<Key>, todo: set<Key>)
    requires SameElsewhere(before, start, app) && Deleting(start, rows, app, seen, todo)
    ensures SameElsewhere(before, rows, app)
  {
    forall i | i in before && before[i].key.app != app ensures i in rows && rows[i] == before[i] {
      assert i in start && start[i] == before[i];
    }
  }

  /** The second write loop: rows of the application that were not requested go. */
  method DeleteOthers(table: TargetTable, app: int, ghost before: Rows, items: seq<Target>, writes: nat) returns (ok: bool)
    requires table.Valid() && Progress(before, table.rows, app, items)
    requires forall t | t in items :: t.key.app == app
    modifies table
    ensures table.Valid() && SameElsewhere(before, table.rows, app)
    ensures forall i | i in table.rows :: i in old(table.rows) && table.rows[i] == old(table.rows)[i]
    ensures forall t | t in items :: Stored(table.rows, t)
    ensures ok ==> Synced(before, table.rows, app, items)
    ensures ok <==> writes >= |Unrequested(old(table.rows), app, KeysOf(items))|
  {
    ghost var start := table.rows;
    var left: nat := writes;
    var seen := KeysOf(items);
    var todo := Unrequested(table.rows, app, seen);
    DeletingStarts(start, app, seen);
    while todo != {}
      invariant table.Valid() && Deleting(start, table.rows, app, seen, todo)
      invariant left - |todo| == writes - |Unrequested(start, app, seen)|
      decreases todo
    {
      if left == 0 {
        DeletingSpares(before, start, table.rows, app, seen, todo);
        DeletingKeepsRequested(before, start, table.rows, app, items, todo);
        assert |todo| > 0;
        return false;
      }
      left := left - 1;
      var k :| k in todo;
      ghost var rows := table.rows;
      table.Delete(k);
      DeleteStep(start, rows, table.rows, app, seen, todo, k);
      todo := todo - {k};
    }
    ok := true;
    DeletingSpares(before, start, table.rows, app, seen, todo);
    SyncedAtEnd(before, start, table.rows, app, items);
  }

  lemma DeletingKeepsRequested(before: Rows, start: Rows, rows: Rows, app: int, items: seq<Target>, todo: set<Key>)
    requires Progress(before, start, app, items) && Deleting(start, rows, app, KeysOf(items), todo)
    ensures forall t | t in items :: Stored(rows, t)
  {
    forall t | t in items ensures Stored(rows, t) {
      var i :| i in start && start[i] == t;
      assert t.key in KeysOf(items);
      assert i in rows && rows[i] == t;
    }
  }

  lemma SyncedAtEnd(before: Rows, mid: Rows, after: Rows, app: int, items: seq<Target>)
    requires Progress(before, mid, app, items) && UniqueKeys(mid)
    requires forall t | t in items :: t.key.app == app
    requires Deleting(mid, after, app, KeysOf(items), {})
    ensures Synced(before, after, app, items)
  {
    DeletingSpares(before, mid, after, app, KeysOf(items), {});
    DeletingKeepsRequested(before, mid, after, app, items, {});
    forall i | i in after && after[i].key.app == app ensures after[i] in items {
      var t :| t in items && t.key == after[i].key;
      var j :| j in mid && mid[j] == t;
      assert i == j;
    }
  }

  /** The row a request asks for. */
  ghost predicate IsRowFor(t: Target, app: int, r: Request) {
    && t.key.app == app && t.key.env == r.env && t.key.instance == r.instance
    && t.machine == r.machine && t.port == r.port && t.enabled == r.enabled && t.details == r.details
  }

  lemma SyncedRows(before: Rows, after: Rows, app: int, reqs: seq<Request>)
    requires Synced(before, after, app, Items(app, reqs))
    ensures forall r | r in reqs :: exists i | i in after :: IsRowFor(after[i], app, r)
    ensures forall i | i in after && after[i].key.app == app :: exists r | r in reqs :: IsRowFor(after[i], app, r)
  {
    var items := Items(app, reqs);
    forall r | r in reqs ensures exists i | i in after :: IsRowFor(after[i], app, r) {
      var k :| 0 <= k < |reqs| && reqs[k] == r;
      assert items[k] in items;
      var i :| i in after && after[i] == items[k];
      assert IsRowFor(after[i], app, r);
    }
    forall i | i in after && after[i].key.app == app ensures exists r | r in reqs :: IsRowFor(after[i], app, r) {
      var k :| 0 <= k < |items| && items[k] == after[i];
      assert reqs[k] in reqs && IsRowFor(after[i], app, reqs[k]);
    }
  }

  /** As many of the items as there were writes are stored. */
  ghost predicate FirstStored(rows: Rows, items: seq<Target>, writes: nat) {
    forall k | 0 <= k < |items| && k < writes :: Stored(rows, items[k])
  }

  lemma ProgressStores(before: Rows, rows: Rows, app: int, items: seq<Target>, writes: nat)
    requires Progress(before, rows, app, if writes < |items| then items[..writes] else items)
    ensures FirstStored(rows, items, writes)
  {
    var done := if writes < |items| then items[..writes] else items;
    forall k | 0 <= k < |items| && k < writes ensures Stored(rows, items[k]) {
      assert done[k] == items[k];
    }
  }

  /** The two write loops, with the route writes (`routesOk`) between them. */
  method WriteItems(table: TargetTable, app: int, items: seq<Target>, routesOk: bool, writes: nat) returns (ok: bool)
    requires table.Valid() && AllCompatible(items)
    requires forall k | 0 <= k < |items| :: items[k].key.app == app && Free(table.rows, items[k])
    modifies table
    ensures table.Valid() && SameElsewhere(old(table.rows), table.rows, app)
    ensures FirstStored(table.rows, items, writes)
    ensures ok <==> routesOk && writes >= |items| + |Unrequested(old(table.rows), app, KeysOf(items))|
    ensures ok ==> Synced(old(table.rows), table.rows, app, items)
  {
    ghost var before := table.rows;
    var left;
    left, ok := UpsertAll(table, app, items, writes);
    ProgressStores(before, table.rows, app, items, writes);
    if !ok || !routesOk {
      return false;
    }
    SameUnrequested(before, table.rows, app, items);
    ok := DeleteOthers(table, app, before, items, left);
  }

  /**
   syncTargets, alone on the table. Its table writes (and the route writes between
   them, `routesOk`) may fail at any point: the table is then still exclusive and
   other applications' rows are untouched. A request that is not accepted writes
   nothing and is told the first fault; one that completes leaves exactly the requested
   targets.
   */
  method SyncTargets(table: TargetTable, machines: map<int, string>, app: int, reqs: seq<Request>, routesOk: bool, writes: nat)
    returns (e: Option<SyncError>)
    requires table.Valid()
    modifies table
    ensures table.Valid() && Exclusive(table.rows) && SameElsewhere(old(table.rows), table.rows, app)
    ensures !AllAccepted(old(table.rows), machines, app, reqs) ==>
              && table.rows == old(table.rows)
              && e.Some? && exists n :: FaultAt(old(table.rows), machines, app, reqs, n, e.value)
    ensures AllAccepted(old(table.rows), machines, app, reqs) ==>
              && FirstStored(table.rows, Items(app, reqs), writes)
              && (e.None? || e.value == WriteFailed)
    ensures e.None? <==> AllAccepted(old(table.rows), machines, app, reqs) && routesOk
                         && writes >= |reqs| + |Unrequested(old(table.rows), app, KeysOf(Items(app, reqs)))|
    ensures e.None? ==> Synced(old(table.rows), table.rows, app, Items(app, reqs))
    ensures e.None? ==> forall r | r in reqs :: exists i | i in table.rows :: IsRowFor(table.rows[i], app, r)
    ensures e.None? ==> forall i | i in table.rows && table.rows[i].key.app == app :: exists r | r in reqs :: IsRowFor(table.rows[i], app, r)
  {
    ghost var before := table.rows;
    e := ValidateAll(table, machines, app, reqs);
    if e.Some? {
      return;
    }
    var items := Items(app, reqs);
    forall k | 0 <= k < |items| ensures items[k].key.app == app && Free(table.rows, items[k]) {
      assert Accepted(table.rows, machines, TargetOf(app, reqs[k]));
    }
    var ok := WriteItems(table, app, items, routesOk, writes);
    if !ok {
      return Some(WriteFailed);
    }
    SyncedRows(before, table.rows, app, reqs);
  }

  // ------------------------------------------------- every single write

  /** An upsert goes to the row with its key, or to a new one if there is none. */
  ghost predicate IsUpsert(rows: Rows, t: Target, rows': Rows) {
    exists id: nat :: rows' == rows[id := t] && if id in rows then rows[id].key == t.key else !Has(rows, t.key)
  }

  /** The tables between the upserts of a call, the first being the one it started on. */
  ghost predicate AreUpserts(tables: seq<Rows>, items: seq<Target>) {
    |tables| == |items| + 1 && forall k | 0 <= k < |items| :: IsUpsert(tables[k], items[k], tables[k + 1])
  }

  lemma {:induction false} UpsertsStayExclusive(tables: seq<Rows>, items: seq<Target>, n: nat)
    requires AreUpserts(tables, items) && AllCompatible(items) && n <= |items|
    requires Exclusive(tables[0]) && UniqueKeys(tables[0]) && forall k | 0 <= k < |items| :: Free(tables[0], items[k])
    ensures Exclusive(tables[n]) && UniqueKeys(tables[n]) && forall k | n <= k < |items| :: Free(tables[n], items[k])
    decreases n
  {
    if n > 0 {
      var m := n - 1;
      UpsertsStayExclusive(tables, items, m);
      assert IsUpsert(tables[m], items[m], tables[n]);
      var id: nat :| tables[n] == tables[m][id := items[m]]
                     && if id in tables[m] then tables[m][id].key == items[m].key else !Has(tables[m], items[m].key);
      UpsertKeeps(tables[m], items[m], id);
      forall k | n <= k < |items| ensures Free(tables[n], items[k]) {
        assert Compatible(items[m], items[k]);
        StaysFree(tables[m], id, items[m], items[k]);
      }
    }
  }

  /** An accepted request keeps machine ports exclusive after each of its upserts,
      and so does any deletion of rows after them. */
  lemma EveryWriteIsExclusive(tables: seq<Rows>, machines: map<int, string>, app: int, reqs: seq<Request>, n: nat, kept: Rows)
    requires AreUpserts(tables, Items(app, reqs)) && n <= |reqs|
    requires Exclusive(tables[0]) && UniqueKeys(tables[0]) && AllAccepted(tables[0], machines, app, reqs)
    requires forall i | i in kept :: i in tables[n] && kept[i] == tables[n][i]
    ensures Exclusive(tables[n]) && Exclusive(kept)
  {
    var items := Items(app, reqs);
    forall k | 0 <= k < |items| ensures Free(tables[0], items[k]) {
      assert Accepted(tables[0], machines, TargetOf(app, reqs[k]));
    }
    UpsertsStayExclusive(tables, items, n);
  }

  // --------------------------------------------------- calls that interleave

  datatype TableWrite = Put(t: Target) | Drop(k: Key)

  ghost predicate IsWrite(rows: Rows, w: TableWrite, rows': Rows) {
    match w
    case Put(t) => IsUpsert(rows, t, rows')
    case Drop(k) => rows' == map i | i in rows && rows[i].key != k :: rows[i]
  }

  /** The tables between the writes, the first being the one before all of them. */
  ghost predicate AreWrites(tables: seq<Rows>, writes: seq<TableWrite>) {
    |tables| == |writes| + 1 && forall n | 0 <= n < |writes| :: WriteAt(tables, writes, n)
  }

  ghost predicate WriteAt(tables: seq<Rows>, writes: seq<TableWrite>, n: nat)
    requires n < |writes| == |tables| - 1
  {
    IsWrite(tables[n], writes[n], tables[n + 1])
  }

  function KeyOf(w: TableWrite): Key {
    match w case Put(t) => t.key case Drop(k) => k
  }

  /** Write `k` is the last of the first `n` for its key. */
  ghost predicate LastFor(writes: seq<TableWrite>, n: nat, k: int) {
    0 <= k < n <= |writes| && forall j | k < j < n :: KeyOf(writes[j]) != KeyOf(writes[k])
  }

  ghost predicate LastPut(writes: seq<TableWrite>, n: nat, k: int) {
    LastFor(writes, n, k) && writes[k].Put?
  }

  ghost predicate Untouched(writes: seq<TableWrite>, n: nat, key: Key)
    requires n <= |writes|
  {
    forall j | 0 <= j < n :: KeyOf(writes[j]) != key
  }

  /** A row of the table after `n` writes: the last put for its key, or as it was. */
  ghost predicate Explained(start: Rows, writes: seq<TableWrite>, n: nat, i: nat, row: Target)
    requires n <= |writes|
  {
    || (exists k :: LastPut(writes, n, k) && writes[k].t == row)
    || (i in start && start[i] == row && Untouched(writes, n, row.key))
  }

  /** The table after `n` writes holds exactly the last puts and the untouched rows. */
  ghost predicate Described(start: Rows, writes: seq<TableWrite>, n: nat, rows: Rows)
    requires n <= |writes|
  {
    && UniqueKeys(rows)
    && (forall i | i in rows :: Explained(start, writes, n, i, rows[i]))
    && (forall k | LastPut(writes, n, k) :: Stored(rows, writes[k].t))
  }

  lemma StaysExplained(start: Rows, writes: seq<TableWrite>, n: nat, i: nat, row: Target)
    requires n < |writes| && Explained(start, writes, n, i, row) && KeyOf(writes[n]) != row.key
    ensures Explained(start, writes, n + 1, i, row)
  {
    if exists k :: LastPut(writes, n, k) && writes[k].t == row {
      var k :| LastPut(writes, n, k) && writes[k].t == row;
      assert LastPut(writes, n + 1, k);
    }
  }

  lemma KeepsStored(rows: Rows, w: TableWrite, rows': Rows, u: Target)
    requires IsWrite(rows, w, rows') && Stored(rows, u) && u.key != KeyOf(w)
    ensures Stored(rows', u)
  {
    var i :| i in rows && rows[i] == u;
    assert i in rows' && rows'[i] == u;
  }

  lemma LastPutsStored(start: Rows, writes: seq<TableWrite>, n: nat, rows: Rows, rows': Rows, k: int)
    requires n < |writes| && Described(start, writes, n, rows) && IsWrite(rows, writes[n], rows') && LastPut(writes, n + 1, k)
    ensures Stored(rows', writes[k].t)
  {
    if k < n {
      assert LastPut(writes, n, k) && KeyOf(writes[n]) != KeyOf(writes[k]);
      KeepsStored(rows, writes[n], rows', writes[k].t);
    } else {
      var id: nat :| rows' == rows[id := writes[n].t];
      assert rows'[id] == writes[n].t;
    }
  }

  /** The row a put writes has a key that no other row has. */
  lemma PutIsAlone(rows: Rows, t: Target, rows': Rows) returns (id: nat)
    requires UniqueKeys(rows) && IsUpsert(rows, t, rows')
    ensures rows' == rows[id := t] && UniqueKeys(rows') && forall i | i in rows && i != id :: rows[i].key != t.key
  {
    id :| rows' == rows[id := t] && if id in rows then rows[id].key == t.key else !Has(rows, t.key);
  }

  lemma WriteExplained(start: Rows, writes: seq<TableWrite>, n: nat, rows: Rows, rows': Rows)
    requires n < |writes| && Described(start, writes, n, rows) && IsWrite(rows, writes[n], rows')
    ensures UniqueKeys(rows') && forall i | i in rows' :: Explained(start, writes, n + 1, i, rows'[i])
  {
    var w := writes[n];
    if w.Put? {
      var id := PutIsAlone(rows, w.t, rows');
      assert LastPut(writes, n + 1, n);
      forall i | i in rows' ensures Explained(start, writes, n + 1, i, rows'[i]) {
        if i != id {
          StaysExplained(start, writes, n, i, rows[i]);
        }
      }
    } else {
      forall i | i in rows' ensures Explained(start, writes, n + 1, i, rows'[i]) {
        StaysExplained(start, writes, n, i, rows[i]);
      }
    }
  }

  lemma WriteDescribed(start: Rows, writes: seq<TableWrite>, n: nat, rows: Rows, rows': Rows)
    requires n < |writes| && Described(start, writes, n, rows) && IsWrite(rows, writes[n], rows')
    ensures Described(start, writes, n + 1, rows')
  {
    WriteExplained(start, writes, n, rows, rows');
    forall k | LastPut(writes, n + 1, k) ensures Stored(rows', writes[k].t) {
      LastPutsStored(start, writes, n, rows, rows', k);
    }
  }

  lemma {:induction false} WritesDescribed(tables: seq<Rows>, writes: seq<TableWrite>, n: nat)
    requires AreWrites(tables, writes) && UniqueKeys(tables[0]) && n <= |writes|
    ensures Described(tables[0], writes, n, tables[n])
    decreases n
  {
    if n > 0 {
      WritesDescribed(tables, writes, n - 1);
      assert WriteAt(tables, writes, n - 1);
      WriteDescribed(tables[0], writes, n - 1, tables[n - 1], tables[n]);
    }
  }

  /** No two surviving puts claim one machine port. */
  ghost predicate LastPutsCompatible(writes: seq<TableWrite>) {
    forall k, l | LastPut(writes, |writes|, k) && LastPut(writes, |writes|, l) && k != l :: Compatible(writes[k].t, writes[l].t)
  }

  /** Every put was free of conflicts on some table before it was made. */
  ghost predicate CheckedFree(tables: seq<Rows>, writes: seq<TableWrite>)
    requires |tables| == |writes| + 1
  {
    forall k | 0 <= k < |writes| && writes[k].Put? :: exists m | 0 <= m <= k :: Free(tables[m], writes[k].t)
  }

  lemma {:induction false} UntouchedStays(tables: seq<Rows>, writes: seq<TableWrite>, n: nat, i: nat)
    requires AreWrites(tables, writes) && n <= |writes| && i in tables[0] && Untouched(writes, n, tables[0][i].key)
    ensures i in tables[n] && tables[n][i] == tables[0][i]
    decreases n
  {
    if n > 0 {
      UntouchedStays(tables, writes, n - 1, i);
      assert WriteAt(tables, writes, n - 1) && KeyOf(writes[n - 1]) != tables[0][i].key;
    }
  }

  /** A put never shares a port with a row that no write touches. */
  lemma PutSparesUntouched(tables: seq<Rows>, writes: seq<TableWrite>, k: nat, i: nat)
    requires AreWrites(tables, writes) && CheckedFree(tables, writes) && k < |writes| && writes[k].Put?
    requires i in tables[0] && Untouched(writes, |writes|, tables[0][i].key)
    ensures Compatible(writes[k].t, tables[0][i])
  {
    var m :| 0 <= m <= k && Free(tables[m], writes[k].t);
    UntouchedStays(tables, writes, m, i);
  }

  /** Two rows that are both explained do not share a port. */
  lemma ExplainedApart(tables: seq<Rows>, writes: seq<TableWrite>, i: nat, s: Target, j: nat, t: Target)
    requires AreWrites(tables, writes) && Exclusive(tables[0]) && CheckedFree(tables, writes) && LastPutsCompatible(writes)
    requires Explained(tables[0], writes, |writes|, i, s) && Explained(tables[0], writes, |writes|, j, t) && i != j && s.key != t.key
    ensures Compatible(s, t)
  {
    var n := |writes|;
    if k :| LastPut(writes, n, k) && writes[k].t == s {
      if l :| LastPut(writes, n, l) && writes[l].t == t {
        assert Compatible(writes[k].t, writes[l].t);
      } else {
        PutSparesUntouched(tables, writes, k, j);
      }
    } else if l :| LastPut(writes, n, l) && writes[l].t == t {
      PutSparesUntouched(tables, writes, l, i);
    }
  }

  lemma StoredCollide(rows: Rows, s: Target, t: Target)
    requires Stored(rows, s) && Stored(rows, t) && s.key != t.key && !Compatible(s, t)
    ensures !Exclusive(rows)
  {
    var i :| i in rows && rows[i] == s;
    var j :| j in rows && rows[j] == t;
    assert i != j && Occupies(rows[j], rows[i].machine, rows[i].port);
  }

  /**
   Upserts, each free of conflicts on some table before it, and deletes, of any keys, in
   any order and repeatedly: the table they leave is exclusive if and only if no two puts
   that are the last write for their key claim one machine port.
   */
  lemma WritesExclusiveIff(tables: seq<Rows>, writes: seq<TableWrite>)
    requires AreWrites(tables, writes) && Exclusive(tables[0]) && UniqueKeys(tables[0]) && CheckedFree(tables, writes)
    ensures Exclusive(tables[|writes|]) <==> LastPutsCompatible(writes)
  {
    var n := |writes|;
    WritesDescribed(tables, writes, n);
    var rows := tables[n];
    if LastPutsCompatible(writes) {
      forall i, j | i in rows && j in rows && i != j
        ensures !Occupies(rows[j], rows[i].machine, rows[i].port) || !rows[i].enabled
      {
        ExplainedApart(tables, writes, i, rows[i], j, rows[j]);
      }
    } else {
      var k, l :| LastPut(writes, n, k) && LastPut(writes, n, l) && k != l && !Compatible(writes[k].t, writes[l].t);
      StoredCollide(rows, writes[k].t, writes[l].t);
    }
  }

  // ------------------------------------------------------ two calls at once

  /** A call: the application, what it asks for, and how many writes had been made when
      its validation read the table. */
  datatype Call = Call(app: int, reqs: seq<Request>, checkedAt: nat)

  function Wanted(c: Call): seq<Target> {
    Items(c.app, c.reqs)
  }

  /** The writes of two calls in some order: every requested target is put, by a call
      that has validated it, and each call drops only keys of its own application that it
      did not request. */
  ghost predicate TwoCalls(writes: seq<TableWrite>, c: Call, d: Call) {
    && (forall i | 0 <= i < |writes| && writes[i].Put? ::
          (writes[i].t in Wanted(c) && c.checkedAt <= i) || (writes[i].t in Wanted(d) && d.checkedAt <= i))
    && (forall t | t in Wanted(c) || t in Wanted(d) :: Put(t) in writes)
    && (forall i | 0 <= i < |writes| && writes[i].Drop? :: MayDrop(c, writes[i].k) || MayDrop(d, writes[i].k))
  }

  ghost predicate MayDrop(c: Call, k: Key) {
    k.app == c.app && k !in KeysOf(Wanted(c))
  }

  /** The call was accepted on the table that its validation read. */
  ghost predicate CallAccepted(tables: seq<Rows>, machines: map<int, string>, c: Call) {
    c.checkedAt < |tables| && AllAccepted(tables[c.checkedAt], machines, c.app, c.reqs)
  }

  /** No surviving target of one request claims a machine port of a surviving other one. */
  ghost predicate SurvivorsApart(writes: seq<TableWrite>, a: seq<Target>, b: seq<Target>) {
    forall k, l | LastPut(writes, |writes|, k) && LastPut(writes, |writes|, l) && k != l && writes[k].t in a && writes[l].t in b ::
      Compatible(writes[k].t, writes[l].t)
  }

  /** Two different targets of a compatible request are compatible. */
  lemma CompatibleMembers(items: seq<Target>, s: Target, t: Target)
    requires AllCompatible(items) && s in items && t in items && s != t
    ensures Compatible(s, t)
  {
    var i :| 0 <= i < |items| && items[i] == s;
    var j :| 0 <= j < |items| && items[j] == t;
    if i < j {
      assert Compatible(items[i], items[j]);
    } else {
      assert Compatible(items[j], items[i]);
    }
  }

  lemma SurvivorsIff(writes: seq<TableWrite>, c: Call, d: Call)
    requires TwoCalls(writes, c, d) && AllCompatible(Wanted(c)) && AllCompatible(Wanted(d))
    ensures LastPutsCompatible(writes) <==> SurvivorsApart(writes, Wanted(c), Wanted(d))
  {
    var n, a, b := |writes|, Wanted(c), Wanted(d);
    if SurvivorsApart(writes, a, b) {
      forall k, l | LastPut(writes, n, k) && LastPut(writes, n, l) && k != l ensures Compatible(writes[k].t, writes[l].t) {
        var s, t := writes[k].t, writes[l].t;
        assert s.key != t.key;
        if s in a && t in a {
          CompatibleMembers(a, s, t);
        } else if s in b && t in b {
          CompatibleMembers(b, s, t);
        } else if s in a {
          assert Compatible(writes[k].t, writes[l].t);
        } else {
          assert Compatible(writes[l].t, writes[k].t);
        }
      }
    }
  }

  lemma AcceptedIsFree(rows: Rows, machines: map<int, string>, app: int, reqs: seq<Request>, t: Target)
    requires AllAccepted(rows, machines, app, reqs) && t in Items(app, reqs)
    ensures Free(rows, t)
  {
    var i :| 0 <= i < |reqs| && Items(app, reqs)[i] == t;
    assert Accepted(rows, machines, TargetOf(app, reqs[i]));
  }

  lemma CallsCheckedFree(tables: seq<Rows>, writes: seq<TableWrite>, machines: map<int, string>, c: Call, d: Call)
    requires AreWrites(tables, writes) && TwoCalls(writes, c, d)
    requires CallAccepted(tables, machines, c) && CallAccepted(tables, machines, d)
    ensures CheckedFree(tables, writes)
  {
    forall k | 0 <= k < |writes| && writes[k].Put? ensures exists m | 0 <= m <= k :: Free(tables[m], writes[k].t) {
      var own := if writes[k].t in Wanted(c) && c.checkedAt <= k then c else d;
      AcceptedIsFree(tables[own.checkedAt], machines, own.app, own.reqs, writes[k].t);
      assert Free(tables[own.checkedAt], writes[k].t);
    }
  }

  /**
   Two calls, for one application or two, each accepted on the table its validation
   read, at whatever moment, whose writes interleave in any order: the table they leave is
   exclusive if and only if no target of one that survives claims a machine port of a
   surviving target of the other.
   */
  lemma ConcurrentSyncsExclusiveIff(tables: seq<Rows>, writes: seq<TableWrite>, machines: map<int, string>, c: Call, d: Call)
    requires AreWrites(tables, writes) && TwoCalls(writes, c, d) && Exclusive(tables[0]) && UniqueKeys(tables[0])
    requires CallAccepted(tables, machines, c) && CallAccepted(tables, machines, d)
    ensures Exclusive(tables[|writes|]) <==> SurvivorsApart(writes, Wanted(c), Wanted(d))
  {
    CallsCheckedFree(tables, writes, machines, c, d);
    SurvivorsIff(writes, c, d);
    WritesExclusiveIff(tables, writes);
  }

  /** One request saved twice, at whatever moments, leaves the table exclusive. */
  lemma SavedTwiceIsExclusive(tables: seq<Rows>, writes: seq<TableWrite>, machines: map<int, string>, c: Call, d: Call)
    requires AreWrites(tables, writes) && TwoCalls(writes, c, d) && Exclusive(tables[0]) && UniqueKeys(tables[0])
    requires CallAccepted(tables, machines, c) && CallAccepted(tables, machines, d)
    requires c.app == d.app && c.reqs == d.reqs
    ensures Exclusive(tables[|writes|])
  {
    var a, n := Wanted(c), |writes|;
    forall k, l | LastPut(writes, n, k) && LastPut(writes, n, l) && k != l && writes[k].t in a && writes[l].t in a
      ensures Compatible(writes[k].t, writes[l].t)
    {
      assert writes[k].t.key != writes[l].t.key;
      CompatibleMembers(a, writes[k].t, writes[l].t);
    }
    ConcurrentSyncsExclusiveIff(tables, writes, machines, c, d);
  }

  // Two applications: everything requested survives.

  /** No target of one request claims a machine port of the other. */
  ghost predicate PortsApart(a: seq<Target>, b: seq<Target>) {
    forall s, t | s in a && t in b :: Compatible(s, t)
  }

  lemma {:induction false} LastWrite(writes: seq<TableWrite>, n: nat, i: nat) returns (k: nat)
    requires i < n <= |writes|
    ensures LastFor(writes, n, k) && KeyOf(writes[k]) == KeyOf(writes[i])
    decreases n - i
  {
    if j: nat :| i < j < n && KeyOf(writes[j]) == KeyOf(writes[i]) {
      k := LastWrite(writes, n, j);
    } else {
      k := i;
    }
  }

  lemma RequestedSurvives(writes: seq<TableWrite>, c: Call, d: Call, t: Target) returns (k: nat)
    requires TwoCalls(writes, c, d) && c.app != d.app && AllCompatible(Wanted(c)) && t in Wanted(c)
    ensures LastPut(writes, |writes|, k) && writes[k].t == t
  {
    var i :| 0 <= i < |writes| && writes[i] == Put(t);
    k := LastWrite(writes, |writes|, i);
    assert t.key in KeysOf(Wanted(c)) && t.key.app == c.app;
    assert writes[k].Put?;
    assert forall u | u in Wanted(d) :: u.key.app == d.app;
    if writes[k].t != t {
      CompatibleMembers(Wanted(c), writes[k].t, t);
    }
  }

  lemma CallsCommute(writes: seq<TableWrite>, c: Call, d: Call)
    requires TwoCalls(writes, c, d)
    ensures TwoCalls(writes, d, c)
  {
  }

  /**
   Two calls for different applications, each accepted on the table its validation read,
   whose writes interleave in any order: the table they leave is exclusive if and only if
   the two requests claim no machine port in common.
   */
  lemma TwoApplicationsExclusiveIff(tables: seq<Rows>, writes: seq<TableWrite>, machines: map<int, string>, c: Call, d: Call)
    requires AreWrites(tables, writes) && TwoCalls(writes, c, d) && Exclusive(tables[0]) && UniqueKeys(tables[0])
    requires CallAccepted(tables, machines, c) && CallAccepted(tables, machines, d) && c.app != d.app
    ensures Exclusive(tables[|writes|]) <==> PortsApart(Wanted(c), Wanted(d))
  {
    var a, b := Wanted(c), Wanted(d);
    ConcurrentSyncsExclusiveIff(tables, writes, machines, c, d);
    if SurvivorsApart(writes, a, b) {
      CallsCommute(writes, c, d);
      forall s, t | s in a && t in b ensures Compatible(s, t) {
        var k := RequestedSurvives(writes, c, d, s);
        var l := RequestedSurvives(writes, d, c, t);
        assert s.key.app == c.app && t.key.app == d.app;
        assert Compatible(writes[k].t, writes[l].t);
      }
    }
  }

  function PortRequest(env: string, instance: string, machine: int): Request {
    Request(env, instance, machine, 80, true, "", true)
  }

  lemma PortAccepted(app: int, env: string, instance: string, machine: int)
    requires machine > 0
    ensures AllAccepted(map[], map[machine := env], app, [PortRequest(env, instance, machine)])
  {
  }

  /** The call must be alone on the table: two applications that ask for one port, both
      accepted on the empty table, share it however their writes interleave. */
  lemma ConcurrentSyncsCollide(tables: seq<Rows>, writes: seq<TableWrite>, machine: int, env: string)
    requires machine > 0 && AreWrites(tables, writes) && tables[0] == map[]
    requires TwoCalls(writes, Call(1, [PortRequest(env, "default", machine)], 0), Call(2, [PortRequest(env, "default", machine)], 0))
    ensures CallAccepted(tables, map[machine := env], Call(1, [PortRequest(env, "default", machine)], 0))
    ensures CallAccepted(tables, map[machine := env], Call(2, [PortRequest(env, "default", machine)], 0))
    ensures !Exclusive(tables[|writes|])
  {
    var r := PortRequest(env, "default", machine);
    var c, d := Call(1, [r], 0), Call(2, [r], 0);
    PortAccepted(1, env, "default", machine);
    PortAccepted(2, env, "default", machine);
    var s, t := TargetOf(1, r), TargetOf(2, r);
    assert s == Wanted(c)[0] && t == Wanted(d)[0];
    assert !Compatible(s, t);
    TwoApplicationsExclusiveIff(tables, writes, map[machine := env], c, d);
  }

  /** And so do two instances of one application, saved by two requests at once. */
  lemma OneApplicationCollides(tables: seq<Rows>, machine: int, env: string)
    requires machine > 0 && tables != [] && tables[0] == map[]
    requires AreWrites(tables, [Put(TargetOf(1, PortRequest(env, "one", machine))), Put(TargetOf(1, PortRequest(env, "two", machine)))])
    ensures CallAccepted(tables, map[machine := env], Call(1, [PortRequest(env, "one", machine)], 0))
    ensures CallAccepted(tables, map[machine := env], Call(1, [PortRequest(env, "two", machine)], 0))
    ensures !Exclusive(tables[2])
  {
    var p, q := PortRequest(env, "one", machine), PortRequest(env, "two", machine);
    var s, t := TargetOf(1, p), TargetOf(1, q);
    var c, d, writes := Call(1, [p], 0), Call(1, [q], 0), [Put(s), Put(t)];
    PortAccepted(1, env, "one", machine);
    PortAccepted(1, env, "two", machine);
    assert Wanted(c) == [s] && Wanted(d) == [t];
    assert writes[0] == Put(s) && writes[1] == Put(t) && TwoCalls(writes, c, d);
    assert LastPut(writes, 2, 0) && LastPut(writes, 2, 1) && !Compatible(s, t);
    ConcurrentSyncsExclusiveIff(tables, writes, map[machine := env], c, d);
  }
}
