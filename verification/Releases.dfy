/**
 The release state machine (internal/service/application_release_service.go driven
 by internal/application/release_app.go), with every status write separate from the
 check that justified it, so that operations interleave freely.
 */
module Releases {
  import opened Common

  datatype ReleaseStatus = Draft | Deploying | PendingVerify | Verified | FailedRelease | RollingBack | RolledBack

  /** The (application, env, instance) a release deploys to. */
  datatype Place = Place(app: int, env: string, instance: string)

  /** A release row, and its history: whether a run was started for it, and the
      commits its own successful runs recorded. `prev` is the release it rolls back,
      or 0. */
  datatype Release = Release(place: Place, status: ReleaseStatus, prev: nat, commit: string, started: bool, shas: set<string>)

  /** Rows in id order; the row with id k is at index k - 1. */
  type Table = seq<Release>

  predicate Exists(t: Table, id: nat) {
    1 <= id <= |t|
  }

  function Row(t: Table, id: nat): Release
    requires Exists(t, id)
  {
    t[id - 1]
  }

  predicate RanOk(r: Release) {
    r.shas != {}
  }

  // ------------------------------------------------------------ the protocol

  /** A status write that some operation has decided on and not yet made. */
  datatype Write =
    | WriteDeploying(id: nat)
    | WriteSucceeded(id: nat, sha: string)
    | WriteFailed(id: nat)
    | WriteVerified(id: nat)
    | WriteRollingBack(id: nat, newer: nat)
    | WriteRolledBack(id: nat, newer: nat)

  /** Pending writes are never forgotten: each may be made at any later time. */
  datatype System = System(rows: Table, pending: set<Write>)

  datatype Event =
    | CreateDraft(place: Place, commit: string)
    | CreateRollback(bad: nat, target: nat, commit: string)   // CreateRollbackDraft, with the target's commit as loaded earlier
    | CheckDeployable(id: nat)                // MarkDeploying, its read
    | RunSucceeds(id: nat, sha: string)       // the run's log is a success and records this commit
    | RunFails(id: nat)
    | StartFails(id: nat)                     // an environment deploy marks a child it could not start
    | CheckVerify(id: nat)                    // Verify, its read
    | FlagBad(newer: nat)                     // Rollback: the replacement was started
    | SettleBad(newer: nat)                   // syncReleaseStatus: the replacement succeeded
    | Make(w: Write)

  ghost predicate Enabled(y: System, e: Event) {
    match e
    case CreateDraft(_, _) => true
    case CreateRollback(bad, target, _) =>
      Exists(y.rows, bad) && Exists(y.rows, target) && Row(y.rows, target).place == Row(y.rows, bad).place
    case CheckDeployable(id) => Exists(y.rows, id) && Row(y.rows, id).status in {Draft, FailedRelease}
    case RunSucceeds(id, _) => Exists(y.rows, id) && Row(y.rows, id).started
    case RunFails(id) => Exists(y.rows, id) && Row(y.rows, id).started
    case StartFails(id) => Exists(y.rows, id)
    case CheckVerify(id) => Exists(y.rows, id) && Row(y.rows, id).status == PendingVerify
    case FlagBad(newer) => Exists(y.rows, newer) && Row(y.rows, newer).started && Row(y.rows, newer).prev > 0
    case SettleBad(newer) => Exists(y.rows, newer) && RanOk(Row(y.rows, newer)) && Row(y.rows, newer).prev > 0
    case Make(w) => w in y.pending && Exists(y.rows, w.id)
  }

  function StatusOf(w: Write): ReleaseStatus {
    match w
    case WriteDeploying(_) => Deploying
    case WriteSucceeded(_, _) => PendingVerify
    case WriteFailed(_) => FailedRelease
    case WriteVerified(_) => Verified
    case WriteRollingBack(_, _) => RollingBack
    case WriteRolledBack(_, _) => RolledBack
  }

  /** UpdateStatus: a success also records the resolved commit, unless it is empty. */
  function Written(r: Release, w: Write): Release {
    var r' := r.(status := StatusOf(w));
    if w.WriteDeploying? then r'.(started := true)
    else if w.WriteSucceeded? && w.sha != "" then r'.(commit := w.sha)
    else r'
  }

  ghost function Next(y: System, e: Event): System
    requires Enabled(y, e)
  {
    match e
    case CreateDraft(place, commit) =>
      y.(rows := y.rows + [Release(place, Draft, 0, commit, false, {})])
    case CreateRollback(bad, _, commit) =>
      y.(rows := y.rows + [Release(Row(y.rows, bad).place, Draft, bad, commit, false, {})])
    case CheckDeployable(id) => y.(pending := y.pending + {WriteDeploying(id)})
    case RunSucceeds(id, sha) =>
      System(y.rows[id - 1 := y.rows[id - 1].(shas := y.rows[id - 1].shas + {sha})], y.pending + {WriteSucceeded(id, sha)})
    case RunFails(id) => y.(pending := y.pending + {WriteFailed(id)})
    case StartFails(id) => y.(pending := y.pending + {WriteFailed(id)})
    case CheckVerify(id) => y.(pending := y.pending + {WriteVerified(id)})
    case FlagBad(newer) => y.(pending := y.pending + {WriteRollingBack(Row(y.rows, newer).prev, newer)})
    case SettleBad(newer) => y.(pending := y.pending + {WriteRolledBack(Row(y.rows, newer).prev, newer)})
    case Make(w) => y.(rows := y.rows[w.id - 1 := Written(Row(y.rows, w.id), w)])
  }

  ghost predicate IsRun(ys: seq<System>, events: seq<Event>) {
    && |ys| == |events| + 1 && ys[0] == System([], {})
    && forall i | 0 <= i < |events| :: StepAt(ys, events, i)
  }

  ghost predicate StepAt(ys: seq<System>, events: seq<Event>, i: nat)
    requires i < |events| == |ys| - 1
  {
    Enabled(ys[i], events[i]) && ys[i + 1] == Next(ys[i], events[i])
  }

  // -------------------------------------------------------------- invariants

  /** A newer release points back at `id` and has been started. */
  ghost predicate ReplacedBy(t: Table, id: nat, newer: nat) {
    id < newer && Exists(t, newer) && Row(t, newer).prev == id && Row(t, newer).started
  }

  /** The recorded commit is one a run of this release resolved, unless some
      successful run resolved none. */
  ghost predicate CommitFromRun(r: Release) {
    RanOk(r) && ("" in r.shas || r.commit in r.shas)
  }

  ghost predicate StatusJustified(t: Table, id: nat)
    requires Exists(t, id)
  {
    match Row(t, id).status
    case PendingVerify => CommitFromRun(Row(t, id))
    case Verified => CommitFromRun(Row(t, id))
    case RollingBack => exists newer :: ReplacedBy(t, id, newer)
    case RolledBack => exists newer :: ReplacedBy(t, id, newer) && RanOk(Row(t, newer))
    case _ => true
  }

  ghost predicate WriteJustified(t: Table, w: Write) {
    Exists(t, w.id) &&
    match w
    case WriteSucceeded(id, sha) => sha in Row(t, id).shas
    case WriteVerified(id) => CommitFromRun(Row(t, id))
    case WriteRollingBack(id, newer) => ReplacedBy(t, id, newer)
    case WriteRolledBack(id, newer) => ReplacedBy(t, id, newer) && RanOk(Row(t, newer))
    case _ => true
  }

  ghost predicate LinksDecrease(t: Table) {
    forall id | Exists(t, id) :: Row(t, id).prev < id
  }

  ghost predicate Inv(y: System) {
    && LinksDecrease(y.rows)
    && (forall id | Exists(y.rows, id) :: StatusJustified(y.rows, id))
    && (forall id | Exists(y.rows, id) :: RanOk(Row(y.rows, id)) ==> Row(y.rows, id).started)
    && (forall w | w in y.pending :: WriteJustified(y.rows, w))
  }

  /** Rows are only appended, links never change, and history only grows. */
  ghost predicate Grows(t: Table, t': Table) {
    && |t| <= |t'|
    && forall id | Exists(t, id) ::
         && Row(t', id).prev == Row(t, id).prev && Row(t', id).place == Row(t, id).place
         && (Row(t, id).started ==> Row(t', id).started)
         && Row(t, id).shas <= Row(t', id).shas
         && (CommitFromRun(Row(t, id)) ==> CommitFromRun(Row(t', id)))
  }

  lemma NextGrows(y: System, e: Event)
    requires Enabled(y, e) && (e.Make? ==> WriteJustified(y.rows, e.w))
    ensures Grows(y.rows, Next(y, e).rows)
  {
  }

  lemma ReplacedStays(t: Table, t': Table, id: nat, newer: nat)
    requires Grows(t, t') && ReplacedBy(t, id, newer)
    ensures ReplacedBy(t', id, newer) && (RanOk(Row(t, newer)) ==> RanOk(Row(t', newer)))
  {
  }

  lemma WritesStayJustified(t: Table, t': Table, w: Write)
    requires Grows(t, t') && WriteJustified(t, w)
    ensures WriteJustified(t', w)
  {
  }

  lemma StatusStaysJustified(t: Table, t': Table, id: nat)
    requires Grows(t, t') && Exists(t, id) && StatusJustified(t, id) && Row(t', id).status == Row(t, id).status
    ensures StatusJustified(t', id)
  {
    if Row(t, id).status == RollingBack {
      var newer :| ReplacedBy(t, id, newer);
      ReplacedStays(t, t', id, newer);
    } else if Row(t, id).status == RolledBack {
      var newer :| ReplacedBy(t, id, newer) && RanOk(Row(t, newer));
      ReplacedStays(t, t', id, newer);
    }
  }

  lemma MadeIsJustified(t': Table, w: Write)
    requires WriteJustified(t', w) && Row(t', w.id).status == StatusOf(w)
    requires w.WriteSucceeded? && w.sha != "" ==> Row(t', w.id).commit == w.sha
    ensures StatusJustified(t', w.id)
  {
    if w.WriteRollingBack? || w.WriteRolledBack? {
      assert ReplacedBy(t', w.id, w.newer);
    }
  }

  lemma NextStatuses(y: System, e: Event, id: nat)
    requires Inv(y) && Enabled(y, e) && Exists(Next(y, e).rows, id)
    ensures StatusJustified(Next(y, e).rows, id)
  {
    var t, t' := y.rows, Next(y, e).rows;
    NextGrows(y, e);
    if id > |t| {
      assert Row(t', id).status == Draft;
    } else if e.Make? && e.w.id == id {
      WritesStayJustified(t, t', e.w);
      MadeIsJustified(t', e.w);
    } else {
      StatusStaysJustified(t, t', id);
    }
  }

  lemma NextPending(y: System, e: Event, w: Write)
    requires Inv(y) && Enabled(y, e) && w in Next(y, e).pending
    ensures WriteJustified(Next(y, e).rows, w)
  {
    NextGrows(y, e);
    if w in y.pending {
      WritesStayJustified(y.rows, Next(y, e).rows, w);
    }
  }

  lemma NextLinks(y: System, e: Event)
    requires Inv(y) && Enabled(y, e)
    ensures LinksDecrease(Next(y, e).rows)
    ensures forall id | Exists(Next(y, e).rows, id) :: RanOk(Row(Next(y, e).rows, id)) ==> Row(Next(y, e).rows, id).started
  {
    var t, t' := y.rows, Next(y, e).rows;
    NextGrows(y, e);
    forall id: nat | Exists(t', id) ensures Row(t', id).prev < id {
      if id <= |t| {
        assert Row(t, id).prev < id;
      }
    }
  }

  lemma {:induction false} RunKeepsInv(ys: seq<System>, events: seq<Event>, i: nat)
    requires IsRun(ys, events) && i < |ys|
    ensures Inv(ys[i])
    decreases i
  {
    if i > 0 {
      var y, e, y' := ys[i - 1], events[i - 1], ys[i];
      RunKeepsInv(ys, events, i - 1);
      assert StepAt(ys, events, i - 1);
      NextLinks(y, e);
      forall id | Exists(y'.rows, id) ensures StatusJustified(y'.rows, id) {
        NextStatuses(y, e, id);
      }
      forall w | w in y'.pending ensures WriteJustified(y'.rows, w) {
        NextPending(y, e, w);
      }
    }
  }

  // ---------------------------------------------------------------- theorems

  /** A run of `id` ended in success at some step before `i`. */
  ghost predicate RanBefore(events: seq<Event>, i: nat, id: nat) {
    exists sha :: Recorded(events, i, id, sha)
  }

  /** One that recorded the commit `sha`. */
  ghost predicate Recorded(events: seq<Event>, i: nat, id: nat, sha: string) {
    exists k :: 0 <= k < i && k < |events| && events[k] == RunSucceeds(id, sha)
  }

  lemma {:induction false} ShaHasRun(ys: seq<System>, events: seq<Event>, i: nat, id: nat, sha: string)
    requires IsRun(ys, events) && i < |ys| && Exists(ys[i].rows, id) && sha in Row(ys[i].rows, id).shas
    ensures Recorded(events, i, id, sha)
    decreases i
  {
    assert i > 0;
    assert StepAt(ys, events, i - 1);
    var y, e := ys[i - 1], events[i - 1];
    if e != RunSucceeds(id, sha) {
      assert id <= |y.rows| && sha in Row(y.rows, id).shas;
      ShaHasRun(ys, events, i - 1, id, sha);
      var k :| 0 <= k < i - 1 && k < |events| && events[k] == RunSucceeds(id, sha);
      assert 0 <= k < i;
    } else {
      assert events[i - 1] == RunSucceeds(id, sha);
    }
  }

  lemma RanOkHasRun(ys: seq<System>, events: seq<Event>, i: nat, id: nat)
    requires IsRun(ys, events) && i < |ys| && Exists(ys[i].rows, id) && RanOk(Row(ys[i].rows, id))
    ensures RanBefore(events, i, id)
  {
    var sha :| sha in Row(ys[i].rows, id).shas;
    ShaHasRun(ys, events, i, id, sha);
  }

  /** A release awaiting verification or verified has had a run of its own end in success. */
  lemma DeployedMeansRan(ys: seq<System>, events: seq<Event>, i: nat, id: nat)
    requires IsRun(ys, events) && i < |ys| && Exists(ys[i].rows, id)
    requires Row(ys[i].rows, id).status in {PendingVerify, Verified}
    ensures RanBefore(events, i, id)
  {
    RunKeepsInv(ys, events, i);
    assert StatusJustified(ys[i].rows, id);
    RanOkHasRun(ys, events, i, id);
  }

  /** rolled_back appears only where a newer release pointing back has succeeded,
      rolling_back only where such a release was started. */
  lemma RollbackHasReplacement(ys: seq<System>, events: seq<Event>, i: nat, id: nat) returns (newer: nat)
    requires IsRun(ys, events) && i < |ys| && Exists(ys[i].rows, id)
    requires Row(ys[i].rows, id).status in {RollingBack, RolledBack}
    ensures ReplacedBy(ys[i].rows, id, newer)
    ensures Row(ys[i].rows, id).status == RolledBack ==> RanBefore(events, i, newer)
  {
    RunKeepsInv(ys, events, i);
    var t := ys[i].rows;
    assert StatusJustified(t, id);
    if Row(t, id).status == RolledBack {
      newer :| ReplacedBy(t, id, newer) && RanOk(Row(t, newer));
      RanOkHasRun(ys, events, i, newer);
    } else {
      newer :| ReplacedBy(t, id, newer);
    }
  }

  /** A rollback draft made at step `i` for a target that was loaded as verified at step
      `j` pins a commit that a successful run of the target had recorded by then (if
      every such run recorded one), whatever happened to the target in between. */
  lemma RollbackPinsARunCommit(ys: seq<System>, events: seq<Event>, j: nat, i: nat)
    requires IsRun(ys, events) && j <= i < |events| && events[i].CreateRollback?
    requires Exists(ys[j].rows, events[i].target) && Row(ys[j].rows, events[i].target).status == Verified
    requires Row(ys[j].rows, events[i].target).commit == events[i].commit
    requires !Recorded(events, j, events[i].target, "")
    ensures |ys[i + 1].rows| == |ys[i].rows| + 1 && Exists(ys[i].rows, events[i].bad)
    ensures var draft := ys[i + 1].rows[|ys[i].rows|];
            && draft.prev == events[i].bad && draft.place == Row(ys[i].rows, events[i].bad).place
            && Recorded(events, j, events[i].target, draft.commit)
  {
    var target := events[i].target;
    assert StepAt(ys, events, i);
    RunKeepsInv(ys, events, j);
    assert StatusJustified(ys[j].rows, target);
    var r := Row(ys[j].rows, target);
    if "" in r.shas {
      ShaHasRun(ys, events, j, target, "");
    }
    ShaHasRun(ys, events, j, target, r.commit);
  }

  // ------------------------------------------------ the status is the last write

  /** The last status write made for `id` in the first `i` steps. */
  ghost function LastMake(events: seq<Event>, i: nat, id: nat): Option<Write>
    requires i <= |events|
  {
    if i == 0 then None
    else if events[i - 1].Make? && events[i - 1].w.id == id then Some(events[i - 1].w)
    else LastMake(events, i - 1, id)
  }

  /** In every run a release's status is the one its last write stands for, draft before
      any; a success has also recorded its commit, and a start has marked it as started. */
  lemma {:induction false} StatusIsLastWrite(ys: seq<System>, events: seq<Event>, i: nat, id: nat)
    requires IsRun(ys, events) && i < |ys| && Exists(ys[i].rows, id)
    ensures var r := Row(ys[i].rows, id);
            match LastMake(events, i, id)
            case None => r.status == Draft && !r.started
            case Some(WriteDeploying(_)) => r.status == Deploying && r.started
            case Some(WriteSucceeded(_, sha)) => r.status == PendingVerify && (sha != "" ==> r.commit == sha)
            case Some(WriteFailed(_)) => r.status == FailedRelease
            case Some(WriteVerified(_)) => r.status == Verified
            case Some(WriteRollingBack(_, _)) => r.status == RollingBack
            case Some(WriteRolledBack(_, _)) => r.status == RolledBack
    decreases i
  {
    if i > 0 {
      assert StepAt(ys, events, i - 1);
      if Exists(ys[i - 1].rows, id) {
        StatusIsLastWrite(ys, events, i - 1, id);
      } else {
        NoMakeBefore(ys, events, i - 1, id);
      }
    }
  }

  lemma {:induction false} NoMakeBefore(ys: seq<System>, events: seq<Event>, i: nat, id: nat)
    requires IsRun(ys, events) && i < |ys| && !Exists(ys[i].rows, id)
    ensures LastMake(events, i, id).None?
    decreases i
  {
    if i > 0 {
      assert StepAt(ys, events, i - 1);
      NoMakeBefore(ys, events, i - 1, id);
    }
  }

  /** Which writes become due: a run's end its own, the replacement's start and success
      those of the release it replaces, and the two checks theirs. */
  lemma WritesBecomeDue(y: System, e: Event)
    requires Enabled(y, e)
    ensures var due := Next(y, e).pending - y.pending;
            match e
            case CheckDeployable(id) => due <= {WriteDeploying(id)} <= Next(y, e).pending && Row(y.rows, id).status in {Draft, FailedRelease}
            case RunSucceeds(id, sha) => due <= {WriteSucceeded(id, sha)} <= Next(y, e).pending && Row(y.rows, id).started
            case RunFails(id) => due <= {WriteFailed(id)} <= Next(y, e).pending && Row(y.rows, id).started
            case StartFails(id) => due <= {WriteFailed(id)} <= Next(y, e).pending
            case CheckVerify(id) => due <= {WriteVerified(id)} <= Next(y, e).pending && Row(y.rows, id).status == PendingVerify
            case FlagBad(newer) => due <= {WriteRollingBack(Row(y.rows, newer).prev, newer)} <= Next(y, e).pending
            case SettleBad(newer) => due <= {WriteRolledBack(Row(y.rows, newer).prev, newer)} <= Next(y, e).pending
            case _ => due == {}
  {
  }

  // -------------------------------------------------------------- a whole life

  /** A run that ends in `y`. */
  ghost predicate Reaches(ys: seq<System>, events: seq<Event>, y: System) {
    IsRun(ys, events) && ys[|events|] == y
  }

  lemma Onward(ys: seq<System>, events: seq<Event>, y: System, e: Event) returns (ys': seq<System>, events': seq<Event>, y': System)
    requires Reaches(ys, events, y) && Enabled(y, e)
    ensures y' == Next(y, e) && Reaches(ys', events', y') && ys' == ys + [y'] && events' == events + [e]
  {
    y' := Next(y, e);
    ys', events' := ys + [y'], events + [e];
    forall i | 0 <= i <= |events| ensures StepAt(ys', events', i) {
      if i < |events| {
        assert StepAt(ys, events, i);
      }
    }
  }

  /** `id` had this status at step `i`. */
  ghost predicate Was(ys: seq<System>, i: nat, id: nat, s: ReleaseStatus) {
    i < |ys| && Exists(ys[i].rows, id) && Row(ys[i].rows, id).status == s
  }

  /** A due write is made. */
  lemma Made(ys: seq<System>, events: seq<Event>, y: System, e: Event, w: Write)
    returns (ys': seq<System>, events': seq<Event>, y': System)
    requires Reaches(ys, events, y) && Enabled(y, e) && w in Next(y, e).pending && Exists(Next(y, e).rows, w.id)
    ensures Reaches(ys', events', y') && y' == Next(Next(y, e), Make(w)) && ys <= ys' && |ys'| == |ys| + 2
  {
    ys', events', y' := Onward(ys, events, y, e);
    ys', events', y' := Onward(ys', events', y', Make(w));
  }

  /** A new release is drafted, deployed and (after a check by an operator) verified. */
  lemma Deployed(ys: seq<System>, events: seq<Event>, y: System, place: Place, commit: string)
    returns (ys': seq<System>, events': seq<Event>, y': System)
    requires Reaches(ys, events, y)
    ensures var n, id := |ys|, |y.rows| + 1;
            && Reaches(ys', events', y') && ys <= ys' && |ys'| == n + 7 && |y'.rows| == id && y'.rows[..id - 1] == y.rows
            && Was(ys', n, id, Draft) && Was(ys', n + 2, id, Deploying) && Was(ys', n + 4, id, PendingVerify) && Was(ys', n + 6, id, Verified)
            && Row(y'.rows, id).place == place && Row(y'.rows, id).started
  {
    var id := |y.rows| + 1;
    ys', events', y' := Onward(ys, events, y, CreateDraft(place, commit));
    ys', events', y' := Made(ys', events', y', CheckDeployable(id), WriteDeploying(id));
    ys', events', y' := Made(ys', events', y', RunSucceeds(id, commit), WriteSucceeded(id, commit));
    ys', events', y' := Made(ys', events', y', CheckVerify(id), WriteVerified(id));
  }

  /** A replacement for the last release is drafted from the one before it and started. */
  lemma ReplacementStarted(ys: seq<System>, events: seq<Event>, y: System, bad: nat)
    returns (ys': seq<System>, events': seq<Event>, y': System)
    requires Reaches(ys, events, y) && bad == |y.rows| >= 2 && Row(y.rows, bad - 1).place == Row(y.rows, bad).place
    ensures Reaches(ys', events', y') && ys <= ys' && |ys'| == |ys| + 3
    ensures |y'.rows| == bad + 1 && Row(y'.rows, bad + 1).started && Row(y'.rows, bad + 1).prev == bad
  {
    ys', events', y' := Onward(ys, events, y, CreateRollback(bad, bad - 1, Row(y.rows, bad - 1).commit));
    ys', events', y' := Made(ys', events', y', CheckDeployable(bad + 1), WriteDeploying(bad + 1));
  }

  /** It is flagged, the replacement succeeds, and it is settled. */
  lemma ReplacementSettled(ys: seq<System>, events: seq<Event>, y: System, bad: nat, commit: string)
    returns (ys': seq<System>, events': seq<Event>)
    requires Reaches(ys, events, y) && |y.rows| == bad + 1 > 1 && Row(y.rows, bad + 1).started && Row(y.rows, bad + 1).prev == bad
    ensures var n := |ys|;
            IsRun(ys', events') && ys <= ys' && |ys'| == n + 6 && Was(ys', n + 1, bad, RollingBack) && Was(ys', n + 5, bad, RolledBack)
  {
    var newer, y' := bad + 1, y;
    ys', events', y' := Made(ys, events, y, FlagBad(newer), WriteRollingBack(bad, newer));
    ys', events', y' := Made(ys', events', y', RunSucceeds(newer, commit), WriteSucceeded(newer, commit));
    ys', events', y' := Made(ys', events', y', SettleBad(newer), WriteRolledBack(bad, newer));
  }

  /** Every status is reached: a release is drafted, deployed, verified, and rolled back
      to an earlier one. */
  lemma WholeLife(place: Place, good: string, bad: string) returns (ys: seq<System>, events: seq<Event>)
    ensures IsRun(ys, events) && |ys| == 24
    ensures Was(ys, 8, 2, Draft) && Was(ys, 10, 2, Deploying) && Was(ys, 12, 2, PendingVerify) && Was(ys, 14, 2, Verified)
    ensures Was(ys, 19, 2, RollingBack) && Was(ys, 23, 2, RolledBack)
  {
    var y := System([], {});
    ys, events, y := Deployed([y], [], y, place, good);
    ys, events, y := Deployed(ys, events, y, place, bad);
    assert y.rows[..1][0] == y.rows[0];
    ghost var second := ys;
    ys, events, y := ReplacementStarted(ys, events, y, 2);
    ys, events := ReplacementSettled(ys, events, y, 2, good);
    assert forall i | 0 <= i < |second| :: ys[i] == second[i];
  }

  /** The releases reached by following previous-release links. */
  function History(t: Table, id: nat): seq<nat>
    requires LinksDecrease(t) && (id == 0 || Exists(t, id))
    decreases id
  {
    if id == 0 then [] else [id] + History(t, Row(t, id).prev)
  }

  lemma {:induction false} HistoryDecreases(t: Table, id: nat)
    requires LinksDecrease(t) && (id == 0 || Exists(t, id))
    ensures |History(t, id)| <= id
    ensures forall k | 0 <= k < |History(t, id)| :: 1 <= History(t, id)[k] <= id
    ensures forall j, k | 0 <= j < k < |History(t, id)| :: History(t, id)[k] < History(t, id)[j]
    decreases id
  {
    if id > 0 {
      HistoryDecreases(t, Row(t, id).prev);
    }
  }

  /** Links strictly decrease in every reachable table, so following them ends
      without meeting any release twice. */
  lemma LinksTerminate(ys: seq<System>, events: seq<Event>, i: nat, id: nat)
    requires IsRun(ys, events) && i < |ys| && Exists(ys[i].rows, id)
    ensures LinksDecrease(ys[i].rows) && |History(ys[i].rows, id)| <= id
    ensures forall j, k | 0 <= j < k < |History(ys[i].rows, id)| :: History(ys[i].rows, id)[k] < History(ys[i].rows, id)[j]
  {
    RunKeepsInv(ys, events, i);
    HistoryDecreases(ys[i].rows, id);
  }

  // -------------------------------------------------- environment rollback plan

  ghost predicate VerifiedAt(t: Table, place: Place, id: nat) {
    Exists(t, id) && Row(t, id).place == place && Row(t, id).status == Verified
  }

  /** GetPreviousVerified: the newest verified release of a place below an id. */
  function PreviousVerified(t: Table, place: Place, before: nat): (r: Option<nat>)
    ensures r.Some? ==> r.value < before && VerifiedAt(t, place, r.value)
    ensures forall id: nat | id < before && VerifiedAt(t, place, id) :: r.Some? && id <= r.value
    decreases before
  {
    if before <= 1 then None
    else if Exists(t, before - 1) && Row(t, before - 1).place == place && Row(t, before - 1).status == Verified then Some(before - 1)
    else PreviousVerified(t, place, before - 1)
  }

  datatype Pair = Pair(bad: nat, target: nat)

  datatype PlanError = StillDeploying(id: nat) | NoEarlierVerified(id: nat) | NothingToRollBack

  /** A child that changed what runs on its instance. */
  predicate NeedsRollback(t: Table, id: nat)
    requires Exists(t, id)
  {
    Row(t, id).status in {PendingVerify, Verified, RollingBack}
  }

  function Target(t: Table, id: nat): Option<nat>
    requires Exists(t, id)
  {
    PreviousVerified(t, Row(t, id).place, id)
  }

  /** The children to roll back, in order. */
  function ToRollBack(t: Table, children: seq<nat>): seq<nat>
    requires forall i | 0 <= i < |children| :: Exists(t, children[i])
  {
    if children == [] then []
    else ToRollBack(t, children[..|children| - 1])
         + (if NeedsRollback(t, children[|children| - 1]) then [children[|children| - 1]] else [])
  }

  /** What stops a plan: a child still deploying, or one with nothing to return to. */
  ghost predicate Blocks(t: Table, id: nat)
    requires Exists(t, id)
  {
    Row(t, id).status == Deploying || (NeedsRollback(t, id) && Target(t, id).None?)
  }

  lemma {:induction false} SomethingToRollBack(t: Table, children: seq<nat>)
    requires forall i | 0 <= i < |children| :: Exists(t, children[i])
    ensures ToRollBack(t, children) != [] <==> exists i :: 0 <= i < |children| && NeedsRollback(t, children[i])
    decreases |children|
  {
    if children != [] {
      var last := |children| - 1;
      SomethingToRollBack(t, children[..last]);
      assert forall i | 0 <= i < last :: children[..last][i] == children[i];
    }
  }

  lemma {:induction false} ToRollBackMembers(t: Table, children: seq<nat>)
    requires forall i | 0 <= i < |children| :: Exists(t, children[i])
    ensures forall id | id in children :: id in ToRollBack(t, children) <==> Row(t, id).status in {PendingVerify, Verified, RollingBack}
    decreases |children|
  {
    if children != [] {
      var last := |children| - 1;
      ToRollBackMembers(t, children[..last]);
      ToRollBackFrom(t, children[..last]);
      assert children == children[..last] + [children[last]];
    }
  }

  lemma {:induction false} ToRollBackFrom(t: Table, children: seq<nat>)
    requires forall i | 0 <= i < |children| :: Exists(t, children[i])
    ensures forall id | id in ToRollBack(t, children) :: id in children && NeedsRollback(t, id)
    decreases |children|
  {
    if children != [] {
      ToRollBackFrom(t, children[..|children| - 1]);
    }
  }

  /** Each of `ids` paired, in order, with its target. */
  ghost predicate PlanFor(t: Table, ids: seq<nat>, pairs: seq<Pair>) {
    && |pairs| == |ids|
    && forall i | 0 <= i < |ids| ::
         pairs[i].bad == ids[i] && Exists(t, ids[i]) && Target(t, ids[i]) == Some(pairs[i].target)
  }

  /** All or nothing: either every child that needs it is paired, in order, with the
      newest earlier verified release of its own place, or there is no plan at all. */
  method PlanEnvRollback(t: Table, children: seq<nat>) returns (r: Result<seq<Pair>, PlanError>)
    requires forall i | 0 <= i < |children| :: Exists(t, children[i])
    ensures r.Ok? <==> (forall i | 0 <= i < |children| :: !Blocks(t, children[i]))
                       && exists i :: 0 <= i < |children| && NeedsRollback(t, children[i])
    ensures r.Ok? ==> r.value != [] && PlanFor(t, ToRollBack(t, children), r.value)
    ensures r.Ok? ==> forall i | 0 <= i < |children| ::
              && Row(t, children[i]).status != Deploying
              && (Row(t, children[i]).status in {PendingVerify, Verified, RollingBack} <==> children[i] in ToRollBack(t, children))
    ensures r.Err? && r.error.StillDeploying? ==> r.error.id in children && Row(t, r.error.id).status == Deploying
    ensures r.Err? && r.error.NoEarlierVerified? ==>
              && r.error.id in children && Row(t, r.error.id).status in {PendingVerify, Verified, RollingBack}
              && forall id: nat | id < r.error.id :: !VerifiedAt(t, Row(t, r.error.id).place, id)
    ensures r == Err(NothingToRollBack) ==> forall i | 0 <= i < |children| :: Row(t, children[i]).status in {Draft, FailedRelease, RolledBack}
  {
    var pairs: seq<Pair> := [];
    for k := 0 to |children|
      invariant forall i | 0 <= i < k :: !Blocks(t, children[i])
      invariant PlanFor(t, ToRollBack(t, children[..k]), pairs)
    {
      var id := children[k];
      assert children[..k + 1][..k] == children[..k];
      match Row(t, id).status {
        case Draft =>
        case FailedRelease =>
        case RolledBack =>
        case Deploying => return Err(StillDeploying(id));
        case _ =>
          var target := Target(t, id);
          if target.None? {
            return Err(NoEarlierVerified(id));
          }
          pairs := pairs + [Pair(id, target.value)];
      }
    }
    assert children[..|children|] == children;
    SomethingToRollBack(t, children);
    ToRollBackMembers(t, children);
    if pairs == [] {
      return Err(NothingToRollBack);
    }
    r := Ok(pairs);
  }
}
