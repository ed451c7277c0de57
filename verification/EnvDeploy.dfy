/**
 The environment-wide deploy batch (internal/service/env_deployment_service.go and
 the fan-out in internal/application/release_app.go): a stored summary of child
 releases that each reconcile recomputes.
 */
module EnvDeploy {
  import opened Common
  import opened Releases

  datatype BatchStatus = BatchPending | BatchRunning | BatchSuccess | BatchPartial | BatchFailed

  /** The derived columns of an env_deployment row. */
  datatype Batch = Batch(status: BatchStatus, total: nat, success: nat, failed: nat, finished: bool)

  datatype Class = InFlight | Succeeded | FailedChild

  /** How a child counts: a release later rolled back did deploy. */
  ghost function ClassOf(s: ReleaseStatus): Class {
    match s
    case PendingVerify => Succeeded
    case Verified => Succeeded
    case RollingBack => Succeeded
    case RolledBack => Succeeded
    case FailedRelease => FailedChild
    case Draft => InFlight
    case Deploying => InFlight
  }

  ghost function Count(children: seq<ReleaseStatus>, c: Class): nat {
    if children == [] then 0
    else Count(children[..|children| - 1], c) + if ClassOf(children[|children| - 1]) == c then 1 else 0
  }

  ghost predicate All(children: seq<ReleaseStatus>, c: Class) {
    forall i | 0 <= i < |children| :: ClassOf(children[i]) == c
  }

  ghost predicate AllTerminal(children: seq<ReleaseStatus>) {
    forall i | 0 <= i < |children| :: ClassOf(children[i]) != InFlight
  }

  /** `b` is the exact roll-up of the children. */
  ghost predicate IsRollup(b: Batch, children: seq<ReleaseStatus>) {
    && b.total == |children|
    && b.success == Count(children, Succeeded)
    && b.failed == Count(children, FailedChild)
    && (b.finished <==> children != [] && AllTerminal(children))
    && (b.status == BatchSuccess <==> children != [] && All(children, Succeeded))
    && (b.status == BatchFailed <==> children != [] && All(children, FailedChild))
    && (b.status == BatchPartial <==> AllTerminal(children) && !All(children, Succeeded) && !All(children, FailedChild))
    && b.status != BatchPending
  }

  lemma {:induction false} CountIsAll(children: seq<ReleaseStatus>, c: Class)
    ensures Count(children, c) <= |children|
    ensures Count(children, c) == |children| <==> All(children, c)
    ensures Count(children, c) == 0 <==> forall i | 0 <= i < |children| :: ClassOf(children[i]) != c
    decreases |children|
  {
    if children != [] {
      var n := |children| - 1;
      CountIsAll(children[..n], c);
      assert forall i | 0 <= i < n :: children[..n][i] == children[i];
    }
  }

  lemma {:induction false} CountsAddUp(children: seq<ReleaseStatus>)
    ensures Count(children, InFlight) + Count(children, Succeeded) + Count(children, FailedChild) == |children|
    decreases |children|
  {
    if children != [] {
      CountsAddUp(children[..|children| - 1]);
    }
  }

  lemma {:induction false} CountUpdate(children: seq<ReleaseStatus>, i: nat, s: ReleaseStatus, c: Class)
    requires i < |children|
    ensures Count(children[i := s], c) + (if ClassOf(children[i]) == c then 1 else 0)
            == Count(children, c) + (if ClassOf(s) == c then 1 else 0)
    decreases |children|
  {
    var n, changed := |children| - 1, children[i := s];
    if i < n {
      CountUpdate(children[..n], i, s, c);
      assert changed[..n] == children[..n][i := s];
    } else {
      assert changed[..n] == children[..n];
    }
  }

  /** A roll-up is determined by the children. */
  lemma RollupIsUnique(a: Batch, b: Batch, children: seq<ReleaseStatus>)
    requires IsRollup(a, children) && IsRollup(b, children)
    ensures a == b
  {
  }

  lemma {:induction false} CountIsSize(children: seq<ReleaseStatus>, n: nat, c: Class)
    requires n <= |children|
    ensures Count(children[..n], c) == |set i | 0 <= i < n && ClassOf(children[i]) == c|
    decreases n
  {
    var counted := set i | 0 <= i < n && ClassOf(children[i]) == c;
    if n == 0 {
      assert counted == {};
    } else {
      CountIsSize(children, n - 1, c);
      assert children[..n][..n - 1] == children[..n - 1];
      var fewer := set i | 0 <= i < n - 1 && ClassOf(children[i]) == c;
      assert counted == if ClassOf(children[n - 1]) == c then fewer + {n - 1} else fewer;
    }
  }

  /** The positions of the children with one of the given statuses. */
  ghost function With(children: seq<ReleaseStatus>, statuses: set<ReleaseStatus>): set<int> {
    set i | 0 <= i < |children| && children[i] in statuses
  }

  /** The two columns by status: every release that deployed, even if rolled back since,
      is a success, and the batch is over once each child deployed or failed. */
  lemma RollupMeans(b: Batch, children: seq<ReleaseStatus>)
    requires IsRollup(b, children)
    ensures b.success == |With(children, {PendingVerify, Verified, RollingBack, RolledBack})|
    ensures b.failed == |With(children, {FailedRelease})|
    ensures b.finished <==> children != [] && With(children, {Draft, Deploying}) == {}
  {
    assert children[..|children|] == children;
    CountIsSize(children, |children|, Succeeded);
    CountIsSize(children, |children|, FailedChild);
    assert With(children, {FailedRelease}) == set i | 0 <= i < |children| && ClassOf(children[i]) == FailedChild;
    assert With(children, {PendingVerify, Verified, RollingBack, RolledBack})
        == set i | 0 <= i < |children| && ClassOf(children[i]) == Succeeded;
    assert forall i | 0 <= i < |children| :: i in With(children, {Draft, Deploying}) <==> ClassOf(children[i]) == InFlight;
  }

  // --------------------------------------------------------- the stored batch

  class BatchStore {
    var children: seq<ReleaseStatus>
    var row: Batch

    constructor ()
      ensures children == [] && row == Batch(BatchRunning, 0, 0, 0, false)
    {
      children, row := [], Batch(BatchRunning, 0, 0, 0, false);
    }

    /** Counts the children in a loop and overwrites the row. */
    method Reconcile()
      modifies this`row
      ensures IsRollup(row, children)
    {
      var success, failed, inFlight := 0, 0, 0;
      for i := 0 to |children|
        invariant success == Count(children[..i], Succeeded)
        invariant failed == Count(children[..i], FailedChild)
        invariant inFlight == Count(children[..i], InFlight)
      {
        assert children[..i + 1][..i] == children[..i];
        match children[i] {
          case PendingVerify => success := success + 1;
          case Verified => success := success + 1;
          case RollingBack => success := success + 1;
          case RolledBack => success := success + 1;
          case FailedRelease => failed := failed + 1;
          case Draft => inFlight := inFlight + 1;
          case Deploying => inFlight := inFlight + 1;
        }
      }
      assert children[..|children|] == children;
      var status, finished := BatchRunning, false;
      if inFlight == 0 && |children| > 0 {
        finished := true;
        status := if failed == 0 then BatchSuccess else if success == 0 then BatchFailed else BatchPartial;
      }
      CountsAddUp(children);
      CountIsAll(children, Succeeded);
      CountIsAll(children, FailedChild);
      CountIsAll(children, InFlight);
      row := Batch(status, |children|, success, failed, finished);
    }
  }

  // ------------------------------------------------------------ the protocol

  /** Whose reconcile it is: DeployEnv's own, or that of a child's run. */
  datatype Owner = FanOut | Child(i: nat)

  /** The batch while it runs: `drafting` until DeployEnv turns to its own reconcile,
      `fanOut` until it has made it, `running` the children with an active run, `owed`
      those whose run has ended and recorded a status but not yet reconciled, `pending`
      the roll-ups that a reconcile has computed and not yet written. */
  datatype System = System(
    children: seq<ReleaseStatus>,
    row: Batch,
    drafting: bool,
    fanOut: bool,
    running: set<nat>,
    owed: set<nat>,
    pending: map<Owner, Batch>)

  datatype Event =
    | DraftChild                    // CreateBatchChild
    | StartChild(i: nat)            // Deploy or Retry: MarkDeploying
    | FailStart(i: nat)             // Deploy refused: DeployEnv marks the child failed
    | EndRun(i: nat, ok: bool)      // syncReleaseStatus, up to the reconcile
    | PauseRun(i: nat)
    | ResumeRun(i: nat)             // with a log loaded before the lock, so possibly after the child deployed
    | VerifyChild(i: nat)
    | Supersede(i: nat, s: ReleaseStatus)   // an environment rollback marks a deployed child
    | Reconcile(o: Owner)           // a reconcile taken as one step
    | ReadFor(o: Owner)             // a reconcile, up to the write
    | WriteFor(o: Owner)            // the write of what it read

  /** A reconcile that is still to be made. */
  predicate Due(y: System, o: Owner) {
    match o case FanOut => y.fanOut case Child(i) => i in y.owed
  }

  ghost predicate Enabled(y: System, e: Event) {
    match e
    case DraftChild => y.drafting
    case StartChild(i) => i < |y.children| && y.children[i] in {Draft, FailedRelease}
    case FailStart(i) => y.drafting && i < |y.children|
    case EndRun(i, _) => i < |y.children| && i in y.running
    case PauseRun(i) => i in y.running
    case ResumeRun(i) => i < |y.children|
    case VerifyChild(i) => i < |y.children| && y.children[i] == PendingVerify
    case Supersede(i, s) => i < |y.children| && ClassOf(y.children[i]) == Succeeded && s in {RollingBack, RolledBack}
    case Reconcile(o) => Due(y, o)
    case ReadFor(o) => Due(y, o)
    case WriteFor(o) => o in y.pending
  }

  /** The reconcile of `o` has been made. */
  ghost function Settled(y: System, o: Owner): System {
    match o
    case FanOut => y.(fanOut := false, drafting := false)
    case Child(i) => y.(owed := y.owed - {i})
  }

  ghost predicate Next(y: System, e: Event, y': System) {
    Enabled(y, e) &&
    match e
    case DraftChild => y' == y.(children := y.children + [Draft])
    case StartChild(i) => y' == y.(children := y.children[i := Deploying], running := y.running + {i})
    case FailStart(i) => y' == y.(children := y.children[i := FailedRelease])
    case EndRun(i, ok) =>
      y' == y.(children := y.children[i := if ok then PendingVerify else FailedRelease],
               running := y.running - {i}, owed := y.owed + {i})
    case PauseRun(i) => y' == y.(running := y.running - {i})
    case ResumeRun(i) => y' == y.(running := y.running + {i})
    case VerifyChild(i) => y' == y.(children := y.children[i := Verified])
    case Supersede(i, s) => y' == y.(children := y.children[i := s])
    case Reconcile(o) => y' == Settled(y, o).(row := y'.row) && IsRollup(y'.row, y.children)
    case ReadFor(o) =>
      && o in y'.pending && IsRollup(y'.pending[o], y.children)
      && y' == y.(pending := y.pending[o := y'.pending[o]], drafting := y.drafting && o != FanOut)
    case WriteFor(o) => y' == Settled(y, o).(row := y.pending[o], pending := y.pending - {o})
  }

  ghost predicate IsStart(y: System) {
    y.children == [] && y.drafting && y.fanOut && y.owed == {} && y.running == {} && y.pending == map[]
  }

  ghost predicate IsRun(ys: seq<System>, events: seq<Event>) {
    && |ys| == |events| + 1 && IsStart(ys[0])
    && forall i | 0 <= i < |events| :: StepAt(ys, events, i)
  }

  ghost predicate StepAt(ys: seq<System>, events: seq<Event>, i: nat)
    requires i < |events| == |ys| - 1
  {
    Next(ys[i], events[i], ys[i + 1])
  }

  /** The last event of the first `n` that wrote child `i`'s status. */
  ghost function LastFor(events: seq<Event>, n: nat, i: nat): Option<Event>
    requires n <= |events|
  {
    if n == 0 then None
    else
      match events[n - 1]
      case StartChild(k) => if k == i then Some(events[n - 1]) else LastFor(events, n - 1, i)
      case FailStart(k) => if k == i then Some(events[n - 1]) else LastFor(events, n - 1, i)
      case EndRun(k, _) => if k == i then Some(events[n - 1]) else LastFor(events, n - 1, i)
      case VerifyChild(k) => if k == i then Some(events[n - 1]) else LastFor(events, n - 1, i)
      case Supersede(k, _) => if k == i then Some(events[n - 1]) else LastFor(events, n - 1, i)
      case _ => LastFor(events, n - 1, i)
  }

  /** In every run a child has the status of the last event about it. */
  lemma {:induction false} ChildIsLastWrite(ys: seq<System>, events: seq<Event>, n: nat, i: nat)
    requires IsRun(ys, events) && n < |ys|
    ensures i >= |ys[n].children| ==> LastFor(events, n, i).None?
    ensures i < |ys[n].children| ==>
              match LastFor(events, n, i)
              case None => ys[n].children[i] == Draft
              case Some(StartChild(_)) => ys[n].children[i] == Deploying
              case Some(FailStart(_)) => ys[n].children[i] == FailedRelease
              case Some(EndRun(_, ok)) => ys[n].children[i] == if ok then PendingVerify else FailedRelease
              case Some(VerifyChild(_)) => ys[n].children[i] == Verified
              case Some(Supersede(_, s)) => ys[n].children[i] == s
              case Some(_) => false
    decreases n
  {
    if n > 0 {
      assert StepAt(ys, events, n - 1);
      ChildIsLastWrite(ys, events, n - 1, i);
    }
  }

  /** Every reconcile is one step. */
  ghost predicate OneStep(events: seq<Event>) {
    forall i | 0 <= i < |events| :: !events[i].ReadFor? && !events[i].WriteFor?
  }

  ghost predicate Inv(y: System) {
    y.fanOut || y.owed != {} || !AllTerminal(y.children) || IsRollup(y.row, y.children)
  }

  lemma SameClassSameRollup(b: Batch, children: seq<ReleaseStatus>, i: nat, s: ReleaseStatus)
    requires i < |children| && ClassOf(s) == ClassOf(children[i])
    ensures IsRollup(b, children[i := s]) <==> IsRollup(b, children)
    ensures AllTerminal(children[i := s]) <==> AllTerminal(children)
  {
    CountUpdate(children, i, s, Succeeded);
    CountUpdate(children, i, s, FailedChild);
    assert forall j | 0 <= j < |children| :: ClassOf(children[i := s][j]) == ClassOf(children[j]);
  }

  ghost predicate DraftingInv(y: System) {
    y.drafting ==> y.fanOut
  }

  lemma NextKeepsInv(y: System, e: Event, y': System)
    requires Inv(y) && DraftingInv(y) && Next(y, e, y') && !e.ReadFor? && !e.WriteFor?
    ensures Inv(y') && DraftingInv(y')
  {
    match e
    case VerifyChild(i) => SameClassSameRollup(y.row, y.children, i, Verified);
    case Supersede(i, s) => SameClassSameRollup(y.row, y.children, i, s);
    case StartChild(i) => assert ClassOf(y'.children[i]) == InFlight;
    case EndRun(i, _) => assert i in y'.owed;
    case _ =>
  }

  lemma {:induction false} RunKeepsInv(ys: seq<System>, events: seq<Event>, i: nat)
    requires IsRun(ys, events) && OneStep(events) && i < |ys|
    ensures Inv(ys[i]) && DraftingInv(ys[i])
    decreases i
  {
    if i > 0 {
      RunKeepsInv(ys, events, i - 1);
      assert StepAt(ys, events, i - 1);
      NextKeepsInv(ys[i - 1], events[i - 1], ys[i]);
    }
  }

  /** In every run of the batch with reconciles of one step: once a child exists, all
      children are terminal and no reconcile is owed, the stored row is the exact
      roll-up of the children. */
  lemma SettledBatchIsExact(ys: seq<System>, events: seq<Event>, i: nat)
    requires IsRun(ys, events) && OneStep(events) && i < |ys|
    requires ys[i].children != [] && AllTerminal(ys[i].children) && !ys[i].fanOut && ys[i].owed == {}
    ensures IsRollup(ys[i].row, ys[i].children) && ys[i].row.finished
    ensures ys[i].row.success + ys[i].row.failed == ys[i].row.total
  {
    RunKeepsInv(ys, events, i);
    CountsAddUp(ys[i].children);
    CountIsAll(ys[i].children, InFlight);
  }

  // ------------------------------------------- reconciles that read, then write

  /** Two child lists with the same roll-up. */
  ghost predicate SameCounts(a: seq<ReleaseStatus>, b: seq<ReleaseStatus>) {
    |a| == |b| && Count(a, Succeeded) == Count(b, Succeeded) && Count(a, FailedChild) == Count(b, FailedChild)
  }

  lemma SnapshotExactIff(snapshot: Batch, before: seq<ReleaseStatus>, now: seq<ReleaseStatus>)
    requires IsRollup(snapshot, before)
    ensures IsRollup(snapshot, now) <==> SameCounts(before, now)
  {
    if SameCounts(before, now) {
      CountsAddUp(before);
      CountsAddUp(now);
      forall c: Class ensures All(before, c) == All(now, c) && (Count(before, c) == 0 <==> Count(now, c) == 0) {
        CountIsAll(before, c);
        CountIsAll(now, c);
      }
      CountIsAll(before, InFlight);
      CountIsAll(now, InFlight);
    }
  }

  /** No child that had deployed has failed since. */
  ghost predicate KeepsDeployed(before: seq<ReleaseStatus>, now: seq<ReleaseStatus>) {
    && |before| <= |now|
    && forall i | 0 <= i < |before| && ClassOf(before[i]) == Succeeded :: ClassOf(now[i]) == Succeeded
  }

  /** A step that fails a deployed child: DeployEnv marks a child it could not start, or
      a run that was resumed with a stale log ends in failure. */
  ghost predicate Undeploys(y: System, e: Event) {
    && (e.FailStart? || (e.EndRun? && !e.ok))
    && e.i < |y.children| && ClassOf(y.children[e.i]) == Succeeded
  }

  ghost predicate NoneUndeployed(ys: seq<System>, events: seq<Event>, r: nat, q: nat)
    requires |ys| == |events| + 1
  {
    forall k | r <= k < q && k < |events| :: !Undeploys(ys[k], events[k])
  }

  lemma KeepsDeployedOn(a: seq<ReleaseStatus>, b: seq<ReleaseStatus>, c: seq<ReleaseStatus>)
    requires KeepsDeployed(a, b) && KeepsDeployed(b, c)
    ensures KeepsDeployed(a, c)
  {
  }

  lemma {:induction false} DeployedStay(ys: seq<System>, events: seq<Event>, r: nat, q: nat)
    requires IsRun(ys, events) && r <= q < |ys| && NoneUndeployed(ys, events, r, q)
    ensures KeepsDeployed(ys[r].children, ys[q].children)
    decreases q
  {
    if r < q {
      DeployedStay(ys, events, r, q - 1);
      assert StepAt(ys, events, q - 1);
      DeployedStayOnce(ys[q - 1], events[q - 1], ys[q]);
      KeepsDeployedOn(ys[r].children, ys[q - 1].children, ys[q].children);
    }
  }

  lemma DeployedStayOnce(y: System, e: Event, y': System)
    requires Next(y, e, y') && !Undeploys(y, e)
    ensures KeepsDeployed(y.children, y'.children)
  {
  }

  /** `o` reads at step `r` and writes that reading at step `q`. */
  ghost predicate ReadThenWrite(events: seq<Event>, o: Owner, r: nat, q: nat) {
    && r < q < |events| && events[r] == ReadFor(o) && events[q] == WriteFor(o)
    && forall k | r < k < q :: events[k] != ReadFor(o) && events[k] != WriteFor(o)
  }

  lemma {:induction false} PendingStays(ys: seq<System>, events: seq<Event>, o: Owner, r: nat, k: nat)
    requires IsRun(ys, events) && r < k < |ys| && events[r] == ReadFor(o)
    requires forall j | r < j < k :: events[j] != ReadFor(o) && events[j] != WriteFor(o)
    ensures o in ys[k].pending && IsRollup(ys[k].pending[o], ys[r].children)
    decreases k
  {
    assert StepAt(ys, events, k - 1);
    if r < k - 1 {
      PendingStays(ys, events, o, r, k - 1);
    }
  }

  /** Whatever happens between a reconcile's read and its write, the row it writes is
      exact if and only if the number of children and the two counts are as they were. */
  lemma LateWriteCountsIff(ys: seq<System>, events: seq<Event>, o: Owner, r: nat, q: nat)
    requires IsRun(ys, events) && ReadThenWrite(events, o, r, q)
    ensures ys[q + 1].children == ys[q].children
    ensures IsRollup(ys[q + 1].row, ys[q].children) <==> SameCounts(ys[r].children, ys[q].children)
  {
    PendingStays(ys, events, o, r, q);
    assert StepAt(ys, events, q);
    SnapshotExactIff(ys[q].pending[o], ys[r].children, ys[q].children);
  }

  /** Every child that had failed in `before` has failed in `now`. */
  ghost predicate FailedStay(before: seq<ReleaseStatus>, now: seq<ReleaseStatus>) {
    |before| <= |now| && forall i | 0 <= i < |before| && ClassOf(before[i]) == FailedChild :: ClassOf(now[i]) == FailedChild
  }

  lemma {:induction false} CountsWhenDeployedStay(before: seq<ReleaseStatus>, now: seq<ReleaseStatus>)
    requires |before| == |now| && KeepsDeployed(before, now)
    ensures Count(before, Succeeded) <= Count(now, Succeeded)
    ensures Count(before, Succeeded) == Count(now, Succeeded) ==>
              forall i | 0 <= i < |now| && ClassOf(now[i]) == Succeeded :: ClassOf(before[i]) == Succeeded
    decreases |before|
  {
    if before != [] {
      var n := |before| - 1;
      assert forall i | 0 <= i < n :: before[..n][i] == before[i] && now[..n][i] == now[i];
      CountsWhenDeployedStay(before[..n], now[..n]);
    }
  }

  lemma CountsMatchIff(before: seq<ReleaseStatus>, now: seq<ReleaseStatus>)
    requires KeepsDeployed(before, now) && AllTerminal(now)
    ensures SameCounts(before, now) <==> |before| == |now| && AllTerminal(before) && FailedStay(before, now)
  {
    CountsAddUp(before);
    CountsAddUp(now);
    CountIsAll(before, InFlight);
    CountIsAll(now, InFlight);
    if |before| == |now| {
      CountsWhenDeployedStay(before, now);
      if AllTerminal(before) && FailedStay(before, now) {
        SameClassesSameCount(before, now, Succeeded);
      }
    }
  }

  lemma {:induction false} SameClassesSameCount(a: seq<ReleaseStatus>, b: seq<ReleaseStatus>, c: Class)
    requires |a| == |b| && forall i | 0 <= i < |a| :: ClassOf(a[i]) == ClassOf(b[i])
    ensures Count(a, c) == Count(b, c)
    decreases |a|
  {
    if a != [] {
      SameClassesSameCount(a[..|a| - 1], b[..|b| - 1], c);
    }
  }

  /**
   A reconcile reads the children at one step of a run and writes at a later one, when
   every child has finished and no deployed child was failed in between. The row is then
   exact if and only if at the read every child had been drafted, none was in flight, and
   none that had failed has deployed since.
   */
  lemma LateWriteExactIff(ys: seq<System>, events: seq<Event>, o: Owner, r: nat, q: nat)
    requires IsRun(ys, events) && ReadThenWrite(events, o, r, q) && NoneUndeployed(ys, events, r, q)
    requires AllTerminal(ys[q].children)
    ensures var before, now := ys[r].children, ys[q].children;
            && ys[q + 1].children == now
            && (IsRollup(ys[q + 1].row, now) <==> |before| == |now| && AllTerminal(before) && FailedStay(before, now))
  {
    LateWriteCountsIff(ys, events, o, r, q);
    DeployedStay(ys, events, r, q);
    CountsMatchIff(ys[r].children, ys[q].children);
  }

  // Without drafts and restarts in between, the condition is the one at the read alone.

  /** A step that adds a child, marks one as not started, or lets a finished one run again. */
  ghost predicate DraftsOrRestarts(y: System, e: Event) {
    || e.DraftChild? || e.FailStart?
    || (e.StartChild? && e.i < |y.children| && y.children[e.i] == FailedRelease)
    || (e.ResumeRun? && e.i < |y.children| && ClassOf(y.children[e.i]) != InFlight)
  }

  /** Finished children have no active run. */
  ghost predicate FinishedIdle(y: System) {
    forall i | i in y.running :: i < |y.children| && ClassOf(y.children[i]) == InFlight
  }

  /** Runs only ended: in-flight children may have become terminal, the others kept
      their class. */
  ghost predicate OnlyEnded(before: seq<ReleaseStatus>, now: seq<ReleaseStatus>) {
    && |before| == |now|
    && forall i | 0 <= i < |before| :: ClassOf(before[i]) == InFlight || ClassOf(now[i]) == ClassOf(before[i])
  }

  ghost predicate Unrestarted(ys: seq<System>, events: seq<Event>, r: nat, q: nat)
    requires |ys| == |events| + 1
  {
    forall k | r <= k < q && k < |events| :: !DraftsOrRestarts(ys[k], events[k])
  }

  lemma OnlyEndedOnce(y: System, e: Event, y': System)
    requires Next(y, e, y') && FinishedIdle(y) && !DraftsOrRestarts(y, e)
    ensures OnlyEnded(y.children, y'.children) && FinishedIdle(y')
  {
    match e
    case EndRun(i, _) => assert ClassOf(y.children[i]) == InFlight;
    case _ =>
  }

  lemma OnlyEndedOn(a: seq<ReleaseStatus>, b: seq<ReleaseStatus>, c: seq<ReleaseStatus>)
    requires OnlyEnded(a, b) && OnlyEnded(b, c)
    ensures OnlyEnded(a, c)
  {
  }

  lemma {:induction false} OnlyEndedBetween(ys: seq<System>, events: seq<Event>, r: nat, q: nat)
    requires IsRun(ys, events) && r <= q < |ys| && FinishedIdle(ys[r])
    requires Unrestarted(ys, events, r, q)
    ensures OnlyEnded(ys[r].children, ys[q].children) && FinishedIdle(ys[q])
    decreases q
  {
    if r < q {
      OnlyEndedBetween(ys, events, r, q - 1);
      assert StepAt(ys, events, q - 1);
      OnlyEndedOnce(ys[q - 1], events[q - 1], ys[q]);
      OnlyEndedOn(ys[r].children, ys[q - 1].children, ys[q].children);
    }
  }

  /** Where no child was drafted, marked or restarted between the read and the write,
      the late write is exact if and only if no child was in flight at the read. */
  lemma LateWriteWithoutRestarts(ys: seq<System>, events: seq<Event>, o: Owner, r: nat, q: nat)
    requires IsRun(ys, events) && ReadThenWrite(events, o, r, q) && FinishedIdle(ys[r])
    requires Unrestarted(ys, events, r, q)
    requires AllTerminal(ys[q].children)
    ensures IsRollup(ys[q + 1].row, ys[q + 1].children) <==> AllTerminal(ys[r].children)
  {
    OnlyEndedBetween(ys, events, r, q);
    LateWriteCountsIff(ys, events, o, r, q);
    CountsMatchIff(ys[r].children, ys[q].children);
  }

  // --------------------------------------------------------------- examples

  lemma RollupExists(children: seq<ReleaseStatus>) returns (b: Batch)
    ensures IsRollup(b, children)
  {
    CountsAddUp(children);
    CountIsAll(children, Succeeded);
    CountIsAll(children, FailedChild);
    CountIsAll(children, InFlight);
    var success, failed := Count(children, Succeeded), Count(children, FailedChild);
    var over := children != [] && success + failed == |children|;
    var status := if !over then BatchRunning else if failed == 0 then BatchSuccess else if success == 0 then BatchFailed else BatchPartial;
    b := Batch(status, |children|, success, failed, over);
  }

  lemma Extend(ys: seq<System>, events: seq<Event>, e: Event, y: System)
    requires IsRun(ys, events) && Next(ys[|events|], e, y)
    ensures IsRun(ys + [y], events + [e])
  {
    forall i | 0 <= i <= |events| ensures StepAt(ys + [y], events + [e], i) {
      if i < |events| {
        assert StepAt(ys, events, i);
      }
    }
  }

  /** A run of `n` steps that ends in `y`. */
  ghost predicate Reaches(ys: seq<System>, events: seq<Event>, n: nat, y: System) {
    IsRun(ys, events) && |events| == n && ys[n] == y
  }

  lemma Onward(ys: seq<System>, events: seq<Event>, n: nat, y: System, e: Event, y': System)
    returns (ys': seq<System>, events': seq<Event>)
    requires Reaches(ys, events, n, y) && Next(y, e, y')
    ensures Reaches(ys', events', n + 1, y') && ys' == ys + [y'] && events' == events + [e]
  {
    ys', events' := ys + [y'], events + [e];
    Extend(ys, events, e, y');
  }

  /** A batch of one child; `busy` when its run is on, `due` when it owes a reconcile. */
  ghost function Single(s: ReleaseStatus, row: Batch, drafting: bool, fanOut: bool, busy: bool, due: bool, pending: map<Owner, Batch>): System {
    System.System([s], row, drafting, fanOut, if busy then {0} else {}, if due then {0} else {}, pending)
  }

  /** The child is drafted and started. */
  lemma Started(b: Batch) returns (ys: seq<System>, events: seq<Event>)
    ensures Reaches(ys, events, 2, Single(Deploying, b, true, true, true, false, map[]))
  {
    var y0 := System.System([], b, true, true, {}, {}, map[]);
    var y1 := Single(Draft, b, true, true, false, false, map[]);
    var y2 := Single(Deploying, b, true, true, true, false, map[]);
    assert y0.children + [Draft] == [Draft];
    ys, events := Onward([y0], [], 0, y0, DraftChild, y1);
    ys, events := Onward(ys, events, 1, y1, StartChild(0), y2);
  }

  /** Its run ends and reconciles; then DeployEnv's reconcile reads. */
  lemma EndedAndRead(ok: bool, b: Batch) returns (ys: seq<System>, events: seq<Event>)
    requires IsRollup(b, [if ok then PendingVerify else FailedRelease])
    ensures Reaches(ys, events, 5, Single(if ok then PendingVerify else FailedRelease, b, false, true, false, false, map[FanOut := b]))
    ensures events[4] == ReadFor(FanOut) && ys[4].children == [if ok then PendingVerify else FailedRelease]
  {
    var s := if ok then PendingVerify else FailedRelease;
    var y2 := Single(Deploying, b, true, true, true, false, map[]);
    var y3 := Single(s, b, true, true, false, true, map[]);
    var y4 := Single(s, b, true, true, false, false, map[]);
    var y5 := Single(s, b, false, true, false, false, map[FanOut := b]);
    ys, events := Started(b);
    ys, events := Onward(ys, events, 2, y2, EndRun(0, ok), y3);
    ys, events := Onward(ys, events, 3, y3, Reconcile(Child(0)), y4);
    ys, events := Onward(ys, events, 4, y4, ReadFor(FanOut), y5);
  }

  /** A run of the child ends and reconciles; then DeployEnv's reconcile writes `b`. */
  lemma EndedAndWritten(ys: seq<System>, events: seq<Event>, n: nat, s: ReleaseStatus, ok: bool, b: Batch)
    returns (ys': seq<System>, events': seq<Event>)
    requires Reaches(ys, events, n, Single(s, b, false, true, true, false, map[FanOut := b]))
    ensures Reaches(ys', events', n + 3, Single(if ok then PendingVerify else FailedRelease, b, false, false, false, false, map[]))
    ensures ys <= ys' && events <= events' && events'[n + 2] == WriteFor(FanOut)
  {
    var s' := if ok then PendingVerify else FailedRelease;
    var good := RollupExists([s']);
    var y0 := Single(s, b, false, true, true, false, map[FanOut := b]);
    var y1 := Single(s', b, false, true, false, true, map[FanOut := b]);
    var y2 := Single(s', good, false, true, false, false, map[FanOut := b]);
    var y3 := Single(s', b, false, false, false, false, map[]);
    assert y2.pending - {FanOut} == map[];
    ys', events' := Onward(ys, events, n, y0, EndRun(0, ok), y1);
    ys', events' := Onward(ys', events', n + 1, y1, Reconcile(Child(0)), y2);
    ys', events' := Onward(ys', events', n + 2, y2, WriteFor(FanOut), y3);
  }

  /** Roll-ups of one child tell its class. */
  lemma OneChildRollup(b: Batch, s: ReleaseStatus)
    requires IsRollup(b, [s])
    ensures b.status == match ClassOf(s) case InFlight => BatchRunning case Succeeded => BatchSuccess case FailedChild => BatchFailed
    ensures b.finished <==> ClassOf(s) != InFlight
  {
    var children := [s];
    assert ClassOf(children[0]) == ClassOf(s);
    assert All(children, Succeeded) <==> ClassOf(s) == Succeeded;
    assert All(children, FailedChild) <==> ClassOf(s) == FailedChild;
  }

  /** The batch has one child, nothing is under way or owed, and the row is wrong. */
  ghost predicate WrongForGood(y: System, s: ReleaseStatus, status: BatchStatus) {
    && y.children == [s] && !y.fanOut && y.owed == {} && y.running == {} && y.pending == map[]
    && y.row.status == status && !IsRollup(y.row, y.children)
  }

  /** Two overlapping reconciles: the one that read first writes last, and the finished
      batch stays recorded as running. */
  lemma OverlappingReconcileExample() returns (ys: seq<System>, events: seq<Event>)
    ensures IsRun(ys, events) && |events| == 6 && events[2] == ReadFor(FanOut) && events[5] == WriteFor(FanOut)
    ensures WrongForGood(ys[6], PendingVerify, BatchRunning)
  {
    var b := RollupExists([Deploying]);
    var y2 := Single(Deploying, b, true, true, true, false, map[]);
    var y3 := Single(Deploying, b, false, true, true, false, map[FanOut := b]);
    ys, events := Started(b);
    ys, events := Onward(ys, events, 2, y2, ReadFor(FanOut), y3);
    ys, events := EndedAndWritten(ys, events, 3, Deploying, true, b);
    OneChildRollup(b, Deploying);
    if IsRollup(b, [PendingVerify]) {
      OneChildRollup(b, PendingVerify);
    }
  }

  /** A second way to be wrong: DeployEnv's own reconcile reads a failed child; the child
      is retried, deploys and reconciles; then the first reconcile writes. Nothing was in
      flight when it read, and the deployed batch stays recorded as failed. */
  lemma RetriedChildExample() returns (ys: seq<System>, events: seq<Event>)
    ensures IsRun(ys, events) && |events| == 9 && events[4] == ReadFor(FanOut) && events[8] == WriteFor(FanOut)
    ensures ys[4].children == [FailedRelease] && WrongForGood(ys[9], PendingVerify, BatchFailed)
  {
    var b := RollupExists([FailedRelease]);
    var y5 := Single(FailedRelease, b, false, true, false, false, map[FanOut := b]);
    var y6 := Single(Deploying, b, false, true, true, false, map[FanOut := b]);
    ys, events := EndedAndRead(false, b);
    ys, events := Onward(ys, events, 5, y5, StartChild(0), y6);
    ys, events := EndedAndWritten(ys, events, 6, Deploying, true, b);
    OneChildRollup(b, FailedRelease);
    if IsRollup(b, [PendingVerify]) {
      OneChildRollup(b, PendingVerify);
    }
  }

  /** A third one: DeployEnv's reconcile reads a deployed child, a resume with a stale log
      runs it again and fails it, and the late write records the failed batch as a success. */
  lemma StaleResumeExample() returns (ys: seq<System>, events: seq<Event>)
    ensures IsRun(ys, events) && |events| == 9 && events[4] == ReadFor(FanOut) && events[8] == WriteFor(FanOut)
    ensures ys[4].children == [PendingVerify] && WrongForGood(ys[9], FailedRelease, BatchSuccess)
  {
    var b := RollupExists([PendingVerify]);
    var y5 := Single(PendingVerify, b, false, true, false, false, map[FanOut := b]);
    var y6 := Single(PendingVerify, b, false, true, true, false, map[FanOut := b]);
    ys, events := EndedAndRead(true, b);
    ys, events := Onward(ys, events, 5, y5, ResumeRun(0), y6);
    ys, events := EndedAndWritten(ys, events, 6, PendingVerify, false, b);
    OneChildRollup(b, PendingVerify);
    if IsRollup(b, [FailedRelease]) {
      OneChildRollup(b, FailedRelease);
    }
  }

  /** Rolling back a single child changes no reconciled row exactly when the child
      had deployed; a failed child turns into a success nobody counts. */
  lemma SingleRollbackExactIff(row: Batch, children: seq<ReleaseStatus>, i: nat)
    requires IsRollup(row, children) && i < |children|
    ensures IsRollup(row, children[i := RollingBack]) <==> ClassOf(children[i]) == Succeeded
  {
    CountUpdate(children, i, RollingBack, Succeeded);
    if ClassOf(children[i]) == Succeeded {
      SameClassSameRollup(row, children, i, RollingBack);
    }
  }
}
