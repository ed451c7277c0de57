/**
 Pipeline runs over one deploy log (internal/pipeline/runner.go with the step and
 log repositories). Every store write is one protocol event; a run, a pause
 request, a retry's reset and the start of a run may follow each other in any
 order the code allows, one run at a time and with store writes that succeed.
 */
module Pipeline {
  import opened Common

  datatype StepStatus = StepPending | StepRunning | StepSuccess | StepFailed | StepSkipped

  datatype DeployStatus = RunPending | RunRunning | RunSuccess | RunFailed | RunPaused

  /** A pipeline_step row; timestamps are left out. */
  datatype Row = Row(status: StepStatus, attempt: nat, output: string, errorMsg: string)

  /** A deploy_log row; identity columns and timestamps are left out. */
  datatype Log = Log(status: DeployStatus, pauseRequested: bool, triggerSHA: string, output: string, errorMsg: string)

  /** What executing a step does: fail, succeed, or (git_pull) succeed and resolve a commit. */
  datatype Outcome =
    | Failed(output: string, errorMsg: string)
    | Succeeded(output: string)
    | Pulled(output: string, sha: string)

  // ---------------------------------------------------------- repositories

  function MarkRunning(l: Log): Log {
    l.(status := RunRunning, pauseRequested := false, output := "", errorMsg := "")
  }

  function MarkPaused(l: Log, triggerSHA: string): Log {
    l.(status := RunPaused, pauseRequested := false, triggerSHA := triggerSHA)
  }

  /** Finish writes the in-memory log's columns, except the pause flag. */
  function Finish(stored: Log, mem: Log): Log {
    stored.(triggerSHA := mem.triggerSHA, status := mem.status, output := mem.output, errorMsg := mem.errorMsg)
  }

  function ResetRow(r: Row, first: bool): Row {
    Row(StepPending, if first then r.attempt + 1 else r.attempt, "", "")
  }

  function ResetFrom(rows: seq<Row>, from: nat): seq<Row> {
    seq(|rows|, i requires 0 <= i < |rows| => if i < from then rows[i] else ResetRow(rows[i], i == from))
  }

  // --------------------------------------------------------------- protocol

  /** Where the one active run is: before step `pc`, executing it, or about to
      record its failure. `mem` is the run's in-memory log. */
  datatype RunState =
    | Idle
    | Before(pc: nat, mem: Log)
    | Executing(pc: nat, mem: Log)
    | Failing(pc: nat, mem: Log)

  /** The stored rows and log, the active run, and two history variables: the
      commit the last git_pull resolved, ever and within the current run. */
  datatype World = World(rows: seq<Row>, log: Log, run: RunState, lastPull: Option<string>, runPull: Option<string>)

  datatype Event =
    | RequestPause                // Pause: the flag may land at any moment
    | Reset(from: nat)            // Retry: rows from an index on go back to pending
    | Begin(loaded: Log)          // Deploy, Retry or Resume hands a loaded log to Run
    | Reject(reason: string)      // step-count mismatch or missing local path
    | Skip                        // a step that already succeeded
    | Pause                       // the flag was read at a step boundary
    | StartStep(idx: nat)
    | EndStep(outcome: Outcome)
    | FailRun
    | SucceedRun

  function StartRow(r: Row): Row {
    r.(status := StepRunning, output := "", errorMsg := "")
  }

  /** A failed step shows its reason, behind whatever it had printed. */
  function FailureText(output: string, msg: string): string {
    if output == "" then msg else output + "\n[error] " + msg + "\n"
  }

  function EndRow(r: Row, o: Outcome): Row {
    match o
    case Failed(output, msg) =>
      r.(status := StepFailed, output := FailureText(output, msg), errorMsg := msg)
    case _ => r.(status := StepSuccess, output := o.output)
  }

  function Startable(s: DeployStatus): bool {
    s == RunPending || s == RunPaused || s == RunFailed
  }

  /** One event, or None where the code would not do it. */
  function Apply(w: World, e: Event): Option<World> {
    match e
    case RequestPause => Some(w.(log := w.log.(pauseRequested := true)))
    case Reset(from) =>
      if w.run.Idle? then Some(w.(rows := ResetFrom(w.rows, from))) else None
    case Begin(loaded) =>
      if w.run.Idle? && Startable(loaded.status) then
        Some(w.(log := MarkRunning(w.log), runPull := None,
                run := Before(0, loaded.(status := RunRunning, pauseRequested := false))))
      else None
    case Reject(reason) =>
      if w.run.Before? && w.run.pc == 0 then
        Some(w.(log := Finish(w.log, w.run.mem.(status := RunFailed, output := reason, errorMsg := reason)), run := Idle))
      else None
    case Skip =>
      if AtRow(w) && !Unfinished(w.rows[w.run.pc]) then
        Some(w.(run := Before(w.run.pc + 1, w.run.mem)))
      else None
    case Pause =>
      if AtUnfinishedRow(w) && w.log.pauseRequested then
        Some(w.(log := MarkPaused(w.log, w.run.mem.triggerSHA), run := Idle))
      else None
    case StartStep(i) =>
      if AtUnfinishedRow(w) && i == w.run.pc then
        Some(w.(rows := w.rows[i := StartRow(w.rows[i])], run := Executing(i, w.run.mem)))
      else None
    case EndStep(o) =>
      if w.run.Executing? && w.run.pc < |w.rows| then
        var i, mem := w.run.pc, w.run.mem;
        var w' := w.(rows := w.rows[i := EndRow(w.rows[i], o)]);
        match o
        case Failed(_, _) => Some(w'.(run := Failing(i, mem)))
        case Succeeded(_) => Some(w'.(run := Before(i + 1, mem)))
        case Pulled(_, sha) =>
          Some(w'.(run := Before(i + 1, mem.(triggerSHA := sha)), lastPull := Some(sha), runPull := Some(sha)))
      else None
    case FailRun =>
      if w.run.Failing? && w.run.pc < |w.rows| then
        var row := w.rows[w.run.pc];
        Some(w.(log := Finish(w.log, w.run.mem.(status := RunFailed, output := row.output, errorMsg := row.errorMsg)), run := Idle))
      else None
    case SucceedRun =>
      if w.run.Before? && w.run.pc == |w.rows| then
        Some(w.(log := Finish(w.log, w.run.mem.(status := RunSuccess, output := "", errorMsg := "")), run := Idle))
      else None
  }

  predicate Unfinished(r: Row) {
    r.status != StepSuccess && r.status != StepSkipped
  }

  predicate AtRow(w: World) {
    w.run.Before? && w.run.pc < |w.rows|
  }

  predicate AtUnfinishedRow(w: World) {
    AtRow(w) && Unfinished(w.rows[w.run.pc])
  }

  function Replay(w: World, events: seq<Event>): Option<World>
    decreases |events|
  {
    if events == [] then Some(w)
    else match Apply(w, events[0]) case None => None case Some(w') => Replay(w', events[1..])
  }

  /** A freshly prepared run: every row pending, the pinned commit on the log. */
  ghost predicate Fresh(w: World, pin: string) {
    && (forall i | 0 <= i < |w.rows| :: w.rows[i].status == StepPending)
    && w.run.Idle? && w.lastPull == None && w.runPull == None
    && w.log.status == RunPending && w.log.triggerSHA == pin
  }

  lemma {:induction false} ReplayConcat(w: World, a: seq<Event>, b: seq<Event>)
    ensures Replay(w, a + b) == match Replay(w, a) case None => None case Some(w') => Replay(w', b)
    decreases |a|
  {
    if a == [] {
      assert a + b == b;
    } else {
      assert (a + b)[1..] == a[1..] + b;
      if Apply(w, a[0]).Some? {
        ReplayConcat(Apply(w, a[0]).value, a[1..], b);
      }
    }
  }

  lemma ReplaySnoc(w: World, a: seq<Event>, e: Event)
    requires Replay(w, a).Some?
    ensures Replay(w, a + [e]) == Apply(Replay(w, a).value, e)
  {
    ReplayConcat(w, a, [e]);
    var w' := Replay(w, a).value;
    assert [e][1..] == [];
  }

  // ------------------------------------------------- what each event writes

  /** The events of a step: the row it is about, and no other row and nothing of the log. */
  lemma StepWrites(w: World, e: Event)
    requires Apply(w, e).Some? && (e.StartStep? || e.EndStep?)
    ensures var w', i := Apply(w, e).value, w.run.pc;
            && i < |w.rows| == |w'.rows| && w'.rows == w.rows[i := w'.rows[i]] && w'.log == w.log
            && w'.rows[i].attempt == w.rows[i].attempt
            && match e
               case StartStep(k) => k == i && w'.rows[i].status == StepRunning && w'.rows[i].output == w'.rows[i].errorMsg == ""
               case EndStep(Failed(output, msg)) =>
                 && w'.rows[i].status == StepFailed && w'.rows[i].errorMsg == msg
                 && w'.rows[i].output == if output == "" then msg else output + "\n[error] " + msg + "\n"
               case EndStep(Succeeded(output)) => w'.rows[i].status == StepSuccess && w'.rows[i].output == output
               case EndStep(Pulled(output, sha)) =>
                 && w'.rows[i].status == StepSuccess && w'.rows[i].output == output
                 && w'.run.Before? && w'.run.mem.triggerSHA == sha && w'.lastPull == Some(sha)
               case _ => true
  {
  }

  /** The events of a run's ends: the log, and no row. */
  lemma RunWrites(w: World, e: Event)
    requires Apply(w, e).Some? && !e.StartStep? && !e.EndStep? && !e.Reset?
    ensures var w' := Apply(w, e).value;
            && w'.rows == w.rows
            && match e
               case RequestPause => w'.log == w.log.(pauseRequested := true)
               case Begin(loaded) =>
                 && loaded.status in {RunPending, RunPaused, RunFailed} && w'.run.mem.triggerSHA == loaded.triggerSHA
                 && w'.log == Log(RunRunning, false, w.log.triggerSHA, "", "")
               case Reject(reason) => w'.log == Log(RunFailed, w.log.pauseRequested, w.run.mem.triggerSHA, reason, reason)
               case Skip => w'.log == w.log && w.rows[w.run.pc].status in {StepSuccess, StepSkipped}
               case Pause => w.log.pauseRequested && w'.log == w.log.(status := RunPaused, pauseRequested := false, triggerSHA := w.run.mem.triggerSHA)
               case FailRun =>
                 w'.log == Log(RunFailed, w.log.pauseRequested, w.run.mem.triggerSHA, w.rows[w.run.pc].output, w.rows[w.run.pc].errorMsg)
               case SucceedRun => w'.log == Log(RunSuccess, w.log.pauseRequested, w.run.mem.triggerSHA, "", "")
               case _ => true
  {
  }

  /** A reset puts every row from its index on back to pending with empty texts, counts
      one more attempt on the first of them, and leaves the rows before it alone. */
  lemma ResetClears(w: World, events: seq<Event>, from: nat)
    requires Replay(w, events + [Reset(from)]).Some?
    ensures Replay(w, events).Some?
    ensures var w0, w' := Replay(w, events).value, Replay(w, events + [Reset(from)]).value;
            && |w'.rows| == |w0.rows| && w'.log == w0.log
            && (forall i | 0 <= i < |w0.rows| && i < from :: w'.rows[i] == w0.rows[i])
            && forall i | from <= i < |w0.rows| ::
                 w'.rows[i] == Row(StepPending, if i == from then w0.rows[i].attempt + 1 else w0.rows[i].attempt, "", "")
  {
    ReplayConcat(w, events, [Reset(from)]);
    ReplaySnoc(w, events, Reset(from));
  }

  // ---------------------------------------------------------- row invariant

  /** success … success, then at most one running or failed row, then pending. */
  ghost predicate Ordered(rows: seq<Row>, k: nat) {
    && k <= |rows|
    && (forall i | 0 <= i < k :: rows[i].status == StepSuccess)
    && (k < |rows| ==> rows[k].status in {StepPending, StepRunning, StepFailed})
    && (forall i | k < i < |rows| :: rows[i].status == StepPending)
  }

  /** The rows are ordered and agree with where the run is. */
  ghost predicate Inv(w: World, k: nat) {
    && Ordered(w.rows, k)
    && match w.run
       case Idle => k < |w.rows| ==> w.rows[k].status != StepRunning
       case Before(pc, _) => pc <= k && (k < |w.rows| ==> w.rows[k].status != StepRunning)
       case Executing(pc, _) => pc == k < |w.rows| && w.rows[k].status == StepRunning
       case Failing(pc, _) => pc == k < |w.rows| && w.rows[k].status == StepFailed
  }

  lemma StepKeepsInv(w: World, e: Event, k: nat) returns (k': nat)
    requires Inv(w, k) && Apply(w, e).Some?
    ensures Inv(Apply(w, e).value, k')
    ensures |Apply(w, e).value.rows| == |w.rows|
  {
    match e
    case Reset(from) => k' := if from < k then from else k;
    case EndStep(o) => k' := if o.Failed? then k else k + 1;
    case _ => k' := k;
  }

  lemma {:induction false} ReplayKeepsInv(w: World, events: seq<Event>, k: nat) returns (k': nat)
    requires Inv(w, k) && Replay(w, events).Some?
    ensures Inv(Replay(w, events).value, k') && |Replay(w, events).value.rows| == |w.rows|
    decreases |events|
  {
    if events == [] {
      k' := k;
    } else {
      k' := StepKeepsInv(w, events[0], k);
      k' := ReplayKeepsInv(Apply(w, events[0]).value, events[1..], k');
    }
  }

  /** After any sequence of runs, pauses, resumes and retries the rows read
      success…, at most one running or failed, then pending. */
  lemma RowsAlwaysOrdered(w: World, pin: string, events: seq<Event>) returns (k: nat)
    requires Fresh(w, pin) && Replay(w, events).Some?
    ensures Inv(Replay(w, events).value, k)
  {
    k := ReplayKeepsInv(w, events, 0);
  }

  /** A step starts only when every earlier row is success and its own is not. */
  lemma StartNeedsEarlierSuccess(w: World, pin: string, events: seq<Event>, idx: nat)
    requires Fresh(w, pin) && Replay(w, events + [StartStep(idx)]).Some?
    ensures Replay(w, events).Some?
    ensures var rows := Replay(w, events).value.rows;
            idx < |rows| && rows[idx].status != StepSuccess && forall i | 0 <= i < idx :: rows[i].status == StepSuccess
  {
    ReplayConcat(w, events, [StartStep(idx)]);
    ReplaySnoc(w, events, StartStep(idx));
    var k := RowsAlwaysOrdered(w, pin, events);
  }

  /** A run reports success only over rows that are all success. */
  lemma SuccessMeansEveryStep(w: World, pin: string, events: seq<Event>)
    requires Fresh(w, pin) && Replay(w, events + [SucceedRun]).Some?
    ensures var w' := Replay(w, events + [SucceedRun]).value;
            w'.log.status == RunSuccess && forall i | 0 <= i < |w'.rows| :: w'.rows[i].status == StepSuccess
  {
    ReplayConcat(w, events, [SucceedRun]);
    ReplaySnoc(w, events, SucceedRun);
    var k := RowsAlwaysOrdered(w, pin, events);
  }

  function ResetsAt(events: seq<Event>, i: nat): nat {
    if events == [] then 0 else (if events[0] == Reset(i) then 1 else 0) + ResetsAt(events[1..], i)
  }

  /** A row's attempt counter counts the retries that started at exactly that row. */
  lemma {:induction false} AttemptsCountRetries(w: World, events: seq<Event>, i: nat)
    requires Replay(w, events).Some? && i < |w.rows|
    ensures |Replay(w, events).value.rows| == |w.rows|
    ensures Replay(w, events).value.rows[i].attempt == w.rows[i].attempt + ResetsAt(events, i)
    decreases |events|
  {
    if events != [] {
      AttemptsCountRetries(Apply(w, events[0]).value, events[1..], i);
    }
  }

  // ------------------------------------------------ succeeded steps stay put

  ghost predicate Covers(e: Event, i: nat) {
    e.Reset? && e.from <= i
  }

  /** Without a reset that covers it, a succeeded row stays succeeded and is not started. */
  lemma {:induction false} SuccessStays(w: World, events: seq<Event>, i: nat, k: nat)
    requires Inv(w, k) && Replay(w, events).Some?
    requires i < |w.rows| && w.rows[i].status == StepSuccess
    requires forall j | 0 <= j < |events| :: !Covers(events[j], i)
    ensures |Replay(w, events).value.rows| == |w.rows|
    ensures Replay(w, events).value.rows[..i + 1] == w.rows[..i + 1] && StartStep(i) !in events
    decreases |events|
  {
    if events != [] {
      var w' := Apply(w, events[0]).value;
      var k' := StepKeepsInv(w, events[0], k);
      assert !Covers(events[0], i);
      assert w'.rows[..i + 1] == w.rows[..i + 1];
      assert w'.rows[i] == w'.rows[..i + 1][i] == w.rows[i];
      SuccessStays(w', events[1..], i, k');
    }
  }

  /** Position `a` of the replay finished step `i` successfully. */
  ghost predicate FinishedAt(w: World, events: seq<Event>, a: nat, i: nat) {
    && a < |events| && events[a].EndStep? && !events[a].outcome.Failed?
    && Replay(w, events[..a]).Some? && Replay(w, events[..a]).value.run.Executing?
    && Replay(w, events[..a]).value.run.pc == i
  }

  /** A succeeded step runs again only if a reset in between covered it. */
  lemma RerunNeedsReset(w: World, pin: string, events: seq<Event>, a: nat, b: nat, i: nat)
    requires Fresh(w, pin) && Replay(w, events).Some?
    requires FinishedAt(w, events, a, i) && a < b < |events| && events[b] == StartStep(i)
    ensures exists j :: a < j < b && Covers(events[j], i)
  {
    ReplaySplits(w, events, a);
    var k := AfterFinish(w, pin, events, a, i);
    var after := events[a + 1..];
    var j := CoveredBefore(Apply(Replay(w, events[..a]).value, events[a]).value, after, b - a - 1, i, k);
    assert Covers(events[a + 1 + j], i);
  }

  /** The finished row is success right after it ended. */
  lemma AfterFinish(w: World, pin: string, events: seq<Event>, a: nat, i: nat) returns (k: nat)
    requires Fresh(w, pin) && FinishedAt(w, events, a, i) && Apply(Replay(w, events[..a]).value, events[a]).Some?
    ensures var w' := Apply(Replay(w, events[..a]).value, events[a]).value;
            Inv(w', k) && i < |w'.rows| && w'.rows[i].status == StepSuccess
  {
    var before := Replay(w, events[..a]).value;
    k := ReplayKeepsInv(w, events[..a], 0);
    k := StepKeepsInv(before, events[a], k);
  }

  lemma ReplaySplits(w: World, events: seq<Event>, a: nat)
    requires a < |events| && Replay(w, events).Some?
    ensures Replay(w, events[..a]).Some?
    ensures var before := Replay(w, events[..a]).value;
            && Apply(before, events[a]).Some?
            && Replay(Apply(before, events[a]).value, events[a + 1..]).Some?
  {
    assert events == events[..a] + events[a..];
    ReplayConcat(w, events[..a], events[a..]);
    assert events[a..][1..] == events[a + 1..];
  }

  lemma CoveredBefore(w: World, events: seq<Event>, n: nat, i: nat, k: nat) returns (j: nat)
    requires Inv(w, k) && Replay(w, events).Some? && n < |events| && events[n] == StartStep(i)
    requires i < |w.rows| && w.rows[i].status == StepSuccess
    ensures j < n && Covers(events[j], i)
  {
    var mid := events[..n + 1];
    assert events == mid + events[n + 1..];
    ReplayConcat(w, mid, events[n + 1..]);
    assert mid[n] == StartStep(i);
    if forall j: nat | j < n :: !Covers(events[j], i) {
      SuccessStays(w, mid, i, k);
    }
    j :| j < n && Covers(events[j], i);
  }

  // --------------------------------------------------------- recorded commit

  /** The commit a log should carry: what git_pull last resolved, else the pin. */
  function Expected(w: World, pin: string): string {
    if w.lastPull.Some? then w.lastPull.value else pin
  }

  ghost predicate CommitInv(w: World, pin: string) {
    if w.run.Idle? then w.log.triggerSHA == Expected(w, pin) else w.run.mem.triggerSHA == Expected(w, pin)
  }

  /** Every run works on the log as it is stored when the run begins: loading and
      beginning are taken as one step. */
  ghost predicate FreshLoads(w: World, events: seq<Event>)
    decreases |events|
  {
    events == [] ||
    ((events[0].Begin? ==> events[0].loaded == w.log)
     && (Apply(w, events[0]).Some? ==> FreshLoads(Apply(w, events[0]).value, events[1..])))
  }

  lemma {:induction false} CommitKept(w: World, pin: string, events: seq<Event>)
    requires CommitInv(w, pin) && FreshLoads(w, events) && Replay(w, events).Some?
    ensures CommitInv(Replay(w, events).value, pin)
    decreases |events|
  {
    if events != [] {
      CommitKept(Apply(w, events[0]).value, pin, events[1..]);
    }
  }

  /** When a run reports success, the recorded commit is the one the last git_pull
      resolved, across pauses, failures and retries (the pin if none ever ran). */
  lemma RecordedCommit(w: World, pin: string, events: seq<Event>)
    requires Fresh(w, pin) && FreshLoads(w, events + [SucceedRun]) && Replay(w, events + [SucceedRun]).Some?
    ensures var w' := Replay(w, events + [SucceedRun]).value;
            w'.log.triggerSHA == if w'.lastPull.Some? then w'.lastPull.value else pin
  {
    CommitKept(w, pin, events + [SucceedRun]);
    ReplayConcat(w, events, [SucceedRun]);
    ReplaySnoc(w, events, SucceedRun);
  }

  /** Events of one run, between its begin and its end. */
  ghost predicate WithinRun(events: seq<Event>) {
    forall i | 0 <= i < |events| :: events[i].RequestPause? || events[i].Skip? || events[i].StartStep? || events[i].EndStep?
  }

  lemma {:induction false} RunCommit(w: World, events: seq<Event>, base: string)
    requires WithinRun(events) && Replay(w, events).Some?
    requires !w.run.Idle? && w.run.mem.triggerSHA == (if w.runPull.Some? then w.runPull.value else base)
    requires w.runPull.Some? ==> w.lastPull == w.runPull
    ensures w.runPull.Some? ==> Replay(w, events).value.runPull.Some?
    ensures var w' := Replay(w, events).value;
            && !w'.run.Idle? && w'.run.mem.triggerSHA == (if w'.runPull.Some? then w'.runPull.value else base)
            && (if w'.runPull.Some? then w'.lastPull == w'.runPull else w'.lastPull == w.lastPull)
    decreases |events|
  {
    if events != [] {
      RunCommit(Apply(w, events[0]).value, events[1..], base);
    }
  }

  /** Without that assumption, what a run records depends on whether it pulls again. */
  lemma StaleLoadCommit(w: World, pin: string, loaded: Log, body: seq<Event>)
    requires WithinRun(body) && Replay(w, [Begin(loaded)] + body + [SucceedRun]).Some?
    ensures var w' := Replay(w, [Begin(loaded)] + body + [SucceedRun]).value;
            w'.log.triggerSHA == Expected(w', pin) <==> w'.runPull.Some? || loaded.triggerSHA == Expected(w, pin)
  {
    ReplayConcat(w, [Begin(loaded)] + body, [SucceedRun]);
    ReplaySnoc(w, [Begin(loaded)] + body, SucceedRun);
    ReplayConcat(w, [Begin(loaded)], body);
    ReplaySnoc(w, [], Begin(loaded));
    assert [] + [Begin(loaded)] == [Begin(loaded)];
    RunCommit(Apply(w, Begin(loaded)).value, body, loaded.triggerSHA);
  }

  /** The commit on the log that the latest run was begun with. */
  function LoadedCommit(base: string, events: seq<Event>): string
    decreases |events|
  {
    if events == [] then base
    else LoadedCommit(if events[0].Begin? then events[0].loaded.triggerSHA else base, events[1..])
  }

  /** The active run carries its own last pull, else the commit it was begun with. */
  ghost predicate Carries(w: World, base: string) {
    !w.run.Idle? ==> w.run.mem.triggerSHA == if w.runPull.Some? then w.runPull.value else base
  }

  lemma {:induction false} AlwaysCarries(w: World, events: seq<Event>, base: string)
    requires Carries(w, base) && Replay(w, events).Some?
    ensures Carries(Replay(w, events).value, LoadedCommit(base, events))
    decreases |events|
  {
    if events != [] {
      AlwaysCarries(Apply(w, events[0]).value, events[1..], if events[0].Begin? then events[0].loaded.triggerSHA else base);
    }
  }

  /** Over any history, with stale loads, pauses, failures and retries in it: a success
      records the last commit its own run pulled, else the one on the log it was begun with. */
  lemma SuccessRecords(w: World, pin: string, events: seq<Event>)
    requires Fresh(w, pin) && Replay(w, events + [SucceedRun]).Some?
    ensures var w' := Replay(w, events + [SucceedRun]).value;
            w'.log.triggerSHA == if w'.runPull.Some? then w'.runPull.value else LoadedCommit(pin, events)
  {
    ReplayConcat(w, events, [SucceedRun]);
    ReplaySnoc(w, events, SucceedRun);
    AlwaysCarries(w, events, pin);
  }

  /** git_pull is the first step of every pipeline, and the only one that resolves a commit. */
  ghost predicate PullsFirst(w: World, events: seq<Event>)
    decreases |events|
  {
    events == [] ||
    ((events[0].EndStep? && w.run.Executing? && !events[0].outcome.Failed? ==> (events[0].outcome.Pulled? <==> w.run.pc == 0))
     && (Apply(w, events[0]).Some? ==> PullsFirst(Apply(w, events[0]).value, events[1..])))
  }

  /** Behind the first step, the run has pulled exactly if that step was unfinished
      when the run began. */
  ghost predicate PulledIff(w: World, unfinished: bool) {
    match w.run
    case Before(0, _) => w.runPull.None? && w.rows != [] && (Unfinished(w.rows[0]) <==> unfinished)
    case Executing(0, _) => w.runPull.None? && w.rows != [] && unfinished
    case Before(_, _) => w.runPull.Some? <==> unfinished
    case Executing(_, _) => w.runPull.Some? <==> unfinished
    case _ => true
  }

  lemma {:induction false} PulledIffKept(w: World, events: seq<Event>, unfinished: bool)
    requires WithinRun(events) && PullsFirst(w, events) && PulledIff(w, unfinished) && Replay(w, events).Some?
    ensures PulledIff(Replay(w, events).value, unfinished) && |Replay(w, events).value.rows| == |w.rows|
    decreases |events|
  {
    if events != [] {
      PulledIffKept(Apply(w, events[0]).value, events[1..], unfinished);
    }
  }

  lemma RunPullsIff(w: World, loaded: Log, body: seq<Event>)
    requires WithinRun(body) && w.rows != [] && Replay(w, [Begin(loaded)] + body + [SucceedRun]).Some?
    requires PullsFirst(w, [Begin(loaded)] + body)
    ensures Replay(w, [Begin(loaded)] + body + [SucceedRun]).value.runPull.Some? <==> Unfinished(w.rows[0])
  {
    var run := [Begin(loaded)] + body;
    ReplayConcat(w, run, [SucceedRun]);
    ReplaySnoc(w, run, SucceedRun);
    assert run[1..] == body;
    PulledIffKept(Apply(w, Begin(loaded)).value, body, Unfinished(w.rows[0]));
  }

  /**
   Without that assumption, a run that begins with a log loaded earlier records
   the right commit exactly when the git_pull row is unfinished as it begins, or the
   loaded log still carries the stored commit.
   */
  lemma StaleLoadCommitIff(w: World, pin: string, loaded: Log, body: seq<Event>)
    requires CommitInv(w, pin) && w.run.Idle? && w.rows != []
    requires WithinRun(body) && PullsFirst(w, [Begin(loaded)] + body)
    requires Replay(w, [Begin(loaded)] + body + [SucceedRun]).Some?
    ensures var w' := Replay(w, [Begin(loaded)] + body + [SucceedRun]).value;
            w'.log.triggerSHA == Expected(w', pin) <==> Unfinished(w.rows[0]) || loaded.triggerSHA == w.log.triggerSHA
  {
    StaleLoadCommit(w, pin, loaded, body);
    RunPullsIff(w, loaded, body);
  }

  lemma Chain(w: World, e: Event, rest: seq<Event>)
    requires Apply(w, e).Some?
    ensures Replay(w, [e] + rest) == Replay(Apply(w, e).value, rest)
  {
    assert ([e] + rest)[1..] == rest;
  }

  lemma Chain3(w: World, e1: Event, e2: Event, e3: Event)
    requires Apply(w, e1).Some? && Apply(Apply(w, e1).value, e2).Some?
    ensures Replay(w, [e1, e2, e3]) == Apply(Apply(Apply(w, e1).value, e2).value, e3)
  {
    var w2 := Apply(Apply(w, e1).value, e2).value;
    Chain(w, e1, [e2, e3]);
    assert [e1] + [e2, e3] == [e1, e2, e3];
    Chain(Apply(w, e1).value, e2, [e3]);
    assert [e2] + [e3] == [e2, e3];
    assert [e3][1..] == [];
  }

  /** Steps `i` to `n` start and succeed. */
  function StepsFrom(i: nat, n: nat): seq<Event>
    decreases n - i
  {
    if i >= n then [] else [StartStep(i)] + ([EndStep(Succeeded(""))] + StepsFrom(i + 1, n))
  }

  function SkipsFrom(i: nat, n: nat): seq<Event>
    decreases n - i
  {
    if i >= n then [] else [Skip] + SkipsFrom(i + 1, n)
  }

  ghost predicate AllSucceeded(rows: seq<Row>, n: nat) {
    n <= |rows| && forall i | 0 <= i < n :: rows[i].status == StepSuccess
  }

  /** Before step `i`: the rows in front of it are success, the others pending. */
  ghost predicate AtStep(w: World, i: nat, sha: string) {
    && w.run.Before? && w.run.pc == i && w.run.mem.triggerSHA == sha
    && AllSucceeded(w.rows, i) && forall j | i <= j < |w.rows| :: w.rows[j].status == StepPending
  }

  lemma OneStepRuns(w: World, i: nat, sha: string) returns (w': World)
    requires AtStep(w, i, sha) && i < |w.rows|
    ensures Apply(w, StartStep(i)).Some? && Apply(Apply(w, StartStep(i)).value, EndStep(Succeeded(""))) == Some(w')
    ensures AtStep(w', i + 1, sha) && |w'.rows| == |w.rows| && w'.lastPull == w.lastPull
  {
    w' := Apply(Apply(w, StartStep(i)).value, EndStep(Succeeded(""))).value;
  }

  lemma {:induction false} StepsRun(w: World, i: nat, sha: string) returns (w': World)
    requires AtStep(w, i, sha)
    ensures Replay(w, StepsFrom(i, |w.rows|)) == Some(w')
    ensures AtStep(w', |w.rows|, sha) && |w'.rows| == |w.rows| && w'.lastPull == w.lastPull
    decreases |w.rows| - i
  {
    if i >= |w.rows| {
      w' := w;
    } else {
      var next := OneStepRuns(w, i, sha);
      w' := StepsRun(next, i + 1, sha);
      Chain(Apply(w, StartStep(i)).value, EndStep(Succeeded("")), StepsFrom(i + 1, |w.rows|));
      Chain(w, StartStep(i), [EndStep(Succeeded(""))] + StepsFrom(i + 1, |w.rows|));
    }
  }

  lemma {:induction false} SkipsRun(w: World, i: nat)
    requires w.run.Before? && w.run.pc == i <= |w.rows| && AllSucceeded(w.rows, |w.rows|)
    ensures Replay(w, SkipsFrom(i, |w.rows|)) == Some(w.(run := Before(|w.rows|, w.run.mem)))
    decreases |w.rows| - i
  {
    if i < |w.rows| {
      Chain(w, Skip, SkipsFrom(i + 1, |w.rows|));
      SkipsRun(Apply(w, Skip).value, i + 1);
    }
  }

  lemma PausedBeforePull(w: World, pin: string) returns (w1: World)
    requires Fresh(w, pin) && w.rows != []
    ensures Replay(w, [Begin(w.log), RequestPause, Pause]) == Some(w1)
    ensures w1.rows == w.rows && w1.run.Idle?
    ensures w1.log.status == RunPaused && w1.log.triggerSHA == pin
  {
    Chain3(w, Begin(w.log), RequestPause, Pause);
    w1 := Replay(w, [Begin(w.log), RequestPause, Pause]).value;
  }

  lemma PulledOnResume(w1: World, sha: string) returns (w2: World)
    requires w1.rows != [] && w1.run.Idle? && w1.log.status == RunPaused
    requires forall i | 0 <= i < |w1.rows| :: w1.rows[i].status == StepPending
    ensures Replay(w1, [Begin(w1.log), StartStep(0), EndStep(Pulled("", sha))]) == Some(w2)
    ensures AtStep(w2, 1, sha) && |w2.rows| == |w1.rows| && w2.lastPull == Some(sha)
  {
    Chain3(w1, Begin(w1.log), StartStep(0), EndStep(Pulled("", sha)));
    w2 := Replay(w1, [Begin(w1.log), StartStep(0), EndStep(Pulled("", sha))]).value;
  }

  lemma ResumedAgain(w3: World, loaded: Log) returns (final: World)
    requires AllSucceeded(w3.rows, |w3.rows|) && w3.run.Idle? && loaded.status == RunPaused
    ensures Replay(w3, [Begin(loaded)] + SkipsFrom(0, |w3.rows|) + [SucceedRun]) == Some(final)
    ensures final.lastPull == w3.lastPull && final.log.status == RunSuccess && final.log.triggerSHA == loaded.triggerSHA
  {
    var skipped := [Begin(loaded)] + SkipsFrom(0, |w3.rows|);
    SkipsRun(Apply(w3, Begin(loaded)).value, 0);
    Chain(w3, Begin(loaded), SkipsFrom(0, |w3.rows|));
    ReplaySnoc(w3, skipped, SucceedRun);
    final := Replay(w3, skipped + [SucceedRun]).value;
  }

  /** The first resume: git_pull resolves `sha`, the other steps succeed. */
  function PullAndFinish(loaded: Log, n: nat, sha: string): seq<Event> {
    [Begin(loaded), StartStep(0), EndStep(Pulled("", sha))] + StepsFrom(1, n) + [SucceedRun]
  }

  /** The second resume: every step is done already. */
  function SkipAndFinish(loaded: Log, n: nat): seq<Event> {
    [Begin(loaded)] + SkipsFrom(0, n) + [SucceedRun]
  }

  lemma FirstResume(w1: World, sha: string) returns (w4: World)
    requires w1.rows != [] && w1.run.Idle? && w1.log.status == RunPaused
    requires forall i | 0 <= i < |w1.rows| :: w1.rows[i].status == StepPending
    ensures Replay(w1, PullAndFinish(w1.log, |w1.rows|, sha)) == Some(w4)
    ensures AllSucceeded(w4.rows, |w4.rows|) && |w4.rows| == |w1.rows| && w4.run.Idle? && w4.lastPull == Some(sha)
    ensures w4.log.status == RunSuccess && w4.log.triggerSHA == sha
  {
    var pull, steps := [Begin(w1.log), StartStep(0), EndStep(Pulled("", sha))], StepsFrom(1, |w1.rows|);
    var w2 := PulledOnResume(w1, sha);
    var w3 := StepsRun(w2, 1, sha);
    Then(w1, pull, steps);
    ReplaySnoc(w1, pull + steps, SucceedRun);
    w4 := Apply(w3, SucceedRun).value;
  }

  /** The failing case happens, in a pipeline of any length: two resumes load a log
      paused before git_pull; the first pulls, runs the other steps and succeeds, the
      second finds every step done and records the pin over the resolved commit. */
  lemma StaleResumeLosesCommit(w: World, pin: string, sha: string) returns (paused: World, final: World)
    requires Fresh(w, pin) && w.rows != [] && pin != sha
    ensures Replay(w, [Begin(w.log), RequestPause, Pause]) == Some(paused) && paused.log.status == RunPaused
    ensures Replay(paused, PullAndFinish(paused.log, |w.rows|, sha) + SkipAndFinish(paused.log, |w.rows|)) == Some(final)
    ensures final.lastPull == Some(sha) && final.log.status == RunSuccess && final.log.triggerSHA == pin
  {
    paused := PausedBeforePull(w, pin);
    var done := FirstResume(paused, sha);
    final := ResumedAgain(done, paused.log);
    Then(paused, PullAndFinish(paused.log, |w.rows|, sha), SkipAndFinish(paused.log, |w.rows|));
  }

  // ------------------------------------------------------- the runner itself

  /** The stored rows and log of one run. */
  class DeployStore {
    var rows: seq<Row>
    var log: Log

    constructor (rows: seq<Row>, log: Log)
      ensures this.rows == rows && this.log == log
    {
      this.rows, this.log := rows, log;
    }

    method UpdateStep(i: nat, r: Row)
      requires i < |rows|
      modifies this`rows
      ensures rows == old(rows)[i := r]
    {
      rows := rows[i := r];
    }

    method ResetSteps(from: nat)
      modifies this`rows
      ensures rows == ResetFrom(old(rows), from)
      ensures forall i | 0 <= i < |rows| && i < from :: rows[i] == old(rows)[i]
      ensures forall i | from <= i < |rows| ::
                rows[i] == Row(StepPending, if i == from then old(rows)[i].attempt + 1 else old(rows)[i].attempt, "", "")
    {
      var i := 0;
      ghost var before := rows;
      while i < |rows|
        invariant 0 <= i <= |rows| == |before|
        invariant forall k | 0 <= k < i :: rows[k] == ResetFrom(before, from)[k]
        invariant forall k | i <= k < |rows| :: rows[k] == before[k]
      {
        if i >= from {
          rows := rows[i := ResetRow(rows[i], i == from)];
        }
        i := i + 1;
      }
    }
  }

  /** What happens around one step: a pause request arriving before its boundary,
      whether re-reading the log succeeds, and what executing the step does. */
  datatype Tick = Tick(pauseArrives: bool, readOk: bool, outcome: Outcome)

  // What a run over `rows` does, read off the rows and the ticks alone.

  /** A pause request is read at the boundary before step `i`. */
  ghost predicate PauseSeen(rows: seq<Row>, ticks: seq<Tick>, i: nat)
    requires i < |rows| == |ticks|
  {
    Unfinished(rows[i]) && ticks[i].readOk && PauseAsked(rows, ticks, i + 1)
  }

  /** A pause request arrived at one of the first `n` boundaries. */
  ghost predicate PauseAsked(rows: seq<Row>, ticks: seq<Tick>, n: nat)
    requires n <= |rows| == |ticks|
  {
    exists j | 0 <= j < n :: Unfinished(rows[j]) && ticks[j].pauseArrives
  }

  ghost predicate StopsAt(rows: seq<Row>, ticks: seq<Tick>, i: nat)
    requires i < |rows| == |ticks|
  {
    Unfinished(rows[i]) && (PauseSeen(rows, ticks, i) || ticks[i].outcome.Failed?)
  }

  /** The run gets through the first `n` steps. */
  ghost predicate Passes(rows: seq<Row>, ticks: seq<Tick>, n: nat)
    requires n <= |rows| == |ticks|
  {
    forall i | 0 <= i < n :: !StopsAt(rows, ticks, i)
  }

  /** The rows once the first `n` steps have been gone through. */
  ghost function RowsAfter(rows: seq<Row>, ticks: seq<Tick>, n: nat): seq<Row>
    requires n <= |rows| == |ticks|
  {
    seq(|rows|, i requires 0 <= i < |rows| =>
      if i < n && Unfinished(rows[i]) then EndRow(StartRow(rows[i]), ticks[i].outcome) else rows[i])
  }

  /** The commit after the first `n` steps: the last one pulled, else the one before. */
  ghost function CommitAfter(rows: seq<Row>, ticks: seq<Tick>, n: nat, loaded: string): string
    requires n <= |rows| == |ticks|
  {
    if n == 0 then loaded
    else if Unfinished(rows[n - 1]) && ticks[n - 1].outcome.Pulled? then ticks[n - 1].outcome.sha
    else CommitAfter(rows, ticks, n - 1, loaded)
  }

  /** The outcome of a run that stops at step `k`, or gets through all of them. */
  ghost predicate RunsTo(rows: seq<Row>, ticks: seq<Tick>, loaded: string, k: nat, rows': seq<Row>, mem: Log)
    requires |rows| == |ticks|
  {
    && k <= |rows| && Passes(rows, ticks, k) && mem.triggerSHA == CommitAfter(rows, ticks, k, loaded)
    && if k == |rows| then
         mem.status == RunSuccess && mem.output == mem.errorMsg == "" && rows' == RowsAfter(rows, ticks, k)
       else if PauseSeen(rows, ticks, k) then
         mem.status == RunPaused && rows' == RowsAfter(rows, ticks, k)
       else
         && StopsAt(rows, ticks, k) && mem.status == RunFailed
         && rows' == RowsAfter(rows, ticks, k + 1)
         && mem.output == rows'[k].output && mem.errorMsg == rows'[k].errorMsg
  }

  /** A run succeeds exactly when no unfinished step fails or meets a pause; what it
      does is determined by the rows and the ticks. */
  lemma OutcomeIsDetermined(rows: seq<Row>, ticks: seq<Tick>, loaded: string, k: nat, rows': seq<Row>, mem: Log, k2: nat, rows2: seq<Row>, mem2: Log)
    requires |rows| == |ticks|
    requires RunsTo(rows, ticks, loaded, k, rows', mem) && RunsTo(rows, ticks, loaded, k2, rows2, mem2)
    ensures k == k2 && rows' == rows2 && mem.status == mem2.status && mem.triggerSHA == mem2.triggerSHA
    ensures mem.status == RunSuccess <==> Passes(rows, ticks, |rows|)
  {
    if k < |rows| {
      assert StopsAt(rows, ticks, k);
    }
    if k2 < |rows| {
      assert StopsAt(rows, ticks, k2);
    }
  }

  ghost function WorldOf(s: DeployStore, run: RunState, w: World): World
    reads s
  {
    World(s.rows, s.log, run, w.lastPull, w.runPull)
  }

  /** runOne: the row goes to running, the step executes, and the row and the
      in-memory log take its outcome. */
  method RunOne(store: DeployStore, i: nat, mem: Log, outcome: Outcome, ghost w: World)
    returns (mem': Log, ghost w': World)
    requires w == WorldOf(store, Before(i, mem), w) && AtUnfinishedRow(w)
    modifies store
    ensures Replay(w, [StartStep(i), EndStep(outcome)]) == Some(w')
    ensures store.log == old(store.log) && |store.rows| == |old(store.rows)|
    ensures store.rows == old(store.rows)[i := EndRow(StartRow(old(store.rows)[i]), outcome)]
    ensures mem' == if outcome.Pulled? then mem.(triggerSHA := outcome.sha) else mem
    ensures w' == WorldOf(store, if outcome.Failed? then Failing(i, mem) else Before(i + 1, mem'), w')
  {
    var row := store.rows[i];
    row := row.(status := StepRunning, output := "", errorMsg := "");
    store.UpdateStep(i, row);
    ghost var started := Apply(w, StartStep(i)).value;
    mem' := mem;
    match outcome {
      case Failed(output, msg) =>
        row := row.(status := StepFailed, output := FailureText(output, msg), errorMsg := msg);
      case Succeeded(output) =>
        row := row.(status := StepSuccess, output := output);
      case Pulled(output, sha) =>
        mem' := mem.(triggerSHA := sha);
        row := row.(status := StepSuccess, output := output);
    }
    store.UpdateStep(i, row);
    w' := Apply(started, EndStep(outcome)).value;
    Chain(w, StartStep(i), [EndStep(outcome)]);
    Chain(started, EndStep(outcome), []);
    assert [EndStep(outcome)] + [] == [EndStep(outcome)];
    assert [StartStep(i)] + [EndStep(outcome)] == [StartStep(i), EndStep(outcome)];
    assert started.rows[i := row] == store.rows;
  }

  /** fail: the run's terminal write when a step failed or the run was refused. */
  method Fail(store: DeployStore, mem: Log, output: string, errorMsg: string) returns (mem': Log)
    modifies store`log
    ensures mem' == mem.(status := RunFailed, output := output, errorMsg := errorMsg)
    ensures store.log == Finish(old(store.log), mem')
  {
    mem' := mem.(status := RunFailed, output := output, errorMsg := errorMsg);
    store.log := Finish(store.log, mem');
  }

  ghost predicate Quiet(events: seq<Event>) {
    forall i | 0 <= i < |events| :: !events[i].Begin? && !events[i].Reset?
  }

  /** The terminal write a run ends with, by the status its in-memory log takes. */
  ghost predicate EndsAs(e: Event, status: DeployStatus) {
    match e
    case SucceedRun => status == RunSuccess
    case Pause => status == RunPaused
    case FailRun => status == RunFailed
    case Reject(_) => status == RunFailed
    case _ => false
  }

  /** What one iteration, or the whole run, leaves behind: the protocol state `w`,
      either before a next step or with the run over and its log recorded. */
  ghost predicate Leaves(s: DeployStore, w: World, mem: Log, next: Option<nat>, events: seq<Event>)
    reads s
  {
    && Quiet(events)
    && match next
       case Some(pc) => w == WorldOf(s, Before(pc, mem), w)
       case None =>
         && w == WorldOf(s, Idle, w) && mem.status == s.log.status && mem.triggerSHA == s.log.triggerSHA
         && events != [] && EndsAs(events[|events| - 1], mem.status)
  }

  lemma LeavesAfter(s: DeployStore, w: World, mem: Log, next: Option<nat>, events: seq<Event>, more: seq<Event>)
    requires Quiet(events) && Leaves(s, w, mem, next, more)
    ensures Leaves(s, w, mem, next, events + more)
  {
  }

  /** What one iteration does to the rows, the pause flag and the in-memory log. */
  ghost predicate Iterates(rows: seq<Row>, flag: bool, mem: Log, i: nat, tick: Tick,
                           rows': seq<Row>, flag': bool, mem': Log, next: Option<nat>)
    requires i < |rows|
  {
    if !Unfinished(rows[i]) then rows' == rows && flag' == flag && mem' == mem && next == Some(i + 1)
    else if tick.readOk && (flag || tick.pauseArrives) then
      rows' == rows && mem' == mem.(status := RunPaused) && next == None
    else StepDone(rows, flag || tick.pauseArrives, mem, i, tick.outcome, rows', flag', mem', next)
  }

  ghost predicate StepDone(rows: seq<Row>, flag: bool, mem: Log, i: nat, outcome: Outcome,
                           rows': seq<Row>, flag': bool, mem': Log, next: Option<nat>)
    requires i < |rows|
  {
    && rows' == rows[i := EndRow(StartRow(rows[i]), outcome)]
    && match outcome
       case Failed(_, _) =>
         next == None && mem' == mem.(status := RunFailed, output := rows'[i].output, errorMsg := rows'[i].errorMsg)
       case Succeeded(_) => next == Some(i + 1) && flag' == flag && mem' == mem
       case Pulled(_, sha) => next == Some(i + 1) && flag' == flag && mem' == mem.(triggerSHA := sha)
  }

  /** Of all steps, only step `i` was started, and it only if `yes`. */
  ghost predicate StartedOnly(events: seq<Event>, i: nat, yes: bool) {
    forall j: nat :: StartStep(j) in events <==> j == i && yes
  }

  /** The steps that were started are those of the first `n` that were not done. */
  ghost predicate StartsExactly(events: seq<Event>, rows: seq<Row>, n: nat)
    requires n <= |rows|
  {
    forall j: nat :: StartStep(j) in events <==> j < n && rows[j].status != StepSuccess && rows[j].status != StepSkipped
  }

  lemma StartsOneMore(events: seq<Event>, more: seq<Event>, rows: seq<Row>, n: nat)
    requires n < |rows| && StartsExactly(events, rows, n)
    requires StartedOnly(more, n, rows[n].status != StepSuccess && rows[n].status != StepSkipped)
    ensures StartsExactly(events + more, rows, n + 1)
  {
  }

  /** One iteration of the loop: skip, pause at the boundary, or run the step. */
  method RunIteration(store: DeployStore, i: nat, mem: Log, tick: Tick, ghost w: World)
    returns (mem': Log, next: Option<nat>, ghost events: seq<Event>)
    requires w == WorldOf(store, Before(i, mem), w) && i < |store.rows|
    modifies store
    ensures Replay(w, events).Some? && Leaves(store, Replay(w, events).value, mem', next, events)
    ensures next in {None, Some(i + 1)} && |store.rows| == |old(store.rows)|
    ensures Iterates(old(store.rows), old(store.log.pauseRequested), mem, i, tick,
                     store.rows, store.log.pauseRequested, mem', next)
    ensures next.Some? ==> StartedOnly(events, i, Unfinished(old(store.rows)[i]))
  {
    var row := store.rows[i];
    mem', next, events := mem, Some(i + 1), [];
    if row.status == StepSuccess || row.status == StepSkipped {
      ReplaySnoc(w, [], Skip);
      events := [] + [Skip];
      return;
    }
    ghost var w1 := w;
    if tick.pauseArrives {
      store.log := store.log.(pauseRequested := true);
      ReplaySnoc(w, [], RequestPause);
      events := [] + [RequestPause];
      w1 := Apply(w, RequestPause).value;
    }
    if tick.readOk && store.log.pauseRequested {
      store.log := MarkPaused(store.log, mem.triggerSHA);
      mem', next := mem.(status := RunPaused), None;
      ReplaySnoc(w, events, Pause);
      events := events + [Pause];
      return;
    }
    ghost var stepEvents;
    mem', next, stepEvents := RunStep(store, i, mem, tick.outcome, w1);
    ReplayConcat(w, events, stepEvents);
    events := events + stepEvents;
  }

  /** The step itself, and the run's failure when it failed. */
  method RunStep(store: DeployStore, i: nat, mem: Log, outcome: Outcome, ghost w: World)
    returns (mem': Log, next: Option<nat>, ghost events: seq<Event>)
    requires w == WorldOf(store, Before(i, mem), w) && AtUnfinishedRow(w)
    modifies store
    ensures Replay(w, events).Some? && Leaves(store, Replay(w, events).value, mem', next, events)
    ensures next in {None, Some(i + 1)} && |store.rows| == |old(store.rows)|
    ensures StepDone(old(store.rows), old(store.log.pauseRequested), mem, i, outcome,
                     store.rows, store.log.pauseRequested, mem', next)
    ensures StartedOnly(events, i, true)
  {
    ghost var w';
    mem', w' := RunOne(store, i, mem, outcome, w);
    next, events := Some(i + 1), [StartStep(i), EndStep(outcome)];
    if outcome.Failed? {
      mem' := Fail(store, mem', store.rows[i].output, store.rows[i].errorMsg);
      ReplaySnoc(w, events, FailRun);
      next, events := None, events + [FailRun];
    }
  }

  lemma Then(w: World, a: seq<Event>, b: seq<Event>)
    requires Replay(w, a).Some? && Replay(Replay(w, a).value, b).Some?
    ensures Replay(w, a + b) == Replay(Replay(w, a).value, b)
  {
    ReplayConcat(w, a, b);
  }

  /** Run, proved to be one run of the protocol: what it does to the store is the
      replay of a begin followed by step, pause and end events. */
  method Run(store: DeployStore, loaded: Log, steps: nat, localPathEmpty: bool, ticks: seq<Tick>, ghost start: World)
    returns (mem: Log, ghost events: seq<Event>, ghost stop: nat)
    requires |ticks| == steps && Startable(loaded.status)
    requires start == WorldOf(store, Idle, start)
    modifies store
    ensures Replay(start, [Begin(loaded)] + events).Some?
    ensures Leaves(store, Replay(start, [Begin(loaded)] + events).value, mem, None, events)
    ensures |old(store.rows)| != steps || localPathEmpty ==>
              store.rows == old(store.rows) && mem.status == RunFailed && mem.triggerSHA == loaded.triggerSHA
    ensures |old(store.rows)| == steps && !localPathEmpty ==>
              RunsTo(old(store.rows), ticks, loaded.triggerSHA, stop, store.rows, mem)
    ensures mem.status == RunSuccess ==> StartsExactly(events, old(store.rows), |old(store.rows)|)
  {
    stop := 0;
    ghost var begun := Apply(start, Begin(loaded)).value;
    events := [];
    store.log := MarkRunning(store.log);
    mem := loaded.(status := RunRunning, pauseRequested := false);
    if |store.rows| != steps || localPathEmpty {
      var reason := if |store.rows| != steps then "step count mismatch between rows and blueprints"
                    else "localPath is empty; Builder must resolve it before Run";
      mem := Fail(store, mem, reason, reason);
      ReplaySnoc(begun, [], Reject(reason));
      events := [] + [Reject(reason)];
    } else {
      mem, events, stop := RunSteps(store, mem, ticks, begun);
    }
    Chain(start, Begin(loaded), events);
  }

  method RunSteps(store: DeployStore, loaded: Log, ticks: seq<Tick>, ghost begun: World)
    returns (mem: Log, ghost events: seq<Event>, ghost stop: nat)
    requires |ticks| == |store.rows| && begun == WorldOf(store, Before(0, loaded), begun) && !store.log.pauseRequested
    modifies store
    ensures Replay(begun, events).Some?
    ensures Leaves(store, Replay(begun, events).value, mem, None, events)
    ensures RunsTo(old(store.rows), ticks, loaded.triggerSHA, stop, store.rows, mem)
    ensures mem.status == RunSuccess ==> StartsExactly(events, old(store.rows), |old(store.rows)|)
  {
    mem, events, stop := loaded, [], 0;
    ghost var rows := store.rows;
    var i := 0;
    assert RowsAfter(rows, ticks, 0) == rows;
    while i < |ticks|
      invariant 0 <= i <= |ticks| == |store.rows|
      invariant Replay(begun, events).Some? && Leaves(store, Replay(begun, events).value, mem, Some(i), events)
      invariant SoFar(rows, ticks, loaded.triggerSHA, i, store.rows, store.log.pauseRequested, mem)
      invariant StartsExactly(events, rows, i)
    {
      var next; ghost var more;
      ghost var w, before, flag, mem0 := Replay(begun, events).value, store.rows, store.log.pauseRequested, mem;
      ghost var past := events;
      mem, next, more := RunIteration(store, i, mem, ticks[i], w);
      Then(begun, events, more);
      LeavesAfter(store, Replay(w, more).value, mem, next, events, more);
      events := events + more;
      IterationAdvances(rows, ticks, loaded.triggerSHA, i, before, flag, mem0, store.rows, store.log.pauseRequested, mem, next);
      if next.None? {
        stop := i;
        return;
      }
      assert before[i] == rows[i];
      StartsOneMore(past, more, rows, i);
      i := i + 1;
    }
    ReplaySnoc(begun, events, SucceedRun);
    mem := Succeed(store, mem, Replay(begun, events).value);
    LeavesAfter(store, Replay(begun, events + [SucceedRun]).value, mem, None, events, [SucceedRun]);
    events, stop := events + [SucceedRun], i;
  }

  /** The run's terminal write when every step is done. */
  method Succeed(store: DeployStore, mem: Log, ghost w: World) returns (mem': Log)
    requires w == WorldOf(store, Before(|store.rows|, mem), w)
    modifies store`log
    ensures mem' == mem.(status := RunSuccess, output := "", errorMsg := "")
    ensures store.log == Finish(old(store.log), mem')
    ensures Apply(w, SucceedRun) == Some(WorldOf(store, Idle, w))
    ensures Leaves(store, WorldOf(store, Idle, w), mem', None, [SucceedRun])
  {
    mem' := mem.(status := RunSuccess, output := "", errorMsg := "");
    store.log := Finish(store.log, mem');
  }

  /** The run has got through the first `n` steps. */
  ghost predicate SoFar(rows: seq<Row>, ticks: seq<Tick>, loaded: string, n: nat, now: seq<Row>, flag: bool, mem: Log)
    requires n <= |rows| == |ticks|
  {
    && Passes(rows, ticks, n) && now == RowsAfter(rows, ticks, n)
    && (flag <==> PauseAsked(rows, ticks, n)) && mem.triggerSHA == CommitAfter(rows, ticks, n, loaded)
  }

  lemma IterationAdvances(rows: seq<Row>, ticks: seq<Tick>, loaded: string, i: nat, now: seq<Row>, flag: bool, mem: Log,
                          now': seq<Row>, flag': bool, mem': Log, next: Option<nat>)
    requires i < |rows| == |ticks| && SoFar(rows, ticks, loaded, i, now, flag, mem)
    requires Iterates(now, flag, mem, i, ticks[i], now', flag', mem', next)
    ensures next.Some? ==> SoFar(rows, ticks, loaded, i + 1, now', flag', mem')
    ensures next.None? ==> RunsTo(rows, ticks, loaded, i, now', mem')
  {
    assert now[i] == rows[i];
    AskedStep(rows, ticks, i);
    if !Unfinished(rows[i]) {
      assert RowsAfter(rows, ticks, i + 1) == RowsAfter(rows, ticks, i);
    } else {
      assert RowsAfter(rows, ticks, i + 1) == RowsAfter(rows, ticks, i)[i := EndRow(StartRow(rows[i]), ticks[i].outcome)];
    }
  }

  lemma AskedStep(rows: seq<Row>, ticks: seq<Tick>, i: nat)
    requires i < |rows| == |ticks|
    ensures PauseAsked(rows, ticks, i + 1) <==> PauseAsked(rows, ticks, i) || (Unfinished(rows[i]) && ticks[i].pauseArrives)
  {
  }

  // ------------------------------------------------------ retry and resume

  datatype StartError = WrongStatus(status: DeployStatus) | FromStepOutOfRange | Locked | ReleaseNotDeployable

  lemma {:induction false} QuietIsFresh(w: World, events: seq<Event>)
    requires Quiet(events)
    ensures FreshLoads(w, events)
    decreases |events|
  {
    if events != [] && Apply(w, events[0]).Some? {
      QuietIsFresh(Apply(w, events[0]).value, events[1..]);
    }
  }

  lemma BeginIsFresh(w: World, events: seq<Event>)
    requires Quiet(events)
    ensures FreshLoads(w, [Begin(w.log)] + events)
  {
    assert ([Begin(w.log)] + events)[1..] == events;
    if Apply(w, Begin(w.log)).Some? {
      QuietIsFresh(Apply(w, Begin(w.log)).value, events);
    }
  }

  /** The store is what the protocol reaches by `events`, with no run active. */
  ghost predicate Reached(s: DeployStore, start: World, events: seq<Event>)
    reads s
  {
    && Replay(start, events).Some? && FreshLoads(start, events)
    && Replay(start, events).value == WorldOf(s, Idle, Replay(start, events).value)
  }

  /** Resume, from the loaded log on, taken as one step. */
  method Resume(store: DeployStore, lockFree: bool, steps: nat, localPathEmpty: bool, ticks: seq<Tick>, ghost start: World)
    returns (r: Result<Log, StartError>, ghost events: seq<Event>)
    requires |ticks| == steps && start == WorldOf(store, Idle, start)
    modifies store
    ensures Reached(store, start, events)
    ensures r.Err? ==> events == []
    ensures old(store.log.status) != RunPaused <==> r == Err(WrongStatus(old(store.log.status)))
    ensures r.Ok? <==> old(store.log.status) == RunPaused && lockFree
    ensures r.Ok? && |old(store.rows)| == steps && !localPathEmpty ==>
              exists k :: RunsTo(old(store.rows), ticks, old(store.log.triggerSHA), k, store.rows, r.value)
    ensures r.Ok? && r.value.status == RunSuccess ==> StartsExactly(events, old(store.rows), |old(store.rows)|)
  {
    events := [];
    if store.log.status != RunPaused {
      return Err(WrongStatus(store.log.status)), [];
    }
    if !lockFree {
      return Err(Locked), [];
    }
    var mem;
    ghost var stop;
    mem, events, stop := Run(store, store.log, steps, localPathEmpty, ticks, start);
    BeginIsFresh(start, events);
    r, events := Ok(mem), [Begin(start.log)] + events;
  }

  /** A successful run over reset rows starts every step from the index on, and of the
      others exactly those that were not done. */
  lemma RetryStarts(events: seq<Event>, before: seq<Row>, from: nat, rows: seq<Row>, success: bool, log: Log)
    requires |rows| == |before| && (success ==> StartsExactly(events, rows, |rows|))
    requires forall i | 0 <= i < |rows| :: if i < from then rows[i] == before[i] else rows[i].status == StepPending
    ensures success ==>
              forall i: nat :: StartStep(i) in [Reset(from)] + ([Begin(log)] + events) <==>
                i < |before| && (i >= from || before[i].status !in {StepSuccess, StepSkipped})
  {
    forall i: nat ensures StartStep(i) in [Reset(from)] + ([Begin(log)] + events) <==> StartStep(i) in events {
    }
  }

  /** Retry from an index: a reset under the lock, then a run, unless the release
      turns out not to be deployable, which leaves only the reset. */
  method Retry(store: DeployStore, fromIdx: int, lockFree: bool, deployable: bool, steps: nat, localPathEmpty: bool,
               ticks: seq<Tick>, ghost start: World)
    returns (r: Result<Log, StartError>, ghost events: seq<Event>)
    requires |ticks| == steps && start == WorldOf(store, Idle, start)
    modifies store
    ensures Reached(store, start, events)
    ensures r.Err? && !r.error.ReleaseNotDeployable? ==> events == []
    ensures r == Err(ReleaseNotDeployable) ==>
              fromIdx >= 0 && events == [Reset(fromIdx)] && store.rows == ResetFrom(old(store.rows), fromIdx) && store.log == old(store.log)
    ensures r.Ok? ==> 0 <= fromIdx < steps && events != [] && events[0] == Reset(fromIdx)
    ensures old(store.log.status) != RunFailed <==> r == Err(WrongStatus(old(store.log.status)))
    ensures r.Ok? <==> old(store.log.status) == RunFailed && 0 <= fromIdx < steps && lockFree && deployable
    ensures r.Ok? && |old(store.rows)| == steps && !localPathEmpty ==>
              exists k :: RunsTo(ResetFrom(old(store.rows), fromIdx), ticks, old(store.log.triggerSHA), k, store.rows, r.value)
    ensures r.Ok? && r.value.status == RunSuccess ==>
              forall i: nat :: StartStep(i) in events <==>
                i < |old(store.rows)| && (i >= fromIdx || old(store.rows)[i].status !in {StepSuccess, StepSkipped})
  {
    events := [];
    if store.log.status != RunFailed {
      return Err(WrongStatus(store.log.status)), [];
    }
    if fromIdx < 0 || fromIdx >= steps {
      return Err(FromStepOutOfRange), [];
    }
    if !lockFree {
      return Err(Locked), [];
    }
    ghost var before := store.rows;
    store.ResetSteps(fromIdx);
    ghost var w := Apply(start, Reset(fromIdx)).value;
    Chain(start, Reset(fromIdx), []);
    assert [Reset(fromIdx)] + [] == [Reset(fromIdx)];
    if !deployable {
      return Err(ReleaseNotDeployable), [Reset(fromIdx)];
    }
    var mem;
    ghost var stop;
    mem, events, stop := Run(store, store.log, steps, localPathEmpty, ticks, w);
    BeginIsFresh(w, events);
    ghost var run := [Begin(w.log)] + events;
    Chain(start, Reset(fromIdx), run);
    assert ([Reset(fromIdx)] + run)[1..] == run;
    RetryStarts(events, before, fromIdx, w.rows, mem.status == RunSuccess, w.log);
    r, events := Ok(mem), [Reset(fromIdx)] + run;
  }
}
