/**
 Remote job execution: agenda-node's in-memory JobStore (internal/node/jobstore.go)
 and the control plane's dispatch-and-poll client (internal/runner/agent_runner.go),
 with lost or repeated messages, failed polls, sweeps and node restarts.
 */
module NodeJobs {
  import opened Common

  datatype JobStatus = Running | Success | Failed(error: string)

  /** One job record; `doneAt` is the zero time (None) until the command ends. */
  datatype Job = Job(status: JobStatus, doneAt: Option<int>, output: string)

  /** The table maps ids to job records, which a command's goroutine keeps writing
      to after the table has dropped them; records are numbered in creation order. */
  datatype Store = Store(table: map<string, nat>, jobs: map<nat, Job>, next: nat)

  const EMPTY := Store(map[], map[], 0)

  // ---------------------------------------------------------------- the node

  /** Dispatch: a new record and a started command, unless the id is in the table. */
  function Dispatched(s: Store, id: string): Store {
    if id in s.table then s
    else Store(s.table[id := s.next], s.jobs[s.next := Job(Running, None, "")], s.next + 1)
  }

  function Completed(s: Store, ref: nat, result: JobStatus, now: int): Store
    requires ref in s.jobs
  {
    s.(jobs := s.jobs[ref := s.jobs[ref].(status := result, doneAt := Some(now))])
  }

  function Deleted(s: Store, id: string): Store {
    s.(table := s.table - {id})
  }

  predicate Expired(s: Store, id: string, now: int, retention: int) {
    && id in s.table && s.table[id] in s.jobs
    && s.jobs[s.table[id]].doneAt.Some? && now - s.jobs[s.table[id]].doneAt.value > retention
  }

  function Swept(s: Store, now: int, retention: int): Store {
    s.(table := map id | id in s.table && !Expired(s, id, now, retention) :: s.table[id])
  }

  /** A restart forgets the table; running commands die with the process. */
  function Restarted(s: Store): Store {
    s.(table := map[])
  }

  /** The node's answer to a poll; None is the 404. */
  function Polled(s: Store, id: string): Option<Job> {
    if id in s.table && s.table[id] in s.jobs then Some(s.jobs[s.table[id]]) else None
  }

  /** The JobStore as the node holds it. */
  class JobStore {
    var table: map<string, nat>
    var jobs: map<nat, Job>
    var next: nat
    const retention: int

    ghost function View(): Store
      reads this
    {
      Store(table, jobs, next)
    }

    constructor (retention: int)
      ensures View() == EMPTY && this.retention == if retention <= 0 then 3600 else retention
    {
      table, jobs, next := map[], map[], 0;
      this.retention := if retention <= 0 then 3600 else retention;
    }

    /** Returns the record of the command it started, if it started one. */
    method Dispatch(id: string) returns (started: Option<nat>)
      modifies this
      ensures View() == Dispatched(old(View()), id)
      ensures started == if id in old(table) then None else Some(old(next))
    {
      if id in table {
        return None;
      }
      jobs := jobs[next := Job(Running, None, "")];
      table := table[id := next];
      started := Some(next);
      next := next + 1;
    }

    method Delete(id: string) returns (known: bool)
      modifies this
      ensures View() == Deleted(old(View()), id) && known == (id in old(table))
    {
      known := id in table;
      if known {
        table := table - {id};
      }
    }

    method Sweep(now: int)
      modifies this
      ensures View() == Swept(old(View()), now, retention)
    {
      ghost var s := View();
      var todo, kept := table.Keys, table;
      while todo != {}
        invariant View() == s && todo <= table.Keys
        invariant forall id :: id in kept <==> id in table && (id in todo || !Expired(s, id, now, retention))
        invariant forall id | id in kept :: kept[id] == table[id]
        decreases todo
      {
        var id :| id in todo;
        var ref := table[id];
        if ref in jobs && jobs[ref].doneAt.Some? && now - jobs[ref].doneAt.value > retention {
          kept := kept - {id};
        }
        todo := todo - {id};
      }
      table := kept;
      assert table == Swept(s, now, retention).table;
    }
  }

  // -------------------------------------------------------------- the client

  /** What one pass of the poll loop sees: the deadline, a failed poll, a 404, a reply,
      or a reply whose status is empty or unknown. */
  datatype Tick = Deadline | PollError | NotFound | Reply(job: Job) | Unclear(output: string)

  datatype RunResult = Nil | DeadlineExceeded | LostJob | JobFailed(error: string)

  /** The decision taken on one tick; None means poll again. */
  function React(t: Tick): Option<RunResult> {
    match t
    case Deadline => Some(DeadlineExceeded)
    case PollError => None
    case NotFound => Some(LostJob)
    case Unclear(_) => None
    case Reply(job) =>
      match job.status
      case Running => None
      case Success => Some(Nil)
      case Failed(e) => Some(JobFailed(if e != "" then e else "agent job failed"))
  }

  function OutputOf(t: Tick): string {
    match t case Reply(job) => job.output case Unclear(output) => output case _ => ""
  }

  /** Replies replace the kept output unless they carry none. */
  function KeepOutput(last: string, t: Tick): string {
    if OutputOf(t) != "" then OutputOf(t) else last
  }

  /** The tick brought no output. */
  ghost predicate Silent(t: Tick) {
    (t.Reply? ==> t.job.output == "") && (t.Unclear? ==> t.output == "")
  }

  /** The tick brought this output. */
  ghost predicate Brought(t: Tick, out: string) {
    out != "" && ((t.Reply? && t.job.output == out) || (t.Unclear? && t.output == out))
  }

  /** The output of the last reply that carried any. */
  ghost predicate IsLastOutput(ticks: seq<Tick>, out: string) {
    if forall i | 0 <= i < |ticks| :: Silent(ticks[i]) then out == ""
    else exists i :: 0 <= i < |ticks| && Brought(ticks[i], out) && forall j | i < j < |ticks| :: Silent(ticks[j])
  }

  /** What the kept output is after some ticks. */
  function LastOutput(ticks: seq<Tick>): string {
    if ticks == [] then "" else KeepOutput(LastOutput(ticks[..|ticks| - 1]), ticks[|ticks| - 1])
  }

  lemma {:induction false} LastOutputIsLast(ticks: seq<Tick>)
    ensures IsLastOutput(ticks, LastOutput(ticks))
    decreases |ticks|
  {
    if ticks != [] {
      var n := |ticks| - 1;
      LastOutputIsLast(ticks[..n]);
      LastOutputStep(ticks[..n], LastOutput(ticks[..n]), ticks[n]);
      assert ticks[..n] + [ticks[n]] == ticks;
    }
  }

  /** Ticks after which the loop polls again: a failed poll, or a reply whose status is
      running, empty or unknown. */
  ghost predicate Undecided(t: Tick) {
    t.PollError? || t.Unclear? || (t.Reply? && t.job.status == Running)
  }

  /** What a deciding tick makes of the run. */
  ghost predicate Decides(t: Tick, r: RunResult) {
    match t
    case Deadline => r == DeadlineExceeded
    case NotFound => r == LostJob
    case Reply(Job(Success, _, _)) => r == Nil
    case Reply(Job(Failed(e), _, _)) => r == JobFailed(if e == "" then "agent job failed" else e)
    case _ => false
  }

  lemma ReactDecides(t: Tick)
    ensures React(t).None? <==> Undecided(t)
    ensures forall r :: React(t) == Some(r) <==> Decides(t, r)
  {
  }

  /** The loop: polls until a tick decides, or the deadline when the ticks run out. */
  method Poll(ticks: seq<Tick>) returns (r: RunResult, output: string, seen: nat)
    ensures seen <= |ticks| && output == LastOutput(ticks[..seen])
    ensures forall i | 0 <= i < seen - 1 :: React(ticks[i]).None?
    ensures || (seen > 0 && React(ticks[seen - 1]) == Some(r))
            || (r == DeadlineExceeded && seen == |ticks| && (seen > 0 ==> React(ticks[seen - 1]).None?))
  {
    output, seen := "", 0;
    while seen < |ticks|
      invariant 0 <= seen <= |ticks|
      invariant forall i | 0 <= i < seen :: React(ticks[i]).None?
      invariant output == LastOutput(ticks[..seen])
    {
      var t := ticks[seen];
      assert ticks[..seen + 1][..seen] == ticks[..seen];
      output := KeepOutput(output, t);
      seen := seen + 1;
      if React(t).Some? {
        return React(t).value, output, seen;
      }
    }
    r := DeadlineExceeded;
  }

  /** The poll loop of one run and its clean-up: `seen` counts the ticks it consumed.
      On expiry one more snapshot is fetched. */
  method PollLoop(ticks: seq<Tick>, snapshot: Option<Job>) returns (r: RunResult, output: string, seen: nat)
    ensures seen <= |ticks| && forall i | 0 <= i < seen - 1 :: Undecided(ticks[i])
    ensures if seen > 0 && !Undecided(ticks[seen - 1]) then Decides(ticks[seen - 1], r)
            else seen == |ticks| && r == DeadlineExceeded
    ensures r != DeadlineExceeded ==> IsLastOutput(ticks[..seen], output)
    ensures r == DeadlineExceeded ==> IsLastOutput(ticks[..seen] + (if snapshot.Some? then [Reply(snapshot.value)] else []), output)
  {
    r, output, seen := Poll(ticks);
    forall i | 0 <= i < seen {
      ReactDecides(ticks[i]);
    }
    LastOutputIsLast(ticks[..seen]);
    if r == DeadlineExceeded {
      output := WithSnapshot(ticks[..seen], output, snapshot);
    }
  }

  method WithSnapshot(ghost ticks: seq<Tick>, last: string, snapshot: Option<Job>) returns (output: string)
    requires IsLastOutput(ticks, last)
    ensures IsLastOutput(ticks + (if snapshot.Some? then [Reply(snapshot.value)] else []), output)
  {
    output := last;
    if snapshot.Some? {
      LastOutputStep(ticks, last, Reply(snapshot.value));
      output := KeepOutput(last, Reply(snapshot.value));
    } else {
      assert ticks + [] == ticks;
    }
  }

  lemma LastOutputStep(ticks: seq<Tick>, last: string, t: Tick)
    requires IsLastOutput(ticks, last)
    ensures IsLastOutput(ticks + [t], KeepOutput(last, t))
  {
    var all := ticks + [t];
    if !Silent(t) {
      assert Brought(all[|ticks|], OutputOf(t));
    } else if exists i | 0 <= i < |ticks| :: !Silent(ticks[i]) {
      var i :| 0 <= i < |ticks| && Brought(ticks[i], last) && forall j | i < j < |ticks| :: Silent(ticks[j]);
      assert Brought(all[i], last);
    } else {
      assert forall i | 0 <= i < |all| :: Silent(all[i]);
    }
  }

  // ------------------------------------------------------------ the protocol

  /** A command to run: opaque. */
  datatype Command = Command(text: string)

  datatype Client = Posting(id: string, cmd: Command) | Polling(id: string, cmd: Command)
                  | Done(id: string, cmd: Command, result: Option<RunResult>)

  /** The node, what its commands were started for and how they ended, the messages
      in flight (never forgotten, so they may arrive late or twice), and the clients. */
  datatype System = System(
    node: Store,
    started: map<nat, (string, Command)>,
    alive: set<nat>,
    outcome: map<nat, bool>,
    posts: set<(string, Command)>,
    replies: set<(string, Option<Job>)>,
    clients: map<nat, Client>)

  datatype Event =
    | Start(client: nat, id: string, cmd: Command)
    | DeliverPost(id: string, cmd: Command)
    | PostAnswered(client: nat, ok: bool)
    | ServePoll(id: string)
    | ReceiveTick(client: nat, tick: Tick)
    | CommandEnds(ref: nat, ok: bool, error: string, now: int)
    | DeliverDelete(id: string)
    | Sweep(now: int, retention: int)
    | Restart

  const INITIAL := System(EMPTY, map[], {}, map[], {}, {}, map[])

  /** Job ids are fresh UUIDs: no two clients ever use the same one. */
  ghost predicate FreshId(y: System, id: string) {
    forall c | c in y.clients :: y.clients[c].id != id
  }

  /** The tick a polling client may see: an error of its own, or an answer that the
      node gave to a poll for the client's id. */
  ghost predicate TickAllowed(y: System, id: string, t: Tick) {
    match t
    case Deadline => true
    case PollError => true
    case Unclear(_) => true
    case NotFound => (id, None) in y.replies
    case Reply(job) => (id, Some(job)) in y.replies
  }

  ghost predicate Enabled(y: System, e: Event) {
    match e
    case Start(c, id, cmd) => c !in y.clients && FreshId(y, id)
    case DeliverPost(id, cmd) => (id, cmd) in y.posts
    case PostAnswered(c, ok) => c in y.clients && y.clients[c].Posting?
    case ReceiveTick(c, t) => c in y.clients && y.clients[c].Polling? && TickAllowed(y, y.clients[c].id, t)
    case CommandEnds(ref, ok, error, now) => ref in y.alive && ref in y.node.jobs
    case _ => true
  }

  ghost function Next(y: System, e: Event): System
    requires Enabled(y, e)
  {
    match e
    case Start(c, id, cmd) => y.(posts := y.posts + {(id, cmd)}, clients := y.clients[c := Posting(id, cmd)])
    case DeliverPost(id, cmd) =>
      var ref := y.node.next;
      if id in y.node.table then y
      else y.(node := Dispatched(y.node, id), started := y.started[ref := (id, cmd)], alive := y.alive + {ref})
    case PostAnswered(c, ok) =>
      var k := y.clients[c];
      y.(clients := y.clients[c := if ok then Polling(k.id, k.cmd) else Done(k.id, k.cmd, None)])
    case ServePoll(id) => y.(replies := y.replies + {(id, Polled(y.node, id))})
    case ReceiveTick(c, t) =>
      var k := y.clients[c];
      if React(t).None? then y else y.(clients := y.clients[c := Done(k.id, k.cmd, React(t))])
    case CommandEnds(ref, ok, error, now) =>
      y.(node := Completed(y.node, ref, if ok then Success else Failed(error), now),
         alive := y.alive - {ref}, outcome := y.outcome[ref := ok])
    case DeliverDelete(id) => y.(node := Deleted(y.node, id))
    case Sweep(now, retention) => y.(node := Swept(y.node, now, retention))
    case Restart => y.(node := Restarted(y.node), alive := {})
  }

  /** `ys` is the states of a run through `events`. */
  ghost predicate IsRun(ys: seq<System>, events: seq<Event>) {
    && |ys| == |events| + 1 && ys[0] == INITIAL
    && forall i | 0 <= i < |events| :: StepAt(ys, events, i)
  }

  ghost predicate StepAt(ys: seq<System>, events: seq<Event>, i: nat)
    requires i < |events| == |ys| - 1
  {
    Enabled(ys[i], events[i]) && ys[i + 1] == Next(ys[i], events[i])
  }

  // ------------------------------------------------- what each step changes

  /** The node's steps: what becomes of the table, the records and the commands. */
  lemma NodeSteps(y: System, e: Event)
    requires Enabled(y, e)
    ensures var n, n', ref := y.node, Next(y, e).node, y.node.next;
            match e
            case DeliverPost(id, cmd) =>
              if id in n.table then Next(y, e) == y
              else
                && n'.table == n.table[id := ref] && n'.jobs == n.jobs[ref := Job(Running, None, "")] && n'.next == ref + 1
                && Next(y, e).started == y.started[ref := (id, cmd)] && Next(y, e).alive == y.alive + {ref}
            case CommandEnds(ended, ok, error, now) =>
              && n'.table == n.table && n'.next == n.next
              && n'.jobs == n.jobs[ended := Job(if ok then Success else Failed(error), Some(now), n.jobs[ended].output)]
              && Next(y, e).alive == y.alive - {ended}
            case DeliverDelete(id) => n'.jobs == n.jobs && n'.next == n.next && n'.table == n.table - {id}
            case Restart => n'.jobs == n.jobs && n'.next == n.next && n'.table == map[] && Next(y, e).alive == {}
            case Sweep(_, _) => n'.jobs == n.jobs && n'.next == n.next
            case _ => n' == n
  {
  }

  /** A sweep removes exactly the entries whose command finished longer ago than the
      retention, and a poll answers with the record of the id, or that there is none. */
  lemma SweepAndPoll(y: System, id: string, now: int, retention: int)
    requires RecordsInv(y)
    ensures id in Next(y, Sweep(now, retention)).node.table <==>
              id in y.node.table && !(exists at :: y.node.jobs[y.node.table[id]].doneAt == Some(at) && now - at > retention)
    ensures var served := if id in y.node.table then Some(y.node.jobs[y.node.table[id]]) else None;
            Next(y, ServePoll(id)) == y.(replies := y.replies + {(id, served)})
  {
    if id in y.node.table && y.node.jobs[y.node.table[id]].doneAt.Some? {
      assert y.node.jobs[y.node.table[id]].doneAt == Some(y.node.jobs[y.node.table[id]].doneAt.value);
    }
  }

  /** The client's steps: it goes on polling exactly on undecided ticks. */
  lemma ClientSteps(y: System, c: nat, t: Tick)
    requires Enabled(y, ReceiveTick(c, t))
    ensures Undecided(t) ==> Next(y, ReceiveTick(c, t)) == y
    ensures !Undecided(t) ==>
              var k := Next(y, ReceiveTick(c, t)).clients[c];
              k.Done? && k.id == y.clients[c].id && k.cmd == y.clients[c].cmd && k.result.Some? && Decides(t, k.result.value)
  {
    ReactDecides(t);
  }

  // -------------------------------------------------------------- invariants

  /** Some command started for (id, cmd) ended in success on the node. */
  ghost predicate SucceededFor(y: System, id: string, cmd: Command) {
    exists ref :: ref in y.started && y.started[ref] == (id, cmd) && ref in y.outcome && y.outcome[ref]
  }

  ghost predicate RecordsInv(y: System) {
    && (forall ref | ref in y.node.jobs :: ref < y.node.next && ref in y.started)
    && (forall ref | ref in y.started :: ref in y.node.jobs)
    && (forall id | id in y.node.table :: y.node.table[id] in y.started && y.started[y.node.table[id]].0 == id)
    && (forall ref | ref in y.node.jobs :: y.node.jobs[ref].status == Running <==> y.node.jobs[ref].doneAt == None)
    && (forall ref | ref in y.node.jobs :: y.node.jobs[ref].status == Running <==> ref !in y.outcome)
    && (forall ref | ref in y.node.jobs && ref in y.outcome :: y.node.jobs[ref].status == Success <==> y.outcome[ref])
    && (forall ref | ref in y.outcome :: ref in y.started)
    && (forall ref | ref in y.alive :: ref in y.node.jobs && y.node.jobs[ref].status == Running)
  }

  ghost predicate MessagesInv(y: System) {
    && (forall p | p in y.posts :: HasOwner(y, p))
    && (forall ref | ref in y.started :: y.started[ref] in y.posts)
    && (forall c, c' | c in y.clients && c' in y.clients && c != c' :: y.clients[c].id != y.clients[c'].id)
    && (forall id: string, job: Job | (id, Some(job)) in y.replies && job.status == Success :: exists cmd :: SucceededFor(y, id, cmd))
    && (forall c | c in y.clients && y.clients[c].Done? && y.clients[c].result == Some(Nil) ::
          SucceededFor(y, y.clients[c].id, y.clients[c].cmd))
  }

  /** Dropping table entries and killing commands leaves the records alone. */
  lemma RecordsFrame(y: System, y': System)
    requires RecordsInv(y)
    requires y'.node.jobs == y.node.jobs && y'.node.next == y.node.next && y'.started == y.started && y'.outcome == y.outcome
    requires forall id | id in y'.node.table :: id in y.node.table && y'.node.table[id] == y.node.table[id]
    requires y'.alive <= y.alive
    ensures RecordsInv(y')
  {
  }

  lemma RecordsAfterPost(y: System, id: string, cmd: Command)
    requires RecordsInv(y) && id !in y.node.table
    ensures var ref := y.node.next;
            RecordsInv(y.(node := Dispatched(y.node, id), started := y.started[ref := (id, cmd)], alive := y.alive + {ref}))
  {
  }

  lemma RecordsAfterEnd(y: System, ref: nat, ok: bool, error: string, now: int)
    requires RecordsInv(y) && ref in y.alive && ref in y.node.jobs
    ensures RecordsInv(y.(node := Completed(y.node, ref, if ok then Success else Failed(error), now),
                          alive := y.alive - {ref}, outcome := y.outcome[ref := ok]))
  {
  }

  lemma NextKeepsRecords(y: System, e: Event)
    requires RecordsInv(y) && Enabled(y, e)
    ensures RecordsInv(Next(y, e))
  {
    match e
    case DeliverPost(id, cmd) =>
      if id !in y.node.table {
        RecordsAfterPost(y, id, cmd);
      }
    case CommandEnds(ref, ok, error, now) => RecordsAfterEnd(y, ref, ok, error, now);
    case Start(_, _, _) => RecordsFrame(y, Next(y, e));
    case PostAnswered(_, _) => RecordsFrame(y, Next(y, e));
    case ServePoll(_) => RecordsFrame(y, Next(y, e));
    case ReceiveTick(_, _) => RecordsFrame(y, Next(y, e));
    case DeliverDelete(_) => RecordsFrame(y, Next(y, e));
    case Sweep(_, _) => RecordsFrame(y, Next(y, e));
    case Restart => RecordsFrame(y, Next(y, e));
  }

  /** Successes are never forgotten. */
  lemma SuccessPersists(y: System, e: Event, id: string, cmd: Command)
    requires RecordsInv(y) && Enabled(y, e) && SucceededFor(y, id, cmd)
    ensures SucceededFor(Next(y, e), id, cmd)
  {
    var ref :| ref in y.started && y.started[ref] == (id, cmd) && ref in y.outcome && y.outcome[ref];
    var y' := Next(y, e);
    assert ref in y'.started && y'.started[ref] == (id, cmd) && ref in y'.outcome && y'.outcome[ref];
  }

  /** With one command per id, a success for the id is a success for the client's command. */
  lemma SuccessIsOwn(y: System, c: nat, cmd: Command)
    requires MessagesInv(y) && c in y.clients && SucceededFor(y, y.clients[c].id, cmd)
    ensures cmd == y.clients[c].cmd
  {
    var ref :| ref in y.started && y.started[ref] == (y.clients[c].id, cmd);
    assert y.started[ref] in y.posts;
    var c' :| c' in y.clients && y.clients[c'].id == y.started[ref].0 && y.clients[c'].cmd == y.started[ref].1;
  }

  lemma ServedSuccess(y: System, id: string)
    requires RecordsInv(y) && Polled(y.node, id).Some? && Polled(y.node, id).value.status == Success
    ensures exists cmd :: SucceededFor(y, id, cmd)
  {
    var ref := y.node.table[id];
    assert y.started[ref] == (id, y.started[ref].1) && y.outcome[ref];
    assert SucceededFor(y, id, y.started[ref].1);
  }

  lemma RepliesStay(y: System, e: Event)
    requires RecordsInv(y) && MessagesInv(y) && Enabled(y, e)
    ensures forall id: string, job: Job | (id, Some(job)) in Next(y, e).replies && job.status == Success ::
              exists cmd :: SucceededFor(Next(y, e), id, cmd)
  {
    var y' := Next(y, e);
    forall id: string, job: Job | (id, Some(job)) in y'.replies && job.status == Success
      ensures exists cmd :: SucceededFor(y', id, cmd)
    {
      if (id, Some(job)) !in y.replies {
        ServedSuccess(y, id);
      }
      var cmd :| SucceededFor(y, id, cmd);
      SuccessPersists(y, e, id, cmd);
    }
  }

  lemma ClientsStay(y: System, e: Event)
    requires RecordsInv(y) && MessagesInv(y) && Enabled(y, e)
    ensures var y' := Next(y, e);
            forall c | c in y'.clients && y'.clients[c].Done? && y'.clients[c].result == Some(Nil) ::
              SucceededFor(y', y'.clients[c].id, y'.clients[c].cmd)
  {
    var y' := Next(y, e);
    forall c | c in y'.clients && y'.clients[c].Done? && y'.clients[c].result == Some(Nil)
      ensures SucceededFor(y', y'.clients[c].id, y'.clients[c].cmd)
    {
      var id := y'.clients[c].id;
      if !(c in y.clients && y.clients[c] == y'.clients[c]) {
        assert e.ReceiveTick? && e.client == c;
        assert e.tick.Reply? && e.tick.job.status == Success && (id, Some(e.tick.job)) in y.replies;
        var cmd :| SucceededFor(y, id, cmd);
        SuccessIsOwn(y, c, cmd);
      }
      SuccessPersists(y, e, id, y'.clients[c].cmd);
    }
  }

  ghost predicate HasOwner(y: System, p: (string, Command)) {
    exists c :: c in y.clients && y.clients[c].id == p.0 && y.clients[c].cmd == p.1
  }

  lemma ClientsKeepIds(y: System, e: Event, c: nat)
    requires Enabled(y, e) && c in y.clients
    ensures var y' := Next(y, e);
            c in y'.clients && y'.clients[c].id == y.clients[c].id && y'.clients[c].cmd == y.clients[c].cmd
  {
  }

  lemma OwnersStay(y: System, e: Event, p: (string, Command))
    requires Enabled(y, e) && p in Next(y, e).posts && (p in y.posts ==> HasOwner(y, p))
    ensures HasOwner(Next(y, e), p)
  {
    if p in y.posts {
      var c :| c in y.clients && y.clients[c].id == p.0 && y.clients[c].cmd == p.1;
      ClientsKeepIds(y, e, c);
    } else {
      assert e.Start? && e.client in Next(y, e).clients;
    }
  }

  lemma IdsStayDistinct(y: System, e: Event)
    requires MessagesInv(y) && Enabled(y, e)
    ensures var y' := Next(y, e);
            forall c, c' | c in y'.clients && c' in y'.clients && c != c' :: y'.clients[c].id != y'.clients[c'].id
  {
    forall c | c in y.clients {
      ClientsKeepIds(y, e, c);
    }
  }

  lemma StartedStay(y: System, e: Event, ref: nat)
    requires MessagesInv(y) && Enabled(y, e) && ref in Next(y, e).started
    ensures Next(y, e).started[ref] in Next(y, e).posts
  {
  }

  lemma {:induction false} RunKeepsInv(ys: seq<System>, events: seq<Event>, i: nat)
    requires IsRun(ys, events) && i < |ys|
    ensures RecordsInv(ys[i]) && MessagesInv(ys[i])
    decreases i
  {
    if i > 0 {
      RunKeepsInv(ys, events, i - 1);
      assert StepAt(ys, events, i - 1);
      var y, e := ys[i - 1], events[i - 1];
      NextKeepsRecords(y, e);
      RepliesStay(y, e);
      ClientsStay(y, e);
      IdsStayDistinct(y, e);
      forall p | p in ys[i].posts ensures HasOwner(ys[i], p) {
        OwnersStay(y, e, p);
      }
      forall ref | ref in ys[i].started ensures ys[i].started[ref] in ys[i].posts {
        StartedStay(y, e, ref);
      }
    }
  }

  // ---------------------------------------------------------------- theorems

  /** A client's run returns nil only if the command it posted, under its own id,
      ended in success on the node. */
  lemma NilMeansOwnSuccess(ys: seq<System>, events: seq<Event>, i: nat, c: nat) returns (ref: nat)
    requires IsRun(ys, events) && i < |ys|
    requires c in ys[i].clients && ys[i].clients[c].Done? && ys[i].clients[c].result == Some(Nil)
    ensures ref in ys[i].started && ys[i].started[ref] == (ys[i].clients[c].id, ys[i].clients[c].cmd)
    ensures ref in ys[i].outcome && ys[i].outcome[ref]
  {
    RunKeepsInv(ys, events, i);
    var y := ys[i];
    ref :| ref in y.started && y.started[ref] == (y.clients[c].id, y.clients[c].cmd) && ref in y.outcome && y.outcome[ref];
  }

  lemma RecordIsFinal(y: System, e: Event, ref: nat)
    requires RecordsInv(y) && Enabled(y, e) && ref in y.node.jobs && y.node.jobs[ref].status != Running
    ensures ref in Next(y, e).node.jobs && Next(y, e).node.jobs[ref] == y.node.jobs[ref]
  {
  }

  /** A job's terminal status never changes, whatever happens later. */
  lemma {:induction false} TerminalStatusIsFinal(ys: seq<System>, events: seq<Event>, i: nat, j: nat, ref: nat)
    requires IsRun(ys, events) && i <= j < |ys|
    requires ref in ys[i].node.jobs && ys[i].node.jobs[ref].status != Running
    ensures ref in ys[j].node.jobs && ys[j].node.jobs[ref] == ys[i].node.jobs[ref]
    decreases j
  {
    if i < j {
      TerminalStatusIsFinal(ys, events, i, j - 1, ref);
      RunKeepsInv(ys, events, j - 1);
      assert StepAt(ys, events, j - 1);
      RecordIsFinal(ys[j - 1], events[j - 1], ref);
    }
  }

  /** A sweep never removes an unfinished job. */
  lemma SweepKeepsUnfinished(ys: seq<System>, events: seq<Event>, i: nat, id: string)
    requires IsRun(ys, events) && i < |events| && events[i].Sweep? && id in ys[i].node.table
    ensures ys[i].node.table[id] in ys[i].node.jobs
    ensures ys[i].node.jobs[ys[i].node.table[id]].status == Running ==>
              id in ys[i + 1].node.table && ys[i + 1].node.table[id] == ys[i].node.table[id]
  {
    assert StepAt(ys, events, i);
    RunKeepsInv(ys, events, i);
  }

  /** Only these steps drop an id's table entry: a restart, a delete of the id, or a
      sweep after its command has finished. */
  ghost predicate MayDrop(y: System, e: Event, id: string) {
    || e.Restart?
    || e == DeliverDelete(id)
    || (e.Sweep? && id in y.node.table && y.node.table[id] in y.node.jobs && y.node.jobs[y.node.table[id]].status != Running)
  }

  ghost predicate StartsFor(ys: seq<System>, events: seq<Event>, i: nat, id: string)
    requires |ys| == |events| + 1
  {
    i < |events| && events[i].DeliverPost? && events[i].id == id && ys[i + 1].node.next > ys[i].node.next
  }

  lemma EntryKept(y: System, e: Event, id: string)
    requires RecordsInv(y) && Enabled(y, e) && id in y.node.table && !MayDrop(y, e, id)
    ensures id in Next(y, e).node.table && Next(y, e).node.table[id] == y.node.table[id]
  {
  }

  /** An id keeps its table entry until one of those steps. */
  lemma {:induction false} EntryStays(ys: seq<System>, events: seq<Event>, i: nat, j: nat, id: string)
    requires IsRun(ys, events) && i <= j < |ys| && id in ys[i].node.table
    requires forall k | i <= k < j :: !MayDrop(ys[k], events[k], id)
    ensures id in ys[j].node.table && ys[j].node.table[id] == ys[i].node.table[id]
    decreases j
  {
    if i < j {
      EntryStays(ys, events, i, j - 1, id);
      RunKeepsInv(ys, events, j - 1);
      assert StepAt(ys, events, j - 1);
      EntryKept(ys[j - 1], events[j - 1], id);
    }
  }

  /** A second command for an id starts only after its entry was dropped in between:
      re-dispatching an id still in the table never runs anything. */
  lemma SecondStartNeedsDrop(ys: seq<System>, events: seq<Event>, a: nat, b: nat, id: string)
    requires IsRun(ys, events) && a < b && StartsFor(ys, events, a, id) && StartsFor(ys, events, b, id)
    ensures exists k :: a < k < b && MayDrop(ys[k], events[k], id)
  {
    assert StepAt(ys, events, a) && StepAt(ys, events, b);
    if forall k :: a < k < b ==> !MayDrop(ys[k], events[k], id) {
      EntryStays(ys, events, a + 1, b, id);
    }
  }
}
