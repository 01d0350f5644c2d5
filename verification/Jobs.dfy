/** Indexing jobs: the table, and the processes that share it. */
module Jobs {
  import opened Common

  // -------------------------------------------------------------------- the rows

  datatype Status = Queued | Running | Succeeded | Failed

  datatype Stats = Stats(documents: int, chunks: int, imageChunks: int, entityLinks: int)

  datatype Row = Row(
    org: string,
    paths: seq<string>,
    status: Status,
    startedAt: Option<int>,
    finishedAt: Option<int>,
    error: Option<string>,
    attempts: nat,
    stats: Stats)
  {
    predicate Ended() {
      status.Succeeded? || status.Failed?
    }

    /** What `reap_stale_jobs` selects. */
    predicate Stale(cutoff: int) {
      status.Running? && startedAt.Some? && startedAt.value < cutoff
    }
  }

  type Rows = map<int, Row>

  datatype Mark = MarkRunning | MarkSucceeded(stats: Stats) | MarkFailed(error: string)

  const ABANDONED := "abandoned: worker stopped before completion"

  function Short(message: string): (text: string)
    ensures text <= message && |text| <= 2000 && (|text| < 2000 ==> text == message)
  {
    if |message| <= 2000 then message else message[..2000]
  }

  function NewRow(paths: seq<string>, org: Option<string>, defaultOrg: string): Row {
    var owner := if org.GetOr("") == "" then defaultOrg else org.value;
    Row(owner, paths, Queued, None, None, None, 0, Stats(0, 0, 0, 0))
  }

  /** `_mark` on one row: the old status plays no part. */
  function MarkRow(row: Row, mark: Mark, now: int): Row {
    match mark
    case MarkRunning => row.(status := Running, startedAt := Some(now), attempts := row.attempts + 1)
    case MarkSucceeded(stats) => row.(status := Succeeded, finishedAt := Some(now), stats := stats)
    case MarkFailed(error) => row.(status := Failed, finishedAt := Some(now), error := Some(error))
  }

  function Marked(rows: Rows, id: int, mark: Mark, now: int): Rows {
    if id in rows then rows[id := MarkRow(rows[id], mark, now)] else rows
  }

  function ReapRow(row: Row, now: int): Row {
    row.(status := Failed, finishedAt := Some(now), error := Some(row.error.GetOr(ABANDONED)))
  }

  function ReapedRow(row: Row, cutoff: int, now: int): Row {
    if row.Stale(cutoff) then ReapRow(row, now) else row
  }

  function Reaped(rows: Rows, cutoff: int, now: int): Rows {
    map id | id in rows :: ReapedRow(rows[id], cutoff, now)
  }

  function ReapedAmong(rows: Rows, ids: set<int>, cutoff: int, now: int): Rows {
    map id | id in rows :: if id in ids then ReapedRow(rows[id], cutoff, now) else rows[id]
  }

  function StaleAmong(rows: Rows, ids: set<int>, cutoff: int): set<int> {
    set id | id in ids && id in rows && rows[id].Stale(cutoff)
  }

  lemma ReapOne(rows: Rows, ids: set<int>, cutoff: int, now: int, id: int)
    requires id in rows && id !in ids
    ensures ReapedAmong(rows, ids + {id}, cutoff, now)
         == ReapedAmong(rows, ids, cutoff, now)[id := ReapedRow(rows[id], cutoff, now)]
    ensures ReapedRow(rows[id], cutoff, now) == if rows[id].Stale(cutoff) then ReapRow(rows[id], now) else rows[id]
    ensures !rows[id].Stale(cutoff) ==> ReapedAmong(rows, ids + {id}, cutoff, now) == ReapedAmong(rows, ids, cutoff, now)
    ensures |StaleAmong(rows, ids + {id}, cutoff)|
         == |StaleAmong(rows, ids, cutoff)| + if rows[id].Stale(cutoff) then 1 else 0
  {
    assert StaleAmong(rows, ids + {id}, cutoff)
        == StaleAmong(rows, ids, cutoff) + if rows[id].Stale(cutoff) then {id} else {};
  }

  lemma ReapedRows(rows: Rows, cutoff: int, now: int)
    ensures ReapedAmong(rows, rows.Keys, cutoff, now) == Reaped(rows, cutoff, now)
    ensures StaleAmong(rows, rows.Keys, cutoff) == StaleIds(rows, cutoff)
    ensures forall id | id in rows && !rows[id].Stale(cutoff) :: Reaped(rows, cutoff, now)[id] == rows[id]
    ensures forall id | id in rows && rows[id].Stale(cutoff) ::
              Reaped(rows, cutoff, now)[id] == ReapRow(rows[id], now)
  {
  }

  function StaleIds(rows: Rows, cutoff: int): set<int> {
    set id | id in rows && rows[id].Stale(cutoff)
  }

  /** What an uninterrupted `run_job` leaves. */
  function AfterRun(rows: Rows, id: int, result: Result<Stats, string>, started: int, ended: int): Rows {
    Marked(Marked(rows, id, MarkRunning, started), id, Outcome(result), ended)
  }

  function Outcome(result: Result<Stats, string>): Mark {
    match result
    case Ok(stats) => MarkSucceeded(stats)
    case Err(message) => MarkFailed(Short(message))
  }

  /** The update of `reap_stale_jobs`, row by row. */
  method ReapAll(rows: Rows, cutoff: int, now: int) returns (reaped: Rows, count: nat)
    ensures reaped == Reaped(rows, cutoff, now) && count == |StaleIds(rows, cutoff)|
  {
    hide ReapedRow, ReapedAmong, StaleAmong, Reaped, StaleIds;
    reaped, count := rows, 0;
    var ids: set<int> := rows.Keys;
    ReapNone(rows, cutoff, now);
    while ids != {}
      invariant ids <= rows.Keys
      invariant reaped == ReapedAmong(rows, rows.Keys - ids, cutoff, now)
      invariant count == |StaleAmong(rows, rows.Keys - ids, cutoff)|
      decreases ids
    {
      var id := AnyOf(ids);
      ghost var done := rows.Keys - ids;
      ReapOne(rows, done, cutoff, now, id);
      assert done + {id} == rows.Keys - (ids - {id});
      if rows[id].Stale(cutoff) {
        var error := if rows[id].error.Some? then rows[id].error.value else ABANDONED;
        reaped := reaped[id := rows[id].(status := Failed, finishedAt := Some(now), error := Some(error))];
        count := count + 1;
      }
      ids := ids - {id};
    }
    assert rows.Keys - ids == rows.Keys;
    ReapedRows(rows, cutoff, now);
  }

  lemma ReapNone(rows: Rows, cutoff: int, now: int)
    ensures ReapedAmong(rows, rows.Keys - rows.Keys, cutoff, now) == rows
    ensures StaleAmong(rows, rows.Keys - rows.Keys, cutoff) == {}
  {
  }

  // ------------------------------------------------------------------- the table

  datatype Launch = Started | Refused(message: string)

  /** The first 2000 characters. */
  predicate Shortens(text: string, message: string) {
    text <= message && (text == message || |text| == 2000) && |text| <= 2000
  }

  class JobTable {
    const defaultOrg: string
    var rows: Rows
    var nextId: int

    ghost predicate Valid()
      reads this
    {
      forall id | id in rows :: id < nextId
    }

    constructor (defaultOrg: string)
      ensures Valid() && rows == map[] && this.defaultOrg == defaultOrg
    {
      this.defaultOrg, rows, nextId := defaultOrg, map[], 1;
    }

    method CreateJob(paths: seq<string>, org: Option<string>) returns (id: int)
      requires Valid()
      modifies this
      ensures Valid() && id !in old(rows) && rows == old(rows)[id := NewRow(paths, org, defaultOrg)]
      ensures rows[id].paths == paths && rows[id].status == Queued && rows[id].attempts == 0
      ensures rows[id].org == if org == None || org == Some("") then defaultOrg else org.value
      ensures rows[id].startedAt == rows[id].finishedAt == None && rows[id].error == None
      ensures rows[id].stats == Stats(0, 0, 0, 0)
      ensures id == old(nextId) && nextId == id + 1
    {
      id := nextId;
      rows, nextId := rows[id := NewRow(paths, org, defaultOrg)], nextId + 1;
    }

    /** `UPDATE … WHERE job_id = :job_id`: no row, no effect. */
    method SetStatus(id: int, mark: Mark, now: int)
      requires Valid()
      modifies this`rows
      ensures Valid() && rows == Marked(old(rows), id, mark, now)
      ensures id !in old(rows) ==> rows == old(rows)
      ensures id in old(rows) ==>
                var row := old(rows)[id];
                && (mark.MarkRunning? ==>
                      rows == old(rows)[id := row.(status := Running, startedAt := Some(now), attempts := row.attempts + 1)])
                && (mark.MarkSucceeded? ==>
                      rows == old(rows)[id := row.(status := Succeeded, finishedAt := Some(now), stats := mark.stats)])
                && (mark.MarkFailed? ==>
                      rows == old(rows)[id := row.(status := Failed, finishedAt := Some(now), error := Some(mark.error))])
    {
      if id in rows {
        var row := rows[id];
        match mark {
          case MarkRunning =>
            row := row.(status := Running, startedAt := Some(now), attempts := row.attempts + 1);
          case MarkSucceeded(stats) =>
            row := row.(status := Succeeded, finishedAt := Some(now), stats := stats);
          case MarkFailed(error) =>
            row := row.(status := Failed, finishedAt := Some(now), error := Some(error));
        }
        rows := rows[id := row];
      }
    }

    /** `UPDATE … WHERE status = 'running' AND started_at < :cutoff`, row by row. */
    method ReapStaleJobs(olderThan: int, now: int) returns (count: nat)
      requires Valid()
      modifies this`rows
      ensures Valid() && rows.Keys == old(rows).Keys && rows == Reaped(old(rows), now - olderThan, now)
      ensures forall id | id in old(rows) ::
                var row := old(rows)[id];
                if row.status == Running && row.startedAt.Some? && row.startedAt.value < now - olderThan then
                  rows[id] == row.(status := Failed, finishedAt := Some(now), error := rows[id].error)
                  && rows[id].error == if row.error.Some? then row.error else Some(ABANDONED)
                else rows[id] == row
      ensures count == |set id | id in old(rows) && old(rows)[id].status == Running
                                 && old(rows)[id].startedAt.Some? && old(rows)[id].startedAt.value < now - olderThan|
    {
      var reaped;
      reaped, count := ReapAll(rows, now - olderThan, now);
      ReapedRows(rows, now - olderThan, now);
      assert StaleIds(rows, now - olderThan)
          == set id | id in rows && rows[id].status == Running
                      && rows[id].startedAt.Some? && rows[id].startedAt.value < now - olderThan;
      rows := reaped;
    }

    /** `run_job`, uninterrupted: the work is done for the paths and the org of the row. */
    method RunJob(id: int, index: (seq<string>, string) -> Result<Stats, string>, started: int, ended: int)
      requires Valid()
      modifies this`rows
      ensures Valid()
      ensures id !in old(rows) ==> rows == old(rows)
      ensures id in old(rows) ==>
                rows == AfterRun(old(rows), id, index(old(rows)[id].paths, old(rows)[id].org), started, ended)
      ensures id in old(rows) ==>
                var row := old(rows)[id];
                var begun := row.(startedAt := Some(started), finishedAt := Some(ended), attempts := row.attempts + 1);
                && rows.Keys == old(rows).Keys
                && (forall other | other in rows && other != id :: rows[other] == old(rows)[other])
                && match index(row.paths, row.org)
                   case Ok(stats) => rows[id] == begun.(status := Succeeded, stats := stats)
                   case Err(message) =>
                     && rows[id] == begun.(status := Failed, error := rows[id].error)
                     && rows[id].error.Some? && Shortens(rows[id].error.value, message)
    {
      if id !in rows {
        return;
      }
      var row := rows[id];
      SetStatus(id, MarkRunning, started);
      match index(row.paths, row.org) {
        case Ok(stats) => SetStatus(id, MarkSucceeded(stats), ended);
        case Err(message) => SetStatus(id, MarkFailed(Short(message)), ended);
      }
    }

    /** `dispatch_index_job`: the row is created first, and a refused launch marks it failed. */
    method DispatchIndexJob(paths: seq<string>, org: Option<string>, launch: int -> Launch, now: int)
      returns (id: int, error: Option<string>)
      requires Valid()
      modifies this
      ensures Valid() && id !in old(rows)
      ensures rows.Keys == old(rows).Keys + {id} && forall other | other in old(rows) :: rows[other] == old(rows)[other]
      ensures launch(id).Started? ==> error == None && rows[id] == NewRow(paths, org, defaultOrg)
      ensures launch(id).Refused? ==>
                && error == Some("dispatch failed: " + launch(id).message)
                && rows[id] == NewRow(paths, org, defaultOrg).(
                     status := Failed, finishedAt := Some(now), error := rows[id].error)
                && rows[id].error.Some? && Shortens(rows[id].error.value, error.value)
    {
      id := CreateJob(paths, org);
      match launch(id) {
        case Started =>
          error := None;
        case Refused(message) =>
          var failure := "dispatch failed: " + message;
          SetStatus(id, MarkFailed(Short(failure)), now);
          error := Some(failure);
      }
    }
  }

  // --------------------------------------------------- processes that interleave

  /** Where a worker is: it found no row, read the row, marked it running, marked it succeeded but is
      still inside the `try`, left, marked it failed, or was killed. */
  datatype Phase = Absent | Fetched | Indexing | Reported | Left | Errored(message: string) | Killed

  /** A worker, with the time of its start and the figures it reported, once there are any. */
  datatype Worker = Worker(
    job: int, org: string, paths: seq<string>, phase: Phase, since: Option<int>, reported: Option<Stats>)
  {
    /** It may still write its row. */
    predicate Active() {
      phase.Fetched? || phase.Indexing? || phase.Reported?
    }
  }

  /** `starter` records, for each job, the worker that last marked it running. */
  datatype System = System(
    now: int,
    rows: Rows,
    nextId: int,
    workers: seq<Worker>,
    launching: set<int>,
    starter: map<int, nat>)

  /** One atomic step of a dispatcher, a worker, the reaper or the clock. A worker that has marked its
      job succeeded leaves, unless something is raised before it does: then it fails the job after all. */
  datatype Event =
    | Create(paths: seq<string>, org: Option<string>)
    | Launched(job: int)
    | LaunchRefused(job: int, message: string)
    | Fetch(job: int)
    | Start(worker: nat)
    | Succeed(worker: nat, stats: Stats)
    | Leave(worker: nat)
    | Fail(worker: nat, message: string)
    | Kill(worker: nat)
    | Reap(olderThan: int)
    | Tick(elapsed: nat)

  predicate In(s: System, w: nat, phase: Phase) {
    w < |s.workers| && s.workers[w].phase == phase
  }

  /** An event that is not possible changes nothing. */
  function Next(s: System, e: Event, defaultOrg: string): System {
    match e
    case Create(paths, org) =>
      s.(rows := s.rows[s.nextId := NewRow(paths, org, defaultOrg)],
         nextId := s.nextId + 1,
         launching := s.launching + {s.nextId})
    case Launched(job) => s.(launching := s.launching - {job})
    case LaunchRefused(job, message) =>
      if job !in s.launching then s
      else s.(rows := Marked(s.rows, job, MarkFailed(Short("dispatch failed: " + message)), s.now),
              launching := s.launching - {job})
    case Fetch(job) =>
      s.(workers := s.workers + [
           if job in s.rows then Worker(job, s.rows[job].org, s.rows[job].paths, Fetched, None, None)
           else Worker(job, "", [], Absent, None, None)])
    case Start(w) =>
      if !In(s, w, Fetched) then s
      else s.(rows := Marked(s.rows, s.workers[w].job, MarkRunning, s.now),
              workers := s.workers[w := s.workers[w].(phase := Indexing, since := Some(s.now))],
              starter := s.starter[s.workers[w].job := w])
    case Succeed(w, stats) =>
      if !In(s, w, Indexing) then s
      else s.(rows := Marked(s.rows, s.workers[w].job, MarkSucceeded(stats), s.now),
              workers := s.workers[w := s.workers[w].(phase := Reported, reported := Some(stats))])
    case Leave(w) =>
      if !In(s, w, Reported) then s
      else s.(workers := s.workers[w := s.workers[w].(phase := Left)])
    case Fail(w, message) =>
      if !(In(s, w, Indexing) || In(s, w, Reported)) then s
      else s.(rows := Marked(s.rows, s.workers[w].job, MarkFailed(Short(message)), s.now),
              workers := s.workers[w := s.workers[w].(phase := Errored(message))])
    case Kill(w) =>
      if !(w < |s.workers| && s.workers[w].Active()) then s
      else s.(workers := s.workers[w := s.workers[w].(phase := Killed)])
    case Reap(olderThan) => s.(rows := Reaped(s.rows, s.now - olderThan, s.now))
    case Tick(elapsed) => s.(now := s.now + elapsed)
  }

  function Run(s: System, events: seq<Event>, defaultOrg: string): System
    decreases events
  {
    if events == [] then s else Run(Next(s, events[0], defaultOrg), events[1..], defaultOrg)
  }

  function Initial(now: int): System {
    System(now, map[], 1, [], {}, map[])
  }

  /** How many workers have marked a job running. */
  function Starts(workers: seq<Worker>, job: int): nat {
    if workers == [] then 0
    else Starts(workers[1..], job) + if workers[0].job == job && workers[0].since.Some? then 1 else 0
  }

  // ----------------------------------------------------------------- the invariant

  /** A row says no more than what happened. */
  ghost predicate RowHonest(s: System, id: int)
    requires id in s.rows
  {
    var row := s.rows[id];
    && id < s.nextId
    && row.attempts == Starts(s.workers, id)
    && (row.attempts > 0 <==> id in s.starter)
    && (row.startedAt == if id in s.starter then StartOf(s, s.starter[id]) else None)
    && (id in s.starter ==> StarterOf(s, s.starter[id], id))
    && (row.status.Queued? ==> row.attempts == 0 && row.finishedAt.None? && row.error.None?)
    && (row.status.Running? ==> id in s.starter && StillOut(s, s.starter[id]))
    && (row.Ended() ==> row.finishedAt.Some?)
    && (row.status.Failed? ==> row.error.Some?)
    && (row.status.Succeeded? ==> exists w :: ReportedBy(s, w, id, row.stats))
    && row.startedAt.GetOr(s.now) <= s.now
    && row.finishedAt.GetOr(s.now) <= s.now
  }

  predicate StarterOf(s: System, w: nat, id: int) {
    w < |s.workers| && s.workers[w].job == id && s.workers[w].since.Some?
  }

  function StartOf(s: System, w: nat): Option<int> {
    if w < |s.workers| then s.workers[w].since else None
  }

  predicate StillOut(s: System, w: nat) {
    In(s, w, Indexing) || In(s, w, Killed)
  }

  predicate ReportedBy(s: System, w: nat, id: int, stats: Stats) {
    w < |s.workers| && s.workers[w].reported == Some(stats) && s.workers[w].job == id
  }

  /** A worker works for the org and on the paths of its row. */
  predicate WorkerHonest(s: System, w: nat)
    requires w < |s.workers|
  {
    var worker := s.workers[w];
    && (worker.phase.Absent? || worker.phase.Fetched? ==> worker.since.None?)
    && (worker.phase.Indexing? || worker.phase.Reported? ==> worker.since.Some?)
    && (!worker.phase.Absent? ==>
          && worker.job in s.rows
          && worker.org == s.rows[worker.job].org
          && worker.paths == s.rows[worker.job].paths)
  }

  ghost predicate Honest(s: System) {
    && (forall id | id in s.rows :: RowHonest(s, id))
    && (forall w: nat | w < |s.workers| :: WorkerHonest(s, w))
    && s.launching <= s.rows.Keys
    && s.starter.Keys <= s.rows.Keys
  }

  lemma {:induction false} StartsAppend(workers: seq<Worker>, worker: Worker, job: int)
    ensures Starts(workers + [worker], job)
         == Starts(workers, job) + if worker.job == job && worker.since.Some? then 1 else 0
  {
    if workers != [] {
      StartsAppend(workers[1..], worker, job);
      assert (workers + [worker])[1..] == workers[1..] + [worker];
    }
  }

  lemma {:induction false} StartsUpdate(workers: seq<Worker>, w: nat, worker: Worker, job: int)
    requires w < |workers| && worker.job == workers[w].job
    requires workers[w].since.Some? ==> worker.since.Some?
    ensures Starts(workers[w := worker], job)
         == Starts(workers, job) + if worker.job == job && workers[w].since.None? && worker.since.Some? then 1 else 0
  {
    if w == 0 {
      assert workers[w := worker][1..] == workers[1..];
    } else {
      StartsUpdate(workers[1..], w - 1, worker, job);
      assert workers[w := worker][1..] == workers[1..][w - 1 := worker];
    }
  }

  /** A step of a worker on one job leaves the rows of the others honest. */
  lemma OtherRowsHonest(s: System, t: System, w: nat, id: int)
    requires Honest(s) && id in s.rows && w < |s.workers| == |t.workers| && s.workers[w].job != id
    requires t.workers == s.workers[w := t.workers[w]]
    requires t.workers[w].job == s.workers[w].job && (s.workers[w].since.Some? ==> t.workers[w].since.Some?)
    requires id in t.rows && t.rows[id] == s.rows[id] && t.now == s.now && t.nextId == s.nextId
    requires (id in t.starter <==> id in s.starter) && (id in s.starter ==> t.starter[id] == s.starter[id])
    ensures RowHonest(t, id)
  {
    hide Starts;
    assert RowHonest(s, id);
    StartsUpdate(s.workers, w, t.workers[w], id);
    if s.rows[id].status.Succeeded? {
      var f :| ReportedBy(s, f, id, s.rows[id].stats);
      assert ReportedBy(t, f, id, t.rows[id].stats);
    }
  }

  lemma OwnRowHonest(s: System, e: Event, w: nat, defaultOrg: string)
    requires Honest(s) && w < |s.workers| && s.workers[w].job in s.rows
    requires e.Start? || e.Succeed? || e.Leave? || e.Fail? || e.Kill?
    requires e.worker == w
    ensures RowHonest(Next(s, e, defaultOrg), s.workers[w].job)
  {
    hide Starts, Short;
    var t, id := Next(s, e, defaultOrg), s.workers[w].job;
    assert RowHonest(s, id) && WorkerHonest(s, w);
    if t != s {
      StartsUpdate(s.workers, w, t.workers[w], id);
      if e.Succeed? {
        assert ReportedBy(t, w, id, e.stats);
      } else if t.rows[id].status.Succeeded? {
        var f :| ReportedBy(s, f, id, s.rows[id].stats);
        assert ReportedBy(t, f, id, t.rows[id].stats);
      }
    }
  }

  lemma WorkerStepHonest(s: System, e: Event, defaultOrg: string)
    requires Honest(s) && (e.Start? || e.Succeed? || e.Leave? || e.Fail? || e.Kill?)
    ensures Honest(Next(s, e, defaultOrg))
  {
    hide Starts, Short, RowHonest;
    var t, w := Next(s, e, defaultOrg), e.worker;
    if t != s {
      assert WorkerHonest(s, w);
      forall id | id in t.rows ensures RowHonest(t, id) {
        if id == s.workers[w].job {
          OwnRowHonest(s, e, w, defaultOrg);
        } else {
          OtherRowsHonest(s, t, w, id);
        }
      }
      forall v: nat | v < |t.workers| ensures WorkerHonest(t, v) {
        assert WorkerHonest(s, v);
      }
    }
  }

  /** Steps that leave the workers alone. */
  lemma TableStepHonest(s: System, e: Event, defaultOrg: string)
    requires Honest(s) && (e.Create? || e.Launched? || e.LaunchRefused? || e.Reap? || e.Tick?)
    ensures Honest(Next(s, e, defaultOrg))
  {
    hide Starts, Short, RowHonest;
    var t := Next(s, e, defaultOrg);
    forall id | id in t.rows ensures RowHonest(t, id) {
      TableRowHonest(s, e, defaultOrg, id);
    }
    forall w: nat | w < |t.workers| ensures WorkerHonest(t, w) {
      assert WorkerHonest(s, w);
      NextIdFree(s);
    }
  }

  lemma NextIdFree(s: System)
    requires Honest(s)
    ensures s.nextId !in s.rows
  {
    hide Starts;
    assert s.nextId in s.rows ==> RowHonest(s, s.nextId);
  }

  lemma TableRowHonest(s: System, e: Event, defaultOrg: string, id: int)
    requires Honest(s) && (e.Create? || e.Launched? || e.LaunchRefused? || e.Reap? || e.Tick?)
    requires id in Next(s, e, defaultOrg).rows
    ensures RowHonest(Next(s, e, defaultOrg), id)
  {
    hide Starts, Short, WorkerHonest;
    var t := Next(s, e, defaultOrg);
    if id in s.rows {
      assert RowHonest(s, id);
      if t.rows[id].status.Succeeded? {
        var f :| ReportedBy(s, f, id, s.rows[id].stats);
        assert ReportedBy(t, f, id, t.rows[id].stats);
      }
    } else {
      NeverStarted(s, id);
    }
  }

  lemma NeverStarted(s: System, id: int)
    requires Honest(s) && id !in s.rows
    ensures Starts(s.workers, id) == 0
  {
    forall w: nat | w < |s.workers| ensures s.workers[w].job == id ==> s.workers[w].since.None? {
      assert WorkerHonest(s, w);
    }
    NoStarts(s.workers, id);
  }

  lemma {:induction false} NoStarts(workers: seq<Worker>, id: int)
    requires forall w | 0 <= w < |workers| :: workers[w].job == id ==> workers[w].since.None?
    ensures Starts(workers, id) == 0
  {
    if workers != [] {
      NoStarts(workers[1..], id);
    }
  }

  lemma FetchHonest(s: System, e: Event, defaultOrg: string)
    requires Honest(s) && e.Fetch?
    ensures Honest(Next(s, e, defaultOrg))
  {
    hide Starts;
    var t := Next(s, e, defaultOrg);
    forall id | id in t.rows ensures RowHonest(t, id) {
      assert RowHonest(s, id);
      StartsAppend(s.workers, t.workers[|s.workers|], id);
      if t.rows[id].status.Succeeded? {
        var f :| ReportedBy(s, f, id, s.rows[id].stats);
        assert ReportedBy(t, f, id, t.rows[id].stats);
      }
    }
    forall w: nat | w < |t.workers| ensures WorkerHonest(t, w) {
      if w < |s.workers| {
        assert WorkerHonest(s, w);
      }
    }
  }

  /** However creations, launches, workers, kills and reaps interleave, every row is honest. */
  lemma {:induction false} EveryRowHonest(s: System, events: seq<Event>, defaultOrg: string)
    requires Honest(s)
    ensures Honest(Run(s, events, defaultOrg))
    decreases events
  {
    hide Honest, Next;
    if events != [] {
      var e := events[0];
      if e.Fetch? {
        FetchHonest(s, e, defaultOrg);
      } else if e.Start? || e.Succeed? || e.Leave? || e.Fail? || e.Kill? {
        WorkerStepHonest(s, e, defaultOrg);
      } else {
        TableStepHonest(s, e, defaultOrg);
      }
      EveryRowHonest(Next(s, e, defaultOrg), events[1..], defaultOrg);
    }
  }

  /** From an empty table: what a row says of a job in any run. */
  lemma RowsTellTheTruth(now: int, events: seq<Event>, defaultOrg: string, id: int)
    requires id in Run(Initial(now), events, defaultOrg).rows
    ensures var s := Run(Initial(now), events, defaultOrg);
            var row := s.rows[id];
            && row.attempts == Starts(s.workers, id)
            && (row.status.Queued? ==> row.attempts == 0)
            && (row.status.Running? ==>
                  && id in s.starter && StarterOf(s, s.starter[id], id) && StillOut(s, s.starter[id])
                  && row.startedAt.Some? && row.startedAt == s.workers[s.starter[id]].since)
            && (row.Ended() ==> row.finishedAt.Some?)
            && (row.status.Failed? ==> row.error.Some?)
            && (row.status.Succeeded? ==> exists w :: ReportedBy(s, w, id, row.stats))
    ensures var s := Run(Initial(now), events, defaultOrg);
            forall w: nat | w < |s.workers| && s.workers[w].job == id && !s.workers[w].phase.Absent? ::
              s.workers[w].org == s.rows[id].org && s.workers[w].paths == s.rows[id].paths
  {
    hide Next, Starts, Run;
    EveryRowHonest(Initial(now), events, defaultOrg);
    var s := Run(Initial(now), events, defaultOrg);
    assert RowHonest(s, id);
    forall w: nat | w < |s.workers| && s.workers[w].job == id && !s.workers[w].phase.Absent?
      ensures s.workers[w].org == s.rows[id].org && s.workers[w].paths == s.rows[id].paths
    {
      assert WorkerHonest(s, w);
    }
  }

  // ------------------------------------------------------------- where rows come from

  function Creations(events: seq<Event>): nat {
    if events == [] then 0 else Creations(events[..|events| - 1]) + if events[|events| - 1].Create? then 1 else 0
  }

  predicate CreatedBy(row: Row, id: int, events: seq<Event>, i: nat, defaultOrg: string) {
    && i < |events| && events[i].Create? && Creations(events[..i]) == id - 1
    && row.paths == events[i].paths
    && row.org == if events[i].org == None || events[i].org == Some("") then defaultOrg else events[i].org.value
  }

  predicate RefusedWith(id: int, text: string, events: seq<Event>, i: nat) {
    i < |events| && events[i].LaunchRefused? && events[i].job == id
    && Shortens(text, "dispatch failed: " + events[i].message)
  }

  predicate ErroredWith(s: System, id: int, text: string, w: nat) {
    && w < |s.workers| && s.workers[w].job == id && s.workers[w].phase.Errored?
    && Shortens(text, s.workers[w].phase.message)
  }

  ghost predicate Sourced(s: System, id: int, events: seq<Event>, defaultOrg: string)
    requires id in s.rows
  {
    var row := s.rows[id];
    && (exists i: nat :: CreatedBy(row, id, events, i, defaultOrg))
    && (row.error.Some? ==>
          var text := row.error.value;
          text == ABANDONED || (exists i: nat :: RefusedWith(id, text, events, i)) || exists w: nat :: ErroredWith(s, id, text, w))
  }

  ghost predicate AllSourced(s: System, events: seq<Event>, defaultOrg: string) {
    s.nextId == Creations(events) + 1 && forall id | id in s.rows :: Sourced(s, id, events, defaultOrg)
  }

  lemma SourcedStep(s: System, events: seq<Event>, e: Event, defaultOrg: string)
    requires AllSourced(s, events, defaultOrg)
    ensures AllSourced(Next(s, e, defaultOrg), events + [e], defaultOrg)
  {
    hide Sourced, Creations, Next;
    var t, seen := Next(s, e, defaultOrg), events + [e];
    assert seen[..|events|] == events;
    assert t.nextId == Creations(seen) + 1 by {
      CreationsStep(s, events, e, defaultOrg);
    }
    forall id | id in t.rows ensures Sourced(t, id, seen, defaultOrg) {
      RowSourced(s, events, e, defaultOrg, id);
    }
  }

  lemma CreationsStep(s: System, events: seq<Event>, e: Event, defaultOrg: string)
    requires s.nextId == Creations(events) + 1
    ensures Next(s, e, defaultOrg).nextId == Creations(events + [e]) + 1
  {
    assert (events + [e])[..|events|] == events;
  }

  lemma RowSourced(s: System, events: seq<Event>, e: Event, defaultOrg: string, id: int)
    requires AllSourced(s, events, defaultOrg) && id in Next(s, e, defaultOrg).rows
    ensures Sourced(Next(s, e, defaultOrg), id, events + [e], defaultOrg)
  {
    hide Creations, Short, RefusedWith, ErroredWith;
    var t, seen := Next(s, e, defaultOrg), events + [e];
    if e.Create? && id == s.nextId {
      assert seen[..|events|] == events;
      assert CreatedBy(t.rows[id], id, seen, |events|, defaultOrg);
    } else {
      CreationSourced(s, events, e, defaultOrg, id);
      ErrorSourced(s, events, e, defaultOrg, id);
    }
  }

  lemma CreationSourced(s: System, events: seq<Event>, e: Event, defaultOrg: string, id: int)
    requires id in s.rows && Sourced(s, id, events, defaultOrg) && !(e.Create? && id == s.nextId)
    ensures var row := Next(s, e, defaultOrg).rows[id];
            exists i: nat :: CreatedBy(row, id, events + [e], i, defaultOrg)
  {
    hide Creations, Short, RefusedWith, ErroredWith;
    var i: nat :| CreatedBy(s.rows[id], id, events, i, defaultOrg);
    assert (events + [e])[..i] == events[..i];
    assert CreatedBy(Next(s, e, defaultOrg).rows[id], id, events + [e], i, defaultOrg);
  }

  lemma ErrorSourced(s: System, events: seq<Event>, e: Event, defaultOrg: string, id: int)
    requires id in s.rows && Sourced(s, id, events, defaultOrg) && !(e.Create? && id == s.nextId)
    ensures var t, seen := Next(s, e, defaultOrg), events + [e];
            t.rows[id].error.Some? ==>
              var text := t.rows[id].error.value;
              || text == ABANDONED
              || (exists i: nat :: RefusedWith(id, text, seen, i))
              || exists w: nat :: ErroredWith(t, id, text, w)
  {
    hide Creations, CreatedBy, Short;
    var t, seen := Next(s, e, defaultOrg), events + [e];
    if t.rows[id].error.None? {
      return;
    }
    var text := t.rows[id].error.value;
    if t.rows[id].error != s.rows[id].error {
      if e.LaunchRefused? {
        assert RefusedWith(id, text, seen, |events|);
      } else if e.Fail? {
        assert ErroredWith(t, id, text, e.worker);
      }
    } else if i: nat :| RefusedWith(id, text, events, i) {
      assert RefusedWith(id, text, seen, i);
    } else if w: nat :| ErroredWith(s, id, text, w) {
      assert ErroredWith(t, id, text, w);
    }
  }

  lemma {:induction false} RunSourced(s: System, seen: seq<Event>, events: seq<Event>, defaultOrg: string)
    requires AllSourced(s, seen, defaultOrg)
    ensures AllSourced(Run(s, events, defaultOrg), seen + events, defaultOrg)
    decreases events
  {
    hide AllSourced, Next;
    if events == [] {
      assert seen + events == seen;
    } else {
      SourcedStep(s, seen, events[0], defaultOrg);
      RunSourced(Next(s, events[0], defaultOrg), seen + [events[0]], events[1..], defaultOrg);
      assert seen + [events[0]] + events[1..] == seen + events;
    }
  }

  /** However the processes interleave, job `id` has the paths and the owner of the `id`-th creation,
      and an error it shows is the reaper's, or that of a refusal of its launch, or that of a worker
      which failed on it, the last two cut to 2000 characters. */
  lemma RowsComeFromEvents(now: int, events: seq<Event>, defaultOrg: string, id: int)
    requires id in Run(Initial(now), events, defaultOrg).rows
    ensures var s := Run(Initial(now), events, defaultOrg);
            var row := s.rows[id];
            && s.nextId == Creations(events) + 1
            && (exists i: nat :: CreatedBy(row, id, events, i, defaultOrg))
            && (row.error.Some? ==>
                  var text := row.error.value;
                  || text == ABANDONED
                  || (exists i: nat :: RefusedWith(id, text, events, i))
                  || exists w: nat :: ErroredWith(s, id, text, w))
  {
    hide Run, Next, Creations;
    assert Creations([]) == 0 by { CreationsNone(); }
    RunSourced(Initial(now), [], events, defaultOrg);
    assert [] + events == events;
    assert Sourced(Run(Initial(now), events, defaultOrg), id, events, defaultOrg);
  }

  lemma CreationsNone()
    ensures Creations([]) == 0
  {
  }

  // ------------------------------------------------------------------ what persists

  /** A later form of a row: same owner and paths, no attempt forgotten, no error cleared. */
  predicate Later(row: Row, after: Row) {
    && after.org == row.org && after.paths == row.paths
    && after.attempts >= row.attempts
    && (row.error.Some? ==> after.error.Some?)
    && (row.startedAt.Some? ==> after.startedAt.Some?)
    && (row.finishedAt.Some? ==> after.finishedAt.Some?)
    && (after.status.Queued? ==> row == after)
  }

  lemma MarkLater(rows: Rows, id: int, job: int, mark: Mark, now: int)
    requires id in rows
    ensures var after := Marked(rows, job, mark, now); id in after && Later(rows[id], after[id])
  {
  }

  lemma StepLater(s: System, e: Event, defaultOrg: string, id: int)
    requires Honest(s) && id in s.rows
    ensures var t := Next(s, e, defaultOrg); id in t.rows && Later(s.rows[id], t.rows[id])
  {
    hide Short, Starts, Marked, Later;
    assert RowHonest(s, id);
    ReapLater(s.rows[id], s.now);
    match e
    case LaunchRefused(job, message) =>
      MarkLater(s.rows, id, job, MarkFailed(Short("dispatch failed: " + message)), s.now);
    case Start(w) =>
      if In(s, w, Fetched) {
        MarkLater(s.rows, id, s.workers[w].job, MarkRunning, s.now);
      }
    case Succeed(w, stats) =>
      if In(s, w, Indexing) {
        MarkLater(s.rows, id, s.workers[w].job, MarkSucceeded(stats), s.now);
      }
    case Fail(w, message) =>
      if In(s, w, Indexing) || In(s, w, Reported) {
        MarkLater(s.rows, id, s.workers[w].job, MarkFailed(Short(message)), s.now);
      }
    case _ =>
  }

  lemma ReapLater(row: Row, now: int)
    ensures Later(row, row) && Later(row, ReapRow(row, now))
  {
  }

  /** Owner and paths of a job never change, nor does any run forget an attempt or an error. */
  lemma {:induction false} RowsPersist(s: System, events: seq<Event>, defaultOrg: string, id: int)
    requires Honest(s) && id in s.rows
    ensures var t := Run(s, events, defaultOrg); id in t.rows && Later(s.rows[id], t.rows[id])
    decreases events
  {
    hide Next, Honest;
    if events != [] {
      StepLater(s, events[0], defaultOrg, id);
      EveryRowHonest(s, [events[0]], defaultOrg);
      assert Run(s, [events[0]], defaultOrg) == Next(s, events[0], defaultOrg);
      RowsPersist(Next(s, events[0], defaultOrg), events[1..], defaultOrg, id);
    }
  }

  // --------------------------------------------------------------------- the reaper

  /** Reaping fails the stale rows, touches no other, and leaves none that is stale. */
  lemma ReapCorrect(s: System, olderThan: int, defaultOrg: string)
    requires Honest(s)
    ensures var t := Next(s, Reap(olderThan), defaultOrg);
            && t.rows.Keys == s.rows.Keys
            && StaleIds(t.rows, s.now - olderThan) == {}
            && (forall id | id in t.rows && t.rows[id].status.Running? :: t.rows[id].startedAt.value >= s.now - olderThan)
            && (forall id | id in s.rows && !s.rows[id].Stale(s.now - olderThan) :: t.rows[id] == s.rows[id])
            && (forall id | id in StaleIds(s.rows, s.now - olderThan) ::
                  t.rows[id].status.Failed? && t.rows[id].error.Some? && t.rows[id].finishedAt == Some(s.now))
  {
    hide Starts;
    var t := Next(s, Reap(olderThan), defaultOrg);
    assert forall id | id in t.rows :: !t.rows[id].Stale(s.now - olderThan);
    forall id | id in t.rows && t.rows[id].status.Running?
      ensures t.rows[id].startedAt.Some? && t.rows[id].startedAt.value >= s.now - olderThan
    {
      assert RowHonest(s, id);
    }
  }

  /** A job left running is failed by the first reap after its time is up, if nobody else ends it. */
  lemma AbandonedJobsFail(s: System, elapsed: nat, olderThan: int, defaultOrg: string, id: int)
    requires Honest(s) && id in s.rows && s.rows[id].status.Running?
    ensures var t := Run(s, [Tick(elapsed), Reap(olderThan)], defaultOrg);
            var overdue := s.rows[id].startedAt.Some? && s.now + elapsed - olderThan > s.rows[id].startedAt.value;
            && id in t.rows
            && var row := t.rows[id];
            if overdue then row.status.Failed? && row.error.Some? else row == s.rows[id]
  {
    hide Starts;
    assert RowHonest(s, id);
    var ticked := Next(s, Tick(elapsed), defaultOrg);
    assert [Tick(elapsed), Reap(olderThan)][1..] == [Reap(olderThan)];
    assert Run(ticked, [Reap(olderThan)], defaultOrg) == Run(Next(ticked, Reap(olderThan), defaultOrg), [], defaultOrg);
    assert Run(s, [Tick(elapsed), Reap(olderThan)], defaultOrg) == Next(ticked, Reap(olderThan), defaultOrg);
  }

  // ------------------------------------------------------------- when an end is final

  /** A worker on a job, in one of two phases. */
  predicate At(s: System, w: nat, id: int, p: Phase, q: Phase) {
    w < |s.workers| && s.workers[w].job == id && (s.workers[w].phase == p || s.workers[w].phase == q)
  }

  /** No process is left that could still write the row of a job. */
  ghost predicate Quiet(s: System, id: int) {
    id !in s.launching && forall w: nat | w < |s.workers| :: !(s.workers[w].job == id && s.workers[w].Active())
  }

  /** A job is over: no worker that read its row has yet to end it, and if it succeeded, no worker is
      about to leave it and no launch is open, either of which could still fail it. */
  ghost predicate Over(s: System, id: int)
    requires id in s.rows
  {
    && s.rows[id].Ended()
    && (forall w: nat :: !At(s, w, id, Fetched, Indexing))
    && (s.rows[id].status.Succeeded? ==> id !in s.launching && forall w: nat :: !At(s, w, id, Reported, Reported))
  }

  lemma QuietStep(s: System, e: Event, defaultOrg: string, id: int)
    requires Honest(s) && id in s.rows && s.rows[id].Ended() && Quiet(s, id) && e != Fetch(id)
    ensures var t := Next(s, e, defaultOrg); id in t.rows && t.rows[id] == s.rows[id] && Quiet(t, id)
  {
    hide Starts, Short;
    assert RowHonest(s, id);
    if e.Start? || e.Succeed? || e.Leave? || e.Fail? || e.Kill? {
      assert e.worker < |s.workers| ==> !(s.workers[e.worker].job == id && s.workers[e.worker].Active());
    }
  }

  lemma {:induction false} QuietRun(s: System, events: seq<Event>, defaultOrg: string, id: int)
    requires Honest(s) && id in s.rows && s.rows[id].Ended() && Quiet(s, id) && Fetch(id) !in events
    ensures var t := Run(s, events, defaultOrg); id in t.rows && t.rows[id] == s.rows[id]
    decreases events
  {
    hide Next, Honest, Quiet;
    if events != [] {
      QuietStep(s, events[0], defaultOrg, id);
      EveryRowHonest(s, [events[0]], defaultOrg);
      assert Run(s, [events[0]], defaultOrg) == Next(s, events[0], defaultOrg);
      QuietRun(Next(s, events[0], defaultOrg), events[1..], defaultOrg, id);
    }
  }

  /** Some continuation without a new worker makes the row another one. */
  ghost predicate CanChange(s: System, defaultOrg: string, id: int)
    requires id in s.rows
  {
    exists events: seq<Event> :: Fetch(id) !in events && Differs(s, events, defaultOrg, id)
  }

  predicate Differs(s: System, events: seq<Event>, defaultOrg: string, id: int)
    requires id in s.rows
  {
    var t := Run(s, events, defaultOrg);
    id in t.rows && t.rows[id] != s.rows[id]
  }

  /** Some continuation without a new worker gives the job another status. */
  ghost predicate CanTurn(s: System, defaultOrg: string, id: int)
    requires id in s.rows
  {
    exists events: seq<Event> :: Fetch(id) !in events && Turns(s, events, defaultOrg, id)
  }

  predicate Turns(s: System, events: seq<Event>, defaultOrg: string, id: int)
    requires id in s.rows
  {
    var t := Run(s, events, defaultOrg);
    id in t.rows && t.rows[id].status != s.rows[id].status
  }

  lemma OneEvent(s: System, e: Event, defaultOrg: string, id: int)
    requires id in s.rows && e != Fetch(id) && id in Next(s, e, defaultOrg).rows
    ensures Next(s, e, defaultOrg).rows[id] != s.rows[id] ==> CanChange(s, defaultOrg, id)
    ensures Next(s, e, defaultOrg).rows[id].status != s.rows[id].status ==> CanTurn(s, defaultOrg, id)
  {
    hide Next, Run;
    RunOne(s, e, defaultOrg);
    assert Fetch(id) !in [e];
    assert Differs(s, [e], defaultOrg, id) <==> Next(s, e, defaultOrg).rows[id] != s.rows[id];
    assert Turns(s, [e], defaultOrg, id) <==> Next(s, e, defaultOrg).rows[id].status != s.rows[id].status;
  }

  /** A worker that has yet to end an ended job can give it another status. */
  lemma EndingWorkerTurns(s: System, w: nat, defaultOrg: string, id: int)
    requires Honest(s) && id in s.rows && s.rows[id].Ended()
    requires At(s, w, id, Fetched, Indexing) || (At(s, w, id, Reported, Reported) && s.rows[id].status.Succeeded?)
    ensures CanTurn(s, defaultOrg, id) && CanChange(s, defaultOrg, id)
  {
    hide Starts, Short, CanTurn, CanChange;
    if s.workers[w].phase.Fetched? {
      OneEvent(s, Start(w), defaultOrg, id);
    } else if s.rows[id].status.Succeeded? {
      OneEvent(s, Fail(w, ""), defaultOrg, id);
    } else {
      OneEvent(s, Succeed(w, Stats(0, 0, 0, 0)), defaultOrg, id);
    }
  }

  /** A message that a failure would leave, other than the one that a row holds. */
  lemma OtherMessage(row: Row, prefix: string) returns (message: string)
    requires |prefix| < 100
    ensures row.error != Some(Short(prefix + message))
  {
    message := if row.error == Some(prefix) then "!" else "";
    assert prefix + "" == prefix;
  }

  lemma WriterChanges(s: System, e: Event, defaultOrg: string, id: int, message: string)
    requires id in s.rows && s.rows[id].error != Some(Short(message))
    requires id in Next(s, e, defaultOrg).rows && e != Fetch(id)
    requires Next(s, e, defaultOrg).rows[id] == MarkRow(s.rows[id], MarkFailed(Short(message)), s.now)
    ensures CanChange(s, defaultOrg, id)
  {
    hide Next, CanChange, CanTurn, Short;
    OneEvent(s, e, defaultOrg, id);
  }

  lemma ReportedWorkerChanges(s: System, w: nat, defaultOrg: string, id: int)
    requires id in s.rows && At(s, w, id, Reported, Reported)
    ensures CanChange(s, defaultOrg, id)
  {
    hide Short, CanChange;
    var message := OtherMessage(s.rows[id], "");
    assert "" + message == message;
    WriterChanges(s, Fail(w, message), defaultOrg, id, message);
  }

  lemma RefusalChanges(s: System, defaultOrg: string, id: int)
    requires id in s.rows && id in s.launching
    ensures CanChange(s, defaultOrg, id)
    ensures s.rows[id].status.Succeeded? ==> CanTurn(s, defaultOrg, id)
  {
    hide Short, CanChange, CanTurn;
    var message := OtherMessage(s.rows[id], "dispatch failed: ");
    WriterChanges(s, LaunchRefused(id, message), defaultOrg, id, "dispatch failed: " + message);
    OneEvent(s, LaunchRefused(id, message), defaultOrg, id);
  }

  /** The row of an ended job stays as it is until someone reads it anew, exactly when no worker on it is
      active and its launch is no longer open. */
  lemma RowIsFinal(s: System, defaultOrg: string, id: int)
    requires Honest(s) && id in s.rows && s.rows[id].Ended()
    ensures !CanChange(s, defaultOrg, id) <==> Quiet(s, id)
  {
    hide Next, Starts, Run, Honest, CanTurn;
    if id in s.launching {
      RefusalChanges(s, defaultOrg, id);
    } else if w: nat :| w < |s.workers| && s.workers[w].job == id && s.workers[w].Active() {
      if s.workers[w].phase.Reported? {
        ReportedWorkerChanges(s, w, defaultOrg, id);
      } else {
        EndingWorkerTurns(s, w, defaultOrg, id);
      }
    } else if CanChange(s, defaultOrg, id) {
      var events: seq<Event> :| Fetch(id) !in events && Differs(s, events, defaultOrg, id);
      QuietRun(s, events, defaultOrg, id);
    }
  }

  /** An ended job keeps its status until someone reads it anew, exactly when it is over. */
  lemma EndIsFinal(s: System, defaultOrg: string, id: int)
    requires Honest(s) && id in s.rows && s.rows[id].Ended()
    ensures !CanTurn(s, defaultOrg, id) <==> Over(s, id)
  {
    hide Next, Starts, Run, Honest, CanChange, At;
    if w: nat :| At(s, w, id, Fetched, Indexing) {
      EndingWorkerTurns(s, w, defaultOrg, id);
    } else if w: nat :| At(s, w, id, Reported, Reported) && s.rows[id].status.Succeeded? {
      EndingWorkerTurns(s, w, defaultOrg, id);
    } else if s.rows[id].status.Succeeded? && id in s.launching {
      RefusalChanges(s, defaultOrg, id);
    } else if CanTurn(s, defaultOrg, id) {
      var events: seq<Event> :| Fetch(id) !in events && Turns(s, events, defaultOrg, id);
      StatusKept(s, events, defaultOrg, id);
    }
  }

  lemma OverStep(s: System, e: Event, defaultOrg: string, id: int)
    requires Honest(s) && id in s.rows && Over(s, id) && e != Fetch(id)
    ensures var t := Next(s, e, defaultOrg);
            id in t.rows && Over(t, id) && t.rows[id].status == s.rows[id].status
  {
    hide Starts, Short;
    assert RowHonest(s, id);
    var t := Next(s, e, defaultOrg);
    if e.Start? || e.Succeed? || e.Leave? || e.Fail? || e.Kill? {
      assert !At(s, e.worker, id, Fetched, Indexing);
      assert s.rows[id].status.Succeeded? ==> !At(s, e.worker, id, Reported, Reported);
    }
    forall w: nat ensures !At(t, w, id, Fetched, Indexing)
      ensures s.rows[id].status.Succeeded? ==> !At(t, w, id, Reported, Reported)
    {
      assert !At(s, w, id, Fetched, Indexing);
      assert s.rows[id].status.Succeeded? ==> !At(s, w, id, Reported, Reported);
    }
  }

  lemma {:induction false} StatusKept(s: System, events: seq<Event>, defaultOrg: string, id: int)
    requires Honest(s) && id in s.rows && Over(s, id) && Fetch(id) !in events
    ensures var t := Run(s, events, defaultOrg); id in t.rows && t.rows[id].status == s.rows[id].status
    decreases events
  {
    hide Next, Honest, Over;
    if events != [] {
      OverStep(s, events[0], defaultOrg, id);
      EveryRowHonest(s, [events[0]], defaultOrg);
      assert Run(s, [events[0]], defaultOrg) == Next(s, events[0], defaultOrg);
      StatusKept(Next(s, events[0], defaultOrg), events[1..], defaultOrg, id);
    }
  }

  /** What has yet to end can always end without a trace: every worker is killed, or leaves if it has
      reported. */
  lemma {:induction false} WorkersEnd(s: System, w: nat, defaultOrg: string, id: int) returns (events: seq<Event>)
    requires w <= |s.workers| && forall v: nat | v < w :: !s.workers[v].Active()
    ensures Fetch(id) !in events
    ensures var t := Run(s, events, defaultOrg);
            && t.rows == s.rows && t.launching == s.launching
            && forall v: nat | v < |t.workers| :: !t.workers[v].Active()
    decreases |s.workers| - w
  {
    hide Run;
    if w == |s.workers| {
      events := [];
      RunNone(s, defaultOrg);
    } else {
      var e := if s.workers[w].phase.Reported? then Leave(w) else Kill(w);
      var t := Next(s, e, defaultOrg);
      assert In(s, w, Reported) <==> s.workers[w].phase.Reported?;
      var rest := WorkersEnd(t, w + 1, defaultOrg, id);
      events := [e] + rest;
      RunCons(s, events, defaultOrg);
      assert events[1..] == rest;
    }
  }

  lemma RunNone(s: System, defaultOrg: string)
    ensures Run(s, [], defaultOrg) == s
  {
  }

  /** So from every state some run without a new worker leaves the table as it is and nobody who could still
      write the row of a given job. */
  lemma QuietReachable(s: System, defaultOrg: string, id: int) returns (events: seq<Event>)
    ensures Fetch(id) !in events
    ensures Run(s, events, defaultOrg).rows == s.rows && Quiet(Run(s, events, defaultOrg), id)
  {
    hide Run;
    var t := Next(s, Launched(id), defaultOrg);
    var rest := WorkersEnd(t, 0, defaultOrg, id);
    events := [Launched(id)] + rest;
    RunCons(s, events, defaultOrg);
    assert events[1..] == rest;
  }

  /** A worker at its job while the job's row is stale. */
  predicate Slow(s: System, w: nat, id: int, cutoff: int) {
    In(s, w, Indexing) && s.workers[w].job == id && id in s.rows && s.rows[id].Stale(cutoff)
  }

  /** Being reaped is no end: a slow worker of a reaped job still succeeds, and the error stays. */
  lemma ReapedJobCanSucceed(s: System, w: nat, id: int, olderThan: int, stats: Stats, defaultOrg: string)
    requires Slow(s, w, id, s.now - olderThan)
    ensures var reaped := Next(s, Reap(olderThan), defaultOrg);
            var t := Next(reaped, Succeed(w, stats), defaultOrg);
            && id in reaped.rows && reaped.rows[id].status == Failed
            && id in t.rows && t.rows[id].status == Succeeded
            && t.rows[id].error == Some(s.rows[id].error.GetOr(ABANDONED))
  {
    var reaped := Next(s, Reap(olderThan), defaultOrg);
    assert In(reaped, w, Indexing);
  }

  /** And slow workers do occur. */
  lemma SlowWorkerOccurs(now: int)
    ensures Slow(Run(Initial(now), [Create(["a"], None), Fetch(1), Start(0), Tick(61)], "default"), 0, 1, now + 1)
  {
    hide Run;
    var events := [Create(["a"], None), Fetch(1), Start(0), Tick(61)];
    var s1 := Next(Initial(now), events[0], "default");
    var s2 := Next(s1, events[1], "default");
    var s3 := Next(s2, events[2], "default");
    assert In(s2, 0, Fetched) && 1 in s2.rows;
    assert s3.rows[1].startedAt == Some(now);
    RunFour(Initial(now), events, "default");
  }

  lemma RunOne(s: System, e: Event, defaultOrg: string)
    ensures Run(s, [e], defaultOrg) == Next(s, e, defaultOrg)
  {
  }

  /** The three steps of a worker with nobody in between. */
  function Alone(w: nat, id: int, elapsed: nat, result: Result<Stats, string>): seq<Event> {
    [Fetch(id), Start(w), Tick(elapsed),
     match result case Ok(stats) => Succeed(w, stats) case Err(message) => Fail(w, message)]
  }

  /** They leave the table that `run_job` leaves. */
  lemma UninterruptedRun(s: System, id: int, elapsed: nat, result: Result<Stats, string>, defaultOrg: string)
    requires id in s.rows
    ensures Run(s, Alone(|s.workers|, id, elapsed, result), defaultOrg).rows
         == AfterRun(s.rows, id, result, s.now, s.now + elapsed)
  {
    hide Short, Run;
    var events := Alone(|s.workers|, id, elapsed, result);
    var s1 := Next(s, events[0], defaultOrg);
    var s2 := Next(s1, events[1], defaultOrg);
    var s3 := Next(s2, events[2], defaultOrg);
    RunFour(s, events, defaultOrg);
    assert s3.rows == Marked(s.rows, id, MarkRunning, s.now);
    assert In(s3, |s.workers|, Indexing);
  }

  lemma RunFour(s: System, events: seq<Event>, defaultOrg: string)
    requires |events| == 4
    ensures var s1 := Next(s, events[0], defaultOrg);
            var s2 := Next(s1, events[1], defaultOrg);
            var s3 := Next(s2, events[2], defaultOrg);
            Run(s, events, defaultOrg) == Next(s3, events[3], defaultOrg)
  {
    hide Next, Run;
    RunCons(s, events, defaultOrg);
    RunCons(Next(s, events[0], defaultOrg), events[1..], defaultOrg);
    RunCons(Next(Next(s, events[0], defaultOrg), events[1], defaultOrg), events[2..], defaultOrg);
    assert events[3..] == [events[3]];
    RunOne(Next(Next(Next(s, events[0], defaultOrg), events[1], defaultOrg), events[2], defaultOrg), events[3], defaultOrg);
  }

  lemma RunCons(s: System, events: seq<Event>, defaultOrg: string)
    requires events != []
    ensures Run(s, events, defaultOrg) == Run(Next(s, events[0], defaultOrg), events[1..], defaultOrg)
  {
  }
}
