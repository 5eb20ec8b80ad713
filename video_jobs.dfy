/** backend/src/services/videoJobService.ts: the video-generation job table.
    Jobs move queued -> running -> completed | failed, a retry puts a job back
    in the queue with a not-before time, a failed job can be parked in a
    dead-letter queue (at most one entry per job) and redriven from it.
    Timestamps are integer milliseconds; the JSON file behind the table is
    replaced by the two in-memory sequences of `JobTable`. */
module VideoJobs {
  import opened Wrappers

  datatype Status = Queued | Running | Failed | Completed

  /** `'16:9' | '9:16'`. */
  datatype AspectRatio = Landscape | Portrait

  datatype Image = Image(imageBytes: string, mimeType: string)

  datatype Payload = Payload(prompt: string, image: Image, aspectRatio: AspectRatio)

  /** A job record. The `unknown`-typed `operation` and `result` are opaque
      strings; `None` stands for a field that is absent or holds a falsy value. */
  datatype Job = Job(
    id: string,
    status: Status,
    requestId: string,
    prompt: string,
    image: Image,
    aspectRatio: AspectRatio,
    operationName: Option<string>,
    operation: Option<string>,
    result: Option<string>,
    error: Option<string>,
    createdAt: int,
    updatedAt: int,
    startedAt: Option<int>,
    completedAt: Option<int>,
    attempts: int,
    maxAttempts: int,
    nextRunAt: Option<int>,
    lastError: Option<string>,
    lastErrorAt: Option<int>)

  datatype DlqReason = NonRetryable | MaxRetriesExhausted

  datatype DlqEntry = DlqEntry(
    id: string,
    jobId: string,
    requestId: string,
    failedAt: int,
    attempts: int,
    maxAttempts: int,
    error: string,
    reason: DlqReason,
    jobSnapshot: Job)

  datatype MetricsSnapshot = MetricsSnapshot(
    queueDepth: nat,
    oldestQueuedAgeMs: Option<int>,
    runningJobs: nat,
    completedJobs: nat,
    failedJobs: nat,
    retriesTotal: int,
    throughputLast5m: nat,
    dlqSize: nat)

  const DefaultMaxAttempts: int := 3
  const ThroughputWindowMs: int := 5 * 60 * 1000

  /** What JavaScript's `Number(...)` yields: not a number, an infinity, or a finite value. */
  datatype NumberValue = NaN | Infinite | Finite(r: real)

  /** `getConfiguredMaxAttempts`: `configured` is `Number(VIDEO_JOB_MAX_ATTEMPTS)`
      when the variable is set. A finite value of at least 1 is floored; anything
      else, and an unset variable, gives the default 3. */
  function ConfiguredMaxAttempts(configured: Option<NumberValue>): (n: int)
    ensures n >= 1
    ensures (configured.Some? && configured.value.Finite? && configured.value.r >= 1.0)
            ==> n as real <= configured.value.r < n as real + 1.0
    ensures !(configured.Some? && configured.value.Finite? && configured.value.r >= 1.0)
            ==> n == DefaultMaxAttempts
  {
    var parsed := if configured.None? then Finite(DefaultMaxAttempts as real) else configured.value;
    if !parsed.Finite? || parsed.r < 1.0 then DefaultMaxAttempts else parsed.r.Floor
  }

  /** JavaScript's `a || b` on optional strings: the empty string is falsy. */
  function OrElse(a: Option<string>, b: Option<string>): Option<string>
  {
    if a.Some? && a.value != "" then a else b
  }

  /** `db.jobs.findIndex(job => job.id === jobId)`: the first index, or -1. */
  function FindJobIndex(jobs: seq<Job>, jobId: string): (i: int)
    ensures -1 <= i < |jobs|
    ensures i >= 0 ==> jobs[i].id == jobId
    ensures forall j :: 0 <= j < |jobs| && (i < 0 || j < i) ==> jobs[j].id != jobId
  {
    if jobs == [] then -1
    else if jobs[0].id == jobId then 0
    else
      var k := FindJobIndex(jobs[1..], jobId);
      if k < 0 then -1 else k + 1
  }

  /** `db.dlq.findIndex(entry => entry.jobId === jobId)`: the first index, or -1. */
  function FindDlqIndex(dlq: seq<DlqEntry>, jobId: string): (i: int)
    ensures -1 <= i < |dlq|
    ensures i >= 0 ==> dlq[i].jobId == jobId
    ensures forall j :: 0 <= j < |dlq| && (i < 0 || j < i) ==> dlq[j].jobId != jobId
  {
    if dlq == [] then -1
    else if dlq[0].jobId == jobId then 0
    else
      var k := FindDlqIndex(dlq[1..], jobId);
      if k < 0 then -1 else k + 1
  }

  /** `findJob`, and so `getVideoJob`. */
  function FindJob(jobs: seq<Job>, jobId: string): Option<Job>
  {
    var i := FindJobIndex(jobs, jobId);
    if i < 0 then None else Some(jobs[i])
  }

  /** A job the workers may claim now: queued, with no `nextRunAt` in the future. */
  predicate Eligible(job: Job, now: int)
  {
    job.status == Queued && (job.nextRunAt.None? || job.nextRunAt.value <= now)
  }

  /** The first claimable job in table order (`filter` queued, then `find` due),
      or `|jobs|` when there is none. */
  function FirstEligible(jobs: seq<Job>, now: int): (k: nat)
    ensures k <= |jobs|
    ensures k < |jobs| ==> Eligible(jobs[k], now)
    ensures forall j :: 0 <= j < k ==> !Eligible(jobs[j], now)
  {
    if jobs == [] then 0
    else if Eligible(jobs[0], now) then 0
    else 1 + FirstEligible(jobs[1..], now)
  }

  // The record rewrites passed to `updateJobInDb` and used by the DLQ operations.

  function NewJob(id: string, payload: Payload, requestId: string, now: int, maxAttempts: int): Job
  {
    Job(id, Queued, requestId, payload.prompt, payload.image, payload.aspectRatio,
        None, None, None, None, now, now, None, None, 0, maxAttempts, None, None, None)
  }

  function Claimed(job: Job, now: int): Job
  {
    job.(status := Running,
         startedAt := if job.startedAt.Some? then job.startedAt else Some(now),
         attempts := job.attempts + 1,
         nextRunAt := None)
  }

  function WithOperation(job: Job, operation: Option<string>, operationName: Option<string>): Job
  {
    job.(status := Running, operation := operation,
         operationName := OrElse(operationName, job.operationName))
  }

  function MarkedCompleted(job: Job, result: Option<string>, operation: Option<string>, now: int): Job
  {
    job.(status := Completed, result := result,
         operation := if operation.Some? then operation else job.operation,
         completedAt := Some(now))
  }

  function MarkedFailed(job: Job, message: string, now: int): Job
  {
    job.(status := Failed, error := Some(message), lastError := Some(message),
         lastErrorAt := Some(now), completedAt := Some(now))
  }

  function RetryScheduled(job: Job, message: string, waitMs: int, now: int): Job
  {
    job.(status := Queued, error := None, completedAt := None,
         nextRunAt := Some(now + waitMs), lastError := Some(message), lastErrorAt := Some(now))
  }

  function DeadLettered(job: Job, message: string, now: int): Job
  {
    job.(status := Failed, error := Some(message), lastError := Some(message),
         lastErrorAt := Some(now), completedAt := Some(now), updatedAt := now)
  }

  function Redriven(job: Job, requestId: string, now: int): Job
  {
    job.(status := Queued, requestId := requestId, updatedAt := now, error := None,
         completedAt := None, nextRunAt := None, lastError := None, lastErrorAt := None,
         attempts := 0)
  }

  /** The outcome of asking the provider about a running job's operation. */
  datatype Probe = Answered(operation: Option<string>, done: bool) | Threw(message: string)

  function Refreshed(job: Job, operation: Option<string>, done: bool, now: int): Job
  {
    job.(status := if done then Completed else Running,
         result := if done then operation else job.result,
         operation := operation,
         completedAt := if done then Some(now) else job.completedAt)
  }

  /** The dead-letter entry written for a job (with its updated snapshot). */
  function EntryFor(entryId: string, updated: Job, message: string, reason: DlqReason): DlqEntry
  {
    DlqEntry(entryId, updated.id, updated.requestId, updated.updatedAt, updated.attempts,
             updated.maxAttempts, message, reason, updated)
  }

  /** The DLQ after recording `entry`: an existing entry for the same job is
      replaced in place, otherwise the entry is appended. */
  function UpsertDlq(dlq: seq<DlqEntry>, entry: DlqEntry): seq<DlqEntry>
  {
    var i := FindDlqIndex(dlq, entry.jobId);
    if i >= 0 then dlq[i := entry] else dlq + [entry]
  }

  /** `db.dlq.filter(entry => entry.jobId !== jobId)`. */
  function RemoveDlq(dlq: seq<DlqEntry>, jobId: string): seq<DlqEntry>
  {
    if dlq == [] then []
    else if dlq[0].jobId == jobId then RemoveDlq(dlq[1..], jobId)
    else [dlq[0]] + RemoveDlq(dlq[1..], jobId)
  }

  predicate AtMostOneEntryPerJob(dlq: seq<DlqEntry>)
  {
    forall i, j :: 0 <= i < j < |dlq| ==> dlq[i].jobId != dlq[j].jobId
  }

  predicate UniqueIds(jobs: seq<Job>)
  {
    forall i, j :: 0 <= i < j < |jobs| ==> jobs[i].id != jobs[j].id
  }

  // The metrics snapshot, as filters and reductions over the table.

  function CountStatus(jobs: seq<Job>, status: Status): nat
  {
    if jobs == [] then 0
    else (if jobs[0].status == status then 1 else 0) + CountStatus(jobs[1..], status)
  }

  function Max0(x: int): int { if x < 0 then 0 else x }

  /** `reduce((acc, job) => acc + Math.max(0, job.attempts - 1), 0)`. */
  function RetriesTotal(jobs: seq<Job>): int
  {
    if jobs == [] then 0 else Max0(jobs[0].attempts - 1) + RetriesTotal(jobs[1..])
  }

  /** Smallest `createdAt` among the queued jobs, if any is queued. */
  function OldestQueued(jobs: seq<Job>): Option<int>
  {
    if jobs == [] then None
    else
      var rest := OldestQueued(jobs[1..]);
      if jobs[0].status != Queued then rest
      else if rest.None? || jobs[0].createdAt < rest.value then Some(jobs[0].createdAt)
      else rest
  }

  /** Completed jobs whose completion falls in the last five minutes. */
  function CompletedSince(jobs: seq<Job>, since: int): nat
  {
    if jobs == [] then 0
    else
      var j := jobs[0];
      (if j.status == Completed && j.completedAt.Some? && j.completedAt.value >= since then 1 else 0)
      + CompletedSince(jobs[1..], since)
  }

  /** `getVideoAsyncMetricsSnapshot` without the per-minute rate. */
  function Snapshot(jobs: seq<Job>, dlq: seq<DlqEntry>, now: int): MetricsSnapshot
  {
    var oldest := OldestQueued(jobs);
    MetricsSnapshot(
      CountStatus(jobs, Queued),
      if oldest.None? then None else Some(Max0(now - oldest.value)),
      CountStatus(jobs, Running),
      CountStatus(jobs, Completed),
      CountStatus(jobs, Failed),
      RetriesTotal(jobs),
      CompletedSince(jobs, now - ThroughputWindowMs),
      |dlq|)
  }

  /** The job table `{ jobs, dlq }`, updated in place by the service's operations. */
  class JobTable {
    var jobs: seq<Job>
    var dlq: seq<DlqEntry>

    /** `ensureDb` on a missing file: an empty table. */
    constructor ()
      ensures jobs == [] && dlq == []
    {
      jobs := [];
      dlq := [];
    }

    function GetJob(jobId: string): (r: Option<Job>)
      reads this
      ensures r.Some? <==> exists i :: 0 <= i < |jobs| && jobs[i].id == jobId
      ensures r.Some? ==> r.value.id == jobId && r.value in jobs
    {
      FindJob(jobs, jobId)
    }

    /** `updateJobInDb`: an unknown id changes nothing; otherwise the first job
        with that id is stamped with `now` and rewritten by `updater`, and only
        that position changes. */
    method UpdateJob(jobId: string, updater: Job -> Job, now: int) returns (r: Option<Job>)
      modifies this
      ensures dlq == old(dlq)
      ensures var i := FindJobIndex(old(jobs), jobId);
              if i < 0 then r.None? && jobs == old(jobs)
              else jobs == old(jobs)[i := updater(old(jobs)[i].(updatedAt := now))] && r == Some(jobs[i])
    {
      var index := FindJobIndex(jobs, jobId);
      if index < 0 {
        return None;
      }
      jobs := jobs[index := updater(jobs[index].(updatedAt := now))];
      r := Some(jobs[index]);
    }

    /** `createVideoJob`: a truthy `preferredJobId` that already names a job
        returns that job and appends nothing; otherwise a queued job with no
        attempts, `createdAt == updatedAt == now`, is appended. `freshId`
        stands for `randomUUID()`. */
    method CreateJob(payload: Payload, requestId: string, preferredJobId: Option<string>,
                     freshId: string, now: int, configuredMax: Option<NumberValue>) returns (job: Job)
      modifies this
      ensures dlq == old(dlq)
      ensures var preferred := preferredJobId.Some? && preferredJobId.value != "";
              if preferred && FindJob(old(jobs), preferredJobId.value).Some?
              then job == FindJob(old(jobs), preferredJobId.value).value && jobs == old(jobs)
              else job == NewJob(if preferred then preferredJobId.value else freshId, payload,
                                 requestId, now, ConfiguredMaxAttempts(configuredMax))
                   && jobs == old(jobs) + [job]
    {
      var preferred := preferredJobId.Some? && preferredJobId.value != "";
      if preferred {
        var existing := FindJob(jobs, preferredJobId.value);
        if existing.Some? {
          return existing.value;
        }
      }
      job := NewJob(if preferred then preferredJobId.value else freshId, payload,
                    requestId, now, ConfiguredMaxAttempts(configuredMax));
      jobs := jobs + [job];
    }

    /** `claimVideoJob`: only an eligible job is claimed. */
    method ClaimJob(jobId: string, now: int) returns (r: Option<Job>)
      modifies this
      ensures dlq == old(dlq)
      ensures var i := FindJobIndex(old(jobs), jobId);
              if i < 0 || !Eligible(old(jobs)[i], now) then r.None? && jobs == old(jobs)
              else jobs == old(jobs)[i := Claimed(old(jobs)[i].(updatedAt := now), now)]
                   && r == Some(jobs[i])
    {
      var current := FindJob(jobs, jobId);
      if current.None? || current.value.status != Queued {
        return None;
      }
      if current.value.nextRunAt.Some? && current.value.nextRunAt.value > now {
        return None;
      }
      r := UpdateJob(jobId, job => Claimed(job, now), now);
    }

    /** `claimNextQueuedVideoJob`: claim the first eligible job in table order,
        through its id; with unique ids (`ClaimNextClaimsFirstEligible`) that is
        the job at the found position. */
    method ClaimNextJob(now: int) returns (r: Option<Job>)
      modifies this
      ensures dlq == old(dlq)
      ensures var k := FirstEligible(old(jobs), now);
              if k == |old(jobs)| then r.None? && jobs == old(jobs)
              else var i := FindJobIndex(old(jobs), old(jobs)[k].id);
                   0 <= i <= k
                   && jobs == old(jobs)[i := Claimed(old(jobs)[i].(updatedAt := now), now)]
                   && r == Some(jobs[i])
    {
      var k := FirstEligible(jobs, now);
      if k == |jobs| {
        return None;
      }
      r := UpdateJob(jobs[k].id, job => Claimed(job, now), now);
    }

    /** `markVideoJobOperation`. */
    method MarkOperation(jobId: string, operation: Option<string>, operationName: Option<string>, now: int)
      returns (r: Option<Job>)
      modifies this
      ensures dlq == old(dlq)
      ensures var i := FindJobIndex(old(jobs), jobId);
              if i < 0 then r.None? && jobs == old(jobs)
              else jobs == old(jobs)[i := WithOperation(old(jobs)[i].(updatedAt := now), operation, operationName)]
                   && r == Some(jobs[i])
    {
      r := UpdateJob(jobId, job => WithOperation(job, operation, operationName), now);
    }

    /** `markVideoJobCompleted`. */
    method MarkCompleted(jobId: string, result: Option<string>, operation: Option<string>, now: int)
      returns (r: Option<Job>)
      modifies this
      ensures dlq == old(dlq)
      ensures var i := FindJobIndex(old(jobs), jobId);
              if i < 0 then r.None? && jobs == old(jobs)
              else jobs == old(jobs)[i := MarkedCompleted(old(jobs)[i].(updatedAt := now), result, operation, now)]
                   && r == Some(jobs[i])
    {
      r := UpdateJob(jobId, job => MarkedCompleted(job, result, operation, now), now);
    }

    /** `markVideoJobFailed`. */
    method MarkFailed(jobId: string, message: string, now: int) returns (r: Option<Job>)
      modifies this
      ensures dlq == old(dlq)
      ensures var i := FindJobIndex(old(jobs), jobId);
              if i < 0 then r.None? && jobs == old(jobs)
              else jobs == old(jobs)[i := MarkedFailed(old(jobs)[i].(updatedAt := now), message, now)]
                   && r == Some(jobs[i])
    {
      r := UpdateJob(jobId, job => MarkedFailed(job, message, now), now);
    }

    /** `scheduleVideoJobRetry`. */
    method ScheduleRetry(jobId: string, message: string, waitMs: int, now: int) returns (r: Option<Job>)
      modifies this
      ensures dlq == old(dlq)
      ensures var i := FindJobIndex(old(jobs), jobId);
              if i < 0 then r.None? && jobs == old(jobs)
              else jobs == old(jobs)[i := RetryScheduled(old(jobs)[i].(updatedAt := now), message, waitMs, now)]
                   && r == Some(jobs[i])
    {
      r := UpdateJob(jobId, job => RetryScheduled(job, message, waitMs, now), now);
    }

    /** `moveVideoJobToDlq`: the job is marked failed and its dead-letter entry,
        holding the updated job as snapshot, replaces the job's existing entry
        or is appended. `entryId` stands for `randomUUID()`. */
    method MoveToDlq(jobId: string, message: string, reason: DlqReason, now: int, entryId: string)
      returns (r: Option<Job>)
      modifies this
      ensures var i := FindJobIndex(old(jobs), jobId);
              if i < 0 then r.None? && jobs == old(jobs) && dlq == old(dlq)
              else var updated := DeadLettered(old(jobs)[i], message, now);
                   r == Some(updated) && jobs == old(jobs)[i := updated]
                   && dlq == UpsertDlq(old(dlq), EntryFor(entryId, updated, message, reason))
    {
      var job := FindJob(jobs, jobId);
      if job.None? {
        return None;
      }
      var updated := DeadLettered(job.value, message, now);
      var entry := EntryFor(entryId, updated, message, reason);
      var existingEntryIndex := FindDlqIndex(dlq, jobId);
      if existingEntryIndex >= 0 {
        dlq := dlq[existingEntryIndex := entry];
      } else {
        dlq := dlq + [entry];
      }
      var jobIndex := FindJobIndex(jobs, jobId);
      if jobIndex >= 0 {
        jobs := jobs[jobIndex := updated];
      }
      r := Some(updated);
    }

    /** `redriveVideoJobFromDlq`: needs both a dead-letter entry and the job;
        the job is re-queued with no attempts and no error, and every entry
        for it leaves the DLQ. */
    method RedriveFromDlq(jobId: string, requestId: string, now: int) returns (r: Option<Job>)
      modifies this
      ensures var i := FindJobIndex(old(jobs), jobId);
              if FindDlqIndex(old(dlq), jobId) < 0 || i < 0 then r.None? && jobs == old(jobs) && dlq == old(dlq)
              else jobs == old(jobs)[i := Redriven(old(jobs)[i], requestId, now)]
                   && dlq == RemoveDlq(old(dlq), jobId) && r == Some(jobs[i])
    {
      if FindDlqIndex(dlq, jobId) < 0 {
        return None;
      }
      var index := FindJobIndex(jobs, jobId);
      if index < 0 {
        return None;
      }
      jobs := jobs[index := Redriven(jobs[index], requestId, now)];
      dlq := RemoveDlq(dlq, jobId);
      r := Some(jobs[index]);
    }

    /** `refreshVideoJobStatus`: only a running job with an operation name asks
        the provider; its answer completes the job or keeps it running, and a
        provider error marks it failed. */
    method RefreshStatus(jobId: string, probe: Probe, now: int) returns (r: Option<Job>)
      modifies this
      ensures dlq == old(dlq)
      ensures var i := FindJobIndex(old(jobs), jobId);
              if i < 0 then r.None? && jobs == old(jobs)
              else if old(jobs)[i].status != Running || OrElse(old(jobs)[i].operationName, None).None?
              then r == Some(old(jobs)[i]) && jobs == old(jobs)
              else match probe
                case Answered(op, done) =>
                  jobs == old(jobs)[i := Refreshed(old(jobs)[i].(updatedAt := now), op, done, now)]
                  && r == Some(jobs[i])
                case Threw(message) =>
                  jobs == old(jobs)[i := MarkedFailed(old(jobs)[i].(updatedAt := now), message, now)]
                  && r == Some(jobs[i])
    {
      var current := FindJob(jobs, jobId);
      if current.None? {
        return None;
      }
      if current.value.status != Running || OrElse(current.value.operationName, None).None? {
        return current;
      }
      match probe {
        case Answered(op, done) =>
          r := UpdateJob(jobId, job => Refreshed(job, op, done, now), now);
        case Threw(message) =>
          r := MarkFailed(jobId, message, now);
      }
    }

    /** `getVideoAsyncMetricsSnapshot`. */
    function MetricsAt(now: int): (m: MetricsSnapshot)
      reads this
      ensures m.queueDepth + m.runningJobs + m.completedJobs + m.failedJobs == |jobs|
      ensures m.oldestQueuedAgeMs.Some? <==> m.queueDepth > 0
      ensures m.throughputLast5m <= m.completedJobs && m.dlqSize == |dlq|
    {
      SnapshotConsistent(jobs, dlq, now);
      Snapshot(jobs, dlq, now)
    }
  }

  // Properties of the table and its state machine.

  /** With unique ids, the job `ClaimNextJob` finds by id is the first eligible one. */
  lemma ClaimNextClaimsFirstEligible(jobs: seq<Job>, now: int)
    requires UniqueIds(jobs) && FirstEligible(jobs, now) < |jobs|
    ensures FindJobIndex(jobs, jobs[FirstEligible(jobs, now)].id) == FirstEligible(jobs, now)
  {
  }

  /** Creating a job keeps ids unique when the new id is not already taken,
      which is what the existing-id check and a fresh UUID give. */
  lemma CreateKeepsIdsUnique(jobs: seq<Job>, job: Job)
    requires UniqueIds(jobs) && FindJobIndex(jobs, job.id) < 0
    ensures UniqueIds(jobs + [job])
  {
  }

  /** A claimed job is running and can not be claimed again. */
  lemma ClaimedIsNotEligible(job: Job, now: int, later: int)
    ensures !Eligible(Claimed(job, now), later)
    ensures Claimed(job, now).attempts == job.attempts + 1
    ensures Claimed(job, now).startedAt.Some?
  {
  }

  /** A retried job waits: it becomes claimable exactly when `now + waitMs` is reached. */
  lemma RetryWaits(job: Job, message: string, waitMs: int, now: int, t: int)
    ensures Eligible(RetryScheduled(job, message, waitMs, now), t) <==> t >= now + waitMs
  {
  }

  /** A redriven job is claimable at once and its retries no longer count. */
  lemma RedrivenIsFresh(job: Job, requestId: string, now: int)
    ensures Eligible(Redriven(job, requestId, now), now)
    ensures RetriesTotal([Redriven(job, requestId, now)]) == 0
  {
  }

  /** Finished jobs are never claimable. */
  lemma FinishedIsNotEligible(job: Job, message: string, result: Option<string>,
                              operation: Option<string>, now: int, t: int)
    ensures !Eligible(MarkedFailed(job, message, now), t)
    ensures !Eligible(MarkedCompleted(job, result, operation, now), t)
    ensures !Eligible(DeadLettered(job, message, now), t)
  {
  }

  /** Upserting an entry keeps at most one entry per job, leaves exactly one
      entry for the entry's job (the new one), and adds at most one entry. */
  lemma UpsertKeepsOnePerJob(dlq: seq<DlqEntry>, entry: DlqEntry)
    requires AtMostOneEntryPerJob(dlq)
    ensures var d := UpsertDlq(dlq, entry);
            AtMostOneEntryPerJob(d) && entry in d
            && (forall e :: e in d && e.jobId == entry.jobId ==> e == entry)
            && |d| == |dlq| + (if FindDlqIndex(dlq, entry.jobId) < 0 then 1 else 0)
  {
    var i := FindDlqIndex(dlq, entry.jobId);
    var d := UpsertDlq(dlq, entry);
    if i >= 0 {
      assert d[i] == entry;
      forall e | e in d && e.jobId == entry.jobId ensures e == entry {
        var k :| 0 <= k < |d| && d[k] == e;
        assert k == i;
      }
    } else {
      assert d[|dlq|] == entry;
    }
  }

  /** Removing a job's entries drops all of them and keeps every other entry, in order. */
  lemma {:induction false} RemoveDropsOnlyThatJob(dlq: seq<DlqEntry>, jobId: string)
    ensures var d := RemoveDlq(dlq, jobId);
            (forall e :: e in d ==> e.jobId != jobId)
            && (forall e :: e in dlq && e.jobId != jobId ==> e in d)
            && |d| <= |dlq|
            && (FindDlqIndex(dlq, jobId) >= 0 ==> |d| < |dlq|)
  {
    if dlq != [] {
      RemoveDropsOnlyThatJob(dlq[1..], jobId);
      assert forall e :: e in dlq ==> e == dlq[0] || e in dlq[1..];
    }
  }

  /** Removing entries keeps at most one entry per job. */
  lemma {:induction false} RemoveKeepsOnePerJob(dlq: seq<DlqEntry>, jobId: string)
    requires AtMostOneEntryPerJob(dlq)
    ensures AtMostOneEntryPerJob(RemoveDlq(dlq, jobId))
  {
    if dlq != [] {
      RemoveKeepsOnePerJob(dlq[1..], jobId);
      RemoveDropsOnlyThatJob(dlq[1..], jobId);
      var rest := RemoveDlq(dlq[1..], jobId);
      if dlq[0].jobId != jobId {
        forall e | e in rest ensures e.jobId != dlq[0].jobId {
          var k :| 0 <= k < |dlq[1..]| && dlq[1..][k] == e by {
            RemoveSubset(dlq[1..], jobId, e);
          }
          assert dlq[k + 1] == e;
        }
      }
    }
  }

  lemma {:induction false} RemoveSubset(dlq: seq<DlqEntry>, jobId: string, e: DlqEntry)
    requires e in RemoveDlq(dlq, jobId)
    ensures e in dlq
  {
    if dlq != [] && e != dlq[0] {
      RemoveSubset(dlq[1..], jobId, e);
    }
  }

  /** Every job is in exactly one state: the four status counts add up to the table size. */
  lemma {:induction false} StatusCountsSum(jobs: seq<Job>)
    ensures CountStatus(jobs, Queued) + CountStatus(jobs, Running)
            + CountStatus(jobs, Completed) + CountStatus(jobs, Failed) == |jobs|
  {
    if jobs != [] {
      StatusCountsSum(jobs[1..]);
    }
  }

  /** The oldest-queued time is the smallest `createdAt` of a queued job, and
      there is one exactly when some job is queued. */
  lemma {:induction false} OldestQueuedIsMinimum(jobs: seq<Job>)
    ensures OldestQueued(jobs).Some? <==> CountStatus(jobs, Queued) > 0
    ensures OldestQueued(jobs).Some? ==>
              exists k :: 0 <= k < |jobs| && jobs[k].status == Queued
                          && jobs[k].createdAt == OldestQueued(jobs).value
    ensures forall k :: 0 <= k < |jobs| && jobs[k].status == Queued
              ==> OldestQueued(jobs).Some? && OldestQueued(jobs).value <= jobs[k].createdAt
  {
    if jobs != [] {
      OldestQueuedIsMinimum(jobs[1..]);
      var rest := OldestQueued(jobs[1..]);
      if rest.Some? {
        var k :| 0 <= k < |jobs[1..]| && jobs[1..][k].status == Queued && jobs[1..][k].createdAt == rest.value;
        assert jobs[k + 1] == jobs[1..][k];
      }
      var m := OldestQueued(jobs);
      forall k | 0 <= k < |jobs| && jobs[k].status == Queued
        ensures m.Some? && m.value <= jobs[k].createdAt
      {
        if k > 0 {
          assert jobs[1..][k - 1] == jobs[k];
          assert rest.Some? && rest.value <= jobs[k].createdAt;
          assert m.Some? && m.value <= rest.value;
        }
      }
    }
  }

  /** A snapshot counts every job in one status, never reports a negative
      queue age, and its DLQ size is the DLQ's length. */
  lemma SnapshotConsistent(jobs: seq<Job>, dlq: seq<DlqEntry>, now: int)
    ensures var m := Snapshot(jobs, dlq, now);
            m.queueDepth + m.runningJobs + m.completedJobs + m.failedJobs == |jobs|
            && (m.oldestQueuedAgeMs.Some? <==> m.queueDepth > 0)
            && (m.oldestQueuedAgeMs.Some? ==> m.oldestQueuedAgeMs.value >= 0)
            && m.throughputLast5m <= m.completedJobs
            && m.dlqSize == |dlq|
  {
    StatusCountsSum(jobs);
    OldestQueuedIsMinimum(jobs);
    ThroughputBounded(jobs, now - ThroughputWindowMs);
  }

  lemma {:induction false} ThroughputBounded(jobs: seq<Job>, since: int)
    ensures CompletedSince(jobs, since) <= CountStatus(jobs, Completed)
  {
    if jobs != [] {
      ThroughputBounded(jobs[1..], since);
    }
  }

  /** Rewriting one job changes the retry total by that job's own change. */
  lemma {:induction false} RetriesAfterUpdate(jobs: seq<Job>, i: nat, job: Job)
    requires i < |jobs|
    ensures RetriesTotal(jobs[i := job])
            == RetriesTotal(jobs) - Max0(jobs[i].attempts - 1) + Max0(job.attempts - 1)
  {
    if i > 0 {
      RetriesAfterUpdate(jobs[1..], i - 1, job);
      assert jobs[i := job][1..] == jobs[1..][i - 1 := job];
    } else {
      assert jobs[i := job][1..] == jobs[1..];
    }
  }

  /** Claiming a job that already ran once adds one to the retry total; a
      first claim adds nothing. */
  lemma ClaimCountsRetry(jobs: seq<Job>, i: nat, now: int)
    requires i < |jobs| && jobs[i].attempts >= 0
    ensures RetriesTotal(jobs[i := Claimed(jobs[i].(updatedAt := now), now)])
            == RetriesTotal(jobs) + (if jobs[i].attempts >= 1 then 1 else 0)
  {
    RetriesAfterUpdate(jobs, i, Claimed(jobs[i].(updatedAt := now), now));
  }
}
