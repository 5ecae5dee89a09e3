/**
 * The `Task` model of workers/models.py: the record of one unit of deferred work, its constants,
 * and the two operations that add records to the task table: `create_repeated` (the next
 * occurrence of a repeating task, catching up by skipping missed slots) and
 * `create_scheduled_task` (a one-shot delayed task, at most one pending per handler and delay).
 *
 * The task table is a sequence of records, timestamps are integer seconds, and the current time
 * is the parameter `now`. Both operations are pure functions from a table to the table after the
 * call, paired with what the call did (the source only logs that).
 */
module Models {
  import opened Wrappers
  import opened Json
  import Render
  import Util

  datatype Status = Waiting | Completed | Failed

  /** The literal stored in the `status` column (max_length 10). */
  function StatusText(s: Status): (r: string)
    ensures |r| <= 10
    ensures StatusFromText(r) == Some(s)
  {
    match s
    case Waiting => "waiting"
    case Completed => "completed"
    case Failed => "failed"
  }

  function StatusFromText(t: string): Option<Status> {
    if t == "waiting" then Some(Waiting)
    else if t == "completed" then Some(Completed)
    else if t == "failed" then Some(Failed)
    else None
  }

  /** Repeat periods in seconds; `NEVER` means the task does not repeat. */
  const HOURLY: int := 3600
  const DAILY: int := 24 * HOURLY
  const WEEKLY: int := 7 * DAILY
  const EVERY_2_WEEKS: int := 2 * WEEKLY
  const EVERY_4_WEEKS: int := 4 * WEEKLY
  const NEVER: int := 0

  /** One row of the task table. `args`/`kwargs` hold whatever the text columns hold, as JSON
      values (a row read back from the database holds `Str` of the stored text). */
  datatype Task = Task(
    handler: string,
    args: Json,
    kwargs: Json,
    taskHash: string,
    error: string,
    schedule: Option<int>,
    repeat: int,
    runAt: int,
    createdAt: int,
    completedAt: Option<int>,
    status: Status)

  /** Still to run: `completed_at` is NULL. This is the `completed_at=None` filter of both
      duplicate checks. */
  predicate Pending(t: Task) {
    t.completedAt.None?
  }

  /** The lifecycle rule of a record: it has a completion time exactly when it has left WAITING,
      and a waiting record carries no error. */
  predicate Lifecycle(t: Task) {
    (t.completedAt.Some? <==> t.status != Waiting) && (t.status == Waiting ==> t.error == "")
  }

  predicate AllLifecycle(store: seq<Task>) {
    forall i :: 0 <= i < |store| ==> Lifecycle(store[i])
  }

  /** `Task.get_hash`, the static-method copy of workers/util.py `get_hash`. */
  function GetHash(digest: Util.Digester, taskName: string, args: Json, kwargs: Json): (r: string)
    ensures r == Util.GetHash(digest, taskName, args, kwargs)
    ensures |r| == 40
  {
    var args := if Falsy(args) then Arr([]) else args;
    var kwargs := if Falsy(kwargs) then Obj([]) else kwargs;
    var params := Render.Serialize(Arr([args, kwargs]));
    digest(taskName + params)
  }

  // ---------------------------------------------------------------------------------------------
  // Catch-up arithmetic of `create_repeated`

  /** `s` is where the catch-up loop stops: a slot `run_at + k * repeat` with `k >= 1`, not before
      `now`, and either the first slot or one whose predecessor is before `now`. */
  predicate IsCatchUpSlot(runAt: int, repeat: int, now: int, s: int)
    requires repeat > NEVER
  {
    && s >= now
    && s >= runAt + repeat
    && (s - runAt) % repeat == 0
    && (s == runAt + repeat || s - repeat < now)
  }

  /** The slot the loop stops at, computed in closed form. */
  function NextSlot(runAt: int, repeat: int, now: int): (s: int)
    requires repeat > NEVER
    ensures IsCatchUpSlot(runAt, repeat, now, s)
  {
    var d := now - runAt;
    if d <= repeat then
      MultipleMod(1, repeat);
      runAt + repeat
    else
      var k := (d + repeat - 1) / repeat;
      CeilingDivision(d, repeat);
      MultipleMod(k, repeat);
      runAt + k * repeat
  }

  lemma MultipleMod(q: int, p: int)
    requires p > 0
    ensures (q * p) % p == 0
  {
    var x := q * p;
    var m := q - x / p;
    assert x == (x / p) * p + x % p;
    Distributes(q, x / p, p);
    assert m * p == x % p;
    ProductBelowFactor(m, p);
  }

  /** Kept as a lemma, not an inline assert, so that each caller's nonlinear step stays a small,
      separate proof obligation. */
  lemma Distributes(a: int, b: int, p: int)
    ensures (a - b) * p == a * p - b * p
  {
  }

  /** A multiple of `p` in `[0, p)` is zero. */
  lemma ProductBelowFactor(m: int, p: int)
    requires p > 0 && 0 <= m * p < p
    ensures m == 0
  {
    if m >= 1 {
      AtLeastOneFactor(m, p);
    } else if m <= -1 {
      AtLeastOneFactor(-m, p);
    }
  }

  lemma AtLeastOneFactor(m: int, p: int)
    requires m >= 1 && p > 0
    ensures m * p >= p
  {
    assert m * p == (m - 1) * p + p;
    assert (m - 1) * p >= 0;
  }

  lemma CeilingDivision(d: int, p: int)
    requires p > 0 && d > p
    ensures var k := (d + p - 1) / p; k >= 1 && k * p >= d && k * p - p < d
  {
  }

  /** Two multiples of `p` that differ are at least `p` apart. */
  lemma MultiplesApart(x: int, y: int, p: int)
    requires p > 0 && x % p == 0 && y % p == 0 && x < y
    ensures y - x >= p
  {
    var qx, qy := x / p, y / p;
    assert x == qx * p + x % p && y == qy * p + y % p;
    Distributes(qy, qx, p);
    assert (qy - qx) * p == y - x;
    if qy - qx <= 0 {
      AtLeastOneFactor(qx - qy + 1, p);
      Distributes(qx + 1, qy, p);
      assert false;
    }
    AtLeastOneFactor(qy - qx, p);
  }

  /** The catch-up slot is unique. */
  lemma {:induction false} CatchUpSlotUnique(runAt: int, repeat: int, now: int, s: int, t: int)
    requires repeat > NEVER
    requires IsCatchUpSlot(runAt, repeat, now, s) && IsCatchUpSlot(runAt, repeat, now, t)
    ensures s == t
  {
    if s < t {
      MultiplesApart(s - runAt, t - runAt, repeat);
    } else if t < s {
      MultiplesApart(t - runAt, s - runAt, repeat);
    }
  }

  /** The catch-up slot is `run_at + k * repeat` for some `k >= 1`, and it is the least such slot
      that is not before `now`: the missed slots in between are skipped, not filled in. */
  lemma NextSlotIsLeast(runAt: int, repeat: int, now: int, k: int)
    requires repeat > NEVER
    requires k >= 1 && runAt + k * repeat >= now
    ensures var s := NextSlot(runAt, repeat, now);
      && s == runAt + ((s - runAt) / repeat) * repeat
      && (s - runAt) / repeat >= 1
      && s <= runAt + k * repeat
  {
    var s := NextSlot(runAt, repeat, now);
    var j := (s - runAt) / repeat;
    assert s - runAt == j * repeat + (s - runAt) % repeat;
    assert s - runAt == j * repeat;
    if j < 1 {
      AtLeastOneFactor(1 - j, repeat);
      Distributes(1, j, repeat);
      assert false;
    }
    if k < j {
      AtLeastOneFactor(j - k, repeat);
      Distributes(j, k, repeat);
    }
  }

  /** The loop of `create_repeated`: start one period after `run_at` and keep adding the period
      while the slot is strictly before `now`. */
  method CatchUp(runAt: int, repeat: int, now: int) returns (scheduled: int)
    requires repeat > NEVER
    ensures IsCatchUpSlot(runAt, repeat, now, scheduled)
    ensures scheduled == NextSlot(runAt, repeat, now)
  {
    scheduled := runAt + repeat;
    MultipleMod(1, repeat);
    while scheduled < now
      invariant scheduled >= runAt + repeat
      invariant (scheduled - runAt) % repeat == 0
      invariant scheduled == runAt + repeat || scheduled - repeat < now
      decreases now - scheduled
    {
      AddPeriodMod(scheduled - runAt, repeat);
      scheduled := scheduled + repeat;
    }
    CatchUpSlotUnique(runAt, repeat, now, scheduled, NextSlot(runAt, repeat, now));
  }

  lemma AddPeriodMod(x: int, p: int)
    requires p > 0 && x % p == 0
    ensures (x + p) % p == 0
  {
    MultipleMod(x / p + 1, p);
    assert x == (x / p) * p;
    assert x + p == (x / p + 1) * p;
  }

  // ---------------------------------------------------------------------------------------------
  // The two operations over the task table

  /** What a call did: nothing to repeat, declined as a duplicate (the source logs a warning), or
      created the given record. */
  datatype Outcome = NotRepeated | Duplicate | Created(task: Task)

  /** The table after a call and what the call did. */
  datatype Step = Step(store: seq<Task>, outcome: Outcome)

  /** The filter `task_hash=hash, run_at=runAt, completed_at=None` matches `t`. */
  predicate PendingOccurrence(t: Task, hash: string, runAt: int) {
    t.taskHash == hash && t.runAt == runAt && Pending(t)
  }

  /** `Task.objects.filter(task_hash=hash, run_at=runAt, completed_at=None).exists()`. */
  predicate HasPendingOccurrence(store: seq<Task>, hash: string, runAt: int) {
    exists i :: 0 <= i < |store| && PendingOccurrence(store[i], hash, runAt)
  }

  /** The hash the next occurrence is stored with: `self.task_hash or self.get_hash(...)`. */
  function OccurrenceHash(digest: Util.Digester, t: Task): string {
    if t.taskHash != "" then t.taskHash else GetHash(digest, t.handler, t.args, t.kwargs)
  }

  /** `n` is the record `create_repeated` inserts for `t` at time `now`: same handler, payload and
      period, the occurrence hash, the catch-up slot as `run_at`, waiting, not completed, no
      schedule, no error, created now. */
  predicate IsNextOccurrence(n: Task, t: Task, digest: Util.Digester, now: int)
    requires t.repeat > NEVER
  {
    && n.handler == t.handler && n.args == t.args && n.kwargs == t.kwargs && n.repeat == t.repeat
    && n.taskHash == OccurrenceHash(digest, t)
    && IsCatchUpSlot(t.runAt, t.repeat, now, n.runAt)
    && n.status == Waiting && n.completedAt == None && n.error == ""
    && n.schedule == None && n.createdAt == now
  }

  /** workers/models.py `Task.create_repeated`, as written: the duplicate check looks for
      `self.task_hash`, not for the hash the new record is stored with. */
  function CreateRepeated(digest: Util.Digester, store: seq<Task>, t: Task, now: int): (r: Step)
    ensures t.repeat <= NEVER ==> r == Step(store, NotRepeated)
    ensures t.repeat > NEVER ==>
      (r.outcome.Duplicate? <==> HasPendingOccurrence(store, t.taskHash, NextSlot(t.runAt, t.repeat, now)))
    ensures t.repeat > NEVER ==> !r.outcome.NotRepeated?
    ensures !r.outcome.Created? ==> r.store == store
    ensures r.outcome.Created? ==>
      t.repeat > NEVER && r.store == store + [r.outcome.task] && IsNextOccurrence(r.outcome.task, t, digest, now)
  {
    if t.repeat <= NEVER then Step(store, NotRepeated)
    else
      var scheduled := NextSlot(t.runAt, t.repeat, now);
      var hash := OccurrenceHash(digest, t);
      if HasPendingOccurrence(store, t.taskHash, scheduled) then Step(store, Duplicate)
      else
        var n := Task(t.handler, t.args, t.kwargs, hash, "", None, t.repeat, scheduled, now, None, Waiting);
        Step(store + [n], Created(n))
  }

  /** `create_repeated` with the duplicate check on the hash the new record is stored with. */
  function CreateRepeatedCorrected(digest: Util.Digester, store: seq<Task>, t: Task, now: int): (r: Step)
    ensures t.repeat <= NEVER ==> r == Step(store, NotRepeated)
    ensures t.repeat > NEVER ==>
      (r.outcome.Duplicate? <==> HasPendingOccurrence(store, OccurrenceHash(digest, t), NextSlot(t.runAt, t.repeat, now)))
    ensures t.repeat > NEVER ==> !r.outcome.NotRepeated?
    ensures !r.outcome.Created? ==> r.store == store
    ensures r.outcome.Created? ==>
      t.repeat > NEVER && r.store == store + [r.outcome.task] && IsNextOccurrence(r.outcome.task, t, digest, now)
  {
    if t.repeat <= NEVER then Step(store, NotRepeated)
    else
      var scheduled := NextSlot(t.runAt, t.repeat, now);
      var hash := OccurrenceHash(digest, t);
      if HasPendingOccurrence(store, hash, scheduled) then Step(store, Duplicate)
      else
        var n := Task(t.handler, t.args, t.kwargs, hash, "", None, t.repeat, scheduled, now, None, Waiting);
        Step(store + [n], Created(n))
  }

  /** With a stored hash, a second call at the same instant finds the record the first call made
      and changes nothing. */
  lemma CreateRepeatedIdempotent(digest: Util.Digester, store: seq<Task>, t: Task, now: int)
    requires t.taskHash != ""
    ensures var first := CreateRepeated(digest, store, t, now);
      var second := CreateRepeated(digest, first.store, t, now);
      second.store == first.store && !second.outcome.Created?
  {
    var first := CreateRepeated(digest, store, t, now);
    if first.outcome.Created? {
      assert PendingOccurrence(first.store[|store|], t.taskHash, NextSlot(t.runAt, t.repeat, now));
    }
  }

  /** The corrected operation is idempotent for every task, hashed or not. */
  lemma CreateRepeatedCorrectedIdempotent(digest: Util.Digester, store: seq<Task>, t: Task, now: int)
    ensures var first := CreateRepeatedCorrected(digest, store, t, now);
      var second := CreateRepeatedCorrected(digest, first.store, t, now);
      second.store == first.store && !second.outcome.Created?
  {
    var first := CreateRepeatedCorrected(digest, store, t, now);
    if first.outcome.Created? {
      assert PendingOccurrence(first.store[|store|], OccurrenceHash(digest, t), NextSlot(t.runAt, t.repeat, now));
    }
  }

  /** At most one pending record per (hash, run_at) among records that carry a hash: the guarantee
      the duplicate check of `create_repeated` is there to keep. One-shot records keep the column
      default `''`, so they are not occurrences and may share a due time. */
  predicate UniquePendingOccurrences(store: seq<Task>) {
    forall i, j :: 0 <= i < j < |store| && Pending(store[i]) && Pending(store[j]) && store[i].taskHash != "" ==>
      store[i].taskHash != store[j].taskHash || store[i].runAt != store[j].runAt
  }

  /** For a task with a stored hash, `create_repeated` keeps (hash, run_at) unique among pending
      records. */
  lemma CreateRepeatedKeepsOccurrencesUnique(digest: Util.Digester, store: seq<Task>, t: Task, now: int)
    requires UniquePendingOccurrences(store)
    requires t.taskHash != ""
    ensures UniquePendingOccurrences(CreateRepeated(digest, store, t, now).store)
  {
  }

  /** The corrected operation keeps (hash, run_at) unique among pending records for every task. */
  lemma CreateRepeatedCorrectedKeepsOccurrencesUnique(digest: Util.Digester, store: seq<Task>, t: Task, now: int)
    requires UniquePendingOccurrences(store)
    ensures UniquePendingOccurrences(CreateRepeatedCorrected(digest, store, t, now).store)
  {
  }

  /** A repeating task with no stored hash (`task_hash == ''`): the first call stores the next
      occurrence under the recomputed hash, the second call looks for `''`, misses it, and stores
      the same occurrence again. */
  lemma EmptyHashSchedulesTwice(digest: Util.Digester)
    ensures var t := Task("cleanup", Null, Null, "", "", None, HOURLY, 0, 0, None, Waiting);
      var first := CreateRepeated(digest, [], t, 0);
      var second := CreateRepeated(digest, first.store, t, 0);
      && first.outcome.Created? && second.outcome.Created?
      && |second.store| == 2
      && second.store[0] == second.store[1]
      && !UniquePendingOccurrences(second.store)
  {
    var t := Task("cleanup", Null, Null, "", "", None, HOURLY, 0, 0, None, Waiting);
    var first := CreateRepeated(digest, [], t, 0);
    assert first.store[0].taskHash != "";
    var second := CreateRepeated(digest, first.store, t, 0);
    assert !HasPendingOccurrence(first.store, "", NextSlot(0, HOURLY, 0));
    CatchUpSlotUnique(0, HOURLY, 0, second.store[0].runAt, second.store[1].runAt);
  }

  /** A daily task whose `run_at` is exactly ten days back gets one new record, for exactly `now`:
      the slot may equal the current time, since the loop only skips slots strictly before it. */
  lemma DailyTenDaysLate(digest: Util.Digester, now: int)
    ensures var t := Task("report", Null, Null, "abc", "", None, DAILY, now - 10 * DAILY, 0, None, Waiting);
      var r := CreateRepeated(digest, [], t, now);
      r.outcome.Created? && |r.store| == 1 && r.store[0].runAt == now
  {
    var t := Task("report", Null, Null, "abc", "", None, DAILY, now - 10 * DAILY, 0, None, Waiting);
    CatchUpSlotUnique(t.runAt, DAILY, now, NextSlot(t.runAt, DAILY, now), now);
  }

  /** The filter `handler=handler, schedule=schedule, completed_at=None` matches `t`. */
  predicate PendingSchedule(t: Task, handler: string, schedule: int) {
    t.handler == handler && t.schedule == Some(schedule) && Pending(t)
  }

  predicate HasPendingSchedule(store: seq<Task>, handler: string, schedule: int) {
    exists i :: 0 <= i < |store| && PendingSchedule(store[i], handler, schedule)
  }

  /** `n` is the record `create_scheduled_task(handler, schedule)` inserts at time `now`: empty
      payload, the delay as `schedule`, due `schedule` seconds from now, never repeating, waiting,
      and with the column defaults for everything else (an empty hash, no error). */
  predicate IsScheduledTask(n: Task, handler: string, schedule: int, now: int) {
    && n.handler == handler && n.args == Obj([]) && n.kwargs == Obj([])
    && n.schedule == Some(schedule) && n.runAt == now + schedule && n.repeat == NEVER
    && n.status == Waiting && n.completedAt == None && n.taskHash == "" && n.error == ""
    && n.createdAt == now
  }

  /** workers/models.py `Task.create_scheduled_task`. */
  function CreateScheduledTask(store: seq<Task>, handler: string, schedule: int, now: int): (r: Step)
    ensures r.outcome.Duplicate? <==> HasPendingSchedule(store, handler, schedule)
    ensures !r.outcome.NotRepeated?
    ensures !r.outcome.Created? ==> r.store == store
    ensures r.outcome.Created? ==>
      r.store == store + [r.outcome.task] && IsScheduledTask(r.outcome.task, handler, schedule, now)
  {
    if HasPendingSchedule(store, handler, schedule) then Step(store, Duplicate)
    else
      var n := Task(handler, Obj([]), Obj([]), "", "", Some(schedule), NEVER, now + schedule, now, None, Waiting);
      Step(store + [n], Created(n))
  }

  /** Two consecutive calls with the same handler and delay insert at most one record. */
  lemma CreateScheduledTaskIdempotent(store: seq<Task>, handler: string, schedule: int, now: int, later: int)
    ensures var first := CreateScheduledTask(store, handler, schedule, now);
      var second := CreateScheduledTask(first.store, handler, schedule, later);
      second.store == first.store && !second.outcome.Created? && |second.store| <= |store| + 1
  {
    var first := CreateScheduledTask(store, handler, schedule, now);
    if first.outcome.Created? {
      assert PendingSchedule(first.store[|store|], handler, schedule);
    }
  }

  /** At most one pending record per (handler, schedule): the guarantee of the one-shot check. */
  predicate UniquePendingSchedules(store: seq<Task>) {
    forall i, j :: 0 <= i < j < |store| && Pending(store[i]) && Pending(store[j]) && store[i].schedule.Some? ==>
      store[i].handler != store[j].handler || store[i].schedule != store[j].schedule
  }

  lemma CreateScheduledTaskKeepsSchedulesUnique(store: seq<Task>, handler: string, schedule: int, now: int)
    requires UniquePendingSchedules(store)
    ensures UniquePendingSchedules(CreateScheduledTask(store, handler, schedule, now).store)
  {
    var r := CreateScheduledTask(store, handler, schedule, now);
    if r.outcome.Created? {
      forall i | 0 <= i < |store| && Pending(store[i]) && store[i].schedule.Some?
        ensures store[i].handler != handler || store[i].schedule != Some(schedule)
      {
        assert !PendingSchedule(store[i], handler, schedule);
      }
    }
  }

  /** A one-shot record keeps the empty default hash, so it is not an occurrence: it neither adds
      nor removes a pending (hash, run_at) match for any stored hash, and occurrence uniqueness
      survives it. */
  lemma CreateScheduledTaskKeepsOccurrencesUnique(store: seq<Task>, handler: string, schedule: int, now: int)
    requires UniquePendingOccurrences(store)
    ensures UniquePendingOccurrences(CreateScheduledTask(store, handler, schedule, now).store)
    ensures forall h, ra :: h != "" ==>
      (HasPendingOccurrence(CreateScheduledTask(store, handler, schedule, now).store, h, ra) <==> HasPendingOccurrence(store, h, ra))
  {
    var r := CreateScheduledTask(store, handler, schedule, now);
    forall h, ra | h != ""
      ensures HasPendingOccurrence(r.store, h, ra) <==> HasPendingOccurrence(store, h, ra)
    {
      if HasPendingOccurrence(r.store, h, ra) {
        var i :| 0 <= i < |r.store| && PendingOccurrence(r.store[i], h, ra);
        assert i < |store|;
      }
      if HasPendingOccurrence(store, h, ra) {
        var i :| 0 <= i < |store| && PendingOccurrence(store[i], h, ra);
        assert PendingOccurrence(r.store[i], h, ra);
      }
    }
  }

  /** Occurrences of repeating tasks carry no schedule, so they never block a one-shot task. */
  lemma CreateRepeatedKeepsSchedulesUnique(digest: Util.Digester, store: seq<Task>, t: Task, now: int)
    requires UniquePendingSchedules(store)
    ensures UniquePendingSchedules(CreateRepeated(digest, store, t, now).store)
    ensures forall h, s :: HasPendingSchedule(CreateRepeated(digest, store, t, now).store, h, s) <==> HasPendingSchedule(store, h, s)
  {
    var r := CreateRepeated(digest, store, t, now);
    forall h, s
      ensures HasPendingSchedule(r.store, h, s) <==> HasPendingSchedule(store, h, s)
    {
      if HasPendingSchedule(r.store, h, s) {
        var i :| 0 <= i < |r.store| && PendingSchedule(r.store[i], h, s);
        assert i < |store|;
      }
      if HasPendingSchedule(store, h, s) {
        var i :| 0 <= i < |store| && PendingSchedule(store[i], h, s);
        assert PendingSchedule(r.store[i], h, s);
      }
    }
  }

  /** Both operations add only waiting, uncompleted, error-free records, so a table whose records
      all follow the lifecycle rule still does afterwards. */
  lemma OperationsKeepLifecycle(digest: Util.Digester, store: seq<Task>, t: Task, handler: string, schedule: int, now: int)
    requires AllLifecycle(store)
    ensures AllLifecycle(CreateRepeated(digest, store, t, now).store)
    ensures AllLifecycle(CreateScheduledTask(store, handler, schedule, now).store)
  {
  }
}
