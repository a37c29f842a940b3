/*
 * The import jobs (Lcl.EventLog/Jobs/Database/EventImportJob.cs for the V1
 * database, EventImportJob2.cs for the V2 database) and the batch import
 * RawEventDb.PutEvents built on the first.
 *
 * A job holds a transaction open on its database. The model keeps the two
 * views of the store that this creates: what the database holds for everyone
 * else (`committed`, `durable`) and what the job's transaction sees
 * (`pending`, `view`). Writes go to the transaction's view; Commit makes it
 * the durable state; Dispose without Commit rolls the view back.
 */
module ImportJobs {
  import opened Common
  import opened Rows
  import opened KeyedMaps
  import opened TimeUtil
  import opened RawEventDb
  import opened OpenDbV2
  import opened InfoCaches
  import opened Trackers
  import opened Insertion

  // ------------------------------------------------------------ V1: EventImportJob

  /** The time stamp a V1 ProcessEvent overload receives: epoch ticks, or a DateTime that PutEvent converts. */
  datatype Stamp = Ticks(ticks: int) | At(utc: DateTime, localToUtc: int -> int)

  /** The epoch ticks of a stamp; a DateTime of unspecified kind has none. */
  function StampTicks(stamp: Stamp): Result<int>
  {
    match stamp
    case Ticks(ts) => Ok(ts)
    case At(utc, localToUtc) => TicksSinceEpoch(utc, localToUtc)
  }

  /** The PutEvent overload a stamp selects. */
  function PutStamped(t: Tables, rid: int, eid: int, task: int, stamp: Stamp, ver: int, xml: string,
                      conflict: ConflictMode): Result<(Tables, int)>
  {
    match stamp
    case Ticks(ts) => PutEvent(t, rid, eid, task, ts, ver, xml, conflict)
    case At(utc, localToUtc) => PutEventAt(t, rid, eid, task, utc, localToUtc, ver, xml, conflict)
  }

  /**
   * The filter an event meets once ObserveEvent has run for it: a known event
   * keeps its state row, an unknown one has just been given the default row.
   */
  predicate AdmittedAfterObserving(found: Option<EventStateRow>, version: int)
  {
    if found.None? then version >= 0 else Admits(found, version)
  }

  /** The task description a V1 import records: a lookup that throws counts as null. */
  function RecordedDescription(d: DisplayName): (r: Option<string>)
    ensures d.Throws? ==> r.None?
    ensures d.Shown? ==> r == d.name
    ensures d.Shown? ==> r == ExtractDescription(d)
  {
    match d
    case Shown(name) => name
    case Throws => None
  }

  /**
   * What one V1 ProcessEvent answers and leaves in the transaction, the
   * event having passed (`admitted`) or failed the filter: "rows affected
   * > 0", and the tables after PutEvent.
   */
  function ProcessOutcome(admitted: bool, t: Tables, rid: int, eid: int, task: int, stamp: Stamp, ver: int,
                          xml: string, conflict: ConflictMode): (o: (Result<bool>, Tables))
    ensures !admitted ==> o == (Ok(false), t)
    ensures o.0 != Ok(true) ==> o.1 == t
    ensures o.0 == Ok(true) ==> admitted && (rid !in t.events || conflict.Replace?)
    ensures o.0.Err? ==> admitted && o.0.error in {ArgumentException, InvalidOperation, ConstraintViolation}
    ensures o.0 == Ok(true) ==> StampTicks(stamp).Ok?
                                && o.1 == t.(events := t.events[rid := StoredEvent(eid, task, StampTicks(stamp).value, ver, xml)])
    ensures admitted && StampTicks(stamp).Ok? && !conflict.Undefined? && (rid !in t.events || conflict.Replace?)
            ==> o.0 == Ok(true)
    ensures admitted && StampTicks(stamp).Ok? && rid in t.events && conflict.Ignore? ==> o.0 == Ok(false)
    ensures admitted && StampTicks(stamp).Ok? && rid in t.events && conflict.Default? ==> o.0 == Err(ConstraintViolation)
    ensures admitted && StampTicks(stamp).Err? ==> o.0 == Err(ArgumentException)
    ensures admitted && StampTicks(stamp).Ok? && conflict.Undefined? ==> o.0 == Err(InvalidOperation)
    ensures t.events.Keys <= o.1.events.Keys
  {
    if !admitted then (Ok(false), t)
    else
      var put := PutStamped(t, rid, eid, task, stamp, ver, xml, conflict);
      if put.Err? then (Err(put.error), t)
      else (Ok(put.value.1 > 0), put.value.0)
  }

  /** Commit(true): every updated task and state row written over the transaction's tables. */
  function WithTrackerRows(t: Tables, tasks: map<TaskPair, TaskRow>, states: map<int, EventStateRow>): (r: Tables)
    ensures r.events == t.events
    ensures forall k :: k in tasks ==> k in r.tasks && r.tasks[k] == tasks[k]
    ensures forall k :: k !in tasks ==> (k in r.tasks <==> k in t.tasks) && (k in t.tasks ==> r.tasks[k] == t.tasks[k])
    ensures forall e :: e in states ==> e in r.states && r.states[e] == states[e]
    ensures forall e :: e !in states ==> (e in r.states <==> e in t.states) && (e in t.states ==> r.states[e] == t.states[e])
    ensures TablesValid(t) && KeyConsistent(tasks, TaskPairOf) && KeyConsistent(states, StateKeyOf) ==> TablesValid(r)
  {
    t.(tasks := t.tasks + tasks, states := t.states + states)
  }

  /** What a V1 job has reached: the transaction's tables and the tracker's updated state and task rows. */
  datatype BatchState = BatchState(tables: Tables, states: map<int, EventStateRow>, tasks: map<TaskPair, TaskRow>)

  /** The tracker's indexer over plain maps: the updated row, else the row it was seeded with. */
  function Seeded<K, T>(updated: map<K, T>, seed: map<K, T>, key: K): (r: Option<T>)
    ensures r.Some? <==> key in updated || key in seed
    ensures key in updated ==> r == Some(updated[key])
  {
    if key in updated then Some(updated[key]) else if key in seed then Some(seed[key]) else None
  }

  /**
   * ProcessEvent(EventLogRecord) on a job that has reached `s`, its tracker
   * seeded with `seedStates` and `seedTasks`: the answer and what the job
   * reaches next. A record without RecordId or TimeCreated changes nothing.
   */
  function RecordStep(seedStates: map<int, EventStateRow>, seedTasks: map<TaskPair, TaskRow>, s: BatchState,
                      elr: EventLogRecord, localToUtc: int -> int, conflict: ConflictMode): (r: (Result<bool>, BatchState))
    ensures r.0 != Ok(true) ==> r.1.tables == s.tables
    ensures s.tables.events.Keys <= r.1.tables.events.Keys
    ensures (elr.recordId.None? || elr.timeCreated.None?) ==> r == (Err(ArgumentException), s)
    ensures r.0.Err? ==> r.0.error in {ArgumentException, InvalidOperation, ConstraintViolation}
  {
    if elr.recordId.None? || elr.timeCreated.None? then (Err(ArgumentException), s)
    else
      var eid := elr.id;
      var task := OrZero(elr.task);
      var foundState := Seeded(s.states, seedStates, eid);
      var foundTask := Seeded(s.tasks, seedTasks, (eid, task));
      var o := ProcessOutcome(AdmittedAfterObserving(foundState, OrZero(elr.version)), s.tables,
                              elr.recordId.value, eid, task, At(elr.timeCreated.value, localToUtc),
                              OrZero(elr.version), elr.xml, conflict);
      (o.0, BatchState(o.1, StatesAfter(s.states, foundState, eid),
                       TasksAfter(s.tasks, foundTask, eid, task, RecordedDescription(elr.taskDisplayName))))
  }

  /** One ProcessEvent of a V1 batch: from what the job has reached and a record, the answer and what it reaches next. */
  type BatchStep = (BatchState, EventLogRecord) -> (Result<bool>, BatchState)

  /** RecordStep for a job whose tracker was seeded with `seedStates` and `seedTasks`. */
  function RecordStepOf(seedStates: map<int, EventStateRow>, seedTasks: map<TaskPair, TaskRow>, localToUtc: int -> int,
                        conflict: ConflictMode): BatchStep
  {
    (s: BatchState, elr: EventLogRecord) => RecordStep(seedStates, seedTasks, s, elr, localToUtc, conflict)
  }

  /**
   * The loop of PutEvents over records[i..], from a job that has reached `s`
   * with `n` records imported: the records are processed in order by `step`;
   * one that fails fails the batch, and the batch stops once the count of
   * imported records reaches `cap`. The result is what the job has reached
   * and the count.
   */
  function ImportBatch(step: BatchStep, s: BatchState, n: int, records: seq<EventLogRecord>, i: nat, cap: int)
    : (r: Result<(BatchState, int)>)
    requires i <= |records|
    decreases |records| - i
    ensures r.Ok? ==> n <= r.value.1 <= n + |records| - i
  {
    if i == |records| then Ok((s, n))
    else
      var o := step(s, records[i]);
      if o.0.Err? then Err(o.0.error)
      else if o.0.value && n + 1 >= cap then Ok((o.1, n + 1))
      else ImportBatch(step, o.1, if o.0.value then n + 1 else n, records, i + 1, cap)
  }

  /** A batch of ProcessEvent steps never drops a stored event, and fails only as one of its records does. */
  lemma {:induction false} ImportBatchKeepsEvents(seedStates: map<int, EventStateRow>, seedTasks: map<TaskPair, TaskRow>,
                                                  localToUtc: int -> int, conflict: ConflictMode, s: BatchState, n: int,
                                                  records: seq<EventLogRecord>, i: nat, cap: int)
    requires i <= |records|
    ensures var r := ImportBatch(RecordStepOf(seedStates, seedTasks, localToUtc, conflict), s, n, records, i, cap);
            (r.Ok? ==> s.tables.events.Keys <= r.value.0.tables.events.Keys)
            && (r.Err? ==> r.error in {ArgumentException, InvalidOperation, ConstraintViolation})
    decreases |records| - i
  {
    if i < |records| {
      var o := RecordStep(seedStates, seedTasks, s, records[i], localToUtc, conflict);
      if o.0.Ok? && !(o.0.value && n + 1 >= cap) {
        ImportBatchKeepsEvents(seedStates, seedTasks, localToUtc, conflict, o.1, if o.0.value then n + 1 else n,
                               records, i + 1, cap);
      }
    }
  }

  /** One step of ImportBatch: the record's outcome decides whether the batch fails, stops or goes on. */
  lemma BatchAdvance(step: BatchStep, s: BatchState, n: int, records: seq<EventLogRecord>, i: nat, cap: int,
                     imported: Result<bool>, next: BatchState)
    requires i < |records|
    requires (imported, next) == step(s, records[i])
    ensures imported.Err? ==> ImportBatch(step, s, n, records, i, cap) == Err(imported.error)
    ensures imported.Ok? && imported.value && n + 1 >= cap ==> ImportBatch(step, s, n, records, i, cap) == Ok((next, n + 1))
    ensures imported.Ok? && !(imported.value && n + 1 >= cap) ==>
              ImportBatch(step, s, n, records, i, cap)
              == ImportBatch(step, next, if imported.value then n + 1 else n, records, i + 1, cap)
  {
  }

  /** What PutEvents answers: the batch's tables once the tracker rows are written, and the count; or the batch's error. */
  function PutEventsResult(db: Tables, records: seq<EventLogRecord>, localToUtc: int -> int, cap: int,
                           conflict: ConflictMode): (r: Result<(Tables, int)>)
    ensures r.Ok? ==> db.events.Keys <= r.value.0.events.Keys && 0 <= r.value.1 <= |records|
    ensures r.Err? ==> r.error in {ArgumentException, InvalidOperation, ConstraintViolation}
  {
    var start := BatchState(db, map[], map[]);
    var batch := ImportBatch(RecordStepOf(db.states, db.tasks, localToUtc, conflict), start, 0, records, 0, cap);
    ImportBatchKeepsEvents(db.states, db.tasks, localToUtc, conflict, start, 0, records, 0, cap);
    if batch.Err? then Err(batch.error)
    else Ok((WithTrackerRows(batch.value.0.tables, batch.value.0.tasks, batch.value.0.states), batch.value.1))
  }

  class EventImportJob {
    /** The tables as the database holds them outside this job's transaction. */
    var committed: Tables
    /** The tables as this job's transaction sees them. */
    var pending: Tables
    var disposed: bool
    /** ConflictHandling, Default to begin with. */
    var conflictHandling: ConflictMode
    const tracker: EventInfoTracker

    ghost predicate Valid()
      reads this, tracker.stateTracker.states.Front, tracker.stateTracker.states.Backing
      reads tracker.taskTracker.tasks.Front, tracker.taskTracker.tasks.Backing
    {
      tracker.Valid() && TablesValid(committed) && TablesValid(pending)
      && (disposed ==> pending == committed)
    }

    /** How far the job has got: the transaction's tables and the tracker's updated rows. */
    function Reached(): BatchState
      reads this, tracker.stateTracker.states.Front, tracker.taskTracker.tasks.Front
    {
      BatchState(pending, tracker.UpdatedStates(), tracker.UpdatedTasks())
    }

    /** A transaction is begun and the tracker is seeded with the Tasks and EventState rows. */
    constructor (db: Tables)
      requires TablesValid(db)
      ensures Valid() && !disposed && committed == db && pending == db && conflictHandling == Default
      ensures fresh(tracker.stateTracker.states.Front) && fresh(tracker.taskTracker.tasks.Front)
      ensures tracker.UpdatedStates() == map[] && tracker.UpdatedTasks() == map[]
      ensures tracker.stateTracker.states.Backing.items == db.states
      ensures tracker.taskTracker.tasks.Backing.items == db.tasks
    {
      var tasks := ReadTasks(db);
      var states := ReadEventStates(db);
      tracker := new EventInfoTracker(states, tasks);
      committed, pending, disposed, conflictHandling := db, db, false, Default;
    }

    /**
     * The part the ProcessEvent overloads share: the event is observed by
     * the tracker whether or not the filter then admits it, and only an
     * admitted event is put.
     */
    method ObserveAndPut(rid: int, eid: Int32, task: int, stamp: Stamp, ver: int, xml: string, description: Option<string>)
      returns (r: Result<bool>)
      requires Valid() && !disposed
      modifies this`pending, tracker.stateTracker.states.Front, tracker.taskTracker.tasks.Front
      ensures Valid()
      ensures tracker.UpdatedStates() == StatesAfter(old(tracker.UpdatedStates()), old(tracker.stateTracker.Find(eid)), eid)
      ensures tracker.UpdatedTasks()
              == TasksAfter(old(tracker.UpdatedTasks()), old(tracker.taskTracker.Find(eid, task)), eid, task, description)
      ensures (r, pending) == ProcessOutcome(AdmittedAfterObserving(old(tracker.stateTracker.Find(eid)), ver),
                                             old(pending), rid, eid, task, stamp, ver, xml, conflictHandling)
      ensures tracker.stateTracker.states.Backing.items == old(tracker.stateTracker.states.Backing.items)
      ensures tracker.taskTracker.tasks.Backing.items == old(tracker.taskTracker.tasks.Backing.items)
    {
      tracker.ObserveEvent(eid, task, description);
      if tracker.ShouldProcess(eid, ver) {
        var put := PutStamped(pending, rid, eid, task, stamp, ver, xml, conflictHandling);
        if put.Err? {
          return Err(put.error);
        }
        pending := put.value.0;
        return Ok(put.value.1 > 0);
      }
      return Ok(false);
    }

    /**
     * ProcessEvent(EventLogRecord): a record without RecordId or TimeCreated
     * is refused before anything is observed; the time is converted by
     * PutEvent, so an unspecified kind fails only for an admitted event.
     */
    method ProcessRecord(elr: EventLogRecord, localToUtc: int -> int) returns (r: Result<bool>)
      requires Valid()
      modifies this`pending, tracker.stateTracker.states.Front, tracker.taskTracker.tasks.Front
      ensures Valid()
      ensures old(disposed) ==> r == Err(ObjectDisposed)
      ensures !old(disposed) && (elr.recordId.None? || elr.timeCreated.None?) ==> r == Err(ArgumentException)
      ensures r.Err? && (old(disposed) || elr.recordId.None? || elr.timeCreated.None?) ==>
                pending == old(pending)
                && unchanged(tracker.stateTracker.states.Front, tracker.taskTracker.tasks.Front)
      ensures !old(disposed) && elr.recordId.Some? && elr.timeCreated.Some? ==>
                tracker.UpdatedStates() == StatesAfter(old(tracker.UpdatedStates()), old(tracker.stateTracker.Find(elr.id)), elr.id)
                && tracker.UpdatedTasks()
                   == TasksAfter(old(tracker.UpdatedTasks()), old(tracker.taskTracker.Find(elr.id, OrZero(elr.task))),
                                 elr.id, OrZero(elr.task), RecordedDescription(elr.taskDisplayName))
                && (r, pending)
                   == ProcessOutcome(AdmittedAfterObserving(old(tracker.stateTracker.Find(elr.id)), OrZero(elr.version)),
                                     old(pending), elr.recordId.value, elr.id, OrZero(elr.task),
                                     At(elr.timeCreated.value, localToUtc), OrZero(elr.version), elr.xml,
                                     conflictHandling)
      ensures old(pending).events.Keys <= pending.events.Keys
      ensures tracker.stateTracker.states.Backing.items == old(tracker.stateTracker.states.Backing.items)
      ensures tracker.taskTracker.tasks.Backing.items == old(tracker.taskTracker.tasks.Backing.items)
    {
      if disposed {
        return Err(ObjectDisposed);
      }
      if elr.recordId.None? || elr.timeCreated.None? {
        return Err(ArgumentException);
      }
      r := ObserveAndPut(elr.recordId.value, elr.id, OrZero(elr.task), At(elr.timeCreated.value, localToUtc),
                         OrZero(elr.version), elr.xml, RecordedDescription(elr.taskDisplayName));
    }

    /** ProcessEvent with the fields given, the stamp either as a DateTime or as epoch ticks. */
    method ProcessFields(rid: int, eid: Int32, task: int, stamp: Stamp, ver: int, xml: string, description: Option<string>)
      returns (r: Result<bool>)
      requires Valid()
      modifies this`pending, tracker.stateTracker.states.Front, tracker.taskTracker.tasks.Front
      ensures Valid()
      ensures old(disposed) ==> r == Err(ObjectDisposed) && pending == old(pending)
                                && unchanged(tracker.stateTracker.states.Front, tracker.taskTracker.tasks.Front)
      ensures !old(disposed) ==>
                tracker.UpdatedStates() == StatesAfter(old(tracker.UpdatedStates()), old(tracker.stateTracker.Find(eid)), eid)
                && tracker.UpdatedTasks()
                   == TasksAfter(old(tracker.UpdatedTasks()), old(tracker.taskTracker.Find(eid, task)), eid, task, description)
                && (r, pending) == ProcessOutcome(AdmittedAfterObserving(old(tracker.stateTracker.Find(eid)), ver),
                                                  old(pending), rid, eid, task, stamp, ver, xml, conflictHandling)
      ensures tracker.stateTracker.states.Backing.items == old(tracker.stateTracker.states.Backing.items)
      ensures tracker.taskTracker.tasks.Backing.items == old(tracker.taskTracker.tasks.Backing.items)
    {
      if disposed {
        return Err(ObjectDisposed);
      }
      r := ObserveAndPut(rid, eid, task, stamp, ver, xml, description);
    }

    /** ProcessEvent(string xml): not implemented, once the disposed check has passed. */
    method ProcessXml(xml: string) returns (r: Result<bool>)
      requires Valid()
      ensures r == Err(if disposed then ObjectDisposed else NotImplemented)
    {
      if disposed {
        return Err(ObjectDisposed);
      }
      return Err(NotImplemented);
    }

    /**
     * Commit(emitTracker): with emitTracker, each updated task row is put
     * with PutTask and then each updated state row with PutEventState; the
     * transaction is committed and the job disposed.
     */
    method Commit(emitTracker: bool) returns (r: Result<()>)
      requires Valid()
      modifies this`pending, this`committed, this`disposed
      ensures Valid() && disposed
      ensures old(disposed) ==> r == Err(ObjectDisposed) && committed == old(committed) && pending == old(pending)
      ensures !old(disposed) ==> r == Ok(())
      ensures !old(disposed) ==>
                committed == pending
                && committed == if emitTracker
                                then WithTrackerRows(old(pending), tracker.UpdatedTasks(), tracker.UpdatedStates())
                                else old(pending)
    {
      if disposed {
        return Err(ObjectDisposed);
      }
      if emitTracker {
        EmitTasks();
        EmitStates();
      }
      committed := pending;
      disposed := true;
      return Ok(());
    }

    /** The PutTask loop of Commit. */
    method EmitTasks()
      requires Valid() && !disposed
      modifies this`pending
      ensures Valid()
      ensures pending == old(pending).(tasks := old(pending).tasks + tracker.UpdatedTasks())
    {
      assert KeyConsistent(tracker.UpdatedTasks(), TaskPairOf) by {
        assert tracker.taskTracker.tasks.Front.Valid();
      }
      var rows := Listing(tracker.UpdatedTasks(), TaskPairOf);
      var t0 := pending;
      var i := 0;
      while i < |rows|
        invariant 0 <= i <= |rows| && Valid() && !disposed
        invariant pending == t0.(tasks := PutAll(t0.tasks, TaskPairOf, rows[..i]))
      {
        var row := rows[i];
        var (t, _) := PutTask(pending, row.eventId, row.taskId, row.description);
        PutAllStep(t0.tasks, TaskPairOf, rows, i);
        pending := t;
        i := i + 1;
      }
      assert rows[..i] == rows;
      PutAllOver(t0.tasks, TaskPairOf, rows);
    }

    /** The PutEventState loop of Commit. */
    method EmitStates()
      requires Valid() && !disposed
      modifies this`pending
      ensures Valid()
      ensures pending == old(pending).(states := old(pending).states + tracker.UpdatedStates())
    {
      assert KeyConsistent(tracker.UpdatedStates(), StateKeyOf) by {
        assert tracker.stateTracker.states.Front.Valid();
      }
      var rows := Listing(tracker.UpdatedStates(), StateKeyOf);
      var t0 := pending;
      var i := 0;
      while i < |rows|
        invariant 0 <= i <= |rows| && Valid() && !disposed
        invariant pending == t0.(states := PutAll(t0.states, StateKeyOf, rows[..i]))
      {
        var row := rows[i];
        var (t, _) := PutEventState(pending, row.eid, row.minVersion, row.enabled);
        PutAllStep(t0.states, StateKeyOf, rows, i);
        pending := t;
        i := i + 1;
      }
      assert rows[..i] == rows;
      PutAllOver(t0.states, StateKeyOf, rows);
    }

    /** Dispose: the first call ends the transaction, rolling back what was not committed; later calls do nothing. */
    method Dispose()
      requires Valid()
      modifies this`pending, this`disposed
      ensures Valid() && disposed
      ensures pending == committed
      ensures old(disposed) ==> pending == old(pending)
    {
      if !disposed {
        disposed := true;
        pending := committed;
      }
    }
  }

  /**
   * PutEvents(records, cap, conflict): one job over the records, counting
   * those imported and stopping once the count reaches cap; the job is
   * committed with its tracker rows. An exception from a record ends the
   * batch and the job's disposal rolls it back, so nothing is written.
   * `processed` is the number of records handed to the job.
   */
  method PutEvents(db: Tables, records: seq<EventLogRecord>, localToUtc: int -> int, cap: int, conflict: ConflictMode)
    returns (r: Result<(Tables, int)>, ghost processed: nat)
    requires TablesValid(db)
    ensures processed <= |records|
    ensures r.Ok? ==> TablesValid(r.value.0) && db.events.Keys <= r.value.0.events.Keys
    ensures r.Ok? ==> 0 <= r.value.1 <= processed && r.value.1 <= Max(cap, 1)
    ensures r.Ok? && processed < |records| ==> r.value.1 >= cap && r.value.1 >= 1
    ensures r.Err? ==> r.error in {ArgumentException, InvalidOperation, ConstraintViolation}
    ensures r == PutEventsResult(db, records, localToUtc, cap, conflict)
  {
    var job := new EventImportJob(db);
    job.conflictHandling := conflict;
    var imported;
    imported, processed := ImportAll(job, records, localToUtc, cap, RecordStepOf(db.states, db.tasks, localToUtc, conflict),
                                     db.states, db.tasks, conflict);
    if imported.Err? {
      job.Dispose();
      return Err(imported.error), processed;
    }
    var _ := job.Commit(true);
    return Ok((job.committed, imported.value)), processed;
  }

  /**
   * The loop of PutEvents: the records in order until one fails or `cap`
   * have been imported. `step` is RecordStep for this job's tracker seeds
   * and conflict handling.
   */
  method ImportAll(job: EventImportJob, records: seq<EventLogRecord>, localToUtc: int -> int, cap: int,
                   ghost step: BatchStep, ghost seedStates: map<int, EventStateRow>, ghost seedTasks: map<TaskPair, TaskRow>,
                   ghost conflict: ConflictMode)
    returns (r: Result<int>, ghost processed: nat)
    requires job.Valid() && !job.disposed && job.conflictHandling == conflict
    requires job.tracker.stateTracker.states.Backing.items == seedStates
    requires job.tracker.taskTracker.tasks.Backing.items == seedTasks
    requires forall s, elr {:trigger RecordStep(seedStates, seedTasks, s, elr, localToUtc, conflict)} ::
               step(s, elr) == RecordStep(seedStates, seedTasks, s, elr, localToUtc, conflict)
    modifies job`pending, job.tracker.stateTracker.states.Front, job.tracker.taskTracker.tasks.Front
    ensures job.Valid() && old(job.pending).events.Keys <= job.pending.events.Keys
    ensures processed <= |records|
    ensures r.Ok? ==> 0 <= r.value <= processed && r.value <= Max(cap, 1)
    ensures r.Ok? && processed < |records| ==> r.value >= cap && r.value >= 1
    ensures r.Err? ==> r.error in {ArgumentException, InvalidOperation, ConstraintViolation}
    ensures ImportBatch(step, old(job.Reached()), 0, records, 0, cap)
            == if r.Err? then Err(r.error) else Ok((job.Reached(), r.value))
  {
    ghost var batch := ImportBatch(step, job.Reached(), 0, records, 0, cap);
    var n := 0;
    var i := 0;
    while i < |records|
      invariant 0 <= n <= i <= |records|
      invariant n == 0 || n < cap
      invariant job.Valid() && !job.disposed && job.conflictHandling == conflict
      invariant old(job.pending).events.Keys <= job.pending.events.Keys
      invariant job.tracker.stateTracker.states.Backing.items == seedStates
      invariant job.tracker.taskTracker.tasks.Backing.items == seedTasks
      invariant batch == ImportBatch(step, job.Reached(), n, records, i, cap)
    {
      var imported := ImportNext(job, records, i, n, localToUtc, cap, step, seedStates, seedTasks, conflict, batch);
      i := i + 1;
      if imported.Err? {
        return Err(imported.error), i;
      }
      if imported.value {
        n := n + 1;
        if n >= cap {
          return Ok(n), i;
        }
      }
    }
    return Ok(n), i;
  }

  /** One pass of the PutEvents loop, stated as the step of ImportBatch it takes. */
  method ImportNext(job: EventImportJob, records: seq<EventLogRecord>, i: nat, n: int, localToUtc: int -> int, cap: int,
                    ghost step: BatchStep, ghost seedStates: map<int, EventStateRow>, ghost seedTasks: map<TaskPair, TaskRow>,
                    ghost conflict: ConflictMode, ghost batch: Result<(BatchState, int)>)
    returns (imported: Result<bool>)
    requires job.Valid() && !job.disposed && job.conflictHandling == conflict && i < |records|
    requires job.tracker.stateTracker.states.Backing.items == seedStates
    requires job.tracker.taskTracker.tasks.Backing.items == seedTasks
    requires forall s, elr {:trigger RecordStep(seedStates, seedTasks, s, elr, localToUtc, conflict)} ::
               step(s, elr) == RecordStep(seedStates, seedTasks, s, elr, localToUtc, conflict)
    requires batch == ImportBatch(step, job.Reached(), n, records, i, cap)
    modifies job`pending, job.tracker.stateTracker.states.Front, job.tracker.taskTracker.tasks.Front
    ensures job.Valid() && old(job.pending).events.Keys <= job.pending.events.Keys
    ensures imported.Err? ==> imported.error in {ArgumentException, InvalidOperation, ConstraintViolation}
    ensures job.tracker.stateTracker.states.Backing.items == seedStates
    ensures job.tracker.taskTracker.tasks.Backing.items == seedTasks
    ensures imported.Err? ==> batch == Err(imported.error)
    ensures imported == Ok(true) && n + 1 >= cap ==> batch == Ok((job.Reached(), n + 1))
    ensures imported.Ok? && !(imported.value && n + 1 >= cap) ==>
              batch == ImportBatch(step, job.Reached(), if imported.value then n + 1 else n, records, i + 1, cap)
  {
    ghost var before := job.Reached();
    imported := ImportRecord(job, records[i], localToUtc);
    BatchAdvance(step, before, n, records, i, cap, imported, job.Reached());
  }

  /** One record of PutEvents: what the batch needs to know of ProcessEvent. */
  method ImportRecord(job: EventImportJob, elr: EventLogRecord, localToUtc: int -> int) returns (r: Result<bool>)
    requires job.Valid() && !job.disposed
    modifies job`pending, job.tracker.stateTracker.states.Front, job.tracker.taskTracker.tasks.Front
    ensures job.Valid() && old(job.pending).events.Keys <= job.pending.events.Keys
    ensures r.Err? ==> r.error in {ArgumentException, InvalidOperation, ConstraintViolation}
    ensures (r, job.Reached())
            == RecordStep(job.tracker.stateTracker.states.Backing.items, job.tracker.taskTracker.tasks.Backing.items,
                          old(job.Reached()), elr, localToUtc, job.conflictHandling)
    ensures job.tracker.stateTracker.states.Backing.items == old(job.tracker.stateTracker.states.Backing.items)
    ensures job.tracker.taskTracker.tasks.Backing.items == old(job.tracker.taskTracker.tasks.Backing.items)
  {
    r := job.ProcessRecord(elr, localToUtc);
  }

  // ------------------------------------------------------------ V2: EventImportJob2

  /**
   * What Commit leaves in the store when every insert gets through: the
   * newly added providers, then the new task rows, then the new operation
   * rows. It fails when any of them clashes with a row already stored.
   */
  function CommitResult(s: StoreV2, added: seq<ProviderInfoRow>, taskRows: map<TaskKey, TaskInfoRow>,
                        operationRows: map<OperationKey, OperationInfoRow>): (r: Result<StoreV2>)
    ensures r.Ok? <==> InsertProviders(s, added).Ok? && taskRows.Keys !! s.taskInfos.Keys
                       && operationRows.Keys !! s.operationInfos.Keys
    ensures r.Err? ==> r.error == ConstraintViolation
    ensures r.Ok? ==> r.value.providers == PutAll(s.providers, ProviderIdOf, added)
                      && r.value.taskInfos == s.taskInfos + taskRows
                      && r.value.operationInfos == s.operationInfos + operationRows
                      && r.value.xmls == s.xmls && r.value.headers == s.headers
    ensures r.Ok? && StoreValid(s) && KeyConsistent(taskRows, TaskKeyOf) && KeyConsistent(operationRows, OperationKeyOf)
            ==> StoreValid(r.value)
  {
    var p :- InsertProviders(s, added);
    if taskRows.Keys !! p.taskInfos.Keys && operationRows.Keys !! p.operationInfos.Keys
    then Ok(p.(taskInfos := p.taskInfos + taskRows, operationInfos := p.operationInfos + operationRows))
    else Err(ConstraintViolation)
  }

  /**
   * A stored task row that the cache revises (a description loaded for a
   * row that had none) is among the new rows, and its plain INSERT then
   * clashes with the stored row: Commit fails.
   */
  lemma RevisedStoredRowBlocksCommit(s: StoreV2, added: seq<ProviderInfoRow>, taskRows: map<TaskKey, TaskInfoRow>,
                                     operationRows: map<OperationKey, OperationInfoRow>, key: TaskKey)
    requires key in s.taskInfos && key in taskRows
    ensures CommitResult(s, added, taskRows, operationRows) == Err(ConstraintViolation)
  {
  }

  /** The first loop of Commit: one provider insert each, stopping at the first that fails. */
  method InsertEachProvider(s: StoreV2, added: seq<ProviderInfoRow>) returns (r: Result<StoreV2>)
    ensures r == InsertProviders(s, added)
  {
    var view := s;
    var i := 0;
    while i < |added|
      invariant 0 <= i <= |added|
      invariant InsertProviders(s, added[..i]) == Ok(view)
    {
      var next := InsertProviderInfoRow(view, added[i]);
      assert added[..i + 1][..i] == added[..i];
      if next.Err? {
        InsertProvidersPrefixFails(s, added, i + 1);
        return next;
      }
      view := next.value;
      i := i + 1;
    }
    assert added[..i] == added;
    return Ok(view);
  }

  /** The second and third loops of Commit: the new task rows, then the new operation rows. */
  method InsertNewRows(s: StoreV2, taskRows: map<TaskKey, TaskInfoRow>, operationRows: map<OperationKey, OperationInfoRow>)
    returns (r: Result<StoreV2>)
    requires KeyConsistent(taskRows, TaskKeyOf) && KeyConsistent(operationRows, OperationKeyOf)
    ensures r.Ok? <==> taskRows.Keys !! s.taskInfos.Keys && operationRows.Keys !! s.operationInfos.Keys
    ensures r.Ok? ==> r.value == s.(taskInfos := s.taskInfos + taskRows, operationInfos := s.operationInfos + operationRows)
    ensures r.Err? ==> r.error == ConstraintViolation
  {
    var tasks := InsertEach(s.taskInfos, TaskKeyOf, taskRows);
    if tasks.Err? {
      return Err(tasks.error);
    }
    var operations := InsertEach(s.operationInfos, OperationKeyOf, operationRows);
    if operations.Err? {
      return Err(operations.error);
    }
    return Ok(s.(taskInfos := tasks.value, operationInfos := operations.value));
  }

  /** The three insert loops of Commit, one after the other. */
  method CommitStore(s: StoreV2, added: seq<ProviderInfoRow>, taskRows: map<TaskKey, TaskInfoRow>,
                     operationRows: map<OperationKey, OperationInfoRow>) returns (r: Result<StoreV2>)
    requires StoreValid(s) && KeyConsistent(taskRows, TaskKeyOf) && KeyConsistent(operationRows, OperationKeyOf)
    ensures r == CommitResult(s, added, taskRows, operationRows)
    ensures r.Ok? ==> StoreValid(r.value)
  {
    var withProviders := InsertEachProvider(s, added);
    if withProviders.Err? {
      return Err(withProviders.error);
    }
    r := InsertNewRows(withProviders.value, taskRows, operationRows);
  }

  /**
   * The caches of a V2 job, built by the row-list constructor of
   * EventInsertionLogic from every stored provider, task and operation row.
   * The stored providers have distinct ids and names, so it cannot fail.
   */
  method LogicFromRows(db: StoreV2) returns (logic: EventInsertionLogic)
    requires StoreValid(db)
    ensures logic.Valid()
    ensures fresh(logic.providers) && fresh(logic.tasks.rows.Front) && fresh(logic.operations.rows.Front)
    ensures logic.providers.byId == db.providers && logic.providers.newlyAdded == []
    ensures logic.tasks.rows.Backing.items == db.taskInfos && logic.tasks.NewRows() == map[]
    ensures logic.operations.rows.Backing.items == db.operationInfos && logic.operations.NewRows() == map[]
  {
    var providerRows := AllProviderInfoRows(db);
    var taskRows := AllTaskInfoRows(db);
    var operationRows := AllOperationInfoRows(db);
    ListedProvidersDistinct(db, providerRows);
    var made := EventInsertionLogic.New(providerRows, taskRows, operationRows);
    logic := made.value;
  }

  class EventImportJob2 {
    /** The tables as the database holds them outside this job's transaction. */
    var durable: StoreV2
    /** The tables as this job's transaction sees them. */
    var view: StoreV2
    var disposed: bool
    /** Tracker: the provider, task and operation caches. */
    const logic: EventInsertionLogic

    ghost predicate Valid()
      reads this, logic.providers, logic.tasks.rows.Front, logic.tasks.rows.Backing
      reads logic.operations.rows.Front, logic.operations.rows.Backing
    {
      logic.Valid() && StoreValid(durable) && StoreValid(view) && (disposed ==> view == durable)
    }

    /** A transaction is begun and the caches are built from all provider, task and operation rows. */
    constructor (db: StoreV2)
      requires StoreValid(db)
      ensures Valid() && !disposed && durable == db && view == db
      ensures fresh(logic.providers) && fresh(logic.tasks.rows.Front) && fresh(logic.operations.rows.Front)
      ensures logic.providers.byId == db.providers && logic.providers.newlyAdded == []
      ensures logic.tasks.rows.Backing.items == db.taskInfos && logic.tasks.NewRows() == map[]
      ensures logic.operations.rows.Backing.items == db.operationInfos && logic.operations.NewRows() == map[]
    {
      var made := LogicFromRows(db);
      logic := made;
      durable, view, disposed := db, db, false;
    }

    /**
     * A write on the job's connection: inside the transaction while it is
     * open, and straight to the database once the job is disposed.
     */
    method Write(s: StoreV2)
      requires Valid() && StoreValid(s)
      modifies this`view, this`durable
      ensures Valid()
      ensures view == s && durable == if disposed then s else old(durable)
      ensures unchanged(logic.providers, logic.tasks.rows.Front, logic.tasks.rows.Backing)
      ensures unchanged(logic.operations.rows.Front, logic.operations.rows.Backing)
    {
      view := s;
      if disposed {
        durable := s;
      }
    }

    /**
     * ProcessEvent(EventLogRecord): a record without RecordId or TimeCreated,
     * or whose XML is empty, is passed over; otherwise its header is made and
     * inserted with the XML under the record id. There is no disposed check.
     */
    method ProcessRecord(elr: EventLogRecord, localToUtc: int -> int) returns (r: Result<bool>)
      requires Valid()
      modifies this`view, this`durable, logic.providers, logic.tasks.rows.Front, logic.operations.rows.Front
      ensures Valid() && disposed == old(disposed)
      ensures r == Ok(false) <==> elr.recordId.None? || elr.timeCreated.None? || elr.xml == ""
      ensures r == Ok(false) ==> view == old(view) && durable == old(durable)
                                 && unchanged(logic.providers, logic.tasks.rows.Front, logic.operations.rows.Front)
      ensures r.Err? ==> view == old(view) && durable == old(durable)
      ensures r == Ok(true) ==>
                var rid := elr.recordId.value;
                logic.providers.Find(elr.providerName).Some?
                && rid !in old(view.headers) && rid !in old(view.xmls)
                && view.xmls == old(view.xmls)[rid := elr.xml]
                && rid in view.headers && view.headers == old(view.headers)[rid := view.headers[rid]]
                && Ok(view.headers[rid]) == HeaderOf(elr, logic.providers.Find(elr.providerName).value.providerId, localToUtc)
                && view.providers == old(view.providers) && view.taskInfos == old(view.taskInfos)
                && view.operationInfos == old(view.operationInfos)
      ensures r == Ok(true) ==> durable == if disposed then view else old(durable)
      ensures elr.recordId.Some? && elr.timeCreated.Some? && elr.xml != "" && elr.recordId.value in old(view.headers)
              ==> r.Err?
      ensures elr.recordId.Some? && elr.timeCreated.Some? && elr.xml != "" ==>
                logic.ProviderStepped(elr.providerName, elr.providerGuid)
                && logic.CachesStepped(logic.HeaderMade(elr, localToUtc), Some(elr))
      ensures elr.recordId.Some? && elr.timeCreated.Some? && elr.xml != "" && old(logic.providers.Find(elr.providerName)).None? && old(logic.providers.nextId) in old(logic.providers.byId) ==>
                r == Err(InvalidOperation)
      ensures elr.recordId.Some? && elr.timeCreated.Some? && elr.xml != "" ==>
                var h := logic.HeaderMade(elr, localToUtc);
                (r == Ok(true) <==> h.Ok? && InsertEvent(old(view), h.value, elr.xml).Ok?)
                && (h.Err? ==> r == Err(h.error))
    {
      if elr.recordId.Some? && elr.timeCreated.Some? && elr.xml != "" {
        var ehr :- logic.MakeHeaderFromEventLogRecord(elr, localToUtc);
        var stored :- InsertEvent(view, ehr, elr.xml);
        Write(stored);
        assert logic.HeaderMade(elr, localToUtc) == Ok(ehr);
        return Ok(true);
      }
      return Ok(false);
    }

    /**
     * ProcessEvent(string xml): empty XML is passed over; otherwise the
     * fields an XmlEventDissector reads from it (`fields`) make the header,
     * which is inserted with the XML. There is no disposed check.
     */
    method ProcessXml(xml: string, fields: XmlEventFields, localToUtc: int -> int) returns (r: Result<bool>)
      requires Valid()
      modifies this`view, this`durable, logic.providers, logic.tasks.rows.Front, logic.operations.rows.Front
      ensures Valid() && disposed == old(disposed)
      ensures r == Ok(false) <==> xml == ""
      ensures r == Ok(false) ==> view == old(view) && durable == old(durable)
                                 && unchanged(logic.providers, logic.tasks.rows.Front, logic.operations.rows.Front)
      ensures r.Err? ==> view == old(view) && durable == old(durable)
      ensures r == Ok(true) ==>
                var rid := fields.recordId;
                logic.providers.Find(fields.provider).Some?
                && rid !in old(view.headers) && rid !in old(view.xmls)
                && view.xmls == old(view.xmls)[rid := xml]
                && rid in view.headers && view.headers == old(view.headers)[rid := view.headers[rid]]
                && Ok(view.headers[rid]) == HeaderOfXml(fields, logic.providers.Find(fields.provider).value.providerId, localToUtc)
                && view.providers == old(view.providers) && view.taskInfos == old(view.taskInfos)
                && view.operationInfos == old(view.operationInfos)
      ensures r == Ok(true) ==> durable == if disposed then view else old(durable)
      ensures xml != "" && fields.recordId in old(view.headers) ==> r.Err?
      ensures xml != "" ==>
                logic.ProviderStepped(fields.provider, fields.providerGuid)
                && logic.CachesStepped(logic.HeaderMadeFromXml(fields, localToUtc), None)
      ensures xml != "" && old(logic.providers.Find(fields.provider)).None? && old(logic.providers.nextId) in old(logic.providers.byId) ==>
                r == Err(InvalidOperation)
      ensures xml != "" ==>
                var h := logic.HeaderMadeFromXml(fields, localToUtc);
                (r == Ok(true) <==> h.Ok? && InsertEvent(old(view), h.value, xml).Ok?)
                && (h.Err? ==> r == Err(h.error))
    {
      if xml != "" {
        var ehr :- logic.MakeHeaderFromXml(fields, localToUtc);
        var stored :- InsertEvent(view, ehr, xml);
        Write(stored);
        assert logic.HeaderMadeFromXml(fields, localToUtc) == Ok(ehr);
        return Ok(true);
      }
      return Ok(false);
    }

    /**
     * Commit: the newly added providers, then the new task rows, then the new
     * operation rows are inserted; the transaction is committed and the job
     * disposed. A clash fails the insert, and the job stays open.
     */
    method Commit() returns (r: Result<()>)
      requires Valid()
      modifies this`view, this`durable, this`disposed
      ensures Valid()
      ensures old(disposed) ==> r == Err(ObjectDisposed) && view == old(view) && durable == old(durable) && disposed
      ensures !old(disposed) ==>
                var after := CommitResult(old(view), logic.providers.newlyAdded, logic.tasks.NewRows(),
                                          logic.operations.NewRows());
                (r.Ok? <==> after.Ok?)
                && (r.Ok? ==> disposed && view == after.value && durable == after.value)
                && (r.Err? ==> r.error == ConstraintViolation && !disposed && durable == old(durable))
    {
      if disposed {
        return Err(ObjectDisposed);
      }
      assert KeyConsistent(logic.tasks.NewRows(), TaskKeyOf) by {
        assert logic.tasks.rows.Front.Valid();
      }
      assert KeyConsistent(logic.operations.NewRows(), OperationKeyOf) by {
        assert logic.operations.rows.Front.Valid();
      }
      var after := CommitStore(view, logic.providers.newlyAdded, logic.tasks.NewRows(), logic.operations.NewRows());
      if after.Err? {
        return Err(after.error);
      }
      view := after.value;
      durable := view;
      disposed := true;
      return Ok(());
    }

    /** Dispose: the first call ends the transaction, rolling back what was not committed; later calls do nothing. */
    method Dispose()
      requires Valid()
      modifies this`view, this`disposed
      ensures Valid() && disposed
      ensures view == durable
      ensures old(disposed) ==> view == old(view)
    {
      if !disposed {
        disposed := true;
        view := durable;
      }
    }
  }
}
