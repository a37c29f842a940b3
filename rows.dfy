/*
 * The row types of the event databases (the Row classes of Lcl.EventLog/Jobs/Database).
 * Each is an immutable value; the long-to-int narrowing of the constructors
 * that take longs is the unchecked C# cast, ToInt32.
 *
 * The key of a row is what the keyed maps file it under (IHasKey.Key).
 * EventStateRow.cs and TaskRow.cs declare no key; the keys used here, event id
 * and (event id, task id), are how EventStateTracker.cs:21-30 and
 * TaskTracker.cs:21-30 look the rows up.
 */
module Rows {
  import opened Common
  import opened TimeUtil

  /** (EventId, EventVersion, TaskId, ProviderId) */
  type TaskKey = (int, int, int, int)
  /** (EventId, EventVersion, TaskId, ProviderId, OperationId) */
  type OperationKey = (int, int, int, int, int)
  /** (EventId, TaskId) */
  type TaskPair = (int, int)

  /**
   * A TaskInfo row of the V2 database. A description of None means that no
   * lookup was attempted yet; Some("") that a lookup was attempted and failed.
   */
  datatype TaskInfoRow = TaskInfoRow(eventId: int, eventVersion: int, taskId: int, providerId: int,
                                     taskDescription: Option<string>)
  {
    function Key(): TaskKey { (eventId, eventVersion, taskId, providerId) }
  }

  /** The key is the four id fields and nothing else: rows differing only in description share a key. */
  lemma TaskInfoKeyIgnoresDescription(a: TaskInfoRow, b: TaskInfoRow)
    ensures a.Key() == b.Key() <==> a == b.(taskDescription := a.taskDescription)
  {
  }

  const TaskKeyOf: TaskInfoRow -> TaskKey := (r: TaskInfoRow) => r.Key()

  /** An OperationInfo row; it also serves as the task and provider key of its operation. */
  datatype OperationInfoRow = OperationInfoRow(eventId: int, eventVersion: int, taskId: int, providerId: int,
                                               operationId: int, operationDescription: Option<string>)
  {
    function Key(): OperationKey { (eventId, eventVersion, taskId, providerId, operationId) }
    /** The row seen as an ITaskInfoKey. */
    function TaskKey(): TaskKey { (eventId, eventVersion, taskId, providerId) }
  }

  const OperationKeyOf: OperationInfoRow -> OperationKey := (r: OperationInfoRow) => r.Key()

  /** The OperationInfoRow constructor: each long id is narrowed to int, the description kept as given. */
  function NewOperationInfoRow(eid: int, ever: int, task: int, prvid: int, opid: int,
                               opdesc: Option<string>): (r: OperationInfoRow)
    ensures IsInt32(r.eventId) && IsInt32(r.eventVersion) && IsInt32(r.taskId)
    ensures IsInt32(r.providerId) && IsInt32(r.operationId)
    ensures r.operationDescription == opdesc
    ensures IsInt32(eid) && IsInt32(ever) && IsInt32(task) && IsInt32(prvid) && IsInt32(opid)
            ==> r.Key() == (eid, ever, task, prvid, opid)
  {
    OperationInfoRow(ToInt32(eid), ToInt32(ever), ToInt32(task), ToInt32(prvid), ToInt32(opid), opdesc)
  }

  /**
   * An EventState row of the V1 database. The source lets callers set
   * MinVersion and Enabled afterwards; no operation modelled here does.
   */
  datatype EventStateRow = EventStateRow(eid: int, minVersion: int, enabled: bool)

  /** The EventStateRow constructor, with its defaults: version 0 and enabled. */
  function NewEventStateRow(eid: int, minversion: int := 0, enabled: int := 1): (r: EventStateRow)
    ensures r.enabled <==> enabled != 0
    ensures IsInt32(r.eid) && IsInt32(r.minVersion)
    ensures IsInt32(eid) ==> r.eid == eid
    ensures IsInt32(minversion) ==> r.minVersion == minversion
  {
    EventStateRow(ToInt32(eid), ToInt32(minversion), enabled != 0)
  }

  /** A state row made with the defaults accepts every version from 0 up. */
  lemma DefaultEventState(eid: int)
    requires IsInt32(eid)
    ensures NewEventStateRow(eid) == EventStateRow(eid, 0, true)
  {
  }

  /** The event id under which the state tracker files a state row. */
  const StateKeyOf: EventStateRow -> int := (r: EventStateRow) => r.eid

  /** A row of the V1 Tasks table. */
  datatype TaskRow = TaskRow(eventId: int, taskId: int, description: Option<string>)
  {
    function Key(): TaskPair { (eventId, taskId) }
  }

  const TaskPairOf: TaskRow -> TaskPair := (r: TaskRow) => r.Key()

  /** A row of the V1 Events table; TimeStamp is derived from TickStamp by the constructor. */
  datatype EventRow = EventRow(recordId: int, eventId: int, taskId: int, tickStamp: int,
                               timeStamp: DateTime, version: int, xml: string)
  {
    function Key(): int { recordId }
  }

  /**
   * The EventRow constructor: the ids are narrowed to int and TimeStamp is
   * EpochDateTime(ts), which throws for a stamp outside the DateTime range.
   */
  function NewEventRow(rid: int, eid: int, task: int, ts: int, ver: int, xml: string): (r: Result<EventRow>)
    ensures r.Ok? <==> InDateTimeRange(ts)
    ensures r.Err? ==> r.error == ArgumentOutOfRange
    ensures r.Ok? ==> r.value.Key() == rid && r.value.tickStamp == ts && r.value.xml == xml
    ensures r.Ok? ==> r.value.timeStamp.kind == Utc && r.value.timeStamp.ticks == TicksAtEpoch + ts
    ensures r.Ok? ==> IsInt32(r.value.eventId) && IsInt32(r.value.taskId) && IsInt32(r.value.version)
  {
    var stamp :- EpochDateTime(ts);
    Ok(EventRow(rid, ToInt32(eid), ToInt32(task), ts, stamp, ToInt32(ver), xml))
  }

  /** EventRow.Equals: a missing row is never equal; otherwise the six stored fields are compared. */
  predicate EventRowEquals(a: EventRow, other: Option<EventRow>)
  {
    other.Some?
    && other.value.recordId == a.recordId && other.value.eventId == a.eventId
    && other.value.taskId == a.taskId && other.value.tickStamp == a.tickStamp
    && other.value.version == a.version && other.value.xml == a.xml
  }

  /** A row whose TimeStamp is the one its constructor derives from TickStamp. */
  predicate DerivedStamp(r: EventRow)
  {
    EpochDateTime(r.tickStamp) == Ok(r.timeStamp)
  }

  /**
   * Equals ignores TimeStamp, yet for constructed rows it is exactly value
   * equality, because TimeStamp is a function of TickStamp.
   */
  lemma EventRowEqualsIsEquality(a: EventRow, b: EventRow)
    requires DerivedStamp(a) && DerivedStamp(b)
    ensures EventRowEquals(a, Some(b)) <==> a == b
  {
    if EventRowEquals(a, Some(b)) {
      assert Ok(a.timeStamp) == EpochDateTime(a.tickStamp) == Ok(b.timeStamp);
    }
  }

  /** Every row the constructor builds carries its derived stamp. */
  lemma NewEventRowDerived(rid: int, eid: int, task: int, ts: int, ver: int, xml: string)
    requires NewEventRow(rid, eid, task, ts, ver, xml).Ok?
    ensures DerivedStamp(NewEventRow(rid, eid, task, ts, ver, xml).value)
  {
  }

  /** A row of the V2 EventHeader table. */
  datatype EventHeaderRow = EventHeaderRow(recordId: int, stamp: int, eventId: int, eventVersion: int,
                                           taskId: int, providerId: int, operationId: int)
  {
    /** The header seen as an ITaskInfoKey. */
    function TaskKey(): TaskKey { (eventId, eventVersion, taskId, providerId) }
    /** The header seen as an IOperationInfoKey. */
    function OperationKey(): OperationKey { (eventId, eventVersion, taskId, providerId, operationId) }
  }

  /** The EventHeaderRow constructor: record id and stamp kept, the five ids narrowed to int. */
  function NewEventHeaderRow(rid: int, stamp: int, eid: int, ever: int, task: int, prvid: int, opid: int)
    : (r: EventHeaderRow)
    ensures r.recordId == rid && r.stamp == stamp
    ensures IsInt32(eid) && IsInt32(ever) && IsInt32(task) && IsInt32(prvid) && IsInt32(opid)
            ==> r.OperationKey() == (eid, ever, task, prvid, opid)
    ensures IsInt32(r.eventId) && IsInt32(r.eventVersion) && IsInt32(r.taskId)
    ensures IsInt32(r.providerId) && IsInt32(r.operationId)
  {
    EventHeaderRow(rid, stamp, ToInt32(eid), ToInt32(ever), ToInt32(task), ToInt32(prvid), ToInt32(opid))
  }

  /** A row of the V2 ProviderInfo table; the id is a C# int, the GUID is optional. */
  datatype ProviderInfoRow = ProviderInfoRow(providerId: Int32, providerName: string, providerGuid: Option<string>)

  /** The two keys of a provider row: its surrogate id and its (unique) name. */
  const ProviderIdOf: ProviderInfoRow -> int := (r: ProviderInfoRow) => r.providerId
  const ProviderNameOf: ProviderInfoRow -> string := (r: ProviderInfoRow) => r.providerName
}
