/*
 * Header construction for the V2 import (Lcl.EventLog/Jobs/Database/EventInsertionLogic.cs).
 * An event record becomes an EventHeaderRow. Along the way its provider is
 * resolved to an id, and its task and operation are registered with the
 * caches, so that every header handed out refers to known dimension rows.
 *
 * Records come from the operating system's event log, which is not part of
 * this model: a record is the datatype below. A metadata lookup
 * (TaskDisplayName, OpcodeDisplayName) either answers, possibly with null,
 * or throws.
 */
module Insertion {
  import opened Common
  import opened Rows
  import opened TimeUtil
  import opened KeyedMaps
  import opened OpenDbV2
  import opened InfoCaches

  /** A display-name lookup: an answer (None for null), or an exception. */
  datatype DisplayName = Shown(name: Option<string>) | Throws

  /**
   * The EventLogRecord properties the import reads. The provider GUID is
   * given in its "B" string form; Version, Task and Opcode are nullable.
   * `xml` is what ToXml answers.
   */
  datatype EventLogRecord = EventLogRecord(providerName: string, providerGuid: Option<string>,
                                           recordId: Option<int>, timeCreated: Option<DateTime>,
                                           id: Int32, version: Option<Int32>, task: Option<Int32>,
                                           opcode: Option<Int32>,
                                           taskDisplayName: DisplayName, opcodeDisplayName: DisplayName,
                                           xml: string)

  /** The fields an XmlEventDissector extracts from the XML form of an event. */
  datatype XmlEventFields = XmlEventFields(provider: string, providerGuid: Option<string>,
                                           recordId: int, stamp: DateTime,
                                           eventId: Int32, version: Int32, taskId: Int32, opcode: Int32)

  /** C#'s `x ?? 0` on a nullable int. */
  function OrZero(x: Option<Int32>): Int32
  {
    if x.Some? then x.value else 0
  }

  /** ExtractTaskDescription / ExtractOperationDescription: a lookup that throws counts as "". */
  function ExtractDescription(d: DisplayName): (r: Option<string>)
    ensures d.Throws? ==> r == Some("")
    ensures d.Shown? ==> r == d.name
  {
    match d
    case Shown(name) => name
    case Throws => Some("")
  }

  /** The lazy description loaders handed to the caches. */
  function TaskLoader(elr: EventLogRecord): () -> Option<string>
  {
    () => ExtractDescription(elr.taskDisplayName)
  }

  function OperationLoader(elr: EventLogRecord): () -> Option<string>
  {
    () => ExtractDescription(elr.opcodeDisplayName)
  }

  /** The loader of the XML path, which has no metadata to consult. */
  const NoDescription: () -> Option<string> := () => None

  /** The task loader for a record, or the XML path's loader when there is no record. */
  function TaskLoaderOf(record: Option<EventLogRecord>): () -> Option<string>
  {
    if record.Some? then TaskLoader(record.value) else NoDescription
  }

  /** The operation loader for a record, or the XML path's loader when there is no record. */
  function OperationLoaderOf(record: Option<EventLogRecord>): () -> Option<string>
  {
    if record.Some? then OperationLoader(record.value) else NoDescription
  }

  /**
   * A failed lookup is recorded as an attempted one: the row it creates holds
   * "" and the loader is never called for that row again.
   */
  lemma FailedLookupSettles(found: Option<Option<string>>)
    requires LoaderInvoked(found)
    ensures var r := LoadedRevision(found, () => ExtractDescription(Throws));
            r == Some(Some("")) && !LoaderInvoked(Some(r.value))
  {
  }

  /** Without metadata a known key is never revised, and an unknown one gets a row without description. */
  lemma NoBackfill(found: Option<Option<string>>)
    ensures LoadedRevision(found, NoDescription) == if found.Some? then None else Some(None)
  {
  }

  /** The header of a record whose provider has id `prvid`. */
  function HeaderOf(elr: EventLogRecord, prvid: Int32, localToUtc: int -> int): (r: Result<EventHeaderRow>)
    ensures r.Ok? <==> elr.recordId.Some? && elr.timeCreated.Some? && elr.timeCreated.value.kind != Unspecified
    ensures elr.recordId.None? || elr.timeCreated.None? ==> r == Err(InvalidOperation)
    ensures elr.recordId.Some? && elr.timeCreated.Some? && elr.timeCreated.value.kind == Unspecified
            ==> r == Err(ArgumentException)
    ensures r.Ok? ==> r.value.recordId == elr.recordId.value
                      && Ok(r.value.stamp) == TicksSinceEpoch(elr.timeCreated.value, localToUtc)
                      && r.value.OperationKey() == (elr.id, OrZero(elr.version), OrZero(elr.task), prvid, OrZero(elr.opcode))
  {
    // RecordId!.Value and TimeCreated!.Value throw InvalidOperationException on null
    if elr.recordId.None? || elr.timeCreated.None? then Err(InvalidOperation)
    else
      var stamp :- TicksSinceEpoch(elr.timeCreated.value, localToUtc);
      Ok(NewEventHeaderRow(elr.recordId.value, stamp, elr.id, OrZero(elr.version), OrZero(elr.task), prvid,
                           OrZero(elr.opcode)))
  }

  /** The header of an event given in XML form, whose provider has id `prvid`. */
  function HeaderOfXml(xed: XmlEventFields, prvid: Int32, localToUtc: int -> int): (r: Result<EventHeaderRow>)
    ensures r.Ok? <==> xed.stamp.kind != Unspecified
    ensures r.Err? ==> r.error == ArgumentException
    ensures r.Ok? ==> r.value.recordId == xed.recordId
                      && Ok(r.value.stamp) == TicksSinceEpoch(xed.stamp, localToUtc)
                      && r.value.OperationKey() == (xed.eventId, xed.version, xed.taskId, prvid, xed.opcode)
  {
    var stamp :- TicksSinceEpoch(xed.stamp, localToUtc);
    Ok(NewEventHeaderRow(xed.recordId, stamp, xed.eventId, xed.version, xed.taskId, prvid, xed.opcode))
  }

  class EventInsertionLogic {
    const providers: ProviderInfoCache
    const tasks: TaskInfoCache
    const operations: OperationInfoCache

    ghost predicate Valid()
      reads providers, tasks.rows.Front, tasks.rows.Backing, operations.rows.Front, operations.rows.Backing
    {
      providers.Valid() && tasks.Valid() && operations.Valid()
    }

    constructor Init(p: ProviderInfoCache, t: TaskInfoCache, o: OperationInfoCache)
      requires p.Valid() && t.Valid() && o.Valid()
      ensures providers == p && tasks == t && operations == o && Valid()
    {
      providers, tasks, operations := p, t, o;
    }

    /**
     * The constructor from existing rows: fails, as the provider cache does,
     * on a repeated provider id or name.
     */
    static method New(existingProviders: seq<ProviderInfoRow>, existingTasks: seq<TaskInfoRow>,
                      existingOperations: seq<OperationInfoRow>) returns (r: Result<EventInsertionLogic>)
      ensures r.Ok? <==> DistinctProviders(existingProviders)
      ensures r.Err? ==> r.error == InvalidOperation
      ensures r.Ok? ==> r.value.Valid() && fresh(r.value.providers)
                        && fresh(r.value.tasks.rows.Front) && fresh(r.value.operations.rows.Front)
      ensures r.Ok? ==> r.value.providers.newlyAdded == [] && r.value.providers.Count() == |existingProviders|
      ensures r.Ok? ==> r.value.tasks.NewRows() == map[] && r.value.operations.NewRows() == map[]
      ensures r.Ok? ==> r.value.providers.byId == PutAll(map[], ProviderIdOf, existingProviders)
      ensures r.Ok? ==> r.value.tasks.rows.Backing.items == PutAll(map[], TaskKeyOf, existingTasks)
                        && r.value.operations.rows.Backing.items == PutAll(map[], OperationKeyOf, existingOperations)
    {
      var p :- ProviderInfoCache.New(existingProviders);
      var t := new TaskInfoCache(existingTasks);
      var o := new OperationInfoCache(existingOperations);
      var logic := new EventInsertionLogic.Init(p, t, o);
      return Ok(logic);
    }

    /** The constructor from an open database: the three caches over its three tables. */
    static method FromDb(odb: StoreV2) returns (logic: EventInsertionLogic)
      requires StoreValid(odb)
      ensures logic.Valid() && fresh(logic.providers)
              && fresh(logic.tasks.rows.Front) && fresh(logic.operations.rows.Front)
      ensures logic.providers.byId == odb.providers && logic.providers.newlyAdded == []
      ensures logic.tasks.rows.Backing.items == odb.taskInfos && logic.tasks.NewRows() == map[]
      ensures logic.operations.rows.Backing.items == odb.operationInfos && logic.operations.NewRows() == map[]
    {
      var p := ProviderInfoCache.FromDb(odb);
      var t := TaskInfoCache.FromDb(odb);
      var o := OperationInfoCache.FromDb(odb);
      logic := new EventInsertionLogic.Init(p.value, t, o);
    }

    /**
     * The provider step of both MakeHeader operations: a known name is used
     * as it is, whatever GUID the record carries; an unknown one is observed
     * (which can fail when the next id is taken) and then looked up again.
     */
    method ResolveProvider(name: string, guid: Option<string>) returns (r: Result<Int32>)
      requires Valid()
      modifies providers
      ensures Valid()
      ensures old(providers.Find(name)).Some? ==>
                r == Ok(old(providers.Find(name)).value.providerId) && unchanged(providers)
      ensures old(providers.Find(name)).None? ==>
                (r.Ok? <==> old(providers.nextId) !in old(providers.byId))
                && providers.nextId == ToInt32(old(providers.nextId) + 1)
      ensures old(providers.Find(name)).None? ==>
                providers.newlyAdded
                == old(providers.newlyAdded) + (if r.Ok? then [ProviderInfoRow(old(providers.nextId), name, guid)] else [])
      ensures old(providers.Find(name)).None? && r.Ok? ==> r.value == old(providers.nextId)
      ensures r.Err? ==> r.error == InvalidOperation
                         && providers.byId == old(providers.byId) && providers.byName == old(providers.byName)
      ensures r.Ok? ==> providers.Find(name).Some? && providers.Find(name).value.providerId == r.value
                        && providers.FindById(r.value) == providers.Find(name)
    {
      var pir := providers.Find(name);
      if pir.None? {
        var observed := providers.Observe(name, guid);
        if observed.Err? {
          return Err(observed.error);
        }
        pir := providers.Find(name);
      }
      return Ok(pir.value.providerId);
    }

    /**
     * The cache step of both MakeHeader operations: the header's task and
     * operation keys are observed with the given loaders.
     */
    method RegisterKeys(ehr: EventHeaderRow, taskLoader: () -> Option<string>, operationLoader: () -> Option<string>)
      requires Valid()
      requires IsInt32(ehr.eventId) && IsInt32(ehr.eventVersion) && IsInt32(ehr.taskId)
      requires IsInt32(ehr.providerId) && IsInt32(ehr.operationId)
      modifies tasks.rows.Front, operations.rows.Front
      ensures Valid()
      ensures tasks.Find(ehr.TaskKey()).Some? && operations.FindHeader(ehr).Some?
      ensures tasks.NewRows()
              == TaskRowsAfter(old(tasks.NewRows()), ehr, LoadedRevision(old(TaskDescriptionOf(tasks.Find(ehr.TaskKey()))), taskLoader))
      ensures operations.NewRows()
              == OperationRowsAfter(old(operations.NewRows()), ehr,
                                    LoadedRevision(old(OperationDescriptionOf(operations.FindHeader(ehr))), operationLoader))
      ensures tasks.rows.Backing.items == old(tasks.rows.Backing.items)
      ensures operations.rows.Backing.items == old(operations.rows.Backing.items)
    {
      var _ := tasks.ObserveHeader(ehr, taskLoader);
      var _ := operations.ObserveHeader(ehr, operationLoader);
    }

    /**
     * The header MakeHeaderFromEventLogRecord has made once its provider
     * step is over: InvalidOperation when the provider could not be
     * registered, otherwise the record's header under the provider's id.
     */
    function HeaderMade(elr: EventLogRecord, localToUtc: int -> int): (r: Result<EventHeaderRow>)
      reads providers
      ensures providers.Find(elr.providerName).None? ==> r == Err(InvalidOperation)
    {
      match providers.Find(elr.providerName)
      case None => Err(InvalidOperation)
      case Some(p) => HeaderOf(elr, p.providerId, localToUtc)
    }

    /** The same for MakeHeaderFromXml. */
    function HeaderMadeFromXml(xed: XmlEventFields, localToUtc: int -> int): (r: Result<EventHeaderRow>)
      reads providers
      ensures providers.Find(xed.provider).None? ==> r == Err(InvalidOperation)
    {
      match providers.Find(xed.provider)
      case None => Err(InvalidOperation)
      case Some(p) => HeaderOfXml(xed, p.providerId, localToUtc)
    }

    /**
     * The provider step of MakeHeader on the cache: a known name leaves it
     * as it was; an unknown one advances the id counter and, unless the id it
     * would take is in use, appends the new row to the newly added ones.
     */
    twostate predicate ProviderStepped(name: string, guid: Option<string>)
      requires old(providers.Valid())
      reads providers
    {
      (old(providers.Find(name)).Some? ==> unchanged(providers))
      && (old(providers.Find(name)).None? ==>
            providers.nextId == ToInt32(old(providers.nextId) + 1)
            && providers.newlyAdded
               == old(providers.newlyAdded)
                  + (if old(providers.nextId) !in old(providers.byId)
                     then [ProviderInfoRow(old(providers.nextId), name, guid)] else []))
      && (old(providers.Find(name)).None? && old(providers.nextId) in old(providers.byId) ==>
            providers.byId == old(providers.byId) && providers.byName == old(providers.byName))
    }

    /**
     * The task and operation step of MakeHeader: with a header made, both
     * caches observe its keys with the loaders of the record (or of the XML
     * form, for None); without one, neither
     * changes. The stored rows behind them are never touched.
     */
    twostate predicate CachesStepped(h: Result<EventHeaderRow>, record: Option<EventLogRecord>)
      reads tasks.rows.Front, tasks.rows.Backing, operations.rows.Front, operations.rows.Backing
    {
      var taskLoader := TaskLoaderOf(record);
      var operationLoader := OperationLoaderOf(record);
      (h.Ok? ==>
         tasks.NewRows()
         == TaskRowsAfter(old(tasks.NewRows()), h.value,
                          LoadedRevision(old(TaskDescriptionOf(tasks.Find(h.value.TaskKey()))), taskLoader))
         && operations.NewRows()
            == OperationRowsAfter(old(operations.NewRows()), h.value,
                                  LoadedRevision(old(OperationDescriptionOf(operations.FindHeader(h.value))), operationLoader)))
      && (h.Err? ==> tasks.NewRows() == old(tasks.NewRows()) && operations.NewRows() == old(operations.NewRows()))
      && (tasks.rows.Backing != null ==> tasks.rows.Backing.items == old(tasks.rows.Backing.items))
      && (operations.rows.Backing != null ==> operations.rows.Backing.items == old(operations.rows.Backing.items))
    }

    /**
     * MakeHeaderFromEventLogRecord. The provider is resolved first, so a
     * record that then fails (no RecordId, no TimeCreated, an unspecified
     * time kind) still leaves its provider registered. A header that is
     * returned refers to a known provider, task and operation.
     */
    method MakeHeaderFromEventLogRecord(elr: EventLogRecord, localToUtc: int -> int) returns (r: Result<EventHeaderRow>)
      requires Valid()
      modifies providers, tasks.rows.Front, operations.rows.Front
      ensures Valid()
      ensures ProviderStepped(elr.providerName, elr.providerGuid)
      ensures old(providers.Find(elr.providerName)).None? && old(providers.nextId) in old(providers.byId) ==>
                r == Err(InvalidOperation)
      ensures r == HeaderMade(elr, localToUtc)
      ensures r.Ok? ==> providers.Find(elr.providerName).Some?
                        && r == HeaderOf(elr, providers.Find(elr.providerName).value.providerId, localToUtc)
      ensures r.Ok? ==> providers.FindById(r.value.providerId).Some?
                        && providers.FindById(r.value.providerId) == providers.Find(elr.providerName)
                        && tasks.Find(r.value.TaskKey()).Some? && operations.FindHeader(r.value).Some?
      ensures CachesStepped(r, Some(elr))
    {
      var prvid :- ResolveProvider(elr.providerName, elr.providerGuid);
      var ehr :- HeaderOf(elr, prvid, localToUtc);
      assert tasks.Find(ehr.TaskKey()) == old(tasks.Find(ehr.TaskKey()));
      assert operations.FindHeader(ehr) == old(operations.FindHeader(ehr));
      RegisterKeys(ehr, TaskLoader(elr), OperationLoader(elr));
      return Ok(ehr);
    }

    /**
     * MakeHeaderFromXml: as above, but the XML form carries no display names,
     * so the loaders answer null: by NoBackfill, a new task or operation gets
     * a row without description, and a known one is never revised.
     */
    method MakeHeaderFromXml(xed: XmlEventFields, localToUtc: int -> int) returns (r: Result<EventHeaderRow>)
      requires Valid()
      modifies providers, tasks.rows.Front, operations.rows.Front
      ensures Valid()
      ensures ProviderStepped(xed.provider, xed.providerGuid)
      ensures old(providers.Find(xed.provider)).None? && old(providers.nextId) in old(providers.byId) ==>
                r == Err(InvalidOperation)
      ensures r == HeaderMadeFromXml(xed, localToUtc)
      ensures r.Ok? ==> providers.Find(xed.provider).Some?
                        && r == HeaderOfXml(xed, providers.Find(xed.provider).value.providerId, localToUtc)
      ensures r.Ok? ==> providers.FindById(r.value.providerId).Some?
                        && tasks.Find(r.value.TaskKey()).Some? && operations.FindHeader(r.value).Some?
      ensures CachesStepped(r, None)
    {
      var prvid :- ResolveProvider(xed.provider, xed.providerGuid);
      var ehr :- HeaderOfXml(xed, prvid, localToUtc);
      assert tasks.Find(ehr.TaskKey()) == old(tasks.Find(ehr.TaskKey()));
      assert operations.FindHeader(ehr) == old(operations.FindHeader(ehr));
      RegisterKeys(ehr, NoDescription, NoDescription);
      return Ok(ehr);
    }
  }
}
