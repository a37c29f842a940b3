/*
 * The in-memory caches of the V2 dimension tables
 * (Lcl.EventLog/Jobs/Database/ProviderInfoCache.cs, TaskInfoCache.cs and
 * OperationInfoCache.cs). Task and operation rows live in a BackedMap whose
 * backing map holds the rows read from the database and whose front holds
 * the rows observed since: NewRows is the front alone.
 */
module InfoCaches {
  import opened Common
  import opened Rows
  import opened KeyedMaps
  import opened OpenDbV2

  /*
   * Description revision, shared by the Observe operations. `found` is the
   * description of the row already known for the key (None: no such row).
   * The result is the description of the row to put, or None when Observe
   * leaves the map alone: an unknown key always gets a row, a known key only
   * when a non-null description differs from the stored one. The stored
   * description is `description ?? found`, which in every case that stores
   * is the given description itself.
   */
  function Revision(found: Option<Option<string>>, description: Option<string>): (r: Option<Option<string>>)
    ensures r.Some? <==> found.None? || (description.Some? && found.value != description)
    ensures r.Some? ==> r.value == description
  {
    if found.None? || (description.Some? && found.value != description) then
      Some(if description.Some? then description else Flatten(found))
    else None
  }

  /** A second Observe with the same description changes nothing; a null description never erases one. */
  lemma RevisionSettles(found: Option<Option<string>>, description: Option<string>)
    ensures Revision(found, description).Some? ==> Revision(Some(description), description).None?
    ensures found.Some? && description.None? ==> Revision(found, description).None?
  {
  }

  /** The loader runs only for an unknown key or a row whose description was never looked up. */
  predicate LoaderInvoked(found: Option<Option<string>>)
  {
    found.None? || found.value.None?
  }

  /**
   * The revision of Observe(header, loader): when the loader is invoked, its
   * answer is revised in as above; a row that already has a description is
   * left alone without calling it.
   */
  function LoadedRevision(found: Option<Option<string>>, loader: () -> Option<string>): (r: Option<Option<string>>)
    ensures r.Some? <==> found.None? || (found.value.None? && loader().Some?)
    ensures r.Some? ==> LoaderInvoked(found) && r.value == loader()
  {
    if LoaderInvoked(found) then Revision(found, loader()) else None
  }

  /** A known row keeps its description when the loader answers null. */
  lemma LoadedRevisionKeeps(found: Option<Option<string>>, loader: () -> Option<string>)
    requires found.Some? && loader().None?
    ensures LoadedRevision(found, loader).None?
  {
  }


  function TaskDescriptionOf(r: Option<TaskInfoRow>): Option<Option<string>>
  {
    if r.None? then None else Some(r.value.taskDescription)
  }

  function OperationDescriptionOf(r: Option<OperationInfoRow>): Option<Option<string>>
  {
    if r.None? then None else Some(r.value.operationDescription)
  }

  /** C#'s `row?.Description`: null for a missing row and for a row without description. */
  function Flatten(d: Option<Option<string>>): (r: Option<string>)
    ensures r.Some? <==> d.Some? && d.value.Some?
  {
    if d.None? then None else d.value
  }

  /** The new-row map after Observe(header, loader) with revision `rev` for the header's task key. */
  function TaskRowsAfter(rows: map<TaskKey, TaskInfoRow>, ehr: EventHeaderRow, rev: Option<Option<string>>)
    : map<TaskKey, TaskInfoRow>
  {
    if rev.Some? then rows[ehr.TaskKey() := TaskInfoRow(ehr.eventId, ehr.eventVersion, ehr.taskId, ehr.providerId, rev.value)]
    else rows
  }

  /** The same for the header's operation key. */
  function OperationRowsAfter(rows: map<OperationKey, OperationInfoRow>, ehr: EventHeaderRow,
                              rev: Option<Option<string>>): map<OperationKey, OperationInfoRow>
  {
    if rev.Some? then
      rows[ehr.OperationKey() := OperationInfoRow(ehr.eventId, ehr.eventVersion, ehr.taskId, ehr.providerId, ehr.operationId, rev.value)]
    else rows
  }

  class TaskInfoCache {
    const rows: BackedMap<TaskKey, TaskInfoRow>

    ghost predicate Valid()
      reads rows.Front, rows.Backing
    {
      rows.Valid() && rows.KeyOf == TaskKeyOf && rows.Backing != null
    }

    /** The existing rows (last one wins per key) back an empty front. */
    constructor (existingRows: seq<TaskInfoRow>)
      ensures Valid() && fresh(rows.Front) && fresh(rows.Backing)
      ensures NewRows() == map[]
      ensures rows.Backing.items == PutAll(map[], TaskKeyOf, existingRows)
    {
      var backing := new KeyedMap(TaskKeyOf, existingRows);
      rows := new BackedMap(TaskKeyOf, backing, []);
    }

    /**
     * FromDb: a cache over the TaskInfo rows of the database. Its source is not
     * available; it is assumed to follow the operation cache's.
     */
    static method FromDb(odb: StoreV2) returns (c: TaskInfoCache)
      requires StoreValid(odb)
      ensures fresh(c.rows.Front) && fresh(c.rows.Backing) && c.Valid()
      ensures c.NewRows() == map[] && c.rows.Backing.items == odb.taskInfos
    {
      var existing := AllTaskInfoRows(odb);
      c := new TaskInfoCache(existing);
    }

    /** The rows observed since construction (new rows and revised ones). */
    function NewRows(): map<TaskKey, TaskInfoRow>
      reads rows.Front
    {
      rows.Items()
    }

    /** An observed row if there is one, else a pre-existing row, else None. */
    function Find(key: TaskKey): (r: Option<TaskInfoRow>)
      reads rows.Front, rows.Backing
      ensures key in NewRows() ==> r == Some(NewRows()[key])
      ensures key !in NewRows() ==> r == rows.BackingFind(key)
      ensures Valid() && r.Some? ==> r.value.Key() == key
    {
      rows.Find(key)
    }

    /** The description stored for the key; None for an unknown key. */
    function TaskDescription(key: TaskKey): (r: Option<string>)
      reads rows.Front, rows.Backing
      ensures Find(key).None? ==> r.None?
      ensures Find(key).Some? ==> r == Find(key).value.taskDescription
    {
      Flatten(TaskDescriptionOf(Find(key)))
    }

    method Observe(eid: int, ever: int, task: int, prvid: int, description: Option<string>)
      requires Valid()
      modifies rows.Front
      ensures Valid()
      ensures var rev := Revision(old(TaskDescriptionOf(Find((eid, ever, task, prvid)))), description);
              NewRows() == if rev.Some? then old(NewRows())[(eid, ever, task, prvid) := TaskInfoRow(eid, ever, task, prvid, rev.value)]
                           else old(NewRows())
      ensures Find((eid, ever, task, prvid)).Some?
      ensures TaskDescription((eid, ever, task, prvid))
              == if description.Some? then description else old(TaskDescription((eid, ever, task, prvid)))
      ensures rows.Backing.items == old(rows.Backing.items)
    {
      var found := Find((eid, ever, task, prvid));
      var rev := Revision(TaskDescriptionOf(found), description);
      if rev.Some? {
        rows.Put(TaskInfoRow(eid, ever, task, prvid, rev.value));
      }
    }

    /**
     * Observe(header, loader), the overload the ingestion calls. Its source is
     * not available; it is assumed to follow the operation cache's
     * overload. Answers whether the loader was invoked.
     */
    method ObserveHeader(ehr: EventHeaderRow, loader: () -> Option<string>) returns (invoked: bool)
      requires Valid()
      modifies rows.Front
      ensures Valid()
      ensures invoked == LoaderInvoked(old(TaskDescriptionOf(Find(ehr.TaskKey()))))
      ensures NewRows() == TaskRowsAfter(old(NewRows()), ehr, LoadedRevision(old(TaskDescriptionOf(Find(ehr.TaskKey()))), loader))
      ensures Find(ehr.TaskKey()).Some?
      ensures rows.Backing.items == old(rows.Backing.items)
    {
      var found := Find(ehr.TaskKey());
      invoked := LoaderInvoked(TaskDescriptionOf(found));
      if invoked {
        var description := loader();
        var rev := Revision(TaskDescriptionOf(found), description);
        if rev.Some? {
          rows.Put(TaskInfoRow(ehr.eventId, ehr.eventVersion, ehr.taskId, ehr.providerId, rev.value));
        }
      }
    }
  }

  class OperationInfoCache {
    const rows: BackedMap<OperationKey, OperationInfoRow>

    ghost predicate Valid()
      reads rows.Front, rows.Backing
    {
      rows.Valid() && rows.KeyOf == OperationKeyOf && rows.Backing != null
    }

    constructor (existingRows: seq<OperationInfoRow>)
      ensures Valid() && fresh(rows.Front) && fresh(rows.Backing)
      ensures NewRows() == map[]
      ensures rows.Backing.items == PutAll(map[], OperationKeyOf, existingRows)
    {
      var backing := new KeyedMap(OperationKeyOf, existingRows);
      rows := new BackedMap(OperationKeyOf, backing, []);
    }

    /** FromDb: a cache over the OperationInfo rows of the database. */
    static method FromDb(odb: StoreV2) returns (c: OperationInfoCache)
      requires StoreValid(odb)
      ensures fresh(c.rows.Front) && fresh(c.rows.Backing) && c.Valid()
      ensures c.NewRows() == map[] && c.rows.Backing.items == odb.operationInfos
    {
      var existing := AllOperationInfoRows(odb);
      c := new OperationInfoCache(existing);
    }

    function NewRows(): map<OperationKey, OperationInfoRow>
      reads rows.Front
    {
      rows.Items()
    }

    function Find(key: OperationKey): (r: Option<OperationInfoRow>)
      reads rows.Front, rows.Backing
      ensures key in NewRows() ==> r == Some(NewRows()[key])
      ensures key !in NewRows() ==> r == rows.BackingFind(key)
      ensures Valid() && r.Some? ==> r.value.Key() == key
    {
      rows.Find(key)
    }

    /** Find(IOperationInfoKey): the lookup by the five key fields of a header. */
    function FindHeader(ehr: EventHeaderRow): (r: Option<OperationInfoRow>)
      reads rows.Front, rows.Backing
      ensures r == Find(ehr.OperationKey())
      ensures Valid() && r.Some? ==> r.value.TaskKey() == ehr.TaskKey() && r.value.operationId == ehr.operationId
    {
      Find((ehr.eventId, ehr.eventVersion, ehr.taskId, ehr.providerId, ehr.operationId))
    }

    /** The (misnamed) TaskDescription accessor: the operation description, None for an unknown key. */
    function TaskDescription(key: OperationKey): (r: Option<string>)
      reads rows.Front, rows.Backing
      ensures Find(key).None? ==> r.None?
      ensures Find(key).Some? ==> r == Find(key).value.operationDescription
    {
      Flatten(OperationDescriptionOf(Find(key)))
    }

    method Observe(eid: int, ever: int, task: int, prvid: int, opid: int, description: Option<string>)
      requires Valid()
      requires IsInt32(eid) && IsInt32(ever) && IsInt32(task) && IsInt32(prvid) && IsInt32(opid)
      modifies rows.Front
      ensures Valid()
      ensures var rev := Revision(old(OperationDescriptionOf(Find((eid, ever, task, prvid, opid)))), description);
              NewRows() == if rev.Some? then old(NewRows())[(eid, ever, task, prvid, opid) := OperationInfoRow(eid, ever, task, prvid, opid, rev.value)]
                           else old(NewRows())
      ensures Find((eid, ever, task, prvid, opid)).Some?
      ensures TaskDescription((eid, ever, task, prvid, opid))
              == if description.Some? then description else old(TaskDescription((eid, ever, task, prvid, opid)))
      ensures rows.Backing.items == old(rows.Backing.items)
    {
      var found := Find((eid, ever, task, prvid, opid));
      var rev := Revision(OperationDescriptionOf(found), description);
      if rev.Some? {
        rows.Put(NewOperationInfoRow(eid, ever, task, prvid, opid, rev.value));
      }
    }

    /**
     * Observe(header, loader): the loader is called only for an unknown key
     * or a row without description; a row is put when the key is unknown or
     * the loader found a description. Answers whether the loader was invoked.
     */
    method ObserveHeader(ehr: EventHeaderRow, loader: () -> Option<string>) returns (invoked: bool)
      requires Valid()
      requires IsInt32(ehr.eventId) && IsInt32(ehr.eventVersion) && IsInt32(ehr.taskId)
      requires IsInt32(ehr.providerId) && IsInt32(ehr.operationId)
      modifies rows.Front
      ensures Valid()
      ensures invoked == LoaderInvoked(old(OperationDescriptionOf(FindHeader(ehr))))
      ensures NewRows() == OperationRowsAfter(old(NewRows()), ehr, LoadedRevision(old(OperationDescriptionOf(FindHeader(ehr))), loader))
      ensures FindHeader(ehr).Some?
      ensures rows.Backing.items == old(rows.Backing.items)
    {
      var found := FindHeader(ehr);
      invoked := LoaderInvoked(OperationDescriptionOf(found));
      if invoked {
        var description := loader();
        var rev := Revision(OperationDescriptionOf(found), description);
        if rev.Some? {
          rows.Put(NewOperationInfoRow(ehr.eventId, ehr.eventVersion, ehr.taskId, ehr.providerId, ehr.operationId, rev.value));
        }
      }
    }
  }

  /** No two rows share an id or a name. */
  predicate DistinctProviders(rows: seq<ProviderInfoRow>)
  {
    DistinctUpTo(rows, |rows|)
  }

  /** No two of the first n rows share an id or a name. */
  predicate DistinctUpTo(rows: seq<ProviderInfoRow>, n: int)
    requires n <= |rows|
  {
    forall i, j :: 0 <= i < j < n ==>
      rows[i].providerId != rows[j].providerId && rows[i].providerName != rows[j].providerName
  }

  /** The largest provider id of a non-empty list. */
  function MaxId(rows: seq<ProviderInfoRow>): (m: int)
    requires |rows| > 0
    ensures forall i :: 0 <= i < |rows| ==> rows[i].providerId <= m
    ensures exists i :: 0 <= i < |rows| && rows[i].providerId == m
  {
    if |rows| == 1 then rows[0].providerId
    else
      var m := MaxId(rows[1..]);
      assert rows[1..][0] == rows[1];
      if rows[0].providerId >= m then rows[0].providerId else m
  }

  /** The first id to hand out: 1 for no rows, else one more than the largest id (int arithmetic). */
  function InitialNextId(rows: seq<ProviderInfoRow>): (n: int)
    ensures IsInt32(n)
    ensures |rows| > 0 && MaxId(rows) < Int32Max ==> forall i :: 0 <= i < |rows| ==> rows[i].providerId < n
  {
    if |rows| == 0 then 1 else ToInt32(MaxId(rows) + 1)
  }

  /** Every id put into a fresh index from rows lies below the first id handed out after them. */
  lemma IdsBelowInitial(rows: seq<ProviderInfoRow>)
    requires |rows| > 0 && MaxId(rows) < Int32Max
    ensures forall id :: id in PutAll(map[], ProviderIdOf, rows) ==> id < InitialNextId(rows)
  {
    PutAllKeys(map[], ProviderIdOf, rows);
    forall id | id in PutAll(map[], ProviderIdOf, rows)
      ensures id < InitialNextId(rows)
    {
      var j :| 0 <= j < |rows| && ProviderIdOf(rows[j]) == id;
    }
  }

  /** The by-id and by-name indexes hold the same rows, each under its own id and its own name. */
  ghost predicate Indexed(byId: map<int, ProviderInfoRow>, byName: map<string, ProviderInfoRow>)
  {
    (forall id :: id in byId ==>
       byId[id].providerId == id && byId[id].providerName in byName && byName[byId[id].providerName] == byId[id])
    && (forall name :: name in byName ==>
          byName[name].providerName == name && byName[name].providerId in byId
          && byId[byName[name].providerId] == byName[name])
    && |byId| == |byName|
  }

  /** Add's effect on the two indexes: None (an InvalidOperationException) when the id or the name is in use. */
  function AddRow(byId: map<int, ProviderInfoRow>, byName: map<string, ProviderInfoRow>, row: ProviderInfoRow)
    : (r: Option<(map<int, ProviderInfoRow>, map<string, ProviderInfoRow>)>)
    ensures r.Some? <==> row.providerId !in byId && row.providerName !in byName
    ensures r.Some? ==> r.value.0 == byId[row.providerId := row] && r.value.1 == byName[row.providerName := row]
  {
    if row.providerId in byId || row.providerName in byName then None
    else Some((byId[row.providerId := row], byName[row.providerName := row]))
  }

  /** Adding a row keeps the indexes in agreement. */
  lemma AddRowIndexed(byId: map<int, ProviderInfoRow>, byName: map<string, ProviderInfoRow>, row: ProviderInfoRow)
    requires Indexed(byId, byName)
    requires AddRow(byId, byName, row).Some?
    ensures Indexed(AddRow(byId, byName, row).value.0, AddRow(byId, byName, row).value.1)
  {
    var (ids, names) := AddRow(byId, byName, row).value;
    forall name | name in names
      ensures names[name].providerName == name && names[name].providerId in ids
              && ids[names[name].providerId] == names[name]
    {
      if name != row.providerName {
        assert names[name] == byName[name];
        assert byName[name].providerId != row.providerId;
      }
    }
  }

  class ProviderInfoCache {
    var byId: map<int, ProviderInfoRow>
    var byName: map<string, ProviderInfoRow>
    var newlyAdded: seq<ProviderInfoRow>
    var nextId: int

    /** The indexes agree, every newly added row is known, and the id counter is an int. */
    ghost predicate Valid()
      reads this
    {
      Indexed(byId, byName)
      && (forall i :: 0 <= i < |newlyAdded| ==>
            newlyAdded[i].providerId in byId && byId[newlyAdded[i].providerId] == newlyAdded[i])
      && IsInt32(nextId)
    }

    /** Every id in use lies below the next id to hand out; this holds until the counter wraps around. */
    ghost predicate IdsBelowNext()
      reads this
    {
      forall id :: id in byId ==> id < nextId
    }

    constructor Init(ids: map<int, ProviderInfoRow>, names: map<string, ProviderInfoRow>, next: int)
      requires Indexed(ids, names) && IsInt32(next)
      ensures Valid() && byId == ids && byName == names && newlyAdded == [] && nextId == next
    {
      byId, byName, newlyAdded, nextId := ids, names, [], next;
    }

    /**
     * The cache constructor: adds every existing row, failing on a repeated id
     * or name; the next id is 1 for no rows, else one more than the largest id
     * (with int wrap-around).
     */
    static method New(existing: seq<ProviderInfoRow>) returns (r: Result<ProviderInfoCache>)
      ensures r.Ok? <==> DistinctProviders(existing)
      ensures r.Err? ==> r.error == InvalidOperation
      ensures r.Ok? ==> fresh(r.value) && r.value.Valid() && r.value.newlyAdded == []
      ensures r.Ok? ==> forall i :: 0 <= i < |existing| ==> r.value.FindById(existing[i].providerId) == Some(existing[i])
      ensures r.Ok? ==> forall i :: 0 <= i < |existing| ==> r.value.Find(existing[i].providerName) == Some(existing[i])
      ensures r.Ok? ==> r.value.Count() == |existing|
      ensures r.Ok? ==> r.value.nextId == InitialNextId(existing)
      ensures r.Ok? ==> r.value.byId == PutAll(map[], ProviderIdOf, existing)
      ensures r.Ok? && (existing == [] || MaxId(existing) < Int32Max) ==> r.value.IdsBelowNext()
    {
      var ids: map<int, ProviderInfoRow>, names: map<string, ProviderInfoRow> := map[], map[];
      var i := 0;
      while i < |existing|
        invariant 0 <= i <= |existing|
        invariant Indexed(ids, names) && |ids| == i
        invariant DistinctUpTo(existing, i)
        invariant ids == PutAll(map[], ProviderIdOf, existing[..i])
        invariant names == PutAll(map[], ProviderNameOf, existing[..i])
      {
        var row := existing[i];
        KeysAppend(existing, i);
        var added := AddRow(ids, names, row);
        if added.None? {
          DuplicateFound(existing, i);
          return Err(InvalidOperation);
        }
        AddRowIndexed(ids, names, row);
        PutAllStep(map[], ProviderIdOf, existing, i);
        PutAllStep(map[], ProviderNameOf, existing, i);
        assert ProviderIdOf(row) == row.providerId && ProviderNameOf(row) == row.providerName;
        ids, names := added.value.0, added.value.1;
        i := i + 1;
      }
      assert existing[..i] == existing;
      forall j | 0 <= j < |existing|
        ensures existing[j].providerId in ids && ids[existing[j].providerId] == existing[j]
        ensures existing[j].providerName in names && names[existing[j].providerName] == existing[j]
      {
        PutAllLastWins(map[], ProviderIdOf, existing, j);
        PutAllLastWins(map[], ProviderNameOf, existing, j);
      }
      if existing != [] && MaxId(existing) < Int32Max {
        IdsBelowInitial(existing);
      }
      var c := new ProviderInfoCache.Init(ids, names, InitialNextId(existing));
      return Ok(c);
    }

    /**
     * FromDb: a cache over the ProviderInfo rows of the database. Its source is
     * not available; it is assumed to hand all rows to the constructor.
     * The schema keeps ids and names unique, so it never fails.
     */
    static method FromDb(odb: StoreV2) returns (r: Result<ProviderInfoCache>)
      requires StoreValid(odb)
      ensures r.Ok? && fresh(r.value) && r.value.Valid() && r.value.newlyAdded == []
      ensures r.Ok? ==> r.value.byId == odb.providers
      ensures r.Ok? && (forall id :: id in odb.providers ==> id < Int32Max) ==> r.value.IdsBelowNext()
    {
      var rows := AllProviderInfoRows(odb);
      ListedProvidersDistinct(odb, rows);
      r := New(rows);
    }

    /** Add(row): fails, changing nothing, when the id or the name is already in use. */
    method Add(row: ProviderInfoRow) returns (ok: bool)
      requires Valid()
      modifies this
      ensures Valid()
      ensures ok <==> row.providerId !in old(byId) && row.providerName !in old(byName)
      ensures ok ==> byId == old(byId)[row.providerId := row] && byName == old(byName)[row.providerName := row]
      ensures !ok ==> byId == old(byId) && byName == old(byName)
      ensures newlyAdded == old(newlyAdded) && nextId == old(nextId)
    {
      var added := AddRow(byId, byName, row);
      if added.None? {
        return false;
      }
      AddRowIndexed(byId, byName, row);
      byId, byName := added.value.0, added.value.1;
      return true;
    }

    /**
     * Observe(name, guid): a known name with another GUID (null counting as a
     * GUID of its own) is an error; a known name with the same GUID changes
     * nothing and answers false; an unknown name gets a row with the next id,
     * is recorded as newly added and answers true. The id counter advances
     * (with int wrap-around) before the row is added, so a clash with an id in
     * use fails after the counter moved.
     */
    method Observe(name: string, guid: Option<string>) returns (r: Result<bool>)
      requires Valid()
      modifies this
      ensures Valid()
      ensures old(Find(name)).Some? && old(Find(name)).value.providerGuid != guid ==>
                r == Err(InvalidOperation) && unchanged(this)
      ensures old(Find(name)).Some? && old(Find(name)).value.providerGuid == guid ==>
                r == Ok(false) && unchanged(this)
      ensures old(Find(name)).None? ==>
                nextId == ToInt32(old(nextId) + 1)
                && newlyAdded == old(newlyAdded) + (if r.Ok? then [ProviderInfoRow(old(nextId), name, guid)] else [])
      ensures old(Find(name)).None? && old(nextId) in old(byId) ==>
                r == Err(InvalidOperation) && byId == old(byId) && byName == old(byName)
      ensures old(Find(name)).None? && old(nextId) !in old(byId) ==>
                r == Ok(true)
                && byId == old(byId)[old(nextId) := ProviderInfoRow(old(nextId), name, guid)]
                && byName == old(byName)[name := ProviderInfoRow(old(nextId), name, guid)]
      ensures r.Ok? ==> Find(name).Some? && Find(name).value.providerGuid == guid
      ensures old(IdsBelowNext()) && old(Find(name)).None? ==> r == Ok(true)
      ensures old(IdsBelowNext()) && old(nextId) < Int32Max ==> IdsBelowNext()
    {
      var existing := Find(name);
      if existing.Some? && existing.value.providerGuid != guid {
        return Err(InvalidOperation);
      }
      if existing.None? {
        var row := ProviderInfoRow(nextId, name, guid);
        nextId := ToInt32(nextId + 1);
        var ok := Add(row);
        if !ok {
          return Err(InvalidOperation);
        }
        newlyAdded := newlyAdded + [row];
        return Ok(true);
      } else {
        return Ok(false);
      }
    }

    /** Find(name): the row of that name, or None. */
    function Find(name: string): (r: Option<ProviderInfoRow>)
      reads this
      ensures r.None? <==> name !in byName
      ensures Valid() && r.Some? ==> r.value.providerName == name
    {
      if name in byName then Some(byName[name]) else None
    }

    /** Find(id): the row of that id, or None. */
    function FindById(id: int): (r: Option<ProviderInfoRow>)
      reads this
      ensures r.None? <==> id !in byId
      ensures Valid() && r.Some? ==> r.value.providerId == id
    {
      if id in byId then Some(byId[id]) else None
    }

    /** Get(name): like Find, but an unknown name is a KeyNotFoundException. */
    function Get(name: string): (r: Result<ProviderInfoRow>)
      reads this
      ensures r.Ok? <==> Find(name).Some?
      ensures r.Ok? ==> r.value == Find(name).value
      ensures r.Err? ==> r.error == KeyNotFound
    {
      if name in byName then Ok(byName[name]) else Err(KeyNotFound)
    }

    /** Get(id): like Find, but an unknown id is a KeyNotFoundException. */
    function GetById(id: int): (r: Result<ProviderInfoRow>)
      reads this
      ensures r.Ok? <==> FindById(id).Some?
      ensures r.Ok? ==> r.value == FindById(id).value
      ensures r.Err? ==> r.error == KeyNotFound
    {
      if id in byId then Ok(byId[id]) else Err(KeyNotFound)
    }

    /** Count: every known row, pre-existing and new alike; either index gives it. */
    function Count(): (n: nat)
      reads this
      ensures Valid() ==> n == |byName|
    {
      |byId|
    }
  }


  /**
   * Distinct names observed on a cache built from no rows are each new: every
   * answer is true, the rows get the ids 1, 2, ... in order of observation,
   * and the newly added rows are exactly those.
   */
  method ObserveNewNames(names: seq<string>, guids: seq<Option<string>>)
    returns (c: ProviderInfoCache, answers: seq<Result<bool>>)
    requires |guids| == |names| < Int32Max
    requires forall i, j :: 0 <= i < j < |names| ==> names[i] != names[j]
    ensures |answers| == |names| && forall i :: 0 <= i < |names| ==> answers[i] == Ok(true)
    ensures |c.newlyAdded| == |names|
    ensures forall i :: 0 <= i < |names| ==> c.newlyAdded[i] == ProviderInfoRow(i + 1, names[i], guids[i])
    ensures c.nextId == |names| + 1
    ensures c.byName.Keys == set i | 0 <= i < |names| :: names[i]
  {
    var made := ProviderInfoCache.New([]);
    c := made.value;
    answers := [];
    for i := 0 to |names|
      invariant fresh(c) && c.Valid() && c.IdsBelowNext() && c.nextId == i + 1
      invariant c.byName.Keys == set j | 0 <= j < i :: names[j]
      invariant answers == AllTrue(i)
      invariant c.newlyAdded == NumberedRows(names, guids, i)
    {
      var a := ObserveNext(c, names, guids, i);
      answers := answers + [a];
    }
  }

  /** One iteration of ObserveNewNames: the i-th name is observed and gets the id i + 1. */
  method ObserveNext(c: ProviderInfoCache, names: seq<string>, guids: seq<Option<string>>, i: nat)
    returns (a: Result<bool>)
    requires i < |guids| == |names| < Int32Max
    requires forall j, k :: 0 <= j < k < |names| ==> names[j] != names[k]
    requires c.Valid() && c.IdsBelowNext() && c.nextId == i + 1
    requires c.byName.Keys == set j | 0 <= j < i :: names[j]
    requires c.newlyAdded == NumberedRows(names, guids, i)
    modifies c
    ensures c.Valid() && c.IdsBelowNext() && c.nextId == i + 2 && a == Ok(true)
    ensures c.byName.Keys == set j | 0 <= j < i + 1 :: names[j]
    ensures c.newlyAdded == NumberedRows(names, guids, i + 1)
  {
    NameNotYetSeen(names, i);
    a := ObserveUnseen(c, names[i], guids[i]);
    NumberedRowsStep(names, guids, i);
    NamesPrefixStep(names, i);
  }

  /** i answers Ok(true). */
  function AllTrue(i: nat): (r: seq<Result<bool>>)
    ensures |r| == i && forall j :: 0 <= j < i ==> r[j] == Ok(true)
  {
    seq(i, _ => Ok(true))
  }

  /** The rows ObserveNewNames expects after i names: the j-th name and GUID under id j + 1. */
  function NumberedRows(names: seq<string>, guids: seq<Option<string>>, i: nat): (r: seq<ProviderInfoRow>)
    requires i <= |names| == |guids| < Int32Max
    ensures |r| == i && forall j :: 0 <= j < i ==> r[j] == ProviderInfoRow(j + 1, names[j], guids[j])
  {
    seq(i, j requires 0 <= j < i => ProviderInfoRow(j + 1, names[j], guids[j]))
  }

  /** One more name appends its row to the numbered rows. */
  lemma NumberedRowsStep(names: seq<string>, guids: seq<Option<string>>, i: nat)
    requires i < |names| == |guids| < Int32Max
    ensures NumberedRows(names, guids, i + 1) == NumberedRows(names, guids, i) + [ProviderInfoRow(i + 1, names[i], guids[i])]
  {
  }

  /** Among distinct names, the next one is not among those before it. */
  lemma NameNotYetSeen(names: seq<string>, i: nat)
    requires i < |names|
    requires forall a, b :: 0 <= a < b < |names| ==> names[a] != names[b]
    ensures names[i] !in (set j | 0 <= j < i :: names[j])
  {
  }

  /** The set of the first i + 1 names adds the next name to the first i. */
  lemma NamesPrefixStep(names: seq<string>, i: nat)
    requires i < |names|
    ensures (set j | 0 <= j < i + 1 :: names[j]) == (set j | 0 <= j < i :: names[j]) + {names[i]}
  {
  }

  /** One step of ObserveNewNames: an unseen name is added under the next id. */
  method ObserveUnseen(c: ProviderInfoCache, name: string, guid: Option<string>) returns (a: Result<bool>)
    requires c.Valid() && c.IdsBelowNext() && c.nextId < Int32Max && name !in c.byName
    modifies c
    ensures c.Valid() && c.IdsBelowNext() && a == Ok(true) && c.nextId == old(c.nextId) + 1
    ensures c.byName.Keys == old(c.byName.Keys) + {name}
    ensures c.newlyAdded == old(c.newlyAdded) + [ProviderInfoRow(old(c.nextId), name, guid)]
  {
    assert c.Find(name).None?;
    a := c.Observe(name, guid);
  }

  function IdsOf(rows: seq<ProviderInfoRow>): set<int>
  {
    set j | 0 <= j < |rows| :: rows[j].providerId
  }

  function NamesOf(rows: seq<ProviderInfoRow>): set<string>
  {
    set j | 0 <= j < |rows| :: rows[j].providerName
  }

  lemma KeysAppend(rows: seq<ProviderInfoRow>, i: int)
    requires 0 <= i < |rows|
    ensures PutAll(map[], ProviderIdOf, rows[..i]).Keys == IdsOf(rows[..i])
    ensures PutAll(map[], ProviderNameOf, rows[..i]).Keys == NamesOf(rows[..i])
    ensures (DistinctUpTo(rows, i) && rows[i].providerId !in IdsOf(rows[..i])
             && rows[i].providerName !in NamesOf(rows[..i])) ==> DistinctUpTo(rows, i + 1)
  {
    var a := rows[..i];
    PutAllKeys(map[], ProviderIdOf, a);
    PutAllKeys(map[], ProviderNameOf, a);
    assert (set j | 0 <= j < |a| :: ProviderIdOf(a[j])) == IdsOf(a);
    assert (set j | 0 <= j < |a| :: ProviderNameOf(a[j])) == NamesOf(a);
    DistinctStep(rows, i);
  }

  lemma DistinctStep(rows: seq<ProviderInfoRow>, i: int)
    requires 0 <= i < |rows|
    ensures (DistinctUpTo(rows, i) && rows[i].providerId !in IdsOf(rows[..i])
             && rows[i].providerName !in NamesOf(rows[..i])) ==> DistinctUpTo(rows, i + 1)
  {
    var a := rows[..i];
    forall j | 0 <= j < i
      ensures rows[j].providerId in IdsOf(a) && rows[j].providerName in NamesOf(a)
    {
      assert a[j] == rows[j];
    }
  }

  /** When Add fails at position i, an earlier row shares the id or the name of row i. */
  lemma DuplicateFound(rows: seq<ProviderInfoRow>, i: int)
    requires 0 <= i < |rows|
    requires rows[i].providerId in IdsOf(rows[..i]) || rows[i].providerName in NamesOf(rows[..i])
    ensures !DistinctProviders(rows)
  {
    var a := rows[..i];
    if rows[i].providerId in IdsOf(a) {
      var j :| 0 <= j < i && a[j].providerId == rows[i].providerId;
      assert rows[j].providerId == rows[i].providerId;
    } else {
      var j :| 0 <= j < i && a[j].providerName == rows[i].providerName;
      assert rows[j].providerName == rows[i].providerName;
    }
  }

  /** The rows of a consistent ProviderInfo table, listed in any order, share no id and no name. */
  lemma ListedProvidersDistinct(odb: StoreV2, rows: seq<ProviderInfoRow>)
    requires StoreValid(odb)
    requires forall i :: 0 <= i < |rows| ==> rows[i].providerId in odb.providers && odb.providers[rows[i].providerId] == rows[i]
    requires forall i, j :: 0 <= i < j < |rows| ==> rows[i].providerId != rows[j].providerId
    ensures DistinctProviders(rows)
  {
    forall i, j | 0 <= i < j < |rows| ensures rows[i].providerName != rows[j].providerName {
      var a, b := rows[i].providerId, rows[j].providerId;
      assert odb.providers[a] == rows[i] && odb.providers[b] == rows[j];
    }
  }
}
