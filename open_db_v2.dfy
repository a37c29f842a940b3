/*
 * The tables of a V2 event database (Lcl.EventLog/Jobs/Database/OpenDbV2.cs)
 * as an abstract store, with the uniqueness its schema declares: ProviderInfo
 * by id and by name, TaskInfo by its four ids, OperationInfo by its five,
 * EventXml and EventHeader by record id. An insert that would break one of
 * these fails with a constraint violation and changes nothing.
 *
 * InsertProviderInfoRow, InsertTaskInfoRow, InsertOperationInfoRow,
 * InsertEvent and the All*Rows queries are used by the import job but
 * their source is not available; they are assumed to be plain inserts into
 * these tables and plain reads of them.
 */
module OpenDbV2 {
  import opened Common
  import opened Rows
  import opened KeyedMaps

  datatype StoreV2 = StoreV2(providers: map<int, ProviderInfoRow>,
                             taskInfos: map<TaskKey, TaskInfoRow>,
                             operationInfos: map<OperationKey, OperationInfoRow>,
                             xmls: map<int, string>,
                             headers: map<int, EventHeaderRow>)

  /** Every row sits under its own key, and no two providers share a name. */
  ghost predicate StoreValid(s: StoreV2)
  {
    KeyConsistent(s.providers, ProviderIdOf) && KeyConsistent(s.taskInfos, TaskKeyOf)
    && KeyConsistent(s.operationInfos, OperationKeyOf)
    && (forall rid :: rid in s.headers ==> s.headers[rid].recordId == rid)
    && (forall a, b :: a in s.providers && b in s.providers && s.providers[a].providerName == s.providers[b].providerName
          ==> a == b)
  }

  const EmptyStore: StoreV2 := StoreV2(map[], map[], map[], map[], map[])

  predicate NameInUse(s: StoreV2, name: string)
  {
    exists id :: id in s.providers && s.providers[id].providerName == name
  }

  /** INSERT INTO ProviderInfo: fails when the id or the name is taken. */
  function InsertProviderInfoRow(s: StoreV2, row: ProviderInfoRow): (r: Result<StoreV2>)
    ensures r.Ok? <==> row.providerId !in s.providers && !NameInUse(s, row.providerName)
    ensures r.Err? ==> r.error == ConstraintViolation
    ensures r.Ok? ==> r.value == s.(providers := s.providers[row.providerId := row])
    ensures r.Ok? && StoreValid(s) ==> StoreValid(r.value)
  {
    if row.providerId in s.providers || NameInUse(s, row.providerName) then Err(ConstraintViolation)
    else Ok(s.(providers := s.providers[row.providerId := row]))
  }

  /** A plain INSERT into a table keyed by its primary key: fails when the key is taken. */
  function InsertKeyed<K, V>(table: map<K, V>, keyOf: V -> K, row: V): (r: Result<map<K, V>>)
    ensures r.Ok? <==> keyOf(row) !in table
    ensures r.Err? ==> r.error == ConstraintViolation
    ensures r.Ok? ==> r.value == table[keyOf(row) := row]
  {
    if keyOf(row) in table then Err(ConstraintViolation) else Ok(table[keyOf(row) := row])
  }

  /** INSERT INTO TaskInfo: fails when a row with the same four ids exists. */
  function InsertTaskInfoRow(s: StoreV2, row: TaskInfoRow): (r: Result<StoreV2>)
    ensures r.Ok? <==> row.Key() !in s.taskInfos
    ensures r.Err? ==> r.error == ConstraintViolation
    ensures r.Ok? ==> r.value == s.(taskInfos := s.taskInfos[row.Key() := row])
    ensures r.Ok? && StoreValid(s) ==> StoreValid(r.value)
  {
    var table :- InsertKeyed(s.taskInfos, TaskKeyOf, row);
    Ok(s.(taskInfos := table))
  }

  /** INSERT INTO OperationInfo: fails when a row with the same five ids exists. */
  function InsertOperationInfoRow(s: StoreV2, row: OperationInfoRow): (r: Result<StoreV2>)
    ensures r.Ok? <==> row.Key() !in s.operationInfos
    ensures r.Err? ==> r.error == ConstraintViolation
    ensures r.Ok? ==> r.value == s.(operationInfos := s.operationInfos[row.Key() := row])
    ensures r.Ok? && StoreValid(s) ==> StoreValid(r.value)
  {
    var table :- InsertKeyed(s.operationInfos, OperationKeyOf, row);
    Ok(s.(operationInfos := table))
  }

  /**
   * A foreach loop of inserts over the rows of a keyed map: it gets through
   * exactly when none of the keys is taken, and then adds every row. The
   * order of the rows is left open; it decides only which insert fails.
   */
  method InsertEach<K, V>(table: map<K, V>, keyOf: V -> K, rows: map<K, V>) returns (r: Result<map<K, V>>)
    requires KeyConsistent(rows, keyOf)
    ensures r.Ok? <==> rows.Keys !! table.Keys
    ensures r.Err? ==> r.error == ConstraintViolation
    ensures r.Ok? ==> r.value == table + rows
  {
    var items := Listing(rows, keyOf);
    var t := table;
    var i := 0;
    while i < |items|
      invariant 0 <= i <= |items|
      invariant t == table + PutAll(map[], keyOf, items[..i])
      invariant forall j :: 0 <= j < i ==> keyOf(items[j]) !in table
    {
      var next := InsertKeyed(t, keyOf, items[i]);
      if next.Err? {
        PutAllOtherKeys(map[], keyOf, items[..i], keyOf(items[i]));
        assert keyOf(items[i]) in table && keyOf(items[i]) in rows;
        return next;
      }
      PutAllStep(map[], keyOf, items, i);
      t := next.value;
      i := i + 1;
    }
    assert items[..i] == items;
    PutAllKeys(map[], keyOf, items);
    return Ok(t);
  }

  /** InsertEvent(header, xml): the header and the XML go in under the same record id, which must be new to both tables. */
  function InsertEvent(s: StoreV2, ehr: EventHeaderRow, xml: string): (r: Result<StoreV2>)
    ensures r.Ok? <==> ehr.recordId !in s.headers && ehr.recordId !in s.xmls
    ensures r.Err? ==> r.error == ConstraintViolation
    ensures r.Ok? ==> r.value.headers == s.headers[ehr.recordId := ehr] && r.value.xmls == s.xmls[ehr.recordId := xml]
    ensures r.Ok? ==> r.value.providers == s.providers && r.value.taskInfos == s.taskInfos
                      && r.value.operationInfos == s.operationInfos
    ensures r.Ok? && StoreValid(s) ==> StoreValid(r.value)
  {
    if ehr.recordId in s.headers || ehr.recordId in s.xmls then Err(ConstraintViolation)
    else Ok(s.(headers := s.headers[ehr.recordId := ehr], xmls := s.xmls[ehr.recordId := xml]))
  }

  /** Inserting provider rows one after the other, stopping at the first that fails. */
  function InsertProviders(s: StoreV2, rows: seq<ProviderInfoRow>): (r: Result<StoreV2>)
    ensures r.Ok? ==> r.value.taskInfos == s.taskInfos && r.value.operationInfos == s.operationInfos
                      && r.value.xmls == s.xmls && r.value.headers == s.headers
    ensures r.Ok? ==> r.value.providers == PutAll(s.providers, ProviderIdOf, rows)
    ensures r.Ok? && StoreValid(s) ==> StoreValid(r.value)
    ensures r.Err? ==> r.error == ConstraintViolation
  {
    if rows == [] then Ok(s)
    else
      var front :- InsertProviders(s, rows[..|rows| - 1]);
      InsertProviderInfoRow(front, rows[|rows| - 1])
  }

  /** Adding task and operation rows, each under its own key, keeps the store valid. */
  lemma AddRowsValid(s: StoreV2, taskRows: map<TaskKey, TaskInfoRow>, operationRows: map<OperationKey, OperationInfoRow>)
    requires StoreValid(s) && KeyConsistent(taskRows, TaskKeyOf) && KeyConsistent(operationRows, OperationKeyOf)
    ensures StoreValid(s.(taskInfos := s.taskInfos + taskRows, operationInfos := s.operationInfos + operationRows))
  {
  }

  /** Once a prefix of the rows fails to go in, the whole sequence fails. */
  lemma {:induction false} InsertProvidersPrefixFails(s: StoreV2, rows: seq<ProviderInfoRow>, k: nat)
    requires k <= |rows| && InsertProviders(s, rows[..k]).Err?
    ensures InsertProviders(s, rows).Err?
    decreases |rows| - k
  {
    if k < |rows| {
      InsertProvidersNextFails(s, rows, k);
      InsertProvidersPrefixFails(s, rows, k + 1);
    } else {
      assert rows[..k] == rows;
    }
  }

  /** A failure of a prefix is a failure of the prefix one row longer. */
  lemma InsertProvidersNextFails(s: StoreV2, rows: seq<ProviderInfoRow>, k: nat)
    requires k < |rows| && InsertProviders(s, rows[..k]).Err?
    ensures InsertProviders(s, rows[..k + 1]).Err?
  {
    assert rows[..k + 1][..k] == rows[..k];
  }

  /** AllProviderInfoRows: every ProviderInfo row. */
  method AllProviderInfoRows(s: StoreV2) returns (rows: seq<ProviderInfoRow>)
    requires StoreValid(s)
    ensures PutAll(map[], ProviderIdOf, rows) == s.providers
    ensures forall i :: 0 <= i < |rows| ==> rows[i].providerId in s.providers && s.providers[rows[i].providerId] == rows[i]
    ensures forall i, j :: 0 <= i < j < |rows| ==> rows[i].providerId != rows[j].providerId
  {
    rows := Listing(s.providers, ProviderIdOf);
  }

  /** AllTaskInfoRows: every TaskInfo row. */
  method AllTaskInfoRows(s: StoreV2) returns (rows: seq<TaskInfoRow>)
    requires StoreValid(s)
    ensures PutAll(map[], TaskKeyOf, rows) == s.taskInfos
  {
    rows := Listing(s.taskInfos, TaskKeyOf);
  }

  /** AllOperationInfoRows: every OperationInfo row. */
  method AllOperationInfoRows(s: StoreV2) returns (rows: seq<OperationInfoRow>)
    requires StoreValid(s)
    ensures PutAll(map[], OperationKeyOf, rows) == s.operationInfos
  {
    rows := Listing(s.operationInfos, OperationKeyOf);
  }
}
