/*
 * The V1 event database (Lcl.EventLog/Jobs/Database/RawEventDb.cs): the
 * guards of its constructor and of Open, the three tables an import writes
 * (Events, Tasks, EventState) as an abstract store, the insert statements
 * with their conflict handling, and the WHERE clause of ReadEventsTicks.
 *
 * The SQL engine is replaced by maps keyed by each table's primary key; a
 * statement is a function from tables to tables (or to the error the
 * engine raises). The file system is reduced to the facts Open consults.
 */
module RawEventDb {
  import opened Common
  import opened Rows
  import opened KeyedMaps
  import opened TimeUtil

  // ------------------------------------------------------------ opening

  /** What the file system says about the database file: whether it exists and Path.GetDirectoryName of it. */
  datatype FileFacts = FileFacts(fileExists: bool, directory: Option<string>)

  /** A RawEventDb: the full file name and the two permissions. */
  datatype RawEventDbInfo = RawEventDbInfo(fileName: string, allowWrite: bool, allowCreate: bool)

  /** The constructor: without AllowCreate the database file must already exist. */
  function NewRawEventDb(fullName: string, allowWrite: bool, allowCreate: bool, fileExists: bool)
    : (r: Result<RawEventDbInfo>)
    ensures r.Ok? <==> allowCreate || fileExists
    ensures r.Err? ==> r.error == FileNotFound
    ensures r.Ok? ==> r.value.fileName == fullName && r.value.allowWrite == allowWrite && r.value.allowCreate == allowCreate
  {
    if !allowCreate && !fileExists then Err(FileNotFound)
    else Ok(RawEventDbInfo(fullName, allowWrite, allowCreate))
  }

  datatype OpenMode = ReadOnly | ReadWrite | ReadWriteCreate

  /**
   * An open connection: the mode, what it may do, and the directory Open
   * makes sure exists before creating a missing file (None: none needed).
   */
  datatype Connection = Connection(mode: OpenMode, canWrite: bool, canCreate: bool, ensuredDirectory: Option<string>)

  /** The mode for the flags: create wins over writable, which wins over read-only. */
  function ModeOf(writable: bool, create: bool): (m: OpenMode)
    ensures m == ReadWriteCreate <==> create
    ensures m == ReadOnly <==> !create && !writable
  {
    if create then ReadWriteCreate else if writable then ReadWrite else ReadOnly
  }

  /** What Open needs of its arguments and the file, all the checks together. */
  predicate MayOpen(db: RawEventDbInfo, fs: FileFacts, writable: bool, create: bool)
  {
    (create ==> writable) && (writable ==> db.allowWrite) && (create ==> db.allowCreate)
    && (fs.fileExists || (create && fs.directory.Some?))
  }

  /**
   * Open: create without writable is an argument error; writing without
   * AllowWrite, creating without AllowCreate and a missing file without
   * create are invalid operations, and so is a missing file whose directory
   * cannot be determined.
   */
  function Open(db: RawEventDbInfo, fs: FileFacts, writable: bool, create: bool): (r: Result<Connection>)
    ensures r.Ok? <==> MayOpen(db, fs, writable, create)
    ensures !writable && create ==> r == Err(ArgumentException)
    ensures r.Err? && (writable || !create) ==> r.error == InvalidOperation
    ensures r.Ok? ==> r.value.mode == ModeOf(writable, create)
    ensures r.Ok? ==> r.value.canWrite == writable && r.value.canCreate == create
    ensures r.Ok? ==> (r.value.ensuredDirectory.Some? <==> !fs.fileExists)
  {
    if !writable && create then Err(ArgumentException)
    else if writable && !db.allowWrite then Err(InvalidOperation)
    else if create && !db.allowCreate then Err(InvalidOperation)
    else
      var mode := ModeOf(writable, create);
      if !fs.fileExists then
        if create then
          if fs.directory.None? then Err(InvalidOperation)
          else Ok(Connection(mode, writable, create, fs.directory))
        else Err(InvalidOperation)
      else Ok(Connection(mode, writable, create, None))
  }

  /** A connection is never more capable than its database allows: a writable one needs AllowWrite, a creating one AllowCreate. */
  lemma OpenRespectsPermissions(db: RawEventDbInfo, fs: FileFacts, writable: bool, create: bool)
    requires Open(db, fs, writable, create).Ok?
    ensures var c := Open(db, fs, writable, create).value;
            (c.mode != ReadOnly ==> db.allowWrite) && (c.mode == ReadWriteCreate ==> db.allowCreate)
  {
  }

  /** A database that was constructed can always be opened read-only while its file exists. */
  lemma ConstructedOpensReadOnly(fullName: string, allowWrite: bool, allowCreate: bool, fs: FileFacts)
    requires fs.fileExists
    ensures NewRawEventDb(fullName, allowWrite, allowCreate, fs.fileExists).Ok?
    ensures Open(NewRawEventDb(fullName, allowWrite, allowCreate, fs.fileExists).value, fs, false, false)
            == Ok(Connection(ReadOnly, false, false, None))
  {
  }

  // ------------------------------------------------------------ tables

  /** One row of the Events table, without its primary key rid. */
  datatype StoredEvent = StoredEvent(eid: int, task: int, ts: int, ver: int, xml: string)

  /** The tables of a V1 database, each keyed by its primary key. */
  datatype Tables = Tables(events: map<int, StoredEvent>, tasks: map<TaskPair, TaskRow>, states: map<int, EventStateRow>)

  /** Task and state rows are stored under their own keys. */
  ghost predicate TablesValid(t: Tables)
  {
    KeyConsistent(t.tasks, TaskPairOf) && KeyConsistent(t.states, StateKeyOf)
  }

  /** ConflictMode; an integer outside the enumeration is Undefined. */
  datatype ConflictMode = Default | Replace | Ignore | Undefined(code: int)

  /** The insert statement of PutEvent for each conflict mode; an undefined mode is refused. */
  function InsertCommand(conflict: ConflictMode): (r: Result<string>)
    ensures r.Err? <==> conflict.Undefined?
    ensures r.Err? ==> r.error == InvalidOperation
    ensures r.Ok? ==> StartsWith(r.value, "INSERT")
  {
    match conflict
    case Default => Ok("INSERT")
    case Replace => Ok("INSERT OR REPLACE")
    case Ignore => Ok("INSERT OR IGNORE")
    case Undefined(_) => Err(InvalidOperation)
  }

  /** How each command resolves a clash on the primary key. */
  function ExecuteInsert<K, V>(table: map<K, V>, key: K, value: V, command: string): (map<K, V>, int)
  {
    if key !in table || command == "INSERT OR REPLACE" then (table[key := value], 1)
    else (table, 0)
  }

  /**
   * PutEvent(rid, eid, task, ts, ver, xml, conflict): the new tables and the
   * number of rows affected. A fresh rid always inserts one row. On a rid in
   * use, Default fails with a constraint violation, Replace overwrites the
   * row (one row affected) and Ignore leaves everything as it was (none).
   */
  function PutEvent(t: Tables, rid: int, eid: int, task: int, ts: int, ver: int, xml: string, conflict: ConflictMode)
    : (r: Result<(Tables, int)>)
    ensures conflict.Undefined? ==> r == Err(InvalidOperation)
    ensures r.Err? && !conflict.Undefined? ==> rid in t.events && conflict.Default? && r.error == ConstraintViolation
    ensures r.Ok? ==> r.value.1 in {0, 1}
    ensures r.Ok? ==> r.value.0.tasks == t.tasks && r.value.0.states == t.states
    ensures r.Ok? ==> rid in r.value.0.events && r.value.0.events.Keys == t.events.Keys + {rid}
    ensures r.Ok? && r.value.1 == 1 ==> r.value.0.events == t.events[rid := StoredEvent(eid, task, ts, ver, xml)]
    ensures r.Ok? && r.value.1 == 0 ==> r.value.0 == t && rid in t.events && conflict.Ignore?
    ensures rid !in t.events && !conflict.Undefined? ==> r.Ok? && r.value.1 == 1
    ensures rid in t.events && conflict.Replace? ==> r.Ok? && r.value.1 == 1
  {
    var command :- InsertCommand(conflict);
    if command == "INSERT" && rid in t.events then Err(ConstraintViolation)
    else
      var (events, n) := ExecuteInsert(t.events, rid, StoredEvent(eid, task, ts, ver, xml), command);
      Ok((t.(events := events), n))
  }

  /** The DateTime overload of PutEvent: the stamp is converted to epoch ticks first, which fails for an Unspecified kind. */
  function PutEventAt(t: Tables, rid: int, eid: int, task: int, utc: DateTime, localToUtc: int -> int, ver: int,
                      xml: string, conflict: ConflictMode): (r: Result<(Tables, int)>)
    ensures utc.kind == Unspecified ==> r == Err(ArgumentException)
    ensures utc.kind != Unspecified ==> r == PutEvent(t, rid, eid, task, TicksSinceEpoch(utc, localToUtc).value, ver, xml, conflict)
  {
    var ts :- TicksSinceEpoch(utc, localToUtc);
    PutEvent(t, rid, eid, task, ts, ver, xml, conflict)
  }

  /** Under Ignore a stored event is never altered, whatever is put over it. */
  lemma IgnoreKeepsStored(t: Tables, rid: int, eid: int, task: int, ts: int, ver: int, xml: string)
    requires rid in t.events
    ensures PutEvent(t, rid, eid, task, ts, ver, xml, Ignore) == Ok((t, 0))
  {
  }

  /** Putting the same event twice under Default fails the second time and under Replace settles. */
  lemma PutEventTwice(t: Tables, rid: int, eid: int, task: int, ts: int, ver: int, xml: string)
    requires rid !in t.events
    ensures var once := PutEvent(t, rid, eid, task, ts, ver, xml, Default);
            once.Ok? && PutEvent(once.value.0, rid, eid, task, ts, ver, xml, Default) == Err(ConstraintViolation)
            && PutEvent(once.value.0, rid, eid, task, ts, ver, xml, Replace) == once
  {
    var once := PutEvent(t, rid, eid, task, ts, ver, xml, Default);
    assert once.value.0.events[rid := StoredEvent(eid, task, ts, ver, xml)] == once.value.0.events;
  }

  /** PutTask: an upsert of the (eid, task) row; one row is affected either way. */
  function PutTask(t: Tables, eid: int, task: int, description: Option<string>): (r: (Tables, int))
    ensures r.1 == 1
    ensures r.0.events == t.events && r.0.states == t.states
    ensures (eid, task) in r.0.tasks && r.0.tasks[(eid, task)].description == description
    ensures forall k :: k != (eid, task) ==> (k in r.0.tasks <==> k in t.tasks)
    ensures forall k :: k != (eid, task) && k in t.tasks ==> r.0.tasks[k] == t.tasks[k]
    ensures TablesValid(t) ==> TablesValid(r.0)
  {
    (t.(tasks := t.tasks[(eid, task) := TaskRow(eid, task, description)]), 1)
  }

  /** PutEventState: INSERT OR REPLACE of the full state row of eid. */
  function PutEventState(t: Tables, eid: int, minVersion: int, enabled: bool): (r: (Tables, int))
    ensures r.1 == 1
    ensures r.0.events == t.events && r.0.tasks == t.tasks
    ensures eid in r.0.states && r.0.states[eid] == EventStateRow(eid, minVersion, enabled)
    ensures forall k :: k != eid ==> (k in r.0.states <==> k in t.states)
    ensures forall k :: k != eid && k in t.states ==> r.0.states[k] == t.states[k]
    ensures TablesValid(t) ==> TablesValid(r.0)
  {
    (t.(states := t.states[eid := EventStateRow(eid, minVersion, enabled)]), 1)
  }

  /** ReadTasks: the rows of the Tasks table, in an order the model leaves open. */
  method ReadTasks(t: Tables) returns (rows: seq<TaskRow>)
    requires TablesValid(t)
    ensures PutAll(map[], TaskPairOf, rows) == t.tasks
  {
    rows := Listing(t.tasks, TaskPairOf);
  }

  /** ReadEventStates: the rows of the EventState table. */
  method ReadEventStates(t: Tables) returns (rows: seq<EventStateRow>)
    requires TablesValid(t)
    ensures PutAll(map[], StateKeyOf, rows) == t.states
  {
    rows := Listing(t.states, StateKeyOf);
  }

  // ------------------------------------------------------------ event queries

  /** The optional filters of ReadEventsTicks. */
  datatype EventFilter = EventFilter(ridMin: Option<int>, ridMax: Option<int>, eid: Option<int>,
                                     tMin: Option<int>, tMax: Option<int>)

  /** The conditions ReadEventsTicks can add, in the order it adds them. */
  datatype Condition = RidAtLeast | RidAtMost | EidIs | StampAtLeast | StampAtMost

  function ConditionText(c: Condition): string
  {
    match c
    case RidAtLeast => "rid >= @RidMin"
    case RidAtMost => "rid <= @RidMax"
    case EidIs => "eid = @Eid"
    case StampAtLeast => "ts >= @TMin"
    case StampAtMost => "ts <= @TMax"
  }

  function Rank(c: Condition): nat
  {
    match c
    case RidAtLeast => 0
    case RidAtMost => 1
    case EidIs => 2
    case StampAtLeast => 3
    case StampAtMost => 4
  }

  /** The filter value a condition compares with. */
  function Bound(c: Condition, f: EventFilter): Option<int>
  {
    match c
    case RidAtLeast => f.ridMin
    case RidAtMost => f.ridMax
    case EidIs => f.eid
    case StampAtLeast => f.tMin
    case StampAtMost => f.tMax
  }

  /** Whether the row (rid, e) satisfies the condition with the filter's value bound to its parameter. */
  predicate Holds(c: Condition, f: EventFilter, rid: int, e: StoredEvent)
  {
    Bound(c, f).Some? &&
    match c
    case RidAtLeast => rid >= Bound(c, f).value
    case RidAtMost => rid <= Bound(c, f).value
    case EidIs => e.eid == Bound(c, f).value
    case StampAtLeast => e.ts >= Bound(c, f).value
    case StampAtMost => e.ts <= Bound(c, f).value
  }

  predicate AllHold(cs: seq<Condition>, f: EventFilter, rid: int, e: StoredEvent)
  {
    forall i :: 0 <= i < |cs| ==> Holds(cs[i], f, rid, e)
  }

  /** The rows the filter means: each given bound is met; an absent one does not restrict. */
  predicate Matches(f: EventFilter, rid: int, e: StoredEvent)
  {
    (f.ridMin.Some? ==> rid >= f.ridMin.value) && (f.ridMax.Some? ==> rid <= f.ridMax.value)
    && (f.eid.Some? ==> e.eid == f.eid.value)
    && (f.tMin.Some? ==> e.ts >= f.tMin.value) && (f.tMax.Some? ==> e.ts <= f.tMax.value)
  }

  predicate NoFilter(f: EventFilter)
  {
    f.ridMin.None? && f.ridMax.None? && f.eid.None? && f.tMin.None? && f.tMax.None?
  }

  function JoinWith(parts: seq<string>, sep: string): string
  {
    if |parts| == 0 then "" else if |parts| == 1 then parts[0] else parts[0] + sep + JoinWith(parts[1..], sep)
  }

  function Texts(cs: seq<Condition>): (r: seq<string>)
    ensures |r| == |cs|
  {
    if cs == [] then [] else [ConditionText(cs[0])] + Texts(cs[1..])
  }

  const SelectEvents: string := "\nSELECT rid, eid, task, ts, ver, xml\nFROM Events"

  /** The query text: the select, then a WHERE clause joining the conditions with AND, if there are any. */
  function QueryText(cs: seq<Condition>): string
  {
    if cs == [] then SelectEvents else SelectEvents + "\nWHERE " + JoinWith(Texts(cs), "\n  AND ")
  }

  /** A list holding exactly the conditions of the given filters selects what the filter means. */
  lemma AllHoldByMembership(cs: seq<Condition>, f: EventFilter, rid: int, e: StoredEvent)
    requires forall c :: c in cs <==> Bound(c, f).Some?
    ensures AllHold(cs, f, rid, e) <==> Matches(f, rid, e)
  {
    if AllHold(cs, f, rid, e) {
      forall c | c in cs ensures Holds(c, f, rid, e) {
        var i :| 0 <= i < |cs| && cs[i] == c;
      }
      forall c | Bound(c, f).Some? ensures Holds(c, f, rid, e) {
        assert c in cs;
      }
      assert Holds(RidAtLeast, f, rid, e) || f.ridMin.None?;
      assert Holds(RidAtMost, f, rid, e) || f.ridMax.None?;
      assert Holds(EidIs, f, rid, e) || f.eid.None?;
      assert Holds(StampAtLeast, f, rid, e) || f.tMin.None?;
      assert Holds(StampAtMost, f, rid, e) || f.tMax.None?;
    }
    if Matches(f, rid, e) {
      forall i | 0 <= i < |cs| ensures Holds(cs[i], f, rid, e) {
        assert cs[i] in cs;
        match cs[i]
        case RidAtLeast =>
        case RidAtMost =>
        case EidIs =>
        case StampAtLeast =>
        case StampAtMost =>
      }
    }
  }

  /** The condition for one filter value: present exactly when the value is given. */
  function Wanted(c: Condition, f: EventFilter): seq<Condition>
  {
    if Bound(c, f).Some? then [c] else []
  }

  /** The conditions of a filter, in the order the query lists them. */
  function FilterConditions(f: EventFilter): seq<Condition>
  {
    Wanted(RidAtLeast, f) + Wanted(RidAtMost, f) + Wanted(EidIs, f) + Wanted(StampAtLeast, f) + Wanted(StampAtMost, f)
  }

  predicate RankOrdered(cs: seq<Condition>)
  {
    forall i, j :: 0 <= i < j < |cs| ==> Rank(cs[i]) < Rank(cs[j])
  }

  /** A filter's conditions are exactly those whose value is given. */
  lemma FilterConditionsMembers(f: EventFilter)
    ensures forall c :: c in FilterConditions(f) <==> Bound(c, f).Some?
  {
    forall c ensures c in FilterConditions(f) <==> Bound(c, f).Some? {
      match c
      case RidAtLeast =>
      case RidAtMost =>
      case EidIs =>
      case StampAtLeast =>
      case StampAtMost =>
    }
  }

  /** A filter's conditions are in strictly increasing rank. */
  lemma FilterConditionsOrdered(f: EventFilter)
    ensures RankOrdered(FilterConditions(f))
  {
    var a := Wanted(RidAtLeast, f);
    var b := a + Wanted(RidAtMost, f);
    var c := b + Wanted(EidIs, f);
    var d := c + Wanted(StampAtLeast, f);
    OrderedAppend(a, RidAtMost, f);
    OrderedAppend(b, EidIs, f);
    OrderedAppend(c, StampAtLeast, f);
    OrderedAppend(d, StampAtMost, f);
  }

  /** Adding a condition of higher rank than all before it keeps the rank order. */
  lemma OrderedAppend(cs: seq<Condition>, c: Condition, f: EventFilter)
    requires RankOrdered(cs) && forall i :: 0 <= i < |cs| ==> Rank(cs[i]) < Rank(c)
    ensures RankOrdered(cs + Wanted(c, f))
    ensures forall i :: 0 <= i < |cs + Wanted(c, f)| ==> Rank((cs + Wanted(c, f))[i]) <= Rank(c)
  {
  }

  /**
   * The query of ReadEventsTicks: one condition per filter that is given, in
   * the fixed order rid >=, rid <=, eid =, ts >=, ts <=, and no WHERE at all
   * when none is. A row passes the conditions exactly when it matches the filter.
   */
  method ReadEventsQuery(f: EventFilter) returns (q: string, conditions: seq<Condition>)
    ensures forall c :: c in conditions <==> Bound(c, f).Some?
    ensures forall i, j :: 0 <= i < j < |conditions| ==> Rank(conditions[i]) < Rank(conditions[j])
    ensures forall rid, e :: AllHold(conditions, f, rid, e) <==> Matches(f, rid, e)
    ensures conditions == [] <==> NoFilter(f)
    ensures q == QueryText(conditions)
  {
    conditions := FilterConditionList(f);
    FilterConditionsMembers(f);
    FilterConditionsOrdered(f);
    forall rid, e ensures AllHold(conditions, f, rid, e) <==> Matches(f, rid, e) {
      AllHoldByMembership(conditions, f, rid, e);
    }
    q := SelectEvents;
    if |conditions| > 0 {
      q := q + "\nWHERE " + JoinWith(Texts(conditions), "\n  AND ");
    }
  }

  /** The conditions ReadEventsTicks adds, one filter value after the other. */
  method FilterConditionList(f: EventFilter) returns (conditions: seq<Condition>)
    ensures conditions == FilterConditions(f)
  {
    conditions := [];
    if f.ridMin.Some? {
      conditions := conditions + [RidAtLeast];
    }
    ghost var upTo := Wanted(RidAtLeast, f);
    assert conditions == upTo;
    if f.ridMax.Some? {
      conditions := conditions + [RidAtMost];
    }
    upTo := upTo + Wanted(RidAtMost, f);
    assert conditions == upTo;
    if f.eid.Some? {
      conditions := conditions + [EidIs];
    }
    upTo := upTo + Wanted(EidIs, f);
    assert conditions == upTo;
    if f.tMin.Some? {
      conditions := conditions + [StampAtLeast];
    }
    upTo := upTo + Wanted(StampAtLeast, f);
    assert conditions == upTo;
    if f.tMax.Some? {
      conditions := conditions + [StampAtMost];
    }
    upTo := upTo + Wanted(StampAtMost, f);
  }
}
