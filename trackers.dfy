/*
 * The V1 import bookkeeping (Lcl.EventLog/Jobs/Database/EventStateTracker.cs,
 * TaskTracker.cs and EventInfoTracker.cs): event states and task rows read
 * from the database back a front map of the rows an import adds or revises;
 * the front is what a commit writes back.
 */
module Trackers {
  import opened Common
  import opened Rows
  import opened KeyedMaps
  import opened InfoCaches

  function TaskRowDescriptionOf(r: Option<TaskRow>): Option<Option<string>>
  {
    if r.None? then None else Some(r.value.description)
  }

  /** The import filter for one state row: an event with no row is always processed. */
  predicate Admits(state: Option<EventStateRow>, version: int)
  {
    state.None? || (state.value.enabled && version >= state.value.minVersion)
  }

  /** A default state row admits exactly the versions from 0 up. */
  lemma DefaultStateAdmits(eid: int, version: int)
    requires IsInt32(eid)
    ensures Admits(Some(NewEventStateRow(eid)), version) <==> version >= 0
  {
    DefaultEventState(eid);
  }

  /** The state rows after observing `eid`, which had the row `found`: an unknown id gets the default row. */
  function StatesAfter(updated: map<int, EventStateRow>, found: Option<EventStateRow>, eid: int): map<int, EventStateRow>
  {
    if found.None? then updated[eid := EventStateRow(eid, 0, true)] else updated
  }

  /** The task rows after observing (eid, task) with a description, the pair having had the row `found`. */
  function TasksAfter(updated: map<TaskPair, TaskRow>, found: Option<TaskRow>, eid: int, task: int,
                      description: Option<string>): map<TaskPair, TaskRow>
  {
    var rev := Revision(TaskRowDescriptionOf(found), description);
    if rev.Some? then updated[(eid, task) := TaskRow(eid, task, rev.value)] else updated
  }

  class EventStateTracker {
    const states: BackedMap<int, EventStateRow>

    ghost predicate Valid()
      reads states.Front, states.Backing
    {
      states.Valid() && states.KeyOf == StateKeyOf && states.Backing != null
    }

    constructor (existingRows: seq<EventStateRow>)
      ensures Valid() && fresh(states.Front) && fresh(states.Backing)
      ensures Items() == map[]
      ensures states.Backing.items == PutAll(map[], StateKeyOf, existingRows)
    {
      var backing := new KeyedMap(StateKeyOf, existingRows);
      states := new BackedMap(StateKeyOf, backing, []);
    }

    /** The indexer: the front row, else the database row, else None. */
    function Find(eid: int): (r: Option<EventStateRow>)
      reads states.Front, states.Backing
      ensures eid in Items() ==> r == Some(Items()[eid])
      ensures eid !in Items() ==> r == states.BackingFind(eid)
      ensures Valid() && r.Some? ==> r.value.eid == eid
    {
      states.Find(eid)
    }

    /** IsEnabled: an unknown event counts as enabled. */
    function IsEnabled(eid: int): (r: bool)
      reads states.Front, states.Backing
      ensures r <==> Find(eid).None? || Find(eid).value.enabled
    {
      match Find(eid)
      case None => true
      case Some(row) => row.enabled
    }

    /** The state rows added by PutObservation. */
    function Items(): map<int, EventStateRow>
      reads states.Front
    {
      states.Items()
    }

    /** An event id known nowhere gets a default row (version 0, enabled); a known one is left alone. */
    method PutObservation(eid: int)
      requires Valid() && IsInt32(eid)
      modifies states.Front
      ensures Valid()
      ensures Items() == if old(Find(eid)).None? then old(Items())[eid := EventStateRow(eid, 0, true)] else old(Items())
      ensures old(Find(eid)).Some? ==> Find(eid) == old(Find(eid))
      ensures Find(eid).Some?
      ensures old(Find(eid)).None? ==> Find(eid) == Some(EventStateRow(eid, 0, true)) && IsEnabled(eid)
      ensures states.Backing.items == old(states.Backing.items)
    {
      if Find(eid).None? {
        DefaultEventState(eid);
        states.Put(NewEventStateRow(eid));
      }
    }
  }

  class TaskTracker {
    const tasks: BackedMap<TaskPair, TaskRow>

    ghost predicate Valid()
      reads tasks.Front, tasks.Backing
    {
      tasks.Valid() && tasks.KeyOf == TaskPairOf && tasks.Backing != null
    }

    constructor (existingRows: seq<TaskRow>)
      ensures Valid() && fresh(tasks.Front) && fresh(tasks.Backing)
      ensures Items() == map[]
      ensures tasks.Backing.items == PutAll(map[], TaskPairOf, existingRows)
    {
      var backing := new KeyedMap(TaskPairOf, existingRows);
      tasks := new BackedMap(TaskPairOf, backing, []);
    }

    /** The indexer this[eid, task]. */
    function Find(eid: int, task: int): (r: Option<TaskRow>)
      reads tasks.Front, tasks.Backing
      ensures (eid, task) in Items() ==> r == Some(Items()[(eid, task)])
      ensures (eid, task) !in Items() ==> r == tasks.BackingFind((eid, task))
      ensures Valid() && r.Some? ==> r.value.Key() == (eid, task)
    {
      tasks.Find((eid, task))
    }

    /** Description: None for an unknown pair and for a row without description. */
    function Description(eid: int, task: int): (r: Option<string>)
      reads tasks.Front, tasks.Backing
      ensures Find(eid, task).None? ==> r.None?
      ensures Find(eid, task).Some? ==> r == Find(eid, task).value.description
    {
      Flatten(TaskRowDescriptionOf(Find(eid, task)))
    }

    /** The task rows added or revised since construction. */
    function Items(): map<TaskPair, TaskRow>
      reads tasks.Front
    {
      tasks.Items()
    }

    /**
     * An unknown pair gets a row with the given description; a known pair is
     * revised only by a non-null description that differs from its own.
     */
    method PutObservation(eid: int, task: int, description: Option<string>)
      requires Valid()
      modifies tasks.Front
      ensures Valid()
      ensures var rev := Revision(old(TaskRowDescriptionOf(Find(eid, task))), description);
              Items() == if rev.Some? then old(Items())[(eid, task) := TaskRow(eid, task, rev.value)] else old(Items())
      ensures Find(eid, task).Some?
      ensures Description(eid, task) == if description.Some? then description else old(Description(eid, task))
      ensures tasks.Backing.items == old(tasks.Backing.items)
    {
      var found := Find(eid, task);
      var rev := Revision(TaskRowDescriptionOf(found), description);
      if rev.Some? {
        tasks.Put(TaskRow(eid, task, rev.value));
      }
    }
  }

  class EventInfoTracker {
    const stateTracker: EventStateTracker
    const taskTracker: TaskTracker

    ghost predicate Valid()
      reads stateTracker.states.Front, stateTracker.states.Backing, taskTracker.tasks.Front, taskTracker.tasks.Backing
    {
      stateTracker.Valid() && taskTracker.Valid()
    }

    constructor (existingStates: seq<EventStateRow>, existingTasks: seq<TaskRow>)
      ensures Valid()
      ensures fresh(stateTracker.states.Front) && fresh(taskTracker.tasks.Front)
      ensures UpdatedStates() == map[] && UpdatedTasks() == map[]
      ensures stateTracker.states.Backing.items == PutAll(map[], StateKeyOf, existingStates)
      ensures taskTracker.tasks.Backing.items == PutAll(map[], TaskPairOf, existingTasks)
    {
      stateTracker := new EventStateTracker(existingStates);
      taskTracker := new TaskTracker(existingTasks);
    }

    /** ShouldProcess: a known event needs to be enabled and at least at its minimum version. */
    function ShouldProcess(eventId: int, version: int): (r: bool)
      reads stateTracker.states.Front, stateTracker.states.Backing
      ensures r <==> Admits(stateTracker.Find(eventId), version)
    {
      var eventState := stateTracker.Find(eventId);
      if eventState.Some? then eventState.value.enabled && version >= eventState.value.minVersion
      else true
    }

    /**
     * ObserveEvent registers the event id with the state tracker and the task
     * with the task tracker. It never changes the filter for a known event,
     * and a new event is then processed at every version from 0 up.
     */
    method ObserveEvent(eventId: int, taskId: int, description: Option<string>)
      requires Valid() && IsInt32(eventId)
      modifies stateTracker.states.Front, taskTracker.tasks.Front
      ensures Valid()
      ensures UpdatedStates() == StatesAfter(old(UpdatedStates()), old(stateTracker.Find(eventId)), eventId)
      ensures UpdatedTasks()
              == TasksAfter(old(UpdatedTasks()), old(taskTracker.Find(eventId, taskId)), eventId, taskId, description)
      ensures stateTracker.Find(eventId).Some? && taskTracker.Find(eventId, taskId).Some?
      ensures stateTracker.states.Backing.items == old(stateTracker.states.Backing.items)
      ensures taskTracker.tasks.Backing.items == old(taskTracker.tasks.Backing.items)
      ensures old(stateTracker.Find(eventId)).Some? ==>
                forall v :: ShouldProcess(eventId, v) == old(ShouldProcess(eventId, v))
      ensures old(stateTracker.Find(eventId)).None? ==> forall v :: ShouldProcess(eventId, v) <==> v >= 0
    {
      stateTracker.PutObservation(eventId);
      taskTracker.PutObservation(eventId, taskId, description);
    }

    function UpdatedStates(): map<int, EventStateRow>
      reads stateTracker.states.Front
    {
      stateTracker.Items()
    }

    function UpdatedTasks(): map<TaskPair, TaskRow>
      reads taskTracker.tasks.Front
    {
      taskTracker.Items()
    }
  }
}
