/**
  The `Tasks` record and the table that stores it.  The table is the
  `DbSet<Tasks>` behind `AppDbContext`: a map from primary key to record, with
  the identity column handing out fresh positive ids on insert.
 */
module TaskModel {

  /** Timestamps are whole seconds; `DateTime.MinValue` is time 0. */
  const MinTime: int := 0

  /** One task record; `createdAt` is a timestamp in seconds. */
  datatype Task = Task(id: int, title: string, description: string, status: string, createdAt: int)

  /** `new Tasks()`: the field initialisers of the record. */
  function NewTask(): (t: Task)
    ensures t.title == "" && t.description == ""
    ensures t.status == "active"
    ensures t.id == 0 && t.createdAt == MinTime
  {
    Task(0, "", "", "active", MinTime)
  }

  /** What an update copies from the incoming record onto the stored one:
      title, description and status; the id and the creation time stay. */
  function ApplyUpdate(existing: Task, incoming: Task): (r: Task)
    ensures r.id == existing.id && r.createdAt == existing.createdAt
    ensures r.title == incoming.title && r.description == incoming.description
    ensures r.status == incoming.status
  {
    existing.(title := incoming.title, description := incoming.description, status := incoming.status)
  }

  /** `Id` is the primary key: every record is stored under its own id. */
  predicate KeyedById(tasks: map<int, Task>)
  {
    forall id :: id in tasks ==> tasks[id].id == id
  }

  /** The task table. */
  class TaskStore {
    var tasks: map<int, Task>
    /** The next value of the identity column. */
    var nextId: int

    ghost predicate Valid()
      reads this
    {
      && 1 <= nextId
      && KeyedById(tasks)
      && (forall id :: id in tasks ==> 0 < id < nextId)
    }

    constructor ()
      ensures Valid() && tasks == map[] && nextId == 1
    {
      tasks := map[];
      nextId := 1;
    }

    /** `Tasks.Add(task)` followed by `SaveChanges`: the record is inserted
        under a fresh positive id, which is written back into it. */
    method Add(t: Task) returns (id: int)
      requires Valid()
      modifies this
      ensures Valid()
      ensures 0 < id && id !in old(tasks) && id == old(nextId) < nextId
      ensures tasks == old(tasks)[id := t.(id := id)]
    {
      id := nextId;
      tasks := tasks[id := t.(id := id)];
      nextId := nextId + 1;
    }

    /** Saves a changed record of a tracked entity: the record replaces the
        one stored under its id. */
    method Put(t: Task)
      requires Valid() && t.id in tasks
      modifies this`tasks
      ensures Valid()
      ensures tasks == old(tasks)[t.id := t]
    {
      tasks := tasks[t.id := t];
    }

    /** `Tasks.Remove(task)` followed by `SaveChanges`. */
    method Remove(id: int)
      requires Valid() && id in tasks
      modifies this`tasks
      ensures Valid()
      ensures tasks == old(tasks) - {id}
    {
      tasks := tasks - {id};
    }
  }
}
