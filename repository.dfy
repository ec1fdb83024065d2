/**
  `SQLTaskRepository`: a second front end to the task table.  Its paging
  query filters by exact equality against the lower-cased terms, unlike the
  controller's case-insensitive substring search.
 */
module Repository {
  import opened Wrappers
  import opened TaskModel
  import opened TaskQuery

  class SqlTaskRepository {
    const context: TaskStore

    constructor (context: TaskStore)
      ensures this.context == context
    {
      this.context := context;
    }

    /** `GetPaginationTasks`: the rows the exact filters keep, newest first,
        page `page` of size `pageSize`.  The count the source computes is
        discarded, so only the page is returned.  Page and page size are not
        normalised: the offset is the unchecked `int` product, and the
        database refuses a negative OFFSET or LIMIT, so the query fails
        (`None`). */
    function GetPaginationTasks(search: Option<string>, status: Option<string>, page: int, pageSize: int)
      : (r: Option<seq<Task>>)
      reads context
      requires IsInt32(page) && IsInt32(pageSize)
      ensures r.None? <==> pageSize < 0 || Offset(page, pageSize) < 0
      ensures r.Some? ==> |r.value| <= pageSize
      ensures r.Some? ==> |r.value| == Min(pageSize, Max(0, |MatchingKeys(context.tasks, RepositoryFilter(search, status))|
                                                          - Offset(page, pageSize)))
      ensures r.Some? ==> forall j :: 0 <= j < |r.value| ==>
                r.value[j] == Listing(context.tasks, RepositoryFilter(search, status))[Offset(page, pageSize) + j]
      ensures r.Some? ==> forall t :: t in r.value ==> t in context.tasks.Values && RepositoryMatches(t, search, status)
      ensures r.Some? ==> NewestFirstOrder(r.value)
    {
      var filter := RepositoryFilter(search, status);
      var listing := Listing(context.tasks, filter);
      if pageSize < 0 || Offset(page, pageSize) < 0 then None
      else Some(Page(listing, page, pageSize))
    }

    /** `GetAllAsync`: every stored record, once each. */
    function GetAllAsync(): (r: seq<Task>)
      reads context
      ensures |r| == |context.tasks|
      ensures forall t :: t in r ==> t in context.tasks.Values
      ensures forall k :: k in context.tasks ==> context.tasks[k] in r
    {
      Rows(context.tasks)
    }

    /** `GetByIdAsync`: `FirstOrDefaultAsync(t => t.Id == id)`, the record
        with that id, or null when there is none. */
    function GetByIdAsync(id: int): (r: Option<Task>)
      reads context
      requires context.Valid()
      ensures r.Some? <==> id in context.tasks
      ensures r.Some? ==> r.value == context.tasks[id]
    {
      var found := Where(Rows(context.tasks), IdEquals(id));
      IdQueryFindsStored(context.tasks, id);
      if found == [] then None else Some(found[0])
    }

    /** `CreateAsync`: the record is added under a fresh id, which EF writes
        back into it; the other records are unchanged. */
    method CreateAsync(task: Task) returns (created: Task)
      requires context.Valid()
      modifies context
      ensures context.Valid()
      ensures created == task.(id := created.id)
      ensures 0 < created.id && created.id !in old(context.tasks)
      ensures context.tasks == old(context.tasks)[created.id := created]
    {
      var id := context.Add(task);
      created := task.(id := id);
    }

    /** `UpdateAsync`: overwrites title, description and status of the stored
        record with the same id.  The source dereferences the lookup result
        without a null check, so the id must be present. */
    method UpdateAsync(task: Task)
      requires context.Valid() && task.id in context.tasks
      modifies context
      ensures context.Valid()
      ensures context.tasks == old(context.tasks)[task.id := ApplyUpdate(old(context.tasks)[task.id], task)]
    {
      var existing := context.tasks[task.id];
      context.Put(ApplyUpdate(existing, task));
    }

    /** `DeleteAsync`: removes exactly that record.  Deleting a record whose
        id the table does not hold affects no row, and saving throws. */
    method DeleteAsync(task: Task)
      requires context.Valid() && task.id in context.tasks
      modifies context
      ensures context.Valid()
      ensures context.tasks == old(context.tasks) - {task.id}
    {
      context.Remove(task.id);
    }
  }
}
