/**
  `TasksController`: the HTTP endpoints of the service, written cache-aside.
  Reads look in the cache first and, on a miss, query the task table and
  cache what they found for five minutes; writes change the table and evict
  only the `all_tasks` entry.  A status change is announced on the message
  broker, which the model keeps as a log of published events.
 */
module Controller {
  import opened Wrappers
  import opened TaskModel
  import opened TaskQuery
  import opened CacheKeys
  import opened Cache

  /** `TimeSpan.FromMinutes(5)`, the time to live every endpoint passes when
      it caches a result. */
  const EntryTtl: int := 300

  /** The routing key of the status-change message. */
  const StatusChangedKey: string := "task.status.changed"

  /** The anonymous `{ total, page, pageSize, items }` envelope of `GetTasks`. */
  datatype PageResult = PageResult(total: int, page: int, pageSize: int, items: seq<Task>)

  /** What the endpoints put in the cache and return in an `Ok` body. */
  datatype Payload =
    | TaskValue(task: Task)
    | TaskList(tasks: seq<Task>)
    | PageValue(result: PageResult)

  /** The action results the endpoints return. */
  datatype Response =
    | Ok(body: Payload)
    | Created(created: Task)
    | NoContent
    | NotFound
    | BadRequest
    /** An unhandled exception, answered with status 500. */
    | ServerError

  /** A message published to the broker: `{ TaskId, NewStatus }` under a
      routing key. */
  datatype Event = Event(routingKey: string, taskId: int, newStatus: string)

  /** `if (page <= 0) page = 1;` */
  function NormalizePage(page: int): (r: int)
    ensures r >= 1
    ensures page >= 1 ==> r == page
    ensures page <= 0 ==> r == 1
  {
    if page <= 0 then 1 else page
  }

  /** `if (pageSize <= 0) pageSize = 10;` */
  function NormalizePageSize(pageSize: int): (r: int)
    ensures r >= 1
    ensures pageSize >= 1 ==> r == pageSize
    ensures pageSize <= 0 ==> r == 10
  {
    if pageSize <= 0 then 10 else pageSize
  }

  /** The cache key of a list request, built from the normalised paging. */
  function RequestKey(search: Option<string>, status: Option<string>, page: int, pageSize: int): string
  {
    ListKey(search, status, NormalizePage(page), NormalizePageSize(pageSize))
  }

  /** Two list requests with the same filters share a cache entry exactly
      when their paging normalises to the same values. */
  lemma RequestKeySharedIffSamePaging(search: Option<string>, status: Option<string>,
                                      p1: int, z1: int, p2: int, z2: int)
    ensures RequestKey(search, status, p1, z1) == RequestKey(search, status, p2, z2)
            <==> NormalizePage(p1) == NormalizePage(p2) && NormalizePageSize(z1) == NormalizePageSize(z2)
  {
    ListKeyDeterminesPaging(search, status, NormalizePage(p1), NormalizePageSize(z1),
                            NormalizePage(p2), NormalizePageSize(z2));
  }

  /** Out-of-range paging is served from the entry of page 1 of size 10. */
  lemma OutOfRangePagingSharesDefaultKey(search: Option<string>, status: Option<string>, page: int, pageSize: int)
    requires page <= 0 && pageSize <= 0
    ensures RequestKey(search, status, page, pageSize) == ListKey(search, status, 1, 10)
  {
  }

  /** The list query of `GetTasks` on a cache miss: `total` counts the rows the
      case-insensitive filters keep, and `items` is page `page` of them,
      newest first.  The offset is the unchecked `int` product; the database
      refuses a negative one and the query fails (`None`). */
  function ListPage(tasks: map<int, Task>, search: Option<string>, status: Option<string>,
                    page: int, pageSize: int): (r: Option<PageResult>)
    requires IsInt32(page) && IsInt32(pageSize) && page >= 1 && pageSize >= 1
    ensures r.None? <==> Offset(page, pageSize) < 0
    ensures r.Some? ==> r.value.page == page && r.value.pageSize == pageSize
    ensures r.Some? ==> r.value.total == |MatchingKeys(tasks, ControllerFilter(search, status))|
    ensures r.Some? ==> |r.value.items| == Min(pageSize, Max(0, r.value.total - Offset(page, pageSize)))
    ensures r.Some? ==> |r.value.items| <= pageSize && |r.value.items| <= r.value.total
    ensures r.Some? ==> forall j :: 0 <= j < |r.value.items| ==>
              r.value.items[j] == Listing(tasks, ControllerFilter(search, status))[Offset(page, pageSize) + j]
    ensures r.Some? ==> forall t :: t in r.value.items ==> t in tasks.Values && ControllerMatches(t, search, status)
    ensures r.Some? ==> NewestFirstOrder(r.value.items)
  {
    var listing := Listing(tasks, ControllerFilter(search, status));
    if Offset(page, pageSize) < 0 then None
    else Some(PageResult(|listing|, page, pageSize, Page(listing, page, pageSize)))
  }

  /** Because the offset wraps, page 65537 of size 65536 starts at offset 0:
      it holds page 1's rows in an envelope that reports page 65537.  Page
      1073741825 of size 2 has a negative offset, and the query fails. */
  lemma FarPagesWrap(tasks: map<int, Task>, search: Option<string>, status: Option<string>)
    ensures var far, first := ListPage(tasks, search, status, 65537, 65536), ListPage(tasks, search, status, 1, 65536);
            && far.Some? && first.Some?
            && far.value.page == 65537 && far.value.items == first.value.items
    ensures ListPage(tasks, search, status, 1073741825, 2).None?
  {
    OffsetWraps();
    var far, first := ListPage(tasks, search, status, 65537, 65536), ListPage(tasks, search, status, 1, 65536);
    assert Offset(1, 65536) == 0;
    assert |far.value.items| == |first.value.items|;
  }

  /** The list `GetAllTasks` returns on a miss: every stored record, newest
      first. */
  function AllNewestFirst(tasks: map<int, Task>): (r: seq<Task>)
    ensures |r| == |tasks|
    ensures forall t :: t in r ==> t in tasks.Values
    ensures forall k :: k in tasks ==> tasks[k] in r
    ensures NewestFirstOrder(r)
  {
    var rows := Rows(tasks);
    var r := NewestFirst(rows);
    assert |r| == |multiset(r)| == |multiset(rows)| == |rows|;
    assert forall t :: t in r <==> t in multiset(r);
    r
  }

  /** No task key or list key is `all_tasks`, and no list key is a task key. */
  lemma AllKeyKindsDistinct()
    ensures forall id :: TaskKey(id) != AllTasksKey
    ensures forall search, status, page, pageSize :: ListKey(search, status, page, pageSize) != AllTasksKey
    ensures forall id, search, status, page, pageSize :: ListKey(search, status, page, pageSize) != TaskKey(id)
  {
    forall id ensures TaskKey(id) != AllTasksKey {
      KeyKindsDistinct(id, None, None, 1, 1);
    }
    forall id, search, status, page, pageSize {
      KeyKindsDistinct(id, search, status, page, pageSize);
    }
  }

  /** The cached payload is the record with that id. */
  predicate IsTaskFor(p: Option<Payload>, id: int)
  {
    p.Some? && p.value.TaskValue? && p.value.task.id == id
  }

  predicate IsTaskList(p: Option<Payload>)
  {
    p.Some? && p.value.TaskList?
  }

  predicate IsPage(p: Option<Payload>)
  {
    p.Some? && p.value.PageValue?
  }

  /** Every cache entry holds what the endpoint that writes its key caches:
      the record with that id (an id the table has handed out) under
      `task_{id}`, a list under `all_tasks`, a page envelope under a list key. */
  ghost predicate CacheTyped(entries: map<string, Entry>, decode: string -> Option<Payload>, nextId: int)
  {
    && (forall id :: TaskKey(id) in entries ==> id < nextId && IsTaskFor(decode(entries[TaskKey(id)].data), id))
    && (AllTasksKey in entries ==> IsTaskList(decode(entries[AllTasksKey].data)))
    && (forall search, status, page, pageSize :: ListKey(search, status, page, pageSize) in entries ==>
          IsPage(decode(entries[ListKey(search, status, page, pageSize)].data)))
  }

  /** Caching a record under its own id keeps the cache typed. */
  lemma WriteTaskKeepsCacheTyped(entries: map<string, Entry>, encode: Payload -> string, decode: string -> Option<Payload>,
                                 nextId: int, t: Task, ttl: Option<int>, now: int)
    requires RoundTrips(encode, decode) && CacheTyped(entries, decode, nextId)
    requires t.id < nextId
    ensures CacheTyped(Write(entries, encode, TaskKey(t.id), TaskValue(t), ttl, now), decode, nextId)
  {
    AllKeyKindsDistinct();
    forall other | TaskKey(other) == TaskKey(t.id) ensures other == t.id {
      TaskKeyInjective(other, t.id);
    }
  }

  /** Caching a list under `all_tasks` keeps the cache typed. */
  lemma WriteListKeepsCacheTyped(entries: map<string, Entry>, encode: Payload -> string, decode: string -> Option<Payload>,
                                 nextId: int, tasks: seq<Task>, ttl: Option<int>, now: int)
    requires RoundTrips(encode, decode) && CacheTyped(entries, decode, nextId)
    ensures CacheTyped(Write(entries, encode, AllTasksKey, TaskList(tasks), ttl, now), decode, nextId)
  {
    AllKeyKindsDistinct();
  }

  /** Caching a page envelope under a list key keeps the cache typed. */
  lemma WritePageKeepsCacheTyped(entries: map<string, Entry>, encode: Payload -> string, decode: string -> Option<Payload>,
                                 nextId: int, search: Option<string>, status: Option<string>, page: int, pageSize: int,
                                 result: PageResult, ttl: Option<int>, now: int)
    requires RoundTrips(encode, decode) && CacheTyped(entries, decode, nextId)
    ensures CacheTyped(Write(entries, encode, ListKey(search, status, page, pageSize), PageValue(result), ttl, now),
                       decode, nextId)
  {
    AllKeyKindsDistinct();
  }

  class TasksController {
    /** The task table behind `AppDbContext`. */
    const db: TaskStore
    /** The cache behind both `ICacheService` and `IDistributedCache`. */
    const cache: CacheService<Payload>
    /** The messages published to the broker, oldest first. */
    ghost var events: seq<Event>
    /** How many queries the endpoints have sent to the task table (writes
        saved by `SaveChangesAsync` not counted). */
    ghost var storeQueries: nat

    /** The table is consistent, the serializer round-trips, and the cache
        is typed. */
    ghost predicate Valid()
      reads this, db, cache
    {
      && db.Valid()
      && RoundTrips(cache.encode, cache.decode)
      && CacheTyped(cache.entries, cache.decode, db.nextId)
    }

    /** A controller is built for every request, over the shared cache as
        earlier requests left it. */
    constructor (db: TaskStore, cache: CacheService<Payload>)
      requires db.Valid() && RoundTrips(cache.encode, cache.decode)
      requires CacheTyped(cache.entries, cache.decode, db.nextId)
      ensures this.db == db && this.cache == cache
      ensures Valid() && events == [] && storeQueries == 0
    {
      this.db := db;
      this.cache := cache;
      events := [];
      storeQueries := 0;
    }

    /** `GET api/tasks/all`. */
    method GetAllTasks(now: int) returns (r: Response)
      requires Valid()
      modifies this, cache
      ensures Valid()
      ensures db.tasks == old(db.tasks) && events == old(events)
      ensures old(cache.Get(AllTasksKey, now)).Some? ==>
                && r == Ok(old(cache.Get(AllTasksKey, now)).value) && r.body.TaskList?
                && cache.entries == old(cache.entries) && storeQueries == old(storeQueries)
      ensures old(cache.Get(AllTasksKey, now)).None? ==>
                && r == Ok(TaskList(AllNewestFirst(db.tasks)))
                && cache.entries == Write(old(cache.entries), cache.encode, AllTasksKey, r.body, Some(EntryTtl), now)
                && storeQueries == old(storeQueries) + 1
    {
      var cached := cache.Get(AllTasksKey, now);
      if cached.Some? {
        return Ok(cached.value);
      }
      var tasks := AllNewestFirst(db.tasks);
      storeQueries := storeQueries + 1;
      WriteListKeepsCacheTyped(cache.entries, cache.encode, cache.decode, db.nextId, tasks, Some(EntryTtl), now);
      cache.Set(AllTasksKey, TaskList(tasks), Some(EntryTtl), now);
      r := Ok(TaskList(tasks));
    }

    /** `GET api/tasks?search=&status=&page=&pageSize=`: paging is normalised
        first, and the request is answered from the entry under its list key
        when there is one. */
    method GetTasks(search: Option<string>, status: Option<string>, page: int, pageSize: int, now: int)
      returns (r: Response)
      requires Valid() && IsInt32(page) && IsInt32(pageSize)
      modifies this, cache
      ensures Valid()
      ensures db.tasks == old(db.tasks) && events == old(events)
      ensures var key := RequestKey(search, status, page, pageSize);
              old(cache.Get(key, now)).Some? ==>
                && r == Ok(old(cache.Get(key, now)).value) && r.body.PageValue?
                && cache.entries == old(cache.entries) && storeQueries == old(storeQueries)
      ensures var key := RequestKey(search, status, page, pageSize);
              var result := ListPage(db.tasks, search, status, NormalizePage(page), NormalizePageSize(pageSize));
              old(cache.Get(key, now)).None? ==>
                && storeQueries == old(storeQueries) + 2
                && (result.None? ==> r == ServerError && cache.entries == old(cache.entries))
                && (result.Some? ==>
                      && r == Ok(PageValue(result.value))
                      && cache.entries == Write(old(cache.entries), cache.encode, key, r.body, Some(EntryTtl), now))
    {
      var p, z := page, pageSize;
      if p <= 0 {
        p := 1;
      }
      if z <= 0 {
        z := 10;
      }
      var key := ListKey(search, status, p, z);
      var cached := cache.Get(key, now);
      if cached.Some? {
        return Ok(cached.value);
      }
      var result := ListPage(db.tasks, search, status, p, z);
      // `CountAsync`, then the page query (which the database may refuse).
      storeQueries := storeQueries + 2;
      if result.None? {
        return ServerError;
      }
      WritePageKeepsCacheTyped(cache.entries, cache.encode, cache.decode, db.nextId, search, status, p, z, result.value,
                               Some(EntryTtl), now);
      cache.Set(key, PageValue(result.value), Some(EntryTtl), now);
      r := Ok(PageValue(result.value));
    }

    /** `GET api/tasks/{id}`: the cached record, or the stored one (then
        cached), or `NotFound` with nothing cached. */
    method GetTask(id: int, now: int) returns (r: Response)
      requires Valid()
      modifies this, cache
      ensures Valid()
      ensures db.tasks == old(db.tasks) && events == old(events)
      ensures old(cache.Get(TaskKey(id), now)).Some? ==>
                && r == Ok(old(cache.Get(TaskKey(id), now)).value)
                && r.body.TaskValue? && r.body.task.id == id
                && cache.entries == old(cache.entries) && storeQueries == old(storeQueries)
      ensures old(cache.Get(TaskKey(id), now)).None? ==> storeQueries == old(storeQueries) + 1
      ensures old(cache.Get(TaskKey(id), now)).None? && id !in db.tasks ==>
                r == NotFound && cache.entries == old(cache.entries)
      ensures old(cache.Get(TaskKey(id), now)).None? && id in db.tasks ==>
                && r == Ok(TaskValue(db.tasks[id]))
                && cache.entries == Write(old(cache.entries), cache.encode, TaskKey(id), r.body, Some(EntryTtl), now)
    {
      var key := TaskKey(id);
      var cached := cache.Get(key, now);
      if cached.Some? {
        return Ok(cached.value);
      }
      storeQueries := storeQueries + 1;
      if id !in db.tasks {
        return NotFound;
      }
      var task := db.tasks[id];
      WriteTaskKeepsCacheTyped(cache.entries, cache.encode, cache.decode, db.nextId, task, Some(EntryTtl), now);
      cache.Set(key, TaskValue(task), Some(EntryTtl), now);
      r := Ok(TaskValue(task));
    }

    /** `POST api/tasks`: stamps the creation time, inserts the record under
        a fresh id and evicts `all_tasks`. */
    method CreateTask(task: Task, now: int) returns (r: Response)
      requires Valid() && now > MinTime
      modifies this, db, cache
      ensures Valid()
      ensures r.Created?
      ensures r.created == task.(id := r.created.id, createdAt := now)
      ensures r.created.createdAt > MinTime
      ensures 0 < r.created.id && r.created.id !in old(db.tasks)
      ensures db.tasks == old(db.tasks)[r.created.id := r.created]
      ensures cache.entries == old(cache.entries) - {AllTasksKey}
      ensures TaskKey(r.created.id) !in cache.entries
      ensures events == old(events) && storeQueries == old(storeQueries)
    {
      var stamped := task.(createdAt := now);
      var id := db.Add(stamped);
      assert TaskKey(id) !in cache.entries;
      cache.Remove(AllTasksKey);
      r := Created(stamped.(id := id));
    }

    /** `PUT api/tasks/{id}`: overwrites title, description and status of the
        stored record, announcing a status change, and evicts `all_tasks`. */
    method UpdateTask(id: int, task: Task) returns (r: Response)
      requires Valid()
      modifies this, db, cache
      ensures Valid()
      ensures db.nextId == old(db.nextId)
      ensures id != task.id ==>
                && r == BadRequest && db.tasks == old(db.tasks) && cache.entries == old(cache.entries)
                && events == old(events) && storeQueries == old(storeQueries)
      ensures id == task.id ==> storeQueries == old(storeQueries) + 1
      ensures id == task.id && id !in old(db.tasks) ==>
                && r == NotFound && db.tasks == old(db.tasks) && cache.entries == old(cache.entries)
                && events == old(events)
      ensures id == task.id && id in old(db.tasks) ==>
                && r == NoContent
                && db.tasks == old(db.tasks)[id := ApplyUpdate(old(db.tasks)[id], task)]
                && cache.entries == old(cache.entries) - {AllTasksKey}
                && events == old(events) + (if old(db.tasks)[id].status != task.status
                                            then [Event(StatusChangedKey, id, task.status)] else [])
    {
      if id != task.id {
        return BadRequest;
      }
      storeQueries := storeQueries + 1;
      if id !in db.tasks {
        return NotFound;
      }
      var existing := db.tasks[id];
      if existing.status != task.status {
        events := events + [Event(StatusChangedKey, id, task.status)];
      }
      db.Put(ApplyUpdate(existing, task));
      cache.Remove(AllTasksKey);
      r := NoContent;
    }

    /** `DELETE api/tasks/{id}`: removes the record and evicts `all_tasks`. */
    method DeleteTask(id: int) returns (r: Response)
      requires Valid()
      modifies this, db, cache
      ensures Valid()
      ensures db.nextId == old(db.nextId) && events == old(events)
      ensures storeQueries == old(storeQueries) + 1
      ensures id !in old(db.tasks) ==>
                r == NotFound && db.tasks == old(db.tasks) && cache.entries == old(cache.entries)
      ensures id in old(db.tasks) ==>
                && r == NoContent && db.tasks == old(db.tasks) - {id}
                && cache.entries == old(cache.entries) - {AllTasksKey}
    {
      storeQueries := storeQueries + 1;
      if id !in db.tasks {
        return NotFound;
      }
      db.Remove(id);
      cache.Remove(AllTasksKey);
      r := NoContent;
    }
  }

  /** A record just created is found by id: no entry for its fresh id can be
      in the cache, so the read goes to the table. */
  method CreateThenGet(c: TasksController, task: Task, now: int) returns (created: Response, fetched: Response)
    requires c.Valid() && now > MinTime
    modifies c, c.db, c.cache
    ensures c.Valid()
    ensures created.Created? && created.created.createdAt == now
    ensures fetched == Ok(TaskValue(created.created))
  {
    created := c.CreateTask(task, now);
    fetched := c.GetTask(created.created.id, now);
  }

  /** A read that misses caches the record for five minutes: a second read
      of the same id within that time is a hit, returns the same record and
      does not query the table again. */
  method GetTaskTwice(c: TasksController, id: int, now: int, later: int) returns (first: Response, second: Response)
    requires c.Valid() && id in c.db.tasks && c.cache.Get(TaskKey(id), now).None?
    requires now <= later < now + EntryTtl
    modifies c, c.cache
    ensures c.Valid()
    ensures first == Ok(TaskValue(old(c.db.tasks)[id])) && second == first
    ensures c.storeQueries == old(c.storeQueries) + 1
  {
    first := c.GetTask(id, now);
    second := c.GetTask(id, later);
  }

  /** An update evicts only `all_tasks`: a record read (and so cached) before
      the update is still served, as it was before, by the next read of its
      id within five minutes. */
  method ReadAfterUpdateIsStale(c: TasksController, id: int, task: Task, now: int, later: int)
    returns (before: Response, update: Response, after: Response)
    requires c.Valid() && id in c.db.tasks && task.id == id && c.cache.Get(TaskKey(id), now).None?
    requires now <= later < now + EntryTtl
    modifies c, c.db, c.cache
    ensures c.Valid()
    ensures update == NoContent && id in c.db.tasks
    ensures c.db.tasks[id] == ApplyUpdate(old(c.db.tasks)[id], task)
    ensures before == Ok(TaskValue(old(c.db.tasks)[id])) && after == before
  {
    before := c.GetTask(id, now);
    update := c.UpdateTask(id, task);
    after := c.GetTask(id, later);
  }
}
