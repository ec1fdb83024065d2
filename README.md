# TodoAPI task service, modelled in Dafny

The model covers the core of the TodoAPI service. Clients create, read, update and delete
tasks through `TasksController`. The controller reads cache-aside. A read looks in a
distributed cache first. On a miss it queries the task table and caches the result for
five minutes. Every write changes the table and evicts only the `all_tasks` entry. An
update that changes a task's status publishes a `task.status.changed` message.

Beside the controller the model has:

- `SQLTaskRepository`: a second front end to the table. Its paging query filters by exact
  equality.
- `RedisCacheService`: a typed get/set/remove over a key → (payload, expiry) map.
- `TodoAnalyticsService.GetStats`: the active and completed counts.
- The `Tasks` record and its defaults.

Modules, one file each:

| file | module | models |
|---|---|---|
| `wrappers.dfy` | `Wrappers` | `Option` (null / a value) |
| `text.dfy` | `Text` | `ToLower` (ASCII), `Contains`, the decimal form of an `int` in string interpolation |
| `tasks.dfy` | `TaskModel` | the `Tasks` record, `new Tasks()`, and the table (`TaskStore`: a map from id to record with an identity counter) |
| `query.dfy` | `TaskQuery` | table scans, `Where`, `CountAsync`, `OrderByDescending(CreatedAt)`, `Skip`/`Take`, and the two filter semantics |
| `keys.dfy` | `CacheKeys` | the cache keys `task_{id}`, `all_tasks` and `tasks_search=…_status=…_page=…_pageSize=…` |
| `cache.dfy` | `Cache` | `RedisCacheService` over the distributed cache |
| `repository.dfy` | `Repository` | `SQLTaskRepository` |
| `analytics.dfy` | `Analytics` | `TodoAnalyticsService.GetStats` |
| `controller.dfy` | `Controller` | `TasksController`, plus three client scenarios |

Model state and conventions:

- The table is a class whose `tasks` map and `nextId` counter are updated in place. Its
  invariant says every record is stored under its own positive id, below `nextId`.
- The cache is a class holding a `map<string, Entry>`. An entry is the serialized payload
  and its absolute expiry time. Time is an integer number of seconds, passed in as `now`.
  An entry is live while `now < expiry`.
- The controller caches one `Payload` type: a task, a task list or a page envelope.
- The controller's invariant (`TasksController.Valid`) says the cache is typed. A `task_{id}`
  entry holds the record with that id, and the id has already been handed out. `all_tasks`
  holds a list. A list key holds a page envelope.
- The broker is a ghost log `events`. A ghost counter `storeQueries` counts the queries sent to
  the table (each `FindAsync`, `ToListAsync` and `CountAsync`), so the contracts can state that a cache hit never consults the table.

The list cache key is not injective. An absent filter and the literal filter `"null"` give
the same key. A search term containing `_status=` can also imitate a status filter. A key
built from filters and paging would be expected to separate distinct combinations; this one
does not. The model follows the code: it proves the key does separate different paging, and
it exhibits both collisions (`CacheKeys.ListKeyConflatesNullLiteral`,
`CacheKeys.ListKeyConflatesFilters`).

The page offset `(page - 1) * pageSize` is computed in unchecked 32-bit `int` arithmetic, in
the controller and in the repository alike, and the model computes it the same way
(`TaskQuery.Offset`). A product past `int.MaxValue` wraps. Page 65537 of size 65536 starts at
offset 0 and so returns page 1's rows in an envelope that reports page 65537, which the
controller then caches. Page 1073741825 of size 2 gets a negative offset, which the database
refuses: the request fails with an unhandled exception (`Response.ServerError`) and nothing
is cached (`Controller.FarPagesWrap`).

The controller and the repository filter differently:

- The controller matches a case-insensitive substring on the title and a case-insensitive
  equality on the status.
- The repository compares the title and the status exactly against the lower-cased terms.

The model proves that every row the repository keeps, the controller keeps too, and gives
rows for which the converse fails.

## Model

| member | source | states |
|---|---|---|
| TaskModel.NewTask | TodoAPI/TodoAPI/Models/Tasks.cs:7-24 | a new record has empty title and description, status "active", id 0 and the minimum creation time |
| TaskModel.ApplyUpdate | TodoAPI/TodoAPI/Controllers/TasksController.cs:147-149 | an update keeps id and creation time and takes title, description and status from the incoming record |
| TaskModel.TaskStore.Add | TodoAPI/TodoAPI/Repository/SQLTaskRepository.cs:50-54 | insertion stores the record under a fresh positive id that was not in the table, writes that id into it, leaves every other record unchanged and keeps ids unique |
| TaskModel.TaskStore.Put | TodoAPI/TodoAPI/Repository/SQLTaskRepository.cs:58-65 | saving a tracked record replaces only the record under its id and keeps the table invariant |
| TaskModel.TaskStore.Remove | TodoAPI/TodoAPI/Repository/SQLTaskRepository.cs:67-71 | removal deletes exactly that id and keeps the table invariant |
| Text.Lower | TodoAPI/TodoAPI/Controllers/TasksController.cs:72 | lower-casing keeps the length and maps each character on its own |
| Text.LowerIdempotent | TodoAPI/TodoAPI/Repository/SQLTaskRepository.cs:27 | lower-casing a lower-cased string changes nothing |
| Text.Contains | TodoAPI/TodoAPI/Controllers/TasksController.cs:72 | ordinal `string.Contains` as a scan: the term is a prefix of the string or is contained in its tail; `ContainsIffOccurs` ties it to occurrence at a position |
| Text.ContainsIffOccurs | TodoAPI/TodoAPI/Controllers/TasksController.cs:72 | the substring scan finds the term exactly when the term occurs in the string at some position |
| Text.ContainsSelf | TodoAPI/TodoAPI/Controllers/TasksController.cs:72 | every string contains itself |
| Text.IntToString | TodoAPI/TodoAPI/Controllers/TasksController.cs:104 | the decimal form of an integer is non-empty, has no underscore, and starts with a digit exactly when the integer is not negative |
| Text.DecimalExamples | TodoAPITests/TasksControllerTests/GetTaskTests.cs:45 | 1, 10 and 999 render as `1`, `10` and `999`, most significant digit first |
| Text.IntToStringInjective | TodoAPI/TodoAPI/Controllers/TasksController.cs:104 | different integers have different decimal forms |
| TaskQuery.Rows | TodoAPI/TodoAPI/Repository/SQLTaskRepository.cs:42-45 | a table scan yields every stored record and only stored records, one row per key |
| TaskQuery.RowsKeyed | TodoAPI/TodoAPI/Models/Tasks.cs:9-11 | when records are stored under their own ids, every scanned row is the record stored under its id |
| TaskQuery.Where | TodoAPI/TodoAPI/Controllers/TasksController.cs:70-77 | filtering never lengthens the sequence and keeps only rows of it that satisfy the filter |
| TaskQuery.WhereKeeps | TodoAPI/TodoAPI/Controllers/TasksController.cs:70-77 | filtering drops no row that satisfies the filter |
| TaskQuery.WhereExactly | TodoAPI/TodoAPI/Controllers/TasksController.cs:70-77 | a row is in the filtered sequence exactly when it is in the input and satisfies the filter |
| TaskQuery.IdQueryFindsStored | TodoAPI/TodoAPI/Repository/SQLTaskRepository.cs:46-49 | the query by id finds a row exactly when the id is stored, and its first row is the record stored under that id |
| TaskQuery.CountMatching | TodoAPI/TodoAPI/Controllers/TasksController.cs:79 | counting the filtered scan gives the number of stored records that satisfy the filter |
| TaskQuery.NewestFirst | TodoAPI/TodoAPI/Controllers/TasksController.cs:80 | ordering by creation time descending yields a permutation of the rows whose creation times never increase |
| TaskQuery.Listing | TodoAPI/TodoAPI/Controllers/TasksController.cs:68-80 | the filtered listing is newest first, holds exactly the stored records the filter keeps, and is as long as their count |
| TaskQuery.Window | TodoAPI/TodoAPI/Controllers/TasksController.cs:81-82 | `Skip(offset).Take(size)` yields the entries from the offset on, as many as the size allows and as are left, in order |
| TaskQuery.Skip | TodoAPI/TodoAPI/Controllers/TasksController.cs:81 | `Skip(n)` drops the first n entries, all of them when n is at least the length, none when n is not positive |
| TaskQuery.Take | TodoAPI/TodoAPI/Controllers/TasksController.cs:82 | `Take(n)` keeps the first n entries, all of them when n is at least the length, none when n is not positive |
| TaskQuery.Page | TodoAPI/TodoAPI/Controllers/TasksController.cs:80-83 | for an offset the database accepts, entry j of page `page` is entry offset+j of the listing, the page has min(pageSize, remaining) entries, and it keeps newest-first order |
| TaskQuery.Wrap32 | TodoAPI/TodoAPI/Controllers/TasksController.cs:81 | unchecked `int` arithmetic: the result is an `int` congruent to the exact value modulo 2^32, and equal to it when it fits |
| TaskQuery.Offset | TodoAPI/TodoAPI/Controllers/TasksController.cs:81 | the offset is `(page - 1) * pageSize` in unchecked `int` arithmetic: always congruent to the exact product modulo 2^32, and equal to it when it fits in an `int` |
| TaskQuery.WrappedProductCongruent | TodoAPI/TodoAPI/Controllers/TasksController.cs:81 | wrapping a factor and then the product gives a value congruent to the exact product modulo 2^32 |
| TaskQuery.OffsetWraps | TodoAPI/TodoAPI/Repository/SQLTaskRepository.cs:36 | page 65537 of size 65536 has offset 0, and page 1073741825 of size 2 has offset `int.MinValue` |
| TaskQuery.ControllerMatches | TodoAPI/TodoAPI/Controllers/TasksController.cs:70-77 | a non-empty search keeps records whose lower-cased title contains the lower-cased term, a non-empty status keeps records whose lower-cased status equals the lower-cased filter, both together, and an absent or empty filter keeps every record |
| TaskQuery.RepositoryMatches | TodoAPI/TodoAPI/Repository/SQLTaskRepository.cs:25-32 | a non-empty search keeps records whose title equals the lower-cased term exactly, a non-empty status keeps records whose status equals the lower-cased filter exactly, both together, and an absent or empty filter keeps every record |
| TaskQuery.RepositoryFilterNarrowerThanController | TodoAPI/TodoAPI/Repository/SQLTaskRepository.cs:25-32 | every row the repository's exact filters keep, the controller's case-insensitive filters keep too |
| TaskQuery.ControllerFilterWiderThanRepository | TodoAPI/TodoAPI/Controllers/TasksController.cs:70-77 | the converse fails: a title differing only in case, and a title containing the term as a proper substring, are kept by the controller but not by the repository |
| CacheKeys.AllTasksKey | TodoAPI/TodoAPI/Controllers/TasksController.cs:35 | the key of the full list is `all_tasks` |
| CacheKeys.TaskKey | TodoAPI/TodoAPI/Controllers/TasksController.cs:104 | the key of one record is `task_` followed by its decimal id |
| CacheKeys.ListKey | TodoAPI/TodoAPI/Controllers/TasksController.cs:59-60 | the key of a list page is `tasks_search={search ?? "null"}_status={status ?? "null"}_page={page}_pageSize={pageSize}` |
| CacheKeys.KeyExamples | TodoAPITests/TasksControllerTests/GetTasksTests.cs:49 | `task_1`, `task_999` and the default list key `tasks_search=null_status=null_page=1_pageSize=10` are spelled exactly as the endpoints expect |
| CacheKeys.TaskKeyInjective | TodoAPI/TodoAPI/Controllers/TasksController.cs:104 | two ids share a `task_{id}` key exactly when they are equal |
| CacheKeys.KeyKindsDistinct | TodoAPI/TodoAPI/Controllers/TasksController.cs:35 | `all_tasks`, task keys and list keys never coincide |
| CacheKeys.ListKeyDeterminesPaging | TodoAPI/TodoAPI/Controllers/TasksController.cs:59-60 | with the same filters, two list keys are equal exactly when page and page size are equal |
| CacheKeys.ListKeyConflatesNullLiteral | TodoAPI/TodoAPI/Controllers/TasksController.cs:59-60 | an absent search or status gives the same key as the literal filter "null" |
| CacheKeys.ListKeyConflatesFilters | TodoAPI/TodoAPI/Controllers/TasksController.cs:59-60 | a search term containing `_status=` gives the same key as a different search and status pair |
| Cache.TtlOrDefault | TodoAPI/TodoAPI/Service/RedisCacheService.cs:30-31 | the given time to live is used, and five minutes when none is given |
| Cache.Read | TodoAPI/TodoAPI/Service/RedisCacheService.cs:15-22 | a read hits only on a stored, unexpired, non-empty payload, and then yields its deserialization |
| Cache.Write | TodoAPI/TodoAPI/Service/RedisCacheService.cs:24-34 | a write stores the serialized value under the key, expiring after the time to live, and keeps every other key |
| Cache.ReadAfterWrite | TodoAPI/TodoAPI/Service/RedisCacheService.cs:21-27 | before expiry, reading the key just written returns the value written |
| Cache.ReadAfterExpiry | TodoAPI/TodoAPI/Service/RedisCacheService.cs:28-33 | once the time to live has passed, the written key reads as absent |
| Cache.WriteKeepsOtherKeys | TodoAPI/TodoAPI/Service/RedisCacheService.cs:33 | writing one key leaves every read of another key unchanged |
| Cache.ReadAfterRemove | TodoAPI/TodoAPI/Service/RedisCacheService.cs:36-39 | after removal the key reads as absent, and every other key reads as before |
| Cache.CacheService.constructor | TodoAPI/TodoAPI/Service/RedisCacheService.cs:10-13 | a new service wraps the distributed cache as it stands, with a serializer that round-trips |
| Cache.CacheService.Get | TodoAPI/TodoAPI/Service/RedisCacheService.cs:15-22 | `GetAsync` hits only on a stored, unexpired, non-empty payload, and on such a payload yields its deserialization |
| Cache.CacheService.Set | TodoAPI/TodoAPI/Service/RedisCacheService.cs:24-34 | the cache after `SetAsync` is the write of the value under the key |
| Cache.CacheService.Remove | TodoAPI/TodoAPI/Service/RedisCacheService.cs:36-39 | `RemoveAsync` evicts exactly that key |
| Repository.SqlTaskRepository.GetPaginationTasks | TodoAPI/TodoAPI/Repository/SQLTaskRepository.cs:21-41 | the query fails exactly when the page size or the wrapped offset is negative; otherwise entry j of the result is entry offset+j of the newest-first listing of the records the exact filters keep, and the result has min(pageSize, count - offset) entries (at least 0) |
| Repository.SqlTaskRepository.GetAllAsync | TodoAPI/TodoAPI/Repository/SQLTaskRepository.cs:42-45 | every stored record is returned, one row per key |
| Repository.SqlTaskRepository.GetByIdAsync | TodoAPI/TodoAPI/Repository/SQLTaskRepository.cs:46-49 | a record is found exactly when one is stored under the id, and it is that record |
| Repository.SqlTaskRepository.CreateAsync | TodoAPI/TodoAPI/Repository/SQLTaskRepository.cs:50-54 | the given record is added under a fresh positive id, and every other record is unchanged |
| Repository.SqlTaskRepository.UpdateAsync | TodoAPI/TodoAPI/Repository/SQLTaskRepository.cs:55-66 | only title, description and status of the stored record change |
| Repository.SqlTaskRepository.DeleteAsync | TodoAPI/TodoAPI/Repository/SQLTaskRepository.cs:67-71 | exactly that record is removed |
| Analytics.CountStatus | TodoAPI/TodoAPI/Service/TodoAnalyticsService.cs:17-18 | the count is the number of stored records whose status equals the given one exactly |
| Analytics.DistinctStatusesCountedApart | TodoAPI/TodoAPI/Service/TodoAnalyticsService.cs:17-18 | the counts of two different statuses add up to at most the number of stored records |
| Analytics.GetStats | TodoAPI/TodoAPI/Service/TodoAnalyticsService.cs:13-27 | ActiveTasks counts status "active" exactly, CompletedTasks counts "completed" exactly, and their sum is at most the table size |
| Controller.NormalizePage | TodoAPI/TodoAPI/Controllers/TasksController.cs:56 | a page of at most 0 becomes 1; a positive page is kept |
| Controller.NormalizePageSize | TodoAPI/TodoAPI/Controllers/TasksController.cs:57 | a page size of at most 0 becomes 10; a positive size is kept |
| Controller.RequestKeySharedIffSamePaging | TodoAPI/TodoAPI/Controllers/TasksController.cs:56-60 | two list requests with the same filters share a key exactly when their normalised paging is equal |
| Controller.OutOfRangePagingSharesDefaultKey | TodoAPI/TodoAPI/Controllers/TasksController.cs:56-60 | a request with non-positive page and size uses the key of page 1, size 10 |
| Controller.RequestKey | TodoAPI/TodoAPI/Controllers/TasksController.cs:56-60 | the key of a list request is the list key of its normalised paging; `RequestKeySharedIffSamePaging` and `OutOfRangePagingSharesDefaultKey` state what it separates |
| Controller.ListPage | TodoAPI/TodoAPI/Controllers/TasksController.cs:68-91 | the query fails exactly when the wrapped offset is negative; otherwise total counts the matching records before paging, entry j of items is entry offset+j of the newest-first listing of the matching records, items are at most pageSize and at most total, and the envelope carries the normalised paging |
| Controller.FarPagesWrap | TodoAPI/TodoAPI/Controllers/TasksController.cs:80-91 | page 65537 of size 65536 holds page 1's rows under page number 65537, and page 1073741825 of size 2 fails |
| Controller.AllNewestFirst | TodoAPI/TodoAPI/Controllers/TasksController.cs:41 | the full list holds every stored record once, newest first |
| Controller.AllKeyKindsDistinct | TodoAPI/TodoAPI/Controllers/TasksController.cs:35 | no task key or list key is `all_tasks`, and no list key is a task key |
| Controller.WriteTaskKeepsCacheTyped | TodoAPI/TodoAPI/Controllers/TasksController.cs:112-113 | caching a record under its own handed-out id keeps the cache typed |
| Controller.WriteListKeepsCacheTyped | TodoAPI/TodoAPI/Controllers/TasksController.cs:42 | caching a list under `all_tasks` keeps the cache typed |
| Controller.WritePageKeepsCacheTyped | TodoAPI/TodoAPI/Controllers/TasksController.cs:93-94 | caching a page envelope under a list key keeps the cache typed |
| Controller.TasksController.constructor | TodoAPI/TodoAPI/Controllers/TasksController.cs:22-29 | a controller built over a valid table and a typed cache, as earlier requests left it, is valid, with no events and no queries |
| Controller.TasksController.GetAllTasks | TodoAPI/TodoAPI/Controllers/TasksController.cs:33-45 | a hit returns the cached list and changes nothing; a miss queries the table once, returns every record newest first and caches it under `all_tasks` for five minutes |
| Controller.TasksController.GetTasks | TodoAPI/TodoAPI/Controllers/TasksController.cs:50-97 | paging is normalised first; a hit on the request's key returns the cached envelope and changes nothing; a miss queries the table twice (the count, then the page) and either fails with nothing cached (negative wrapped offset) or returns the filtered, counted, paged envelope and caches it for five minutes under that key |
| Controller.TasksController.GetTask | TodoAPI/TodoAPI/Controllers/TasksController.cs:102-116 | a hit returns the cached record (whose id is the one asked for) and changes nothing; a miss on an absent id is NotFound and caches nothing; a miss on a stored id returns it and caches it under `task_{id}` for five minutes |
| Controller.TasksController.CreateTask | TodoAPI/TodoAPI/Controllers/TasksController.cs:120-130 | the record is stamped with the current time, so its creation time is after `DateTime.MinValue`, added under a fresh positive id with no cached `task_{id}` entry, and only `all_tasks` is evicted |
| Controller.TasksController.UpdateTask | TodoAPI/TodoAPI/Controllers/TasksController.cs:134-156 | an id mismatch is BadRequest before any lookup or change; an absent id is NotFound; otherwise only title, description and status change, exactly one status-change event is published iff the status differs, and only `all_tasks` is evicted |
| Controller.TasksController.DeleteTask | TodoAPI/TodoAPI/Controllers/TasksController.cs:160-169 | an absent id is NotFound with nothing changed; otherwise exactly that record is removed and only `all_tasks` is evicted |
| Controller.CreateThenGet | TodoAPI/TodoAPI/Controllers/TasksController.cs:102-130 | a record just created is returned by a read of its id |
| Controller.GetTaskTwice | TodoAPI/TodoAPI/Controllers/TasksController.cs:102-116 | within five minutes of a miss, a second read of the id returns the same record without querying the table again |
| Controller.ReadAfterUpdateIsStale | TodoAPI/TodoAPI/Controllers/TasksController.cs:134-156 | a record read before an update is served unchanged by a read within five minutes after it, because the update does not evict `task_{id}` |

## Left out

- Program.cs (dependency injection, Swagger and gRPC wiring, the database connect-and-migrate retry loop) is startup plumbing and is not part of this model.
- RabbitMqService.cs (connection, exchange, JSON and UTF-8 encoding, `BasicPublish`) is broker I/O. Publishing is modelled only as appending an event to the ghost log.
- AppDbContext.cs and Entity Framework change tracking are modelled as the `TaskStore` class: a map from id to record, with an identity counter that hands out fresh positive ids.
- JSON serialization is a pair of functions supplied when the cache service is built. They are required to round-trip and never to serialize to the empty string. Deserializing a payload into a type other than the one cached is not modelled. The controller's invariant rules this out for its own keys. A payload that does not deserialize reads as a miss: the model does not tell a stored `null` (a miss in the source) from malformed JSON (on which `JsonSerializer.Deserialize` throws).
- Redis is one store shared by every request. The model hands its contents to each new cache service instead of aliasing one store between service objects.
- Integer parameters are C# `int`s: the list endpoints require page and page size within the `int` range, which model binding enforces. `CountAsync` returning an `int` is taken not to overflow.
- `ToLower` is ASCII-only. Culture-specific case mappings are not modelled.
- The clock is the `now` parameter in seconds. `DateTime.MinValue` is time 0. Cache expiry is an integer compared with `now`.
- async/await and concurrent requests are not modelled. Each request runs as one sequential method.
- The controller removes keys through `IDistributedCache` and reads and writes through `ICacheService`. Both sit over the same store, so the model has one cache map.
- Controller.TasksController.UpdateTask, CreateTask, DeleteTask: calls to the database, the cache and the broker are taken to succeed. The source publishes the status-change event before it saves, so a failed save would leave a published event for an unchanged record, and `all_tasks` would stay cached; the model does not capture a failing save. `TaskStore.nextId` is unbounded, while the source's `int` identity column is not.
- Controller.TasksController.CreateTask: requires the clock to be past `DateTime.MinValue`. The id always comes from the identity counter. A client-supplied non-zero id, which the database would try to insert as given, is not modelled.
- Repository.SqlTaskRepository.CreateAsync: same as CreateTask. The client-supplied id is replaced by a fresh one.
- Repository.SqlTaskRepository.GetPaginationTasks: the count the source computes is discarded by the source, so it is not returned. The failure on a negative offset or limit is `None`; the exception itself is not modelled.
- Repository.SqlTaskRepository.GetByIdAsync: requires the table invariant (every record is stored under its own id). `FirstOrDefaultAsync(t => t.Id == id)` finds the record under key `id` only then.
- Repository.SqlTaskRepository.UpdateAsync: requires the id to be stored. The source dereferences the lookup result without a null check and would throw.
- Repository.SqlTaskRepository.DeleteAsync: requires the id to be stored. Removing a record whose id is not stored affects no row, and saving the change throws a concurrency exception.
- Cache.CacheService.Set: requires a positive time to live, or none. The distributed cache's entry options refuse a non-positive relative expiry.
- TaskQuery.NewestFirst: among records with equal creation times the model keeps table-scan (id) order. The database's order for such ties is unspecified.
- The interfaces `ICacheService` and `IRepository` have no behaviour of their own.
