/**
  The query building blocks that the controller and the repository compose:
  scanning the table, `Where`, `OrderByDescending(t => t.CreatedAt)`, `Skip`
  and `Take`, and `CountAsync`, together with the two filter semantics.
 */
module TaskQuery {
  import opened Wrappers
  import opened Text
  import opened TaskModel

  function Min(a: int, b: int): int { if a <= b then a else b }
  function Max(a: int, b: int): int { if a <= b then b else a }

  /** A set is empty or has an element. */
  lemma EmptyOrInhabited(ks: set<int>)
    ensures ks == {} || exists k :: k in ks
  {
    if forall k :: k !in ks {
      assert ks == {};
    }
  }

  /** Every non-empty finite set of integers has a least element. */
  lemma {:induction false} HasLeast(ks: set<int>)
    requires ks != {}
    ensures exists m :: m in ks && forall k :: k in ks ==> m <= k
    decreases |ks|
  {
    EmptyOrInhabited(ks);
    var x :| x in ks;
    var rest := ks - {x};
    assert forall k :: k in ks ==> k == x || k in rest;
    if rest == {} {
      assert x in ks && forall k :: k in ks ==> x <= k;
    } else {
      HasLeast(rest);
      var m :| m in rest && forall k :: k in rest ==> m <= k;
      var w := Min(x, m);
      assert w in ks && forall k :: k in ks ==> w <= k;
    }
  }

  function Least(ks: set<int>): (m: int)
    requires ks != {}
    ensures m in ks && forall k :: k in ks ==> m <= k
  {
    HasLeast(ks);
    var m :| m in ks && forall k :: k in ks ==> m <= k; m
  }

  /** Strictly ascending. */
  predicate Ascending(s: seq<int>)
  {
    forall i, j :: 0 <= i < j < |s| ==> s[i] < s[j]
  }

  /** The least key in front of the other keys in ascending order. */
  lemma LeastInFront(ks: set<int>, m: int, rest: seq<int>)
    requires m in ks && forall k :: k in ks ==> m <= k
    requires |rest| == |ks - {m}| && (forall k :: k in rest <==> k in ks - {m}) && Ascending(rest)
    ensures |[m] + rest| == |ks| && (forall k :: k in [m] + rest <==> k in ks) && Ascending([m] + rest)
  {
    var r := [m] + rest;
    forall i, j | 0 <= i < j < |r| ensures r[i] < r[j] {
      assert r[j] == rest[j - 1] && rest[j - 1] in rest;
      if i > 0 {
        assert r[i] == rest[i - 1];
      }
    }
  }

  /** The keys in ascending order. */
  function SortedKeys(ks: set<int>): (r: seq<int>)
    ensures |r| == |ks|
    ensures forall k :: k in r <==> k in ks
    ensures Ascending(r)
    decreases |ks|
  {
    if ks == {} then []
    else
      var m := Least(ks);
      var rest := SortedKeys(ks - {m});
      LeastInFront(ks, m, rest);
      [m] + rest
  }

  /** The records stored under `keys`, in that order. */
  function RowsOf(keys: seq<int>, tasks: map<int, Task>): (r: seq<Task>)
    requires forall i :: 0 <= i < |keys| ==> keys[i] in tasks
    ensures |r| == |keys|
    ensures forall i :: 0 <= i < |keys| ==> r[i] == tasks[keys[i]]
  {
    seq(|keys|, i requires 0 <= i < |keys| => tasks[keys[i]])
  }

  /** The rows of all the keys of the table are its records. */
  lemma RowsOfAllKeys(keys: seq<int>, tasks: map<int, Task>)
    requires forall k :: k in keys <==> k in tasks
    ensures forall i :: 0 <= i < |keys| ==> keys[i] in tasks
    ensures forall t :: t in RowsOf(keys, tasks) ==> t in tasks.Values
    ensures forall k :: k in tasks ==> tasks[k] in RowsOf(keys, tasks)
  {
    forall i | 0 <= i < |keys| ensures keys[i] in tasks {
      var k := keys[i];
      assert k in keys;
    }
    var r := RowsOf(keys, tasks);
    forall k | k in tasks ensures tasks[k] in r {
      assert k in keys;
      var i :| 0 <= i < |keys| && keys[i] == k;
      assert r[i] == tasks[k];
    }
  }

  /** A scan of the table: one row per stored record, in key order. */
  function Rows(tasks: map<int, Task>): (r: seq<Task>)
    ensures |r| == |tasks|
    ensures forall t :: t in r ==> t in tasks.Values
    ensures forall k :: k in tasks ==> tasks[k] in r
  {
    var keys := SortedKeys(tasks.Keys);
    RowsOfAllKeys(keys, tasks);
    RowsOf(keys, tasks)
  }

  /** In a table keyed by id, every row is the record stored under its own id. */
  lemma RowsKeyed(tasks: map<int, Task>)
    requires KeyedById(tasks)
    ensures forall t :: t in Rows(tasks) ==> t.id in tasks && tasks[t.id] == t
  {
    var keys := SortedKeys(tasks.Keys);
    RowsOfAllKeys(keys, tasks);
    var r := RowsOf(keys, tasks);
    assert Rows(tasks) == r;
    forall t | t in r ensures t.id in tasks && tasks[t.id] == t {
      var i :| 0 <= i < |r| && r[i] == t;
      assert t == tasks[keys[i]];
    }
  }

  /** The row predicates the queries filter by. */
  datatype Filter =
    | ControllerFilter(search: Option<string>, status: Option<string>)
    | RepositoryFilter(search: Option<string>, status: Option<string>)
    | StatusEquals(wanted: string)
    | IdEquals(key: int)

  predicate Holds(f: Filter, t: Task)
  {
    match f
    case ControllerFilter(search, status) => ControllerMatches(t, search, status)
    case RepositoryFilter(search, status) => RepositoryMatches(t, search, status)
    case StatusEquals(wanted) => t.status == wanted
    case IdEquals(key) => t.id == key
  }

  /** `Where(f)`: the rows satisfying `f`, in their original order. */
  function Where(rows: seq<Task>, f: Filter): (r: seq<Task>)
    ensures |r| <= |rows|
    ensures forall t :: t in r ==> t in rows && Holds(f, t)
    decreases |rows|
  {
    if rows == [] then []
    else (if Holds(f, rows[0]) then [rows[0]] else []) + Where(rows[1..], f)
  }

  /** `Where(f)` drops no row that satisfies `f`. */
  lemma {:induction false} WhereKeeps(rows: seq<Task>, f: Filter, t: Task)
    requires t in rows && Holds(f, t)
    ensures t in Where(rows, f)
    decreases |rows|
  {
    assert Where(rows, f) == (if Holds(f, rows[0]) then [rows[0]] else []) + Where(rows[1..], f);
    if rows[0] != t {
      WhereKeeps(rows[1..], f, t);
    }
  }

  /** Filtering a non-empty sequence: the head counts if it satisfies `f`. */
  lemma WhereCons(rows: seq<Task>, f: Filter)
    requires rows != []
    ensures |Where(rows, f)| == (if Holds(f, rows[0]) then 1 else 0) + |Where(rows[1..], f)|
  {
    assert Where(rows, f) == (if Holds(f, rows[0]) then [rows[0]] else []) + Where(rows[1..], f);
  }

  /** The rows of a non-empty key sequence: the head's record, then the rows of the rest. */
  lemma RowsOfCons(keys: seq<int>, tasks: map<int, Task>)
    requires keys != [] && forall i :: 0 <= i < |keys| ==> keys[i] in tasks
    ensures RowsOf(keys, tasks) != [] && RowsOf(keys, tasks)[0] == tasks[keys[0]]
    ensures RowsOf(keys, tasks)[1..] == RowsOf(keys[1..], tasks)
  {
  }

  /** Taking one key out of `ks` takes it out of the count of `ks * good`. */
  lemma IntersectionSplit(ks: set<int>, good: set<int>, x: int)
    requires x in ks
    ensures |ks * good| == |(ks - {x}) * good| + (if x in good then 1 else 0)
  {
    if x in good {
      assert ks * good == (ks - {x}) * good + {x};
    } else {
      assert ks * good == (ks - {x}) * good;
    }
  }

  /** Counting the filtered rows of a scan over distinct keys `ks` counts
      the keys in `good`, the keys whose record satisfies the filter. */
  lemma {:induction false} WhereCountsKeys(keys: seq<int>, ks: set<int>, good: set<int>, tasks: map<int, Task>, f: Filter)
    requires forall i :: 0 <= i < |keys| ==> keys[i] in tasks
    requires forall k :: k in keys <==> k in ks
    requires forall i, j :: 0 <= i < j < |keys| ==> keys[i] != keys[j]
    requires forall k :: k in ks && k in tasks ==> (k in good <==> Holds(f, tasks[k]))
    ensures |Where(RowsOf(keys, tasks), f)| == |ks * good|
    decreases |keys|
  {
    if keys == [] {
      assert forall k :: k !in ks;
      assert ks * good == {};
    } else {
      var x, rest := keys[0], keys[1..];
      assert x !in rest by {
        forall j | 0 <= j < |rest| ensures rest[j] != x {
          assert rest[j] == keys[j + 1];
        }
      }
      assert forall k :: k in keys <==> k == x || k in rest by {
        assert keys == [x] + rest;
      }
      WhereCountsKeys(rest, ks - {x}, good, tasks, f);
      RowsOfCons(keys, tasks);
      WhereCons(RowsOf(keys, tasks), f);
      IntersectionSplit(ks, good, x);
    }
  }

  /** The keys of the records that satisfy `f`. */
  function MatchingKeys(tasks: map<int, Task>, f: Filter): (r: set<int>)
    ensures forall k :: k in r <==> k in tasks && Holds(f, tasks[k])
  {
    set k | k in tasks && Holds(f, tasks[k])
  }

  /** Only stored keys match, so restricting the matching keys to the stored
      ones changes nothing. */
  lemma MatchingKeysStored(tasks: map<int, Task>, f: Filter)
    ensures tasks.Keys * MatchingKeys(tasks, f) == MatchingKeys(tasks, f)
  {
    assert MatchingKeys(tasks, f) <= tasks.Keys;
  }

  /** In a table keyed by id, querying by id finds a row exactly when the id
      is stored, and the first row found is the record stored under it. */
  lemma IdQueryFindsStored(tasks: map<int, Task>, id: int)
    requires KeyedById(tasks)
    ensures Where(Rows(tasks), IdEquals(id)) != [] <==> id in tasks
    ensures Where(Rows(tasks), IdEquals(id)) != [] ==> Where(Rows(tasks), IdEquals(id))[0] == tasks[id]
  {
    var found := Where(Rows(tasks), IdEquals(id));
    RowsKeyed(tasks);
    if id in tasks {
      WhereKeeps(Rows(tasks), IdEquals(id), tasks[id]);
    }
    if found != [] {
      assert found[0] in found;
    }
  }

  /** `CountAsync(f)`: the number of rows of a scan that satisfy `f` is the
      number of stored records that do. */
  lemma CountMatching(tasks: map<int, Task>, f: Filter)
    ensures |Where(Rows(tasks), f)| == |MatchingKeys(tasks, f)|
  {
    var keys := SortedKeys(tasks.Keys);
    RowsOfAllKeys(keys, tasks);
    assert Rows(tasks) == RowsOf(keys, tasks);
    MatchingKeysStored(tasks, f);
    WhereCountsKeys(keys, tasks.Keys, MatchingKeys(tasks, f), tasks, f);
  }

  /** Newest first: creation times never increase along the sequence. */
  predicate NewestFirstOrder(s: seq<Task>)
  {
    forall i, j :: 0 <= i < j < |s| ==> s[i].createdAt >= s[j].createdAt
  }

  /** The head of a newest-first sequence is at least as new as every entry. */
  lemma HeadIsNewest(s: seq<Task>)
    requires NewestFirstOrder(s) && s != []
    ensures forall x :: x in s ==> x.createdAt <= s[0].createdAt
  {
    forall x | x in s ensures x.createdAt <= s[0].createdAt {
      var i :| 0 <= i < |s| && s[i] == x;
      if i > 0 {
        assert s[0].createdAt >= s[i].createdAt;
      }
    }
  }

  /** A record at least as new as every entry of a newest-first sequence can
      go in front of it. */
  lemma ConsNewest(x: Task, s: seq<Task>)
    requires NewestFirstOrder(s)
    requires forall y :: y in s ==> y.createdAt <= x.createdAt
    ensures NewestFirstOrder([x] + s)
  {
    var r := [x] + s;
    forall i, j | 0 <= i < j < |r| ensures r[i].createdAt >= r[j].createdAt {
      assert r[j] == s[j - 1];
      if i > 0 {
        assert r[i] == s[i - 1];
      } else {
        assert s[j - 1] in s;
      }
    }
  }

  /** Inserts `t` in front of the first record that is not newer than it. */
  function InsertNewest(t: Task, s: seq<Task>): (r: seq<Task>)
    requires NewestFirstOrder(s)
    ensures NewestFirstOrder(r)
    ensures multiset(r) == multiset(s) + multiset{t}
    ensures forall x :: x in r ==> x == t || x in s
    decreases |s|
  {
    if s == [] then [t]
    else if t.createdAt >= s[0].createdAt then
      HeadIsNewest(s);
      ConsNewest(t, s);
      [t] + s
    else
      var tail := InsertNewest(t, s[1..]);
      InsertBehindHead(t, s, tail);
      [s[0]] + tail
  }

  /** The recursive step of `InsertNewest`: `t` is older than the head, and
      `tail` is `t` inserted into the rest. */
  lemma InsertBehindHead(t: Task, s: seq<Task>, tail: seq<Task>)
    requires s != [] && NewestFirstOrder(s) && t.createdAt < s[0].createdAt
    requires NewestFirstOrder(tail)
    requires multiset(tail) == multiset(s[1..]) + multiset{t}
    requires forall x :: x in tail ==> x == t || x in s[1..]
    ensures NewestFirstOrder([s[0]] + tail)
    ensures multiset([s[0]] + tail) == multiset(s) + multiset{t}
    ensures forall x :: x in [s[0]] + tail ==> x == t || x in s
  {
    assert s == [s[0]] + s[1..];
    HeadIsNewest(s);
    assert forall x :: x in s[1..] ==> x in s;
    ConsNewest(s[0], tail);
  }

  /** `OrderByDescending(t => t.CreatedAt)`: a rearrangement of the rows with
      the newest first (an insertion sort, so records created at the same time
      keep their scan order). */
  function NewestFirst(rows: seq<Task>): (r: seq<Task>)
    ensures NewestFirstOrder(r)
    ensures multiset(r) == multiset(rows)
    decreases |rows|
  {
    if rows == [] then []
    else
      assert rows == [rows[0]] + rows[1..];
      InsertNewest(rows[0], NewestFirst(rows[1..]))
  }

  /** A rearrangement has the same length and the same members. */
  lemma SameMultiset(a: seq<Task>, b: seq<Task>)
    requires multiset(a) == multiset(b)
    ensures |a| == |b| && forall t :: t in a <==> t in b
  {
    assert |a| == |multiset(a)| && |b| == |multiset(b)|;
    assert forall t :: t in a <==> t in multiset(a);
    assert forall t :: t in b <==> t in multiset(b);
  }

  /** `Where(f)` keeps exactly the rows that satisfy `f`. */
  lemma WhereExactly(rows: seq<Task>, f: Filter)
    ensures forall t :: t in Where(rows, f) <==> t in rows && Holds(f, t)
  {
    forall t | t in rows && Holds(f, t) ensures t in Where(rows, f) {
      WhereKeeps(rows, f, t);
    }
  }

  /** The rows satisfying `f`, newest first: the listing both list queries
      page through. */
  function Listing(tasks: map<int, Task>, f: Filter): (r: seq<Task>)
    ensures NewestFirstOrder(r)
    ensures forall t :: t in r ==> t in tasks.Values && Holds(f, t)
    ensures forall k :: k in tasks && Holds(f, tasks[k]) ==> tasks[k] in r
    ensures |r| == |MatchingKeys(tasks, f)|
  {
    var rows := Rows(tasks);
    var matching := Where(rows, f);
    var r := NewestFirst(matching);
    CountMatching(tasks, f);
    SameMultiset(r, matching);
    WhereExactly(rows, f);
    r
  }

  /** LINQ `Skip(n)`: a negative count skips nothing. */
  function Skip(s: seq<Task>, n: int): seq<Task>
  {
    if n <= 0 then s else if n >= |s| then [] else s[n..]
  }

  /** LINQ `Take(n)`: a non-positive count takes nothing. */
  function Take(s: seq<Task>, n: int): seq<Task>
  {
    if n <= 0 then [] else if n >= |s| then s else s[..n]
  }

  /** `Skip(offset).Take(size)`: the entries of `s` from position `offset` on,
      as many as `size` allows and as are left. */
  function Window(s: seq<Task>, offset: int, size: int): (r: seq<Task>)
    requires 0 <= offset && 0 <= size
    ensures |r| == Min(size, Max(0, |s| - offset))
    ensures forall j :: 0 <= j < |r| ==> r[j] == s[offset + j]
    ensures NewestFirstOrder(s) ==> NewestFirstOrder(r)
  {
    var r := Take(Skip(s, offset), size);
    assert NewestFirstOrder(s) ==> NewestFirstOrder(r) by {
      if NewestFirstOrder(s) {
        forall i, j | 0 <= i < j < |r| ensures r[i].createdAt >= r[j].createdAt {
          assert r[i] == s[offset + i] && r[j] == s[offset + j];
        }
      }
    }
    r
  }

  /** Page `page` of size `pageSize`: `Skip((page - 1) * pageSize).Take(pageSize)`,
      for an offset the database accepts. */
  function Page(s: seq<Task>, page: int, pageSize: int): (r: seq<Task>)
    requires IsInt32(page) && IsInt32(pageSize)
    requires 0 <= pageSize && 0 <= Offset(page, pageSize)
    ensures |r| == Min(pageSize, Max(0, |s| - Offset(page, pageSize)))
    ensures forall j :: 0 <= j < |r| ==> r[j] == s[Offset(page, pageSize) + j]
    ensures forall t :: t in r ==> t in s
    ensures NewestFirstOrder(s) ==> NewestFirstOrder(r)
  {
    var offset := Offset(page, pageSize);
    var r := Window(s, offset, pageSize);
    assert forall t :: t in r ==> t in s by {
      forall t | t in r ensures t in s {
        var j :| 0 <= j < |r| && r[j] == t;
        assert s[offset + j] == t;
      }
    }
    r
  }

  /** The range of C#'s `int`. */
  const Int32Min: int := -0x8000_0000
  const Int32Max: int := 0x7FFF_FFFF

  predicate IsInt32(x: int)
  {
    Int32Min <= x <= Int32Max
  }

  /** Unchecked `int` arithmetic: the `int` congruent to `x` modulo 2^32. */
  function Wrap32(x: int): (r: int)
    ensures IsInt32(r)
    ensures (x - r) % 0x1_0000_0000 == 0
    ensures IsInt32(x) ==> r == x
    decreases if x < Int32Min then Int32Min - x else 0, if x > Int32Max then x else 0
  {
    if x < Int32Min then Wrap32(x + 0x1_0000_0000)
    else if x > Int32Max then Wrap32(x - 0x1_0000_0000)
    else x
  }

  /** The number of entries before page `page`: `(page - 1) * pageSize`
      evaluated in unchecked `int` arithmetic, so a product past `Int32Max`
      wraps around and may come out negative. */
  function Offset(page: int, pageSize: int): (n: int)
    requires IsInt32(page) && IsInt32(pageSize)
    ensures IsInt32(n)
    ensures (n - (page - 1) * pageSize) % 0x1_0000_0000 == 0
    ensures IsInt32(page - 1) && IsInt32((page - 1) * pageSize) ==> n == (page - 1) * pageSize
  {
    WrappedProductCongruent(page - 1, pageSize);
    Wrap32(Wrap32(page - 1) * pageSize)
  }

  /** Multiplying the wrapped `x` by `y` and wrapping again gives a value
      congruent to `x * y` modulo 2^32. */
  lemma WrappedProductCongruent(x: int, y: int)
    ensures (Wrap32(Wrap32(x) * y) - x * y) % 0x1_0000_0000 == 0
  {
    var a := Wrap32(x);
    var b := Wrap32(a * y);
    var k := MultipleOf32(x - a);
    var m := MultipleOf32(a * y - b);
    Distribute(a, k, y);
    assert b - x * y == (-m - k * y) * 0x1_0000_0000;
    MultipleIsCongruent(-m - k * y);
  }

  /** A difference divisible by 2^32 is a whole multiple of it. */
  lemma MultipleOf32(d: int) returns (q: int)
    requires d % 0x1_0000_0000 == 0
    ensures d == q * 0x1_0000_0000
  {
    q := d / 0x1_0000_0000;
  }

  lemma Distribute(a: int, k: int, y: int)
    ensures (a + k * 0x1_0000_0000) * y == a * y + (k * y) * 0x1_0000_0000
  {
  }

  lemma MultipleIsCongruent(c: int)
    ensures (c * 0x1_0000_0000) % 0x1_0000_0000 == 0
  {
  }

  /** A page far enough out wraps back to offset 0, and one a little further
      to a negative offset. */
  lemma OffsetWraps()
    ensures Offset(65537, 65536) == 0
    ensures Offset(1073741825, 2) == Int32Min
  {
  }

  /** `string.IsNullOrEmpty`. */
  predicate IsNullOrEmpty(s: Option<string>)
  {
    s.None? || s.value == ""
  }

  /** The controller's filters: the lower-cased title contains the
      lower-cased search term, and the lower-cased status equals the
      lower-cased status filter; an absent or empty filter keeps every row. */
  predicate ControllerMatches(t: Task, search: Option<string>, status: Option<string>)
  {
    && (IsNullOrEmpty(search) || Contains(Lower(t.title), Lower(search.value)))
    && (IsNullOrEmpty(status) || Lower(t.status) == Lower(status.value))
  }

  /** The repository's filters: the title equals the lower-cased search term
      and the status equals the lower-cased status filter, both compared
      exactly; an absent or empty filter keeps every row. */
  predicate RepositoryMatches(t: Task, search: Option<string>, status: Option<string>)
  {
    && (IsNullOrEmpty(search) || t.title == Lower(search.value))
    && (IsNullOrEmpty(status) || t.status == Lower(status.value))
  }

  /** Every row the repository's filters keep, the controller's keep too. */
  lemma RepositoryFilterNarrowerThanController(t: Task, search: Option<string>, status: Option<string>)
    requires RepositoryMatches(t, search, status)
    ensures ControllerMatches(t, search, status)
  {
    if !IsNullOrEmpty(search) {
      LowerIdempotent(search.value);
      ContainsSelf(Lower(t.title));
    }
    if !IsNullOrEmpty(status) {
      LowerIdempotent(status.value);
    }
  }

  /** The converse fails twice over: the controller compares case-insensitively
      ("Ab" is found by "ab") and by substring ("ab" is found by "b"); the
      repository finds neither. */
  lemma ControllerFilterWiderThanRepository()
    ensures var t := Task(1, "Ab", "", "active", MinTime);
            ControllerMatches(t, Some("ab"), None) && !RepositoryMatches(t, Some("ab"), None)
    ensures var t := Task(1, "ab", "", "active", MinTime);
            ControllerMatches(t, Some("b"), None) && !RepositoryMatches(t, Some("b"), None)
  {
    assert Lower("Ab") == "ab" && Lower("ab") == "ab" && Lower("b") == "b";
    assert Contains("ab", "ab");
    assert Contains("ab", "b") by {
      assert "ab"[1..] == "b" && Contains("b", "b");
    }
  }
}
