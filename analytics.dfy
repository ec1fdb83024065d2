/**
  `TodoAnalyticsService.GetStats`: how many stored tasks are active and how
  many are completed.  The statuses are compared exactly.
 */
module Analytics {
  import opened TaskModel
  import opened TaskQuery

  datatype StatsResponse = StatsResponse(activeTasks: int, completedTasks: int)

  /** `CountAsync(a => a.Status.Equals(status))`. */
  function CountStatus(tasks: map<int, Task>, status: string): (n: nat)
    ensures n == |set k | k in tasks && tasks[k].status == status|
  {
    CountMatching(tasks, StatusEquals(status));
    StatusKeys(tasks, status);
    |Where(Rows(tasks), StatusEquals(status))|
  }

  /** The keys matched by the status filter are those whose status is exactly `status`. */
  lemma StatusKeys(tasks: map<int, Task>, status: string)
    ensures MatchingKeys(tasks, StatusEquals(status)) == set k | k in tasks && tasks[k].status == status
  {
  }

  /** Records of two different statuses are counted apart, so the two counts
      together never exceed the number of stored records. */
  lemma DistinctStatusesCountedApart(tasks: map<int, Task>, s1: string, s2: string)
    requires s1 != s2
    ensures CountStatus(tasks, s1) + CountStatus(tasks, s2) <= |tasks|
  {
    var a := set k | k in tasks && tasks[k].status == s1;
    var b := set k | k in tasks && tasks[k].status == s2;
    assert a !! b;
    assert a + b <= tasks.Keys;
    assert |a + b| == |a| + |b|;
    SubsetCardinality(a + b, tasks.Keys);
  }

  lemma {:induction false} SubsetCardinality(a: set<int>, b: set<int>)
    requires a <= b
    ensures |a| <= |b|
    decreases |b|
  {
    if a != {} {
      EmptyOrInhabited(a);
      var x :| x in a;
      SubsetCardinality(a - {x}, b - {x});
    }
  }

  /** `GetStats`: the active and completed counts; tasks of any other status
      ("pending", "Active", ...) are counted in neither. */
  function GetStats(tasks: map<int, Task>): (r: StatsResponse)
    ensures r.activeTasks == |set k | k in tasks && tasks[k].status == "active"|
    ensures r.completedTasks == |set k | k in tasks && tasks[k].status == "completed"|
    ensures r.activeTasks + r.completedTasks <= |tasks|
  {
    DistinctStatusesCountedApart(tasks, "active", "completed");
    StatsResponse(CountStatus(tasks, "active"), CountStatus(tasks, "completed"))
  }
}
