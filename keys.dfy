/**
  The cache keys the controller reads and writes: `task_{id}` for one task,
  `all_tasks` for the full list and
  `tasks_search={search ?? "null"}_status={status ?? "null"}_page={page}_pageSize={pageSize}`
  for one page of a filtered list.
 */
module CacheKeys {
  import opened Wrappers
  import opened Text

  const AllTasksKey: string := "all_tasks"

  function TaskKey(id: int): string
  {
    "task_" + IntToString(id)
  }

  /** `s ?? "null"`. */
  function OrNull(s: Option<string>): string
  {
    if s.Some? then s.value else "null"
  }

  /** The part of a list key that encodes the filters. */
  function ListKeyPrefix(search: Option<string>, status: Option<string>): string
  {
    "tasks_search=" + OrNull(search) + "_status=" + OrNull(status) + "_page="
  }

  /** The part of a list key that encodes the paging. */
  function PagingSuffix(page: int, pageSize: int): string
  {
    IntToString(page) + "_pageSize=" + IntToString(pageSize)
  }

  function ListKey(search: Option<string>, status: Option<string>, page: int, pageSize: int): string
  {
    ListKeyPrefix(search, status) + PagingSuffix(page, pageSize)
  }

  /** The spellings the endpoints use for the first task and for the
      default list request. */
  lemma KeyExamples()
    ensures TaskKey(1) == "task_1" && TaskKey(999) == "task_999"
    ensures ListKey(None, None, 1, 10) == "tasks_search=null_status=null_page=1_pageSize=10"
  {
    DecimalExamples();
    assert PagingSuffix(1, 10) == "1_pageSize=10";
    assert ListKeyPrefix(None, None) == "tasks_search=null_status=null_page=";
  }

  /** One task key per id: `task_{a}` and `task_{b}` coincide exactly when a == b. */
  lemma TaskKeyInjective(a: int, b: int)
    ensures TaskKey(a) == TaskKey(b) <==> a == b
  {
    if TaskKey(a) == TaskKey(b) {
      assert IntToString(a) == TaskKey(a)[5..] == TaskKey(b)[5..] == IntToString(b);
      IntToStringInjective(a, b);
    }
  }

  /** The three kinds of key never collide with each other. */
  lemma KeyKindsDistinct(id: int, search: Option<string>, status: Option<string>, page: int, pageSize: int)
    ensures TaskKey(id) != AllTasksKey
    ensures ListKey(search, status, page, pageSize) != AllTasksKey
    ensures ListKey(search, status, page, pageSize) != TaskKey(id)
  {
    var t, l := TaskKey(id), ListKey(search, status, page, pageSize);
    assert t[0] == 't' && AllTasksKey[0] == 'a';
    assert l[0] == 't';
    assert t[4] == '_' && l[4] == 's';
  }

  /** In `x + sep + y`, the first '_' is the one that starts `sep`. */
  lemma FirstUnderscoreAt(x: string, y: string, sep: string)
    requires |sep| > 0 && sep[0] == '_'
    requires '_' !in x
    ensures (x + sep + y)[|x|] == '_'
    ensures forall i :: 0 <= i < |x| ==> (x + sep + y)[i] != '_'
  {
    assert forall i :: 0 <= i < |x| ==> (x + sep + y)[i] == x[i];
  }

  /** Splitting `x + sep + y` at a separator that starts with '_' is unambiguous
      when `x` holds no '_'. */
  lemma SplitAtSeparator(x1: string, y1: string, x2: string, y2: string, sep: string)
    requires |sep| > 0 && sep[0] == '_'
    requires '_' !in x1 && '_' !in x2
    requires x1 + sep + y1 == x2 + sep + y2
    ensures x1 == x2 && y1 == y2
  {
    var w1, w2 := x1 + sep + y1, x2 + sep + y2;
    FirstUnderscoreAt(x1, y1, sep);
    FirstUnderscoreAt(x2, y2, sep);
    assert |x1| == |x2|;
    assert x1 == w1[..|x1|] && x2 == w2[..|x2|];
    assert y1 == w1[|x1| + |sep|..] && y2 == w2[|x2| + |sep|..];
  }

  /** For the same filters, the list key determines the page and the page size:
      two list keys coincide exactly when both numbers do. */
  lemma {:induction false} ListKeyDeterminesPaging(search: Option<string>, status: Option<string>,
                                                   p1: int, z1: int, p2: int, z2: int)
    ensures ListKey(search, status, p1, z1) == ListKey(search, status, p2, z2) <==> p1 == p2 && z1 == z2
  {
    if ListKey(search, status, p1, z1) == ListKey(search, status, p2, z2) {
      var pre := ListKeyPrefix(search, status);
      var x1, y1 := IntToString(p1), IntToString(z1);
      var x2, y2 := IntToString(p2), IntToString(z2);
      var k1, k2 := ListKey(search, status, p1, z1), ListKey(search, status, p2, z2);
      assert PagingSuffix(p1, z1) == k1[|pre|..] == k2[|pre|..] == PagingSuffix(p2, z2);
      SplitAtSeparator(x1, y1, x2, y2, "_pageSize=");
      IntToStringInjective(p1, p2);
      IntToStringInjective(z1, z2);
    }
  }

  /** The list key is not injective in the filters: an absent search term and
      the literal search term "null" share a key ... */
  lemma ListKeyConflatesNullLiteral(status: Option<string>, page: int, pageSize: int)
    ensures ListKey(None, status, page, pageSize) == ListKey(Some("null"), status, page, pageSize)
    ensures ListKey(Some("a"), None, page, pageSize) == ListKey(Some("a"), Some("null"), page, pageSize)
  {
  }

  /** ... and a search term that itself holds "_status=" can impersonate a
      different pair of filters. */
  lemma ListKeyConflatesFilters(page: int, pageSize: int)
    ensures ListKey(Some("a_status=b"), None, page, pageSize)
         == ListKey(Some("a"), Some("b_status=null"), page, pageSize)
  {
    var head, sep, tail := "tasks_search=", "_status=", "_page=";
    assert "a_status=b" == "a" + sep + "b";
    assert "b_status=null" == "b" + sep + "null";
    calc {
      ListKeyPrefix(Some("a_status=b"), None);
      head + ("a" + sep + "b") + sep + "null" + tail;
      head + "a" + sep + ("b" + sep + "null") + tail;
      ListKeyPrefix(Some("a"), Some("b_status=null"));
    }
  }
}
