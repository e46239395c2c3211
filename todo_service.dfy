/** The todo service: the paginated, filtered and ordered read of the `todos`
    table and the four writes to it. The hosted table is modelled as the
    sequence of its rows; a write's successful effect is a function from the
    old rows to the new ones. */
module TodoService {
  import opened Wrappers
  import opened Seqs
  import opened Pagination
  import opened TodoTypes

  /** The one table the service talks to. */
  const TodosTable: string := "todos"

  /** The sort direction `getTodos` uses when its caller gives none. */
  const DefaultSort: int := -1

  /** The query `getTodos` sends: the table, the direction of the order on
      `updated_at`, the inclusive row range and an optional equality on `done`. */
  datatype Query = Query(
    table: string,
    ascending: bool,
    rangeFrom: nat,
    rangeTo: nat,
    doneEq: Option<bool>)

  /** Whether a row belongs in the view the filter value names. */
  predicate Matches(t: Todo, filter: string)
    // only `'undone'` excludes a done row, only `'done'` a row not done
    ensures Matches(t, filter) <==> (t.done ==> filter != "undone") && (!t.done ==> filter != "done")
  {
    if filter == "done" then t.done
    else if filter == "undone" then !t.done
    else true
  }

  /** The query `getTodos(limit, offset, sort, filter)` builds. */
  function QueryFor(limit: nat, offset: nat, sort: int, filter: string): (q: Query)
    requires limit > 0
    ensures q.table == TodosTable
    ensures q.ascending <==> sort == 1
    ensures q.rangeFrom == offset && q.rangeTo - q.rangeFrom + 1 == limit
    ensures q.doneEq.Some? <==> filter == "done" || filter == "undone"
    ensures forall t: Todo :: (q.doneEq.None? || t.done == q.doneEq.value) <==> Matches(t, filter)
  {
    var base := Query(TodosTable, sort == 1, offset, offset + limit - 1, None);
    if filter == "done" then base.(doneEq := Some(true))
    else if filter == "undone" then base.(doneEq := Some(false))
    else base
  }

  /** The query builder as `getTodos` writes it: a base query that the filter
      may narrow by reassignment. */
  method BuildQuery(limit: nat, offset: nat, sort: int, filter: string) returns (q: Query)
    requires limit > 0
    ensures q == QueryFor(limit, offset, sort, filter)
  {
    q := Query(TodosTable, sort == 1, offset, offset + limit - 1, None);
    if filter == "done" {
      q := q.(doneEq := Some(true));
    } else if filter == "undone" {
      q := q.(doneEq := Some(false));
    }
  }

  // ---------------------------------------------------------------------------
  // Row semantics of a query

  /** `a` may be listed before `b` when ordering by `updated_at` in the given direction. */
  predicate InOrder(a: Todo, b: Todo, ascending: bool) {
    if ascending then a.updatedAt <= b.updatedAt else a.updatedAt >= b.updatedAt
  }

  ghost predicate SortedBy(s: seq<Todo>, ascending: bool) {
    forall i, j | 0 <= i < j < |s| :: InOrder(s[i], s[j], ascending)
  }

  /** Inserts `x` into rows already ordered by `updated_at`. */
  function Insert(x: Todo, s: seq<Todo>, ascending: bool): (r: seq<Todo>)
    requires SortedBy(s, ascending)
    ensures SortedBy(r, ascending)
    ensures multiset(r) == multiset(s) + multiset{x}
  {
    if s == [] then [x]
    else if InOrder(x, s[0], ascending) then [x] + s
    else
      var rest := Insert(x, s[1..], ascending);
      InsertBehindHead(s, x, rest, ascending);
      [s[0]] + rest
  }

  /** Putting the head of ordered rows in front of the insertion into the rest
      keeps the order when the inserted row does not go first. */
  lemma InsertBehindHead(s: seq<Todo>, x: Todo, rest: seq<Todo>, ascending: bool)
    requires s != [] && SortedBy(s, ascending) && !InOrder(x, s[0], ascending)
    requires SortedBy(rest, ascending) && multiset(rest) == multiset(s[1..]) + multiset{x}
    ensures SortedBy([s[0]] + rest, ascending)
    ensures multiset([s[0]] + rest) == multiset(s) + multiset{x}
  {
    assert s == [s[0]] + s[1..];
    forall y | y in rest ensures InOrder(s[0], y, ascending) {
      assert y in multiset(rest);
      if y != x {
        assert y in multiset(s[1..]);
        var k :| 0 <= k < |s[1..]| && s[1..][k] == y;
        assert s[k + 1] == y;
      }
    }
    assert forall j | 0 <= j < |rest| :: rest[j] in rest;
  }

  /** The rows in the order `.order('updated_at', { ascending })` returns them:
      ordered by `updated_at`, and a rearrangement of the input. */
  function OrderByUpdated(s: seq<Todo>, ascending: bool): (r: seq<Todo>)
    ensures SortedBy(r, ascending)
    ensures multiset(r) == multiset(s)
  {
    if s == [] then []
    else
      assert s == [s[0]] + s[1..];
      Insert(s[0], OrderByUpdated(s[1..], ascending), ascending)
  }

  /** The rows `.range(from, to)` keeps: positions `from` to `to`, both included. */
  function Window(s: seq<Todo>, from: nat, to: nat): (r: seq<Todo>)
    requires from <= to
    ensures |r| <= to - from + 1
    ensures |r| == if from < |s| then (if to < |s| then to + 1 else |s|) - from else 0
    ensures forall k | 0 <= k < |r| :: r[k] == s[from + k]
  {
    if from >= |s| then []
    else if to < |s| then s[from..to + 1]
    else s[from..]
  }

  /** The rows the `done` equality keeps, if the query has one. */
  function Where(rows: seq<Todo>, doneEq: Option<bool>): (r: seq<Todo>)
    ensures forall t :: t in r <==> t in rows && (doneEq.None? || t.done == doneEq.value)
    ensures forall t :: multiset(r)[t] == if doneEq.None? || t.done == doneEq.value then multiset(rows)[t] else 0
    ensures doneEq.None? ==> r == rows
  {
    Filter(rows, (t: Todo) => doneEq.None? || t.done == doneEq.value)
  }

  /** The rows the table returns for a query: narrowed by the `done`
      equality, ordered by `updated_at`, then cut to the requested range. */
  function Execute(rows: seq<Todo>, q: Query): (r: seq<Todo>)
    requires q.rangeFrom <= q.rangeTo
    ensures |r| <= q.rangeTo - q.rangeFrom + 1
    ensures forall t | t in r :: t in rows && (q.doneEq.None? || t.done == q.doneEq.value)
    ensures SortedBy(r, q.ascending)
  {
    var w := Where(rows, q.doneEq);
    var sorted := OrderByUpdated(w, q.ascending);
    OrderedMembers(w, q.ascending);
    WindowMembers(sorted, q.rangeFrom, q.rangeTo);
    Window(sorted, q.rangeFrom, q.rangeTo)
  }

  /** The rows a query returns are exactly the admitted rows, in order, at
      the positions its range names. */
  lemma ExecuteRows(rows: seq<Todo>, q: Query)
    requires q.rangeFrom <= q.rangeTo
    ensures var sorted := OrderByUpdated(Where(rows, q.doneEq), q.ascending);
      var r := Execute(rows, q);
      forall k | 0 <= k < |r| :: q.rangeFrom + k < |sorted| && r[k] == sorted[q.rangeFrom + k]
  {
  }

  lemma OrderedMembers(s: seq<Todo>, ascending: bool)
    ensures forall t | t in OrderByUpdated(s, ascending) :: t in s
  {
    var r := OrderByUpdated(s, ascending);
    forall t | t in r ensures t in s {
      assert t in multiset(r);
    }
  }

  lemma WindowMembers(s: seq<Todo>, from: nat, to: nat)
    requires from <= to
    ensures forall t | t in Window(s, from, to) :: t in s
  {
    var r := Window(s, from, to);
    forall t | t in r ensures t in s {
      var k :| 0 <= k < |r| && r[k] == t;
      assert s[from + k] == t;
    }
  }

  /** Paging is seamless: the page at `offset` followed by the page right
      after it is the page of twice the size at `offset`, so no admitted row
      is skipped or shown twice between consecutive pages. */
  lemma ConsecutivePages(rows: seq<Todo>, limit: nat, offset: nat, sort: int, filter: string)
    requires limit > 0
    ensures Execute(rows, QueryFor(limit, offset, sort, filter))
          + Execute(rows, QueryFor(limit, offset + limit, sort, filter))
         == Execute(rows, QueryFor(2 * limit, offset, sort, filter))
  {
    QueriesAdjoin(limit, offset, sort, filter);
    ExecuteSplit(rows, QueryFor(limit, offset, sort, filter), QueryFor(limit, offset + limit, sort, filter));
  }

  /** The query for the next page differs from the current one only in a
      range that starts right after it. */
  lemma QueriesAdjoin(limit: nat, offset: nat, sort: int, filter: string)
    requires limit > 0
    ensures var q1, q2 := QueryFor(limit, offset, sort, filter), QueryFor(limit, offset + limit, sort, filter);
      && q2.rangeFrom == q1.rangeTo + 1
      && q1.doneEq == q2.doneEq && q1.ascending == q2.ascending
      && q1.(rangeTo := q2.rangeTo) == QueryFor(2 * limit, offset, sort, filter)
  {
  }

  /** Two queries that differ only in adjoining ranges return, together, what
      the query over the joined range returns. */
  lemma ExecuteSplit(rows: seq<Todo>, q1: Query, q2: Query)
    requires q1.rangeFrom <= q1.rangeTo && q2.rangeFrom == q1.rangeTo + 1 && q2.rangeFrom <= q2.rangeTo
    requires q1.doneEq == q2.doneEq && q1.ascending == q2.ascending
    ensures Execute(rows, q1) + Execute(rows, q2) == Execute(rows, q1.(rangeTo := q2.rangeTo))
  {
    var s := OrderByUpdated(Where(rows, q1.doneEq), q1.ascending);
    JoinWindows(s, q1.rangeFrom, q1.rangeTo, q2.rangeTo);
  }

  /** Adjoining inclusive ranges concatenate. */
  lemma JoinWindows(s: seq<Todo>, from: nat, mid: nat, to: nat)
    requires from <= mid < to
    ensures Window(s, from, mid) + Window(s, mid + 1, to) == Window(s, from, to)
  {
    var a, b, c := Window(s, from, mid), Window(s, mid + 1, to), Window(s, from, to);
    assert |a + b| == |c|;
    forall k | 0 <= k < |c| ensures (a + b)[k] == c[k] {
      if k >= |a| {
        assert (a + b)[k] == b[k - |a|];
      }
    }
  }

  /** What a `getTodos` query returns: at most `limit` rows, every one a row of
      the table that the filter admits, ordered by `updated_at` ascending
      exactly when `sort == 1`. */
  lemma ExecuteSpec(rows: seq<Todo>, limit: nat, offset: nat, sort: int, filter: string)
    requires limit > 0
    ensures var r := Execute(rows, QueryFor(limit, offset, sort, filter));
      && |r| <= limit
      && (forall t | t in r :: t in rows && Matches(t, filter))
      && SortedBy(r, sort == 1)
  {
  }

  /** The range is exact: the query returns every admitted row in the window,
      so a page is short only when the admitted rows run out. */
  lemma ExecuteSize(rows: seq<Todo>, limit: nat, offset: nat, sort: int, filter: string)
    requires limit > 0
    ensures var n := |Where(rows, QueryFor(limit, offset, sort, filter).doneEq)|;
      |Execute(rows, QueryFor(limit, offset, sort, filter))| ==
        if offset < n then (if offset + limit <= n then limit else n - offset) else 0
  {
    var q := QueryFor(limit, offset, sort, filter);
    var w := Where(rows, q.doneEq);
    assert |OrderByUpdated(w, q.ascending)| == |multiset(w)| == |w|;
  }

  /** `getTodos(limit, offset, sort, filter)`: runs the query against `rows`,
      the whole `todos` table; `reachable` says whether the table answered
      and `counted` whether the exact row count came back. The count is taken
      over the whole table, with no filter. */
  method GetTodos(rows: seq<Todo>, limit: nat, offset: nat, sort: int, filter: string, reachable: bool, counted: bool)
    returns (r: Result<TodosResult>)
    requires limit > 0
    ensures r.Ok? <==> reachable
    ensures r.Ok? ==> r.value == Paginate(
      Execute(rows, QueryFor(limit, offset, sort, filter)), limit, offset,
      if counted then Some(|rows|) else None)
    ensures r.Ok? ==> |r.value.data| <= limit
    ensures r.Ok? ==> forall t | t in r.value.data :: t in rows && Matches(t, filter)
  {
    var q := BuildQuery(limit, offset, sort, filter);
    if !reachable {
      return Failure;
    }
    var data := Execute(rows, q);
    ExecuteSpec(rows, limit, offset, sort, filter);
    var count := if counted then Some(|rows|) else None;
    r := Ok(Paginate(data, limit, offset, count));
  }

  /** The page pointers do not depend on the filter: the count behind them
      is taken over the whole table. */
  lemma PagesIgnoreFilter(rows: seq<Todo>, limit: nat, offset: nat, sort: int, f1: string, f2: string, counted: bool)
    requires limit > 0
    ensures var count := if counted then Some(|rows|) else None;
      var p1 := Paginate(Execute(rows, QueryFor(limit, offset, sort, f1)), limit, offset, count);
      var p2 := Paginate(Execute(rows, QueryFor(limit, offset, sort, f2)), limit, offset, count);
      p1.totalPages == p2.totalPages && p1.nextPage == p2.nextPage && p1.previousPage == p2.previousPage
  {
  }

  // ---------------------------------------------------------------------------
  // Writes: the effect of each successful call on the table's rows

  /** `createTodo(todo)`: the table assigns a fresh id and the creation time,
      and the new row starts not done. */
  function CreateTodo(rows: seq<Todo>, t: NewTodo, id: string, now: int): (r: seq<Todo>)
    requires ValidNewTodo(t)
    requires forall row | row in rows :: row.id != id
    ensures |r| == |rows| + 1 && r[..|rows|] == rows
    ensures var created := r[|rows|];
      created.id == id && created.title == t.title && created.content == t.content && !created.done
    ensures r[|rows|].createdAt == now && r[|rows|].updatedAt == now
    ensures UniqueIds(rows) ==> UniqueIds(r)
  {
    rows + [Todo(id, t.title, t.content, false, now, now)]
  }

  /** `markTodoAsDone(id)`: every row with that id becomes done; nothing
      else in the table changes. */
  function MarkTodoAsDone(rows: seq<Todo>, id: string): (r: seq<Todo>)
    ensures |r| == |rows|
    ensures forall i | 0 <= i < |r| :: r[i].(done := rows[i].done) == rows[i]
    ensures forall i | 0 <= i < |r| :: r[i].done == (rows[i].done || rows[i].id == id)
  {
    if rows == [] then []
    else
      var head := if rows[0].id == id then rows[0].(done := true) else rows[0];
      [head] + MarkTodoAsDone(rows[1..], id)
  }

  /** `updateTodo(id, todo)`: rows with that id take the new title and
      content; nothing else in the table changes. */
  function UpdateTodo(rows: seq<Todo>, id: string, t: NewTodo): (r: seq<Todo>)
    requires ValidNewTodo(t)
    ensures |r| == |rows|
    ensures forall i | 0 <= i < |r| :: r[i].(title := rows[i].title, content := rows[i].content) == rows[i]
    ensures forall i | 0 <= i < |r| :: rows[i].id == id ==> r[i].title == t.title && r[i].content == t.content
    ensures forall i | 0 <= i < |r| :: rows[i].id != id ==> r[i] == rows[i]
  {
    if rows == [] then []
    else
      var head := if rows[0].id == id then rows[0].(title := t.title, content := t.content) else rows[0];
      var rest := UpdateTodo(rows[1..], id, t);
      assert forall i | 1 <= i < |rows| :: rows[i] == rows[1..][i - 1] && ([head] + rest)[i] == rest[i - 1];
      [head] + rest
  }

  /** `deleteTodo(id)`: exactly the rows with that id leave the table; the
      others stay, in their order. */
  function DeleteTodo(rows: seq<Todo>, id: string): (r: seq<Todo>)
    ensures forall t :: t in r <==> t in rows && t.id != id
    ensures forall t :: multiset(r)[t] == if t.id != id then multiset(rows)[t] else 0
    ensures IsSubsequence(r, rows)
    ensures (forall t | t in rows :: t.id != id) ==> r == rows
  {
    Filter(rows, (t: Todo) => t.id != id)
  }

  /** Marking a todo done a second time changes nothing. */
  lemma {:induction false} MarkTodoAsDoneIdempotent(rows: seq<Todo>, id: string)
    ensures MarkTodoAsDone(MarkTodoAsDone(rows, id), id) == MarkTodoAsDone(rows, id)
  {
    if rows != [] {
      MarkTodoAsDoneIdempotent(rows[1..], id);
    }
  }

  /** The writes keep ids unique. */
  lemma {:induction false} WritesKeepIdsUnique(rows: seq<Todo>, id: string, t: NewTodo)
    requires UniqueIds(rows) && ValidNewTodo(t)
    ensures UniqueIds(MarkTodoAsDone(rows, id))
    ensures UniqueIds(UpdateTodo(rows, id, t))
    ensures UniqueIds(DeleteTodo(rows, id))
  {
    var m := MarkTodoAsDone(rows, id);
    assert forall i | 0 <= i < |m| :: m[i].id == rows[i].id;
    var u := UpdateTodo(rows, id, t);
    assert forall i | 0 <= i < |u| :: u[i].id == rows[i].id;
    SubsequenceKeepsIdsUnique(DeleteTodo(rows, id), rows);
  }

  lemma {:induction false} SubsequenceKeepsIdsUnique(sub: seq<Todo>, s: seq<Todo>)
    requires IsSubsequence(sub, s) && UniqueIds(s)
    ensures UniqueIds(sub)
    decreases |s|
  {
    if sub != [] && s != [] {
      if sub[0] == s[0] {
        SubsequenceKeepsIdsUnique(sub[1..], s[1..]);
        SubsequenceMembers(sub[1..], s[1..]);
        forall j | 0 < j < |sub| ensures sub[0].id != sub[j].id {
          assert sub[j] in sub[1..];
          var k :| 0 <= k < |s[1..]| && s[1..][k] == sub[j];
          assert s[k + 1] == sub[j];
        }
      } else {
        SubsequenceKeepsIdsUnique(sub, s[1..]);
      }
    }
  }

  lemma {:induction false} SubsequenceMembers(sub: seq<Todo>, s: seq<Todo>)
    requires IsSubsequence(sub, s)
    ensures forall x | x in sub :: x in s
    decreases |s|
  {
    if sub != [] && s != [] {
      if sub[0] == s[0] {
        SubsequenceMembers(sub[1..], s[1..]);
        assert forall x | x in sub :: x == sub[0] || x in sub[1..];
      } else {
        SubsequenceMembers(sub, s[1..]);
      }
    }
  }

  /** Some row with this id is admitted by the filter. */
  ghost predicate InView(rows: seq<Todo>, filter: string, id: string) {
    exists t :: t in rows && t.id == id && Matches(t, filter)
  }

  /** The life of one todo in the table: once created it is admitted
      unfiltered and by the not-done filter; once marked done it is admitted
      by the done filter and no longer by the not-done one; once deleted no
      filter admits a row with its id. */
  lemma Lifecycle(rows: seq<Todo>, todo: NewTodo, id: string, now: int)
    requires ValidNewTodo(todo)
    requires forall row | row in rows :: row.id != id
    ensures var created := CreateTodo(rows, todo, id, now);
      var marked := MarkTodoAsDone(created, id);
      var deleted := DeleteTodo(marked, id);
      && InView(created, "all", id) && InView(created, "undone", id) && !InView(created, "done", id)
      && !InView(marked, "undone", id) && InView(marked, "done", id)
      && forall f: string :: !InView(deleted, f, id)
  {
    var created := CreateTodo(rows, todo, id, now);
    var row := created[|rows|];
    assert row in created;
    forall t | t in created && t.id == id ensures t == row {
      var k :| 0 <= k < |created| && created[k] == t;
    }
    var marked := MarkTodoAsDone(created, id);
    assert marked[|rows|] in marked;
    forall t | t in marked && t.id == id ensures t.done {
      var k :| 0 <= k < |marked| && marked[k] == t;
    }
  }

  /** A row updated strictly later than every other row of the table is the
      first row of the first page, newest first, of every view admitting it. */
  lemma NewestFirst(rows: seq<Todo>, t: Todo, limit: nat, filter: string)
    requires limit > 0 && t in rows && Matches(t, filter)
    requires forall u | u in rows && u != t :: u.updatedAt < t.updatedAt
    ensures var page := Execute(rows, QueryFor(limit, 0, DefaultSort, filter));
      |page| > 0 && page[0] == t
  {
    var q := QueryFor(limit, 0, DefaultSort, filter);
    var w := Where(rows, q.doneEq);
    var sorted := OrderByUpdated(w, q.ascending);
    assert t in multiset(sorted);
    var k :| 0 <= k < |sorted| && sorted[k] == t;
    assert sorted[0] in multiset(sorted);
  }

  /** The page starts with exactly this row. */
  predicate Heads(page: seq<Todo>, row: Todo) {
    |page| > 0 && page[0] == row
  }

  /** The life of a todo as `getTodos` lists it, when the table stamps the new
      row later than every existing one: the first page, newest first, shows
      it unfiltered and among the not-done todos; once it is marked done it
      heads the first page of the done todos and no page of the not-done ones
      lists it; once deleted no page of any view lists it. */
  lemma LifecycleListed(rows: seq<Todo>, todo: NewTodo, id: string, now: int,
                        limit: nat, offset: nat, sort: int, filter: string)
    requires ValidNewTodo(todo)
    requires forall row | row in rows :: row.id != id && row.updatedAt < now
    requires limit > 0
    ensures var created := CreateTodo(rows, todo, id, now);
      var marked := MarkTodoAsDone(created, id);
      var deleted := DeleteTodo(marked, id);
      && Heads(Execute(created, QueryFor(limit, 0, DefaultSort, "all")), Todo(id, todo.title, todo.content, false, now, now))
      && Heads(Execute(created, QueryFor(limit, 0, DefaultSort, "undone")), Todo(id, todo.title, todo.content, false, now, now))
      && Heads(Execute(marked, QueryFor(limit, 0, DefaultSort, "done")), Todo(id, todo.title, todo.content, true, now, now))
      && (forall t | t in Execute(marked, QueryFor(limit, offset, sort, "undone")) :: t.id != id)
      && (forall t | t in Execute(deleted, QueryFor(limit, offset, sort, filter)) :: t.id != id)
  {
    CreatedListed(rows, todo, id, now, limit);
    MarkedListed(rows, todo, id, now, limit);
    Lifecycle(rows, todo, id, now);
    var marked := MarkTodoAsDone(CreateTodo(rows, todo, id, now), id);
    ExecuteSpec(marked, limit, offset, sort, "undone");
    ExecuteSpec(DeleteTodo(marked, id), limit, offset, sort, filter);
  }

  lemma CreatedListed(rows: seq<Todo>, todo: NewTodo, id: string, now: int, limit: nat)
    requires ValidNewTodo(todo)
    requires forall row | row in rows :: row.id != id && row.updatedAt < now
    requires limit > 0
    ensures var created := CreateTodo(rows, todo, id, now);
      && Heads(Execute(created, QueryFor(limit, 0, DefaultSort, "all")), Todo(id, todo.title, todo.content, false, now, now))
      && Heads(Execute(created, QueryFor(limit, 0, DefaultSort, "undone")), Todo(id, todo.title, todo.content, false, now, now))
  {
    var created := CreateTodo(rows, todo, id, now);
    var row := created[|rows|];
    assert row in created;
    forall u | u in created && u != row ensures u.updatedAt < row.updatedAt {
      var k :| 0 <= k < |created| && created[k] == u;
      assert created[k] in rows;
    }
    NewestFirst(created, row, limit, "all");
    NewestFirst(created, row, limit, "undone");
  }

  lemma MarkedListed(rows: seq<Todo>, todo: NewTodo, id: string, now: int, limit: nat)
    requires ValidNewTodo(todo)
    requires forall row | row in rows :: row.id != id && row.updatedAt < now
    requires limit > 0
    ensures var marked := MarkTodoAsDone(CreateTodo(rows, todo, id, now), id);
      Heads(Execute(marked, QueryFor(limit, 0, DefaultSort, "done")), Todo(id, todo.title, todo.content, true, now, now))
  {
    var created := CreateTodo(rows, todo, id, now);
    var marked := MarkTodoAsDone(created, id);
    var mrow := marked[|rows|];
    assert mrow in marked;
    forall u | u in marked && u != mrow ensures u.updatedAt < mrow.updatedAt {
      var k :| 0 <= k < |marked| && marked[k] == u;
      assert created[k] in rows;
    }
    NewestFirst(marked, mrow, limit, "done");
  }
}
