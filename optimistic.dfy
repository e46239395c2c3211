/** The optimistic "mark done" mutation: before the remote write, the cached
    page for the active filter is patched so that the todo shows as done (and
    leaves the not-done view); if the write fails the captured snapshot is put
    back; in every case the entry is then marked stale. */
module Optimistic {
  import opened Wrappers
  import opened Seqs
  import opened TodoTypes
  import opened TodoService
  import opened QueryCache

  /** Whether a todo stays in the cached page of the filter after the patch:
      only the not-done view drops done todos. */
  predicate Visible(t: Todo, filter: string)
    // a done row is dropped exactly when the filter would not fetch it
    ensures Visible(t, filter) <==> (t.done ==> Matches(t, filter))
  {
    !(filter == "undone" && t.done)
  }

  /** The patch applied to the cached rows: the todo with the given id is marked
      done, then the done ones are dropped under the not-done filter. */
  function PatchData(data: seq<Todo>, id: string, filter: string): (r: seq<Todo>)
    ensures |r| <= |data|
    ensures IsSubsequence(r, MarkTodoAsDone(data, id))
    ensures forall t :: t in r <==> t in MarkTodoAsDone(data, id) && Visible(t, filter)
    ensures forall t :: multiset(r)[t] == if Visible(t, filter) then multiset(MarkTodoAsDone(data, id))[t] else 0
    ensures filter == "undone" ==> forall t | t in r :: !t.done && t.id != id
    ensures filter != "undone" ==> r == MarkTodoAsDone(data, id)
  {
    Filter(MarkTodoAsDone(data, id), (t: Todo) => Visible(t, filter))
  }

  /** The updater given to `setQueryData`: an absent entry stays absent; a
      present one keeps its page pointers and has its rows patched. */
  function Patch(cached: Option<TodosResult>, id: string, filter: string): (r: Option<TodosResult>)
    ensures r.Some? <==> cached.Some?
    ensures r.Some? ==> r.value.data == PatchData(cached.value.data, id, filter)
    ensures r.Some? ==> r.value.nextPage == cached.value.nextPage
    ensures r.Some? ==> r.value.previousPage == cached.value.previousPage
    ensures r.Some? ==> r.value.totalPages == cached.value.totalPages
  {
    match cached
    case None => None
    case Some(page) => Some(page.(data := PatchData(page.data, id, filter)))
  }

  /** The cache after the patch: only the entry of the key changes, and only
      when it is present. */
  function PatchEntry(m: map<QueryKey, TodosResult>, key: QueryKey, id: string, filter: string): (r: map<QueryKey, TodosResult>)
    ensures r.Keys == m.Keys
    ensures forall k | k in m && k != key :: r[k] == m[k]
    ensures key in m ==> r[key] == Patch(Some(m[key]), id, filter).value
    ensures key in m ==> r[key].data == PatchData(m[key].data, id, filter)
  {
    if key in m then m[key := Patch(Some(m[key]), id, filter).value] else m
  }

  /** Writing the snapshot back over the patched cache gives the cache as it
      was before the patch. */
  lemma RollbackRestores(m: map<QueryKey, TodosResult>, key: QueryKey, id: string, filter: string)
    ensures key in m ==> PatchEntry(m, key, id, filter)[key := m[key]] == m
    ensures key !in m ==> PatchEntry(m, key, id, filter) == m
  {
  }

  /** What `onMutate` hands to `onError`. */
  datatype Context = Context(previousTodos: Option<TodosResult>)

  /** `onMutate(todo)`: cancel the in-flight fetch, capture the snapshot,
      write the patched page. */
  method OnMutate(client: QueryClient, filter: string, todo: Todo) returns (ctx: Context)
    modifies client
    ensures ctx.previousTodos == old(client.GetQueryData(TodosKey(filter)))
    ensures client.data == PatchEntry(old(client.data), TodosKey(filter), todo.id, filter)
    ensures client.fetching == old(client.fetching) - {TodosKey(filter)}
    ensures client.stale == if TodosKey(filter) in old(client.data)
      then old(client.stale) - {TodosKey(filter)} else old(client.stale)
  {
    var key := TodosKey(filter);
    client.CancelQueries(key);
    var previousTodos := client.GetQueryData(key);
    client.SetQueryData(key, Patch(previousTodos, todo.id, filter));
    ctx := Context(previousTodos);
  }

  /** `onError`: put the captured snapshot back (nothing, if none was captured). */
  method OnError(client: QueryClient, filter: string, ctx: Context)
    modifies client
    ensures client.data == if ctx.previousTodos.Some?
      then old(client.data)[TodosKey(filter) := ctx.previousTodos.value] else old(client.data)
    ensures client.fetching == old(client.fetching)
    ensures client.stale == if ctx.previousTodos.Some?
      then old(client.stale) - {TodosKey(filter)} else old(client.stale)
  {
    client.SetQueryData(TodosKey(filter), ctx.previousTodos);
  }

  /** `onSettled`: mark the entry stale, whatever the outcome. */
  method OnSettled(client: QueryClient, filter: string)
    modifies client
    ensures client.stale == old(client.stale) + {TodosKey(filter)}
    ensures client.data == old(client.data) && client.fetching == old(client.fetching)
  {
    client.InvalidateQueries(TodosKey(filter));
  }

  /** One run of the mutation in the order the library calls it: `onMutate`,
      the remote `markTodoAsDone`, `onError` when it failed, `onSettled`.
      `rows` is the remote table and `remoteOk` whether the write succeeded.
      A failure leaves the table and every cached page exactly as before;
      either way the entry of the filter ends stale and no other entry changes. */
  method MarkDone(client: QueryClient, filter: string, todo: Todo, rows: seq<Todo>, remoteOk: bool)
    returns (newRows: seq<Todo>)
    modifies client
    ensures newRows == if remoteOk then MarkTodoAsDone(rows, todo.id) else rows
    ensures !remoteOk ==> client.data == old(client.data)
    ensures remoteOk ==> client.data == PatchEntry(old(client.data), TodosKey(filter), todo.id, filter)
    ensures client.stale == old(client.stale) + {TodosKey(filter)}
    ensures client.fetching == old(client.fetching) - {TodosKey(filter)}
  {
    var ctx := OnMutate(client, filter, todo);
    if remoteOk {
      newRows := MarkTodoAsDone(rows, todo.id);
    } else {
      newRows := rows;
      RollbackRestores(old(client.data), TodosKey(filter), todo.id, filter);
      OnError(client, filter, ctx);
    }
    OnSettled(client, filter);
  }

  /** Two overlapping mutations on the same filter where the second fails: its
      snapshot was taken after the first patch, so the rollback returns to the
      first mutation's optimistic page, not to the page before both. */
  method OverlappingSecondFails(client: QueryClient, filter: string, first: Todo, second: Todo)
    modifies client
    ensures client.data == PatchEntry(old(client.data), TodosKey(filter), first.id, filter)
  {
    var ctx1 := OnMutate(client, filter, first);
    var ctx2 := OnMutate(client, filter, second);
    OnError(client, filter, ctx2);
  }

  // ---------------------------------------------------------------------------
  // Properties of the patch

  /** After marking, every row with the id is done. */
  lemma MarkedRowsDone(s: seq<Todo>, id: string)
    ensures forall t | t in MarkTodoAsDone(s, id) && t.id == id :: t.done
  {
    var m := MarkTodoAsDone(s, id);
    forall t | t in m && t.id == id ensures t.done {
      var k :| 0 <= k < |m| && m[k] == t;
    }
  }

  /** Marking changes nothing once every row with the id is already done. */
  lemma {:induction false} MarkDoneFixpoint(s: seq<Todo>, id: string)
    requires forall t | t in s && t.id == id :: t.done
    ensures MarkTodoAsDone(s, id) == s
  {
    if s != [] {
      assert s[0] in s;
      assert forall t | t in s[1..] :: t in s;
      MarkDoneFixpoint(s[1..], id);
      assert s == [s[0]] + s[1..];
    }
  }

  /** Applying the patch twice is applying it once. */
  lemma PatchIdempotent(cached: Option<TodosResult>, id: string, filter: string)
    ensures Patch(Patch(cached, id, filter), id, filter) == Patch(cached, id, filter)
  {
    if cached.Some? {
      var u := PatchData(cached.value.data, id, filter);
      MarkedRowsDone(cached.value.data, id);
      MarkDoneFixpoint(u, id);
      assert PatchData(u, id, filter) == u;
    }
  }

  /** A row the marked table holds: what a row of the old table becomes. */
  lemma MarkedMember(s: seq<Todo>, id: string, x: Todo)
    requires x in s
    ensures (if x.id == id then x.(done := true) else x) in MarkTodoAsDone(s, id)
  {
    var k :| 0 <= k < |s| && s[k] == x;
    var m := MarkTodoAsDone(s, id);
    assert m[k] == (if x.id == id then x.(done := true) else x);
  }

  /** The optimistic page agrees with the table the successful write leaves:
      if the cached rows were rows of the table admitted by the filter, every
      row of the patched page is a row of the updated table that the filter
      still admits. */
  lemma PatchAgreesWithServer(rows: seq<Todo>, cached: seq<Todo>, id: string, filter: string)
    requires forall t | t in cached :: t in rows && Matches(t, filter)
    ensures forall t | t in PatchData(cached, id, filter) :: t in MarkTodoAsDone(rows, id) && Matches(t, filter)
  {
    var marked := MarkTodoAsDone(cached, id);
    forall t | t in PatchData(cached, id, filter)
      ensures t in MarkTodoAsDone(rows, id) && Matches(t, filter)
    {
      var k :| 0 <= k < |marked| && marked[k] == t;
      var x := cached[k];
      assert x in cached;
      assert t == (if x.id == id then x.(done := true) else x);
      MarkedMember(rows, id, x);
    }
  }
}
