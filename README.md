# Todo list on a hosted table: a Dafny model of its logic

The application is a single-page todo list whose rows live in a hosted
`todos` table. Around its rendering code sit four small pieces of logic,
and this project models and proves each of them:

- **Page arithmetic** (`paginate`). From the exact row count of the table, a
  page size `limit` and a row `offset`, it derives the total number of pages
  and the next and previous page numbers. Module `Pagination`.
- **The todo service** (`useTodos`). `getTodos` builds a query: it orders by
  `updated_at` (ascending only when `sort == 1`), keeps the inclusive row
  range `[offset, offset + limit - 1]`, and adds an equality on `done` for
  the filters `'done'` and `'undone'`. Four writes go by id: create, mark
  done, update and delete. The hosted table is modelled as the sequence of
  its rows. Each successful write is a function from the old rows to the new
  ones, and a query's answer is a function of the rows and the query.
  Module `TodoService`, with the entity types in `TodoTypes`.
- **The optimistic "mark done" mutation** (`useOptimistic`). This is a state
  machine over the client query cache. The cache is modelled as the class
  `QueryCache.QueryClient`, which holds the cached page per query key, a
  stale set and an in-flight set. The three callbacks are methods in module
  `Optimistic`:
  - `onMutate` cancels the fetch, captures the snapshot and writes the
    patched page.
  - `onError` writes the snapshot back.
  - `onSettled` marks the key stale.

  `Optimistic.MarkDone` runs them in the library's order around the remote
  write. It proves that a failed write leaves every cached page and the table
  exactly as they were. The stale and in-flight sets do change: the filter's
  key ends stale and its fetch is cancelled.
- **The home page's display choice** (`renderTodos`). The fetched page is
  reordered by the saved slot list. Slots whose todo was not fetched are
  dropped. With no slots saved, the page is shown in fetched order. The page
  asks for the first ten rows, newest update first, under the key
  `['todos', filter]`. Module `Home`.

Module `Seqs` holds the order-preserving `Filter` (JavaScript's
`Array.prototype.filter`) that the delete, the `done` equality and the
optimistic patch share. Module `Wrappers` holds `Option` (for `null` /
`undefined`) and `Result` (an answer or an opaque failure).

Inputs that come from outside the code are parameters:

- the rows of the table;
- whether the table answered (`reachable`, `remoteOk`);
- whether the exact count came back (`counted`);
- the id the table assigns to a new row, one that no row has yet, and the
  time it assigns.

Timestamps are integers, because only their order matters here.

### Behaviour of the code worth noting

- Under the `'undone'` filter, the optimistic patch drops every done todo in
  the cached page, including ones already done before the mutation, not only
  the one just marked (useOptimistic.ts:28). `Optimistic.PatchData` states this.
- The writes match by id (`.match({ id })`), so they affect every row that
  has that id. With unique ids that is at most one row.
  `TodoService.WritesKeepIdsUnique` and `TodoService.CreateTodo` prove that
  the writes keep ids unique.
- The filter is a free string. Any value other than `'done'` and `'undone'`
  applies no predicate, `'all'` included (useTodos.ts:25-29).
- `markTodoAsDone` sends only `done`, and `updateTodo` only `title` and
  `content` (useTodos.ts:50, 60). No code in the application writes
  `updated_at`. Whether the table restamps it on an update is not visible
  from the code; the model's writes leave it unchanged (see "## Left out").
- `setQueryData(key, undefined)` leaves the cache as it is. So when nothing
  was cached for the key, the patch and the rollback both leave the entry
  absent (useOptimistic.ts:23, 35-38).

## Model

| member | source | states |
|---|---|---|
| Pagination.CeilDiv | src/lib/utils.ts:43 | the result is the least number of pages of `limit` rows that hold `count` rows: `q * limit >= count`, and `(q - 1) * limit < count` unless `q == 0` |
| Pagination.CurrentPage | src/lib/utils.ts:44 | the current page is at least 1 and is the page whose block of `limit` rows contains `offset`; it exceeds 1 exactly when `offset >= limit` |
| Pagination.Paginate | src/lib/utils.ts:37-54 | `data` is returned unchanged; the page total is the ceiling of `count / limit`, or 1 without a count; there is a next page (current + 1, at most the total) exactly when current < total; there is a previous page (current - 1, at least 1) exactly when the offset is past the first page |
| Pagination.TotalPagesIsCeiling | src/lib/utils.ts:43 | the page-total bounds that `Paginate` promises determine the total uniquely |
| Pagination.PaginateExamples | src/lib/utils.ts:43-46 | 25 rows with limit 10 give 3 pages; offset 0 gives next 2 and no previous; offset 20 gives no next and previous 2; count 0 gives 0 pages and no next; no count gives 1 page |
| TodoService.QueryFor | src/services/useTodos.ts:17-29 | the query reads table `todos`; it is ascending exactly when `sort == 1`; its inclusive range starts at `offset` and spans `limit` rows; it has a `done` equality exactly for the filters `'done'` and `'undone'`; a row passes the equality exactly when the filter admits it (`'done'`: done rows, `'undone'`: not-done rows, anything else: all rows) |
| TodoService.BuildQuery | src/services/useTodos.ts:17-29 | building the query by reassigning `let query` gives exactly `QueryFor`'s query |
| TodoService.Insert | src/services/useTodos.ts:20 | inserting into rows ordered by `updated_at` keeps them ordered and adds exactly the one row to the multiset |
| TodoService.OrderByUpdated | src/services/useTodos.ts:20 | the rows come back ordered by `updated_at` in the requested direction, as a permutation of the input rows |
| TodoService.Window | src/services/useTodos.ts:21 | the inclusive range `[from, to]` keeps at most `to - from + 1` rows; it keeps exactly as many as the input holds in that range, and each is the input row at `from + k` |
| TodoService.Matches | src/services/useTodos.ts:25-29 | the filter value admits a row unless the row is done and the filter is `'undone'`, or the row is not done and the filter is `'done'` |
| TodoService.Where | src/services/useTodos.ts:25-28 | a row is kept exactly when it is in the table and passes the `done` equality, with as many copies as the table holds; with no equality the table is returned whole |
| TodoService.Execute | src/services/useTodos.ts:31 | the table's answer to a query holds at most as many rows as the range spans, each a row of the table passing the `done` equality, ordered by `updated_at` in the query's direction |
| TodoService.ExecuteRows | src/services/useTodos.ts:20-21 | the k-th row of a query's answer is the admitted row, in `updated_at` order, at position `rangeFrom + k` |
| TodoService.ConsecutivePages | src/services/useTodos.ts:10-36 | the page at `offset` followed by the next page (`offset + limit`) is the page of `2 * limit` rows at `offset`: under the model's fixed order of ties, paging neither skips nor repeats an admitted row |
| TodoService.QueriesAdjoin | src/services/useTodos.ts:17-29 | the next page's query has the same `done` equality and direction, and its range starts right after the current one; joining the two ranges gives the query of twice the limit |
| TodoService.ExecuteSplit | src/services/useTodos.ts:20-21 | two queries differing only in adjoining ranges return, concatenated, the answer over the joined range, under the model's fixed order of ties |
| TodoService.JoinWindows | src/services/useTodos.ts:21 | adjoining inclusive ranges `[from, mid]` and `[mid + 1, to]` concatenate to `[from, to]` |
| TodoService.ExecuteSpec | src/services/useTodos.ts:10-36 | a fetched page has at most `limit` rows; each is a row of the table that the filter admits; the page is ordered by `updated_at`, ascending exactly when `sort == 1` |
| TodoService.ExecuteSize | src/services/useTodos.ts:21 | the page is short only when the admitted rows run out: it holds `limit` rows, or the admitted rows past `offset`, or none |
| TodoService.GetTodos | src/services/useTodos.ts:10-36 | an unreachable table surfaces as a failure; otherwise the answer is the query's rows passed to `Paginate` with the same `limit` and `offset` and the whole table's count; at most `limit` rows, each in the table and admitted by the filter |
| TodoService.PagesIgnoreFilter | src/services/useTodos.ts:35 | the page total and the next and previous pointers are the same for every filter, because the count is taken over the whole table |
| TodoService.CreateTodo | src/services/useTodos.ts:38-45 | a create appends one row with the assigned id, the given title and content, and `done` false, created and updated at the assigned time; the old rows stay in place; ids stay unique |
| TodoService.MarkTodoAsDone | src/services/useTodos.ts:47-55 | a mark-done keeps every row's position and every field but `done`; a row is done afterwards exactly when it was done before or its id matches |
| TodoService.MarkTodoAsDoneIdempotent | src/services/useTodos.ts:47-55 | marking the same id done twice gives the same table as marking it once |
| TodoService.UpdateTodo | src/services/useTodos.ts:57-65 | an update keeps every row's position and every field but title and content; rows with the id take the new title and content; every other row is unchanged |
| TodoService.DeleteTodo | src/services/useTodos.ts:67-75 | a delete removes exactly the rows with the id; every other row stays, with as many copies as before and in its order; with no such row the table is unchanged |
| TodoService.WritesKeepIdsUnique | src/services/useTodos.ts:47-75 | mark-done, update and delete keep ids unique |
| TodoService.Lifecycle | src/services/useTodos.ts:38-75 | for every valid title and content, in the table's rows that each filter admits: a created todo is admitted unfiltered and by `'undone'`, not by `'done'`; once marked done it is admitted by `'done'` and not by `'undone'`; once deleted no filter admits a row with its id |
| TodoService.NewestFirst | src/services/useTodos.ts:20-21 | a row updated strictly later than every other row heads the first page, newest first, of every filter that admits it |
| TodoService.CreatedListed | src/services/useTodos.ts:38-45 | for every valid title and content, when the new row is stamped later than every existing row, the new row itself, with its id, title, content, `done` false and its stamps, heads the first page, newest first, of the unfiltered and the `'undone'` views |
| TodoService.MarkedListed | src/services/useTodos.ts:47-55 | under the same stamping, the new row, now done and otherwise unchanged, heads the first page, newest first, of the `'done'` view |
| TodoService.LifecycleListed | src/services/useTodos.ts:10-75 | what `getTodos` lists over a todo's life, for every valid title and content: after create the new row itself heads the first page unfiltered and under `'undone'`; after mark-done the same row, now done, heads the first `'done'` page and no `'undone'` page holds it; after delete no page of any filter holds it |
| QueryCache.TodosKey | src/pages/home.tsx:32 | the key of a filter's page is `['todos', filter]` |
| QueryCache.QueryClient.GetQueryData | src/hooks/useOptimistic.ts:17-20 | the snapshot is the cached page when the key has one, and nothing otherwise |
| QueryCache.QueryClient.CancelQueries | src/hooks/useOptimistic.ts:15 | the in-flight fetch for the key is dropped; the cached data and stale flags are untouched |
| QueryCache.QueryClient.SetQueryData | src/hooks/useOptimistic.ts:22-30 | a page replaces the key's entry and makes it fresh; an absent value changes nothing |
| QueryCache.QueryClient.InvalidateQueries | src/hooks/useOptimistic.ts:41 | the key is marked stale; the cached data stays |
| Optimistic.Visible | src/hooks/useOptimistic.ts:28 | the patch keeps a row unless it is done and the filter would not fetch a done row (that is, the filter is `'undone'`) |
| Optimistic.PatchData | src/hooks/useOptimistic.ts:26-28 | the patched rows are, in order, the marked rows that stay visible, each with as many copies as among the marked rows, so the patch never grows the page; under `'undone'` no patched row is done and the target is gone; under any other filter nothing is removed |
| Optimistic.Patch | src/hooks/useOptimistic.ts:22-30 | an absent entry stays absent; a present one keeps `nextPage`, `previousPage` and `totalPages` and has its rows patched |
| Optimistic.PatchEntry | src/hooks/useOptimistic.ts:22-30 | the patch touches only the key's entry, and only when it exists; that entry becomes the patched page, keeping its page pointers; every other key keeps its page |
| Optimistic.RollbackRestores | src/hooks/useOptimistic.ts:34-38 | writing the snapshot back over the patched cache gives the cache as it was before the patch |
| Optimistic.OnMutate | src/hooks/useOptimistic.ts:14-33 | the fetch for `['todos', filter]` is cancelled; the returned snapshot is the entry as it stood before; the cache afterwards is the patched cache |
| Optimistic.OnError | src/hooks/useOptimistic.ts:34-39 | the captured snapshot is written back; with no snapshot the cache is unchanged |
| Optimistic.OnSettled | src/hooks/useOptimistic.ts:40-42 | `['todos', filter]` is marked stale; no data changes |
| Optimistic.MarkDone | src/hooks/useOptimistic.ts:10-43 | after a failed write the table and every cached page equal what they were before the mutation; after a successful write the table is `MarkTodoAsDone` of the old table and the cache is the patched cache; either way the filter's key ends stale and other keys keep their staleness |
| Optimistic.OverlappingSecondFails | src/hooks/useOptimistic.ts:14-39 | when a second mutation fails while a first is pending, the rollback returns to the first mutation's optimistic page, not to the page before both |
| Optimistic.MarkedRowsDone | src/hooks/useOptimistic.ts:27 | after marking, every row with the id is done |
| Optimistic.MarkDoneFixpoint | src/hooks/useOptimistic.ts:27 | marking changes nothing once every row with the id is done |
| Optimistic.PatchIdempotent | src/hooks/useOptimistic.ts:26-28 | applying the patch twice gives the same entry as applying it once |
| Optimistic.MarkedMember | src/hooks/useOptimistic.ts:27 | each cached row reappears, marked if its id matches, among the marked rows |
| Optimistic.PatchAgreesWithServer | src/hooks/useOptimistic.ts:27-28 | if the cached rows were table rows admitted by the filter, every row of the optimistic page is a row of the table after the successful write and is still admitted by the filter; this rests on the table not restamping `updated_at` on the write |
| Home.FirstIndex | src/pages/home.tsx:62 | the position of the first row with the id, or the row count when no row has it |
| Home.Find | src/pages/home.tsx:62 | the found todo is a fetched row with that id, the one at the first position holding the id; nothing is found exactly when no fetched row has the id |
| Home.Fetched | src/pages/home.tsx:62 | before any fetch there are no rows; after a fetch, the page's rows |
| Home.MatchedSlots | src/pages/home.tsx:60-67 | a slot is matched exactly when some fetched todo has its item id |
| Home.SlotOrder | src/pages/home.tsx:60-67 | one entry per matched slot, in slot order; the k-th entry is the todo that `find` picks for the k-th matched slot |
| Home.RenderTodos | src/pages/home.tsx:59-76 | with no saved slots, the fetched rows in fetched order; with no data, nothing; every displayed todo is a fetched row; with saved slots, the display is the slot order of the fetched rows, every displayed todo has a slot and there are at most as many as slots |
| Home.SlotShown | src/pages/home.tsx:60-67 | a slot whose todo was fetched shows that todo, at the position given by the number of matched slots before it |
| Home.HomeQuery | src/pages/home.tsx:31-34 | the page reads key `['todos', filter]`; its answer is exactly what `getTodos(10, 0, -1, filter)` pages out: at most 10 rows, no previous page, newest update first, each a table row admitted by the filter |

## Left out

- The hosted database client, the HTTP calls and the count request (src/lib/utils.ts:32-41) are not modelled. Their answers are parameters: the rows, `reachable` or `remoteOk`, and `counted`.
- `cn` (src/lib/utils.ts:27-29) is a class-name merge in a foreign library, with no logic of its own.
- The query library's scheduling is left out: asynchronous callbacks, real cancellation, the refetch that follows invalidation, retries. The callbacks are sequential method calls; cancellation and invalidation are the `fetching` and `stale` sets.
- Floating-point `Math.ceil` and `Math.floor` are modelled as integer division on naturals with `limit > 0`; `getTodos` and `paginate` are not modelled for `limit == 0`.
- React state and effects, local-storage persistence of the filter and the slots, and drag-and-drop (src/pages/home.tsx:19-27, 36-57, 84-110) are UI plumbing.
- Rendering: `renderTodos` is modelled as the sequence of todos it shows, not as the elements it creates.
- The dialog, card and header components are screens and notifications. Two facts from them are kept. The non-empty title and content checked before a create or update is the `ValidNewTodo` precondition. Offering "done" only for notes not yet done needs no precondition, because the patch is idempotent.
- TodoService.OrderByUpdated: rows with equal `updated_at` keep their input order. The table's order for ties is unspecified, so the model fixes one order among those the table may return.
- TodoService.ConsecutivePages: holds for the table only while no two admitted rows share `updated_at`. The program orders by `updated_at` alone, and Postgres does not promise the same order of ties across queries with different LIMIT and OFFSET, so with tied stamps two consecutive pages may repeat one row and skip another. The model's fixed order of ties is what makes the lemma hold for all rows.
- TodoService.ExecuteSplit: holds for the table only while no two admitted rows share `updated_at`, for the same reason.
- TodoService.CreateTodo: the id the table assigns is assumed to be one no row has (the requires); ids staying unique after a create rests on that.
- TodoService.CreateTodo: the failure path of create is left out. A failed remote write leaves the table unchanged, which `Optimistic.MarkDone` states for mark-done.
- TodoService.UpdateTodo: the failure path of update is left out, for the same reason as create's.
- TodoService.DeleteTodo: the failure path of delete is left out, for the same reason as create's.
- TodoService.MarkTodoAsDone: a table-side restamp of `updated_at` on update (a trigger or default the code does not show) is not modelled; the write keeps the row's `updated_at`. `Optimistic.PatchAgreesWithServer` rests on this: with a restamp, the optimistic row would differ from the table's row in `updated_at`.
- TodoService.UpdateTodo: a table-side restamp of `updated_at` on update is not modelled either; the write keeps the row's `updated_at`.
- TodoService.CreateTodo: `updated_at` is assumed to be filled in by the table when a row is inserted (the same instant as `created_at`) and never to be NULL. A NULL `updated_at`, which `src/components/note-card.tsx:72` guards against, would sort last ascending and first descending in Postgres; the model does not capture that ordering.
- TodoService.Lifecycle: states which rows each filter admits in the table, not which page lists them; `LifecycleListed` covers the listing, under the assumption that the new row is stamped later than every existing one.
- src/types/todos.types is not part of this model. The todo's fields follow the application's data model: id, title, content, done, created and updated times.
