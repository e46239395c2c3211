/** The home page's choice of what to display: the fetched page of todos,
    rearranged by the saved drag-and-drop slot list when there is one, and
    the query the page issues for the active filter. */
module Home {
  import opened Wrappers
  import opened Pagination
  import opened TodoTypes
  import opened TodoService
  import opened QueryCache

  /** One saved display slot and the id of the todo placed in it. */
  datatype SlotItem = SlotItem(slotId: string, itemId: string)

  /** The position of the first row with the id, or the length of `rows` when
      no row has it. */
  function FirstIndex(rows: seq<Todo>, id: string): (i: nat)
    ensures i <= |rows|
    ensures i < |rows| ==> rows[i].id == id
    ensures forall j | 0 <= j < i :: rows[j].id != id
  {
    if rows == [] then 0
    else if rows[0].id == id then 0
    else FirstIndex(rows[1..], id) + 1
  }

  /** `rows.find(t => t.id === id)`: the first row with the id, if any. */
  function Find(rows: seq<Todo>, id: string): (r: Option<Todo>)
    ensures r.Some? ==> r.value in rows && r.value.id == id
    ensures r.Some? ==> r.value == rows[FirstIndex(rows, id)]
    ensures r.None? <==> forall t | t in rows :: t.id != id
  {
    var i := FirstIndex(rows, id);
    if i < |rows| then Some(rows[i]) else None
  }

  /** `data?.data`: the fetched rows, or none before the first fetch. */
  function Fetched(data: Option<TodosResult>): (rows: seq<Todo>)
    ensures data.None? ==> rows == []
    ensures data.Some? ==> rows == data.value.data
  {
    if data.Some? then data.value.data else []
  }

  /** The slots whose item is among the fetched rows, in slot order. */
  function MatchedSlots(slots: seq<SlotItem>, rows: seq<Todo>): (ms: seq<SlotItem>)
    ensures |ms| <= |slots|
    ensures forall s :: s in ms <==> s in slots && Find(rows, s.itemId).Some?
  {
    if slots == [] then []
    else if Find(rows, slots[0].itemId).Some? then [slots[0]] + MatchedSlots(slots[1..], rows)
    else MatchedSlots(slots[1..], rows)
  }

  /** Some saved slot holds the id. */
  ghost predicate HasSlot(slots: seq<SlotItem>, id: string) {
    exists s :: s in slots && s.itemId == id
  }

  /** The slot branch of `renderTodos`: for each slot in order, the first
      fetched todo with the slot's item id; a slot with no such todo shows
      nothing. */
  function SlotOrder(slots: seq<SlotItem>, rows: seq<Todo>): (r: seq<Todo>)
    ensures var ms := MatchedSlots(slots, rows);
      |r| == |ms| && forall k | 0 <= k < |r| :: Find(rows, ms[k].itemId) == Some(r[k])
  {
    if slots == [] then []
    else
      match Find(rows, slots[0].itemId)
      case Some(t) => [t] + SlotOrder(slots[1..], rows)
      case None => SlotOrder(slots[1..], rows)
  }

  /** `renderTodos()`: the todos shown, in display order. */
  function RenderTodos(slots: seq<SlotItem>, data: Option<TodosResult>): (r: seq<Todo>)
    ensures |slots| == 0 ==> r == Fetched(data)
    ensures data.None? ==> r == []
    ensures forall t | t in r :: t in Fetched(data)
    ensures |slots| > 0 ==> forall t | t in r :: HasSlot(slots, t.id)
    ensures |slots| > 0 ==> |r| <= |slots|
    ensures |slots| > 0 ==> r == SlotOrder(slots, Fetched(data))
  {
    if |slots| > 0 then
      var rows := Fetched(data);
      var r := SlotOrder(slots, rows);
      var ms := MatchedSlots(slots, rows);
      assert ms != [] ==> ms[0] in ms;
      assert forall t | t in r :: t in rows && HasSlot(slots, t.id) by {
        forall t | t in r ensures t in rows && HasSlot(slots, t.id) {
          var k :| 0 <= k < |r| && r[k] == t;
          assert ms[k] in ms;
        }
      }
      r
    else Fetched(data)
  }

  /** Every slot whose item was fetched shows that todo, at the position given
      by the number of matched slots before it. */
  lemma SlotShown(slots: seq<SlotItem>, rows: seq<Todo>, j: nat)
    requires j < |slots| && Find(rows, slots[j].itemId).Some?
    ensures var p := |MatchedSlots(slots[..j], rows)|;
      p < |SlotOrder(slots, rows)| && SlotOrder(slots, rows)[p] == Find(rows, slots[j].itemId).value
  {
    SlotOrderAppend(slots[..j], slots[j..], rows);
    MatchedSlotsAppend(slots[..j], slots[j..], rows);
    assert slots[..j] + slots[j..] == slots;
    assert slots[j..] == [slots[j]] + slots[j + 1..];
  }

  /** The slot branch works slot by slot. */
  lemma {:induction false} SlotOrderAppend(a: seq<SlotItem>, b: seq<SlotItem>, rows: seq<Todo>)
    ensures SlotOrder(a + b, rows) == SlotOrder(a, rows) + SlotOrder(b, rows)
  {
    if a == [] {
      assert a + b == b;
    } else {
      var ab := a + b;
      assert ab[0] == a[0] && ab[1..] == a[1..] + b;
      SlotOrderAppend(a[1..], b, rows);
    }
  }

  lemma {:induction false} MatchedSlotsAppend(a: seq<SlotItem>, b: seq<SlotItem>, rows: seq<Todo>)
    ensures MatchedSlots(a + b, rows) == MatchedSlots(a, rows) + MatchedSlots(b, rows)
  {
    if a == [] {
      assert a + b == b;
    } else {
      var ab := a + b;
      assert ab[0] == a[0] && ab[1..] == a[1..] + b;
      MatchedSlotsAppend(a[1..], b, rows);
    }
  }

  /** The page size, offset and direction of the home page's query. */
  const PageSize: nat := 10

  /** The home page's `useQuery`: key `['todos', filter]`, fetching
      `getTodos(10, 0, -1, filter)`: the first page of ten, newest update first. */
  method HomeQuery(rows: seq<Todo>, filter: string, reachable: bool, counted: bool)
    returns (key: QueryKey, r: Result<TodosResult>)
    ensures key == TodosKey(filter)
    ensures r.Ok? <==> reachable
    ensures r.Ok? ==> r.value == Paginate(Execute(rows, QueryFor(PageSize, 0, DefaultSort, filter)),
      PageSize, 0, if counted then Some(|rows|) else None)
    ensures r.Ok? ==> |r.value.data| <= PageSize && r.value.previousPage == None
    ensures r.Ok? ==> SortedBy(r.value.data, false)
    ensures r.Ok? ==> forall t | t in r.value.data :: t in rows && Matches(t, filter)
  {
    key := TodosKey(filter);
    r := GetTodos(rows, PageSize, 0, DefaultSort, filter, reachable, counted);
    ExecuteSpec(rows, PageSize, 0, DefaultSort, filter);
  }
}
