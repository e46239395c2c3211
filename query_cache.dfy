/** The part of the client-side query cache the application relies on: one
    cached page per query key, a flag saying the entry is stale, and the set
    of keys whose fetch is in flight. Scheduling and refetching belong to the
    library and are not modelled. */
module QueryCache {
  import opened Wrappers
  import opened TodoTypes

  /** A query key such as `['todos', filter]`. */
  datatype QueryKey = QueryKey(name: string, filter: string)

  /** The key under which the page of todos for a filter is cached. */
  function TodosKey(filter: string): (k: QueryKey)
    ensures k.name == "todos" && k.filter == filter
  {
    QueryKey("todos", filter)
  }

  class QueryClient {
    /** The cached page of every key that has one. */
    var data: map<QueryKey, TodosResult>
    /** Keys whose entry has been invalidated and awaits a refetch. */
    var stale: set<QueryKey>
    /** Keys with a fetch in flight. */
    var fetching: set<QueryKey>

    constructor ()
      ensures data == map[] && stale == {} && fetching == {}
    {
      data := map[];
      stale := {};
      fetching := {};
    }

    /** `getQueryData(key)`: the cached page, or nothing. */
    function GetQueryData(key: QueryKey): (r: Option<TodosResult>)
      reads this
      ensures r.Some? <==> key in data
      ensures r.Some? ==> r.value == data[key]
    {
      if key in data then Some(data[key]) else None
    }

    /** `cancelQueries({ queryKey })`: an in-flight fetch for the key is
        dropped; its answer will not be written to the cache. */
    method CancelQueries(key: QueryKey)
      modifies this
      ensures fetching == old(fetching) - {key}
      ensures data == old(data) && stale == old(stale)
    {
      fetching := fetching - {key};
    }

    /** `setQueryData(key, value)`: a page replaces the entry and makes it
        fresh; an absent value (`undefined`) leaves everything as it was. */
    method SetQueryData(key: QueryKey, value: Option<TodosResult>)
      modifies this
      ensures data == if value.Some? then old(data)[key := value.value] else old(data)
      ensures stale == if value.Some? then old(stale) - {key} else old(stale)
      ensures fetching == old(fetching)
    {
      if value.Some? {
        data := data[key := value.value];
        stale := stale - {key};
      }
    }

    /** `invalidateQueries({ queryKey })`: the entry is marked stale; its
        data stays visible until a refetch replaces it. */
    method InvalidateQueries(key: QueryKey)
      modifies this
      ensures stale == old(stale) + {key}
      ensures data == old(data) && fetching == old(fetching)
    {
      stale := stale + {key};
    }
  }
}
