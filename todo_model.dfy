/**
 * The values of the to-do page: the `Todo` record, the cache entry "todos", and the
 * pure list transformations the mutation handlers apply to it (app/page.tsx).
 */
module TodoModel {
  import opened Wrappers

  /** A to-do item. The source's id is a JavaScript number; only equality is used, so an int stands for it. */
  datatype Todo = Todo(id: int, title: string, completed: bool)

  /** The react-query entry "todos": `None` until a list has landed in it. */
  type Cache = Option<seq<Todo>>

  // ---------------------------------------------------------------------------
  // Optimistic add
  // ---------------------------------------------------------------------------

  /**
   * The snapshot the add handler keeps: `getQueryData("todos") || []`.
   * An array, even an empty one, is truthy in JavaScript, so only `undefined` is replaced.
   */
  function AddSnapshot(cache: Cache): (s: seq<Todo>)
    ensures cache.Some? ==> s == cache.value
    ensures cache.None? ==> s == []
  {
    match cache
    case None => []
    case Some(todos) => todos
  }

  /** The item the add handler builds locally; a new item is never completed. */
  function NewItem(id: int, title: string): (t: Todo)
    ensures t.id == id && t.title == title && !t.completed
  {
    Todo(id, title, false)
  }

  /**
   * The list the add handler writes: the snapshot with the new item spread after it.
   * Earlier items stay as they were and where they were; exactly one item is appended.
   */
  function Added(cache: Cache, id: int, title: string): (r: seq<Todo>)
    ensures |r| == |AddSnapshot(cache)| + 1
    ensures r[..|r| - 1] == AddSnapshot(cache)
    ensures r[|r| - 1].id == id && r[|r| - 1].title == title && !r[|r| - 1].completed
  {
    AddSnapshot(cache) + [NewItem(id, title)]
  }

  /** The add handler's snapshot never is `undefined`: starting from `undefined`, a rollback writes `[]`. */
  lemma AddSnapshotOfUndefined(id: int, title: string)
    ensures AddSnapshot(None) == []
    ensures Added(None, id, title) == [Todo(id, title, false)]
  {
  }

  // ---------------------------------------------------------------------------
  // Optimistic delete
  // ---------------------------------------------------------------------------

  /** `todos.filter(todo => todo.id !== id)`: every item carrying `id` is dropped, every other one kept. */
  function RemoveId(todos: seq<Todo>, id: int): (r: seq<Todo>)
    ensures |r| <= |todos|
    ensures forall t :: t in r <==> t in todos && t.id != id
  {
    if todos == [] then []
    else if todos[0].id != id then [todos[0]] + RemoveId(todos[1..], id)
    else RemoveId(todos[1..], id)
  }

  /** Filtering distributes over concatenation: the kept items keep their relative order. */
  lemma {:induction false} RemoveIdConcat(a: seq<Todo>, b: seq<Todo>, id: int)
    ensures RemoveId(a + b, id) == RemoveId(a, id) + RemoveId(b, id)
  {
    if a == [] {
      assert a + b == b;
    } else {
      assert (a + b)[1..] == a[1..] + b;
      RemoveIdConcat(a[1..], b, id);
    }
  }

  /** Each item survives the filter exactly as often as it occurred, unless it carries `id`. */
  lemma {:induction false} RemoveIdCount(todos: seq<Todo>, id: int, t: Todo)
    ensures multiset(RemoveId(todos, id))[t] == if t.id == id then 0 else multiset(todos)[t]
  {
    if todos != [] {
      assert todos == [todos[0]] + todos[1..];
      RemoveIdCount(todos[1..], id, t);
    }
  }

  /** Deleting an id that no item carries leaves the list as it is. */
  lemma {:induction false} RemoveAbsentId(todos: seq<Todo>, id: int)
    requires forall i :: 0 <= i < |todos| ==> todos[i].id != id
    ensures RemoveId(todos, id) == todos
  {
    if todos != [] {
      RemoveAbsentId(todos[1..], id);
    }
  }

  /** Deleting the same id twice is the same as deleting it once. */
  lemma RemoveIdIdempotent(todos: seq<Todo>, id: int)
    ensures RemoveId(RemoveId(todos, id), id) == RemoveId(todos, id)
  {
    var r := RemoveId(todos, id);
    forall i | 0 <= i < |r|
      ensures r[i].id != id
    {
      assert r[i] in r;
    }
    RemoveAbsentId(r, id);
  }

  /**
   * The list the delete handler's updater returns:
   * `oldTodos ? oldTodos.filter(todo => todo.id !== id) : []`.
   */
  function Deleted(cache: Cache, id: int): (r: seq<Todo>)
    ensures forall t :: t in r ==> t.id != id
    ensures cache.None? ==> r == []
  {
    match cache
    case None => []
    case Some(todos) => RemoveId(todos, id)
  }

  /** Deleting an id that the list does not hold leaves the list unchanged (and present). */
  lemma DeleteAbsentId(todos: seq<Todo>, id: int)
    requires forall i :: 0 <= i < |todos| ==> todos[i].id != id
    ensures Deleted(Some(todos), id) == todos
  {
    RemoveAbsentId(todos, id);
  }

  // ---------------------------------------------------------------------------
  // A mutation in flight
  // ---------------------------------------------------------------------------

  /**
   * What a mutation carries from its `onMutate` to its settling: react-query hands `onError`
   * the mutation's variables (the removed id) and the context `{ previousTodos }`.
   */
  datatype Mutation =
    | AddInFlight(addSnapshot: seq<Todo>)
    | RemoveInFlight(id: int, removeSnapshot: Cache)
    | Done

  // ---------------------------------------------------------------------------
  // The remote delete's success rule
  // ---------------------------------------------------------------------------

  /** What the HTTP exchange produced: a status code, or no response at all. */
  datatype Response = Status(code: int) | NetworkFailure

  /**
   * Why `deleteTodo` rejected. axios itself rejects a response whose status is outside 200-299
   * (its default status check) and one that never arrived; line 34 of the page throws
   * "Failed to delete Todo", which carries no status, for the remaining 2xx codes other than 200.
   */
  datatype DeleteError = FailedToDelete | HttpError(code: int) | Transport

  /** axios's default status check: the request succeeds on a 2xx status. */
  predicate AxiosAccepts(code: int)
  {
    200 <= code < 300
  }

  /** `deleteTodo(id)`: resolves with `{id}` on status 200 exactly, and rejects otherwise. */
  function DeleteTodo(id: int, response: Response): (r: Result<int, DeleteError>)
    ensures r.Ok? <==> response == Status(200)
    ensures r.Ok? ==> r.value == id
    ensures r == Err(FailedToDelete) <==> response.Status? && AxiosAccepts(response.code) && response.code != 200
    ensures r.Err? && r.error.HttpError? ==> response == Status(r.error.code) && !AxiosAccepts(r.error.code)
    ensures response.Status? && !AxiosAccepts(response.code) ==> r == Err(HttpError(response.code))
    ensures response == NetworkFailure ==> r == Err(Transport)
  {
    match response
    case NetworkFailure => Err(Transport)
    case Status(code) =>
      if !AxiosAccepts(code) then Err(HttpError(code))
      else if code == 200 then Ok(id)
      else Err(FailedToDelete)
  }

  /** Other 2xx codes (201 Created, 204 No Content, ...) pass axios but fail the page's own check. */
  lemma OtherSuccessCodesFail(id: int, code: int)
    requires 200 <= code < 300 && code != 200
    ensures DeleteTodo(id, Status(code)) == Err(FailedToDelete)
  {
  }
}
