/**
 * The `Home` component's state and handlers (app/page.tsx:38-77, 97-122): the react-query
 * entry "todos", the `newTodo` input state, the `onMutate`/`onError` handlers of the add and
 * remove mutations, and the Enter/button submission guard. Each remote call's outcome is a
 * parameter; its network exchange is not modelled.
 */
module HomePage {
  import opened Wrappers
  import opened TodoModel
  import opened InputGuard
  import opened Interleavings

  class Home {
    /** The react-query entry "todos" (app/page.tsx:42); `None` is `undefined`. */
    var todos: Cache
    /** The text input's state `newTodo` (app/page.tsx:39). */
    var newTodo: string

    /** First render: nothing fetched yet, empty input. */
    constructor ()
      ensures todos == None && newTodo == ""
    {
      todos := None;
      newTodo := "";
    }

    /** The list query resolves and react-query stores the fetched list. */
    method ListFetched(list: seq<Todo>)
      modifies this
      ensures todos == Some(list) && newTodo == old(newTodo)
    {
      todos := Some(list);
    }

    /** `onChange` of the input: `setNewTodo(e.target.value)`. */
    method InputChanged(text: string)
      modifies this
      ensures newTodo == text && todos == old(todos)
    {
      newTodo := text;
    }

    /**
     * `onMutate` of `addTodo`: snapshot the list (undefined read as `[]`) and write the snapshot
     * with the new, not completed item appended. Returns the context's `previousTodos`.
     */
    method AddOnMutate(title: string, freshId: int) returns (previousTodos: seq<Todo>)
      modifies this
      ensures previousTodos == AddSnapshot(old(todos))
      ensures todos == Some(Added(old(todos), freshId, title))
      ensures newTodo == old(newTodo)
    {
      previousTodos := if todos.Some? then todos.value else [];
      var newItem := Todo(freshId, title, false);
      todos := Some(previousTodos + [newItem]);
    }

    /** `onError` of `addTodo`: write the context's snapshot back. */
    method AddOnError(previousTodos: seq<Todo>)
      modifies this
      ensures todos == Some(previousTodos) && newTodo == old(newTodo)
    {
      todos := Some(previousTodos);
    }

    /**
     * `createTodo` settles: a success has no handler, so the optimistic list stays;
     * a failure runs `onError`.
     */
    method AddSettled(previousTodos: seq<Todo>, created: bool)
      modifies this
      ensures todos == if created then old(todos) else Some(previousTodos)
      ensures newTodo == old(newTodo)
    {
      if !created {
        AddOnError(previousTodos);
      }
    }

    /**
     * `onMutate` of `removeTodo`: snapshot the raw entry (possibly undefined) and write the list
     * without the items carrying `id`; an undefined entry becomes `[]`. Returns the mutation's
     * variables with its context `{ previousTodos }`.
     */
    method RemoveOnMutate(id: int) returns (context: Mutation)
      modifies this
      ensures context == RemoveInFlight(id, old(todos))
      ensures todos == Some(Deleted(old(todos), id))
      ensures newTodo == old(newTodo)
    {
      var previousTodos := todos;
      var oldTodos := todos;
      var updated := if oldTodos.Some? then RemoveId(oldTodos.value, id) else [];
      todos := Some(updated);
      context := RemoveInFlight(id, previousTodos);
    }

    /** `onError` of `removeTodo`: write the context's snapshot back, `undefined` included. */
    method RemoveOnError(previousTodos: Cache)
      modifies this
      ensures todos == previousTodos && newTodo == old(newTodo)
    {
      todos := previousTodos;
    }

    /**
     * The delete begun by `context` settles with `response`. Only status 200 resolves; then no
     * handler runs and no refetch happens, so the deletion stays. Anything else rolls back.
     */
    method RemoveSettled(context: Mutation, response: Response)
      returns (result: Result<int, DeleteError>)
      requires context.RemoveInFlight?
      modifies this
      ensures result == DeleteTodo(context.id, response)
      ensures todos == if response == Status(200) then old(todos) else context.removeSnapshot
      ensures newTodo == old(newTodo)
    {
      result := DeleteTodo(context.id, response);
      if result.Err? {
        RemoveOnError(context.removeSnapshot);
      }
    }

    /**
     * The shared body of both submission handlers: when `newTodo.trim()` is non-empty, dispatch
     * `addTodo` with the untrimmed text and clear the input. Returns the add's snapshot when it
     * was dispatched.
     */
    method SubmitIfNotBlank(freshId: int) returns (dispatched: Option<seq<Todo>>)
      modifies this
      ensures dispatched.Some? <==> ShouldSubmit(old(newTodo))
      ensures dispatched.Some? ==>
        && dispatched.value == AddSnapshot(old(todos))
        && todos == Some(Added(old(todos), freshId, old(newTodo)))
        && newTodo == ""
      ensures dispatched.None? ==> todos == old(todos) && newTodo == old(newTodo)
    {
      if ShouldSubmit(newTodo) {
        var previousTodos := AddOnMutate(newTodo, freshId);
        newTodo := "";
        dispatched := Some(previousTodos);
      } else {
        dispatched := None;
      }
    }

    /** `onKeyDown` of the input: only Enter submits, under the same guard. */
    method KeyDown(key: string, freshId: int) returns (dispatched: Option<seq<Todo>>)
      modifies this
      ensures dispatched.Some? <==> ShouldSubmitOnKey(key, old(newTodo))
      ensures dispatched.Some? ==>
        && dispatched.value == AddSnapshot(old(todos))
        && todos == Some(Added(old(todos), freshId, old(newTodo)))
        && newTodo == ""
      ensures dispatched.None? ==> todos == old(todos) && newTodo == old(newTodo)
    {
      if key == "Enter" {
        dispatched := SubmitIfNotBlank(freshId);
      } else {
        dispatched := None;
      }
    }

    /** `onClick` of the Add button. */
    method AddClicked(freshId: int) returns (dispatched: Option<seq<Todo>>)
      modifies this
      ensures dispatched.Some? <==> ShouldSubmit(old(newTodo))
      ensures dispatched.Some? ==>
        && dispatched.value == AddSnapshot(old(todos))
        && todos == Some(Added(old(todos), freshId, old(newTodo)))
        && newTodo == ""
      ensures dispatched.None? ==> todos == old(todos) && newTodo == old(newTodo)
    {
      dispatched := SubmitIfNotBlank(freshId);
    }

    /**
     * Runs one trace event through the page's handlers, the in-flight contexts kept in `s`.
     * The page ends where `Step` says, so the lemmas about traces hold of the page.
     */
    method HandleEvent(s: Session, e: Event) returns (next: Session)
      requires todos == s.todos
      modifies this
      ensures next == Step(s, e) && todos == next.todos
      ensures newTodo == old(newTodo)
    {
      match e
      case ListFetched(list) =>
        this.ListFetched(list);
        next := Session(todos, s.mutations);
      case BeginAdd(title, freshId) =>
        var previousTodos := AddOnMutate(title, freshId);
        next := Session(todos, s.mutations + [AddInFlight(previousTodos)]);
      case BeginRemove(id) =>
        var context := RemoveOnMutate(id);
        next := Session(todos, s.mutations + [context]);
      case AddSettled(k, created) =>
        if k < |s.mutations| && s.mutations[k].AddInFlight? {
          this.AddSettled(s.mutations[k].addSnapshot, created);
          next := Session(todos, s.mutations[k := Done]);
        } else {
          next := s;
        }
      case RemoveSettled(k, response) =>
        if k < |s.mutations| && s.mutations[k].RemoveInFlight? {
          var result := this.RemoveSettled(s.mutations[k], response);
          next := Session(todos, s.mutations[k := Done]);
        } else {
          next := s;
        }
    }
  }

  /**
   * A client of `Home`: add X is in flight with snapshot S0, then Y is deleted and the delete
   * succeeds, then the add fails. The add's rollback writes S0 back, so Y reappears.
   */
  method RollbackResurrectsDeletedItem(s0: seq<Todo>, y: int, title: string, freshId: int)
    returns (afterDelete: Cache, final: Cache)
    requires exists t :: t in s0 && t.id == y
    ensures afterDelete.Some? && forall t :: t in afterDelete.value ==> t.id != y
    ensures final == Some(s0)
    ensures exists t :: t in final.value && t.id == y
  {
    var page := new Home();
    page.ListFetched(s0);
    var addContext := page.AddOnMutate(title, freshId);
    var removeContext := page.RemoveOnMutate(y);
    var removed := page.RemoveSettled(removeContext, Status(200));
    afterDelete := page.todos;
    page.AddSettled(addContext, false);
    final := page.todos;
  }
}
