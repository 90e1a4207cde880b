/**
 * Sequential event traces over the "todos" entry: mutations begin (their `onMutate` runs) and
 * later settle (success, or `onError`), in any order. Each mutation keeps its own snapshot and
 * nothing serialises them, so a rollback restores its whole snapshot (app/page.tsx:44-77).
 */
module Interleavings {
  import opened Wrappers
  import opened TodoModel

  /** The cache entry and every mutation dispatched so far, indexed by dispatch order. */
  datatype Session = Session(todos: Cache, mutations: seq<Mutation>)

  datatype Event =
    | ListFetched(list: seq<Todo>)
    | BeginAdd(title: string, freshId: int)
    | BeginRemove(id: int)
    | AddSettled(k: nat, created: bool)
    | RemoveSettled(k: nat, response: Response)

  /**
   * One event. A begin writes the optimistic list (never `undefined`) and records exactly one
   * in-flight context; a settle marks at most one mutation done and records nothing. A settle
   * event naming no in-flight mutation of its kind cannot occur and changes nothing.
   */
  function Step(s: Session, e: Event): (r: Session)
    ensures e.BeginAdd? || e.BeginRemove? ==>
      && r.todos.Some?
      && |r.mutations| == |s.mutations| + 1
      && r.mutations[..|s.mutations|] == s.mutations
      && !r.mutations[|s.mutations|].Done?
    ensures e.AddSettled? || e.RemoveSettled? ==>
      && |r.mutations| == |s.mutations|
      && forall j :: 0 <= j < |s.mutations| && j != e.k ==> r.mutations[j] == s.mutations[j]
    ensures e.ListFetched? ==> r.mutations == s.mutations
  {
    match e
    case ListFetched(list) =>
      s.(todos := Some(list))
    case BeginAdd(title, freshId) =>
      Session(Some(Added(s.todos, freshId, title)), s.mutations + [AddInFlight(AddSnapshot(s.todos))])
    case BeginRemove(id) =>
      Session(Some(Deleted(s.todos, id)), s.mutations + [RemoveInFlight(id, s.todos)])
    case AddSettled(k, created) =>
      if k < |s.mutations| && s.mutations[k].AddInFlight? then
        Session(if created then s.todos else Some(s.mutations[k].addSnapshot), s.mutations[k := Done])
      else s
    case RemoveSettled(k, response) =>
      if k < |s.mutations| && s.mutations[k].RemoveInFlight? then
        var ok := DeleteTodo(s.mutations[k].id, response).Ok?;
        Session(if ok then s.todos else s.mutations[k].removeSnapshot, s.mutations[k := Done])
      else s
  }

  /** The events in order. Mutations are only ever added, and a settled mutation never settles again. */
  function Run(s: Session, events: seq<Event>): (r: Session)
    ensures |r.mutations| >= |s.mutations|
    ensures forall j :: 0 <= j < |s.mutations| && s.mutations[j].Done? ==> r.mutations[j].Done?
    decreases |events|
  {
    if events == [] then s else Run(Step(s, events[0]), events[1..])
  }

  /** Running one event, then the rest. */
  lemma RunCons(s: Session, e: Event, rest: seq<Event>)
    ensures Run(s, [e] + rest) == Run(Step(s, e), rest)
  {
    assert ([e] + rest)[1..] == rest;
  }

  /** A settle event that leaves the optimistic state as it is. */
  predicate Succeeds(e: Event)
  {
    match e
    case AddSettled(_, created) => created
    case RemoveSettled(_, response) => response == Status(200)
    case _ => true
  }

  /** The list the optimistic writes alone produce: begins applied, settles ignored. */
  function Optimistic(cache: Cache, events: seq<Event>): Cache
    decreases |events|
  {
    if events == [] then cache
    else
      var next := match events[0]
        case BeginAdd(title, freshId) => Some(Added(cache, freshId, title))
        case BeginRemove(id) => Some(Deleted(cache, id))
        case _ => cache;
      Optimistic(next, events[1..])
  }

  /**
   * Success needs no handler: when no remote call fails and no list fetch lands, the cache is
   * what the optimistic writes made it, whatever the order of the settle events.
   */
  lemma {:induction false} SuccessKeepsOptimisticState(s: Session, events: seq<Event>)
    requires forall i :: 0 <= i < |events| ==> Succeeds(events[i]) && !events[i].ListFetched?
    ensures Run(s, events).todos == Optimistic(s.todos, events)
    decreases |events|
  {
    if events != [] {
      SuccessKeepsOptimisticState(Step(s, events[0]), events[1..]);
    }
  }

  /** No item of the cache carries `id` (an undefined cache holds none). */
  predicate IdAbsent(cache: Cache, id: int)
  {
    cache.Some? ==> forall t :: t in cache.value ==> t.id != id
  }

  /**
   * A deleted id stays deleted as long as no remote call fails, no list fetch lands and no new
   * item reuses the id: the successful delete is never undone by a refetch.
   */
  lemma {:induction false} DeletedIdStaysDeleted(s: Session, id: int, rest: seq<Event>)
    requires forall i :: 0 <= i < |rest| ==>
      Succeeds(rest[i]) && !rest[i].ListFetched? && !(rest[i].BeginAdd? && rest[i].freshId == id)
    ensures IdAbsent(Run(s, [BeginRemove(id)] + rest).todos, id)
  {
    var s1 := Step(s, BeginRemove(id));
    assert Run(s, [BeginRemove(id)] + rest) == Run(s1, rest) by {
      assert ([BeginRemove(id)] + rest)[1..] == rest;
    }
    AbsentIdStaysAbsent(s1, id, rest);
  }

  /** The inductive step of `DeletedIdStaysDeleted`. */
  lemma {:induction false} AbsentIdStaysAbsent(s: Session, id: int, events: seq<Event>)
    requires IdAbsent(s.todos, id)
    requires forall i :: 0 <= i < |events| ==>
      Succeeds(events[i]) && !events[i].ListFetched? && !(events[i].BeginAdd? && events[i].freshId == id)
    ensures IdAbsent(Run(s, events).todos, id)
    decreases |events|
  {
    if events != [] {
      var s1 := Step(s, events[0]);
      if events[0].BeginAdd? {
        forall t | t in s1.todos.value
          ensures t.id != id
        {
          var r := Added(s.todos, events[0].freshId, events[0].title);
          assert r == AddSnapshot(s.todos) + [r[|r| - 1]];
        }
      }
      AbsentIdStaysAbsent(s1, id, events[1..]);
    }
  }

  /** Serialised, a failed delete restores exactly what was there, `undefined` included. */
  lemma FailedRemoveRestores(s: Session, id: int, response: Response)
    requires response != Status(200)
    ensures Run(s, [BeginRemove(id), RemoveSettled(|s.mutations|, response)]).todos == s.todos
  {
    var e := RemoveSettled(|s.mutations|, response);
    RunCons(s, BeginRemove(id), [e]);
    RunCons(Step(s, BeginRemove(id)), e, []);
    assert [BeginRemove(id)] + [e] == [BeginRemove(id), e];
  }

  /** Serialised, a failed add restores the list, but an undefined entry comes back as `[]`. */
  lemma FailedAddRestores(s: Session, title: string, freshId: int)
    ensures Run(s, [BeginAdd(title, freshId), AddSettled(|s.mutations|, false)]).todos
      == Some(AddSnapshot(s.todos))
    ensures s.todos.None? ==>
      Run(s, [BeginAdd(title, freshId), AddSettled(|s.mutations|, false)]).todos == Some([])
  {
    var e := AddSettled(|s.mutations|, false);
    RunCons(s, BeginAdd(title, freshId), [e]);
    RunCons(Step(s, BeginAdd(title, freshId)), e, []);
    assert [BeginAdd(title, freshId)] + [e] == [BeginAdd(title, freshId), e];
  }

  /**
   * Add X starts from S0 and is in flight; Y (held by S0) is deleted and the delete succeeds;
   * then the add fails. Its rollback writes S0, so Y is back although its delete succeeded.
   */
  lemma AddRollbackUndoesSucceededDelete(s0: seq<Todo>, title: string, freshId: int, y: int)
    requires exists t :: t in s0 && t.id == y
    ensures var s := Session(Some(s0), []);
      var afterDelete := Run(s, [BeginAdd(title, freshId), BeginRemove(y), RemoveSettled(1, Status(200))]);
      && IdAbsent(afterDelete.todos, y)
      && Run(afterDelete, [AddSettled(0, false)]).todos == Some(s0)
      && !IdAbsent(Some(s0), y)
  {
    var s := Session(Some(s0), []);
    var s1 := Step(s, BeginAdd(title, freshId));
    var s2 := Step(s1, BeginRemove(y));
    var s3 := Step(s2, RemoveSettled(1, Status(200)));
    RunCons(s, BeginAdd(title, freshId), [BeginRemove(y), RemoveSettled(1, Status(200))]);
    RunCons(s1, BeginRemove(y), [RemoveSettled(1, Status(200))]);
    RunCons(s2, RemoveSettled(1, Status(200)), []);
    RunCons(s3, AddSettled(0, false), []);
  }

  /**
   * The converse clobbering: delete Y starts from S0; add X starts and succeeds; then the
   * delete fails. Its rollback writes S0, so the confirmed new item disappears.
   */
  lemma RemoveRollbackUndoesSucceededAdd(s0: seq<Todo>, y: int, title: string, freshId: int)
    requires forall t :: t in s0 ==> t.id != freshId
    ensures var s := Session(Some(s0), []);
      var afterAdd := Run(s, [BeginRemove(y), BeginAdd(title, freshId), AddSettled(1, true)]);
      && !IdAbsent(afterAdd.todos, freshId)
      && Run(afterAdd, [RemoveSettled(0, NetworkFailure)]).todos == Some(s0)
      && IdAbsent(Some(s0), freshId)
  {
    var s := Session(Some(s0), []);
    var s1 := Step(s, BeginRemove(y));
    var s2 := Step(s1, BeginAdd(title, freshId));
    var s3 := Step(s2, AddSettled(1, true));
    RunCons(s, BeginRemove(y), [BeginAdd(title, freshId), AddSettled(1, true)]);
    RunCons(s1, BeginAdd(title, freshId), [AddSettled(1, true)]);
    RunCons(s2, AddSettled(1, true), []);
    RunCons(s3, RemoveSettled(0, NetworkFailure), []);
    var r := s3.todos.value;
    assert r[|r| - 1] in r;
  }
}
