# Optimistic to-do list cache

A model of the to-do page of a small React client (`app/page.tsx`) that keeps a to-do list in
the react-query cache entry `"todos"` and updates it optimistically. The entry starts out
`undefined` and later holds a list of `Todo {id, title, completed}` items.

- **Add.** The user presses Enter or clicks Add, and the input must not trim to empty. The add
  handler snapshots the list (`undefined` read as `[]`) and writes the snapshot with a new,
  not completed item appended. The submit handlers clear the input, and the mutation then posts
  the title. Success has no handler. On failure the snapshot is written back.
- **Delete.** The delete handler snapshots the raw entry, which may be `undefined`. It writes the
  list without the items carrying the id; `undefined` becomes `[]`. The remote delete counts as
  a success only on HTTP status 200. A success has no handler, and there is deliberately no
  refetch, so the deletion stays until the next list fetch lands. Any other outcome writes the
  snapshot back, `undefined` included.
- **Interleavings.** Every mutation keeps its own snapshot and nothing serialises them. A
  rollback therefore restores a whole snapshot and can undo another mutation's confirmed effect.

Modules:

- `Wrappers`: `Option` (`None` is `undefined`) and `Result` (`Err` is a thrown error).
- `TodoModel`: the `Todo` record, the add snapshot and appended list, the id filter, the delete
  updater, a mutation's in-flight context, and the strict success rule of `deleteTodo`. A status
  outside 200-299 is rejected by axios's default status check (`HttpError`); the other 2xx codes
  pass it and are rejected by the page itself (`FailedToDelete`, which carries no status).
- `InputGuard`: JavaScript's `String.prototype.trim`, written out over the ECMAScript
  WhiteSpace and LineTerminator characters, and the submission guards.
- `HomePage`: class `Home` with the fields `todos` (the cache entry) and `newTodo` (the input).
  Its methods are the component's handlers, and each method's contract gives the whole new
  state. `HandleEvent` runs one trace event through these handlers and ends where `Step` says,
  so the trace lemmas apply to the page. `RollbackResurrectsDeletedItem` drives one `Home`
  through the clobbering interleaving.
- `Interleavings`: sequential event traces. Mutations begin and settle in any order, as pure
  `Step`/`Run` functions over the same list functions. The lemmas cover what success, failure
  and interleaving do to the list.

Notes on the code's behaviour:

- A failed add that started while the entry was still `undefined` leaves `[]`, not `undefined`.
  This is because the add's snapshot is `previousTodos || []` (`FailedAddRestores`,
  `AddSnapshotOfUndefined`). "Rollback restores the state before the mutation" therefore holds
  exactly only for deletes.
- After an add succeeds, the code does not refetch the list: it trusts the optimistic item. The
  model follows the code.
- The page imports `react-query` version 3. There, `setQueryData` with `undefined` stores
  `undefined`, so a failed delete that started from `undefined` restores `undefined`.

## Model

| member | source | states |
|---|---|---|
| `TodoModel.AddSnapshot` | app/page.tsx:47 | the snapshot read with `getQueryData("todos")` and the or-operator: a present list is the snapshot as it is, and undefined becomes `[]` |
| `TodoModel.NewItem` | app/page.tsx:49 | the locally built item carries the given id and title and is not completed |
| `TodoModel.Added` | app/page.tsx:47-50 | the optimistic add keeps every earlier item unchanged and in order and appends exactly one item with the given id and title and `completed = false` |
| `TodoModel.AddSnapshotOfUndefined` | app/page.tsx:47-50 | from an undefined entry the add's snapshot is `[]`, and the optimistic list is the new item alone |
| `TodoModel.RemoveId` | app/page.tsx:66 | the filter never grows the list, and an item is in the result iff it was in the list and does not carry the id |
| `TodoModel.RemoveIdConcat` | app/page.tsx:66 | filtering distributes over concatenation, so the kept items keep their original relative order |
| `TodoModel.RemoveIdCount` | app/page.tsx:66 | every item carrying the id is dropped; every other item keeps its number of occurrences |
| `TodoModel.RemoveAbsentId` | app/page.tsx:66 | filtering an id that no item carries returns the list unchanged |
| `TodoModel.RemoveIdIdempotent` | app/page.tsx:66 | filtering the same id twice equals filtering it once |
| `TodoModel.Deleted` | app/page.tsx:65-67 | after the delete updater no item carries the id, and an undefined entry becomes `[]` |
| `TodoModel.DeleteAbsentId` | app/page.tsx:65-67 | deleting an absent id from a present list leaves that list unchanged |
| `TodoModel.DeleteTodo` | app/page.tsx:29-36 | `deleteTodo` resolves, with `{id}`, iff the response is status 200; it throws "Failed to delete Todo" iff the status is another 2xx code; a status outside 2xx is axios's own rejection carrying that status |
| `TodoModel.OtherSuccessCodesFail` | app/page.tsx:31-35 | 2xx codes other than 200 end in the page's "Failed to delete Todo" error |
| `InputGuard.IsTrimmable` | app/page.tsx:103 | the characters `trim()` strips; among ASCII characters exactly TAB, LF, VT, FF, CR and space |
| `InputGuard.Trim` | app/page.tsx:103 | `newTodo.trim()`: never longer than the input, and a non-empty result neither starts nor ends with a trimmable character |
| `InputGuard.TrimStart` | app/page.tsx:103 | the result is the suffix after the leading trimmable characters, and it does not start with one |
| `InputGuard.TrimEnd` | app/page.tsx:103 | the result is the prefix before the trailing trimmable characters, and it does not end with one |
| `InputGuard.TrimEmptyIffBlank` | app/page.tsx:103 | `trim()` is empty iff every character of the input is whitespace or a line terminator |
| `InputGuard.TrimIsInfix` | app/page.tsx:103 | `trim()` returns the contiguous piece of the input after the leading trimmable characters |
| `InputGuard.ShouldSubmit` | app/page.tsx:113 | the button's guard passes iff some character of the input is not trimmable |
| `InputGuard.ShouldSubmitOnKey` | app/page.tsx:103 | the key guard passes iff the key is Enter and some character of the input is not trimmable |
| `InputGuard.GuardExamples` | app/page.tsx:103-113 | empty and blank inputs are refused, a padded title is accepted, and a key other than Enter never submits |
| `HomePage.Home.constructor` | app/page.tsx:39-42 | the entry starts undefined and the input empty |
| `HomePage.Home.ListFetched` | app/page.tsx:42 | a landed list query stores the fetched list and leaves the input alone |
| `HomePage.Home.InputChanged` | app/page.tsx:101 | typing sets the input and leaves the cache alone |
| `HomePage.Home.AddOnMutate` | app/page.tsx:45-53 | returns the snapshot (undefined read as `[]`) and sets the entry to the snapshot plus the new item; an existing list is kept as the prefix |
| `HomePage.Home.AddOnError` | app/page.tsx:54-56 | a failed add sets the entry to exactly its snapshot |
| `HomePage.Home.AddSettled` | app/page.tsx:44-57 | a successful add changes nothing (no handler, no refetch); a failed one restores its snapshot |
| `HomePage.Home.RemoveOnMutate` | app/page.tsx:62-69 | returns the id with the raw entry as snapshot and sets the entry to the delete updater's list (the filtered list, or `[]` for undefined) |
| `HomePage.Home.RemoveOnError` | app/page.tsx:70-73 | a failed delete sets the entry to exactly its snapshot, undefined included |
| `HomePage.Home.RemoveSettled` | app/page.tsx:29-77 | for the id and snapshot of its own `onMutate`, the delete's result is `deleteTodo`'s; status 200 keeps the optimistic list, and anything else restores the snapshot |
| `HomePage.Home.SubmitIfNotBlank` | app/page.tsx:103-106 | dispatches iff the trimmed input is non-empty; then the add gets the untrimmed text and the input becomes `""`; otherwise nothing changes |
| `HomePage.Home.KeyDown` | app/page.tsx:102-107 | Enter with a non-blank input dispatches the add and clears the input; any other key or a blank input changes nothing |
| `HomePage.Home.AddClicked` | app/page.tsx:112-117 | a click with a non-blank input dispatches the add and clears the input; a blank input changes nothing |
| `HomePage.Home.HandleEvent` | app/page.tsx:44-77 | running an event through the page's handlers leaves the page's entry and the in-flight contexts exactly where `Step` puts them |
| `HomePage.RollbackResurrectsDeletedItem` | app/page.tsx:44-77 | on one page, a failing add that was in flight before a successful delete of Y writes S0 back, and Y reappears |
| `Interleavings.Step` | app/page.tsx:44-77 | one event: a begin writes a defined optimistic list and records one in-flight context; a settle leaves every other mutation's context alone; a fetched list leaves the contexts alone |
| `Interleavings.Run` | app/page.tsx:44-77 | the events in order: contexts are only added, and a settled mutation stays settled |
| `Interleavings.SuccessKeepsOptimisticState` | app/page.tsx:44-77 | with no failure and no list fetch, in any settle order, the entry is what the optimistic writes alone make it |
| `Interleavings.DeletedIdStaysDeleted` | app/page.tsx:61-77 | after a delete, its id stays absent while no call fails, no list lands and no new item reuses the id |
| `Interleavings.AbsentIdStaysAbsent` | app/page.tsx:44-77 | successful mutations that add no item with the id keep the id absent |
| `Interleavings.FailedRemoveRestores` | app/page.tsx:62-72 | a delete that fails before anything else happens restores the entry exactly, undefined included |
| `Interleavings.FailedAddRestores` | app/page.tsx:45-56 | an add that fails before anything else happens restores its snapshot, which is `[]` for an undefined entry |
| `Interleavings.AddRollbackUndoesSucceededDelete` | app/page.tsx:45-72 | add in flight from S0, then a successful delete of Y in S0, then the add fails: the entry is S0 again, so Y is back |
| `Interleavings.RemoveRollbackUndoesSucceededAdd` | app/page.tsx:45-72 | delete in flight from S0, then an add that succeeds, then the delete fails: the entry is S0, so the confirmed item is gone |

## Left out

- Rendering (JSX, the SVG icon, the styling classes at app/page.tsx:79-148): user interface only.
- The axios calls, the API URL and `fetchTodos` (app/page.tsx:13-30): network I/O. A remote outcome is a parameter: a `created` flag for the post, a `Response` (status code or network failure) for the delete. A fetched list is an explicit `ListFetched` event.
- The body of the post and the item the server echoes: the cache ignores both.
- react-query internals: query fetching, refetch scheduling (for example on window focus), `cancelQueries`, structural sharing and the mutation lifecycle. `onMutate` awaits `cancelQueries`, so its write really happens a microtask after dispatch; the model treats dispatch and `onMutate` as one step.
- Real asynchrony: interleavings are explicit sequential event traces. A settle event that names no in-flight mutation of its kind cannot occur, and `Step` leaves the session unchanged for it.
- `Math.random() * 100` ids (app/page.tsx:24, 49): floating point and random. The fresh id is a parameter and ids are integers, since only equality is used. Uniqueness is not modelled, because the code does not guarantee it.
- axios's status check is its default (`validateStatus` accepts 200-299); the page does not configure it.
- The `console.error` diagnostic (app/page.tsx:72): logging only.
- `context` being undefined in `onError`: this happens only when `onMutate` itself throws, and neither handler here can throw.
- JavaScript strings are UTF-16 code units. The model's characters are Unicode scalar values; every character `trim` removes is a single code unit, so the guard is the same.
