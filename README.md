# Task store of the Ktor sample service, in Dafny

This project models the in-memory to-do store behind the sample service's `/tasks` HTTP routes. It also models how those routes decide their responses.

- `tasks.dfy` (module `Tasks`) holds the `Task` record (id, content, done flag) and the `TaskRequest` record (content and done flag, no id), as declared at src/main/kotlin/Routing.kt:10-21. It gives the value-level meaning of each list operation: the first index carrying an id (`IndexOfFirst`), first-match lookup (`Find`), overwriting the first match (`ReplaceFirst`) and removing it (`RemoveFirst`). It also holds lemmas about them.
- `repository.dfy` (module `Repository`) is the `TaskRepository` object. It is a class with the mutable task list `tasks`, the id counter `nextId`, and a ghost set `issued` of every id ever handed out. Its `Valid()` invariant says:
  - ids are pairwise distinct;
  - every stored id was issued;
  - every issued id is below `nextId`.
  `Add`, `Update` and `Delete` change the object in place, and each states its exact new state.
  - `Add` appends one task to the old list.
  - `Update` writes the slot at the first matching index, which is also `ReplaceFirst` of the old list.
  - `Delete` splices out the element at the first matching index, which is also `RemoveFirst` of the old list.
  - When no task matches, `Update` and `Delete` leave the list unchanged.
- `routing.dfy` (module `Routing`) holds the GET/POST/PUT/DELETE handlers of `/tasks`. Each one takes the repository object as a parameter, the path id already parsed (`None` when it is not an integer) and the body already decoded (`None` when it does not decode). It returns the status code and body.

The store starts with three seeded tasks (ids 1, 2 and 3) and the counter at 4. A malformed id answers 400 with `"Invalid ID format"`.

## Model

| member | source | states |
|---|---|---|
| `Tasks.Seed` | src/main/kotlin/Routing.kt:24-28 | three seeded tasks with ids 1, 2, 3 in order; distinct ids, all below the initial counter 4 |
| `Tasks.IndexOfFirst` | src/main/kotlin/Routing.kt:46 | result is -1 exactly when no task has the id; otherwise the task at the result has the id and none before it does |
| `Tasks.Find` | src/main/kotlin/Routing.kt:33 | None exactly when no task has the id; otherwise a stored task with that id |
| `Tasks.ReplaceFirst` | src/main/kotlin/Routing.kt:45-51 | replacing keeps the length |
| `Tasks.RemoveFirst` | src/main/kotlin/Routing.kt:53-59 | length drops by one when some task has the id, otherwise it is unchanged |
| `Tasks.FindIsFirstMatch` | src/main/kotlin/Routing.kt:33 | lookup returns exactly the element at the first matching index, None when there is none |
| `Tasks.ReplaceFirstWritesOneSlot` | src/main/kotlin/Routing.kt:45-51 | update writes the first matching slot and no other; with no match the list is unchanged |
| `Tasks.RemoveFirstSplices` | src/main/kotlin/Routing.kt:53-59 | when some task has the id, delete removes exactly the element at the first matching index and keeps the rest in order |
| `Tasks.RemoveAbsentIsIdentity` | src/main/kotlin/Routing.kt:53-59 | deleting an id no task carries leaves the list unchanged |
| `Tasks.FindAfterAppend` | src/main/kotlin/Routing.kt:35-43 | after appending a task under an id no stored task has, lookup of that id returns the task |
| `Tasks.AppendKeepsWellFormed` | src/main/kotlin/Routing.kt:35-43 | appending a task whose id is the counter, then bumping the counter, keeps ids distinct and below the counter |
| `Tasks.ReplaceKeepsIds` | src/main/kotlin/Routing.kt:45-51 | an update whose task carries the looked-up id leaves every id in the list unchanged |
| `Tasks.ReplaceKeepsWellFormed` | src/main/kotlin/Routing.kt:45-51 | such an update keeps ids distinct and below the counter |
| `Tasks.FindAfterReplace` | src/main/kotlin/Routing.kt:45-51 | after such an update of an existing id, lookup returns the new task |
| `Tasks.RemoveKeepsWellFormed` | src/main/kotlin/Routing.kt:53-59 | delete keeps ids distinct and below the counter |
| `Tasks.RemoveLeavesNoMatch` | src/main/kotlin/Routing.kt:53-59 | with distinct ids, no task carries the id after delete |
| `Tasks.RemoveTwiceIsRemoveOnce` | src/main/kotlin/Routing.kt:53-59 | with distinct ids, deleting the same id again changes nothing |
| `Repository.TaskRepository.constructor` | src/main/kotlin/Routing.kt:23-29 | the store starts with the seeded tasks, counter 4, issued ids {1,2,3}, and the invariant holds |
| `Repository.TaskRepository.GetAll` | src/main/kotlin/Routing.kt:31 | snapshot equal element by element to the stored list, in insertion order |
| `Repository.TaskRepository.GetById` | src/main/kotlin/Routing.kt:33 | None exactly when no stored task has the id; otherwise the task at the first matching index |
| `Repository.TaskRepository.IndexOf` | src/main/kotlin/Routing.kt:46 | the linear scan returns the first matching index, or -1 when there is none |
| `Repository.TaskRepository.Add` | src/main/kotlin/Routing.kt:35-43 | returns a task with the old counter value as id and the request's fields; appends it and leaves earlier tasks unchanged; counter grows by exactly 1; when the invariant held before the call: it still holds, the new id is above every id ever issued, and lookup of it returns the new task |
| `Repository.TaskRepository.Update` | src/main/kotlin/Routing.kt:45-51 | None and no change when no task has the id; otherwise only the slot at the first matching index is overwritten and the new task is returned; counter and issued ids untouched; invariant kept when the new task carries the same id |
| `Repository.TaskRepository.Delete` | src/main/kotlin/Routing.kt:53-59 | true exactly when some task had the id; exactly the element at the first matching index is spliced out, the others keep their order, and with no match nothing changes; counter and issued ids untouched; when the invariant held before the call: it still holds, so a deleted id stays below the counter and is never handed out again, and lookup afterwards finds nothing |
| `Routing.ListTasks` | src/main/kotlin/Routing.kt:66-69 | 200 with every stored task in order |
| `Routing.CreateTask` | src/main/kotlin/Routing.kt:72-80 | undecodable body: 400 "Invalid request body" and the store is unchanged; otherwise 201 with the task `add` created, appended under the old counter value |
| `Routing.GetTask` | src/main/kotlin/Routing.kt:83-96 | malformed id: 400 "Invalid ID format"; a match: 200 with the first matching task; no match: 404 "Task not found" |
| `Routing.UpdateTask` | src/main/kotlin/Routing.kt:99-119 | malformed id or body: 400 and the store is unchanged; otherwise the first match is replaced by a task carrying the path id, giving 200 with it, or 404 when none matched; invariant kept |
| `Routing.DeleteTask` | src/main/kotlin/Routing.kt:122-135 | malformed id: 400 and the store is unchanged; otherwise the first match is removed, giving 204 with no body, or 404 when none matched; invariant kept |

## Left out

- Integer width: Kotlin `Int` ids and the `nextId++` counter wrap after 2^31-1. The model uses unbounded integers, so it does not capture what happens after that many allocations.
- Parsing the path id with `String.toIntOrNull` is a library call. The handlers take its result as an `Option<int>`.
- JSON decoding of the request body (`call.receive`) is a library call. The handlers take its result as an `Option<TaskRequest>`.
- Exceptions: the `try`/`catch` blocks of POST and PUT are modelled only as the "body did not decode → 400" branch. The repository calls inside them do not throw.
- JSON encoding and Ktor's `call.respond`/routing are framework code. A response is modelled as a status code plus a `Body` value.
- `TaskRepository` is a process-wide singleton in the service. Here the handlers receive the object as a parameter.
- Concurrency: requests may run in parallel on the host server and the store has no lock. The model is sequential.
- The static `GET /` greeting has no logic and is not modelled.
- `Application.kt` (server bootstrap and JSON plugin installation) is not part of this model.
