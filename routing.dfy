/** The HTTP handlers of the `/tasks` routes: each validates its inputs,
    calls the repository at most once, and maps the outcome to a status code
    and a body. The id path segment arrives already parsed (None when it is
    not an integer) and the request body already decoded (None when it does
    not decode into a TaskRequest). */
module Routing {
  import opened Tasks
  import opened Repository

  const StatusOK: int := 200
  const StatusCreated: int := 201
  const StatusNoContent: int := 204
  const StatusBadRequest: int := 400
  const StatusNotFound: int := 404

  const InvalidIdFormat: string := "Invalid ID format"
  const InvalidRequestBody: string := "Invalid request body"
  const TaskNotFound: string := "Task not found"

  /** What a handler writes back: nothing, one task, a list of tasks or a text message. */
  datatype Body = NoBody | OneTask(task: Task) | TaskList(tasks: seq<Task>) | Text(message: string)

  datatype Response = Response(status: int, body: Body)

  /** GET /tasks: every task, in insertion order. */
  method ListTasks(repo: TaskRepository) returns (resp: Response)
    ensures resp.status == StatusOK
    ensures resp.body == TaskList(repo.tasks)
  {
    var all := repo.GetAll();
    resp := Response(StatusOK, TaskList(all));
  }

  /** POST /tasks: an undecodable body is refused with 400 before the repository is touched;
      otherwise the task is added and returned with 201. */
  method CreateTask(repo: TaskRepository, body: Option<TaskRequest>) returns (resp: Response)
    modifies repo
    ensures body.None? ==> resp == Response(StatusBadRequest, Text(InvalidRequestBody)) && unchanged(repo)
    ensures body.Some? ==>
      var t := Task(old(repo.nextId), body.value.content, body.value.isDone);
      resp == Response(StatusCreated, OneTask(t)) &&
      repo.tasks == old(repo.tasks) + [t] &&
      repo.nextId == old(repo.nextId) + 1 &&
      repo.issued == old(repo.issued) + {t.id}
    ensures old(repo.Valid()) ==> repo.Valid()
  {
    if body.None? {
      return Response(StatusBadRequest, Text(InvalidRequestBody));
    }
    var t := repo.Add(body.value);
    resp := Response(StatusCreated, OneTask(t));
  }

  /** GET /tasks/{id}: 400 for a malformed id, 200 with the first matching task, 404 when none matches. */
  method GetTask(repo: TaskRepository, id: Option<int>) returns (resp: Response)
    ensures id.None? ==> resp == Response(StatusBadRequest, Text(InvalidIdFormat))
    ensures id.Some? && Absent(repo.tasks, id.value) ==> resp == Response(StatusNotFound, Text(TaskNotFound))
    ensures id.Some? && !Absent(repo.tasks, id.value) ==>
      resp == Response(StatusOK, OneTask(repo.tasks[IndexOfFirst(repo.tasks, id.value)]))
  {
    if id.None? {
      return Response(StatusBadRequest, Text(InvalidIdFormat));
    }
    var task := repo.GetById(id.value);
    if task.Some? {
      resp := Response(StatusOK, OneTask(task.value));
    } else {
      resp := Response(StatusNotFound, Text(TaskNotFound));
    }
  }

  /** PUT /tasks/{id}: a malformed id or body is refused with 400 and no repository call; otherwise
      the first task with that id is replaced by one carrying the same id (200), or 404 when none exists. */
  method UpdateTask(repo: TaskRepository, id: Option<int>, body: Option<TaskRequest>) returns (resp: Response)
    modifies repo
    ensures id.None? ==> resp == Response(StatusBadRequest, Text(InvalidIdFormat)) && unchanged(repo)
    ensures id.Some? && body.None? ==> resp == Response(StatusBadRequest, Text(InvalidRequestBody)) && unchanged(repo)
    ensures id.Some? && body.Some? ==>
      var t := Task(id.value, body.value.content, body.value.isDone);
      repo.tasks == ReplaceFirst(old(repo.tasks), id.value, t) &&
      repo.nextId == old(repo.nextId) && repo.issued == old(repo.issued) &&
      resp == if Absent(old(repo.tasks), id.value) then Response(StatusNotFound, Text(TaskNotFound))
              else Response(StatusOK, OneTask(t))
    ensures old(repo.Valid()) ==> repo.Valid()
  {
    if id.None? {
      return Response(StatusBadRequest, Text(InvalidIdFormat));
    }
    if body.None? {
      return Response(StatusBadRequest, Text(InvalidRequestBody));
    }
    var updatedTask := Task(id.value, body.value.content, body.value.isDone);
    var result := repo.Update(id.value, updatedTask);
    if result.Some? {
      resp := Response(StatusOK, OneTask(result.value));
    } else {
      resp := Response(StatusNotFound, Text(TaskNotFound));
    }
  }

  /** DELETE /tasks/{id}: 400 for a malformed id with no repository call; 204 with no body when the
      first matching task was removed, 404 when none matched. */
  method DeleteTask(repo: TaskRepository, id: Option<int>) returns (resp: Response)
    modifies repo
    ensures id.None? ==> resp == Response(StatusBadRequest, Text(InvalidIdFormat)) && unchanged(repo)
    ensures id.Some? ==>
      repo.tasks == RemoveFirst(old(repo.tasks), id.value) &&
      repo.nextId == old(repo.nextId) && repo.issued == old(repo.issued) &&
      resp == if Absent(old(repo.tasks), id.value) then Response(StatusNotFound, Text(TaskNotFound))
              else Response(StatusNoContent, NoBody)
    ensures old(repo.Valid()) ==> repo.Valid()
  {
    if id.None? {
      return Response(StatusBadRequest, Text(InvalidIdFormat));
    }
    var deleted := repo.Delete(id.value);
    if deleted {
      resp := Response(StatusNoContent, NoBody);
    } else {
      resp := Response(StatusNotFound, Text(TaskNotFound));
    }
  }
}
