/** The in-memory task store: an insertion-ordered list of tasks and the
    counter from which new ids are drawn, both updated in place. */
module Repository {
  import opened Tasks

  class TaskRepository {
    var tasks: seq<Task>
    var nextId: int
    /** Every id the repository has ever handed out, the seeded ones included. */
    ghost var issued: set<int>

    /** Ids are distinct, each stored id was issued, and every issued id is below the counter. */
    ghost predicate Valid()
      reads this
    {
      WellFormed(tasks, nextId) &&
      (forall i :: 0 <= i < |tasks| ==> tasks[i].id in issued) &&
      (forall x :: x in issued ==> x < nextId)
    }

    /** The store as the service starts: three seeded tasks and the counter at 4. */
    constructor ()
      ensures tasks == Seed() && nextId == SeedNextId
      ensures issued == {1, 2, 3}
      ensures Valid()
    {
      tasks := Seed();
      nextId := SeedNextId;
      issued := {1, 2, 3};
    }

    /** A snapshot of all tasks, in insertion order. */
    function GetAll(): (r: seq<Task>)
      reads this
      ensures |r| == |tasks|
      ensures forall i :: 0 <= i < |r| ==> r[i] == tasks[i]
    {
      tasks
    }

    /** The first task carrying `id`, or None when no task does. */
    function GetById(id: int): (r: Option<Task>)
      reads this
      ensures r.None? <==> Absent(tasks, id)
      ensures r.Some? ==> r.value == tasks[IndexOfFirst(tasks, id)]
    {
      FindIsFirstMatch(tasks, id);
      Find(tasks, id)
    }

    /** Linear scan for the first index whose task carries `id`; -1 when there is none. */
    method IndexOf(id: int) returns (index: int)
      ensures index == IndexOfFirst(tasks, id)
    {
      var i := 0;
      while i < |tasks|
        invariant 0 <= i <= |tasks|
        invariant forall j :: 0 <= j < i ==> tasks[j].id != id
      {
        if tasks[i].id == id {
          return i;
        }
        i := i + 1;
      }
      return -1;
    }

    /** Allocates the counter's value as the id of a new task and appends that task. */
    method Add(request: TaskRequest) returns (t: Task)
      modifies this
      ensures t == Task(old(nextId), request.content, request.isDone)
      ensures tasks == old(tasks) + [t]
      ensures nextId == old(nextId) + 1
      ensures issued == old(issued) + {t.id}
      ensures old(Valid()) ==> Valid()
      ensures old(Valid()) ==> t.id !in old(issued) && (forall x :: x in old(issued) ==> x < t.id)
      ensures old(Valid()) ==> GetById(t.id) == Some(t)
    {
      t := Task(nextId, request.content, request.isDone);
      if Valid() {
        AppendKeepsWellFormed(tasks, t.id, t);
        FindAfterAppend(tasks, t);
      }
      nextId := nextId + 1;
      tasks := tasks + [t];
      issued := issued + {t.id};
    }

    /** Overwrites the first task carrying `id` with `updatedTask`; nothing changes when none does.
        The id of `updatedTask` is not checked against `id`. */
    method Update(id: int, updatedTask: Task) returns (r: Option<Task>)
      modifies this`tasks
      ensures r == if Absent(old(tasks), id) then None else Some(updatedTask)
      ensures var k := IndexOfFirst(old(tasks), id);
              tasks == if k == -1 then old(tasks) else old(tasks)[k := updatedTask]
      ensures tasks == ReplaceFirst(old(tasks), id, updatedTask)
      ensures nextId == old(nextId) && issued == old(issued)
      ensures old(Valid()) && updatedTask.id == id ==> Valid()
      ensures !Absent(old(tasks), id) && updatedTask.id == id ==> GetById(id) == Some(updatedTask)
    {
      var index := IndexOf(id);
      ReplaceFirstWritesOneSlot(tasks, id, updatedTask);
      if updatedTask.id == id {
        ReplaceKeepsIds(tasks, id, updatedTask);
        if Valid() {
          ReplaceKeepsWellFormed(tasks, nextId, id, updatedTask);
        }
        if index != -1 {
          FindAfterReplace(tasks, id, updatedTask);
        }
      }
      if index != -1 {
        tasks := tasks[index := updatedTask];
        r := Some(updatedTask);
      } else {
        r := None;
      }
    }

    /** Removes the first task carrying `id` and reports whether there was one. */
    method Delete(id: int) returns (deleted: bool)
      modifies this`tasks
      ensures deleted <==> !Absent(old(tasks), id)
      ensures var k := IndexOfFirst(old(tasks), id);
              tasks == if k == -1 then old(tasks) else old(tasks)[..k] + old(tasks)[k + 1..]
      ensures tasks == RemoveFirst(old(tasks), id)
      ensures nextId == old(nextId) && issued == old(issued)
      ensures old(Valid()) ==> Valid() && GetById(id) == None
    {
      var index := IndexOf(id);
      if index != -1 {
        RemoveFirstSplices(tasks, id, index);
        if Valid() {
          RemoveKeepsWellFormed(tasks, nextId, id);
          RemoveLeavesNoMatch(tasks, id);
          var r := RemoveFirst(tasks, id);
          forall i | 0 <= i < |r|
            ensures r[i] == tasks[if i < index then i else i + 1]
          {
          }
        }
        tasks := tasks[..index] + tasks[index + 1..];
        deleted := true;
      } else {
        RemoveAbsentIsIdentity(tasks, id);
        deleted := false;
      }
    }
  }
}
