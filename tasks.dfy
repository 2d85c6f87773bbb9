/** The task records of the to-do service and the value-level meaning of the
    repository's list operations: first-match lookup, replacement of the first
    match and removal of the first match, each defined on a sequence of tasks. */
module Tasks {

  datatype Option<+T> = None | Some(value: T)

  /** A stored to-do item. */
  datatype Task = Task(id: int, content: string, isDone: bool)

  /** The body of a create or update request: everything but the id. */
  datatype TaskRequest = TaskRequest(content: string, isDone: bool)

  /** The id the repository allocates after the seeded tasks. */
  const SeedNextId: int := 4

  /** No task in `ts` carries `id`. */
  predicate Absent(ts: seq<Task>, id: int) {
    forall i :: 0 <= i < |ts| ==> ts[i].id != id
  }

  /** No two tasks share an id. */
  ghost predicate DistinctIds(ts: seq<Task>) {
    forall i, j :: 0 <= i < j < |ts| ==> ts[i].id != ts[j].id
  }

  /** Every id is below the next id the repository will hand out. */
  ghost predicate IdsBelow(ts: seq<Task>, bound: int) {
    forall i :: 0 <= i < |ts| ==> ts[i].id < bound
  }

  /** The repository's invariant on its list and counter. */
  ghost predicate WellFormed(ts: seq<Task>, nextId: int) {
    DistinctIds(ts) && IdsBelow(ts, nextId)
  }

  /** The three tasks the repository starts with. */
  function Seed(): (r: seq<Task>)
    ensures |r| == 3
    ensures forall i :: 0 <= i < |r| ==> r[i].id == i + 1
    ensures WellFormed(r, SeedNextId)
  {
    [ Task(1, "Learn Ktor", true),
      Task(2, "Build a REST API", false),
      Task(3, "Write Unit Tests", false) ]
  }

  /** Index of the first task carrying `id`, or -1 when there is none. */
  function IndexOfFirst(ts: seq<Task>, id: int): (k: int)
    ensures -1 <= k < |ts|
    ensures k == -1 <==> Absent(ts, id)
    ensures 0 <= k ==> ts[k].id == id && forall i :: 0 <= i < k ==> ts[i].id != id
  {
    if |ts| == 0 then -1
    else if ts[0].id == id then 0
    else
      var k := IndexOfFirst(ts[1..], id);
      if k == -1 then -1 else k + 1
  }

  /** The first task carrying `id`, if any. */
  function Find(ts: seq<Task>, id: int): (r: Option<Task>)
    ensures r.None? <==> Absent(ts, id)
    ensures r.Some? ==> r.value.id == id && r.value in ts
  {
    if |ts| == 0 then None
    else if ts[0].id == id then Some(ts[0])
    else Find(ts[1..], id)
  }

  /** `ts` with its first task carrying `id` replaced by `t`. */
  function ReplaceFirst(ts: seq<Task>, id: int, t: Task): (r: seq<Task>)
    ensures |r| == |ts|
  {
    if |ts| == 0 then []
    else if ts[0].id == id then [t] + ts[1..]
    else [ts[0]] + ReplaceFirst(ts[1..], id, t)
  }

  /** `ts` without its first task carrying `id`. */
  function RemoveFirst(ts: seq<Task>, id: int): (r: seq<Task>)
    ensures |r| == if Absent(ts, id) then |ts| else |ts| - 1
  {
    if |ts| == 0 then []
    else if ts[0].id == id then ts[1..]
    else [ts[0]] + RemoveFirst(ts[1..], id)
  }

  /** Find returns exactly the element at the first matching index. */
  lemma {:induction false} FindIsFirstMatch(ts: seq<Task>, id: int)
    ensures Find(ts, id) == (var k := IndexOfFirst(ts, id); if k == -1 then None else Some(ts[k]))
  {
    if |ts| > 0 && ts[0].id != id {
      FindIsFirstMatch(ts[1..], id);
    }
  }

  /** Replacing changes exactly the first matching slot, and nothing when no task matches. */
  lemma {:induction false} ReplaceFirstWritesOneSlot(ts: seq<Task>, id: int, t: Task)
    ensures ReplaceFirst(ts, id, t) == (var k := IndexOfFirst(ts, id); if k == -1 then ts else ts[k := t])
  {
    if |ts| > 0 && ts[0].id != id {
      ReplaceFirstWritesOneSlot(ts[1..], id, t);
      var k := IndexOfFirst(ts[1..], id);
      if k != -1 {
        assert [ts[0]] + ts[1..][k := t] == ts[k + 1 := t];
      }
    }
  }

  /** Cutting element k + 1 out of a list is keeping its head and cutting element k out of its tail. */
  lemma ConsSplice(ts: seq<Task>, k: int)
    requires 0 <= k < |ts| - 1
    ensures [ts[0]] + (ts[1..][..k] + ts[1..][k + 1..]) == ts[..k + 1] + ts[k + 2..]
  {
    assert ts[1..][..k] == ts[1..k + 1];
    assert ts[1..][k + 1..] == ts[k + 2..];
    assert [ts[0]] + ts[1..k + 1] == ts[..k + 1];
  }

  /** Removing an id no task carries changes nothing. */
  lemma {:induction false} RemoveAbsentIsIdentity(ts: seq<Task>, id: int)
    requires Absent(ts, id)
    ensures RemoveFirst(ts, id) == ts
  {
    if |ts| > 0 {
      RemoveAbsentIsIdentity(ts[1..], id);
      assert [ts[0]] + ts[1..] == ts;
    }
  }

  /** Removing drops exactly the first matching element and keeps the others in order. */
  lemma {:induction false} RemoveFirstSplices(ts: seq<Task>, id: int, k: int)
    requires k == IndexOfFirst(ts, id) && k != -1
    ensures RemoveFirst(ts, id) == ts[..k] + ts[k + 1..]
  {
    if k == 0 {
      assert ts[..0] + ts[1..] == ts[1..];
    } else {
      assert IndexOfFirst(ts[1..], id) == k - 1;
      RemoveFirstSplices(ts[1..], id, k - 1);
      ConsSplice(ts, k - 1);
    }
  }

  /** Appending a task under a fresh id makes it what a lookup of that id finds. */
  lemma {:induction false} FindAfterAppend(ts: seq<Task>, t: Task)
    requires Absent(ts, t.id)
    ensures Find(ts + [t], t.id) == Some(t)
  {
    if |ts| > 0 {
      assert (ts + [t])[1..] == ts[1..] + [t];
      FindAfterAppend(ts[1..], t);
    }
  }

  /** Appending a task whose id is the counter, then bumping the counter, keeps the invariant. */
  lemma AppendKeepsWellFormed(ts: seq<Task>, nextId: int, t: Task)
    requires WellFormed(ts, nextId) && t.id == nextId
    ensures WellFormed(ts + [t], nextId + 1)
  {
  }

  /** Replacing the first match by a task with the same id keeps every id in place. */
  lemma {:induction false} ReplaceKeepsIds(ts: seq<Task>, id: int, t: Task)
    requires t.id == id
    ensures var r := ReplaceFirst(ts, id, t);
            forall i :: 0 <= i < |ts| ==> r[i].id == ts[i].id
  {
    ReplaceFirstWritesOneSlot(ts, id, t);
  }

  /** An update that keeps the id keeps the invariant. */
  lemma ReplaceKeepsWellFormed(ts: seq<Task>, nextId: int, id: int, t: Task)
    requires WellFormed(ts, nextId) && t.id == id
    ensures WellFormed(ReplaceFirst(ts, id, t), nextId)
  {
    ReplaceKeepsIds(ts, id, t);
  }

  /** After replacing an existing task by one with the same id, a lookup finds the new task. */
  lemma {:induction false} FindAfterReplace(ts: seq<Task>, id: int, t: Task)
    requires t.id == id && !Absent(ts, id)
    ensures Find(ReplaceFirst(ts, id, t), id) == Some(t)
  {
    if ts[0].id != id {
      var r := ReplaceFirst(ts, id, t);
      assert r[1..] == ReplaceFirst(ts[1..], id, t);
      FindAfterReplace(ts[1..], id, t);
    }
  }

  /** Cutting one element out of a list keeps the invariant. */
  lemma SpliceKeepsWellFormed(ts: seq<Task>, nextId: int, k: int)
    requires WellFormed(ts, nextId) && 0 <= k < |ts|
    ensures WellFormed(ts[..k] + ts[k + 1..], nextId)
  {
    var r := ts[..k] + ts[k + 1..];
    forall i | 0 <= i < |r|
      ensures r[i] == ts[if i < k then i else i + 1]
    {
    }
  }

  /** Removing an element keeps the invariant. */
  lemma RemoveKeepsWellFormed(ts: seq<Task>, nextId: int, id: int)
    requires WellFormed(ts, nextId)
    ensures WellFormed(RemoveFirst(ts, id), nextId)
  {
    var k := IndexOfFirst(ts, id);
    if k == -1 {
      RemoveAbsentIsIdentity(ts, id);
    } else {
      RemoveFirstSplices(ts, id, k);
      SpliceKeepsWellFormed(ts, nextId, k);
    }
  }

  /** With distinct ids, after the first match is removed no task carries the id. */
  lemma {:induction false} RemoveLeavesNoMatch(ts: seq<Task>, id: int)
    requires DistinctIds(ts)
    ensures Absent(RemoveFirst(ts, id), id)
  {
    if |ts| > 0 {
      if ts[0].id == id {
        forall i | 0 <= i < |ts| - 1
          ensures ts[1..][i].id != id
        {
          assert ts[1..][i] == ts[i + 1];
        }
      } else {
        assert DistinctIds(ts[1..]) by {
          forall i, j | 0 <= i < j < |ts| - 1
            ensures ts[1..][i].id != ts[1..][j].id
          {
            assert ts[1..][i] == ts[i + 1] && ts[1..][j] == ts[j + 1];
          }
        }
        RemoveLeavesNoMatch(ts[1..], id);
      }
    }
  }

  /** With distinct ids, removing twice is the same as removing once. */
  lemma RemoveTwiceIsRemoveOnce(ts: seq<Task>, id: int)
    requires DistinctIds(ts)
    ensures RemoveFirst(RemoveFirst(ts, id), id) == RemoveFirst(ts, id)
  {
    RemoveLeavesNoMatch(ts, id);
    RemoveAbsentIsIdentity(RemoveFirst(ts, id), id);
  }
}
