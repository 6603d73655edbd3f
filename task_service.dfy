/**
 The task ingestor (`services/task_service.py`): it upserts a batch of tasks
 into the tasks table one at a time, and lists the stored Open tasks.
 */
module TaskIngest {
  import opened Options
  import opened Tables
  import opened Records
  import opened Database

  /** The ids occurring in a batch. */
  ghost function Ids(ts: seq<Task>): set<TaskId> {
    set t | t in ts :: t.id
  }

  /** The last task of the batch that carries id `x`, if any. */
  function Latest(ts: seq<Task>, x: TaskId): (r: Option<Task>)
    ensures r.Some? <==> x in Ids(ts)
    ensures r.Some? ==> r.value in ts && r.value.id == x
  {
    if ts == [] then None
    else
      assert ts == ts[..|ts| - 1] + [ts[|ts| - 1]];
      if ts[|ts| - 1].id == x then Some(ts[|ts| - 1]) else Latest(ts[..|ts| - 1], x)
  }

  /** The tasks table after upserting every task of `ts`, first to last. */
  function UpsertAll(t: Table<TaskId, Task>, ts: seq<Task>): (r: Table<TaskId, Task>)
    ensures TasksKeyed(t) ==> TasksKeyed(r)
  {
    if ts == [] then t
    else UpsertAll(t, ts[..|ts| - 1]).Upsert(ts[|ts| - 1].id, ts[|ts| - 1])
  }

  /**
   After the batch, an id of the batch holds the task of its last occurrence;
   any other id holds what it held before (or is still absent).
   */
  lemma {:induction false} UpsertAllLatest(t: Table<TaskId, Task>, ts: seq<Task>, x: TaskId)
    ensures Latest(ts, x).Some? ==> x in UpsertAll(t, ts).docs && UpsertAll(t, ts).docs[x] == Latest(ts, x).value
    ensures Latest(ts, x).None? ==> (x in UpsertAll(t, ts).docs <==> x in t.docs)
    ensures Latest(ts, x).None? && x in t.docs ==> UpsertAll(t, ts).docs[x] == t.docs[x]
  {
    if ts != [] {
      UpsertAllLatest(t, ts[..|ts| - 1], x);
    }
  }

  /** The stored ids after the batch are the old ones together with the batch's. */
  lemma UpsertAllKeys(t: Table<TaskId, Task>, ts: seq<Task>)
    ensures UpsertAll(t, ts).docs.Keys == t.docs.Keys + Ids(ts)
  {
    forall x ensures x in UpsertAll(t, ts).docs <==> x in t.docs || x in Ids(ts) {
      UpsertAllLatest(t, ts, x);
    }
  }

  /** An empty batch leaves the table as it is. */
  lemma UpsertAllEmpty(t: Table<TaskId, Task>)
    ensures UpsertAll(t, []) == t
  {
  }

  /** Upserting tasks whose ids are all stored already keeps the insertion order. */
  lemma {:induction false} UpsertAllKeepsOrder(t: Table<TaskId, Task>, ts: seq<Task>)
    requires forall i :: 0 <= i < |ts| ==> ts[i].id in t.docs
    ensures UpsertAll(t, ts).order == t.order
    ensures UpsertAll(t, ts).docs.Keys == t.docs.Keys
  {
    if ts != [] {
      UpsertAllKeepsOrder(t, ts[..|ts| - 1]);
    }
  }

  /** Ingesting the same batch twice leaves the table as ingesting it once. */
  lemma UpsertAllIdempotent(t: Table<TaskId, Task>, ts: seq<Task>)
    ensures UpsertAll(UpsertAll(t, ts), ts) == UpsertAll(t, ts)
  {
    var once := UpsertAll(t, ts);
    var twice := UpsertAll(once, ts);
    UpsertAllKeys(t, ts);
    forall i | 0 <= i < |ts| ensures ts[i].id in once.docs {
      assert ts[i] in ts;
    }
    UpsertAllKeepsOrder(once, ts);
    forall x | x in twice.docs ensures twice.docs[x] == once.docs[x] {
      UpsertAllLatest(once, ts, x);
      UpsertAllLatest(t, ts, x);
    }
    assert twice.docs == once.docs;
  }

  /** The stored tasks whose status is Open, in table order (`get_open_tasks`). */
  function OpenTasks(t: Table<TaskId, Task>): (r: seq<Task>)
    requires t.Valid()
    ensures |r| <= |t.order|
    ensures forall x :: x in r ==> x.status == Open
  {
    WithStatus(t.Rows(), Open)
  }

  /** `OpenTasks` returns exactly the stored tasks whose status is Open. */
  lemma OpenTasksExact(t: Table<TaskId, Task>, x: Task)
    requires TasksKeyed(t)
    ensures x in OpenTasks(t) <==> x.status == Open && x.id in t.docs && t.docs[x.id] == x
  {
    RowsHold(t, x);
  }

  class TaskService {
    const db: Db

    constructor (db: Db)
      ensures this.db == db
    {
      this.db := db;
    }

    /** `updates_tasks`: upsert each task of the batch, in order. */
    method UpdatesTasks(ts: seq<Task>)
      requires db.Valid()
      modifies db`tasks
      ensures db.Valid()
      ensures db.tasks == UpsertAll(old(db.tasks), ts)
    {
      for i := 0 to |ts|
        invariant db.Valid()
        invariant db.tasks == UpsertAll(old(db.tasks), ts[..i])
      {
        assert ts[..i + 1][..i] == ts[..i];
        db.UpsertTask(ts[i]);
      }
      assert ts[..|ts|] == ts;
    }

    /** `get_open_tasks`: exactly the stored tasks whose status is Open. */
    function GetOpenTasks(): (r: seq<Task>)
      reads this, db
      requires db.Valid()
      ensures r == OpenTasks(db.tasks)
      ensures forall x :: x in r <==> x.status == Open && x.id in db.tasks.docs && db.tasks.docs[x.id] == x
    {
      forall x ensures x in OpenTasks(db.tasks) <==> x.status == Open && x.id in db.tasks.docs && db.tasks.docs[x.id] == x {
        OpenTasksExact(db.tasks, x);
      }
      OpenTasks(db.tasks)
    }
  }
}
