/**
 `ClinicManager.process_tasks_update` of `clinic_manager.py`: ingest the
 batch, then hand the reconciler every stored Open task followed by the
 batch's Closed tasks.
 */
module Clinic {
  import opened Tables
  import opened Records
  import opened Database
  import opened TaskIngest
  import opened ReconcilerSpec
  import opened PatientPass
  import opened ReconcilerProofs
  import opened Reconciler

  /** The reconciler's input: the stored Open tasks, then the Closed tasks of the batch in batch order. */
  function ReconcilerInput(stored: Table<TaskId, Task>, batch: seq<Task>): (r: seq<Task>)
    requires stored.Valid()
    ensures forall i :: 0 <= i < |r| ==> (r[i].status == Open <==> i < |OpenTasks(stored)|)
  {
    OpenTasks(stored) + WithStatus(batch, Closed)
  }

  /** The tasks table and the request store after `process_tasks_update(TaskInput(batch))`. */
  function AfterTasksUpdate(tasks: Table<TaskId, Task>, st: RequestStore, batch: seq<Task>,
                            now: Time, build: Builder): (r: (Table<TaskId, Task>, RequestStore))
    requires TasksKeyed(tasks) && st.requests.Valid()
    ensures TasksKeyed(r.0) && r.1.requests.Valid()
  {
    if batch == [] then (tasks, st)
    else
      var ingested := UpsertAll(tasks, batch);
      (ingested, UpdateRequests(st, ReconcilerInput(ingested, batch), now, build))
  }

  /** Some stored task of patient `p` in department `d` is Open. */
  ghost predicate StoredOpenTask(t: Table<TaskId, Task>, p: PatientId, d: Department) {
    exists k :: k in t.docs && t.docs[k].patientId == p && t.docs[k].assignedTo == d && t.docs[k].status == Open
  }

  /** An empty batch changes neither table; otherwise the batch is ingested before the reconciler runs. */
  lemma AfterTasksUpdateIngests(tasks: Table<TaskId, Task>, st: RequestStore, batch: seq<Task>,
                                now: Time, build: Builder)
    requires TasksKeyed(tasks) && st.requests.Valid()
    ensures batch == [] ==> AfterTasksUpdate(tasks, st, batch, now, build) == (tasks, st)
    ensures batch != [] ==>
              var ingested := AfterTasksUpdate(tasks, st, batch, now, build).0;
                && ingested.docs.Keys == tasks.docs.Keys + Ids(batch)
                && forall x :: x in Ids(batch) ==> ingested.docs[x] == Latest(batch, x).value
  {
    UpsertAllKeys(tasks, batch);
    forall x | x in Ids(batch) ensures UpsertAll(tasks, batch).docs[x] == Latest(batch, x).value {
      UpsertAllLatest(tasks, batch, x);
    }
  }

  /**
   A task reaches the reconciler exactly when it is Open and stored under its
   id after ingestion, or it is a Closed task of the batch.
   */
  lemma ReconcilerInputMembers(stored: Table<TaskId, Task>, batch: seq<Task>, x: Task)
    requires TasksKeyed(stored)
    ensures x in ReconcilerInput(stored, batch) <==>
              (x.status == Open && x.id in stored.docs && stored.docs[x.id] == x) || (x in batch && x.status == Closed)
  {
    OpenTasksExact(stored, x);
  }

  /**
   The last occurrence of every id of the batch reaches the reconciler: an
   Open one through the store, a Closed one as a newly closed task. So every
   patient named by such a task is a patient of the reconciler's batch.
   */
  lemma LatestReachesReconciler(tasks: Table<TaskId, Task>, batch: seq<Task>, x: TaskId)
    requires TasksKeyed(tasks) && x in Ids(batch)
    ensures Latest(batch, x).value in ReconcilerInput(UpsertAll(tasks, batch), batch)
    ensures InBatch(ReconcilerInput(UpsertAll(tasks, batch), batch), Latest(batch, x).value.patientId)
  {
    var t := Latest(batch, x).value;
    UpsertAllLatest(tasks, batch, x);
    ReconcilerInputMembers(UpsertAll(tasks, batch), batch, t);
  }

  /** The reconciler's input has an Open task of `p` in `d` exactly when the store does after ingestion. */
  lemma InputOpenIsStoredOpen(stored: Table<TaskId, Task>, batch: seq<Task>, p: PatientId, d: Department)
    requires TasksKeyed(stored)
    ensures HasOpenTask(ReconcilerInput(stored, batch), p, d) <==> StoredOpenTask(stored, p, d)
  {
    var input := ReconcilerInput(stored, batch);
    if HasOpenTask(input, p, d) {
      var t :| t in input && t.patientId == p && t.assignedTo == d && t.status == Open;
      ReconcilerInputMembers(stored, batch, t);
    }
    if StoredOpenTask(stored, p, d) {
      var k :| k in stored.docs && stored.docs[k].patientId == p && stored.docs[k].assignedTo == d && stored.docs[k].status == Open;
      ReconcilerInputMembers(stored, batch, stored.docs[k]);
    }
  }

  /**
   End to end, with at most one Open request per patient and department
   beforehand: for a non-empty batch, every patient handed to the reconciler
   ends with an Open request in a department exactly when one of its stored
   tasks there is Open after ingestion, and uniqueness is kept.
   */
  lemma AfterTasksUpdateConverges(tasks: Table<TaskId, Task>, st: RequestStore, batch: seq<Task>,
                                  now: Time, build: Builder)
    requires TasksKeyed(tasks) && WellKeyed(st) && BuilderOk(build) && UniqueOpen(st) && batch != []
    ensures var (ingested, st') := AfterTasksUpdate(tasks, st, batch, now, build);
              && UniqueOpen(st')
              && forall p, d :: InBatch(ReconcilerInput(ingested, batch), p) ==>
                   (HasOpenRequest(st', p, d) <==> StoredOpenTask(ingested, p, d))
  {
    var ingested := UpsertAll(tasks, batch);
    var input := ReconcilerInput(ingested, batch);
    UpdateRequestsUnique(st, input, now, build);
    UpdateRequestsConverge(st, input, now, build);
    forall p, d | InBatch(input, p)
      ensures HasOpenRequest(UpdateRequests(st, input, now, build), p, d) <==> StoredOpenTask(ingested, p, d)
    {
      InputOpenIsStoredOpen(ingested, batch, p, d);
    }
  }

  class ClinicManager {
    const requestService: DepartmentPatientRequestService
    const taskService: TaskService

    /** Both services work on the same database. */
    ghost predicate Valid()
      reads this, requestService, requestService.db, taskService
    {
      requestService.Valid() && taskService.db == requestService.db
    }

    /** The request service is injected; the task service is made here, on the request service's database. */
    constructor (requestService: DepartmentPatientRequestService)
      requires requestService.Valid()
      ensures Valid()
      ensures this.requestService == requestService && fresh(taskService)
    {
      this.requestService := requestService;
      taskService := new TaskService(requestService.db);
    }

    /** `process_tasks_update(task_input)`: both tables end as `AfterTasksUpdate` says. */
    method ProcessTasksUpdate(taskInput: TaskInput, now: Time)
      requires Valid()
      modifies requestService.db`tasks, requestService.db`requests, requestService.db`nextId
      ensures Valid()
      ensures (requestService.db.tasks, requestService.db.RequestState())
                == AfterTasksUpdate(old(requestService.db.tasks), old(requestService.db.RequestState()),
                                    taskInput.tasks, now, requestService.toPatientRequest)
    {
      var tasks := taskInput.tasks;
      if tasks == [] {
        return;
      }
      taskService.UpdatesTasks(tasks);
      var newlyClosedTasks := WithStatus(tasks, Closed);
      var openTasks := taskService.GetOpenTasks();
      requestService.UpdateRequests(openTasks + newlyClosedTasks, now);
    }
  }
}
