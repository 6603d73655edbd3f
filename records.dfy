/**
 The records the clinic stores: patient tasks and the per-patient,
 per-department requests derived from them.
 */
module Records {
  import opened Options

  type TaskId = string
  type PatientId = string
  type Department = string
  type Message = string
  type Medication = string
  type PharmacyId = string

  /** Request ids: the model draws them from a counter (see `Database.Db.NewRequestId`). */
  type ReqId = nat

  /** An abstract clock reading (`datetime.now()`). */
  type Time = nat

  datatype Status = Open | Closed

  /** A unit of clinical work assigned to a department (`assigned_to`) for a patient. */
  datatype Task = Task(
    id: TaskId,
    patientId: PatientId,
    assignedTo: Department,
    status: Status,
    updatedDate: Time)

  /** The aggregate of a patient's outstanding work in one department. */
  datatype Request = Request(
    id: ReqId,
    patientId: PatientId,
    status: Status,
    assignedTo: Department,
    createdDate: Time,
    updatedDate: Time,
    messages: seq<Message>,
    medications: seq<Medication>,
    taskIds: set<TaskId>,
    pharmacyId: Option<PharmacyId>)

  /** The argument of `ClinicManager.process_tasks_update`. */
  datatype TaskInput = TaskInput(tasks: seq<Task>)

  /** `[t for t in ts if t.status == s]`. */
  function WithStatus(ts: seq<Task>, s: Status): (r: seq<Task>)
    ensures forall t :: t in r <==> t in ts && t.status == s
    ensures |r| <= |ts|
  {
    if ts == [] then []
    else (if ts[0].status == s then [ts[0]] else []) + WithStatus(ts[1..], s)
  }

  /** Filtering keeps the input order: it distributes over concatenation. */
  lemma {:induction false} WithStatusAppend(a: seq<Task>, b: seq<Task>, s: Status)
    ensures WithStatus(a + b, s) == WithStatus(a, s) + WithStatus(b, s)
  {
    if a == [] {
      assert a + b == b;
    } else {
      assert (a + b)[1..] == a[1..] + b;
      WithStatusAppend(a[1..], b, s);
    }
  }
}
