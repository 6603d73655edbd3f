/**
 `DepartmentPatientRequestService` of `services/patient_department_request_service.py`:
 the methods write to the shared request table and draw ids from the shared
 id source, and each is proved to compute what its function in
 `ReconcilerSpec` says.
 */
module Reconciler {
  import opened Options
  import opened Tables
  import opened Records
  import opened Database
  import opened ReconcilerSpec

  class DepartmentPatientRequestService {
    const db: Db
    /** `to_patient_request`, inherited from the base class. */
    const toPatientRequest: Builder

    ghost predicate Valid()
      reads this, db
    {
      db.Valid() && BuilderOk(toPatientRequest)
    }

    constructor (db: Db, toPatientRequest: Builder)
      requires db.Valid() && BuilderOk(toPatientRequest)
      ensures Valid()
      ensures this.db == db && this.toPatientRequest == toPatientRequest
    {
      this.db := db;
      this.toPatientRequest := toPatientRequest;
    }

    /** `get_open_patient_requests`: exactly the stored Open requests of `p`, in table order. */
    function GetOpenPatientRequests(p: PatientId): (rs: seq<Request>)
      reads this, db
      requires db.Valid()
      ensures forall r :: r in rs <==>
                (exists k :: k in db.requests.docs && db.requests.docs[k] == r) && r.patientId == p && r.status == Open
    {
      OpenRequestsOfMembers(db.requests.Rows(), p);
      assert forall r :: r in db.requests.Rows() <==> exists k :: k in db.requests.docs && db.requests.docs[k] == r by {
        forall r ensures r in db.requests.Rows() <==> exists k :: k in db.requests.docs && db.requests.docs[k] == r {
          RowsHold(db.requests, r);
        }
      }
      OpenRequestsOf(db.requests.Rows(), p)
    }

    /** `create_closed_request`: a fresh id is drawn only when there is no existing request. */
    method CreateClosedRequest(p: PatientId, d: Department, existing: Option<Request>, now: Time)
      returns (r: Request)
      requires Valid()
      modifies db`nextId
      ensures Valid()
      ensures r == ReconcilerSpec.CreateClosedRequest(p, d, existing, old(db.nextId), now)
      ensures db.nextId == old(db.nextId) + (if existing.None? then 1 else 0)
    {
      var id: ReqId;
      if existing.Some? {
        id := existing.value.id;
      } else {
        id := db.NewRequestId();
      }
      r := ReconcilerSpec.CreateClosedRequest(p, d, existing, id, now);
    }

    /** `process_department_tasks`: the new store and the flag are those of `ProcessDepartment`. */
    method ProcessDepartmentTasks(p: PatientId, d: Department, deptTasks: seq<Task>,
                                  existing: Option<Request>, now: Time) returns (handled: bool)
      requires Valid()
      modifies db`requests, db`nextId
      ensures Valid()
      ensures db.RequestState() == ProcessDepartment(old(db.RequestState()), p, d, deptTasks, existing, now, toPatientRequest).0
      ensures handled == ProcessDepartment(old(db.RequestState()), p, d, deptTasks, existing, now, toPatientRequest).1
    {
      var openTasks := WithStatus(deptTasks, Open);
      if openTasks == [] && existing.Some? {
        var closed := CreateClosedRequest(p, d, existing, now);
        db.UpdateRequest(closed);
        return true;
      }
      if openTasks != [] {
        var id := db.NewRequestId();
        var r := toPatientRequest(p, d, deptTasks, id, now);
        if existing.None? {
          db.InsertRequest(r);
        } else {
          r := r.(id := existing.value.id);
          db.UpdateRequest(r);
        }
        return true;
      }
      return false;
    }

    /** `close_remaining_requests`: close each remaining request, in the dict's order. */
    method CloseRemainingRequests(p: PatientId, remaining: Table<Department, Request>, now: Time)
      requires Valid() && remaining.Valid()
      modifies db`requests, db`nextId
      ensures Valid()
      ensures db.RequestState() == CloseRemaining(old(db.RequestState()), p, remaining.Rows(), now)
    {
      var rs := remaining.Rows();
      for i := 0 to |rs|
        invariant Valid()
        invariant db.RequestState() == CloseRemaining(old(db.RequestState()), p, rs[..i], now)
      {
        assert rs[..i + 1][..i] == rs[..i];
        var req := rs[i];
        var closed := CreateClosedRequest(p, req.assignedTo, Some(req), now);
        db.UpdateRequest(closed);
      }
      assert rs[..|rs|] == rs;
    }

    /**
     The department loop of `update_requests` for patient `p`: process each
     department of its grouped tasks in order, popping every handled one from
     the index of its Open requests; the index that is left is returned.
     */
    method ProcessAllDepartments(p: PatientId, deptTasks: Table<Department, seq<Task>>,
                                 existingByDept: Table<Department, Request>, now: Time)
      returns (remaining: Table<Department, Request>)
      requires Valid() && deptTasks.Valid() && existingByDept.Valid()
      modifies db`requests, db`nextId
      ensures Valid() && remaining.Valid()
      ensures db.RequestState()
                == ProcessDepartments(old(db.RequestState()), p, deptTasks, existingByDept, |deptTasks.order|,
                                      now, toPatientRequest).0
      ensures remaining
                == ProcessDepartments(old(db.RequestState()), p, deptTasks, existingByDept, |deptTasks.order|,
                                      now, toPatientRequest).1
    {
      remaining := existingByDept;
      for k := 0 to |deptTasks.order|
        invariant Valid()
        invariant db.RequestState()
                    == ProcessDepartments(old(db.RequestState()), p, deptTasks, existingByDept, k, now, toPatientRequest).0
        invariant remaining
                    == ProcessDepartments(old(db.RequestState()), p, deptTasks, existingByDept, k, now, toPatientRequest).1
      {
        ProcessDepartmentsNext(old(db.RequestState()), p, deptTasks, existingByDept, k, now, toPatientRequest);
        var d := deptTasks.order[k];
        var handled := ProcessDepartmentTasks(p, d, deptTasks.docs[d], remaining.Get(d), now);
        if handled {
          remaining := remaining.Pop(d);
        }
      }
    }

    /**
     One pass of the patient loop of `update_requests`: index the patient's
     Open requests by department, run the department loop over its grouped
     tasks, then close what is left.
     */
    method ReconcilePatientRequests(p: PatientId, deptTasks: Table<Department, seq<Task>>, now: Time)
      requires Valid() && deptTasks.Valid()
      modifies db`requests, db`nextId
      ensures Valid()
      ensures db.RequestState() == ReconcilePatient(old(db.RequestState()), p, deptTasks, now, toPatientRequest)
    {
      var existingRequests := GetOpenPatientRequests(p);
      var existingByDept := IndexByDept(existingRequests);
      var remaining := ProcessAllDepartments(p, deptTasks, existingByDept, now);
      CloseRemainingRequests(p, remaining, now);
    }

    /** The grouping loop of `update_requests`: bucket the batch by patient, then by department. */
    static method GroupTasks(tasks: seq<Task>) returns (grouped: Grouped)
      ensures grouped == Group(tasks)
    {
      grouped := Empty();
      for i := 0 to |tasks|
        invariant grouped == Group(tasks[..i])
      {
        assert tasks[..i + 1][..i] == tasks[..i];
        grouped := AddTask(grouped, tasks[i]);
      }
      assert tasks[..|tasks|] == tasks;
    }

    /**
     `update_requests`: an empty batch returns at once; otherwise group the
     batch, then run the patient pass for each patient in order of first
     appearance.
     */
    method UpdateRequests(tasks: seq<Task>, now: Time)
      requires Valid()
      modifies db`requests, db`nextId
      ensures Valid()
      ensures db.RequestState() == ReconcilerSpec.UpdateRequests(old(db.RequestState()), tasks, now, toPatientRequest)
    {
      if tasks == [] {
        return;
      }
      var grouped := GroupTasks(tasks);
      for j := 0 to |grouped.order|
        invariant Valid()
        invariant db.RequestState() == ReconcilePatients(old(db.RequestState()), grouped, grouped.order[..j], now, toPatientRequest)
      {
        ReconcilePatientsPrefix(old(db.RequestState()), grouped, grouped.order, j, now, toPatientRequest);
        var p := grouped.order[j];
        ReconcilePatientRequests(p, grouped.docs[p], now);
      }
      assert grouped.order[..|grouped.order|] == grouped.order;
    }
  }
}
