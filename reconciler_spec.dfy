/**
 The request reconciler of `services/patient_department_request_service.py`,
 as functions over the request store. Each loop of the service is a left fold
 over a prefix, so that the service's methods can be proved equal to these
 functions step by step.
 */
module ReconcilerSpec {
  import opened Options
  import opened Tables
  import opened Records
  import opened Database

  /**
   `to_patient_request(patient_id, dept_tasks)`, inherited from a base class
   that is not part of this model. It receives the id it draws from the id
   oracle and the clock reading of the call.
   */
  type Builder = (PatientId, Department, seq<Task>, ReqId, Time) -> Request

  /** What the call sites rely on: a request of that id, patient and department, with status Open. */
  ghost predicate BuilderOk(build: Builder) {
    forall p, d, ts, id, now ::
      && build(p, d, ts, id, now).id == id
      && build(p, d, ts, id, now).patientId == p
      && build(p, d, ts, id, now).assignedTo == d
      && build(p, d, ts, id, now).status == Open
  }

  /** A request that is Open for patient `p` in department `d`. */
  ghost predicate OpenFor(r: Request, p: PatientId, d: Department) {
    r.status == Open && r.patientId == p && r.assignedTo == d
  }

  /** `create_closed_request`: `freshId` is what `uuid4()` would give when there is no existing request. */
  function CreateClosedRequest(p: PatientId, d: Department, existing: Option<Request>,
                               freshId: ReqId, now: Time): (r: Request)
    ensures r.status == Closed && r.patientId == p && r.assignedTo == d && r.updatedDate == now
    ensures existing.Some? ==> r.id == existing.value.id
  {
    Request(
      id := if existing.Some? then existing.value.id else freshId,
      patientId := p,
      status := Closed,
      assignedTo := d,
      createdDate := if existing.Some? then existing.value.createdDate else now,
      updatedDate := now,
      messages := if existing.Some? then existing.value.messages else [],
      medications := [],
      taskIds := {},
      pharmacyId := None)
  }

  /**
   A closed request is Closed for `p` in `d`, stamped `now`, with no
   medications, task ids or pharmacy; closing an existing request keeps its
   id, creation date and messages, and does not use the fresh id. Closing it
   once more only moves its update time.
   */
  lemma ClosedRequestKeeps(p: PatientId, d: Department, existing: Option<Request>, freshId: ReqId, now: Time,
                           otherId: ReqId, later: Time)
    ensures var r := CreateClosedRequest(p, d, existing, freshId, now);
              && r.status == Closed && r.patientId == p && r.assignedTo == d && r.updatedDate == now
              && r.medications == [] && r.taskIds == {} && r.pharmacyId == None
              && (existing.Some? ==>
                    && r.id == existing.value.id
                    && r.createdDate == existing.value.createdDate
                    && r.messages == existing.value.messages
                    && r == CreateClosedRequest(p, d, existing, otherId, now))
              && (existing.None? ==> r.id == freshId && r.createdDate == now && r.messages == [])
              && CreateClosedRequest(p, d, Some(r), otherId, later) == r.(updatedDate := later)
  {
  }

  /** `get_open_patient_requests`: the stored Open requests of patient `p`, in table order. */
  function OpenRequestsOf(rows: seq<Request>, p: PatientId): (r: seq<Request>)
    ensures |r| <= |rows|
  {
    if rows == [] then []
    else (if rows[0].patientId == p && rows[0].status == Open then [rows[0]] else [])
         + OpenRequestsOf(rows[1..], p)
  }

  /** The result holds exactly the rows that are Open requests of `p`. */
  lemma {:induction false} OpenRequestsOfMembers(rows: seq<Request>, p: PatientId)
    ensures forall r :: r in OpenRequestsOf(rows, p) <==> r in rows && r.patientId == p && r.status == Open
  {
    if rows != [] {
      OpenRequestsOfMembers(rows[1..], p);
      assert rows == [rows[0]] + rows[1..];
    }
  }

  /** `{req['assigned_to']: req for req in rs}`: a later request of a department replaces an earlier one. */
  function IndexByDept(rs: seq<Request>): (e: Table<Department, Request>)
    ensures e.Valid()
    ensures |e.order| <= |rs|
  {
    if rs == [] then Empty()
    else IndexByDept(rs[..|rs| - 1]).Upsert(rs[|rs| - 1].assignedTo, rs[|rs| - 1])
  }

  /** Every request's department is a key, and each key holds one of the requests of that department. */
  lemma {:induction false} IndexByDeptEntries(rs: seq<Request>)
    ensures forall r :: r in rs ==> r.assignedTo in IndexByDept(rs).docs
    ensures forall d :: d in IndexByDept(rs).docs ==> IndexByDept(rs).docs[d] in rs && IndexByDept(rs).docs[d].assignedTo == d
  {
    if rs != [] {
      var prefix := rs[..|rs| - 1];
      IndexByDeptEntries(prefix);
      assert rs == prefix + [rs[|rs| - 1]];
    }
  }

  /** The tasks grouped by patient, then by department: `grouped_tasks`. */
  type Grouped = Table<PatientId, Table<Department, seq<Task>>>

  /** The tasks of patient `p` in department `d`, in batch order. */
  function TasksFor(ts: seq<Task>, p: PatientId, d: Department): (r: seq<Task>)
    ensures forall t :: t in r <==> t in ts && t.patientId == p && t.assignedTo == d
  {
    if ts == [] then []
    else
      assert ts == ts[..|ts| - 1] + [ts[|ts| - 1]];
      var last := ts[|ts| - 1];
      TasksFor(ts[..|ts| - 1], p, d) + (if last.patientId == p && last.assignedTo == d then [last] else [])
  }

  /** `grouped_tasks[t.patient_id][t.assigned_to].append(t)`. */
  function AddTask(g: Grouped, t: Task): (r: Grouped)
    ensures r.docs.Keys == g.docs.Keys + {t.patientId}
    ensures t.assignedTo in r.docs[t.patientId].docs && t in r.docs[t.patientId].docs[t.assignedTo]
  {
    var depts := g.Get(t.patientId).GetOr(Empty());
    var bucket := depts.Get(t.assignedTo).GetOr([]);
    g.Upsert(t.patientId, depts.Upsert(t.assignedTo, bucket + [t]))
  }

  /** Some task of the batch belongs to patient `p`. */
  ghost predicate InBatch(ts: seq<Task>, p: PatientId) {
    exists t :: t in ts && t.patientId == p
  }

  /** Adding a task keeps the grouping well formed and touches only that task's bucket. */
  lemma AddTaskEffect(g: Grouped, t: Task)
    requires g.Valid() && forall p :: p in g.docs ==> g.docs[p].Valid()
    ensures AddTask(g, t).Valid()
    ensures forall p :: p in AddTask(g, t).docs ==> AddTask(g, t).docs[p].Valid()
    ensures AddTask(g, t).docs.Keys == g.docs.Keys + {t.patientId}
    ensures forall p :: p in g.docs && p != t.patientId ==> AddTask(g, t).docs[p] == g.docs[p]
    ensures AddTask(g, t).docs[t.patientId].docs.Keys == g.Get(t.patientId).GetOr(Empty()).docs.Keys + {t.assignedTo}
    ensures forall d :: d in g.Get(t.patientId).GetOr(Empty()).docs && d != t.assignedTo ==>
              AddTask(g, t).docs[t.patientId].docs[d] == g.docs[t.patientId].docs[d]
    ensures AddTask(g, t).docs[t.patientId].docs[t.assignedTo]
              == g.Get(t.patientId).GetOr(Empty()).Get(t.assignedTo).GetOr([]) + [t]
  {
  }

  /** The grouping loop of `update_requests`. */
  function Group(ts: seq<Task>): (g: Grouped)
    ensures g.Valid()
    ensures forall p :: p in g.docs ==> g.docs[p].Valid()
  {
    if ts == [] then Empty()
    else
      var g0 := Group(ts[..|ts| - 1]);
      AddTaskEffect(g0, ts[|ts| - 1]);
      AddTask(g0, ts[|ts| - 1])
  }

  /** The grouping has one key per patient of the batch. */
  lemma {:induction false} GroupPatients(ts: seq<Task>)
    ensures forall p :: p in Group(ts).docs <==> InBatch(ts, p)
  {
    if ts != [] {
      var prefix, last := ts[..|ts| - 1], ts[|ts| - 1];
      assert ts == prefix + [last];
      GroupPatients(prefix);
      AddTaskEffect(Group(prefix), last);
      forall p ensures p in Group(ts).docs <==> InBatch(ts, p) {
        if InBatch(ts, p) && p != last.patientId {
          var t :| t in ts && t.patientId == p;
          assert t in prefix;
        }
      }
    }
  }

  /** Every task of the batch has a bucket under its patient and department. */
  lemma {:induction false} GroupCovers(ts: seq<Task>)
    ensures forall t :: t in ts ==> t.patientId in Group(ts).docs && t.assignedTo in Group(ts).docs[t.patientId].docs
  {
    if ts != [] {
      var prefix, last := ts[..|ts| - 1], ts[|ts| - 1];
      assert ts == prefix + [last];
      GroupCovers(prefix);
      AddTaskEffect(Group(prefix), last);
      forall t | t in ts ensures t.patientId in Group(ts).docs && t.assignedTo in Group(ts).docs[t.patientId].docs {
        if t != last { assert t in prefix; }
      }
    }
  }

  /** Each bucket holds its patient's tasks in that department, in batch order. */
  lemma {:induction false} GroupBuckets(ts: seq<Task>)
    ensures forall p, d :: p in Group(ts).docs && d in Group(ts).docs[p].docs ==> Group(ts).docs[p].docs[d] == TasksFor(ts, p, d)
  {
    if ts != [] {
      var prefix, last := ts[..|ts| - 1], ts[|ts| - 1];
      assert ts == prefix + [last];
      GroupBuckets(prefix);
      var g0 := Group(prefix);
      AddTaskEffect(g0, last);
      var g := Group(ts);
      forall p, d | p in g.docs && d in g.docs[p].docs ensures g.docs[p].docs[d] == TasksFor(ts, p, d) {
        if p == last.patientId && d == last.assignedTo {
          if !(p in g0.docs && d in g0.docs[p].docs) {
            assert TasksFor(prefix, p, d) == [] by {
              if TasksFor(prefix, p, d) != [] {
                var t := TasksFor(prefix, p, d)[0];
                assert t in prefix;
                GroupCovers(prefix);
              }
            }
          }
        }
      }
    }
  }

  /** The department's tasks include an Open one. */
  ghost predicate DeptHasOpen(depts: Table<Department, seq<Task>>, d: Department) {
    d in depts.docs && WithStatus(depts.docs[d], Open) != []
  }

  /**
   `process_department_tasks`: close the existing request when the department
   has no Open task, otherwise build a request and insert it or overwrite the
   existing one under the existing id. The flag says whether it did anything.
   */
  function ProcessDepartment(st: RequestStore, p: PatientId, d: Department, deptTasks: seq<Task>,
                             existing: Option<Request>, now: Time, build: Builder): (res: (RequestStore, bool))
    ensures !res.1 <==> WithStatus(deptTasks, Open) == [] && existing.None?
    ensures !res.1 ==> res.0 == st
  {
    var openTasks := WithStatus(deptTasks, Open);
    if openTasks == [] && existing.Some? then
      var closed := CreateClosedRequest(p, d, existing, st.nextId, now);
      (st.(requests := st.requests.Update(closed.id, closed)), true)
    else if openTasks != [] then
      var r := build(p, d, deptTasks, st.nextId, now);
      if existing.None? then
        (RequestStore(st.requests.Upsert(r.id, r), st.nextId + 1), true)
      else
        var id := existing.value.id;
        (RequestStore(st.requests.Update(id, r.(id := id)), st.nextId + 1), true)
    else
      (st, false)
  }

  /**
   The department loop of `update_requests` over the first `n` departments of
   `depts`: each handled department is popped from `existing`.
   */
  function ProcessDepartments(st: RequestStore, p: PatientId, depts: Table<Department, seq<Task>>,
                              existing: Table<Department, Request>, n: nat, now: Time,
                              build: Builder): (res: (RequestStore, Table<Department, Request>))
    requires depts.Valid() && n <= |depts.order|
    ensures st.requests.Valid() ==> res.0.requests.Valid()
    ensures existing.Valid() ==> res.1.Valid()
  {
    if n == 0 then (st, existing)
    else
      var (st1, ex1) := ProcessDepartments(st, p, depts, existing, n - 1, now, build);
      var d := depts.order[n - 1];
      var (st2, handled) := ProcessDepartment(st1, p, d, depts.docs[d], ex1.Get(d), now, build);
      (st2, if handled then ex1.Pop(d) else ex1)
  }

  /** The department loop over `k + 1` departments is the loop over `k` followed by one more department. */
  lemma ProcessDepartmentsNext(st: RequestStore, p: PatientId, depts: Table<Department, seq<Task>>,
                               existing: Table<Department, Request>, k: nat, now: Time, build: Builder)
    requires depts.Valid() && k < |depts.order|
    ensures var prev := ProcessDepartments(st, p, depts, existing, k, now, build);
            var d := depts.order[k];
            ProcessDepartments(st, p, depts, existing, k + 1, now, build).0
              == ProcessDepartment(prev.0, p, d, depts.docs[d], prev.1.Get(d), now, build).0
    ensures var prev := ProcessDepartments(st, p, depts, existing, k, now, build);
            var d := depts.order[k];
            ProcessDepartments(st, p, depts, existing, k + 1, now, build).1
              == if ProcessDepartment(prev.0, p, d, depts.docs[d], prev.1.Get(d), now, build).1
                 then prev.1.Pop(d) else prev.1
  {
  }

  /** `close_remaining_requests`, over the remaining requests in order. */
  function CloseRemaining(st: RequestStore, p: PatientId, rs: seq<Request>, now: Time): (r: RequestStore)
    ensures st.requests.Valid() ==> r.requests.Valid()
    ensures r.requests.docs.Keys == st.requests.docs.Keys && r.nextId == st.nextId
  {
    if rs == [] then st
    else
      var st1 := CloseRemaining(st, p, rs[..|rs| - 1], now);
      var req := rs[|rs| - 1];
      var closed := CreateClosedRequest(p, req.assignedTo, Some(req), st1.nextId, now);
      st1.(requests := st1.requests.Update(closed.id, closed))
  }

  /** The body of the patient loop of `update_requests`. */
  function ReconcilePatient(st: RequestStore, p: PatientId, depts: Table<Department, seq<Task>>,
                            now: Time, build: Builder): (r: RequestStore)
    requires st.requests.Valid() && depts.Valid()
    ensures r.requests.Valid()
  {
    var existing := IndexByDept(OpenRequestsOf(st.requests.Rows(), p));
    var (st1, remaining) := ProcessDepartments(st, p, depts, existing, |depts.order|, now, build);
    CloseRemaining(st1, p, remaining.Rows(), now)
  }

  /** The patient loop of `update_requests` over the patients `ps` of `g`, in that order. */
  function ReconcilePatients(st: RequestStore, g: Grouped, ps: seq<PatientId>, now: Time, build: Builder): (r: RequestStore)
    requires st.requests.Valid()
    requires forall p :: p in g.docs ==> g.docs[p].Valid()
    requires forall p :: p in ps ==> p in g.docs
    ensures r.requests.Valid()
  {
    if ps == [] then st
    else
      var st1 := ReconcilePatients(st, g, ps[..|ps| - 1], now, build);
      var p := ps[|ps| - 1];
      ReconcilePatient(st1, p, g.docs[p], now, build)
  }

  /** The loop over the first `j + 1` patients of `s` is the loop over the first `j` followed by the pass for `s[j]`. */
  lemma ReconcilePatientsPrefix(st: RequestStore, g: Grouped, s: seq<PatientId>, j: nat, now: Time, build: Builder)
    requires st.requests.Valid() && j < |s|
    requires forall p :: p in g.docs ==> g.docs[p].Valid()
    requires forall p :: p in s ==> p in g.docs
    ensures ReconcilePatients(st, g, s[..j + 1], now, build)
              == ReconcilePatient(ReconcilePatients(st, g, s[..j], now, build), s[j], g.docs[s[j]], now, build)
  {
    assert s[..j + 1][..j] == s[..j];
  }

  /** `update_requests(tasks)`. */
  function UpdateRequests(st: RequestStore, tasks: seq<Task>, now: Time, build: Builder): (r: RequestStore)
    requires st.requests.Valid()
    ensures r.requests.Valid()
  {
    if tasks == [] then st
    else
      var g := Group(tasks);
      ReconcilePatients(st, g, g.order, now, build)
  }
}
