/**
 What the department loop of `update_requests` does to the request store for
 one patient: one call of `process_department_tasks`, then the loop over the
 patient's departments. Each property is proved by its own induction over the
 number of departments processed.
 */
module DepartmentLoop {
  import opened Options
  import opened Tables
  import opened Records
  import opened Database
  import opened ReconcilerSpec

  /** The stored requests of a store, by id. */
  ghost function Docs(st: RequestStore): map<ReqId, Request> {
    st.requests.docs
  }

  /** `r` closed by `create_closed_request(r.patient_id, r.assigned_to, r)`. */
  ghost function Closing(r: Request, now: Time): Request {
    CreateClosedRequest(r.patientId, r.assignedTo, Some(r), 0, now)
  }

  /**
   `r` is `to_patient_request(p, d, ts)`, built under some drawn id, with its
   id then replaced by `id`.
   */
  ghost predicate RebuiltAs(r: Request, id: ReqId, p: PatientId, d: Department, ts: seq<Task>,
                            now: Time, build: Builder) {
    exists i :: r == build(p, d, ts, i, now).(id := id)
  }

  /**
   How an Open request `before` of patient `p` ends up after reconciling the
   grouped tasks `depts` of `p`: when its department has an Open task, it is
   overwritten by the request built from that department's tasks, under its
   own id, and is Open; otherwise it is closed.
   */
  ghost predicate Settled(depts: Table<Department, seq<Task>>, p: PatientId, now: Time, build: Builder,
                          before: Request, after: Request) {
    if DeptHasOpen(depts, before.assignedTo)
    then OpenFor(after, p, before.assignedTo)
         && RebuiltAs(after, before.id, p, before.assignedTo, depts.docs[before.assignedTo], now, build)
    else after == Closing(before, now)
  }

  /** `e` indexes, by department, Open requests of patient `p` stored in `st` under their ids. */
  ghost predicate Indexes(st: RequestStore, p: PatientId, e: Table<Department, Request>) {
    forall d :: d in e.docs ==>
      e.docs[d].id in Docs(st) && Docs(st)[e.docs[d].id] == e.docs[d] && OpenFor(e.docs[d], p, d)
  }

  /** The first `n` keys of `order`, as a set. */
  ghost function Done<K>(order: seq<K>, n: nat): set<K>
    requires n <= |order|
  {
    if n == 0 then {} else Done(order, n - 1) + {order[n - 1]}
  }

  lemma {:induction false} DoneMembers<K>(order: seq<K>, n: nat)
    requires n <= |order|
    ensures forall x :: x in Done(order, n) <==> x in order[..n]
  {
    if n > 0 {
      DoneMembers(order, n - 1);
      assert order[..n] == order[..n - 1] + [order[n - 1]];
    }
  }

  /** In a table's order no key repeats, so the `n`-th key is not among the earlier ones. */
  lemma DoneFresh<K(!new), V>(t: Table<K, V>, n: nat)
    requires t.Valid() && 0 < n <= |t.order|
    ensures t.order[n - 1] !in Done(t.order, n - 1)
  {
    DoneMembers(t.order, n - 1);
    DistinctAt(t.order, n - 1);
  }

  /** Processing the whole order covers exactly the table's keys. */
  lemma DoneAll<K(!new), V>(t: Table<K, V>)
    requires t.Valid()
    ensures Done(t.order, |t.order|) == t.docs.Keys
  {
    DoneMembers(t.order, |t.order|);
    assert t.order[..|t.order|] == t.order;
  }

  // ---------------------------------------------------------------------------
  // One department

  /** `process_department_tasks` keeps every request under its own id, and ids only grow. */
  lemma StepKeyed(st: RequestStore, p: PatientId, d: Department, ts: seq<Task>,
                  existing: Option<Request>, now: Time, build: Builder)
    requires Keyed(st) && BuilderOk(build)
    ensures var st' := ProcessDepartment(st, p, d, ts, existing, now, build).0;
              Keyed(st') && Docs(st).Keys <= Docs(st').Keys && st.nextId <= st'.nextId
  {
  }

  /**
   `process_department_tasks` writes only under the existing request's id,
   except that with Open tasks and no existing request it adds one Open
   request of `p` in `d` under a fresh id.
   */
  lemma StepFrame(st: RequestStore, p: PatientId, d: Department, ts: seq<Task>,
                  existing: Option<Request>, now: Time, build: Builder)
    requires Keyed(st) && BuilderOk(build)
    ensures var st' := ProcessDepartment(st, p, d, ts, existing, now, build).0;
              Docs(st').Keys == Docs(st).Keys + (if existing.None? && WithStatus(ts, Open) != [] then {st.nextId} else {})
    ensures var st' := ProcessDepartment(st, p, d, ts, existing, now, build).0;
              forall k :: k in Docs(st) && !(existing.Some? && k == existing.value.id) ==> Docs(st')[k] == Docs(st)[k]
    ensures var st' := ProcessDepartment(st, p, d, ts, existing, now, build).0;
              existing.None? && WithStatus(ts, Open) != [] ==>
                && st.nextId !in Docs(st)
                && Docs(st')[st.nextId] == build(p, d, ts, st.nextId, now)
                && OpenFor(Docs(st')[st.nextId], p, d)
  {
  }

  /**
   The existing Open request of `p` in `d` is overwritten, under its own id,
   by the request built from the department's tasks when `d` has an Open
   task, and closed otherwise.
   */
  lemma StepExisting(st: RequestStore, p: PatientId, d: Department, ts: seq<Task>,
                     existing: Option<Request>, now: Time, build: Builder)
    requires BuilderOk(build)
    requires existing.Some? && existing.value.id in Docs(st) && OpenFor(existing.value, p, d)
    ensures var st' := ProcessDepartment(st, p, d, ts, existing, now, build).0;
              existing.value.id in Docs(st') &&
              if WithStatus(ts, Open) != []
              then Docs(st')[existing.value.id] == build(p, d, ts, st.nextId, now).(id := existing.value.id)
                   && OpenFor(Docs(st')[existing.value.id], p, d)
              else Docs(st')[existing.value.id] == Closing(existing.value, now)
  {
  }

  // ---------------------------------------------------------------------------
  // What holds once the departments in `ds` are processed, starting from `st0`
  // with the index `e`; `st` is the store reached and `rem` what is left of `e`.

  /** Requests stay under their own ids; stored ids stay and the id counter only grows. */
  ghost predicate Grown(st0: RequestStore, st: RequestStore) {
    Keyed(st) && Docs(st0).Keys <= Docs(st).Keys && st0.nextId <= st.nextId
  }

  /** `existing_by_dept` holds exactly the indexed departments outside `ds`, with their indexed requests. */
  ghost predicate Remaining(e: Table<Department, Request>, rem: Table<Department, Request>, ds: set<Department>) {
    && (forall x :: x in rem.docs <==> x in e.docs && x !in ds)
    && (forall x :: x in rem.docs ==> rem.docs[x] == e.docs[x])
  }

  /** Key `k` holds the indexed request of a department in `ds`. */
  ghost predicate Touched(st: RequestStore, e: Table<Department, Request>, ds: set<Department>, k: ReqId)
    requires k in Docs(st)
  {
    var d := Docs(st)[k].assignedTo;
    d in ds && d in e.docs && e.docs[d].id == k
  }

  /** Every stored request other than the indexed ones of departments in `ds` is as it was. */
  ghost predicate Untouched(st0: RequestStore, st: RequestStore, e: Table<Department, Request>, ds: set<Department>) {
    forall k :: k in Docs(st0) && !Touched(st0, e, ds, k) ==> k in Docs(st) && Docs(st)[k] == Docs(st0)[k]
  }

  /** The indexed request of each department in `ds` is rebuilt Open or closed, as `Settled` says. */
  ghost predicate TouchedSettled(st0: RequestStore, st: RequestStore, e: Table<Department, Request>, ds: set<Department>,
                                 depts: Table<Department, seq<Task>>, p: PatientId, now: Time, build: Builder) {
    forall k :: k in Docs(st0) && Touched(st0, e, ds, k) ==> k in Docs(st) && Settled(depts, p, now, build, Docs(st0)[k], Docs(st)[k])
  }

  /** `r`, stored under `k`, is the request the builder makes for `p` from the tasks of `r`'s department. */
  ghost predicate BuiltAt(r: Request, k: ReqId, p: PatientId, depts: Table<Department, seq<Task>>, now: Time,
                          build: Builder) {
    r.assignedTo in depts.docs && r == build(p, r.assignedTo, depts.docs[r.assignedTo], k, now)
  }

  /**
   Every added request is the request the builder makes for `p` from its
   department's tasks, under its own id, which is at or above the counter's
   starting value. It is Open, for a department of `ds` that has an Open task
   and no indexed request.
   */
  ghost predicate AddedOpen(st0: RequestStore, st: RequestStore, e: Table<Department, Request>, ds: set<Department>,
                            depts: Table<Department, seq<Task>>, p: PatientId, now: Time, build: Builder) {
    forall k :: k in Docs(st) && k !in Docs(st0) ==>
      && st0.nextId <= k
      && OpenFor(Docs(st)[k], p, Docs(st)[k].assignedTo)
      && Docs(st)[k].assignedTo in ds
      && Docs(st)[k].assignedTo !in e.docs
      && DeptHasOpen(depts, Docs(st)[k].assignedTo)
      && BuiltAt(Docs(st)[k], k, p, depts, now, build)
  }

  /** No two added requests share a department. */
  ghost predicate AddedDistinct(st0: RequestStore, st: RequestStore) {
    forall k1, k2 ::
      (k1 in Docs(st) && k1 !in Docs(st0) && k2 in Docs(st) && k2 !in Docs(st0) &&
       Docs(st)[k1].assignedTo == Docs(st)[k2].assignedTo) ==> k1 == k2
  }

  /** Each department of `ds` that has an Open task has an Open request of `p`. */
  ghost predicate Covered(st: RequestStore, ds: set<Department>, depts: Table<Department, seq<Task>>, p: PatientId) {
    forall d :: d in ds && DeptHasOpen(depts, d) ==> exists k :: k in Docs(st) && OpenFor(Docs(st)[k], p, d)
  }

  // ---------------------------------------------------------------------------
  // Each predicate survives one more department

  lemma GrownStep(st0: RequestStore, st1: RequestStore, p: PatientId, depts: Table<Department, seq<Task>>,
                  ex1: Table<Department, Request>, d: Department, now: Time, build: Builder)
    requires BuilderOk(build) && d in depts.docs && Grown(st0, st1)
    ensures Grown(st0, ProcessDepartment(st1, p, d, depts.docs[d], ex1.Get(d), now, build).0)
  {
    StepKeyed(st1, p, d, depts.docs[d], ex1.Get(d), now, build);
  }

  lemma RemainingStep(p: PatientId, depts: Table<Department, seq<Task>>, e: Table<Department, Request>,
                      st1: RequestStore, ex1: Table<Department, Request>, ds: set<Department>,
                      d: Department, now: Time, build: Builder)
    requires d in depts.docs && Remaining(e, ex1, ds)
    ensures var res := ProcessDepartment(st1, p, d, depts.docs[d], ex1.Get(d), now, build);
              Remaining(e, if res.1 then ex1.Pop(d) else ex1, ds + {d})
  {
  }

  lemma UntouchedStep(st0: RequestStore, st1: RequestStore, p: PatientId, depts: Table<Department, seq<Task>>,
                      e: Table<Department, Request>, ex1: Table<Department, Request>, ds: set<Department>,
                      d: Department, now: Time, build: Builder)
    requires BuilderOk(build) && d in depts.docs && Indexes(st0, p, e)
    requires Grown(st0, st1) && Remaining(e, ex1, ds) && Untouched(st0, st1, e, ds)
    ensures Untouched(st0, ProcessDepartment(st1, p, d, depts.docs[d], ex1.Get(d), now, build).0, e, ds + {d})
  {
    var existing := ex1.Get(d);
    StepFrame(st1, p, d, depts.docs[d], existing, now, build);
    var st := ProcessDepartment(st1, p, d, depts.docs[d], existing, now, build).0;
    forall k | k in Docs(st0) && !Touched(st0, e, ds + {d}, k)
      ensures k in Docs(st) && Docs(st)[k] == Docs(st0)[k]
    {
      assert !Touched(st0, e, ds, k);
      assert !(existing.Some? && k == existing.value.id) by {
        if existing.Some? {
          assert existing.value == e.docs[d];
        }
      }
    }
  }

  lemma TouchedStep(st0: RequestStore, st1: RequestStore, p: PatientId, depts: Table<Department, seq<Task>>,
                    e: Table<Department, Request>, ex1: Table<Department, Request>, ds: set<Department>,
                    d: Department, now: Time, build: Builder)
    requires BuilderOk(build) && d in depts.docs && d !in ds && Indexes(st0, p, e)
    requires Grown(st0, st1) && Remaining(e, ex1, ds) && Untouched(st0, st1, e, ds)
    requires TouchedSettled(st0, st1, e, ds, depts, p, now, build)
    ensures TouchedSettled(st0, ProcessDepartment(st1, p, d, depts.docs[d], ex1.Get(d), now, build).0,
                           e, ds + {d}, depts, p, now, build)
  {
    var existing := ex1.Get(d);
    StepFrame(st1, p, d, depts.docs[d], existing, now, build);
    if existing.Some? {
      StepExisting(st1, p, d, depts.docs[d], existing, now, build);
    }
    var st := ProcessDepartment(st1, p, d, depts.docs[d], existing, now, build).0;
    forall k | k in Docs(st0) && Touched(st0, e, ds + {d}, k)
      ensures k in Docs(st) && Settled(depts, p, now, build, Docs(st0)[k], Docs(st)[k])
    {
      if Docs(st0)[k].assignedTo == d {
        assert existing == Some(e.docs[d]);
        if DeptHasOpen(depts, d) {
          assert Docs(st)[k] == build(p, d, depts.docs[d], st1.nextId, now).(id := k);
        }
      } else {
        assert Touched(st0, e, ds, k);
        assert !(existing.Some? && k == existing.value.id) by {
          if existing.Some? {
            assert existing.value == e.docs[d];
          }
        }
      }
    }
  }

  lemma AddedStep(st0: RequestStore, st1: RequestStore, p: PatientId, depts: Table<Department, seq<Task>>,
                  e: Table<Department, Request>, ex1: Table<Department, Request>, ds: set<Department>,
                  d: Department, now: Time, build: Builder)
    requires BuilderOk(build) && d in depts.docs && d !in ds && Indexes(st0, p, e)
    requires Grown(st0, st1) && Remaining(e, ex1, ds) && AddedOpen(st0, st1, e, ds, depts, p, now, build)
    ensures AddedOpen(st0, ProcessDepartment(st1, p, d, depts.docs[d], ex1.Get(d), now, build).0,
                      e, ds + {d}, depts, p, now, build)
  {
    var existing := ex1.Get(d);
    StepFrame(st1, p, d, depts.docs[d], existing, now, build);
    var st := ProcessDepartment(st1, p, d, depts.docs[d], existing, now, build).0;
    forall k | k in Docs(st) && k !in Docs(st0)
      ensures && st0.nextId <= k
              && OpenFor(Docs(st)[k], p, Docs(st)[k].assignedTo)
              && Docs(st)[k].assignedTo in ds + {d}
              && Docs(st)[k].assignedTo !in e.docs
              && DeptHasOpen(depts, Docs(st)[k].assignedTo)
              && BuiltAt(Docs(st)[k], k, p, depts, now, build)
    {
      if k in Docs(st1) {
        assert !(existing.Some? && k == existing.value.id) by {
          if existing.Some? {
            assert existing.value == e.docs[d];
          }
        }
      }
    }
  }

  lemma AddedDistinctStep(st0: RequestStore, st1: RequestStore, p: PatientId, depts: Table<Department, seq<Task>>,
                          e: Table<Department, Request>, ex1: Table<Department, Request>, ds: set<Department>,
                          d: Department, now: Time, build: Builder)
    requires BuilderOk(build) && d in depts.docs && d !in ds && Indexes(st0, p, e)
    requires Grown(st0, st1) && Remaining(e, ex1, ds) && AddedOpen(st0, st1, e, ds, depts, p, now, build)
    requires AddedDistinct(st0, st1)
    ensures AddedDistinct(st0, ProcessDepartment(st1, p, d, depts.docs[d], ex1.Get(d), now, build).0)
  {
    var existing := ex1.Get(d);
    StepFrame(st1, p, d, depts.docs[d], existing, now, build);
    var st := ProcessDepartment(st1, p, d, depts.docs[d], existing, now, build).0;
    forall k | k in Docs(st) && k !in Docs(st0) && k in Docs(st1)
      ensures Docs(st)[k] == Docs(st1)[k] && Docs(st)[k].assignedTo != d
    {
      assert !(existing.Some? && k == existing.value.id) by {
        if existing.Some? {
          assert existing.value == e.docs[d];
        }
      }
    }
  }

  lemma CoveredStep(st0: RequestStore, st1: RequestStore, p: PatientId, depts: Table<Department, seq<Task>>,
                    e: Table<Department, Request>, ex1: Table<Department, Request>, ds: set<Department>,
                    d: Department, now: Time, build: Builder)
    requires BuilderOk(build) && d in depts.docs && d !in ds && Indexes(st0, p, e)
    requires Grown(st0, st1) && Remaining(e, ex1, ds) && Untouched(st0, st1, e, ds)
    requires Covered(st1, ds, depts, p)
    ensures Covered(ProcessDepartment(st1, p, d, depts.docs[d], ex1.Get(d), now, build).0, ds + {d}, depts, p)
  {
    var existing := ex1.Get(d);
    StepFrame(st1, p, d, depts.docs[d], existing, now, build);
    if existing.Some? {
      StepExisting(st1, p, d, depts.docs[d], existing, now, build);
    }
    var st := ProcessDepartment(st1, p, d, depts.docs[d], existing, now, build).0;
    forall d' | d' in ds + {d} && DeptHasOpen(depts, d')
      ensures exists k :: k in Docs(st) && OpenFor(Docs(st)[k], p, d')
    {
      if d' == d {
        if existing.Some? {
          assert OpenFor(Docs(st)[existing.value.id], p, d);
        } else {
          assert OpenFor(Docs(st)[st1.nextId], p, d);
        }
      } else {
        var k :| k in Docs(st1) && OpenFor(Docs(st1)[k], p, d');
        assert !(existing.Some? && k == existing.value.id) by {
          if existing.Some? {
            var x := existing.value;
            assert x == e.docs[d];
            assert !Touched(st0, e, ds, x.id);
          }
        }
        assert Docs(st)[k] == Docs(st1)[k];
      }
    }
  }

  // ---------------------------------------------------------------------------
  // The loop

  /** Everything the department loop keeps, once the departments in `ds` are processed. */
  ghost predicate LoopInv(st0: RequestStore, st: RequestStore, rem: Table<Department, Request>,
                          e: Table<Department, Request>, ds: set<Department>,
                          depts: Table<Department, seq<Task>>, p: PatientId, now: Time, build: Builder) {
    && Grown(st0, st)
    && Remaining(e, rem, ds)
    && Untouched(st0, st, e, ds)
    && TouchedSettled(st0, st, e, ds, depts, p, now, build)
    && AddedOpen(st0, st, e, ds, depts, p, now, build)
    && AddedDistinct(st0, st)
    && Covered(st, ds, depts, p)
  }

  /** One more department keeps `LoopInv`. */
  lemma LoopStep(st0: RequestStore, st1: RequestStore, p: PatientId, depts: Table<Department, seq<Task>>,
                 e: Table<Department, Request>, ex1: Table<Department, Request>, ds: set<Department>,
                 d: Department, now: Time, build: Builder)
    requires BuilderOk(build) && d in depts.docs && d !in ds && Indexes(st0, p, e)
    requires LoopInv(st0, st1, ex1, e, ds, depts, p, now, build)
    ensures var res := ProcessDepartment(st1, p, d, depts.docs[d], ex1.Get(d), now, build);
              LoopInv(st0, res.0, if res.1 then ex1.Pop(d) else ex1, e, ds + {d}, depts, p, now, build)
  {
    GrownStep(st0, st1, p, depts, ex1, d, now, build);
    RemainingStep(p, depts, e, st1, ex1, ds, d, now, build);
    UntouchedStep(st0, st1, p, depts, e, ex1, ds, d, now, build);
    TouchedStep(st0, st1, p, depts, e, ex1, ds, d, now, build);
    AddedStep(st0, st1, p, depts, e, ex1, ds, d, now, build);
    AddedDistinctStep(st0, st1, p, depts, e, ex1, ds, d, now, build);
    CoveredStep(st0, st1, p, depts, e, ex1, ds, d, now, build);
  }

  /** `LoopInv` after one more department is `LoopInv` after the first `n` departments. */
  lemma LoopAt(st0: RequestStore, p: PatientId, depts: Table<Department, seq<Task>>,
               e: Table<Department, Request>, n: nat, now: Time, build: Builder)
    requires depts.Valid() && 0 < n <= |depts.order|
    requires var prev := ProcessDepartments(st0, p, depts, e, n - 1, now, build);
             var d := depts.order[n - 1];
             var res := ProcessDepartment(prev.0, p, d, depts.docs[d], prev.1.Get(d), now, build);
               LoopInv(st0, res.0, if res.1 then prev.1.Pop(d) else prev.1, e, Done(depts.order, n - 1) + {d},
                       depts, p, now, build)
    ensures var res := ProcessDepartments(st0, p, depts, e, n, now, build);
              LoopInv(st0, res.0, res.1, e, Done(depts.order, n), depts, p, now, build)
  {
    ProcessDepartmentsNext(st0, p, depts, e, n - 1, now, build);
  }

  /**
   After the first `n` departments of the loop, with `existing_by_dept` built
   from the stored Open requests of `p`, all of `LoopInv` holds.
   */
  lemma {:induction false} Loop(st0: RequestStore, p: PatientId, depts: Table<Department, seq<Task>>,
                                e: Table<Department, Request>, n: nat, now: Time, build: Builder)
    requires Keyed(st0) && BuilderOk(build) && depts.Valid() && n <= |depts.order|
    requires Indexes(st0, p, e)
    ensures var res := ProcessDepartments(st0, p, depts, e, n, now, build);
              LoopInv(st0, res.0, res.1, e, Done(depts.order, n), depts, p, now, build)
  {
    if n > 0 {
      Loop(st0, p, depts, e, n - 1, now, build);
      DoneFresh(depts, n);
      var prev := ProcessDepartments(st0, p, depts, e, n - 1, now, build);
      LoopStep(st0, prev.0, p, depts, e, prev.1, Done(depts.order, n - 1), depts.order[n - 1], now, build);
      LoopAt(st0, p, depts, e, n, now, build);
    }
  }
}
