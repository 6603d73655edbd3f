/**
 One pass of the patient loop of `update_requests`: index the patient's stored
 Open requests by department, run the department loop, then close the
 requests of the departments the batch does not mention.
 */
module PatientPass {
  import opened Options
  import opened Tables
  import opened Records
  import opened Database
  import opened ReconcilerSpec
  import opened DepartmentLoop

  /** Requests `r1` and `r2` belong to the same patient and department. */
  ghost predicate SameSlot(r1: Request, r2: Request) {
    r1.patientId == r2.patientId && r1.assignedTo == r2.assignedTo
  }

  /** At most one Open request per patient and department. */
  ghost predicate UniqueOpen(st: RequestStore) {
    forall k1, k2 ::
      (k1 in Docs(st) && k2 in Docs(st) && Docs(st)[k1].status == Open && Docs(st)[k2].status == Open &&
       SameSlot(Docs(st)[k1], Docs(st)[k2])) ==> k1 == k2
  }

  /** At most one Open request per department for patient `p`. */
  ghost predicate UniqueOpenFor(st: RequestStore, p: PatientId) {
    forall k1, k2 ::
      (k1 in Docs(st) && k2 in Docs(st) && OpenFor(Docs(st)[k1], p, Docs(st)[k1].assignedTo) &&
       OpenFor(Docs(st)[k2], p, Docs(st)[k1].assignedTo)) ==> k1 == k2
  }

  /** No stored request is Open for patient `p` in department `d`. */
  ghost predicate NoOpenFor(st: RequestStore, p: PatientId, d: Department) {
    forall k :: k in Docs(st) ==> !OpenFor(Docs(st)[k], p, d)
  }

  /** The ids of a sequence of requests. */
  ghost function IdsOf(rs: seq<Request>): set<ReqId> {
    set r | r in rs :: r.id
  }

  // ---------------------------------------------------------------------------
  // Closing the remaining requests

  /** The stored requests whose ids are among those of `rs` are closed, and nothing else changes. */
  ghost predicate ClosedExactly(st1: RequestStore, st: RequestStore, rs: seq<Request>, now: Time) {
    && Keyed(st) && Docs(st).Keys == Docs(st1).Keys && st.nextId == st1.nextId
    && forall k :: k in Docs(st1) ==>
         Docs(st)[k] == if k in IdsOf(rs) then Closing(Docs(st1)[k], now) else Docs(st1)[k]
  }

  /** Closing one more stored request of `p` keeps `ClosedExactly` for the longer sequence. */
  lemma CloseStep(st: RequestStore, st1: RequestStore, p: PatientId, rs: seq<Request>, req: Request, now: Time)
    requires Keyed(st) && ClosedExactly(st, st1, rs, now)
    requires req.id in Docs(st) && Docs(st)[req.id] == req && req.patientId == p
    ensures var closed := CreateClosedRequest(p, req.assignedTo, Some(req), st1.nextId, now);
              ClosedExactly(st, st1.(requests := st1.requests.Update(closed.id, closed)), rs + [req], now)
  {
    IdsOfAppend(rs, req);
  }

  /** `close_remaining_requests` closes exactly the given stored requests of `p`, under their own ids. */
  lemma {:induction false} CloseRemainingEffect(st: RequestStore, p: PatientId, rs: seq<Request>, now: Time)
    requires Keyed(st)
    requires forall r :: r in rs ==> r.id in Docs(st) && Docs(st)[r.id] == r && r.patientId == p
    ensures ClosedExactly(st, CloseRemaining(st, p, rs, now), rs, now)
  {
    if rs == [] {
      assert IdsOf(rs) == {};
    } else {
      var prefix, last := rs[..|rs| - 1], rs[|rs| - 1];
      assert rs == prefix + [last];
      CloseRemainingEffect(st, p, prefix, now);
      CloseStep(st, CloseRemaining(st, p, prefix, now), p, prefix, last, now);
    }
  }

  lemma IdsOfAppend(rs: seq<Request>, req: Request)
    ensures IdsOf(rs + [req]) == IdsOf(rs) + {req.id}
  {
    forall k | k in IdsOf(rs + [req]) ensures k in IdsOf(rs) + {req.id} {
      var r :| r in rs + [req] && r.id == k;
      if r != req {
        assert r in rs;
      }
    }
    forall k | k in IdsOf(rs) ensures k in IdsOf(rs + [req]) {
      var r :| r in rs && r.id == k;
      assert r in rs + [req];
    }
    assert req in rs + [req];
  }

  // ---------------------------------------------------------------------------
  // The index of the patient's Open requests

  /** Every Open request of `p` stored in `st` has its department indexed in `e`. */
  ghost predicate IndexComplete(st: RequestStore, p: PatientId, e: Table<Department, Request>) {
    forall k :: k in Docs(st) && OpenFor(Docs(st)[k], p, Docs(st)[k].assignedTo) ==> Docs(st)[k].assignedTo in e.docs
  }

  /** `existing_by_dept`, built from the stored Open requests of `p`, is sound and complete. */
  lemma IndexOfStore(st: RequestStore, p: PatientId)
    requires WellKeyed(st)
    ensures var e := IndexByDept(OpenRequestsOf(st.requests.Rows(), p));
              e.Valid() && Indexes(st, p, e) && IndexComplete(st, p, e)
  {
    var e := IndexByDept(OpenRequestsOf(st.requests.Rows(), p));
    OpenRequestsOfMembers(st.requests.Rows(), p);
    IndexByDeptEntries(OpenRequestsOf(st.requests.Rows(), p));
    forall d | d in e.docs
      ensures e.docs[d].id in Docs(st) && Docs(st)[e.docs[d].id] == e.docs[d] && OpenFor(e.docs[d], p, d)
    {
      RowsHold(st.requests, e.docs[d]);
    }
    forall k | k in Docs(st) && OpenFor(Docs(st)[k], p, Docs(st)[k].assignedTo)
      ensures Docs(st)[k].assignedTo in e.docs
    {
      RowsHold(st.requests, Docs(st)[k]);
    }
  }

  // ---------------------------------------------------------------------------
  // What one pass guarantees

  /** Every stored request keeps its patient and department, and is Open afterwards only if it was before. */
  ghost predicate SameOwners(st0: RequestStore, st: RequestStore) {
    forall k :: k in Docs(st0) ==>
      && k in Docs(st)
      && SameSlot(Docs(st)[k], Docs(st0)[k])
      && (Docs(st)[k].status == Open ==> Docs(st0)[k].status == Open)
  }

  /** The requests that are not Open requests of `p` are left as they were. */
  ghost predicate OthersUnchanged(st0: RequestStore, st: RequestStore, p: PatientId) {
    forall k :: k in Docs(st0) && (Docs(st0)[k].patientId != p || Docs(st0)[k].status != Open) ==>
      k in Docs(st) && Docs(st)[k] == Docs(st0)[k]
  }

  /** Each Open request of `p` is rebuilt Open or closed, as `Settled` says. */
  ghost predicate OpenSettled(st0: RequestStore, st: RequestStore, depts: Table<Department, seq<Task>>,
                              p: PatientId, now: Time, build: Builder) {
    forall k :: k in Docs(st0) && OpenFor(Docs(st0)[k], p, Docs(st0)[k].assignedTo) ==>
      k in Docs(st) && Settled(depts, p, now, build, Docs(st0)[k], Docs(st)[k])
  }

  /**
   Every added request is the request the builder makes for `p` from its
   department's tasks, under its own fresh id. It is Open, for a department
   that has an Open task and had no Open request of `p`.
   */
  ghost predicate AddedForNeed(st0: RequestStore, st: RequestStore, depts: Table<Department, seq<Task>>, p: PatientId,
                               now: Time, build: Builder) {
    forall k :: k in Docs(st) && k !in Docs(st0) ==>
      && st0.nextId <= k
      && OpenFor(Docs(st)[k], p, Docs(st)[k].assignedTo)
      && DeptHasOpen(depts, Docs(st)[k].assignedTo)
      && NoOpenFor(st0, p, Docs(st)[k].assignedTo)
      && BuiltAt(Docs(st)[k], k, p, depts, now, build)
  }

  /** Everything one pass for patient `p` guarantees. */
  ghost predicate PassPost(st0: RequestStore, st: RequestStore, depts: Table<Department, seq<Task>>,
                           p: PatientId, now: Time, build: Builder) {
    && Grown(st0, st)
    && SameOwners(st0, st)
    && OthersUnchanged(st0, st, p)
    && (UniqueOpenFor(st0, p) ==> OpenSettled(st0, st, depts, p, now, build))
    && AddedForNeed(st0, st, depts, p, now, build)
    && AddedDistinct(st0, st)
    && Covered(st, depts.docs.Keys, depts, p)
  }

  /** The three stages of one pass, as plain states: index `e`, department loop to `st1` leaving `rem`, closing to `st`. */
  ghost predicate Stages(st0: RequestStore, e: Table<Department, Request>, st1: RequestStore,
                         rem: Table<Department, Request>, st: RequestStore,
                         depts: Table<Department, seq<Task>>, p: PatientId, now: Time, build: Builder) {
    && Keyed(st0) && depts.Valid() && rem.Valid()
    && Indexes(st0, p, e) && IndexComplete(st0, p, e)
    && LoopInv(st0, st1, rem, e, depts.docs.Keys, depts, p, now, build)
    && ClosedExactly(st1, st, rem.Rows(), now)
  }

  /** The requests left in `existing_by_dept` are stored, belong to `p`, and lie outside the batch's departments. */
  lemma RemainingRows(st0: RequestStore, e: Table<Department, Request>, st1: RequestStore,
                      rem: Table<Department, Request>, depts: Table<Department, seq<Task>>, p: PatientId, now: Time, build: Builder)
    requires Keyed(st0) && rem.Valid() && Indexes(st0, p, e)
    requires LoopInv(st0, st1, rem, e, depts.docs.Keys, depts, p, now, build)
    ensures forall r :: r in rem.Rows() ==>
              && r.assignedTo in e.docs && e.docs[r.assignedTo] == r
              && r.assignedTo !in depts.docs
              && r.id in Docs(st0) && Docs(st0)[r.id] == r
              && r.id in Docs(st1) && Docs(st1)[r.id] == r
              && r.patientId == p
  {
    forall r | r in rem.Rows()
      ensures && r.assignedTo in e.docs && e.docs[r.assignedTo] == r
              && r.assignedTo !in depts.docs
              && r.id in Docs(st0) && Docs(st0)[r.id] == r
              && r.id in Docs(st1) && Docs(st1)[r.id] == r
              && r.patientId == p
    {
      RowsHold(rem, r);
      var d :| d in rem.docs && rem.docs[d] == r;
      assert !Touched(st0, e, depts.docs.Keys, r.id);
    }
  }

  /** An indexed request of a department outside the batch is among the remaining ones. */
  lemma RemainingHolds(st0: RequestStore, e: Table<Department, Request>, st1: RequestStore,
                       rem: Table<Department, Request>, depts: Table<Department, seq<Task>>, p: PatientId,
                       now: Time, build: Builder, d: Department)
    requires rem.Valid() && LoopInv(st0, st1, rem, e, depts.docs.Keys, depts, p, now, build)
    requires d in e.docs && d !in depts.docs
    ensures e.docs[d] in rem.Rows() && e.docs[d].id in IdsOf(rem.Rows())
  {
    RowsHold(rem, e.docs[d]);
  }

  /** The ids of the remaining requests are ids of Open requests of `p` in departments outside the batch. */
  lemma RemainingIds(st0: RequestStore, e: Table<Department, Request>, st1: RequestStore,
                     rem: Table<Department, Request>, depts: Table<Department, seq<Task>>, p: PatientId, now: Time, build: Builder)
    requires Keyed(st0) && rem.Valid() && Indexes(st0, p, e)
    requires LoopInv(st0, st1, rem, e, depts.docs.Keys, depts, p, now, build)
    ensures forall k :: k in IdsOf(rem.Rows()) ==>
              && k in Docs(st0) && k in Docs(st1) && Docs(st1)[k] == Docs(st0)[k]
              && OpenFor(Docs(st0)[k], p, Docs(st0)[k].assignedTo)
              && Docs(st0)[k].assignedTo !in depts.docs
  {
    RemainingRows(st0, e, st1, rem, depts, p, now, build);
    forall k | k in IdsOf(rem.Rows())
      ensures && k in Docs(st0) && k in Docs(st1) && Docs(st1)[k] == Docs(st0)[k]
              && OpenFor(Docs(st0)[k], p, Docs(st0)[k].assignedTo)
              && Docs(st0)[k].assignedTo !in depts.docs
    {
      var r :| r in rem.Rows() && r.id == k;
    }
  }

  /** `SameOwners` composes. */
  lemma SameOwnersTrans(st0: RequestStore, st1: RequestStore, st: RequestStore)
    requires SameOwners(st0, st1) && SameOwners(st1, st)
    ensures SameOwners(st0, st)
  {
  }

  /** Closing requests keeps every request's patient and department and opens nothing. */
  lemma ClosedSameOwners(st1: RequestStore, st: RequestStore, rs: seq<Request>, now: Time)
    requires ClosedExactly(st1, st, rs, now)
    ensures SameOwners(st1, st)
  {
  }

  /** The department loop keeps every request's patient and department and opens no old request. */
  lemma LoopSameOwners(st0: RequestStore, e: Table<Department, Request>, st1: RequestStore,
                       rem: Table<Department, Request>, depts: Table<Department, seq<Task>>, p: PatientId, now: Time, build: Builder)
    requires Indexes(st0, p, e) && LoopInv(st0, st1, rem, e, depts.docs.Keys, depts, p, now, build)
    ensures SameOwners(st0, st1)
  {
    forall k | k in Docs(st0) && Touched(st0, e, depts.docs.Keys, k)
      ensures SameSlot(Docs(st1)[k], Docs(st0)[k]) && Docs(st0)[k].status == Open
    {
      var d := Docs(st0)[k].assignedTo;
      assert Docs(st0)[k] == e.docs[d];
    }
  }

  lemma PassSameOwners(st0: RequestStore, e: Table<Department, Request>, st1: RequestStore,
                       rem: Table<Department, Request>, st: RequestStore,
                       depts: Table<Department, seq<Task>>, p: PatientId, now: Time, build: Builder)
    requires Stages(st0, e, st1, rem, st, depts, p, now, build)
    ensures SameOwners(st0, st)
  {
    LoopSameOwners(st0, e, st1, rem, depts, p, now, build);
    ClosedSameOwners(st1, st, rem.Rows(), now);
    SameOwnersTrans(st0, st1, st);
  }

  lemma PassOthersUnchanged(st0: RequestStore, e: Table<Department, Request>, st1: RequestStore,
                            rem: Table<Department, Request>, st: RequestStore,
                            depts: Table<Department, seq<Task>>, p: PatientId, now: Time, build: Builder)
    requires Stages(st0, e, st1, rem, st, depts, p, now, build)
    ensures OthersUnchanged(st0, st, p)
  {
    RemainingIds(st0, e, st1, rem, depts, p, now, build);
    forall k | k in Docs(st0) && (Docs(st0)[k].patientId != p || Docs(st0)[k].status != Open)
      ensures k in Docs(st) && Docs(st)[k] == Docs(st0)[k]
    {
      assert !Touched(st0, e, depts.docs.Keys, k);
      assert k !in IdsOf(rem.Rows());
    }
  }

  lemma PassOpenSettled(st0: RequestStore, e: Table<Department, Request>, st1: RequestStore,
                        rem: Table<Department, Request>, st: RequestStore,
                        depts: Table<Department, seq<Task>>, p: PatientId, now: Time, build: Builder)
    requires Stages(st0, e, st1, rem, st, depts, p, now, build)
    requires UniqueOpenFor(st0, p)
    ensures OpenSettled(st0, st, depts, p, now, build)
  {
    RemainingIds(st0, e, st1, rem, depts, p, now, build);
    forall k | k in Docs(st0) && OpenFor(Docs(st0)[k], p, Docs(st0)[k].assignedTo)
      ensures k in Docs(st) && Settled(depts, p, now, build, Docs(st0)[k], Docs(st)[k])
    {
      var d := Docs(st0)[k].assignedTo;
      assert e.docs[d].id == k;
      if d in depts.docs {
        assert Touched(st0, e, depts.docs.Keys, k);
        assert k !in IdsOf(rem.Rows());
      } else {
        RemainingHolds(st0, e, st1, rem, depts, p, now, build, d);
      }
    }
  }

  lemma PassAdded(st0: RequestStore, e: Table<Department, Request>, st1: RequestStore,
                  rem: Table<Department, Request>, st: RequestStore,
                  depts: Table<Department, seq<Task>>, p: PatientId, now: Time, build: Builder)
    requires Stages(st0, e, st1, rem, st, depts, p, now, build)
    ensures AddedForNeed(st0, st, depts, p, now, build)
    ensures AddedDistinct(st0, st)
  {
    RemainingIds(st0, e, st1, rem, depts, p, now, build);
    forall k | k in Docs(st) && k !in Docs(st0)
      ensures Docs(st)[k] == Docs(st1)[k] && NoOpenFor(st0, p, Docs(st1)[k].assignedTo)
    {
      assert k !in IdsOf(rem.Rows());
    }
  }

  lemma PassCovered(st0: RequestStore, e: Table<Department, Request>, st1: RequestStore,
                    rem: Table<Department, Request>, st: RequestStore,
                    depts: Table<Department, seq<Task>>, p: PatientId, now: Time, build: Builder)
    requires Stages(st0, e, st1, rem, st, depts, p, now, build)
    ensures Covered(st, depts.docs.Keys, depts, p)
  {
    RemainingIds(st0, e, st1, rem, depts, p, now, build);
    forall d | d in depts.docs.Keys && DeptHasOpen(depts, d)
      ensures exists k :: k in Docs(st) && OpenFor(Docs(st)[k], p, d)
    {
      var k :| k in Docs(st1) && OpenFor(Docs(st1)[k], p, d);
      assert k !in IdsOf(rem.Rows());
      assert Docs(st)[k] == Docs(st1)[k];
    }
  }

  /** The stages of one pass give everything `PassPost` says. */
  lemma PassFromStages(st0: RequestStore, e: Table<Department, Request>, st1: RequestStore,
                       rem: Table<Department, Request>, st: RequestStore,
                       depts: Table<Department, seq<Task>>, p: PatientId, now: Time, build: Builder)
    requires Stages(st0, e, st1, rem, st, depts, p, now, build)
    ensures PassPost(st0, st, depts, p, now, build)
  {
    PassSameOwners(st0, e, st1, rem, st, depts, p, now, build);
    PassOthersUnchanged(st0, e, st1, rem, st, depts, p, now, build);
    if UniqueOpenFor(st0, p) {
      PassOpenSettled(st0, e, st1, rem, st, depts, p, now, build);
    }
    PassAdded(st0, e, st1, rem, st, depts, p, now, build);
    PassCovered(st0, e, st1, rem, st, depts, p, now, build);
  }

  /**
   One pass of the patient loop for patient `p` with the grouped tasks `depts`:
   requests of other patients and requests that are not Open stay as they
   were; with at most one Open request per department, each Open request of
   `p` is rebuilt Open under its id when its department has an Open task and
   closed otherwise; each added request is the one Open request of a
   department that has an Open task and had none; and every department with
   an Open task ends with an Open request.
   */
  lemma ReconcilePatientEffect(st0: RequestStore, p: PatientId, depts: Table<Department, seq<Task>>,
                               now: Time, build: Builder)
    requires WellKeyed(st0) && BuilderOk(build) && depts.Valid()
    ensures PassPost(st0, ReconcilePatient(st0, p, depts, now, build), depts, p, now, build)
  {
    IndexOfStore(st0, p);
    var e := IndexByDept(OpenRequestsOf(st0.requests.Rows(), p));
    var n := |depts.order|;
    Loop(st0, p, depts, e, n, now, build);
    DoneAll(depts);
    var res := ProcessDepartments(st0, p, depts, e, n, now, build);
    var st1, rem := res.0, res.1;
    RemainingRows(st0, e, st1, rem, depts, p, now, build);
    CloseRemainingEffect(st1, p, rem.Rows(), now);
    PassFromStages(st0, e, st1, rem, ReconcilePatient(st0, p, depts, now, build), depts, p, now, build);
  }
}
