/**
 What `update_requests` guarantees about the request store: the patient loop
 over the grouped batch, then the whole call stated in terms of the batch
 itself. Requests of patients outside the batch and requests that are not
 Open are never written; with at most one Open request per patient and
 department beforehand, afterwards a patient of the batch has an Open request
 in a department exactly when the batch has an Open task for them there, that
 uniqueness is kept, and a second run with the same batch changes no request's
 status and adds none.
 */
module ReconcilerProofs {
  import opened Tables
  import opened Records
  import opened Database
  import opened ReconcilerSpec
  import opened DepartmentLoop
  import opened PatientPass

  /** Some task of the batch is an Open task of patient `p` in department `d`. */
  ghost predicate HasOpenTask(ts: seq<Task>, p: PatientId, d: Department) {
    exists t :: t in ts && t.patientId == p && t.assignedTo == d && t.status == Open
  }

  /** A patient with an Open task in the batch is a patient of the batch. */
  lemma OpenTaskInBatch(ts: seq<Task>, p: PatientId, d: Department)
    ensures HasOpenTask(ts, p, d) ==> InBatch(ts, p)
  {
  }

  /** Some stored request is Open for patient `p` in department `d`. */
  ghost predicate HasOpenRequest(st: RequestStore, p: PatientId, d: Department) {
    exists k :: k in Docs(st) && OpenFor(Docs(st)[k], p, d)
  }

  // ---------------------------------------------------------------------------
  // One pass and uniqueness

  /** Uniqueness for all patients gives it for each. */
  lemma UniqueOpenForAll(st: RequestStore, p: PatientId)
    requires UniqueOpen(st)
    ensures UniqueOpenFor(st, p)
  {
  }

  /** A pass of the patient loop keeps at most one Open request per patient and department. */
  lemma PassUniqueOpen(st1: RequestStore, st: RequestStore, depts: Table<Department, seq<Task>>,
                       p: PatientId, now: Time, build: Builder)
    requires PassPost(st1, st, depts, p, now, build) && UniqueOpen(st1)
    ensures UniqueOpen(st)
  {
    forall k1, k2 | k1 in Docs(st) && k2 in Docs(st) && Docs(st)[k1].status == Open && Docs(st)[k2].status == Open &&
                    SameSlot(Docs(st)[k1], Docs(st)[k2])
      ensures k1 == k2
    {
      if k1 !in Docs(st1) && k2 in Docs(st1) {
        assert OpenFor(Docs(st1)[k2], p, Docs(st)[k1].assignedTo);
      } else if k1 in Docs(st1) && k2 !in Docs(st1) {
        assert OpenFor(Docs(st1)[k1], p, Docs(st)[k2].assignedTo);
      }
    }
  }

  // ---------------------------------------------------------------------------
  // The patient loop

  /** Requests of patients outside `ps`, and requests that are not Open, are as they were. */
  ghost predicate OutsideUnchanged(st0: RequestStore, st: RequestStore, ps: set<PatientId>) {
    forall k :: k in Docs(st0) && (Docs(st0)[k].patientId !in ps || Docs(st0)[k].status != Open) ==>
      k in Docs(st) && Docs(st)[k] == Docs(st0)[k]
  }

  /** Each Open request of a patient in `ps` is rebuilt Open or closed, as `Settled` says for that patient's tasks. */
  ghost predicate SettledAll(st0: RequestStore, st: RequestStore, g: Grouped, ps: set<PatientId>, now: Time,
                             build: Builder) {
    forall k :: k in Docs(st0) && Docs(st0)[k].status == Open && Docs(st0)[k].patientId in ps ==>
      && k in Docs(st)
      && Docs(st0)[k].patientId in g.docs
      && Settled(g.docs[Docs(st0)[k].patientId], Docs(st0)[k].patientId, now, build, Docs(st0)[k], Docs(st)[k])
  }

  /**
   Every added request is the request the builder makes for its patient from
   that patient's grouped tasks in its department, under its own fresh id. It
   is Open, for a patient of `ps` and a department where that patient has an
   Open task and had no Open request.
   */
  ghost predicate AddedAll(st0: RequestStore, st: RequestStore, g: Grouped, ps: set<PatientId>, now: Time,
                           build: Builder) {
    forall k :: k in Docs(st) && k !in Docs(st0) ==>
      && st0.nextId <= k
      && Docs(st)[k].status == Open
      && Docs(st)[k].patientId in ps
      && Docs(st)[k].patientId in g.docs
      && DeptHasOpen(g.docs[Docs(st)[k].patientId], Docs(st)[k].assignedTo)
      && NoOpenFor(st0, Docs(st)[k].patientId, Docs(st)[k].assignedTo)
      && BuiltAt(Docs(st)[k], k, Docs(st)[k].patientId, g.docs[Docs(st)[k].patientId], now, build)
  }

  /** Every patient of `ps` has an Open request in each department where it has an Open task. */
  ghost predicate CoveredAll(st: RequestStore, g: Grouped, ps: set<PatientId>) {
    forall p, d :: p in ps && p in g.docs && DeptHasOpen(g.docs[p], d) ==> HasOpenRequest(st, p, d)
  }

  /** Everything the patient loop keeps, once the patients in `ps` are processed. */
  ghost predicate PatientsInv(st0: RequestStore, st: RequestStore, g: Grouped, ps: set<PatientId>, now: Time,
                              build: Builder) {
    && Grown(st0, st)
    && SameOwners(st0, st)
    && OutsideUnchanged(st0, st, ps)
    && (UniqueOpen(st0) ==> UniqueOpen(st) && SettledAll(st0, st, g, ps, now, build))
    && AddedAll(st0, st, g, ps, now, build)
    && CoveredAll(st, g, ps)
  }

  lemma OutsideStep(st0: RequestStore, st1: RequestStore, st: RequestStore, g: Grouped,
                    ps: set<PatientId>, p: PatientId, now: Time, build: Builder)
    requires p in g.docs && OutsideUnchanged(st0, st1, ps) && SameOwners(st0, st1)
    requires PassPost(st1, st, g.docs[p], p, now, build)
    ensures OutsideUnchanged(st0, st, ps + {p})
  {
  }

  lemma SettledStep(st0: RequestStore, st1: RequestStore, st: RequestStore, g: Grouped,
                    ps: set<PatientId>, p: PatientId, now: Time, build: Builder)
    requires p in g.docs && p !in ps
    requires OutsideUnchanged(st0, st1, ps) && SameOwners(st0, st1) && SettledAll(st0, st1, g, ps, now, build)
    requires UniqueOpen(st1) && PassPost(st1, st, g.docs[p], p, now, build)
    ensures SettledAll(st0, st, g, ps + {p}, now, build)
  {
    UniqueOpenForAll(st1, p);
    forall k | k in Docs(st0) && Docs(st0)[k].status == Open && Docs(st0)[k].patientId in ps + {p}
      ensures && k in Docs(st)
              && Docs(st0)[k].patientId in g.docs
              && Settled(g.docs[Docs(st0)[k].patientId], Docs(st0)[k].patientId, now, build, Docs(st0)[k], Docs(st)[k])
    {
      if Docs(st0)[k].patientId == p {
        assert Docs(st1)[k] == Docs(st0)[k];
      } else {
        assert Docs(st1)[k].patientId != p;
      }
    }
  }

  lemma AddedStep(st0: RequestStore, st1: RequestStore, st: RequestStore, g: Grouped,
                  ps: set<PatientId>, p: PatientId, now: Time, build: Builder)
    requires p in g.docs && p !in ps
    requires Grown(st0, st1) && OutsideUnchanged(st0, st1, ps) && AddedAll(st0, st1, g, ps, now, build)
    requires PassPost(st1, st, g.docs[p], p, now, build)
    ensures AddedAll(st0, st, g, ps + {p}, now, build)
  {
    forall k | k in Docs(st) && k !in Docs(st0)
      ensures && st0.nextId <= k
              && Docs(st)[k].status == Open
              && Docs(st)[k].patientId in ps + {p}
              && Docs(st)[k].patientId in g.docs
              && DeptHasOpen(g.docs[Docs(st)[k].patientId], Docs(st)[k].assignedTo)
              && NoOpenFor(st0, Docs(st)[k].patientId, Docs(st)[k].assignedTo)
              && BuiltAt(Docs(st)[k], k, Docs(st)[k].patientId, g.docs[Docs(st)[k].patientId], now, build)
    {
      if k in Docs(st1) {
        assert Docs(st1)[k].patientId != p;
      } else {
        var d := Docs(st)[k].assignedTo;
        forall k' | k' in Docs(st0) ensures !OpenFor(Docs(st0)[k'], p, d) {
          if Docs(st0)[k'].patientId == p {
            assert Docs(st1)[k'] == Docs(st0)[k'];
          }
        }
      }
    }
  }

  lemma CoveredStep(st0: RequestStore, st1: RequestStore, st: RequestStore, g: Grouped,
                    ps: set<PatientId>, p: PatientId, now: Time, build: Builder)
    requires p in g.docs && p !in ps
    requires CoveredAll(st1, g, ps)
    requires PassPost(st1, st, g.docs[p], p, now, build)
    ensures CoveredAll(st, g, ps + {p})
  {
    forall p', d | p' in ps + {p} && p' in g.docs && DeptHasOpen(g.docs[p'], d)
      ensures HasOpenRequest(st, p', d)
    {
      if p' != p {
        var k :| k in Docs(st1) && OpenFor(Docs(st1)[k], p', d);
        assert Docs(st)[k] == Docs(st1)[k];
      } else {
        assert d in g.docs[p].docs.Keys;
      }
    }
  }

  /** One pass for a patient not processed yet keeps `PatientsInv`, with that patient added. */
  lemma PatientsStep(st0: RequestStore, st1: RequestStore, st: RequestStore, g: Grouped,
                     ps: set<PatientId>, p: PatientId, now: Time, build: Builder)
    requires p in g.docs && p !in ps
    requires PatientsInv(st0, st1, g, ps, now, build) && PassPost(st1, st, g.docs[p], p, now, build)
    ensures PatientsInv(st0, st, g, ps + {p}, now, build)
  {
    SameOwnersTrans(st0, st1, st);
    OutsideStep(st0, st1, st, g, ps, p, now, build);
    if UniqueOpen(st0) {
      PassUniqueOpen(st1, st, g.docs[p], p, now, build);
      SettledStep(st0, st1, st, g, ps, p, now, build);
    }
    AddedStep(st0, st1, st, g, ps, p, now, build);
    CoveredStep(st0, st1, st, g, ps, p, now, build);
  }

  /** The pass for one more patient keeps `PatientsInv`. */
  lemma PatientsNext(st0: RequestStore, st1: RequestStore, g: Grouped, ps: set<PatientId>, p: PatientId,
                     now: Time, build: Builder)
    requires st1.requests.Valid() && BuilderOk(build) && p in g.docs && p !in ps && g.docs[p].Valid()
    requires PatientsInv(st0, st1, g, ps, now, build)
    ensures PatientsInv(st0, ReconcilePatient(st1, p, g.docs[p], now, build), g, ps + {p}, now, build)
  {
    ReconcilePatientEffect(st1, p, g.docs[p], now, build);
    PatientsStep(st0, st1, ReconcilePatient(st1, p, g.docs[p], now, build), g, ps, p, now, build);
  }

  /**
   The store after the patients `ps` of the patient loop: `ReconcilePatients`
   behind a non-recursive wrapper, so that the proofs below control when the
   fold is unfolded.
   */
  ghost function Through(st0: RequestStore, g: Grouped, ps: seq<PatientId>, now: Time, build: Builder): (st: RequestStore)
    requires st0.requests.Valid()
    requires forall p :: p in g.docs ==> g.docs[p].Valid()
    requires forall p :: p in ps ==> p in g.docs
    ensures st.requests.Valid()
  {
    ReconcilePatients(st0, g, ps, now, build)
  }

  /** The patients `ps`, as a set. */
  ghost function Visited(ps: seq<PatientId>): set<PatientId> {
    set p | p in ps
  }

  /** Before the first patient nothing is changed and nobody is visited. */
  lemma ThroughStart(st0: RequestStore, g: Grouped, now: Time, build: Builder)
    requires st0.requests.Valid()
    requires forall p :: p in g.docs ==> g.docs[p].Valid()
    ensures Through(st0, g, [], now, build) == st0 && Visited([]) == {}
  {
  }

  /** The loop over `ps` is the loop over all of `ps` but its last patient, followed by one pass. */
  lemma ThroughNext(st0: RequestStore, g: Grouped, ps: seq<PatientId>, now: Time, build: Builder)
    requires st0.requests.Valid() && ps != []
    requires forall p :: p in g.docs ==> g.docs[p].Valid()
    requires forall p :: p in ps ==> p in g.docs
    ensures Through(st0, g, ps, now, build)
              == ReconcilePatient(Through(st0, g, ps[..|ps| - 1], now, build), ps[|ps| - 1], g.docs[ps[|ps| - 1]], now, build)
  {
  }

  /** With distinct patients, the last one has not been visited before. */
  lemma VisitedNext(ps: seq<PatientId>)
    requires Distinct(ps) && ps != []
    ensures Distinct(ps[..|ps| - 1])
    ensures Visited(ps) == Visited(ps[..|ps| - 1]) + {ps[|ps| - 1]}
    ensures ps[|ps| - 1] !in Visited(ps[..|ps| - 1])
  {
    DistinctFront(ps);
    assert ps == ps[..|ps| - 1] + [ps[|ps| - 1]];
  }

  /** One more pass of the patient loop keeps `PatientsInv`. */
  lemma PatientsNextThrough(st0: RequestStore, g: Grouped, ps: seq<PatientId>, now: Time, build: Builder)
    requires WellKeyed(st0) && BuilderOk(build) && Distinct(ps) && ps != []
    requires forall p :: p in g.docs ==> g.docs[p].Valid()
    requires forall p :: p in ps ==> p in g.docs
    requires PatientsInv(st0, Through(st0, g, ps[..|ps| - 1], now, build), g, Visited(ps[..|ps| - 1]), now, build)
    ensures PatientsInv(st0, Through(st0, g, ps, now, build), g, Visited(ps), now, build)
  {
    ThroughNext(st0, g, ps, now, build);
    VisitedNext(ps);
    PatientsNext(st0, Through(st0, g, ps[..|ps| - 1], now, build), g, Visited(ps[..|ps| - 1]), ps[|ps| - 1], now, build);
  }

  /** After the distinct patients `ps` of the patient loop, all of `PatientsInv` holds. */
  lemma {:induction false} Patients(st0: RequestStore, g: Grouped, ps: seq<PatientId>, now: Time, build: Builder)
    requires WellKeyed(st0) && BuilderOk(build) && Distinct(ps)
    requires forall p :: p in g.docs ==> g.docs[p].Valid()
    requires forall p :: p in ps ==> p in g.docs
    ensures PatientsInv(st0, Through(st0, g, ps, now, build), g, Visited(ps), now, build)
  {
    if ps == [] {
      ThroughStart(st0, g, now, build);
    } else {
      DistinctFront(ps);
      Patients(st0, g, ps[..|ps| - 1], now, build);
      PatientsNextThrough(st0, g, ps, now, build);
    }
  }

  // ---------------------------------------------------------------------------
  // The whole call, in terms of the batch

  /** For a patient of the batch, its grouped tasks have an Open task in `d` exactly when the batch does. */
  lemma GroupOpen(tasks: seq<Task>, p: PatientId, d: Department)
    requires p in Group(tasks).docs
    ensures DeptHasOpen(Group(tasks).docs[p], d) <==> HasOpenTask(tasks, p, d)
  {
    GroupBuckets(tasks);
    GroupCovers(tasks);
    if HasOpenTask(tasks, p, d) {
      var t :| t in tasks && t.patientId == p && t.assignedTo == d && t.status == Open;
      assert t in WithStatus(TasksFor(tasks, p, d), Open);
    }
    if DeptHasOpen(Group(tasks).docs[p], d) {
      var t := WithStatus(Group(tasks).docs[p].docs[d], Open)[0];
      assert t in WithStatus(TasksFor(tasks, p, d), Open);
    }
  }

  /** `update_requests` as the patient loop over the whole grouping, with its invariant; `st'` is its result. */
  lemma Whole(st: RequestStore, tasks: seq<Task>, now: Time, build: Builder) returns (st': RequestStore)
    requires WellKeyed(st) && BuilderOk(build) && tasks != []
    ensures st' == UpdateRequests(st, tasks, now, build)
    ensures PatientsInv(st, st', Group(tasks), Group(tasks).docs.Keys, now, build)
    ensures forall p :: p in Group(tasks).docs <==> InBatch(tasks, p)
  {
    var g := Group(tasks);
    Patients(st, g, g.order, now, build);
    assert Visited(g.order) == g.docs.Keys;
    st' := Through(st, g, g.order, now, build);
    GroupPatients(tasks);
  }

  /**
   The frame of `update_requests`: every stored request keeps its id, patient
   and department; a request that is Closed before is Closed after; and the
   requests of patients without a task in the batch, and the requests that
   are not Open, are left exactly as they were. An empty batch changes nothing.
   */
  lemma UpdateRequestsFrame(st: RequestStore, tasks: seq<Task>, now: Time, build: Builder)
    requires WellKeyed(st) && BuilderOk(build)
    ensures var st' := UpdateRequests(st, tasks, now, build);
              WellKeyed(st') && Docs(st).Keys <= Docs(st').Keys && st.nextId <= st'.nextId
    ensures var st' := UpdateRequests(st, tasks, now, build);
              forall k :: k in Docs(st) ==>
                && k in Docs(st')
                && Docs(st')[k].id == k
                && SameSlot(Docs(st')[k], Docs(st)[k])
                && (Docs(st)[k].status == Closed ==> Docs(st')[k].status == Closed)
    ensures var st' := UpdateRequests(st, tasks, now, build);
              forall k :: k in Docs(st) && (!InBatch(tasks, Docs(st)[k].patientId) || Docs(st)[k].status != Open) ==>
                k in Docs(st') && Docs(st')[k] == Docs(st)[k]
    ensures tasks == [] ==> UpdateRequests(st, tasks, now, build) == st
  {
    if tasks != [] {
      var st' := Whole(st, tasks, now, build);
      FrameOfInv(st, st', tasks);
    }
  }

  /** The frame conjuncts of `PatientsInv` over the patients of the batch, in the terms of `UpdateRequestsFrame`. */
  lemma FrameOfInv(st: RequestStore, st': RequestStore, tasks: seq<Task>)
    requires st'.requests.Valid() && Grown(st, st') && SameOwners(st, st')
    requires OutsideUnchanged(st, st', Group(tasks).docs.Keys)
    requires forall p :: p in Group(tasks).docs <==> InBatch(tasks, p)
    ensures WellKeyed(st') && Docs(st).Keys <= Docs(st').Keys && st.nextId <= st'.nextId
    ensures forall k :: k in Docs(st) ==>
              && k in Docs(st')
              && Docs(st')[k].id == k
              && SameSlot(Docs(st')[k], Docs(st)[k])
              && (Docs(st)[k].status == Closed ==> Docs(st')[k].status == Closed)
    ensures forall k :: k in Docs(st) && (!InBatch(tasks, Docs(st)[k].patientId) || Docs(st)[k].status != Open) ==>
              k in Docs(st') && Docs(st')[k] == Docs(st)[k]
  {
  }

  /**
   Each request created by `update_requests` is, under its own fresh id, the
   request the builder makes from the batch's tasks of its patient and
   department. It is Open, for a department where the batch has an Open task
   of that patient and where the patient had no Open request.
   */
  lemma UpdateRequestsAdded(st: RequestStore, tasks: seq<Task>, now: Time, build: Builder)
    requires WellKeyed(st) && BuilderOk(build)
    ensures var st' := UpdateRequests(st, tasks, now, build);
              forall k :: k in Docs(st') && k !in Docs(st) ==>
                && st.nextId <= k
                && Docs(st')[k].status == Open
                && HasOpenTask(tasks, Docs(st')[k].patientId, Docs(st')[k].assignedTo)
                && !HasOpenRequest(st, Docs(st')[k].patientId, Docs(st')[k].assignedTo)
                && Docs(st')[k] == build(Docs(st')[k].patientId, Docs(st')[k].assignedTo,
                                         TasksFor(tasks, Docs(st')[k].patientId, Docs(st')[k].assignedTo), k, now)
  {
    if tasks != [] {
      var st' := Whole(st, tasks, now, build);
      forall k | k in Docs(st') && k !in Docs(st)
        ensures && HasOpenTask(tasks, Docs(st')[k].patientId, Docs(st')[k].assignedTo)
                && Docs(st')[k] == build(Docs(st')[k].patientId, Docs(st')[k].assignedTo,
                                         TasksFor(tasks, Docs(st')[k].patientId, Docs(st')[k].assignedTo), k, now)
      {
        GroupOpen(tasks, Docs(st')[k].patientId, Docs(st')[k].assignedTo);
        GroupBuckets(tasks);
      }
    }
  }

  /**
   With at most one Open request per patient and department beforehand, each
   Open request of a patient of the batch is overwritten, under its own id,
   by the request built from the batch's tasks of that patient and department
   when those include an Open task, and closed
   (keeping its id, creation date and messages) otherwise.
   */
  lemma UpdateRequestsSettles(st: RequestStore, tasks: seq<Task>, now: Time, build: Builder)
    requires WellKeyed(st) && BuilderOk(build) && UniqueOpen(st)
    ensures var st' := UpdateRequests(st, tasks, now, build);
              forall k :: k in Docs(st) && Docs(st)[k].status == Open && InBatch(tasks, Docs(st)[k].patientId) ==>
                && k in Docs(st')
                && (HasOpenTask(tasks, Docs(st)[k].patientId, Docs(st)[k].assignedTo) ==>
                      && OpenFor(Docs(st')[k], Docs(st)[k].patientId, Docs(st)[k].assignedTo)
                      && RebuiltAs(Docs(st')[k], k, Docs(st)[k].patientId, Docs(st)[k].assignedTo,
                                   TasksFor(tasks, Docs(st)[k].patientId, Docs(st)[k].assignedTo), now, build))
                && (!HasOpenTask(tasks, Docs(st)[k].patientId, Docs(st)[k].assignedTo) ==>
                      Docs(st')[k] == Closing(Docs(st)[k], now))
  {
    if tasks != [] {
      var st' := Whole(st, tasks, now, build);
      forall k | k in Docs(st) && Docs(st)[k].status == Open && InBatch(tasks, Docs(st)[k].patientId)
        ensures && k in Docs(st')
                && (HasOpenTask(tasks, Docs(st)[k].patientId, Docs(st)[k].assignedTo) ==>
                      && OpenFor(Docs(st')[k], Docs(st)[k].patientId, Docs(st)[k].assignedTo)
                      && RebuiltAs(Docs(st')[k], k, Docs(st)[k].patientId, Docs(st)[k].assignedTo,
                                   TasksFor(tasks, Docs(st)[k].patientId, Docs(st)[k].assignedTo), now, build))
                && (!HasOpenTask(tasks, Docs(st)[k].patientId, Docs(st)[k].assignedTo) ==>
                      Docs(st')[k] == Closing(Docs(st)[k], now))
      {
        GroupOpen(tasks, Docs(st)[k].patientId, Docs(st)[k].assignedTo);
        GroupBuckets(tasks);
      }
    }
  }

  /**
   With at most one Open request per patient and department beforehand, every
   Open request of a batch patient afterwards is, under its own id, the
   request the builder makes from the batch's tasks of that patient and
   department, whether it was added or overwritten.
   */
  lemma UpdateRequestsOpenBuilt(st: RequestStore, tasks: seq<Task>, now: Time, build: Builder)
    requires WellKeyed(st) && BuilderOk(build) && UniqueOpen(st)
    ensures var st' := UpdateRequests(st, tasks, now, build);
              forall k :: k in Docs(st') && Docs(st')[k].status == Open && InBatch(tasks, Docs(st')[k].patientId) ==>
                RebuiltAs(Docs(st')[k], k, Docs(st')[k].patientId, Docs(st')[k].assignedTo,
                          TasksFor(tasks, Docs(st')[k].patientId, Docs(st')[k].assignedTo), now, build)
  {
    var st' := UpdateRequests(st, tasks, now, build);
    UpdateRequestsFrame(st, tasks, now, build);
    UpdateRequestsAdded(st, tasks, now, build);
    UpdateRequestsSettles(st, tasks, now, build);
    forall k | k in Docs(st') && Docs(st')[k].status == Open && InBatch(tasks, Docs(st')[k].patientId)
      ensures RebuiltAs(Docs(st')[k], k, Docs(st')[k].patientId, Docs(st')[k].assignedTo,
                        TasksFor(tasks, Docs(st')[k].patientId, Docs(st')[k].assignedTo), now, build)
    {
      var p, d := Docs(st')[k].patientId, Docs(st')[k].assignedTo;
      if k !in Docs(st) {
        assert Docs(st')[k] == build(p, d, TasksFor(tasks, p, d), k, now).(id := k);
      } else {
        assert Docs(st)[k].status == Open;
      }
    }
  }

  /** `update_requests` keeps at most one Open request per patient and department. */
  lemma UpdateRequestsUnique(st: RequestStore, tasks: seq<Task>, now: Time, build: Builder)
    requires WellKeyed(st) && BuilderOk(build) && UniqueOpen(st)
    ensures UniqueOpen(UpdateRequests(st, tasks, now, build))
  {
    if tasks != [] {
      var st' := Whole(st, tasks, now, build);
    }
  }

  /**
   Convergence: with at most one Open request per patient and department
   beforehand, afterwards a patient of the batch has an Open request in a
   department exactly when the batch has an Open task of that patient there.
   */
  lemma UpdateRequestsConverge(st: RequestStore, tasks: seq<Task>, now: Time, build: Builder)
    requires WellKeyed(st) && BuilderOk(build) && UniqueOpen(st)
    ensures var st' := UpdateRequests(st, tasks, now, build);
              forall p, d :: InBatch(tasks, p) ==> (HasOpenRequest(st', p, d) <==> HasOpenTask(tasks, p, d))
  {
    if tasks != [] {
      var st' := Whole(st, tasks, now, build);
      var g := Group(tasks);
      forall p, d | InBatch(tasks, p)
        ensures HasOpenRequest(st', p, d) <==> HasOpenTask(tasks, p, d)
      {
        GroupOpen(tasks, p, d);
        if HasOpenRequest(st', p, d) {
          var k :| k in Docs(st') && OpenFor(Docs(st')[k], p, d);
          if k in Docs(st) {
            assert Docs(st)[k].status == Open;
            assert Docs(st)[k].patientId == p && Docs(st)[k].assignedTo == d;
          }
        }
      }
    }
  }

  /** A store in which the batch's patients have Open requests exactly where the batch has Open tasks. */
  ghost predicate Converged(st: RequestStore, tasks: seq<Task>) {
    forall p, d :: InBatch(tasks, p) ==> (HasOpenRequest(st, p, d) <==> HasOpenTask(tasks, p, d))
  }

  /** On a converged store, `update_requests` adds no request. */
  lemma RerunKeys(st1: RequestStore, tasks: seq<Task>, now: Time, build: Builder)
    requires WellKeyed(st1) && BuilderOk(build) && Converged(st1, tasks)
    ensures Docs(UpdateRequests(st1, tasks, now, build)).Keys == Docs(st1).Keys
  {
    var st2 := UpdateRequests(st1, tasks, now, build);
    UpdateRequestsFrame(st1, tasks, now, build);
    UpdateRequestsAdded(st1, tasks, now, build);
    forall k | k in Docs(st2) ensures k in Docs(st1) {
      OpenTaskInBatch(tasks, Docs(st2)[k].patientId, Docs(st2)[k].assignedTo);
    }
  }

  /** On a converged store with unique Open requests, `update_requests` changes no request's status. */
  lemma RerunStatus(st1: RequestStore, tasks: seq<Task>, now: Time, build: Builder)
    requires WellKeyed(st1) && BuilderOk(build) && UniqueOpen(st1) && Converged(st1, tasks)
    ensures var st2 := UpdateRequests(st1, tasks, now, build);
              forall k :: k in Docs(st1) ==> k in Docs(st2) && Docs(st2)[k].status == Docs(st1)[k].status
  {
    var st2 := UpdateRequests(st1, tasks, now, build);
    UpdateRequestsFrame(st1, tasks, now, build);
    UpdateRequestsSettles(st1, tasks, now, build);
    forall k | k in Docs(st1) && Docs(st1)[k].status == Open && InBatch(tasks, Docs(st1)[k].patientId)
      ensures Docs(st2)[k].status == Open
    {
      var p, d := Docs(st1)[k].patientId, Docs(st1)[k].assignedTo;
      assert HasOpenRequest(st1, p, d);
    }
  }

  /**
   On a converged store with unique Open requests, a run overwrites each Open
   request of a batch patient, under its own id, by the request the builder
   makes from the batch's tasks of that patient and department.
   */
  lemma RerunContent(st1: RequestStore, tasks: seq<Task>, now: Time, build: Builder)
    requires WellKeyed(st1) && BuilderOk(build) && UniqueOpen(st1) && Converged(st1, tasks)
    ensures var st2 := UpdateRequests(st1, tasks, now, build);
              forall k :: k in Docs(st1) && Docs(st1)[k].status == Open && InBatch(tasks, Docs(st1)[k].patientId) ==>
                k in Docs(st2) &&
                RebuiltAs(Docs(st2)[k], k, Docs(st1)[k].patientId, Docs(st1)[k].assignedTo,
                          TasksFor(tasks, Docs(st1)[k].patientId, Docs(st1)[k].assignedTo), now, build)
  {
    UpdateRequestsSettles(st1, tasks, now, build);
    forall k | k in Docs(st1) && Docs(st1)[k].status == Open && InBatch(tasks, Docs(st1)[k].patientId)
      ensures HasOpenTask(tasks, Docs(st1)[k].patientId, Docs(st1)[k].assignedTo)
    {
      assert HasOpenRequest(st1, Docs(st1)[k].patientId, Docs(st1)[k].assignedTo);
    }
  }

  /**
   Running `update_requests` a second time with the same batch adds no request
   and changes no request's status: every Open request of a batch patient is
   overwritten, under its own id, by the request the builder makes from the
   batch's tasks of that patient and department, nothing is closed, and every
   Closed request is left as it was.
   */
  lemma UpdateRequestsStable(st: RequestStore, tasks: seq<Task>, now1: Time, now2: Time, build: Builder)
    requires WellKeyed(st) && BuilderOk(build) && UniqueOpen(st)
    ensures var st1 := UpdateRequests(st, tasks, now1, build);
            var st2 := UpdateRequests(st1, tasks, now2, build);
              && Docs(st2).Keys == Docs(st1).Keys
              && (forall k :: k in Docs(st1) ==> SameSlot(Docs(st2)[k], Docs(st1)[k]) && Docs(st2)[k].status == Docs(st1)[k].status)
              && (forall k :: k in Docs(st1) && Docs(st1)[k].status == Closed ==> Docs(st2)[k] == Docs(st1)[k])
              && (forall k :: k in Docs(st1) && Docs(st1)[k].status == Open && InBatch(tasks, Docs(st1)[k].patientId) ==>
                    RebuiltAs(Docs(st2)[k], k, Docs(st1)[k].patientId, Docs(st1)[k].assignedTo,
                              TasksFor(tasks, Docs(st1)[k].patientId, Docs(st1)[k].assignedTo), now2, build))
  {
    var st1 := UpdateRequests(st, tasks, now1, build);
    UpdateRequestsFrame(st, tasks, now1, build);
    UpdateRequestsUnique(st, tasks, now1, build);
    UpdateRequestsConverge(st, tasks, now1, build);
    UpdateRequestsFrame(st1, tasks, now2, build);
    RerunKeys(st1, tasks, now2, build);
    RerunStatus(st1, tasks, now2, build);
    RerunContent(st1, tasks, now2, build);
  }
}
