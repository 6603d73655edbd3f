/**
 The shared document store (`db.db_tinydb`): a `tasks` table and a
 `patient_requests` table, both keyed by their records' `id`, plus the source
 of fresh request ids that stands for `uuid4()`.
 */
module Database {
  import opened Tables
  import opened Records

  /** The request table together with the next id the oracle will hand out. */
  datatype RequestStore = RequestStore(requests: Table<ReqId, Request>, nextId: nat)

  /** Every task is stored under its own id. */
  ghost predicate TasksKeyed(t: Table<TaskId, Task>) {
    t.Valid() && forall k :: k in t.docs ==> t.docs[k].id == k
  }

  /** Every request is stored under its own id, and every id used so far is below `nextId`. */
  ghost predicate Keyed(st: RequestStore) {
    forall k :: k in st.requests.docs ==> st.requests.docs[k].id == k && k < st.nextId
  }

  /** A well-formed request table whose requests are keyed as above. */
  ghost predicate WellKeyed(st: RequestStore) {
    st.requests.Valid() && Keyed(st)
  }

  class Db {
    var tasks: Table<TaskId, Task>
    var requests: Table<ReqId, Request>
    var nextId: nat

    ghost predicate Valid()
      reads this
    {
      TasksKeyed(tasks) && WellKeyed(RequestState())
    }

    function RequestState(): RequestStore
      reads this
    {
      RequestStore(requests, nextId)
    }

    constructor ()
      ensures Valid()
      ensures tasks.docs == map[] && requests.docs == map[] && nextId == 0
    {
      tasks := Empty();
      requests := Empty();
      nextId := 0;
    }

    /** `db.tasks.upsert(t, where('id') == t.id)`. */
    method UpsertTask(t: Task)
      requires Valid()
      modifies this`tasks
      ensures Valid()
      ensures tasks == old(tasks).Upsert(t.id, t)
    {
      tasks := tasks.Upsert(t.id, t);
    }

    /** `uuid4()`: an id no stored request carries. */
    method NewRequestId() returns (id: ReqId)
      requires Valid()
      modifies this`nextId
      ensures Valid()
      ensures id == old(nextId) && nextId == id + 1
      ensures id !in requests.docs
    {
      id := nextId;
      nextId := nextId + 1;
    }

    /** `db.patient_requests.insert(r)`, for a request whose id is unused. */
    method InsertRequest(r: Request)
      requires Valid()
      requires r.id !in requests.docs && r.id < nextId
      modifies this`requests
      ensures Valid()
      ensures requests == old(requests).Upsert(r.id, r)
    {
      requests := requests.Upsert(r.id, r);
    }

    /** `db.patient_requests.update(r, where('id') == r.id)`. */
    method UpdateRequest(r: Request)
      requires Valid()
      modifies this`requests
      ensures Valid()
      ensures requests == old(requests).Update(r.id, r)
    {
      requests := requests.Update(r.id, r);
    }
  }
}
