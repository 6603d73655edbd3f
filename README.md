# Patient request reconciliation, modelled in Dafny

This project models the core of a clinic back end written in Python. The back end keeps two TinyDB
tables: patient **tasks** and per-patient, per-department **requests**. The model covers three parts:

- The task ingestor `TaskService`. It upserts a batch of tasks by id and lists the stored Open tasks.
- The request reconciler `DepartmentPatientRequestService.update_requests`. It does three things:
  - It groups a batch of tasks by patient, then by department.
  - For each patient and department it creates, rebuilds or closes the patient's Open request.
  - It closes the patient's Open requests in departments that no longer have work.
- The orchestration step `ClinicManager.process_tasks_update`. It ingests the batch, then hands the
  reconciler every stored Open task followed by the batch's Closed tasks.

How the model is laid out:

- `tables.dfy` models a TinyDB table or a Python dict as an insertion-ordered table. `Upsert`, `Update`,
  `Pop` and `Rows` model the operations the source uses on them.
- `records.dfy` holds the records. `database.dfy` holds the shared database as a class `Db` with one field
  per table, plus a counter that stands for `uuid4()`.
- `reconciler_spec.dfy` states every loop of the reconciler as a left fold over a prefix.
- `reconciler.dfy` is the service as a class. Its methods are proved equal to those folds.
- `department_loop.dfy`, `patient_pass.dfy` and `reconciler_proofs.dfy` prove what the folds guarantee:
  - for one department;
  - for one patient;
  - for the whole call.
- `task_service.dfy` models the task ingestor.
- `clinic_manager.dfy` models the orchestration step.

The code's branches are followed exactly. In particular:

- On the update path (a department with an Open task and an existing Open request), the new request keeps
  only the existing `id`. It does not keep `created_date` or `messages`. The code copies only the id
  (services/patient_department_request_service.py:66).
- The id drawn for the built request is consumed on both the insert path and the update path, because
  `to_patient_request` is called on both.

## Model

| member | source | states |
|---|---|---|
| Tables.Table.Get | services/patient_department_request_service.py:102 | `dict.get(k)` gives a value exactly when `k` is a key, and then the value stored under `k` |
| Tables.Table.Upsert | services/task_service.py:31 | TinyDB `upsert` and dict assignment keep the table well formed: every key once in the order, and the order lists exactly the stored keys |
| Tables.Table.Update | services/patient_department_request_service.py:57 | TinyDB `update` on an id never adds or removes a key |
| Tables.Table.Pop | services/patient_department_request_service.py:103 | `dict.pop(k, None)` removes exactly key `k` and keeps the table well formed |
| Tables.Table.Rows | services/patient_department_request_service.py:76 | `values()` lists the entries in the order of their keys |
| Tables.RowsHold | services/patient_department_request_service.py:22-23 | a value is among the rows exactly when some stored key holds it |
| Records.WithStatus | clinic_manager.py:24 | the status filter keeps exactly the tasks of that status, and never more than there were |
| Records.WithStatusAppend | clinic_manager.py:24 | the filter keeps input order: it distributes over concatenation |
| Database.Db.UpsertTask | services/task_service.py:31 | `db.tasks.upsert(task, id == task.id)` stores the task under its id and keeps the tasks keyed |
| Database.Db.NewRequestId | services/patient_department_request_service.py:34 | `uuid4()` yields an id no stored request carries |
| Database.Db.InsertRequest | services/patient_department_request_service.py:64 | inserting a request under an unused id keeps every request under its own id |
| Database.Db.UpdateRequest | services/patient_department_request_service.py:67 | `update(doc, id == doc.id)` rewrites only that id, and only if it is stored |
| ReconcilerSpec.CreateClosedRequest | services/patient_department_request_service.py:29-44 | the result is a Closed request of the given patient and department, stamped now, and it keeps an existing request's id |
| ReconcilerSpec.ClosedRequestKeeps | services/patient_department_request_service.py:29-44 | a closed request is Closed, stamped now, with no medications, task ids or pharmacy. With an existing request it keeps that request's id, creation date and messages, and draws no id. Without one it uses the fresh id. Closing it again changes only its update time |
| ReconcilerSpec.OpenRequestsOf | services/patient_department_request_service.py:20-23 | the search returns no more requests than there are rows; `OpenRequestsOfMembers` states which ones |
| ReconcilerSpec.OpenRequestsOfMembers | services/patient_department_request_service.py:20-23 | the search returns exactly the rows that are Open requests of the patient |
| ReconcilerSpec.IndexByDept | services/patient_department_request_service.py:96 | the comprehension yields a well-formed dict with no more keys than requests |
| ReconcilerSpec.IndexByDeptEntries | services/patient_department_request_service.py:96 | the dict comprehension has a key for every request's department, and each key holds a request of that department |
| ReconcilerSpec.AddTask | services/patient_department_request_service.py:90 | one append adds exactly the task's patient to the grouping's keys and puts the task in that patient's bucket for its department |
| ReconcilerSpec.AddTaskEffect | services/patient_department_request_service.py:90 | appending a task touches only its own patient's and department's bucket, and extends that bucket by the task |
| ReconcilerSpec.Group | services/patient_department_request_service.py:86-90 | the grouping is a well-formed dict of well-formed dicts |
| ReconcilerSpec.GroupPatients | services/patient_department_request_service.py:86-90 | the grouping has a key exactly for each patient of the batch |
| ReconcilerSpec.GroupCovers | services/patient_department_request_service.py:89-90 | every task of the batch has a bucket under its patient and department |
| ReconcilerSpec.GroupBuckets | services/patient_department_request_service.py:86-90 | each bucket holds exactly its patient's tasks in that department, in batch order |
| ReconcilerSpec.ProcessDepartment | services/patient_department_request_service.py:46-70 | it returns false exactly when the department has no Open task and no existing request, and then it writes nothing |
| ReconcilerSpec.ProcessDepartments | services/patient_department_request_service.py:99-103 | the department loop keeps the request table and `existing_by_dept` well formed |
| ReconcilerSpec.CloseRemaining | services/patient_department_request_service.py:72-78 | closing the remaining requests adds no key and draws no id |
| ReconcilerSpec.ReconcilePatient | services/patient_department_request_service.py:93-106 | one pass of the patient loop keeps the request table well formed |
| ReconcilerSpec.ReconcilePatients | services/patient_department_request_service.py:93-106 | the patient loop over the patients processed so far keeps the request table well formed |
| ReconcilerSpec.UpdateRequests | services/patient_department_request_service.py:80-106 | `update_requests` keeps the request table well formed |
| DepartmentLoop.StepKeyed | services/patient_department_request_service.py:46-70 | one department keeps requests under their ids and removes no id |
| DepartmentLoop.StepFrame | services/patient_department_request_service.py:60-68 | one department writes only under the existing request's id. With Open tasks and no existing request it adds, under a fresh id, exactly the request the builder makes from that department's tasks, which is an Open request of that patient and department |
| DepartmentLoop.StepExisting | services/patient_department_request_service.py:54-67 | when the department has an Open task, the existing Open request is overwritten under its own id by the request the builder makes from the department's tasks. Otherwise it is closed |
| DepartmentLoop.Loop | services/patient_department_request_service.py:99-103 | after the department loop: indexed requests of untouched departments are unchanged. Each handled one is overwritten, under its own id, by the request the builder makes from its department's tasks when those include an Open task, and closed otherwise. Every added request is, under its own fresh id, the request the builder makes from its department's tasks. It is the one Open request added for a department with an Open task and no indexed request. Every department with an Open task has an Open request, and `existing_by_dept` holds exactly the departments not handled |
| DepartmentLoop.DoneAll | services/patient_department_request_service.py:99 | iterating over the whole dict visits exactly its keys |
| PatientPass.CloseRemainingEffect | services/patient_department_request_service.py:72-78 | each remaining request is replaced by its closed form, and nothing else changes |
| PatientPass.IndexOfStore | services/patient_department_request_service.py:95-96 | `existing_by_dept` indexes Open requests of the patient stored under their ids, and covers every department of them |
| PatientPass.RemainingRows | services/patient_department_request_service.py:100-106 | every request left for `close_remaining_requests` is the indexed Open request of the patient in a department absent from the batch, still unchanged in the store, so no request handled in the department loop is written twice |
| PatientPass.RemainingHolds | services/patient_department_request_service.py:100-106 | the indexed request of every department absent from the batch is left for `close_remaining_requests` |
| PatientPass.ReconcilePatientEffect | services/patient_department_request_service.py:93-106 | after one patient's pass: other patients' requests and non-Open requests are unchanged. With at most one Open request of the patient per department beforehand, each Open request of the patient is overwritten, under its own id, by the request the builder makes from its department's tasks when those include an Open task, and closed otherwise. Each added request is, under its own fresh id, the request the builder makes from its department's tasks. It is Open and needed, and every department with an Open task has an Open request |
| ReconcilerProofs.PassUniqueOpen | services/patient_department_request_service.py:63-67 | one patient's pass keeps at most one Open request per patient and department |
| ReconcilerProofs.Patients | services/patient_department_request_service.py:93-106 | the patient loop keeps the invariant that combines all of the above for the patients processed so far |
| ReconcilerProofs.GroupOpen | services/patient_department_request_service.py:86-90 | a grouped department has an Open task exactly when the batch has an Open task of that patient there |
| ReconcilerProofs.UpdateRequestsFrame | services/patient_department_request_service.py:80-106 | an empty batch changes nothing. Every request keeps its id, patient and department, and a Closed one stays Closed. Requests of patients outside the batch and non-Open requests are unchanged |
| ReconcilerProofs.UpdateRequestsAdded | services/patient_department_request_service.py:60-64 | every new request is, under its fresh id, the request the builder makes from the batch's tasks of its patient and department. It is Open, for a department where the batch has an Open task of that patient and the patient had no Open request |
| ReconcilerProofs.UpdateRequestsSettles | services/patient_department_request_service.py:99-106 | with unique Open requests, each Open request of a batch patient is overwritten, under its own id, by the request the builder makes from the batch's tasks of that patient and department when those include an Open task. Otherwise it is closed with its id, creation date and messages kept |
| ReconcilerProofs.UpdateRequestsUnique | services/patient_department_request_service.py:93-106 | at most one Open request per patient and department before gives the same after |
| ReconcilerProofs.UpdateRequestsOpenBuilt | services/patient_department_request_service.py:60-67 | with unique Open requests beforehand, every Open request of a batch patient afterwards is, under its own id, the request the builder makes from the batch's tasks of that patient and department |
| ReconcilerProofs.UpdateRequestsConverge | services/patient_department_request_service.py:80-106 | with unique Open requests, a batch patient ends with an Open request in a department exactly when the batch has an Open task of theirs there |
| ReconcilerProofs.UpdateRequestsStable | services/patient_department_request_service.py:80-106 | with unique Open requests beforehand, a second run with the same batch adds no request and changes no request's status, patient or department. It overwrites each Open request of a batch patient, under its own id, by the request the builder makes from the same tasks, and leaves every Closed request as it was |
| ReconcilerProofs.RerunKeys | services/patient_department_request_service.py:60-64 | on a store whose batch patients already have Open requests exactly where the batch has Open tasks, a run adds no request |
| ReconcilerProofs.RerunStatus | services/patient_department_request_service.py:99-106 | on such a store, with unique Open requests, a run changes no request's status |
| ReconcilerProofs.RerunContent | services/patient_department_request_service.py:60-67 | on such a store, with unique Open requests, a run overwrites each Open request of a batch patient, under its own id, by the request the builder makes from the batch's tasks of that patient and department |
| Reconciler.DepartmentPatientRequestService.GetOpenPatientRequests | services/patient_department_request_service.py:20-23 | returns exactly the stored Open requests of the patient |
| Reconciler.DepartmentPatientRequestService.CreateClosedRequest | services/patient_department_request_service.py:29-44 | returns `ReconcilerSpec.CreateClosedRequest` on the existing request, or on a freshly drawn id, and draws that id only without an existing request |
| Reconciler.DepartmentPatientRequestService.ProcessDepartmentTasks | services/patient_department_request_service.py:46-70 | the new request table, id counter and returned flag are those of `ProcessDepartment` |
| Reconciler.DepartmentPatientRequestService.CloseRemainingRequests | services/patient_department_request_service.py:72-78 | the loop leaves the store as `CloseRemaining` over the dict's values |
| Reconciler.DepartmentPatientRequestService.GroupTasks | services/patient_department_request_service.py:86-90 | the grouping loop returns exactly `Group` of the batch |
| Reconciler.DepartmentPatientRequestService.ProcessAllDepartments | services/patient_department_request_service.py:98-103 | the department loop leaves the store, and returns the index of Open requests still unhandled, as `ProcessDepartments` over every department of the patient |
| Reconciler.DepartmentPatientRequestService.ReconcilePatientRequests | services/patient_department_request_service.py:94-106 | one pass of the patient loop leaves the store as `ReconcilePatient` |
| Reconciler.DepartmentPatientRequestService.UpdateRequests | services/patient_department_request_service.py:80-106 | the grouping loop, the patient loop and the department loop leave the store as `ReconcilerSpec.UpdateRequests`, so every property above holds of the method |
| TaskIngest.Latest | services/task_service.py:30-31 | the last task of the batch with a given id exists exactly for the batch's ids |
| TaskIngest.UpsertAll | services/task_service.py:30-31 | ingesting keeps the tasks keyed by id |
| TaskIngest.UpsertAllLatest | services/task_service.py:30-31 | after ingestion, an id of the batch holds the task of its last occurrence, and any other id is as before |
| TaskIngest.UpsertAllKeys | services/task_service.py:31 | the stored ids after ingestion are the old ids together with the batch's ids |
| TaskIngest.UpsertAllEmpty | services/task_service.py:30 | an empty batch leaves the table unchanged |
| TaskIngest.UpsertAllKeepsOrder | services/task_service.py:30-31 | a batch of already stored ids keeps the table's order and keys |
| TaskIngest.UpsertAllIdempotent | services/task_service.py:30-31 | ingesting a batch twice gives the same table as ingesting it once |
| TaskIngest.OpenTasks | services/task_service.py:34 | the status query returns only Open tasks, and no more tasks than are stored |
| TaskIngest.OpenTasksExact | services/task_service.py:34 | the Open-task query returns exactly the stored tasks whose status is Open |
| TaskIngest.TaskService.UpdatesTasks | services/task_service.py:30-31 | the upsert loop leaves the tasks table as `UpsertAll` of the batch |
| TaskIngest.TaskService.GetOpenTasks | services/task_service.py:34 | returns exactly the stored tasks whose status is Open |
| Clinic.ReconcilerInput | clinic_manager.py:24-42 | the reconciler's input lists the stored Open tasks first and only Closed tasks after them |
| Clinic.AfterTasksUpdate | clinic_manager.py:14-42 | both tables stay well formed: the tasks are keyed by id and the request table is valid |
| Clinic.AfterTasksUpdateIngests | clinic_manager.py:18-22 | an empty batch changes neither table. Otherwise the batch is ingested first: the stored ids gain the batch's ids, each holding its last occurrence |
| Clinic.ReconcilerInputMembers | clinic_manager.py:24-42 | a task reaches the reconciler exactly when it is stored Open after ingestion, or is a Closed task of the batch |
| Clinic.LatestReachesReconciler | clinic_manager.py:22-42 | the last occurrence of every id of the batch reaches the reconciler, and so does its patient |
| Clinic.InputOpenIsStoredOpen | clinic_manager.py:39-42 | the reconciler's input has an Open task of a patient in a department exactly when the store does after ingestion |
| Clinic.AfterTasksUpdateConverges | clinic_manager.py:14-42 | with unique Open requests, each patient handed to the reconciler ends with an Open request in a department exactly when a stored task of theirs there is Open, and uniqueness is kept |
| Clinic.ClinicManager.constructor | clinic_manager.py:10-12 | the manager keeps the injected request service and makes a task service on the same database |
| Clinic.ClinicManager.ProcessTasksUpdate | clinic_manager.py:14-42 | the empty check, ingestion, the newly closed filter, the Open-task query and the reconciler call leave both tables as `AfterTasksUpdate` says |

## Left out

- TinyDB internals are not modelled: query objects, JSON storage and document ids. A table is an insertion-ordered map keyed by the records' `id`.
- Pydantic `model_dump` and validation are not modelled. Records are datatypes, and `Status` has only the two values the code compares against (`Open`, `Closed`).
- `uuid4()` is a counter in the database. A drawn id is one no stored request carries, so the model does not capture random ids or their string form.
- `datetime.now()` is one `now` parameter per call. The source reads the clock on every call, and the model uses one reading for the whole call.
- `to_patient_request` lives in a base class that is not part of this model. It is a function parameter: the model assumes only that the result carries the drawn id, the patient and the department, with status Open.
- `PerPatientRequestService`, the default request service of `ClinicManager`, is not part of this model. The manager takes the department reconciler as its request service.
- `get_task_by_id` is not modelled (services/patient_department_request_service.py:25-27). No modelled path calls it.
- Concurrency between runs, transactions and atomicity are not modelled. Neither are the performance remarks in the comments (clinic_manager.py:26-38, services/task_service.py:17-29).
- ReconcilerProofs.UpdateRequestsSettles: it is stated only when every patient and department has at most one Open request beforehand. With two such requests, the dict comprehension keeps only the later one, and the earlier one is left Open.
- PatientPass.ReconcilePatientEffect: settling the patient's Open requests is stated only when the patient has at most one Open request per department beforehand. With two, the dict comprehension keeps only the later one, and the earlier one is left Open.
- ReconcilerProofs.UpdateRequestsStable: it is stated only when every patient and department has at most one Open request before the first run. With two such requests, the first run leaves the earlier one Open, and the second run can then close it.
- ReconcilerProofs.UpdateRequestsConverge: it requires the same uniqueness, for the same reason.
- Clinic.AfterTasksUpdateConverges: it covers the patients handed to the reconciler. A patient can miss the reconciler: their only batch task is an Open task, a later task with the same id but another patient supersedes it, and they have no other stored Open task. Their Open requests are then left as they were.
