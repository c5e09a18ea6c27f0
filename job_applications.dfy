/** Applying to a job and the admin's status write
    (src/controller/JobListing/application.controller.ts). */
module JobApplications {
  import opened Wrappers
  import opened Http
  import opened Store
  import opened Ordering
  import opened Applications

  /** `findFirst({ where: { studentId, jobId } })`: an undefined field places no constraint.
      With both ids it is the pair test; with one of them it matches on the other alone;
      with neither it matches every application. */
  function AppliedWhere(studentId: Option<Id>, jobId: Option<Id>): (r: Row<Application> -> bool)
    ensures studentId.Some? && jobId.Some? ==>
      forall row: Row<Application> :: r(row) == ForPair(studentId.value, jobId.value)(row)
    ensures studentId.Some? && jobId.None? ==>
      forall row: Row<Application> :: r(row) == (row.val.studentId == studentId.value)
    ensures studentId.None? && jobId.Some? ==> forall row: Row<Application> :: r(row) == ForJob(jobId.value)(row)
    ensures studentId.None? && jobId.None? ==> forall row: Row<Application> :: r(row)
  {
    (row: Row<Application>) =>
      && (studentId.None? || row.val.studentId == studentId.value)
      && (jobId.None? || row.val.jobId == jobId.value)
  }

  /** applyForJob: refused (400) when a matching application exists; otherwise one
      application is inserted with status APPLIED. Without a studentId or jobId the
      insert itself fails (500). */
  method ApplyForJob(apps: Table<Application>, studentId: Option<Id>, jobId: Option<Id>, now: int)
    returns (r: Reply<Row<Application>>)
    requires apps.Valid()
    modifies apps
    ensures apps.Valid()
    ensures r == Err(400) <==> FirstWhere(old(apps.rows), AppliedWhere(studentId, jobId)).Some?
    ensures r == Err(500) <==>
      FirstWhere(old(apps.rows), AppliedWhere(studentId, jobId)).None? && (studentId.None? || jobId.None?)
    ensures r.Err? ==> (r.code == 400 || r.code == 500) && unchanged(apps)
    ensures r.Ok? ==> r.code == 201 && studentId.Some? && jobId.Some?
    ensures r.Ok? && studentId.Some? && jobId.Some? ==>
      && r.value.val == Application(studentId.value, jobId.value, "APPLIED")
      && apps.rows == old(apps.rows) + [r.value]
    ensures OnePerPair(old(apps.rows)) ==> OnePerPair(apps.rows)
  {
    var existing := apps.FindFirst(AppliedWhere(studentId, jobId));
    if existing.Some? {
      return Err(400);
    }
    if studentId.None? || jobId.None? {
      return Err(500);
    }
    ghost var before := apps.rows;
    var row := apps.Insert(now, Application(studentId.value, jobId.value, "APPLIED"));
    assert forall k :: 0 <= k < |before| ==> !AppliedWhere(studentId, jobId)(before[k]);
    assert apps.rows[|before|] == row;
    return Ok(201, row);
  }

  /** updateApplicationStatus: the id is required and the status must be one of the six
      values; the write itself imposes no order between statuses. An unknown id makes
      the store's `update` throw (500). */
  method UpdateApplicationStatus(apps: Table<Application>, id: Option<Id>, status: Option<string>)
    returns (r: Reply<Row<Application>>)
    requires apps.Valid()
    modifies apps
    ensures apps.Valid()
    ensures r == Err(400) <==> id.None? || !(status.Some? && status.value in Statuses)
    ensures id.Some? && status.Some? && status.value in Statuses ==>
      (r == Err(500) <==> forall k :: 0 <= k < |old(apps.rows)| ==> old(apps.rows)[k].id != id.value)
    ensures r.Err? ==> (r.code == 400 || r.code == 500) && unchanged(apps)
    ensures r.Ok? ==> r.code == 200 && id.Some? && status.Some? && status.value in Statuses
    ensures r.Ok? && id.Some? && status.Some? ==> (
      var k := FirstWhere(old(apps.rows), WithId(id.value)).value;
      && r.value == old(apps.rows)[k].(val := old(apps.rows)[k].val.(status := status.value))
      && apps.rows == old(apps.rows)[k := r.value])
    ensures OnePerPair(old(apps.rows)) ==> OnePerPair(apps.rows)
  {
    if id.None? {
      return Err(400);
    }
    if !(status.Some? && status.value in Statuses) {
      return Err(400);
    }
    var k := apps.FindFirst(WithId(id.value));
    if k.None? {
      return Err(500);
    }
    ghost var before := apps.rows;
    var row := apps.rows[k.value];
    apps.Replace(k.value, row.val.(status := status.value));
    if OnePerPair(before) {
      StatusWriteKeepsOnePerPair(before, k.value, status.value);
    }
    return Ok(200, apps.rows[k.value]);
  }

  /** getApplicationsByJob: exactly the applications for that job, in storage order. */
  function GetApplicationsByJob(rows: seq<Row<Application>>, jobId: Option<Id>)
    : (r: Reply<seq<Row<Application>>>)
    ensures r.Err? <==> jobId.None?
    ensures r.Err? ==> r.code == 400
    ensures r.Ok? ==> r.code == 200 && IsSubsequence(r.value, rows)
    ensures r.Ok? ==> forall i :: 0 <= i < |r.value| ==> r.value[i] in rows && r.value[i].val.jobId == jobId.value
    ensures r.Ok? ==> forall i :: 0 <= i < |rows| && rows[i].val.jobId == jobId.value ==> rows[i] in r.value
  {
    if jobId.None? then Err(400)
    else
      var r := Filter(rows, ForJob(jobId.value));
      assert forall i :: 0 <= i < |rows| && rows[i].val.jobId == jobId.value ==> ForJob(jobId.value)(rows[i]);
      Ok(200, r)
  }
}
