/** The admin's application endpoints (src/controller/Application/application.controller.ts). */
module AdminApplications {
  import opened Wrappers
  import opened Http
  import opened Store
  import opened Ordering
  import opened Applications
  import opened Students
  import opened Jobs

  /** getAllApplications: every application, newest first. */
  function GetAllApplications(rows: seq<Row<Application>>): (r: seq<Row<Application>>)
    ensures NewestFirst(r)
    ensures multiset(r) == multiset(rows)
  {
    SortNewestFirst(rows)
  }

  /** getApplicationsByJob: 404 for an unknown job; otherwise exactly that job's
      applications, each once, newest first. */
  method GetApplicationsByJob(apps: Table<Application>, jobs: Table<JobListing>, jobId: Option<Id>)
    returns (r: Reply<seq<Row<Application>>>)
    ensures r == Err(400) <==> jobId.None?
    ensures jobId.Some? ==>
      (r == Err(404) <==> forall k :: 0 <= k < |jobs.rows| ==> jobs.rows[k].id != jobId.value)
    ensures r.Err? ==> r.code == 400 || r.code == 404
    ensures r.Ok? ==> r.code == 200 && jobId.Some? && NewestFirst(r.value)
    ensures r.Ok? && jobId.Some? ==>
      forall i :: 0 <= i < |r.value| ==> r.value[i] in apps.rows && r.value[i].val.jobId == jobId.value
    ensures r.Ok? && jobId.Some? ==>
      forall i :: 0 <= i < |apps.rows| && apps.rows[i].val.jobId == jobId.value ==> apps.rows[i] in r.value
    ensures r.Ok? && jobId.Some? ==> multiset(r.value) == multiset(Filter(apps.rows, ForJob(jobId.value)))
  {
    if jobId.None? {
      return Err(400);
    }
    var job := jobs.FindFirst(WithId(jobId.value));
    if job.None? {
      return Err(404);
    }
    var sorted := SortNewestFirst(Filter(apps.rows, ForJob(jobId.value)));
    SortedFilterMembers(apps.rows, ForJob(jobId.value));
    return Ok(200, sorted);
  }

  /** patchApplicationStatus: id and a non-empty status are required and the application
      must exist; the status is written without checking it against any list. */
  method PatchApplicationStatus(apps: Table<Application>, id: Option<Id>, status: Option<string>)
    returns (r: Reply<Row<Application>>)
    requires apps.Valid()
    modifies apps
    ensures apps.Valid()
    ensures r == Err(400) <==> id.None? || !Present(status)
    ensures id.Some? && Present(status) ==>
      (r == Err(404) <==> forall k :: 0 <= k < |old(apps.rows)| ==> old(apps.rows)[k].id != id.value)
    ensures r.Err? ==> (r.code == 400 || r.code == 404) && unchanged(apps)
    ensures r.Ok? ==> r.code == 200 && id.Some? && Present(status)
    ensures r.Ok? && id.Some? && status.Some? ==> (
      var k := FirstWhere(old(apps.rows), WithId(id.value)).value;
      && r.value == old(apps.rows)[k].(val := old(apps.rows)[k].val.(status := status.value))
      && apps.rows == old(apps.rows)[k := r.value])
    ensures OnePerPair(old(apps.rows)) ==> OnePerPair(apps.rows)
  {
    if id.None? {
      return Err(400);
    }
    if !Present(status) {
      return Err(400);
    }
    var k := apps.FindFirst(WithId(id.value));
    if k.None? {
      return Err(404);
    }
    ghost var before := apps.rows;
    apps.Replace(k.value, apps.rows[k.value].val.(status := status.value));
    if OnePerPair(before) {
      StatusWriteKeepsOnePerPair(before, k.value, status.value);
    }
    return Ok(200, apps.rows[k.value]);
  }

  /** createApplication: the three fields are required, then the student and the job
      must exist (checked in that order). No duplicate check is made, so a second
      application for the same pair is inserted too. */
  method CreateApplication(
    apps: Table<Application>, students: Table<Student>, jobs: Table<JobListing>,
    studentId: Option<Id>, jobId: Option<Id>, status: Option<string>, now: int)
    returns (r: Reply<Row<Application>>)
    requires apps.Valid()
    modifies apps
    ensures apps.Valid()
    ensures r == Err(400) <==> studentId.None? || jobId.None? || !Present(status)
    ensures studentId.Some? && jobId.Some? && Present(status) ==> (
      && (r == Err(404) <==>
            || (forall k :: 0 <= k < |students.rows| ==> students.rows[k].id != studentId.value)
            || (forall k :: 0 <= k < |jobs.rows| ==> jobs.rows[k].id != jobId.value))
      && (r.Err? ==> r == Err(404)))
    ensures r.Err? ==> unchanged(apps)
    ensures r.Ok? ==> r.code == 201 && studentId.Some? && jobId.Some? && status.Some?
    ensures r.Ok? && studentId.Some? && jobId.Some? && status.Some? ==>
      && r.value.val == Application(studentId.value, jobId.value, status.value)
      && apps.rows == old(apps.rows) + [r.value]
    ensures r.Ok? && studentId.Some? && jobId.Some? ==>
      (FirstWhere(old(apps.rows), ForPair(studentId.value, jobId.value)).Some? ==> !OnePerPair(apps.rows))
  {
    if studentId.None? || jobId.None? || !Present(status) {
      return Err(400);
    }
    var student := students.FindFirst(WithId(studentId.value));
    if student.None? {
      return Err(404);
    }
    var job := jobs.FindFirst(WithId(jobId.value));
    if job.None? {
      return Err(404);
    }
    ghost var before := apps.rows;
    var row := apps.Insert(now, Application(studentId.value, jobId.value, status.value));
    ghost var dup := FirstWhere(before, ForPair(studentId.value, jobId.value));
    if dup.Some? {
      assert apps.rows[dup.value] == before[dup.value];
      assert apps.rows[|before|] == row;
    }
    return Ok(201, row);
  }
}
