/** Job listings and their eligibility criteria
    (src/controller/JobListing/job.controller.ts). */
module Jobs {
  import opened Wrappers
  import opened Http
  import opened Store
  import opened Ordering

  /** A JobEligibility row: empty lists are stored as given. */
  datatype Eligibility = Eligibility(branches: seq<string>, graduationYears: seq<int>, minCgpa: Option<real>)

  datatype JobListing = JobListing(
    companyId: Id,
    companyName: string,
    jobTitle: string,
    jobType: string,
    description: string,
    testLink: string,
    status: string,
    eligibilityId: Id)

  /** The `eligibility` object of a create request; absent members are `None`. */
  datatype EligibilityInput = EligibilityInput(
    branches: Option<seq<string>>,
    graduationYears: Option<seq<int>>,
    minCgpa: Option<real>)

  /** The scalar fields of a create request. */
  datatype JobInput = JobInput(
    companyId: Id,
    companyName: string,
    jobTitle: string,
    jobType: string,
    description: string,
    testLink: string,
    status: string)

  /** The fields an update request may write; an absent one is left as it is. */
  datatype JobPatch = JobPatch(
    companyName: Option<string>,
    jobTitle: Option<string>,
    jobType: Option<string>,
    description: Option<string>,
    status: Option<string>,
    testLink: Option<string>)

  /** The query of `/jobs/filter`: an absent or empty field is `None`. */
  datatype JobQuery = JobQuery(branch: Option<string>, cgpa: real, graduationYear: Option<int>)

  /** The defaults createJobListing applies: `branches || []`, `graduationYears || []`,
      `minCgpa || null` (so a minimum of 0 is stored as no minimum). */
  function Defaults(e: EligibilityInput): (r: Eligibility)
    ensures e.branches.None? ==> r.branches == []
    ensures e.branches.Some? ==> r.branches == e.branches.value
    ensures e.graduationYears.None? ==> r.graduationYears == []
    ensures e.graduationYears.Some? ==> r.graduationYears == e.graduationYears.value
    ensures r.minCgpa.None? <==> (e.minCgpa.None? || e.minCgpa.value == 0.0)
    ensures r.minCgpa.Some? ==> r.minCgpa == e.minCgpa
  {
    Eligibility(
      e.branches.GetOr([]),
      e.graduationYears.GetOr([]),
      if e.minCgpa.Some? && e.minCgpa.value != 0.0 then e.minCgpa else None)
  }

  /** updateJobListing's write: the six listed fields, each only when supplied. */
  function Patched(j: JobListing, p: JobPatch): (r: JobListing)
    ensures r.companyId == j.companyId && r.eligibilityId == j.eligibilityId
    ensures p.companyName.Some? ==> r.companyName == p.companyName.value
    ensures p.companyName.None? ==> r.companyName == j.companyName
    ensures p.jobTitle.Some? ==> r.jobTitle == p.jobTitle.value
    ensures p.jobTitle.None? ==> r.jobTitle == j.jobTitle
    ensures p.jobType.Some? ==> r.jobType == p.jobType.value
    ensures p.jobType.None? ==> r.jobType == j.jobType
    ensures p.description.Some? ==> r.description == p.description.value
    ensures p.description.None? ==> r.description == j.description
    ensures p.status.Some? ==> r.status == p.status.value
    ensures p.status.None? ==> r.status == j.status
    ensures p.testLink.Some? ==> r.testLink == p.testLink.value
    ensures p.testLink.None? ==> r.testLink == j.testLink
  {
    j.(companyName := p.companyName.GetOr(j.companyName),
       jobTitle := p.jobTitle.GetOr(j.jobTitle),
       jobType := p.jobType.GetOr(j.jobType),
       description := p.description.GetOr(j.description),
       status := p.status.GetOr(j.status),
       testLink := p.testLink.GetOr(j.testLink))
  }

  /** The `where` clause of filterJobs for one listing and its eligibility row. Only OPEN
      listings pass; a query without branch or year lists every OPEN listing whose
      minimum the CGPA reaches. */
  predicate MatchesQuery(j: JobListing, e: Eligibility, q: JobQuery)
    ensures MatchesQuery(j, e, q) ==> j.status == "OPEN"
    ensures !Present(q.branch) && q.graduationYear.None? ==>
      (MatchesQuery(j, e, q) <==> j.status == "OPEN" && (e.minCgpa.None? || e.minCgpa.value <= q.cgpa))
  {
    && (Present(q.branch) ==> q.branch.value in e.branches)
    && (q.graduationYear.Some? ==> q.graduationYear.value in e.graduationYears)
    && (e.minCgpa.None? || e.minCgpa.value <= q.cgpa)
    && j.status == "OPEN"
  }

  /** The eligibility row a listing refers to, if it exists. */
  function EligibilityOf(elig: seq<Row<Eligibility>>, id: Id): (r: Option<Eligibility>)
    ensures r.Some? <==> exists k :: 0 <= k < |elig| && elig[k].id == id
    ensures r.Some? ==> exists k :: 0 <= k < |elig| && elig[k].id == id && elig[k].val == r.value
  {
    match FirstWhere(elig, WithId(id))
    case Some(k) => Some(elig[k].val)
    case None =>
      assert forall k :: 0 <= k < |elig| ==> !WithId(id)(elig[k]);
      None
  }

  /** A listing passes the relation filter `eligibility: { AND: ... }` only when its
      eligibility row exists and satisfies it. */
  function ListedFor(elig: seq<Row<Eligibility>>, q: JobQuery): (r: Row<JobListing> -> bool)
    ensures forall row: Row<JobListing> :: r(row) ==> EligibilityOf(elig, row.val.eligibilityId).Some?
    ensures forall row: Row<JobListing> :: r(row) ==> row.val.status == "OPEN"
  {
    (row: Row<JobListing>) =>
      match EligibilityOf(elig, row.val.eligibilityId)
      case Some(e) => MatchesQuery(row.val, e, q)
      case None => false
  }

  /** filterJobs: an unknown branch is refused before any query; otherwise the result is
      exactly the stored listings whose eligibility matches, in storage order.
      `branchValues` stands for the values of the generated Branches enum. */
  function FilterJobs(
    jobs: seq<Row<JobListing>>, elig: seq<Row<Eligibility>>, q: JobQuery, branchValues: set<string>)
    : (r: Reply<seq<Row<JobListing>>>)
    ensures r.Err? <==> Present(q.branch) && q.branch.value !in branchValues
    ensures r.Err? ==> r.code == 400
    ensures r.Ok? ==> r.code == 200 && IsSubsequence(r.value, jobs)
    ensures r.Ok? ==> forall i :: 0 <= i < |r.value| ==> r.value[i] in jobs && ListedFor(elig, q)(r.value[i])
    ensures r.Ok? ==> forall i :: 0 <= i < |jobs| && ListedFor(elig, q)(jobs[i]) ==> jobs[i] in r.value
  {
    if Present(q.branch) && q.branch.value !in branchValues then Err(400)
    else Ok(200, Filter(jobs, ListedFor(elig, q)))
  }

  /** Every listing filterJobs returns is OPEN, lists the requested branch and year
      (when they are given) and has no minimum CGPA or one the query's CGPA reaches. */
  lemma FilteredJobsQualify(
    jobs: seq<Row<JobListing>>, elig: seq<Row<Eligibility>>, q: JobQuery, branchValues: set<string>, i: nat)
    requires FilterJobs(jobs, elig, q, branchValues).Ok?
    requires i < |FilterJobs(jobs, elig, q, branchValues).value|
    ensures var job := FilterJobs(jobs, elig, q, branchValues).value[i];
      && job in jobs
      && job.val.status == "OPEN"
      && exists k :: 0 <= k < |elig| && elig[k].id == job.val.eligibilityId
           && (Present(q.branch) ==> q.branch.value in elig[k].val.branches)
           && (q.graduationYear.Some? ==> q.graduationYear.value in elig[k].val.graduationYears)
           && (elig[k].val.minCgpa.None? || elig[k].val.minCgpa.value <= q.cgpa)
  {
    var job := FilterJobs(jobs, elig, q, branchValues).value[i];
    assert ListedFor(elig, q)(job);
    var e := EligibilityOf(elig, job.val.eligibilityId).value;
    var k :| 0 <= k < |elig| && elig[k].id == job.val.eligibilityId && elig[k].val == e;
  }

  /** A CGPA exactly at the minimum passes (`lte`): such a minimum filters out nothing,
      whatever the rest of the query. */
  lemma BoundaryCgpaPasses(j: JobListing, e: Eligibility, q: JobQuery)
    requires e.minCgpa == Some(q.cgpa)
    ensures MatchesQuery(j, e, q) <==> MatchesQuery(j, e.(minCgpa := None), q)
  {
  }

  /** A reading of eligibility in which an empty branch or year list means no
      restriction and a missing minimum means no CGPA bound. */
  predicate EligibleStudent(e: Eligibility, branch: string, year: int, cgpa: real) {
    && (e.branches == [] || branch in e.branches)
    && (e.graduationYears == [] || year in e.graduationYears)
    && (e.minCgpa.None? || e.minCgpa.value <= cgpa)
  }

  /** For a query carrying the whole student profile, the `where` clause agrees with
      `EligibleStudent` on OPEN jobs whose branch and year lists are non-empty ... */
  lemma QueryAgreesOnRestrictedJobs(j: JobListing, e: Eligibility, branch: string, year: int, cgpa: real)
    requires branch != "" && j.status == "OPEN"
    requires e.branches != [] && e.graduationYears != []
    ensures MatchesQuery(j, e, JobQuery(Some(branch), cgpa, Some(year))) <==> EligibleStudent(e, branch, year, cgpa)
  {
  }

  /** ... but a job created without a branch list (stored as []) is never returned to a
      query that names a branch, although `EligibleStudent` counts it open to all branches. */
  lemma NoBranchListHiddenFromBranchQuery(j: JobListing, e: EligibilityInput, q: JobQuery)
    requires e.branches.None? && Present(q.branch)
    ensures !MatchesQuery(j, Defaults(e), q)
  {
  }

  /** createJobListing: the eligibility row is created first, then the listing that
      points to it. A request without an `eligibility` object fails (500) before either. */
  method CreateJobListing(
    elig: Table<Eligibility>, jobs: Table<JobListing>,
    input: JobInput, eligibility: Option<EligibilityInput>, now: int)
    returns (r: Reply<Row<JobListing>>)
    requires elig.Valid() && jobs.Valid()
    modifies elig, jobs
    ensures elig.Valid() && jobs.Valid()
    ensures eligibility.None? ==> r == Err(500) && unchanged(elig) && unchanged(jobs)
    ensures eligibility.Some? ==> r.Ok? && r.code == 201
    ensures r.Ok? ==> elig.rows == old(elig.rows) + [Row(old(elig.nextId), now, Defaults(eligibility.value))]
    ensures r.Ok? ==> jobs.rows == old(jobs.rows) + [r.value]
    ensures r.Ok? ==> r.value.val == JobListing(input.companyId, input.companyName, input.jobTitle,
      input.jobType, input.description, input.testLink, input.status, old(elig.nextId))
  {
    if eligibility.None? {
      return Err(500);
    }
    var e := elig.Insert(now, Defaults(eligibility.value));
    var job := jobs.Insert(now, JobListing(input.companyId, input.companyName, input.jobTitle,
      input.jobType, input.description, input.testLink, input.status, e.id));
    return Ok(201, job);
  }

  /** getJobById. */
  method GetJobById(jobs: Table<JobListing>, id: Option<Id>) returns (r: Reply<Row<JobListing>>)
    ensures r == Err(400) <==> id.None?
    ensures id.Some? ==> (r == Err(404) <==> forall k :: 0 <= k < |jobs.rows| ==> jobs.rows[k].id != id.value)
    ensures r.Err? ==> r.code == 400 || r.code == 404
    ensures r.Ok? ==> r.code == 200 && r.value in jobs.rows && r.value.id == id.value
  {
    if id.None? {
      return Err(400);
    }
    var k := jobs.FindFirst(WithId(id.value));
    if k.None? {
      return Err(404);
    }
    return Ok(200, jobs.rows[k.value]);
  }

  /** updateJobListing: `updateMany` on the id, 404 when it matched nothing. */
  method UpdateJobListing(jobs: Table<JobListing>, id: Option<Id>, patch: JobPatch)
    returns (r: Reply<Row<JobListing>>)
    requires jobs.Valid()
    modifies jobs
    ensures jobs.Valid()
    ensures r == Err(400) <==> id.None?
    ensures id.Some? ==>
      (r == Err(404) <==> forall k :: 0 <= k < |old(jobs.rows)| ==> old(jobs.rows)[k].id != id.value)
    ensures r.Err? ==> (r.code == 400 || r.code == 404) && unchanged(jobs)
    ensures r.Ok? ==> r.code == 200 && id.Some?
    ensures r.Ok? && id.Some? ==> (
      var k := FirstWhere(old(jobs.rows), WithId(id.value)).value;
      && r.value == old(jobs.rows)[k].(val := Patched(old(jobs.rows)[k].val, patch))
      && jobs.rows == old(jobs.rows)[k := r.value])
  {
    if id.None? {
      return Err(400);
    }
    var k := jobs.FindFirst(WithId(id.value));
    if k.None? {
      return Err(404);
    }
    var row := jobs.rows[k.value];
    jobs.Replace(k.value, Patched(row.val, patch));
    return Ok(200, jobs.rows[k.value]);
  }

  /** deleteJobListing: `deleteMany` on the id, 404 when it matched nothing. Other tables
      are outside this operation's frame. */
  method DeleteJobListing(jobs: Table<JobListing>, id: Option<Id>) returns (r: Reply<nat>)
    requires jobs.Valid()
    modifies jobs
    ensures jobs.Valid()
    ensures r == Err(400) <==> id.None?
    ensures id.Some? ==>
      (r == Err(404) <==> forall k :: 0 <= k < |old(jobs.rows)| ==> old(jobs.rows)[k].id != id.value)
    ensures r.Err? ==> (r.code == 400 || r.code == 404) && unchanged(jobs)
    ensures r.Ok? ==> r == Ok(200, 1) && id.Some?
    ensures r.Ok? && id.Some? ==> (
      var k := FirstWhere(old(jobs.rows), WithId(id.value)).value;
      jobs.rows == old(jobs.rows)[..k] + old(jobs.rows)[k + 1..])
    ensures r.Ok? ==> forall k :: 0 <= k < |jobs.rows| ==> jobs.rows[k].id != id.value
  {
    if id.None? {
      return Err(400);
    }
    var k := jobs.FindFirst(WithId(id.value));
    if k.None? {
      return Err(404);
    }
    jobs.RemoveAt(k.value);
    return Ok(200, 1);
  }
}
