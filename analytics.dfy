/** Per-job analytics, keyed by jobId (src/controller/Analytics/analytics.controller.ts). */
module Analytics {
  import opened Wrappers
  import opened Http
  import opened Store
  import opened Jobs
  import opened Companies

  datatype Analytic = Analytic(
    jobId: Id,
    companyId: Id,
    totalApplicants: int,
    shortlisted: int,
    selected: int,
    rejected: int)

  /** The four counters of a create request. */
  datatype Counters = Counters(totalApplicants: int, shortlisted: int, selected: int, rejected: int)

  /** The counters an update request supplies; an absent one is left as it is. */
  datatype CounterPatch = CounterPatch(
    totalApplicants: Option<int>,
    shortlisted: Option<int>,
    selected: Option<int>,
    rejected: Option<int>)

  /** The response of getAllAnalytics. */
  datatype Listing = Listing(count: nat, data: seq<Row<Analytic>>)

  /** The table holds at most one analytic per job. */
  ghost predicate OnePerJob(rows: seq<Row<Analytic>>) {
    forall i, j :: 0 <= i < |rows| && 0 <= j < |rows| && i != j ==> rows[i].val.jobId != rows[j].val.jobId
  }

  /** `where: { jobId }`. */
  function OfJob(jobId: Id): Row<Analytic> -> bool {
    (row: Row<Analytic>) => row.val.jobId == jobId
  }

  function Patched(a: Analytic, p: CounterPatch): (r: Analytic)
    ensures r.jobId == a.jobId && r.companyId == a.companyId
    ensures p.totalApplicants.Some? ==> r.totalApplicants == p.totalApplicants.value
    ensures p.totalApplicants.None? ==> r.totalApplicants == a.totalApplicants
    ensures p.shortlisted.Some? ==> r.shortlisted == p.shortlisted.value
    ensures p.shortlisted.None? ==> r.shortlisted == a.shortlisted
    ensures p.selected.Some? ==> r.selected == p.selected.value
    ensures p.selected.None? ==> r.selected == a.selected
    ensures p.rejected.Some? ==> r.rejected == p.rejected.value
    ensures p.rejected.None? ==> r.rejected == a.rejected
  {
    a.(totalApplicants := p.totalApplicants.GetOr(a.totalApplicants),
       shortlisted := p.shortlisted.GetOr(a.shortlisted),
       selected := p.selected.GetOr(a.selected),
       rejected := p.rejected.GetOr(a.rejected))
  }

  /** Under OnePerJob, the analytic a jobId lookup finds is the only one for that job. */
  lemma OnlyAnalyticOfJob(rows: seq<Row<Analytic>>, jobId: Id)
    requires OnePerJob(rows) && FirstWhere(rows, OfJob(jobId)).Some?
    ensures var k := FirstWhere(rows, OfJob(jobId)).value;
      forall j :: 0 <= j < |rows| && rows[j].val.jobId == jobId ==> j == k
  {
    var k := FirstWhere(rows, OfJob(jobId)).value;
    assert rows[k].val.jobId == jobId;
  }

  /** Removing the only analytic of a job keeps one-per-job and leaves none for that job. */
  lemma RemoveOnlyAnalytic(rows: seq<Row<Analytic>>, k: nat, rest: seq<Row<Analytic>>)
    requires OnePerJob(rows) && k < |rows| && rest == rows[..k] + rows[k + 1..]
    ensures OnePerJob(rest)
    ensures forall i :: 0 <= i < |rest| ==> rest[i].val.jobId != rows[k].val.jobId
  {
    assert forall i :: 0 <= i < |rest| ==> rest[i] == rows[if i < k then i else i + 1];
  }

  /** createAnalytic: jobId and companyId are required, and a second analytic for a job
      is refused; connecting to a job or company that does not exist makes the store
      throw (500). */
  method CreateAnalytic(
    analytics: Table<Analytic>, jobs: Table<JobListing>, companies: Table<Company>,
    jobId: Option<Id>, companyId: Option<Id>, c: Counters, now: int)
    returns (r: Reply<Row<Analytic>>)
    requires analytics.Valid()
    modifies analytics
    ensures analytics.Valid()
    ensures r == Err(400) <==>
      jobId.None? || companyId.None? || FirstWhere(old(analytics.rows), OfJob(jobId.value)).Some?
    ensures jobId.Some? && companyId.Some? && FirstWhere(old(analytics.rows), OfJob(jobId.value)).None? ==>
      (r == Err(500) <==>
         || (forall k :: 0 <= k < |jobs.rows| ==> jobs.rows[k].id != jobId.value)
         || (forall k :: 0 <= k < |companies.rows| ==> companies.rows[k].id != companyId.value))
    ensures r.Err? ==> (r.code == 400 || r.code == 500) && unchanged(analytics)
    ensures r.Ok? ==> r.code == 201 && jobId.Some? && companyId.Some?
    ensures r.Ok? && jobId.Some? && companyId.Some? ==>
      && r.value.val == Analytic(jobId.value, companyId.value,
           c.totalApplicants, c.shortlisted, c.selected, c.rejected)
      && analytics.rows == old(analytics.rows) + [r.value]
    ensures OnePerJob(old(analytics.rows)) ==> OnePerJob(analytics.rows)
  {
    if jobId.None? || companyId.None? {
      return Err(400);
    }
    var existing := analytics.FindFirst(OfJob(jobId.value));
    if existing.Some? {
      return Err(400);
    }
    var job := jobs.FindFirst(WithId(jobId.value));
    var company := companies.FindFirst(WithId(companyId.value));
    if job.None? || company.None? {
      return Err(500);
    }
    ghost var before := analytics.rows;
    var row := analytics.Insert(now, Analytic(jobId.value, companyId.value,
      c.totalApplicants, c.shortlisted, c.selected, c.rejected));
    assert forall k :: 0 <= k < |before| ==> !OfJob(jobId.value)(before[k]);
    assert analytics.rows[|before|] == row;
    return Ok(201, row);
  }

  /** getAllAnalytics: every analytic, with a count equal to the number returned. */
  function GetAllAnalytics(rows: seq<Row<Analytic>>): (r: Listing)
    ensures r.count == |r.data|
    ensures r.data == rows
  {
    Listing(|rows|, rows)
  }

  /** getAnalyticByJob: 404 when no analytic has that jobId, otherwise the analytic for it. */
  method GetAnalyticByJob(analytics: Table<Analytic>, jobId: Option<Id>) returns (r: Reply<Row<Analytic>>)
    ensures r == Err(400) <==> jobId.None?
    ensures jobId.Some? ==>
      (r == Err(404) <==> forall k :: 0 <= k < |analytics.rows| ==> analytics.rows[k].val.jobId != jobId.value)
    ensures r.Err? ==> r.code == 400 || r.code == 404
    ensures r.Ok? ==> r.code == 200 && jobId.Some? && r.value in analytics.rows && r.value.val.jobId == jobId.value
    ensures r.Ok? && jobId.Some? && OnePerJob(analytics.rows) ==>
      forall k :: 0 <= k < |analytics.rows| && analytics.rows[k].val.jobId == jobId.value ==> analytics.rows[k] == r.value
  {
    if jobId.None? {
      return Err(400);
    }
    var k := analytics.FindFirst(OfJob(jobId.value));
    if k.None? {
      return Err(404);
    }
    if OnePerJob(analytics.rows) {
      OnlyAnalyticOfJob(analytics.rows, jobId.value);
    }
    return Ok(200, analytics.rows[k.value]);
  }

  /** updateAnalyticByJob: `findFirstOrThrow` on the jobId, then an update of that row;
      a missing analytic surfaces as 500. */
  method UpdateAnalyticByJob(analytics: Table<Analytic>, jobId: Option<Id>, patch: CounterPatch)
    returns (r: Reply<Row<Analytic>>)
    requires analytics.Valid()
    modifies analytics
    ensures analytics.Valid()
    ensures r == Err(400) <==> jobId.None?
    ensures jobId.Some? ==>
      (r == Err(500) <==> forall k :: 0 <= k < |old(analytics.rows)| ==> old(analytics.rows)[k].val.jobId != jobId.value)
    ensures r.Err? ==> (r.code == 400 || r.code == 500) && unchanged(analytics)
    ensures r.Ok? ==> r.code == 200 && jobId.Some?
    ensures r.Ok? && jobId.Some? ==> (
      var k := FirstWhere(old(analytics.rows), OfJob(jobId.value)).value;
      && r.value == old(analytics.rows)[k].(val := Patched(old(analytics.rows)[k].val, patch))
      && analytics.rows == old(analytics.rows)[k := r.value])
    ensures OnePerJob(old(analytics.rows)) ==> OnePerJob(analytics.rows)
  {
    if jobId.None? {
      return Err(400);
    }
    var k := analytics.FindFirst(OfJob(jobId.value));
    if k.None? {
      return Err(500);
    }
    ghost var before := analytics.rows;
    analytics.Replace(k.value, Patched(analytics.rows[k.value].val, patch));
    assert forall i :: 0 <= i < |before| ==> analytics.rows[i].val.jobId == before[i].val.jobId;
    return Ok(200, analytics.rows[k.value]);
  }

  /** deleteAnalyticByJob: `findFirstOrThrow` on the jobId, then a delete of that row;
      afterwards no analytic for the job remains. */
  method DeleteAnalyticByJob(analytics: Table<Analytic>, jobId: Option<Id>) returns (r: Reply<()>)
    requires analytics.Valid()
    modifies analytics
    ensures analytics.Valid()
    ensures r == Err(400) <==> jobId.None?
    ensures jobId.Some? ==>
      (r == Err(500) <==> forall k :: 0 <= k < |old(analytics.rows)| ==> old(analytics.rows)[k].val.jobId != jobId.value)
    ensures r.Err? ==> (r.code == 400 || r.code == 500) && unchanged(analytics)
    ensures r.Ok? ==> r.code == 200 && jobId.Some?
    ensures r.Ok? && jobId.Some? ==> (
      var k := FirstWhere(old(analytics.rows), OfJob(jobId.value)).value;
      analytics.rows == old(analytics.rows)[..k] + old(analytics.rows)[k + 1..])
    ensures r.Ok? && jobId.Some? && OnePerJob(old(analytics.rows)) ==>
      forall k :: 0 <= k < |analytics.rows| ==> analytics.rows[k].val.jobId != jobId.value
    ensures OnePerJob(old(analytics.rows)) ==> OnePerJob(analytics.rows)
  {
    if jobId.None? {
      return Err(400);
    }
    var k := analytics.FindFirst(OfJob(jobId.value));
    if k.None? {
      return Err(500);
    }
    ghost var before := analytics.rows;
    analytics.RemoveAt(k.value);
    if OnePerJob(before) {
      RemoveOnlyAnalytic(before, k.value, analytics.rows);
    }
    return Ok(200, ());
  }
}
