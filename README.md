# Training & Placement backend: a Dafny model of its decision and table logic

This project models the request handlers of a campus placement backend. Admins post
job listings, companies and announcements. Students read announcements, filter jobs
and apply. Per-job analytics are kept by hand. Each handler validates its input, runs a
few store queries and answers with an HTTP status. The model keeps:

- the handlers' branches and status codes;
- the predicates they filter with: the announcement audience test and the job
  eligibility `where` clause;
- the table updates they make;
- the login/signup schema checks.

The database is replaced by in-memory tables. Each table is a `Store.Table<R>` object
holding a sequence of rows in storage order, and each row carries the id and the
creation time the store assigns. The store's operations are modelled by their plain
meaning:

- `findFirst` / `findUnique` is a scan for the first matching row (`Table.FindFirst`,
  specified by `FirstWhere`);
- `findMany` with a `where` is an order-keeping filter (`Ordering.Filter`);
- `orderBy: { createdAt: 'desc' }` is a newest-first permutation
  (`Ordering.SortNewestFirst`);
- `create`, `update` and `delete` are `Table.Insert`, `Table.Replace` and
  `Table.RemoveAt`.

Handlers that change a table are methods whose contracts state the new rows in terms
of the old ones. The handlers' own checks (the duplicate checks in applyForJob and
createAnalytic, the existence checks before updates) keep invariants that are stated as
predicates, and these methods are proved to preserve them:

- at most one application per (student, job) pair, `Applications.OnePerPair`;
- at most one analytic per job, `Analytics.OnePerJob`;
- unique row ids, `Table.Valid`.

Inputs that come from outside are parameters:

- the principal the authentication layer attaches (`Announcements.User`);
- the clock (`now`);
- the values of the generated `Branches` enum (`branchValues`).

Request fields are `Option`s, and what `None` stands for depends on how the handler
reads the field:

- A field the handler tests with `!x` is refused when it is `undefined` or `""`. These
  are title, description and audience; a status; the query's branch; the ids in the
  path; and the body ids of createApplication (`studentId`, `jobId`) and createAnalytic
  (`jobId`, `companyId`). A string field is an `Option<string>` tested with
  `Http.Present`, which is false for `None` and for `Some("")`. An id is an
  `Option<Id>` whose `None` stands for both `undefined` and `""` by construction: ids
  are natural numbers, so no `Some` id is empty.
- A field the handler passes to the store untested (the fields of an update body,
  the ids in the applyForJob body) is `None` only when it is `undefined`. A supplied
  `""` is `Some("")` and is written as it is (`Jobs.Patched`, `Companies.Patched`).

Some behaviours of the code are easy to misread; the model states them as written:

- **Empty branch or year lists.** `filterJobs` uses `has`, so a job whose branch or
  year list is empty is never returned to a query that names a branch or a year. A
  reading in which an empty list means no restriction is `Jobs.EligibleStudent`.
  `Jobs.NoBranchListHiddenFromBranchQuery` shows that a job created without a branch
  list is hidden from every branch query, although `EligibleStudent` admits it.
  `Jobs.QueryAgreesOnRestrictedJobs` shows the two agree when both lists are non-empty.
- **Unknown id on a status write.** `updateApplicationStatus` checks no existence
  first. The store's `update` throws, and the handler answers 500, not 404.
- **Status values.** `updateApplicationStatus` accepts only the six values of its
  list. The admin route `patchApplicationStatus` writes any non-empty string.
- **Duplicate applications.** `applyForJob` refuses a second application for a pair.
  The admin route `createApplication` makes no such check, and its contract states that
  it can break `OnePerPair`.
- **Omitted ids in `applyForJob`.** The store ignores an `undefined` field in a
  `where`. So when `studentId` or `jobId` is omitted, the duplicate check matches on the
  other field alone (`JobApplications.AppliedWhere`). If nothing matches, the insert
  fails with 500.

## Model

| member | source | states |
|---|---|---|
| Store.FirstWhere | src/controller/JobListing/application.controller.ts:11-13 | the index of the first row satisfying the test and no earlier row satisfies it; None exactly when no row does |
| Store.Table.FindFirst | src/controller/Analytics/analytics.controller.ts:24-26 | the lookup scan returns exactly the first matching row's index, or None when no row matches |
| Store.Table.Insert | src/controller/Compony/compony.controller.ts:17 | a create appends one row under an id no existing row has, and keeps ids unique |
| Store.Table.Replace | src/controller/Compony/compony.controller.ts:82-85 | an update rewrites the value of that one row and keeps its id and creation time; every other row is unchanged |
| Store.Table.RemoveAt | src/controller/Compony/compony.controller.ts:110 | a delete removes exactly that row, keeps the others in order, and leaves no row with its id |
| Ordering.SortNewestFirst | src/controller/Application/application.controller.ts:12 | orderBy createdAt desc: the result is a permutation of the rows with creation times non-increasing |
| Ordering.Filter | src/controller/Announcement/announcement.controller.ts:68 | the result holds exactly the elements that pass the test, each as often as in the input, as a subsequence of the input |
| Ordering.InsertNewestFirst | src/controller/Application/application.controller.ts:12 | inserting a row into a newest-first list keeps it newest first and adds exactly that row |
| Ordering.SubsequenceKeepsNewestFirst | src/controller/Announcement/announcement.controller.ts:56-83 | filtering a newest-first list keeps it newest first |
| Json.Member | src/controller/Announcement/announcement.controller.ts:74 | optional member access yields a value only on an object that has the key |
| Announcements.GetAnnouncements | src/controller/Announcement/announcement.controller.ts:39-89 | an admin gets every announcement newest first; anyone else gets exactly the announcements addressed to them, newest first, as a subsequence of the newest-first candidates |
| Announcements.Addressed | src/controller/Announcement/announcement.controller.ts:68-83 | only an announcement with audience ALL, BRANCH or BATCH can be addressed to a student |
| Announcements.Candidates | src/controller/Announcement/announcement.controller.ts:56-65 | the candidates are stored announcements with a known audience, each as often as stored, newest first |
| Announcements.CandidatesCover | src/controller/Announcement/announcement.controller.ts:56-65 | the newest-first candidate list holds every announcement addressed to a student, and only stored ones |
| Announcements.AllReachesEveryone | src/controller/Announcement/announcement.controller.ts:69-71 | an ALL announcement is addressed to every student |
| Announcements.BranchAudience | src/controller/Announcement/announcement.controller.ts:72-76 | a BRANCH announcement reaches a student iff filterData.branches is an array containing the student's branch |
| Announcements.BatchAudience | src/controller/Announcement/announcement.controller.ts:77-81 | a BATCH announcement reaches a student iff filterData.graduationYears is an array containing the student's year |
| Announcements.UnknownAudienceReachesNobody | src/controller/Announcement/announcement.controller.ts:82 | any other audience tag reaches nobody |
| Announcements.CreateAnnouncement | src/controller/Announcement/announcement.controller.ts:10-33 | 400 with no change iff title, description or audience is missing or empty; otherwise one announcement is appended with the admin as its author |
| Jobs.Defaults | src/controller/JobListing/job.controller.ts:20-26 | missing branch and year lists become empty; an absent or zero minimum CGPA is stored as none |
| Jobs.Patched | src/controller/JobListing/job.controller.ts:84-88 | an update writes only the six listed fields, each only when supplied; the company and eligibility references are kept |
| Jobs.MatchesQuery | src/controller/JobListing/job.controller.ts:126-141 | only OPEN listings match; without a branch or year, exactly the OPEN listings whose minimum CGPA the query reaches match |
| Jobs.ListedFor | src/controller/JobListing/job.controller.ts:126-141 | a listing is returned only if its eligibility row exists and it is OPEN |
| Jobs.EligibilityOf | src/controller/JobListing/job.controller.ts:128-139 | a listing has eligibility criteria iff a row with its eligibilityId exists, and they are that row's |
| Jobs.FilterJobs | src/controller/JobListing/job.controller.ts:118-149 | 400 iff a branch is given that is not an enum value; otherwise exactly the listings whose eligibility matches, in storage order |
| Jobs.FilteredJobsQualify | src/controller/JobListing/job.controller.ts:126-143 | every returned listing is OPEN, lists the given branch and year, and has no minimum CGPA or one at most the query's CGPA |
| Jobs.BoundaryCgpaPasses | src/controller/JobListing/job.controller.ts:132-137 | for any query, a minimum CGPA equal to the query's CGPA filters nothing: the listing passes exactly as if it had no minimum |
| Jobs.QueryAgreesOnRestrictedJobs | src/controller/JobListing/job.controller.ts:126-140 | for non-empty branch and year lists the where clause agrees with `EligibleStudent`, the reading in which an empty list means no restriction |
| Jobs.NoBranchListHiddenFromBranchQuery | src/controller/JobListing/job.controller.ts:20-143 | a job created without branches is never returned to a query naming a branch |
| Jobs.CreateJobListing | src/controller/JobListing/job.controller.ts:7-47 | the defaulted eligibility row is created, then a listing pointing to its id; 500 with no change without an eligibility object |
| Jobs.GetJobById | src/controller/JobListing/job.controller.ts:62-76 | 400 iff there is no id, 404 iff no listing has it, and no other error: a known id always gets 200 with that listing |
| Jobs.UpdateJobListing | src/controller/JobListing/job.controller.ts:79-101 | 400 iff there is no id, 404 with no change iff no listing has it, and no other error: a known id always gets 200, and only that listing changes, by Patched |
| Jobs.DeleteJobListing | src/controller/JobListing/job.controller.ts:104-115 | 400 iff there is no id, 404 with no change iff no listing has it, and no other error: a known id always gets 200, exactly that listing is removed and the count is 1 |
| Applications.StatusWriteKeepsOnePerPair | src/controller/JobListing/application.controller.ts:48-51 | rewriting a status keeps at most one application per pair |
| JobApplications.AppliedWhere | src/controller/JobListing/application.controller.ts:11-13 | with both ids the duplicate test is the pair test; without studentId it matches every application for the job; without both it matches every application |
| JobApplications.ApplyForJob | src/controller/JobListing/application.controller.ts:7-30 | 400 with no change iff a matching application exists; otherwise one APPLIED application for the pair is appended; one-per-pair is preserved |
| JobApplications.UpdateApplicationStatus | src/controller/JobListing/application.controller.ts:33-57 | 400 iff the id is missing or the status is not one of the six values, 500 iff the id is unknown, and no other error: a known id with a listed status always gets 200, and only that application's status changes, whatever it was before |
| JobApplications.GetApplicationsByJob | src/controller/JobListing/application.controller.ts:60-77 | exactly the applications for the job, in storage order; 400 without a jobId |
| AdminApplications.GetAllApplications | src/controller/Application/application.controller.ts:5-20 | every application, newest first |
| AdminApplications.GetApplicationsByJob | src/controller/Application/application.controller.ts:23-50 | 400 iff there is no jobId, 404 iff the job does not exist, and no other error; an existing job always gets exactly its applications, each as often as stored (a permutation of the filtered rows), newest first |
| AdminApplications.PatchApplicationStatus | src/controller/Application/application.controller.ts:53-81 | 400 iff the id or a non-empty status is missing, 404 with no change iff the id is unknown, and no other error: a known id always gets 200, and only that status changes, to any non-empty value |
| AdminApplications.CreateApplication | src/controller/Application/application.controller.ts:84-116 | 400 iff a field is missing, 404 with no change iff the student or the job is missing, and no other error; otherwise 201, and one application is appended, even if it duplicates a pair |
| Analytics.Patched | src/controller/Analytics/analytics.controller.ts:105-108 | an update changes only the supplied counters and keeps the job and company |
| Analytics.OnlyAnalyticOfJob | src/controller/Analytics/analytics.controller.ts:127-129 | under one-per-job, the analytic a jobId lookup finds is the only one for that job |
| Analytics.RemoveOnlyAnalytic | src/controller/Analytics/analytics.controller.ts:127-129 | removing a job's only analytic keeps one-per-job and leaves no analytic for that job |
| Analytics.CreateAnalytic | src/controller/Analytics/analytics.controller.ts:15-48 | 400 iff jobId or companyId is missing or the job already has an analytic, 500 iff the job or the company does not exist, and no other error; otherwise 201, and one analytic with the given counters is appended; one-per-job is preserved |
| Analytics.GetAllAnalytics | src/controller/Analytics/analytics.controller.ts:51-65 | the count equals the number of analytics returned, and all are returned |
| Analytics.GetAnalyticByJob | src/controller/Analytics/analytics.controller.ts:68-93 | 400 iff there is no jobId, 404 iff no analytic has it, and no other error: otherwise 200 with the analytic for it, the only one under one-per-job |
| Analytics.UpdateAnalyticByJob | src/controller/Analytics/analytics.controller.ts:96-115 | 400 iff there is no jobId, 500 with no change iff no analytic has it, and no other error: otherwise 200, and only that analytic changes, by Patched |
| Analytics.DeleteAnalyticByJob | src/controller/Analytics/analytics.controller.ts:118-136 | 400 iff there is no jobId, 500 with no change iff no analytic has it, and no other error: otherwise 200, that analytic is removed and, under one-per-job, none for the job remains |
| Companies.Patched | src/controller/Compony/compony.controller.ts:82-85 | an update changes exactly the supplied fields |
| Companies.EmptyPatchIsIdentity | src/controller/Compony/compony.controller.ts:69 | an update body with no fields leaves the company as it was |
| Companies.CreateCompany | src/controller/Compony/compony.controller.ts:14-23 | one company with the supplied fields is appended |
| Companies.GetCompanyById | src/controller/Compony/compony.controller.ts:39-63 | 400 iff there is no id, 404 iff no company has it, and no other error: a known id always gets 200 with that company |
| Companies.UpdateCompany | src/controller/Compony/compony.controller.ts:66-92 | 400 iff there is no id, 404 with no change iff the id is unknown, and no other error: a known id always gets 200, and only that company changes, in the supplied fields |
| Companies.DeleteCompany | src/controller/Compony/compony.controller.ts:95-116 | 400 iff there is no id, 404 with no change iff the id is unknown, and no other error: a known id always gets 200, and exactly that company is removed |
| AuthValidator.Occurs | src/validator/auth.validator.ts:9 | the scan finds a character of the class iff one occurs somewhere in the string |
| AuthValidator.Scan | src/validator/auth.validator.ts:9 | each recorded flag holds iff some character of that class occurs |
| AuthValidator.PatternHoldsIffAccepts | src/validator/auth.validator.ts:9 | the scan-based test accepts exactly the strings the lookahead pattern matches |
| AuthValidator.PasswordIssues | src/validator/auth.validator.ts:5-12 | too short iff under 8 characters, too long iff over 16, pattern issue iff the pattern does not match |
| AuthValidator.PasswordAcceptedIff | src/validator/auth.validator.ts:5-12 | a password is accepted iff it has 8 to 16 characters, no line break, and a lowercase letter, an uppercase letter, a digit and a non-alphanumeric character |
| AuthValidator.UnderscoreCountsAsSpecial | src/validator/auth.validator.ts:9 | an underscore meets the special-character requirement |
| AuthValidator.NameIssues | src/validator/auth.validator.ts:16-19 | a name is accepted iff it has 7 to 60 characters |
| AuthValidator.SignupIssues | src/validator/auth.validator.ts:15-20 | signup reports exactly the login issues of the password and the name issues; it accepts iff the password passes every login check and the name has 7 to 60 characters |

## Left out

- Routing, the authentication middleware and bootstrapping are not part of this model. The principal is a parameter, so role gating is not modelled.
- The email format check: the email validator's pattern is not part of this model.
- The store's schema validation is not modelled. This covers enum columns, required fields the handlers do not check themselves, malformed ids and uniqueness constraints. Audience and status are stored as the strings the request supplies.
- Related records that responses `include` (student, company, eligibility) are left out, and so are response envelopes, messages and logging. Replies carry the status code and the primary record.
- getAllJobs and getCompanies are left out: each only returns every row with its related records.
- updateAnnouncement and deleteAnnouncement are not part of this model: the routes name them, but the controller does not define them.
- Referential actions on delete are not modelled: the store schema is not part of this model. deleteCompany and deleteJobListing change only their own table, so the rows that refer to the deleted one are neither removed nor checked.
- Concurrency: the check-then-create races in applyForJob and createAnalytic are outside a sequential model.
- Ids are natural numbers handed out by a per-table counter. Creation times come from the caller.
- createJobListing is not atomic: if the listing insert failed, the eligibility row would stay behind. In this model that insert cannot fail.
- Jobs.FilterJobs: the CGPA query is a real number given by the caller. `Number()` conversions and NaN (e.g. an absent cgpa) are not modelled. The graduation year is taken as already numeric.
- Analytics.UpdateAnalyticByJob: the update body is limited to the four counters. A body that names other columns (jobId, companyId) is not modelled.
- Analytics.CreateAnalytic: the counters are taken as given integers. Absent counters and the store's defaults for them are not modelled.
- AuthValidator.NameIssues: the name's length is counted in Unicode characters, while zod's `.min(7)` and `.max(60)` compare JavaScript's count of UTF-16 code units. A name with characters outside the Basic Multilingual Plane can be refused as too short here and accepted by the source.
- Ids are natural numbers, so an id that is the empty string is not modelled. In applyForJob such an id would constrain the duplicate check (it matches no application) and the insert would then fail with 500.
- AuthValidator.PasswordIssues: lengths are counted in Unicode characters, while JavaScript counts UTF-16 code units. The two differ for characters outside the Basic Multilingual Plane.
