/** The application table, shared by the student-facing and the admin-facing handlers. */
module Applications {
  import opened Store

  datatype Application = Application(studentId: Id, jobId: Id, status: string)

  /** The status values updateApplicationStatus accepts. */
  const Statuses: seq<string> := ["APPLIED", "SHORTLISTED", "TEST", "INTERVIEW", "ACCEPTED", "REJECTED"]

  /** The table holds at most one application per (student, job) pair. */
  ghost predicate OnePerPair(rows: seq<Row<Application>>) {
    forall i, j :: 0 <= i < |rows| && 0 <= j < |rows| && i != j ==>
      rows[i].val.studentId != rows[j].val.studentId || rows[i].val.jobId != rows[j].val.jobId
  }

  /** `where: { jobId }`. */
  function ForJob(jobId: Id): Row<Application> -> bool {
    (row: Row<Application>) => row.val.jobId == jobId
  }

  /** `where: { studentId, jobId }` with both given. */
  function ForPair(studentId: Id, jobId: Id): Row<Application> -> bool {
    (row: Row<Application>) => row.val.studentId == studentId && row.val.jobId == jobId
  }

  /** Rewriting one application's status keeps at most one application per pair. */
  lemma StatusWriteKeepsOnePerPair(rows: seq<Row<Application>>, k: nat, status: string)
    requires k < |rows| && OnePerPair(rows)
    ensures OnePerPair(rows[k := rows[k].(val := rows[k].val.(status := status))])
  {
    var rows' := rows[k := rows[k].(val := rows[k].val.(status := status))];
    forall i, j | 0 <= i < |rows'| && 0 <= j < |rows'| && i != j
      ensures rows'[i].val.studentId != rows'[j].val.studentId || rows'[i].val.jobId != rows'[j].val.jobId
    {
      assert rows'[i].val.studentId == rows[i].val.studentId && rows'[i].val.jobId == rows[i].val.jobId;
      assert rows'[j].val.studentId == rows[j].val.studentId && rows'[j].val.jobId == rows[j].val.jobId;
    }
  }
}
