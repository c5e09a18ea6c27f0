/** Announcements: creation by an admin and the audience filter applied on reading
    (src/controller/Announcement/announcement.controller.ts). */
module Announcements {
  import opened Wrappers
  import opened Http
  import opened Store
  import opened Ordering
  import opened Json

  datatype Announcement = Announcement(
    title: string,
    description: string,
    audience: string,
    filterData: Json,
    createdBy: Id)

  /** The principal the authentication layer attaches to the request. */
  datatype User = User(id: Id, role: string, branch: string, graduationYear: int)

  predicate IsAdmin(u: User) {
    u.role == "admin"
  }

  /** The store-side pre-filter `audience: { in: ['ALL', 'BRANCH', 'BATCH'] }`. */
  function KnownAudience(): Row<Announcement> -> bool {
    (row: Row<Announcement>) => row.val.audience in ["ALL", "BRANCH", "BATCH"]
  }

  /** The test the `.filter` callback applies to one announcement for a student. Only
      the three known audience tags can address anyone, so the store-side pre-filter
      drops no announcement the callback would keep. */
  predicate Addressed(a: Announcement, u: User)
    ensures Addressed(a, u) ==> a.audience in ["ALL", "BRANCH", "BATCH"]
  {
    if a.audience == "ALL" then true
    else if a.audience == "BRANCH" then
      ArrayIncludes(Member(a.filterData, "branches"), JStr(u.branch))
    else if a.audience == "BATCH" then
      ArrayIncludes(Member(a.filterData, "graduationYears"), JNum(u.graduationYear as real))
    else false
  }

  function AddressedTo(u: User): Row<Announcement> -> bool {
    (row: Row<Announcement>) => Addressed(row.val, u)
  }

  /** The newest-first list a student's filter runs over: stored announcements with a
      known audience, each as often as it is stored. */
  function Candidates(rows: seq<Row<Announcement>>): (r: seq<Row<Announcement>>)
    ensures NewestFirst(r)
    ensures multiset(r) <= multiset(rows)
    ensures forall i :: 0 <= i < |r| ==> r[i].val.audience in ["ALL", "BRANCH", "BATCH"]
    ensures forall i :: 0 <= i < |rows| && rows[i].val.audience in ["ALL", "BRANCH", "BATCH"] ==>
      multiset(r)[rows[i]] == multiset(rows)[rows[i]]
  {
    var known := Filter(rows, KnownAudience());
    var sorted := SortNewestFirst(known);
    forall i | 0 <= i < |sorted| ensures KnownAudience()(sorted[i]) {
      assert sorted[i] in multiset(known);
      var k :| 0 <= k < |known| && known[k] == sorted[i];
    }
    forall i | 0 <= i < |rows| && rows[i].val.audience in ["ALL", "BRANCH", "BATCH"]
      ensures multiset(sorted)[rows[i]] == multiset(rows)[rows[i]]
    {
      assert KnownAudience()(rows[i]);
    }
    sorted
  }

  /** Every announcement addressed to a student is among the candidates, and the
      candidates are stored announcements. */
  lemma CandidatesCover(rows: seq<Row<Announcement>>, u: User)
    ensures forall i :: 0 <= i < |rows| && Addressed(rows[i].val, u) ==> rows[i] in Candidates(rows)
    ensures forall i :: 0 <= i < |Candidates(rows)| ==> Candidates(rows)[i] in rows
  {
    var known := Filter(rows, KnownAudience());
    var cands := Candidates(rows);
    forall i | 0 <= i < |rows| && Addressed(rows[i].val, u) ensures rows[i] in cands {
      assert KnownAudience()(rows[i]);
      assert rows[i] in multiset(known);
    }
    forall i | 0 <= i < |cands| ensures cands[i] in rows {
      assert cands[i] in multiset(cands);
      assert cands[i] in known;
    }
  }

  /** getAnnouncements: an admin sees every announcement newest first; anyone else sees
      the announcements addressed to them, in the same order. */
  function GetAnnouncements(rows: seq<Row<Announcement>>, u: User): (r: seq<Row<Announcement>>)
    ensures IsAdmin(u) ==> multiset(r) == multiset(rows)
    ensures NewestFirst(r)
    ensures !IsAdmin(u) ==> IsSubsequence(r, Candidates(rows))
    ensures !IsAdmin(u) ==> forall i :: 0 <= i < |r| ==> r[i] in rows && Addressed(r[i].val, u)
    ensures !IsAdmin(u) ==> forall i :: 0 <= i < |rows| && Addressed(rows[i].val, u) ==> rows[i] in r
  {
    if IsAdmin(u) then SortNewestFirst(rows)
    else
      var cands := Candidates(rows);
      var r := Filter(cands, AddressedTo(u));
      SubsequenceKeepsNewestFirst(r, cands);
      CandidatesCover(rows, u);
      r
  }

  /** An ALL announcement reaches every student. */
  lemma AllReachesEveryone(a: Announcement, u: User)
    requires a.audience == "ALL"
    ensures Addressed(a, u)
  {
  }

  /** A BRANCH announcement reaches exactly the students whose branch its
      `filterData.branches` array lists; without such an array it reaches nobody. */
  lemma BranchAudience(a: Announcement, u: User)
    requires a.audience == "BRANCH"
    ensures Addressed(a, u) <==>
      && a.filterData.JObj?
      && "branches" in a.filterData.fields
      && a.filterData.fields["branches"].JArr?
      && JStr(u.branch) in a.filterData.fields["branches"].items
  {
  }

  /** A BATCH announcement reaches exactly the students whose graduation year its
      `filterData.graduationYears` array lists. */
  lemma BatchAudience(a: Announcement, u: User)
    requires a.audience == "BATCH"
    ensures Addressed(a, u) <==>
      && a.filterData.JObj?
      && "graduationYears" in a.filterData.fields
      && a.filterData.fields["graduationYears"].JArr?
      && JNum(u.graduationYear as real) in a.filterData.fields["graduationYears"].items
  {
  }

  /** Any other audience tag reaches nobody: the filter fails closed. */
  lemma UnknownAudienceReachesNobody(a: Announcement, u: User)
    requires a.audience !in ["ALL", "BRANCH", "BATCH"]
    ensures !Addressed(a, u)
  {
  }

  /** createAnnouncement: title, description and audience are required (JavaScript
      truthiness); the new row records the acting admin as its author. */
  method CreateAnnouncement(
    t: Table<Announcement>, admin: User,
    title: Option<string>, description: Option<string>, audience: Option<string>,
    filterData: Json, now: int)
    returns (r: Reply<Row<Announcement>>)
    requires t.Valid()
    modifies t
    ensures t.Valid()
    ensures r.Err? <==> !(Present(title) && Present(description) && Present(audience))
    ensures r.Err? ==> r.code == 400 && unchanged(t)
    ensures r.Ok? ==> r.code == 201 && t.rows == old(t.rows) + [r.value]
    ensures r.Ok? ==>
      r.value.val == Announcement(title.value, description.value, audience.value, filterData, admin.id)
    ensures r.Ok? ==> forall k :: 0 <= k < |old(t.rows)| ==> old(t.rows)[k].id != r.value.id
  {
    if !Present(title) || !Present(description) || !Present(audience) {
      return Err(400);
    }
    var row := t.Insert(now, Announcement(title.value, description.value, audience.value, filterData, admin.id));
    return Ok(201, row);
  }
}
