/** Company records (src/controller/Compony/compony.controller.ts). */
module Companies {
  import opened Wrappers
  import opened Http
  import opened Store

  datatype Company = Company(
    name: string,
    description: string,
    industry: string,
    website: string,
    contactPerson: string,
    contactEmail: string)

  /** The body of an update: `Partial<CompanyData>`, an absent field is left as it is. */
  datatype CompanyPatch = CompanyPatch(
    name: Option<string>,
    description: Option<string>,
    industry: Option<string>,
    website: Option<string>,
    contactPerson: Option<string>,
    contactEmail: Option<string>)

  function Patched(c: Company, p: CompanyPatch): (r: Company)
    ensures p.name.Some? ==> r.name == p.name.value
    ensures p.name.None? ==> r.name == c.name
    ensures p.description.Some? ==> r.description == p.description.value
    ensures p.description.None? ==> r.description == c.description
    ensures p.industry.Some? ==> r.industry == p.industry.value
    ensures p.industry.None? ==> r.industry == c.industry
    ensures p.website.Some? ==> r.website == p.website.value
    ensures p.website.None? ==> r.website == c.website
    ensures p.contactPerson.Some? ==> r.contactPerson == p.contactPerson.value
    ensures p.contactPerson.None? ==> r.contactPerson == c.contactPerson
    ensures p.contactEmail.Some? ==> r.contactEmail == p.contactEmail.value
    ensures p.contactEmail.None? ==> r.contactEmail == c.contactEmail
  {
    Company(
      p.name.GetOr(c.name),
      p.description.GetOr(c.description),
      p.industry.GetOr(c.industry),
      p.website.GetOr(c.website),
      p.contactPerson.GetOr(c.contactPerson),
      p.contactEmail.GetOr(c.contactEmail))
  }

  /** An empty patch changes nothing. */
  lemma EmptyPatchIsIdentity(c: Company)
    ensures Patched(c, CompanyPatch(None, None, None, None, None, None)) == c
  {
  }

  /** createCompany: the body is stored as it is. */
  method CreateCompany(t: Table<Company>, data: Company, now: int) returns (r: Reply<Row<Company>>)
    requires t.Valid()
    modifies t
    ensures t.Valid()
    ensures r.Ok? && r.code == 201 && r.value.val == data
    ensures t.rows == old(t.rows) + [r.value]
    ensures forall k :: 0 <= k < |old(t.rows)| ==> old(t.rows)[k].id != r.value.id
  {
    var row := t.Insert(now, data);
    return Ok(201, row);
  }

  /** getCompanyById. */
  method GetCompanyById(t: Table<Company>, id: Option<Id>) returns (r: Reply<Row<Company>>)
    ensures r == Err(400) <==> id.None?
    ensures id.Some? ==> (r == Err(404) <==> forall k :: 0 <= k < |t.rows| ==> t.rows[k].id != id.value)
    ensures r.Err? ==> r.code == 400 || r.code == 404
    ensures r.Ok? ==> r.code == 200 && r.value in t.rows && r.value.id == id.value
  {
    if id.None? {
      return Err(400);
    }
    var k := t.FindFirst(WithId(id.value));
    if k.None? {
      return Err(404);
    }
    return Ok(200, t.rows[k.value]);
  }

  /** updateCompany: 404 for an unknown id; otherwise only that company changes, and
      only in the supplied fields. */
  method UpdateCompany(t: Table<Company>, id: Option<Id>, patch: CompanyPatch) returns (r: Reply<Row<Company>>)
    requires t.Valid()
    modifies t
    ensures t.Valid()
    ensures r == Err(400) <==> id.None?
    ensures id.Some? ==>
      (r == Err(404) <==> forall k :: 0 <= k < |old(t.rows)| ==> old(t.rows)[k].id != id.value)
    ensures r.Err? ==> (r.code == 400 || r.code == 404) && unchanged(t)
    ensures r.Ok? ==> r.code == 200 && id.Some?
    ensures r.Ok? && id.Some? ==> (
      var k := FirstWhere(old(t.rows), WithId(id.value)).value;
      && r.value == old(t.rows)[k].(val := Patched(old(t.rows)[k].val, patch))
      && t.rows == old(t.rows)[k := r.value])
  {
    if id.None? {
      return Err(400);
    }
    var k := t.FindFirst(WithId(id.value));
    if k.None? {
      return Err(404);
    }
    t.Replace(k.value, Patched(t.rows[k.value].val, patch));
    return Ok(200, t.rows[k.value]);
  }

  /** deleteCompany: 404 for an unknown id; otherwise exactly that company is removed.
      Other tables are outside this operation's frame. */
  method DeleteCompany(t: Table<Company>, id: Option<Id>) returns (r: Reply<()>)
    requires t.Valid()
    modifies t
    ensures t.Valid()
    ensures r == Err(400) <==> id.None?
    ensures id.Some? ==>
      (r == Err(404) <==> forall k :: 0 <= k < |old(t.rows)| ==> old(t.rows)[k].id != id.value)
    ensures r.Err? ==> (r.code == 400 || r.code == 404) && unchanged(t)
    ensures r.Ok? ==> r.code == 200 && id.Some?
    ensures r.Ok? && id.Some? ==> (
      var k := FirstWhere(old(t.rows), WithId(id.value)).value;
      t.rows == old(t.rows)[..k] + old(t.rows)[k + 1..])
    ensures r.Ok? && id.Some? ==> forall k :: 0 <= k < |t.rows| ==> t.rows[k].id != id.value
  {
    if id.None? {
      return Err(400);
    }
    var k := t.FindFirst(WithId(id.value));
    if k.None? {
      return Err(404);
    }
    t.RemoveAt(k.value);
    return Ok(200, ());
  }
}
