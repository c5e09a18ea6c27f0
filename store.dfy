/** The entity store: every table is a sequence of rows in storage order,
    each row carrying the store-assigned id and creation time. */
module Store {
  import opened Wrappers

  type Id = nat

  datatype Row<R> = Row(id: Id, createdAt: int, val: R)

  /** Index of the first row, in storage order, that satisfies `p`. */
  function FirstWhere<R>(rows: seq<Row<R>>, p: Row<R> -> bool): (r: Option<nat>)
    ensures r.Some? ==> r.value < |rows| && p(rows[r.value])
    ensures r.Some? ==> forall k :: 0 <= k < r.value ==> !p(rows[k])
    ensures r.None? <==> forall k :: 0 <= k < |rows| ==> !p(rows[k])
  {
    if rows == [] then None
    else if p(rows[0]) then Some(0)
    else match FirstWhere(rows[1..], p)
      case None => None
      case Some(i) => Some(i + 1)
  }

  /** The row test of a lookup by primary key (`where: { id }`). */
  function WithId<R>(id: Id): Row<R> -> bool {
    (row: Row<R>) => row.id == id
  }

  ghost predicate DistinctIds<R>(rows: seq<Row<R>>) {
    forall i, j :: 0 <= i < |rows| && 0 <= j < |rows| && i != j ==> rows[i].id != rows[j].id
  }

  /** One table of the store. */
  class Table<R> {
    var rows: seq<Row<R>>
    var nextId: Id

    /** Ids are unique and every id in use is below the next id to hand out. */
    ghost predicate Valid()
      reads this
    {
      && DistinctIds(rows)
      && forall k :: 0 <= k < |rows| ==> rows[k].id < nextId
    }

    constructor Empty()
      ensures Valid() && rows == [] && nextId == 0
    {
      rows := [];
      nextId := 0;
    }

    /** `findFirst` / `findUnique`: a scan of the rows in storage order. */
    method FindFirst(p: Row<R> -> bool) returns (r: Option<nat>)
      ensures r == FirstWhere(rows, p)
    {
      var i := 0;
      while i < |rows|
        invariant 0 <= i <= |rows|
        invariant forall k :: 0 <= k < i ==> !p(rows[k])
      {
        if p(rows[i]) {
          return Some(i);
        }
        i := i + 1;
      }
      return None;
    }

    /** `create`: appends a row under a fresh id. */
    method Insert(now: int, v: R) returns (row: Row<R>)
      requires Valid()
      modifies this
      ensures Valid()
      ensures row == Row(old(nextId), now, v)
      ensures rows == old(rows) + [row] && nextId == old(nextId) + 1
      ensures forall k :: 0 <= k < |old(rows)| ==> old(rows)[k].id != row.id
    {
      row := Row(nextId, now, v);
      rows := rows + [row];
      nextId := nextId + 1;
    }

    /** `update` of the row at index `k`: its id and creation time are kept. */
    method Replace(k: nat, v: R)
      requires Valid() && k < |rows|
      modifies this
      ensures Valid()
      ensures rows == old(rows)[k := old(rows)[k].(val := v)] && nextId == old(nextId)
    {
      rows := rows[k := rows[k].(val := v)];
    }

    /** `delete` of the row at index `k`. */
    method RemoveAt(k: nat)
      requires Valid() && k < |rows|
      modifies this
      ensures Valid()
      ensures rows == old(rows)[..k] + old(rows)[k + 1..] && nextId == old(nextId)
      ensures forall i :: 0 <= i < |rows| ==> rows[i].id != old(rows)[k].id
    {
      ghost var before := rows;
      rows := rows[..k] + rows[k + 1..];
      assert forall i :: 0 <= i < |rows| ==> rows[i] == before[if i < k then i else i + 1];
    }
  }
}
