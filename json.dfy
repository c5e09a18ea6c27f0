/** The JSON values an announcement's `filterData` column can hold. */
module Json {
  import opened Wrappers

  datatype Json =
    | JNull
    | JBool(b: bool)
    | JNum(n: real)
    | JStr(s: string)
    | JArr(items: seq<Json>)
    | JObj(fields: map<string, Json>)

  /** `(v as any)?.key`: the member `key` of an object; `None` stands for `undefined`
      (also when `v` is null, a primitive or an array). */
  function Member(v: Json, key: string): (r: Option<Json>)
    ensures r.Some? <==> v.JObj? && key in v.fields
    ensures r.Some? ==> r.value == v.fields[key]
  {
    match v
    case JObj(fields) => if key in fields then Some(fields[key]) else None
    case _ => None
  }

  /** `Array.isArray(v) && v.includes(x)` for a primitive `x`. */
  predicate ArrayIncludes(v: Option<Json>, x: Json) {
    match v
    case Some(JArr(items)) => x in items
    case _ => false
  }
}
