/**
 * Notebook and cell metadata: a JSON-like value tree, and the namespaced
 * lookup and update that `get_metadata` and `set_metadata` perform on it.
 */
module Metadata {
  import opened Outcomes

  /** The JSON values that notebook metadata holds. */
  datatype Json =
    | JNull
    | JStr(s: string)
    | JInt(i: int)
    | JList(items: seq<Json>)
    | JObj(fields: map<string, Json>)

  type Meta = map<string, Json>

  /** The namespace geopyter keeps its own bookkeeping under. */
  const Namespace: string := "geopyter"

  /**
   * `get_metadata(nm, namespace)`: with no namespace and no name, the whole
   * store; with no namespace, the top-level entry `nm` if present; a missing
   * namespace (or a missing top-level `nm`) gives Python's `None`, here
   * `Ok(None)`; with no name, the whole namespace; otherwise the entry
   * inside the namespace, which raises when it is missing or when the
   * namespace holds something other than a dict.
   */
  function GetMetadata(m: Meta, nm: Option<string>, ns: Option<string>): (r: Result<Option<Json>>)
    ensures r.Err? <==> ns.Some? && nm.Some? && ns.value in m && !(m[ns.value].JObj? && nm.value in m[ns.value].fields)
    ensures r == Ok(None) <==> (ns.None? && nm.Some? && nm.value !in m) || (ns.Some? && ns.value !in m)
  {
    if ns.None? && nm.None? then Ok(Some(JObj(m)))
    else if ns.None? && nm.value in m then Ok(Some(m[nm.value]))
    else if ns.None? || ns.value !in m then Ok(None)
    else if nm.None? then Ok(Some(m[ns.value]))
    else
      match m[ns.value]
      case JObj(fields) => if nm.value in fields then Ok(Some(fields[nm.value])) else Err(KeyError)
      case _ => Err(TypeError)
  }

  /** The top-level key `SetMetadata` writes under. */
  function TargetKey(nm: Option<string>, ns: Option<string>): string
    requires ns.Some? || nm.Some?
  {
    if ns.Some? then ns.value else nm.value
  }

  /**
   * `set_metadata(val, nm, namespace)`: with no namespace, store `val` at the
   * top-level key `nm`; otherwise create the namespace as an empty dict if it
   * is missing, then either replace the whole namespace by `val` or store
   * `val` under `nm` inside it, which fails when the namespace is not a dict.
   */
  function SetMetadata(m: Meta, val: Json, nm: Option<string>, ns: Option<string>): (r: Result<Meta>)
    requires ns.Some? || nm.Some?
    ensures r.Err? <==> ns.Some? && nm.Some? && ns.value in m && !m[ns.value].JObj?
    ensures r.Ok? ==> GetMetadata(r.value, nm, ns) == Ok(Some(val))
    ensures r.Ok? ==> r.value.Keys == m.Keys + {TargetKey(nm, ns)}
    ensures r.Ok? ==> forall k :: k in m && k != TargetKey(nm, ns) ==> r.value[k] == m[k]
    ensures r.Ok? && ns.Some? && nm.Some? ==>
              r.value[ns.value].JObj? &&
              forall k :: k != nm.value && ns.value in m && k in m[ns.value].fields ==>
                k in r.value[ns.value].fields && r.value[ns.value].fields[k] == m[ns.value].fields[k]
    ensures r.Ok? && ns.Some? && nm.Some? ==>
              r.value[ns.value].fields.Keys == (if ns.value in m then m[ns.value].fields.Keys else {}) + {nm.value}
  {
    if ns.None? then Ok(m[nm.value := val])
    else
      var m1 := if ns.value !in m then m[ns.value := JObj(map[])] else m;
      if nm.None? then Ok(m1[ns.value := val])
      else
        match m1[ns.value]
        case JObj(fields) => Ok(m1[ns.value := JObj(fields[nm.value := val])])
        case _ => Err(TypeError)
  }
}
