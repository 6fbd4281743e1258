/** The JSON values that Terraform outputs and Proxmox configurations carry,
    with the two Python tests the scripts apply to them. Floating-point numbers
    are not part of this model. */
module Json {

  datatype Value =
    | Null
    | Bool(b: bool)
    | Int(i: int)
    | Str(s: string)
    | Array(items: seq<Value>)
    | Object(fields: map<string, Value>)

  /** Python truthiness: `if v:`. */
  predicate Truthy(v: Value) {
    match v
    case Null => false
    case Bool(b) => b
    case Int(i) => i != 0
    case Str(s) => s != ""
    case Array(items) => |items| > 0
    case Object(fields) => |fields| > 0
  }

  /** `v is not None and v != ""`: only `None` and the empty string fail. */
  predicate Present(v: Value) {
    v != Null && v != Str("")
  }

  /** Every truthy value is present; `False`, `0` and empty containers are
      present without being truthy. */
  lemma TruthyPresent(v: Value)
    ensures Truthy(v) ==> Present(v)
    ensures Present(v) && !Truthy(v) <==> v == Bool(false) || v == Int(0) || v == Array([]) || v == Object(map[])
  {
    if v.Object? && |v.fields| == 0 {
      assert v.fields == map[];
    }
  }
}
