/** JSON values as parson.c builds them: objects keep their members in order. */
module JsonValue {
  import opened Options
  import opened Bytes

  /** The integers a double represents exactly and "%1.17g" prints digit by digit. */
  type Int53 = n: int | -0x20_0000_0000_0000 < n < 0x20_0000_0000_0000

  datatype Json =
    | Null
    | Bool(b: bool)
    | Number(n: Int53)
    | String(s: CString)
    | Array(items: seq<Json>)
    | Object(members: seq<Member>)

  datatype Member = Member(name: CString, value: Json)

  predicate DistinctNames(ms: seq<Member>) {
    forall i, j | 0 <= i < j < |ms| :: ms[i].name != ms[j].name
  }

  /** No object in the tree has two members of the same name. */
  predicate Unique(v: Json) {
    match v
    case Array(items) => forall i | 0 <= i < |items| :: Unique(items[i])
    case Object(ms) => DistinctNames(ms) && forall i | 0 <= i < |ms| :: Unique(ms[i].value)
    case _ => true
  }

  /** Nothing in the tree lies more than k levels below its root. */
  predicate DepthAtMost(v: Json, k: int) {
    && k >= 0
    && match v
       case Array(items) => forall i | 0 <= i < |items| :: DepthAtMost(items[i], k - 1)
       case Object(ms) => forall i | 0 <= i < |ms| :: DepthAtMost(ms[i].value, k - 1)
       case _ => true
  }

  /** json_object_getn_value: the index of the first member of that name, from i on. */
  function Find(ms: seq<Member>, name: CString, i: nat): (r: Option<nat>)
    requires i <= |ms|
    ensures r.Some? ==> i <= r.value < |ms| && ms[r.value].name == name
    ensures r.Some? ==> forall k | i <= k < r.value :: ms[k].name != name
    ensures r.None? ==> forall k | i <= k < |ms| :: ms[k].name != name
    decreases |ms| - i
  {
    if i == |ms| then None else if ms[i].name == name then Some(i) else Find(ms, name, i + 1)
  }

  lemma FindOwn(ms: seq<Member>, i: nat)
    requires DistinctNames(ms) && i < |ms|
    ensures Find(ms, ms[i].name, 0) == Some(i)
  {
    var r := Find(ms, ms[i].name, 0);
    assert ms[i].name == ms[i].name;
  }
}
