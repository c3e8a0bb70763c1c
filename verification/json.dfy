/** A parsed JSON document as Python's `json.load` hands it over, and the
    few Python operations the bakerfile code applies to it: `type(v)`,
    `k in v` and `v[k]` with a string `k`. */
module JsonValues {
  import opened Wrappers

  /** An object keeps its members in document order; `json.load` gives
      each key once (`DistinctKeys`). A float is kept only as its text,
      which nothing here inspects. */
  datatype Json =
    | JNull
    | JBool(b: bool)
    | JInt(i: int)
    | JFloat(text: string)
    | JStr(s: string)
    | JArray(items: seq<Json>)
    | JObject(members: seq<(string, Json)>)

  /** `type(v)`: `bool` and `int` are different types, as are `int` and
      `float`. */
  datatype PyType = NoneType | BoolType | IntType | FloatType | StrType | ListType | DictType

  function TypeOf(v: Json): PyType {
    match v
    case JNull => NoneType
    case JBool(_) => BoolType
    case JInt(_) => IntType
    case JFloat(_) => FloatType
    case JStr(_) => StrType
    case JArray(_) => ListType
    case JObject(_) => DictType
  }

  predicate HasKey(members: seq<(string, Json)>, key: string) {
    exists i | 0 <= i < |members| :: members[i].0 == key
  }

  predicate DistinctKeys(members: seq<(string, Json)>) {
    forall i, j | 0 <= i < j < |members| :: members[i].0 != members[j].0
  }

  /** The value of the first member named `key`. */
  function Lookup(members: seq<(string, Json)>, key: string): (r: Option<Json>)
    ensures r.Some? <==> HasKey(members, key)
    ensures r.Some? ==> exists i | 0 <= i < |members| ::
      members[i] == (key, r.value) && forall j | 0 <= j < i :: members[j].0 != key
  {
    if |members| == 0 then None
    else if members[0].0 == key then Some(members[0].1)
    else
      var r := Lookup(members[1..], key);
      if r.Some? then
        var i :| 0 <= i < |members[1..]| && members[1..][i] == (key, r.value) && forall j | 0 <= j < i :: members[1..][j].0 != key;
        assert members[i + 1] == (key, r.value);
        r
      else
        assert forall i | 0 < i < |members| :: members[i].0 == members[1..][i - 1].0;
        r
  }

  /** With distinct keys, the member found is the one named `key`. */
  lemma LookupDistinct(members: seq<(string, Json)>, i: nat)
    requires DistinctKeys(members) && i < |members|
    ensures Lookup(members, members[i].0) == Some(members[i].1)
  {
    var r := Lookup(members, members[i].0);
    var k :| 0 <= k < |members| && members[k] == (members[i].0, r.value) && forall j | 0 <= j < k :: members[j].0 != members[i].0;
    assert k == i;
  }

  predicate IsSubstring(k: string, s: string) {
    exists i, j | 0 <= i <= j <= |s| :: s[i..j] == k
  }

  /** Python raises `TypeError` when `in` or `[]` is applied to a value
      that does not support it with a string operand. */
  datatype Unsupported = Unsupported

  /** `key in v`: a member test on a dict, an element test on a list, a
      substring test on a string, and a `TypeError` on anything else. */
  function Contains(v: Json, key: string): (r: Result<bool, Unsupported>)
    ensures r.Success? <==> v.JObject? || v.JArray? || v.JStr?
    ensures v.JObject? ==> r == Success(HasKey(v.members, key))
    ensures v.JArray? ==> r == Success(JStr(key) in v.items)
    ensures v.JStr? ==> r == Success(IsSubstring(key, v.s))
  {
    match v
    case JObject(m) => Success(HasKey(m, key))
    case JArray(items) => Success(JStr(key) in items)
    case JStr(s) => Success(IsSubstring(key, s))
    case _ => Failure(Unsupported)
  }

  /** `v[key]` where `key in v` held: a dict gives the member, a list or a
      string cannot be indexed by a string. */
  function Index(v: Json, key: string): (r: Result<Json, Unsupported>)
    requires v.JObject? ==> HasKey(v.members, key)
    ensures r.Success? <==> v.JObject?
    ensures r.Success? ==> Lookup(v.members, key) == Some(r.value)
  {
    if v.JObject? then Success(Lookup(v.members, key).value) else Failure(Unsupported)
  }
}
