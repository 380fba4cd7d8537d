/** The values Python's json.loads produces, as far as the analyzer looks at them. */
module Json {
  import opened Wrappers
  import opened Unique

  /** A decoded JSON value. A number written with a fraction or an exponent
      becomes a Python float; here it is kept exactly, as mantissa * 10^exponent,
      not rounded to a double.
      An object keeps its members in document order; the dict that json.loads
      builds has distinct keys. */
  datatype Json =
    | JNull
    | JBool(b: bool)
    | JInt(i: int)
    | JFloat(mantissa: int, exponent: int)
    | JStr(s: string)
    | JArray(items: seq<Json>)
    | JObject(members: seq<(string, Json)>)

  /** The name Python gives the type of the decoded value, as it appears in
      exception messages. */
  function TypeName(v: Json): string
  {
    match v
    case JNull => "NoneType"
    case JBool(_) => "bool"
    case JInt(_) => "int"
    case JFloat(_, _) => "float"
    case JStr(_) => "str"
    case JArray(_) => "list"
    case JObject(_) => "dict"
  }

  /** The value of the last member named key (a repeated key in a JSON
      object overwrites the earlier one), if there is one. */
  function Find(members: seq<(string, Json)>, key: string): Option<Json>
  {
    if members == [] then None
    else if members[|members| - 1].0 == key then Some(members[|members| - 1].1)
    else Find(members[..|members| - 1], key)
  }

  /** No member is named key. */
  predicate KeyAbsent(members: seq<(string, Json)>, key: string)
  {
    forall i | 0 <= i < |members| :: members[i].0 != key
  }

  /** v is the value of the last member named key. */
  predicate LastValue(members: seq<(string, Json)>, key: string, v: Json)
  {
    exists i | 0 <= i < |members| ::
      members[i] == (key, v) && forall j | i < j < |members| :: members[j].0 != key
  }

  /** What dict.get(key, default) gives on the dict json.loads builds: the
      default when the key is absent, and otherwise the value of the last
      member with that key. */
  predicate GivenOrDefault(members: seq<(string, Json)>, key: string, default: Json, v: Json)
  {
    && (KeyAbsent(members, key) ==> v == default)
    && (!KeyAbsent(members, key) ==> LastValue(members, key, v))
  }

  lemma {:induction false} FindSpec(members: seq<(string, Json)>, key: string)
    ensures Find(members, key).None? <==> KeyAbsent(members, key)
    ensures Find(members, key).Some? ==> LastValue(members, key, Find(members, key).value)
  {
    if members != [] && members[|members| - 1].0 != key {
      var init := members[..|members| - 1];
      FindSpec(init, key);
      assert forall i | 0 <= i < |init| :: init[i] == members[i];
    }
  }

  /** dict.get(key, default). */
  function Get(members: seq<(string, Json)>, key: string, default: Json): (r: Json)
    ensures GivenOrDefault(members, key, default, r)
  {
    FindSpec(members, key);
    match Find(members, key)
    case None => default
    case Some(v) => v
  }

  /** The names of an object's members, in document order, repeats included. */
  function Names(members: seq<(string, Json)>): (ks: seq<string>)
    ensures |ks| == |members|
    ensures forall i | 0 <= i < |members| :: ks[i] == members[i].0
  {
    seq(|members|, i requires 0 <= i < |members| => members[i].0)
  }

  /** What iterating over the dict json.loads builds yields: each key once,
      where it first appeared. */
  function DictKeys(members: seq<(string, Json)>): seq<string>
  {
    Distinct(Names(members))
  }
}
