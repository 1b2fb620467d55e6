/** The Gson JSON tree the path engine and the feed reader work on.
    Objects are ordered member sequences, because Gson's JsonObject keeps
    insertion order; numbers are kept as their source text. */
module Json {
  import opened Results

  datatype Json =
    | JNull
    | JBool(b: bool)
    | JNumber(text: string)
    | JString(s: string)
    | JArray(elems: seq<Json>)
    | JObject(members: seq<Member>)

  datatype Member = Member(key: string, value: Json)

  /** The values of an object's members, in order. */
  function Values(members: seq<Member>): (r: seq<Json>)
    ensures |r| == |members|
    ensures forall i :: 0 <= i < |members| ==> r[i] == members[i].value
  {
    seq(|members|, i requires 0 <= i < |members| => members[i].value)
  }

  /** The immediate children of a node: an array's elements or an object's
      values, in container order; nothing for a primitive or null. */
  function Children(j: Json): (r: seq<Json>)
    ensures forall c :: c in r ==> c < j
    ensures !(j.JArray? || j.JObject?) ==> r == []
  {
    match j
    case JArray(elems) => elems
    case JObject(members) =>
      var r := Values(members);
      assert forall i :: 0 <= i < |r| ==> r[i] == members[i].value && members[i] in members;
      r
    case _ => []
  }

  /** JsonObject.get: the value stored under `key`, if any. Gson keeps keys
      unique; the first match is the one stored. */
  function Lookup(members: seq<Member>, key: string): (r: Option<Json>)
    ensures r.None? <==> forall i :: 0 <= i < |members| ==> members[i].key != key
    ensures r.Some? ==> exists i :: 0 <= i < |members| && members[i] == Member(key, r.value)
  {
    if |members| == 0 then None
    else if members[0].key == key then Some(members[0].value)
    else
      var r := Lookup(members[1..], key);
      assert r.Some? ==> exists i :: 0 <= i < |members| - 1 && members[1..][i] == Member(key, r.value);
      r
  }

  /** JsonObject.has on an object; false for every other node. */
  predicate Has(j: Json, key: string) {
    j.JObject? && Lookup(j.members, key).Some?
  }

  /** `obj.get(key)` whose result is then dereferenced: a missing member is a
      NullPointerException. */
  function Get(j: Json, key: string): (r: Result<Json>)
    requires j.JObject?
    ensures r.Success? <==> Has(j, key)
    ensures r.Success? ==> Lookup(j.members, key) == Some(r.value)
  {
    match Lookup(j.members, key)
    case Some(v) => Success(v)
    case None => Failure(NullPointer)
  }

  /** `obj.getAsJsonObject(key)` whose result is then dereferenced: a
      missing member is a NullPointerException, a member that is not an
      object a ClassCastException. */
  function GetObject(j: Json, key: string): (r: Result<Json>)
    requires j.JObject?
    ensures r.Success? ==> r.value.JObject? && Lookup(j.members, key) == Some(r.value)
    ensures r.Success? <==> Has(j, key) && Lookup(j.members, key).value.JObject?
  {
    match Lookup(j.members, key)
    case Some(v) => if v.JObject? then Success(v) else Failure(ClassCast)
    case None => Failure(NullPointer)
  }

  /** JsonElement.getAsString: a primitive's text; a one-element array's
      only element's; an exception for null, objects and other arrays. */
  function GetAsString(j: Json): (r: Result<string>)
    ensures j.JString? ==> r == Success(j.s)
    ensures j.JNumber? ==> r == Success(j.text)
    ensures (j.JNull? || j.JObject?) ==> r.Failure?
    ensures j.JArray? && |j.elems| != 1 ==> r.Failure?
  {
    match j
    case JString(s) => Success(s)
    case JNumber(text) => Success(text)
    case JBool(b) => Success(if b then "true" else "false")
    case JArray(elems) =>
      if |elems| == 1 then GetAsString(elems[0])
      else Failure(IllegalState("Array must have size 1"))
    case _ => Failure(UnsupportedOperation)
  }
}
