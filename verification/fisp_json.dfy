/** What Fisp.fromJson keeps and what it loses. Every Fisp value is the
    conversion of some JSON tree, and a tree of strings, booleans and
    arrays comes back from its conversion; numbers and strings, null and
    the empty string, and objects and arrays of pairs meet. */
module FispJson {
  import opened Json
  import opened FispSyntax

  /** The JSON tree a Fisp value reads as: a Str a string, a Bool a
      boolean, an Array an array. */
  function ToJson(f: Fisp): (j: Json)
    decreases f
  {
    match f
    case Bool(b) => JBool(b)
    case Str(s) => JString(s)
    case Array(es) => JArray(seq(|es|, i requires 0 <= i < |es| => ToJson(es[i])))
  }

  /** A JSON tree made only of strings, booleans and arrays. */
  predicate Plain(j: Json)
    decreases j
  {
    match j
    case JString(_) => true
    case JBool(_) => true
    case JArray(es) => forall i :: 0 <= i < |es| ==> Plain(es[i])
    case _ => false
  }

  /** fromJson reaches every Fisp value: converting the tree a value reads
      as gives the value back. */
  lemma {:induction false} FromJsonOnto(f: Fisp)
    ensures FromJson(ToJson(f)) == f
    decreases f
  {
    match f
    case Bool(_) =>
    case Str(_) =>
    case Array(es) =>
      var r := FromJson(ToJson(f));
      forall i | 0 <= i < |es|
        ensures r.elems[i] == es[i]
      {
        FromJsonOnto(es[i]);
      }
      assert r.elems == es;
  }

  /** On plain trees fromJson loses nothing: the tree comes back. */
  lemma {:induction false} FromJsonPlain(j: Json)
    requires Plain(j)
    ensures ToJson(FromJson(j)) == j
    decreases j
  {
    match j
    case JString(_) =>
    case JBool(_) =>
    case JArray(es) =>
      var r := ToJson(FromJson(j));
      forall i | 0 <= i < |es|
        ensures r.elems[i] == es[i]
      {
        FromJsonPlain(es[i]);
      }
      assert r.elems == es;
  }

  /** What fromJson cannot tell apart: a number and the string of its
      text, null and the empty string, and an object and the array of its
      `[key, value]` pairs. */
  lemma FromJsonCollisions(text: string, ms: seq<Member>)
    ensures FromJson(JNumber(text)) == FromJson(JString(text))
    ensures FromJson(JNull) == FromJson(JString(""))
    ensures FromJson(JObject(ms)) ==
      FromJson(JArray(seq(|ms|, i requires 0 <= i < |ms| => JArray([JString(ms[i].key), ms[i].value]))))
  {
    var pairs := seq(|ms|, i requires 0 <= i < |ms| => JArray([JString(ms[i].key), ms[i].value]));
    var a := FromJson(JObject(ms));
    var b := FromJson(JArray(pairs));
    forall i | 0 <= i < |ms|
      ensures a.elems[i] == b.elems[i]
    {
      assert FromJson(pairs[i]).elems[0] == Str(ms[i].key);
    }
    assert a.elems == b.elems;
  }
}
