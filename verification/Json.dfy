/** JSON values, and the text library both editing services rely on. */
module Json {
  import opened Wrappers

  datatype Json =
    | Null
    | True
    | False
    | Integer(i: int)
    | Real(mantissa: int, exponent: int) // mantissa * 2^exponent, the mantissa odd or zero
    | Text(s: string)
    | Array(elems: seq<Json>)
    | Object(fields: map<string, Json>)
  {
    predicate IsBoolean() {
      True? || False?
    }
  }

  /** `json_loads` without flags and `json_dumps`. */
  datatype Jansson = Jansson(loads: string -> Option<Json>, dumps: Json -> string)
  {
    /**
     * Without flags only arrays and objects are read. What was dumped may be refused (it is nested too deep, say),
     * but is never read as another value.
     */
    ghost predicate Faithful() {
      && (forall s :: loads(s).Some? ==> loads(s).value.Array? || loads(s).value.Object?)
      && (forall v: Json :: v.Array? || v.Object? ==>
            dumps(v) != "" && (loads(dumps(v)) == None || loads(dumps(v)) == Some(v)))
      && loads("") == None && loads("[]") == Some(Array([])) && loads("{}") == Some(Object(map[]))
    }

    /** These can be elements: those of every array that is read are among them, and any array of them reads back. */
    ghost predicate Carries(values: iset<Json>) {
      && (forall s :: loads(s).Some? && loads(s).value.Array? ==> AllIn(loads(s).value.elems, values))
      && (forall es: seq<Json> :: AllIn(es, values) ==> loads(dumps(Array(es))) == Some(Array(es)))
    }

    /** Text that is no document is taken as a string. */
    function LoadOrText(text: string): Json {
      var v := loads(text);
      if v.Some? then v.value else Text(text)
    }
  }

  ghost predicate AllIn(elems: seq<Json>, values: iset<Json>) {
    forall i :: 0 <= i < |elems| ==> elems[i] in values
  }

  /** The position of the first element equal to `v`, the number of elements when there is none. */
  function IndexOf(elems: seq<Json>, v: Json): (k: nat)
    ensures k <= |elems|
    ensures k < |elems| ==> elems[k] == v
    ensures forall i :: 0 <= i < k ==> elems[i] != v
  {
    if elems == [] then 0
    else
      var k := IndexOf(elems[..|elems| - 1], v);
      if k < |elems| - 1 || elems[|elems| - 1] == v then k else |elems|
  }

  lemma {:induction false} FirstIndex(elems: seq<Json>, v: Json, k: nat)
    requires k < |elems| && elems[k] == v && v !in elems[..k]
    ensures IndexOf(elems, v) == k
  {
    assert forall i :: 0 <= i < k ==> elems[..k][i] == elems[i];
  }

  function Without(elems: seq<Json>, k: nat): seq<Json>
    requires k < |elems|
  {
    elems[..k] + elems[k + 1..]
  }

  /** The search loop of both services. */
  method Search(elems: seq<Json>, v: Json) returns (k: nat)
    ensures k == IndexOf(elems, v)
  {
    k := |elems|;
    for i := 0 to |elems|
      invariant k == |elems|
      invariant forall j :: 0 <= j < i ==> elems[j] != v
    {
      if elems[i] == v {
        k := i;
        break;
      }
    }
  }
}
