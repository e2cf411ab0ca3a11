/** `msi_json_arrayops`: one operation on an array held as text, and runs of such operations. */
module JsonArrayOps {
  import opened Wrappers
  import opened Json

  const SYS_INVALID_INPUT_PARAM := -130000

  /** The array a document text stands for; the empty text is an empty array. */
  function Elements(j: Jansson, text: string): Option<seq<Json>> {
    var v := j.loads(if text == "" then "[]" else text);
    if v.Some? && v.value.Array? then Some(v.value.elems) else None
  }

  /** The value an argument text stands for. */
  function Value(j: Jansson, text: string): Json {
    if text == "null" then Null
    else if text == "true" then True
    else if text == "false" then False
    else j.LoadOrText(text)
  }

  /** The array and the number an operation leaves; nothing for a "get" outside the array. */
  datatype Outcome = Outcome(elems: seq<Json>, number: int)

  function Step(op: string, elems: seq<Json>, v: Json, idx: int): Option<Outcome> {
    var k := IndexOf(elems, v);
    if op == "add" then
      if v.IsBoolean() || k == |elems| then Some(Outcome(elems + [v], |elems| + 1))
      else Some(Outcome(elems, |elems|))
    else if op == "find" then
      Some(Outcome(elems, if k < |elems| then k else -1))
    else if op == "rm" then
      if k < |elems| then Some(Outcome(Without(elems, k), |elems| - 1)) else Some(Outcome(elems, |elems|))
    else if op == "get" then
      if 0 <= idx < |elems| then Some(Outcome(elems, idx)) else None
    else
      Some(Outcome(elems, |elems|))
  }

  /** The text of an element handed back by "get". */
  function Shown(j: Jansson, v: Json): string {
    if v.Text? then v.s else j.dumps(v)
  }

  datatype Call = Call(op: string, val: string, idx: int)

  /** The document text after one call; a call that fails leaves it. */
  function After(j: Jansson, text: string, c: Call): string {
    var elems := Elements(j, text);
    if elems == None then text
    else
      var out := Step(c.op, elems.value, Value(j, c.val), c.idx);
      if out == None then text else j.dumps(Array(out.value.elems))
  }

  /** The service: the document and the number are replaced only when it succeeds, the value only by "get". */
  method MsiJsonArrayOps(j: Jansson, jsonStr: string, val: string, ops: string, sizeOrIndex: int)
      returns (status: int, newJson: string, newVal: string, number: int)
    ensures status == 0 <==>
              Elements(j, jsonStr).Some? && Step(ops, Elements(j, jsonStr).value, Value(j, val), sizeOrIndex).Some?
    ensures status != 0 ==> newJson == jsonStr && newVal == val && number == sizeOrIndex
    ensures status == 0 ==>
              var elems := Elements(j, jsonStr).value;
              var out := Step(ops, elems, Value(j, val), sizeOrIndex).value;
              newJson == j.dumps(Array(out.elems)) && number == out.number &&
              newVal == if ops == "get" then Shown(j, elems[sizeOrIndex]) else val
    ensures newJson == After(j, jsonStr, Call(ops, val, sizeOrIndex))
    ensures var doc := j.loads(if jsonStr == "" then "[]" else jsonStr);
            status == 0 <==>
              doc.Some? && doc.value.Array? && (ops == "get" ==> 0 <= sizeOrIndex < |doc.value.elems|)
    ensures status == 0 ==>
              var elems := j.loads(if jsonStr == "" then "[]" else jsonStr).value.elems;
              && (ops == "get" ==>
                    number == sizeOrIndex && newJson == j.dumps(Array(elems)) &&
                    newVal == if elems[sizeOrIndex].Text? then elems[sizeOrIndex].s else j.dumps(elems[sizeOrIndex]))
              && (ops != "get" ==> newVal == val)
              && (ops !in {"add", "find", "rm", "get"} ==> number == |elems| && newJson == j.dumps(Array(elems)))
    ensures status == 0 && ops in {"add", "find", "rm"} ==>
              var elems := j.loads(if jsonStr == "" then "[]" else jsonStr).value.elems;
              var v := if val == "null" then Null else if val == "true" then True else if val == "false" then False
                       else if j.loads(val).Some? then j.loads(val).value else Text(val);
              Effect(j, ops, elems, v, newJson, number)
  {
    hide IndexOf, Shown, Effect;
    ElementsRead(j, jsonStr);
    ElementShown(j);
    ValueRead(j, val);
    if Elements(j, jsonStr).Some? {
      StepEffect(j, ops, Elements(j, jsonStr).value, Value(j, val), sizeOrIndex);
    }
    newJson, newVal, number := jsonStr, val, sizeOrIndex;
    var root := j.loads(if jsonStr == "" then "[]" else jsonStr);
    if root == None || !root.value.Array? {
      return SYS_INVALID_INPUT_PARAM, newJson, newVal, number;
    }
    var elems := root.value.elems;
    var size := |elems|;
    var jval: Json;
    if val == "null" {
      jval := Null;
    } else if val == "true" {
      jval := True;
    } else if val == "false" {
      jval := False;
    } else {
      jval := j.LoadOrText(val);
    }
    var found := Search(elems, jval);
    if ops == "add" {
      if jval.IsBoolean() || found == size {
        elems := elems + [jval];
        size := |elems|;
      }
    } else if ops == "find" || ops == "rm" {
      if found < size {
        if ops == "rm" {
          elems := elems[..found] + elems[found + 1..];
          size := |elems|;
        } else {
          size := found;
        }
      } else if ops == "find" {
        size := -1;
      }
    } else if ops == "get" {
      if !(0 <= sizeOrIndex < |elems|) {
        return SYS_INVALID_INPUT_PARAM, newJson, newVal, number;
      }
      newVal := Shown(j, elems[sizeOrIndex]);
      size := sizeOrIndex;
    }
    status, newJson, number := 0, j.dumps(Array(elems)), size;
  }

  /** What "add", "find" and "rm" do to an array, and the number they give. */
  ghost predicate Effect(j: Jansson, op: string, elems: seq<Json>, v: Json, doc: string, number: int) {
    && (op == "add" ==> Added(j, elems, v, doc, number))
    && (op == "find" ==> FoundAt(j, elems, v, doc, number))
    && (op == "rm" ==> Removed(j, elems, v, doc, number))
  }

  /** A boolean is always appended, another value when it is not there yet. */
  ghost predicate Added(j: Jansson, elems: seq<Json>, v: Json, doc: string, number: int) {
    if v == True || v == False || v !in elems then
      doc == j.dumps(Array(elems + [v])) && number == |elems| + 1
    else
      doc == j.dumps(Array(elems)) && number == |elems|
  }

  /** The first position, or -1. */
  ghost predicate FoundAt(j: Jansson, elems: seq<Json>, v: Json, doc: string, number: int) {
    && doc == j.dumps(Array(elems)) && (v !in elems ==> number == -1)
    && forall k :: 0 <= k < |elems| && elems[k] == v && v !in elems[..k] ==> number == k
  }

  /** The first equal element is taken out. */
  ghost predicate Removed(j: Jansson, elems: seq<Json>, v: Json, doc: string, number: int) {
    && (v !in elems ==> doc == j.dumps(Array(elems)) && number == |elems|)
    && forall k :: 0 <= k < |elems| && elems[k] == v && v !in elems[..k] ==>
         doc == j.dumps(Array(elems[..k] + elems[k + 1..])) && number == |elems| - 1
  }

  lemma {:induction false} StepEffect(j: Jansson, op: string, elems: seq<Json>, v: Json, idx: int)
    ensures Step(op, elems, v, idx).Some? <==> op == "get" ==> 0 <= idx < |elems|
    ensures var out := Step(op, elems, v, idx);
            out.Some? ==>
              Effect(j, op, elems, v, j.dumps(Array(out.value.elems)), out.value.number) &&
              (op == "get" ==> out.value == Outcome(elems, idx)) &&
              (op !in {"add", "find", "rm", "get"} ==> out.value == Outcome(elems, |elems|))
  {
    hide Added, FoundAt, Removed, IndexOf, Without;
    if op == "add" {
      AddEffect(j, elems, v, idx);
    } else if op == "find" {
      FindEffect(j, elems, v, idx);
    } else if op == "rm" {
      RmEffect(j, elems, v, idx);
    }
  }

  lemma {:induction false} AddEffect(j: Jansson, elems: seq<Json>, v: Json, idx: int)
    ensures var out := Step("add", elems, v, idx);
            out.Some? && Added(j, elems, v, j.dumps(Array(out.value.elems)), out.value.number)
  {
    hide IndexOf;
    InByIndex(elems, v);
  }

  lemma {:induction false} FindEffect(j: Jansson, elems: seq<Json>, v: Json, idx: int)
    ensures var out := Step("find", elems, v, idx);
            out.Some? && FoundAt(j, elems, v, j.dumps(Array(out.value.elems)), out.value.number)
  {
    hide IndexOf, Step;
    StepFind(elems, v, idx);
    InByIndex(elems, v);
    FirstOnly(elems, v);
  }

  lemma {:induction false} RmEffect(j: Jansson, elems: seq<Json>, v: Json, idx: int)
    ensures var out := Step("rm", elems, v, idx);
            out.Some? && Removed(j, elems, v, j.dumps(Array(out.value.elems)), out.value.number)
  {
    hide IndexOf, Step;
    StepRm(elems, v, idx);
    InByIndex(elems, v);
    FirstOnly(elems, v);
  }

  lemma {:induction false} FirstOnly(elems: seq<Json>, v: Json)
    ensures forall k :: 0 <= k < |elems| && elems[k] == v && v !in elems[..k] ==> IndexOf(elems, v) == k
  {
    forall k | 0 <= k < |elems| && elems[k] == v && v !in elems[..k]
      ensures IndexOf(elems, v) == k
    {
      FirstIndex(elems, v, k);
    }
  }

  lemma {:induction false} ElementShown(j: Jansson)
    ensures forall v: Json {:trigger Shown(j, v)} :: Shown(j, v) == if v.Text? then v.s else j.dumps(v)
  {
  }

  lemma {:induction false} ElementsRead(j: Jansson, text: string)
    ensures var doc := j.loads(if text == "" then "[]" else text);
            Elements(j, text) == if doc.Some? && doc.value.Array? then Some(doc.value.elems) else None
  {
  }

  lemma {:induction false} ValueRead(j: Jansson, val: string)
    ensures Value(j, val) == if val == "null" then Null else if val == "true" then True
                             else if val == "false" then False
                             else if j.loads(val).Some? then j.loads(val).value else Text(val)
  {
  }

  // ---- properties of runs ----

  /** Only booleans may occur more than once. */
  ghost predicate Deduplicated(elems: seq<Json>) {
    forall i, k :: 0 <= i < k < |elems| && elems[i] == elems[k] ==> elems[i].IsBoolean()
  }

  lemma {:induction false} StepKeepsDeduplicated(op: string, elems: seq<Json>, v: Json, idx: int)
    requires Deduplicated(elems) && Step(op, elems, v, idx).Some?
    ensures Deduplicated(Step(op, elems, v, idx).value.elems)
  {
    var k, out := IndexOf(elems, v), Step(op, elems, v, idx).value.elems;
    if op == "rm" && k < |elems| {
      assert forall i :: 0 <= i < |out| ==> out[i] == elems[if i < k then i else i + 1];
    }
  }

  function Run(j: Jansson, text: string, calls: seq<Call>): string {
    if calls == [] then text else After(j, Run(j, text, calls[..|calls| - 1]), calls[|calls| - 1])
  }

  /** The text holds no array, or one in which only booleans occur more than once. */
  ghost predicate TextDeduplicated(j: Jansson, text: string) {
    Elements(j, text).Some? ==> Deduplicated(Elements(j, text).value)
  }

  /** From the empty text, or any array without repeated non-booleans, every run of calls keeps it so. */
  lemma {:induction false} RunKeepsDeduplicated(j: Jansson, text: string, calls: seq<Call>)
    requires j.Faithful() && TextDeduplicated(j, text)
    ensures TextDeduplicated(j, Run(j, text, calls))
  {
    hide After, TextDeduplicated;
    if calls != [] {
      var n := |calls| - 1;
      RunKeepsDeduplicated(j, text, calls[..n]);
      CallKeepsDeduplicated(j, Run(j, text, calls[..n]), calls[n]);
    }
  }

  lemma {:induction false} CallKeepsDeduplicated(j: Jansson, text: string, c: Call)
    requires j.Faithful() && TextDeduplicated(j, text)
    ensures TextDeduplicated(j, After(j, text, c))
  {
    hide Step, Value;
    var elems := Elements(j, text);
    if elems.Some? {
      var out := Step(c.op, elems.value, Value(j, c.val), c.idx);
      if out.Some? {
        StepKeepsDeduplicated(c.op, elems.value, Value(j, c.val), c.idx);
        DumpedElements(j, out.value.elems);
      }
    }
  }

  /** An array that was dumped reads back as itself or not at all. */
  lemma {:induction false} DumpedElements(j: Jansson, elems: seq<Json>)
    requires j.Faithful()
    ensures Elements(j, j.dumps(Array(elems))) == None || Elements(j, j.dumps(Array(elems))) == Some(elems)
    ensures j.loads(j.dumps(Array(elems))).Some? ==> Elements(j, j.dumps(Array(elems))).Some?
  {
    var v := Array(elems);
    assert j.loads(j.dumps(v)) == None || j.loads(j.dumps(v)) == Some(v);
  }

  /**
   * Where any array of certain values reads back, and all that are read or passed in are such values, a run from an
   * array never leaves it unreadable.
   */
  lemma {:induction false} RunStaysReadable(j: Jansson, values: iset<Json>, text: string, calls: seq<Call>)
    requires j.Faithful() && j.Carries(values) && Elements(j, text).Some?
    requires forall i :: 0 <= i < |calls| ==> Value(j, calls[i].val) in values
    ensures Elements(j, Run(j, text, calls)).Some?
  {
    hide After, Elements, Value;
    if calls != [] {
      var n := |calls| - 1;
      RunStaysReadable(j, values, text, calls[..n]);
      CallStaysReadable(j, values, Run(j, text, calls[..n]), calls[n]);
    }
  }

  lemma {:induction false} CallStaysReadable(j: Jansson, values: iset<Json>, text: string, c: Call)
    requires j.Faithful() && j.Carries(values) && Elements(j, text).Some? && Value(j, c.val) in values
    ensures Elements(j, After(j, text, c)).Some?
  {
    hide Step, Value;
    var elems, v := Elements(j, text).value, Value(j, c.val);
    var out := Step(c.op, elems, v, c.idx);
    if out.Some? {
      assert AllIn(elems, values);
      StepCarried(c.op, elems, v, c.idx, values);
      assert AllIn(out.value.elems, values);
      DumpedElements(j, out.value.elems);
    }
  }

  /** An operation brings in no element but its value. */
  lemma {:induction false} StepCarried(op: string, elems: seq<Json>, v: Json, idx: int, values: iset<Json>)
    requires Step(op, elems, v, idx).Some? && v in values && AllIn(elems, values)
    ensures AllIn(Step(op, elems, v, idx).value.elems, values)
  {
  }

  // ---- two calls ----

  /** After "add", "find" gives the first position holding the value; what was there before keeps its place. */
  lemma {:induction false} AddThenFind(elems: seq<Json>, v: Json, idx: int)
    ensures var added := Step("add", elems, v, idx).value.elems;
            var at := Step("find", added, v, idx).value.number;
            elems <= added && 0 <= at < |added| && added[at] == v && (forall i :: 0 <= i < at ==> added[i] != v) &&
            (v in elems ==> at == IndexOf(elems, v)) && (v !in elems ==> at == |elems|)
  {
    var added := Step("add", elems, v, idx).value.elems;
    var k := IndexOf(added, v);
    assert added == elems || added == elems + [v];
    assert v in elems <==> IndexOf(elems, v) < |elems|;
    assert forall i :: 0 <= i < |elems| ==> added[i] == elems[i];
    if added == elems + [v] {
      assert added[|elems|] == v;
    }
  }

  /**
   * "rm" takes out the first occurrence and keeps the others in order, and "find" then gives -1 if and only if
   * there was at most one.
   */
  lemma {:induction false} RmThenFind(elems: seq<Json>, v: Json, idx: int)
    ensures var removed := Step("rm", elems, v, idx).value.elems;
            removed == (if v in elems then elems[..IndexOf(elems, v)] + elems[IndexOf(elems, v) + 1..] else elems) &&
            (Step("find", removed, v, idx).value.number == -1 <==> multiset(elems)[v] <= 1)
  {
    hide IndexOf, Step;
    StepRm(elems, v, idx);
    StepFind(Step("rm", elems, v, idx).value.elems, v, idx);
    var removed := Step("rm", elems, v, idx).value.elems;
    InByIndex(elems, v);
    InByIndex(removed, v);
    if v in elems {
      RemovedCount(elems, v);
    }
  }

  lemma {:induction false} StepRm(elems: seq<Json>, v: Json, idx: int)
    ensures var k := IndexOf(elems, v);
            Step("rm", elems, v, idx) ==
            Some(if k < |elems| then Outcome(Without(elems, k), |elems| - 1) else Outcome(elems, |elems|))
  {
  }

  lemma {:induction false} StepFind(elems: seq<Json>, v: Json, idx: int)
    ensures var k := IndexOf(elems, v);
            Step("find", elems, v, idx) == Some(Outcome(elems, if k < |elems| then k else -1))
  {
  }

  /** A value that is no boolean occurs at most once in an array without repetitions, so "rm" leaves none to find. */
  lemma {:induction false} RmThenFindNone(elems: seq<Json>, v: Json, idx: int)
    requires Deduplicated(elems) && !v.IsBoolean()
    ensures Step("find", Step("rm", elems, v, idx).value.elems, v, idx).value.number == -1
  {
    hide IndexOf;
    RmThenFind(elems, v, idx);
    InByIndex(elems, v);
    var k := IndexOf(elems, v);
    if k < |elems| {
      forall i | 0 <= i < |elems| - 1
        ensures Without(elems, k)[i] != v
      {
        assert Without(elems, k)[i] == elems[if i < k then i else i + 1];
      }
      InByIndex(Without(elems, k), v);
    }
  }

  lemma {:induction false} InByIndex(elems: seq<Json>, v: Json)
    ensures v in elems <==> IndexOf(elems, v) < |elems|
    ensures v in elems <==> multiset(elems)[v] > 0
  {
  }

  lemma {:induction false} RemovedCount(elems: seq<Json>, v: Json)
    requires v in elems
    ensures IndexOf(elems, v) < |elems|
    ensures multiset(elems)[v] == multiset(Without(elems, IndexOf(elems, v)))[v] + 1
  {
    var k := IndexOf(elems, v);
    assert elems == elems[..k] + [v] + elems[k + 1..];
    assert multiset(elems) == multiset(Without(elems, k)) + multiset{v};
  }

  /** null is listed like any other value: once. */
  lemma {:induction false} NullIsAddedOnce(j: Jansson, elems: seq<Json>, idx: int)
    ensures var once := Step("add", elems, Value(j, "null"), idx).value.elems;
            Null in once && (Null !in elems ==> once == elems + [Null]) &&
            Step("add", once, Value(j, "null"), idx).value.elems == once
  {
    AddThenFind(elems, Null, idx);
    var once := Step("add", elems, Null, idx).value.elems;
    assert IndexOf(once, Null) < |once|;
  }

  /**
   * Adding a value and finding it, through the document text in between: the position is where the value first was,
   * or the end. The second call fails only when the library does not read back what it dumped.
   */
  method AddAndFind(j: Jansson, jsonStr: string, val: string) returns (added: int, found: int, number: int)
    requires j.Faithful()
    ensures added == 0 <==> Elements(j, jsonStr).Some?
    ensures added == 0 && found == 0 ==>
              number == IndexOf(Elements(j, jsonStr).value, Value(j, val))
    ensures added == 0 && found != 0 ==>
              var elems, v := Elements(j, jsonStr).value, Value(j, val);
              j.loads(j.dumps(Array(elems))) == None || j.loads(j.dumps(Array(elems + [v]))) == None
  {
    var doc, newVal;
    added, doc, newVal, number := MsiJsonArrayOps(j, jsonStr, val, "add", 0);
    found := -1;
    if added == 0 {
      ghost var elems, v := Elements(j, jsonStr).value, Value(j, val);
      ghost var out := Step("add", elems, v, 0).value.elems;
      DumpedElements(j, out);
      AddThenFind(elems, v, 0);
      found, doc, newVal, number := MsiJsonArrayOps(j, doc, val, "find", 0);
    }
  }

  /** Removing a value and finding it: -1 if and only if it was there at most once. */
  method RemoveAndFind(j: Jansson, jsonStr: string, val: string) returns (removed: int, found: int, number: int)
    requires j.Faithful()
    ensures removed == 0 <==> Elements(j, jsonStr).Some?
    ensures removed == 0 && found == 0 ==>
              (number == -1 <==> multiset(Elements(j, jsonStr).value)[Value(j, val)] <= 1)
    ensures removed == 0 && found != 0 ==>
              j.loads(j.dumps(Array(Step("rm", Elements(j, jsonStr).value, Value(j, val), 0).value.elems))) == None
  {
    var doc, newVal;
    removed, doc, newVal, number := MsiJsonArrayOps(j, jsonStr, val, "rm", 0);
    found := -1;
    if removed == 0 {
      ghost var elems, v := Elements(j, jsonStr).value, Value(j, val);
      DumpedElements(j, Step("rm", elems, v, 0).value.elems);
      RmThenFind(elems, v, 0);
      found, doc, newVal, number := MsiJsonArrayOps(j, doc, val, "find", 0);
    }
  }
}
