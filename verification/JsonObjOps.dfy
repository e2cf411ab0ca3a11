/** `msi_json_objops`: a batch of key-value operations folded over a document. */
module JsonObjOps {
  import opened Wrappers
  import opened Json

  const SYS_INVALID_INPUT_PARAM := -130000

  function Value(j: Jansson, text: string): Json {
    if text == "null" then Null else j.LoadOrText(text)
  }

  /** `json_object_get`: nothing for a missing key, or when the document is an array. */
  function Field(root: Json, key: string): Option<Json> {
    if root.Object? && key in root.fields then Some(root.fields[key]) else None
  }

  /** What an operation does to the value of its key. */
  function FieldStep(op: string, data: Option<Json>, v: Json): Option<Json> {
    if op == "add" then
      if data.Some? && data.value.Array? then Some(Array(data.value.elems + [v])) else Some(v)
    else if op == "set" then
      Some(v)
    else if op == "rm" then
      if data.Some? && data.value.Array? then
        var k := IndexOf(data.value.elems, v);
        if k < |data.value.elems| then Some(Array(Without(data.value.elems, k))) else data
      else if data == Some(v) then None
      else data
    else
      data
  }

  /** A document that is an array has no keys and stays as it is. */
  function WithField(root: Json, key: string, data: Option<Json>): Json {
    if !root.Object? then root
    else if data.Some? then Object(root.fields[key := data.value])
    else Object(root.fields - {key})
  }

  function Step(op: string, root: Json, key: string, v: Json): Json {
    WithField(root, key, FieldStep(op, Field(root, key), v))
  }

  /** The document after a batch. */
  function Fold(op: string, root: Json, batch: seq<(string, Json)>): Json {
    if batch == [] then root
    else
      var (key, v) := batch[|batch| - 1];
      Step(op, Fold(op, root, batch[..|batch| - 1]), key, v)
  }

  /** The text "get" hands back; no text for a missing key or a number, which are not dumped. */
  function Shown(j: Jansson, data: Option<Json>): Option<string> {
    match data
    case Some(Null) => Some("null")
    case Some(True) => Some("true")
    case Some(False) => Some("false")
    case Some(Text(s)) => Some(s)
    case Some(Array(es)) => Some(j.dumps(Array(es)))
    case Some(Object(fs)) => Some(j.dumps(Object(fs)))
    case _ => None
  }

  function Batch(j: Jansson, keys: seq<string>, values: seq<Option<string>>): (batch: seq<(string, Json)>)
    requires |keys| == |values| && forall k :: 0 <= k < |values| ==> values[k].Some?
    ensures |batch| == |keys|
    ensures forall k :: 0 <= k < |keys| ==> batch[k] == (keys[k], Value(j, values[k].value))
  {
    seq(|keys|, k requires 0 <= k < |keys| => (keys[k], Value(j, values[k].value)))
  }

  /** One "add", "set" or "rm" on the document. */
  method Apply(ops: string, root: Json, key: string, data: Option<Json>, jval: Json) returns (out: Json)
    requires data == Field(root, key) && ops != "get"
    ensures out == Step(ops, root, key, jval)
  {
    NoChange(root, key);
    out := root;
    if ops == "add" {
      if data.Some? && data.value.Array? {
        out := WithField(root, key, Some(Array(data.value.elems + [jval])));
      } else {
        out := WithField(root, key, Some(jval));
      }
    } else if ops == "set" {
      out := WithField(root, key, Some(jval));
    } else if ops == "rm" {
      if data.Some? {
        if data.value.Array? {
          var found := Search(data.value.elems, jval);
          if found < |data.value.elems| {
            out := WithField(root, key, Some(Array(Without(data.value.elems, found))));
          }
        } else if data.value == jval {
          out := WithField(root, key, None);
        }
      }
    }
  }

  /** The service: "get" replaces the values in place, the other operations fold the batch over the document. */
  method MsiJsonObjOps(j: Jansson, jsonStr: string, keys: seq<string>, values: array<Option<string>>, ops: string)
      returns (status: int, newJson: string)
    requires |keys| == values.Length && forall k :: 0 <= k < values.Length ==> values[k].Some?
    modifies values
    ensures status == 0 <==> j.loads(if jsonStr == "" then "{}" else jsonStr).Some?
    ensures status != 0 ==> newJson == jsonStr && values[..] == old(values[..])
    ensures status == 0 ==>
              var root := j.loads(if jsonStr == "" then "{}" else jsonStr).value;
              newJson == j.dumps(Fold(ops, root, Batch(j, keys, old(values[..])))) &&
              forall k :: 0 <= k < |keys| ==>
                values[k] == if ops == "get" then Shown(j, Field(root, keys[k])) else old(values[k])
    ensures status == 0 && ops == "get" ==>
              var root := j.loads(if jsonStr == "" then "{}" else jsonStr).value;
              newJson == j.dumps(root) &&
              forall k :: 0 <= k < |keys| ==>
                if !root.Object? || keys[k] !in root.fields then values[k] == None
                else
                  match root.fields[keys[k]]
                  case Null => values[k] == Some("null")
                  case True => values[k] == Some("true")
                  case False => values[k] == Some("false")
                  case Text(s) => values[k] == Some(s)
                  case Array(es) => values[k] == Some(j.dumps(Array(es)))
                  case Object(fs) => values[k] == Some(j.dumps(Object(fs)))
                  case Integer(_) => values[k] == None
                  case Real(_, _) => values[k] == None
    ensures status == 0 && ops !in {"get", "add", "set", "rm"} ==>
              newJson == j.dumps(j.loads(if jsonStr == "" then "{}" else jsonStr).value)
  {
    hide Step, Shown, Field, Value;
    var loaded := j.loads(if jsonStr == "" then "{}" else jsonStr);
    if loaded == None {
      return SYS_INVALID_INPUT_PARAM, jsonStr;
    }
    var root := loaded.value;
    ghost var batch := Batch(j, keys, values[..]);
    for ik := 0 to |keys|
      invariant root == Fold(ops, loaded.value, batch[..ik])
      invariant ops == "get" ==> root == loaded.value
      invariant forall k :: 0 <= k < ik ==>
                  values[k] == if ops == "get" then Shown(j, Field(root, keys[k])) else old(values[k])
      invariant forall k :: ik <= k < |keys| ==> values[k] == old(values[k])
    {
      var key := keys[ik];
      var jval := Value(j, values[ik].value);
      var data := Field(root, key);
      assert batch[..ik + 1][..ik] == batch[..ik] && batch[..ik + 1][ik] == (key, jval);
      if ops == "get" {
        GetChangesNothing(root, key, jval);
        values[ik] := Shown(j, data);
      } else {
        root := Apply(ops, root, key, data, jval);
      }
    }
    assert batch[..|keys|] == batch;
    status, newJson := 0, j.dumps(root);
    NoOperation(ops, loaded.value, batch);
    forall k | 0 <= k < |keys|
      ensures ShownMeans(j, loaded.value, keys[k], Shown(j, Field(loaded.value, keys[k])))
    {
      ShownIs(j, loaded.value, keys[k]);
    }
  }

  /** The text of a key. */
  ghost predicate ShownMeans(j: Jansson, root: Json, key: string, text: Option<string>) {
    if !root.Object? || key !in root.fields then text == None
    else
      match root.fields[key]
      case Null => text == Some("null")
      case True => text == Some("true")
      case False => text == Some("false")
      case Text(s) => text == Some(s)
      case Array(es) => text == Some(j.dumps(Array(es)))
      case Object(fs) => text == Some(j.dumps(Object(fs)))
      case Integer(_) => text == None
      case Real(_, _) => text == None
  }

  lemma {:induction false} ShownIs(j: Jansson, root: Json, key: string)
    ensures ShownMeans(j, root, key, Shown(j, Field(root, key)))
  {
  }

  /** "get", and anything that is no operation, leaves the document. */
  lemma {:induction false} NoOperation(op: string, root: Json, batch: seq<(string, Json)>)
    ensures op !in {"add", "set", "rm"} ==> Fold(op, root, batch) == root
  {
    if batch != [] {
      NoOperation(op, root, batch[..|batch| - 1]);
      NoChange(root, batch[|batch| - 1].0);
    }
  }

  lemma {:induction false} NoChange(root: Json, key: string)
    ensures WithField(root, key, Field(root, key)) == root
  {
    if root.Object? {
      if key in root.fields {
        assert root.fields[key := root.fields[key]] == root.fields;
      } else {
        assert root.fields - {key} == root.fields;
      }
    }
  }

  lemma {:induction false} GetChangesNothing(root: Json, key: string, v: Json)
    ensures Step("get", root, key, v) == root
  {
    NoChange(root, key);
  }

  // ---- batches are key-local ----

  /** The values a batch gives for one key, in order. */
  function ValuesFor(batch: seq<(string, Json)>, key: string): seq<Json> {
    if batch == [] then []
    else
      var (k, v) := batch[|batch| - 1];
      ValuesFor(batch[..|batch| - 1], key) + if k == key then [v] else []
  }

  function FieldFold(op: string, data: Option<Json>, vs: seq<Json>): Option<Json> {
    if vs == [] then data else FieldStep(op, FieldFold(op, data, vs[..|vs| - 1]), vs[|vs| - 1])
  }

  /** The final value at a key is the fold of the pairs with that key alone; no other key has a part in it. */
  lemma {:induction false} FoldIsKeyLocal(op: string, root: Json, batch: seq<(string, Json)>, key: string)
    requires root.Object?
    ensures Fold(op, root, batch).Object?
    ensures Field(Fold(op, root, batch), key) == FieldFold(op, Field(root, key), ValuesFor(batch, key))
  {
    if batch != [] {
      var n := |batch| - 1;
      var (k, v) := batch[n];
      FoldIsKeyLocal(op, root, batch[..n], key);
      if k == key {
        var vs := ValuesFor(batch[..n], key);
        assert (vs + [v])[..|vs|] == vs;
      } else {
        assert ValuesFor(batch, key) == ValuesFor(batch[..n], key);
      }
    }
  }

  /** A document without keys stays as it is. */
  lemma {:induction false} FoldKeylessDocument(op: string, root: Json, batch: seq<(string, Json)>)
    requires !root.Object?
    ensures Fold(op, root, batch) == root
  {
    if batch != [] {
      FoldKeylessDocument(op, root, batch[..|batch| - 1]);
    }
  }

  /** Batches that give every key the same values in the same order give the same document. */
  lemma {:induction false} FoldOrderPerKey(op: string, root: Json, a: seq<(string, Json)>, b: seq<(string, Json)>)
    requires forall key :: ValuesFor(a, key) == ValuesFor(b, key)
    ensures Fold(op, root, a) == Fold(op, root, b)
  {
    if !root.Object? {
      FoldKeylessDocument(op, root, a);
      FoldKeylessDocument(op, root, b);
      return;
    }
    FoldIsKeyLocal(op, root, a, "");
    FoldIsKeyLocal(op, root, b, "");
    var x, y := Fold(op, root, a), Fold(op, root, b);
    forall key
      ensures Field(x, key) == Field(y, key)
    {
      FoldIsKeyLocal(op, root, a, key);
      FoldIsKeyLocal(op, root, b, key);
    }
    forall key
      ensures key in x.fields <==> key in y.fields
      ensures key in x.fields ==> x.fields[key] == y.fields[key]
    {
      assert Field(x, key) == Field(y, key);
    }
    assert x.fields == y.fields;
  }

  lemma {:induction false} ValuesForCount(batch: seq<(string, Json)>, key: string, v: Json)
    ensures multiset(ValuesFor(batch, key))[v] == multiset(batch)[(key, v)]
  {
    if batch != [] {
      var n := |batch| - 1;
      var (k, w) := batch[n];
      ValuesForCount(batch[..n], key, v);
      assert batch == batch[..n] + [batch[n]];
      assert multiset(batch) == multiset(batch[..n]) + multiset{batch[n]};
      var vs := ValuesFor(batch[..n], key);
      assert multiset(vs + [w]) == multiset(vs) + multiset{w};
    }
  }

  lemma {:induction false} DistinctKeysOnce(batch: seq<(string, Json)>, key: string)
    requires forall i, k :: 0 <= i < k < |batch| ==> batch[i].0 != batch[k].0
    ensures |ValuesFor(batch, key)| <= 1
    ensures (forall i :: 0 <= i < |batch| ==> batch[i].0 != key) ==> ValuesFor(batch, key) == []
  {
    if batch != [] {
      DistinctKeysOnce(batch[..|batch| - 1], key);
    }
  }

  lemma {:induction false} SameValues(a: seq<(string, Json)>, b: seq<(string, Json)>, key: string)
    requires multiset(a) == multiset(b)
    requires forall i, k :: 0 <= i < k < |a| ==> a[i].0 != a[k].0
    ensures ValuesFor(a, key) == ValuesFor(b, key)
  {
    DistinctKeysOnce(a, key);
    hide ValuesFor;
    var x, y := ValuesFor(a, key), ValuesFor(b, key);
    forall v
      ensures multiset(x)[v] == multiset(y)[v]
    {
      ValuesForCount(a, key, v);
      ValuesForCount(b, key, v);
    }
    assert multiset(x) == multiset(y);
    SingletonSame(x, y);
  }

  lemma {:induction false} SingletonSame<T>(x: seq<T>, y: seq<T>)
    requires |x| <= 1 && multiset(x) == multiset(y)
    ensures x == y
  {
    assert |x| == |multiset(x)| && |y| == |multiset(y)|;
    if |x| == 1 {
      assert x[0] in multiset(y);
    }
  }

  /** With different keys the order of a batch does not matter at all. */
  lemma {:induction false} FoldAnyOrder(op: string, root: Json, a: seq<(string, Json)>, b: seq<(string, Json)>)
    requires multiset(a) == multiset(b)
    requires forall i, k :: 0 <= i < k < |a| ==> a[i].0 != a[k].0
    ensures Fold(op, root, a) == Fold(op, root, b)
  {
    forall key
      ensures ValuesFor(a, key) == ValuesFor(b, key)
    {
      SameValues(a, b, key);
    }
    hide Fold, ValuesFor;
    FoldOrderPerKey(op, root, a, b);
  }

  // ---- each operation ----

  /**
   * After a "set" batch a key holds the last value the batch gives for it, and what it held when there is none.
   */
  lemma {:induction false} SetHoldsLast(root: Json, batch: seq<(string, Json)>, key: string)
    requires root.Object?
    ensures var after := Fold("set", root, batch);
            after.Object? &&
            (forall i :: 0 <= i < |batch| && LastFor(batch, i) && batch[i].0 == key ==>
              key in after.fields && after.fields[key] == batch[i].1) &&
            ((forall i :: 0 <= i < |batch| ==> batch[i].0 != key) ==>
              (key in after.fields <==> key in root.fields) &&
              (key in root.fields ==> after.fields[key] == root.fields[key]))
  {
    hide Fold, LastFor;
    SetOthers(root, batch, key);
    forall i | 0 <= i < |batch| && LastFor(batch, i) && batch[i].0 == key
      ensures Field(Fold("set", root, batch), key) == Some(batch[i].1)
    {
      SetLast(root, batch, i);
    }
  }

  lemma {:induction false} SetLast(root: Json, batch: seq<(string, Json)>, i: nat)
    requires root.Object? && LastFor(batch, i)
    ensures Field(Fold("set", root, batch), batch[i].0) == Some(batch[i].1)
  {
    hide Step, Field;
    var n := |batch| - 1;
    if i < n {
      SetLast(root, batch[..n], i);
    }
    SetOthers(root, batch[..n], batch[i].0);
    SetStep(Fold("set", root, batch[..n]), batch[n].0, batch[n].1, batch[i].0);
  }

  lemma {:induction false} SetOthers(root: Json, batch: seq<(string, Json)>, key: string)
    requires root.Object?
    ensures Fold("set", root, batch).Object?
    ensures (forall i :: 0 <= i < |batch| ==> batch[i].0 != key) ==>
              Field(Fold("set", root, batch), key) == Field(root, key)
  {
    hide Step, Field;
    if batch != [] {
      var n := |batch| - 1;
      SetOthers(root, batch[..n], key);
      SetStep(Fold("set", root, batch[..n]), batch[n].0, batch[n].1, key);
    }
  }

  lemma {:induction false} SetStep(root: Json, key: string, v: Json, other: string)
    requires root.Object?
    ensures Step("set", root, key, v).Object?
    ensures Field(Step("set", root, key, v), other) == if other == key then Some(v) else Field(root, other)
  {
  }

  /** No later pair has the key of pair `i`. */
  ghost predicate LastFor(batch: seq<(string, Json)>, i: nat) {
    i < |batch| && forall l :: i < l < |batch| ==> batch[l].0 != batch[i].0
  }

  /** "add" appends to an array and otherwise replaces; no other key changes, nor a document that is an array. */
  lemma {:induction false} AddAlone(root: Json, key: string, v: Json)
    ensures var after := Fold("add", root, [(key, v)]);
            if !root.Object? then after == root
            else if key in root.fields && root.fields[key].Array? then
              after == Object(root.fields[key := Array(root.fields[key].elems + [v])])
            else
              after == Object(root.fields[key := v])
  {
    SinglePair("add", root, key, v);
  }

  /**
   * "rm" takes the first equal element out of an array, and deletes the key of any other value if and only if it
   * equals the given one; nothing else changes.
   */
  lemma {:induction false} RmAlone(root: Json, key: string, v: Json)
    ensures var after := Fold("rm", root, [(key, v)]);
            if !root.Object? || key !in root.fields then after == root
            else if root.fields[key].Array? then
              var es := root.fields[key].elems;
              (v !in es ==> after == root) &&
              forall k :: 0 <= k < |es| && es[k] == v && v !in es[..k] ==>
                after == Object(root.fields[key := Array(es[..k] + es[k + 1..])])
            else
              after == if root.fields[key] == v then Object(root.fields - {key}) else root
  {
    SinglePair("rm", root, key, v);
    NoChange(root, key);
    if root.Object? && key in root.fields && root.fields[key].Array? {
      var es := root.fields[key].elems;
      var n := IndexOf(es, v);
      forall k | 0 <= k < |es| && es[k] == v && v !in es[..k]
        ensures n == k
      {
        FirstIndex(es, v, k);
      }
    }
  }

  /** A batch does its pairs one after the other, each as if alone. */
  lemma {:induction false} OneByOne(op: string, root: Json, batch: seq<(string, Json)>, key: string, v: Json)
    ensures Fold(op, root, []) == root
    ensures Fold(op, root, batch + [(key, v)]) == Fold(op, Fold(op, root, batch), [(key, v)])
  {
    SinglePair(op, Fold(op, root, batch), key, v);
    assert (batch + [(key, v)])[..|batch|] == batch;
  }

  lemma {:induction false} SinglePair(op: string, root: Json, key: string, v: Json)
    ensures Fold(op, root, [(key, v)]) == Step(op, root, key, v)
  {
    var batch := [(key, v)];
    assert batch[..0] == [];
    assert Fold(op, root, batch[..0]) == root;
  }

  /** No later key is the same. */
  ghost predicate LastKey(keys: seq<string>, l: nat) {
    l < |keys| && forall i :: l < i < |keys| ==> keys[i] != keys[l]
  }

  lemma {:induction false} LastPair(j: Jansson, keys: seq<string>, values: seq<Option<string>>, l: nat)
    requires |keys| == |values| && (forall k :: 0 <= k < |values| ==> values[k].Some?) && LastKey(keys, l)
    ensures LastFor(Batch(j, keys, values), l)
    ensures Batch(j, keys, values)[l] == (keys[l], Value(j, values[l].value))
  {
  }

  /** The text that stands for a value that was passed as text. */
  lemma {:induction false} ValueText(j: Jansson, text: string)
    requires j.Faithful()
    ensures Shown(j, Some(Value(j, text))) ==
            Some(if text == "null" then "null" else if j.loads(text).Some? then j.dumps(j.loads(text).value) else text)
  {
  }

  /**
   * The service called twice, through the text in between: after a "set" batch, "get" gives for each key the text of
   * the last value set for it. The second call fails only when the library does not read back what it dumped.
   */
  method SetAndGet(j: Jansson, jsonStr: string, keys: seq<string>, vals: seq<string>)
      returns (set': int, got: int, texts: seq<Option<string>>)
    requires j.Faithful() && |keys| == |vals|
    ensures set' == 0 <==> j.loads(if jsonStr == "" then "{}" else jsonStr).Some?
    ensures set' == 0 && got == 0 && j.loads(if jsonStr == "" then "{}" else jsonStr).value.Object? ==>
              |texts| == |keys| &&
              forall k, l :: 0 <= k < |keys| && 0 <= l < |keys| && LastKey(keys, l) && keys[k] == keys[l] ==>
                texts[k] == Some(if vals[l] == "null" then "null"
                                 else if j.loads(vals[l]).Some? then j.dumps(j.loads(vals[l]).value) else vals[l])
  {
    hide Fold, Shown, Value, LastFor, LastKey;
    var values := new Option<string>[|vals|](i requires 0 <= i < |vals| => Some(vals[i]));
    var doc;
    ghost var before := values[..];
    set', doc := MsiJsonObjOps(j, jsonStr, keys, values, "set");
    got, texts := -1, [];
    if set' == 0 {
      ghost var root := j.loads(if jsonStr == "" then "{}" else jsonStr).value;
      ghost var batch := Batch(j, keys, before);
      ghost var after := Fold("set", root, batch);
      got, doc := MsiJsonObjOps(j, doc, keys, values, "get");
      texts := values[..];
      if got == 0 && root.Object? {
        forall k, l | 0 <= k < |keys| && 0 <= l < |keys| && LastKey(keys, l) && keys[k] == keys[l]
          ensures texts[k] == Some(if vals[l] == "null" then "null"
                                   else if j.loads(vals[l]).Some? then j.dumps(j.loads(vals[l]).value) else vals[l])
        {
          LastPair(j, keys, before, l);
          SetHoldsLast(root, batch, keys[l]);
          ValueText(j, vals[l]);
        }
      }
    }
  }

  // ---- adding and removing ----

  /** From the first `v` on there is nothing but `v`. */
  ghost predicate OnlyAtEnd(elems: seq<Json>, v: Json) {
    forall i :: IndexOf(elems, v) <= i < |elems| ==> elems[i] == v
  }

  /**
   * Adding a value to a key and removing it again gives back what was there if and only if the key was missing
   * and the value is no array, or the key holds an array in which the value occurs at most as its tail.
   */
  lemma {:induction false} AddThenRm(data: Option<Json>, v: Json)
    ensures FieldStep("rm", FieldStep("add", data, v), v) == data <==>
            match data
            case None => !v.Array?
            case Some(d) => d.Array? && OnlyAtEnd(d.elems, v)
    ensures (data.Some? ==> !data.value.Array?) && v.Array? ==>
              FieldStep("rm", FieldStep("add", data, v), v) == Some(v)
  {
    if data.Some? && data.value.Array? {
      AppendThenRemove(data.value.elems, v);
    } else if v.Array? {
      NotItsOwnElement(v);
    }
  }

  /**
   * On the whole document: adding and removing gives it back if and only if it is an array, which has no keys,
   * or does so at the key. In any case no other key changes.
   */
  lemma {:induction false} AddThenRmDocument(root: Json, key: string, v: Json)
    ensures var after := Step("rm", Step("add", root, key, v), key, v);
            (after == root <==>
              !root.Object? ||
              match Field(root, key)
              case None => !v.Array?
              case Some(d) => d.Array? && OnlyAtEnd(d.elems, v)) &&
            (root.Object? && key !in root.fields && v.Array? ==> after == Object(root.fields[key := v])) &&
            (forall other :: other != key ==> Field(after, other) == Field(root, other))
  {
    hide FieldStep;
    var data := Field(root, key);
    AddThenRm(data, v);
    if root.Object? {
      var added := FieldStep("add", data, v);
      var removed := FieldStep("rm", added, v);
      FieldOfWith(root, key, added);
      FieldOfWith(WithField(root, key, added), key, removed);
      WithFieldTwice(root, key, added, removed);
      NoChange(root, key);
    }
  }

  lemma {:induction false} FieldOfWith(root: Json, key: string, data: Option<Json>)
    requires root.Object?
    ensures WithField(root, key, data).Object? && Field(WithField(root, key, data), key) == data
  {
  }

  lemma {:induction false} WithFieldTwice(root: Json, key: string, data: Option<Json>, last: Option<Json>)
    requires root.Object?
    ensures WithField(WithField(root, key, data), key, last) == WithField(root, key, last)
  {
    var x, y := WithField(WithField(root, key, data), key, last), WithField(root, key, last);
    assert x.fields == y.fields;
  }

  /** An array keeps its elements, counted, when a value is added and removed. */
  lemma {:induction false} AddThenRmElements(elems: seq<Json>, v: Json)
    ensures var after := FieldStep("rm", FieldStep("add", Some(Array(elems)), v), v);
            after.Some? && after.value.Array? && multiset(after.value.elems) == multiset(elems) &&
            (v !in elems ==> after == Some(Array(elems)))
  {
    AppendThenRemove(elems, v);
  }

  lemma {:induction false} AppendThenRemove(elems: seq<Json>, v: Json)
    ensures IndexOf(elems + [v], v) < |elems| + 1
    ensures var after := Without(elems + [v], IndexOf(elems + [v], v));
            multiset(after) == multiset(elems) && (after == elems <==> OnlyAtEnd(elems, v)) &&
            (v !in elems ==> after == elems)
  {
    hide IndexOf, Without;
    AppendedIndex(elems, v);
    var k := IndexOf(elems, v);
    AppendedCount(elems, v, k);
    AppendedSame(elems, v, k);
  }

  lemma {:induction false} AppendedIndex(elems: seq<Json>, v: Json)
    ensures IndexOf(elems + [v], v) == IndexOf(elems, v)
    ensures v !in elems ==> IndexOf(elems, v) == |elems|
  {
    assert (elems + [v])[..|elems|] == elems;
  }

  lemma {:induction false} AppendedCount(elems: seq<Json>, v: Json, k: nat)
    requires k <= |elems| && (elems + [v])[k] == v
    ensures multiset(Without(elems + [v], k)) == multiset(elems)
  {
    var all := elems + [v];
    var after := Without(all, k);
    assert all == all[..k] + [v] + all[k + 1..];
    assert multiset(all) == multiset(after) + multiset{v};
    CancelOne(multiset(after), multiset(elems), v);
  }

  lemma {:induction false} AppendedSame(elems: seq<Json>, v: Json, k: nat)
    requires k <= |elems|
    ensures Without(elems + [v], k) == elems <==> forall i :: k <= i < |elems| ==> elems[i] == v
  {
    var all := elems + [v];
    var after := Without(all, k);
    assert |after| == |elems| && forall i :: 0 <= i < |elems| ==> after[i] == all[if i < k then i else i + 1];
    if after == elems {
      ShiftedTail(elems, v, k);
    }
    if forall i :: k <= i < |elems| ==> elems[i] == v {
      assert forall i :: 0 <= i < |elems| ==> after[i] == elems[i];
    }
  }

  lemma {:induction false} CancelOne<T>(a: multiset<T>, b: multiset<T>, v: T)
    requires a + multiset{v} == b + multiset{v}
    ensures a == b
  {
    forall x
      ensures a[x] == b[x]
    {
      assert (a + multiset{v})[x] == (b + multiset{v})[x];
    }
  }

  lemma {:induction false} ShiftedTail(elems: seq<Json>, v: Json, k: nat)
    requires k <= |elems| && forall i :: k <= i < |elems| ==> elems[i] == (elems + [v])[i + 1]
    ensures forall i :: k <= i < |elems| ==> elems[i] == v
    decreases |elems| - k
  {
    if k < |elems| {
      ShiftedTail(elems, v, k + 1);
    }
  }

  /** A finite value is not one of its own elements. */
  lemma {:induction false} NotItsOwnElement(v: Json)
    requires v.Array?
    ensures IndexOf(v.elems, v) == |v.elems|
  {
    forall i | 0 <= i < |v.elems|
      ensures v.elems[i] != v
    {
      assert v.elems[i] < v;
    }
  }
}
