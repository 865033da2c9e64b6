/** The definition registry (the contents of `definitions.json`, supplied as a parameter)
    and the required-field rule that both the validator and the construction tool apply. */
module Registry {
  import opened Wrappers
  import opened Text
  import opened Json

  /** One entry of a component's `inputs` schema; a component's inputs are kept in the
      order in which the schema lists them. `meta` is the rest of the entry (type,
      description), passed through untouched. */
  datatype Input = Input(name: string, required: bool, meta: Value)

  /** A component definition: `uid`, `type` (here `kind`), `description`, `inputs`, `example`. */
  datatype Definition = Definition(
    uid: string, kind: string, description: string, inputs: seq<Input>, example: Value)

  /** The registry document: a version tag and the component definitions in file order. */
  datatype Catalog = Catalog(version: string, components: seq<Definition>)

  /** `defs[i]` is the first definition whose identifier is the string `uid`. */
  predicate FirstWithUid(defs: seq<Definition>, i: int, uid: Value) {
    && 0 <= i < |defs|
    && JStr(defs[i].uid) == uid
    && forall j :: 0 <= j < i ==> JStr(defs[j].uid) != uid
  }

  /** `components.find((c) => c.uid === uid)`: the first definition whose identifier is
      strictly equal to `uid` (a non-string `uid` never matches). */
  function Find(defs: seq<Definition>, uid: Value): (r: Option<Definition>)
    ensures r.None? <==> forall i :: 0 <= i < |defs| ==> JStr(defs[i].uid) != uid
    ensures r.Some? ==> exists i :: FirstWithUid(defs, i, uid) && defs[i] == r.value
  {
    if defs == [] then None
    else if JStr(defs[0].uid) == uid then Some(defs[0])
    else
      var r := Find(defs[1..], uid);
      assert r.Some? ==> exists i :: FirstWithUid(defs, i, uid) && defs[i] == r.value by {
        if r.Some? {
          var i :| FirstWithUid(defs[1..], i, uid) && defs[1..][i] == r.value;
          assert defs[i + 1] == r.value;
          forall j | 0 <= j < i + 1 ensures JStr(defs[j].uid) != uid {
            if j > 0 { assert defs[j] == defs[1..][j - 1]; }
          }
          assert FirstWithUid(defs, i + 1, uid);
        }
      }
      r
  }

  /** `k` names a required input of the schema. */
  predicate IsRequiredInput(inputs: seq<Input>, k: string) {
    exists i :: 0 <= i < |inputs| && inputs[i].required && inputs[i].name == k
  }

  /** The required inputs absent from an object's keys, in schema order: the rule
      `schema.required && !(key in data)` applied to every schema entry in turn. */
  function MissingFields(inputs: seq<Input>, data: map<string, Value>): seq<string>
    decreases |inputs|
  {
    if inputs == [] then []
    else
      var last := inputs[|inputs| - 1];
      MissingFields(inputs[..|inputs| - 1], data)
        + (if last.required && last.name !in data then [last.name] else [])
  }

  /** A field is reported missing exactly when the schema requires it and `data` lacks it;
      the list is no longer than the schema. */
  lemma {:induction false} MissingFieldsSpec(inputs: seq<Input>, data: map<string, Value>)
    decreases |inputs|
    ensures |MissingFields(inputs, data)| <= |inputs|
    ensures forall k :: k in MissingFields(inputs, data) <==> IsRequiredInput(inputs, k) && k !in data
  {
    if inputs != [] {
      var n := |inputs| - 1;
      MissingFieldsSpec(inputs[..n], data);
      forall k | IsRequiredInput(inputs, k)
        ensures (inputs[n].required && inputs[n].name == k) || IsRequiredInput(inputs[..n], k)
      {
        var i :| 0 <= i < |inputs| && inputs[i].required && inputs[i].name == k;
        if i < n { assert inputs[..n][i] == inputs[i]; }
      }
      forall k | IsRequiredInput(inputs[..n], k) ensures IsRequiredInput(inputs, k) {
        var i :| 0 <= i < n && inputs[..n][i].required && inputs[..n][i].name == k;
        assert inputs[i] == inputs[..n][i];
      }
    }
  }

  /** The rule works entry by entry: over two schema parts laid end to end it reports the
      missing fields of the first part, then those of the second. */
  lemma {:induction false} MissingFieldsAppend(a: seq<Input>, b: seq<Input>, data: map<string, Value>)
    decreases |b|
    ensures MissingFields(a + b, data) == MissingFields(a, data) + MissingFields(b, data)
  {
    if b == [] {
      assert a + b == a;
    } else {
      var n := |b| - 1;
      assert (a + b)[..|a + b| - 1] == a + b[..n];
      MissingFieldsAppend(a, b[..n], data);
      var tail := if b[n].required && b[n].name !in data then [b[n].name] else [];
      ConcatAssoc(MissingFields(a, data), MissingFields(b[..n], data), tail);
    }
  }

  /** The same rule over a parsed `data` value, where `in` may throw. */
  function MissingRequired(inputs: seq<Input>, data: Value): (r: Outcome<seq<string>>)
    decreases |inputs|
    ensures data.JObj? ==> r == Normal(MissingFields(inputs, data.fields))
  {
    if inputs == [] then Normal([])
    else
      var last := inputs[|inputs| - 1];
      match MissingRequired(inputs[..|inputs| - 1], data)
      case TypeError => TypeError
      case Normal(before) =>
        if !last.required then
          assert before + [] == before;
          Normal(before)
        else match HasKey(data, last.name)
          case TypeError => TypeError
          case Normal(present) => Normal(before + (if present then [] else [last.name]))
  }

  /** One more schema entry adds its name exactly when it is required and absent. */
  lemma MissingFieldsStep(inputs: seq<Input>, i: nat, data: map<string, Value>)
    requires i < |inputs|
    ensures MissingFields(inputs[..i + 1], data) == MissingFields(inputs[..i], data) +
      (if inputs[i].required && inputs[i].name !in data then [inputs[i].name] else [])
  {
    assert inputs[..i + 1][..i] == inputs[..i];
  }

  /** One more schema entry: an optional input adds nothing, and a required one adds its
      name when the data lacks it. */
  lemma MissingRequiredStep(inputs: seq<Input>, i: nat, data: Value)
    requires i < |inputs|
    ensures !inputs[i].required ==>
      MissingRequired(inputs[..i + 1], data) == MissingRequired(inputs[..i], data)
    ensures (inputs[i].required && MissingRequired(inputs[..i], data).Normal? &&
             HasKey(data, inputs[i].name).Normal?) ==>
      MissingRequired(inputs[..i + 1], data) == Normal(MissingRequired(inputs[..i], data).value +
        (if HasKey(data, inputs[i].name).value then [] else [inputs[i].name]))
  {
    assert inputs[..i + 1][..i] == inputs[..i];
  }

  /** `in` throws exactly when some input is required and `data` is neither an object nor an
      array; otherwise the rule yields a list. */
  lemma {:induction false} MissingRequiredThrows(inputs: seq<Input>, data: Value)
    decreases |inputs|
    ensures MissingRequired(inputs, data).TypeError? <==>
      !(data.JObj? || data.JArr?) && exists i :: 0 <= i < |inputs| && inputs[i].required
  {
    if inputs != [] {
      var n := |inputs| - 1;
      MissingRequiredThrows(inputs[..n], data);
      if exists i :: 0 <= i < n && inputs[..n][i].required {
        var i :| 0 <= i < n && inputs[..n][i].required;
        assert inputs[i].required;
      }
      if exists i :: 0 <= i < |inputs| && inputs[i].required {
        var i :| 0 <= i < |inputs| && inputs[i].required;
        if i < n { assert inputs[..n][i].required; }
      }
    }
  }

  /** Keys of `data` that no input is named after have no effect on the rule. */
  lemma {:induction false} MissingFieldsIgnoresExtraKeys(
    inputs: seq<Input>, data: map<string, Value>, extra: map<string, Value>)
    requires forall i :: 0 <= i < |inputs| ==> inputs[i].name !in extra
    decreases |inputs|
    ensures MissingFields(inputs, data + extra) == MissingFields(inputs, data)
  {
    if inputs != [] {
      var n := |inputs| - 1;
      assert forall i :: 0 <= i < n ==> inputs[..n][i] == inputs[i];
      MissingFieldsIgnoresExtraKeys(inputs[..n], data, extra);
    }
  }

  /** The rule keeps schema order: a required input that `data` lacks is reported after the
      missing fields of the inputs before it and before those of the inputs after it. */
  lemma MissingFieldsInSchemaOrder(inputs: seq<Input>, data: map<string, Value>, i: nat)
    requires i < |inputs| && inputs[i].required && inputs[i].name !in data
    ensures MissingFields(inputs, data)
      == MissingFields(inputs[..i], data) + [inputs[i].name] + MissingFields(inputs[i + 1..], data)
  {
    var a, b := inputs[..i + 1], inputs[i + 1..];
    assert inputs == a + b;
    MissingFieldsAppend(a, b, data);
    assert a[..i] == inputs[..i];
  }
}
