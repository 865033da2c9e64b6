/** The block validator `validateUICPBlock`: a block is valid when its identifier names a
    known component and its data holds every input that component's schema requires. */
module Validator {
  import opened Wrappers
  import opened Json
  import opened Registry
  import opened Extractor

  /** What the validator returns: the verdict and the error messages in order. */
  datatype Validation = Validation(valid: bool, errors: seq<string>)

  /** The message for an identifier that no definition carries. */
  function UnknownUidError(uid: Value): string {
    "Unknown component UID: " + Display(uid)
  }

  /** The message for one required input the data lacks. */
  function MissingFieldError(key: string): string {
    "Missing required field: " + key
  }

  /** One message per missing field, in the same order. */
  function MissingFieldErrors(keys: seq<string>): seq<string> {
    seq(|keys|, i requires 0 <= i < |keys| => MissingFieldError(keys[i]))
  }

  /** One more missing field, one more message. */
  lemma MissingFieldErrorsSnoc(keys: seq<string>, key: string)
    ensures MissingFieldErrors(keys + [key]) == MissingFieldErrors(keys) + [MissingFieldError(key)]
  {
  }

  /** `validateUICPBlock(block)` against the registry document `catalog`. It throws
      (TypeError) when a required input is tested with `in` against data that is neither
      an object nor an array. */
  function Validate(catalog: Catalog, block: Block): Outcome<Validation> {
    match Find(catalog.components, block.uid)
    case None => Normal(Validation(false, [UnknownUidError(block.uid)]))
    case Some(c) =>
      match MissingRequired(c.inputs, block.data)
      case TypeError => TypeError
      case Normal(missing) =>
        var errors := MissingFieldErrors(missing);
        Normal(Validation(|errors| == 0, errors))
  }

  /** The validator as written: a lookup, then one pass over the schema entries that pushes
      a message for each required input the data lacks. */
  method ValidateBlock(catalog: Catalog, block: Block) returns (r: Outcome<Validation>)
    ensures r == Validate(catalog, block)
  {
    var component := Find(catalog.components, block.uid);
    if component.None? {
      return Normal(Validation(false, [UnknownUidError(block.uid)]));
    }
    var inputs := component.value.inputs;
    var errors: seq<string> := [];
    ghost var missing: seq<string> := [];
    var i := 0;
    while i < |inputs|
      invariant 0 <= i <= |inputs|
      invariant MissingRequired(inputs[..i], block.data) == Normal(missing)
      invariant errors == MissingFieldErrors(missing)
    {
      var input := inputs[i];
      MissingRequiredStep(inputs, i, block.data);
      if input.required {
        var present := HasKey(block.data, input.name);
        if present.TypeError? {
          MissingRequiredThrows(inputs, block.data);
          return TypeError;
        }
        if !present.value {
          MissingFieldErrorsSnoc(missing, input.name);
          errors := errors + [MissingFieldError(input.name)];
          missing := missing + [input.name];
        } else {
          assert missing + [] == missing;
        }
      }
      i := i + 1;
    }
    assert inputs[..i] == inputs;
    r := Normal(Validation(|errors| == 0, errors));
  }

  /** A block whose identifier no definition carries is invalid with exactly one message,
      whatever its data. */
  lemma UnknownIsInvalid(catalog: Catalog, block: Block)
    requires forall i :: 0 <= i < |catalog.components| ==> JStr(catalog.components[i].uid) != block.uid
    ensures Validate(catalog, block) == Normal(Validation(false, [UnknownUidError(block.uid)]))
  {
  }

  /** For object data the messages name, one for one and in schema order, the required
      inputs the data lacks; a key is named exactly when the schema requires it and the data
      does not hold it. */
  lemma ObjectDataErrors(catalog: Catalog, block: Block, c: Definition)
    requires Find(catalog.components, block.uid) == Some(c) && block.data.JObj?
    ensures Validate(catalog, block).Normal?
    ensures var errors := Validate(catalog, block).value.errors;
      var missing := MissingFields(c.inputs, block.data.fields);
      && |errors| == |missing|
      && (forall i :: 0 <= i < |missing| ==> errors[i] == MissingFieldError(missing[i]))
      && (forall k :: k in missing <==> IsRequiredInput(c.inputs, k) && k !in block.data.fields)
  {
    MissingFieldsSpec(c.inputs, block.data.fields);
  }

  /** The verdict is "valid" exactly when there are no messages, and a valid block names a
      definition by its string identifier. */
  lemma ValidIffNoErrors(catalog: Catalog, block: Block)
    requires Validate(catalog, block).Normal?
    ensures var v := Validate(catalog, block).value;
      (v.valid <==> v.errors == []) && (v.valid ==> block.uid.JStr?)
    ensures Validate(catalog, block).value.valid <==>
      exists i :: FirstWithUid(catalog.components, i, block.uid)
        && MissingRequired(catalog.components[i].inputs, block.data) == Normal([])
  {
  }

  /** Validation throws exactly when the identifier is known, the data is a truthy value
      other than an object or array, and the schema requires some input. */
  lemma ValidateThrows(catalog: Catalog, block: Block, c: Definition)
    requires Find(catalog.components, block.uid) == Some(c)
    ensures Validate(catalog, block).TypeError? <==>
      !(block.data.JObj? || block.data.JArr?) && exists i :: 0 <= i < |c.inputs| && c.inputs[i].required
  {
    MissingRequiredThrows(c.inputs, block.data);
  }

  /** Keys of the data that no input is named after do not change the verdict. */
  lemma ExtraKeysIgnored(catalog: Catalog, uid: Value, data: map<string, Value>,
                         extra: map<string, Value>, c: Definition)
    requires Find(catalog.components, uid) == Some(c)
    requires forall i :: 0 <= i < |c.inputs| ==> c.inputs[i].name !in extra
    ensures Validate(catalog, Block(uid, JObj(data + extra))) == Validate(catalog, Block(uid, JObj(data)))
  {
    MissingFieldsIgnoresExtraKeys(c.inputs, data, extra);
  }
}
