/** The two tools offered to the language model: discovery of the registered components
    (`get_ui_components`) and construction of a block (`create_ui_component`), with the
    fence formatting that makes a constructed block one the extractor accepts. */
module Tools {
  import opened Wrappers
  import opened Text
  import opened Json
  import opened Registry
  import opened Extractor
  import opened Validator
  import opened Resolver
  import opened Composer

  // ---------------------------------------------------------------------------
  // Sequence helpers: `filter`, `map` and `[...new Set(xs)]`

  /** `xs.filter(keep)`. */
  function Filter(xs: seq<Definition>, keep: Definition -> bool): seq<Definition> {
    if xs == [] then []
    else
      var n := |xs| - 1;
      Filter(xs[..n], keep) + (if keep(xs[n]) then [xs[n]] else [])
  }

  /** The filter keeps exactly the elements that pass, and is empty exactly when none does. */
  lemma {:induction false} FilterSpec(xs: seq<Definition>, keep: Definition -> bool)
    decreases |xs|
    ensures forall x :: x in Filter(xs, keep) <==> x in xs && keep(x)
    ensures |Filter(xs, keep)| == 0 <==> forall i :: 0 <= i < |xs| ==> !keep(xs[i])
  {
    if xs != [] {
      var n := |xs| - 1;
      FilterSpec(xs[..n], keep);
      assert xs == xs[..n] + [xs[n]];
      forall i | 0 <= i < n ensures xs[..n][i] == xs[i] { }
    }
  }

  /** A filter that everything passes changes nothing. */
  lemma {:induction false} FilterAll(xs: seq<Definition>, keep: Definition -> bool)
    requires forall i :: 0 <= i < |xs| ==> keep(xs[i])
    decreases |xs|
    ensures Filter(xs, keep) == xs
  {
    if xs != [] {
      var n := |xs| - 1;
      assert forall i :: 0 <= i < n ==> xs[..n][i] == xs[i];
      FilterAll(xs[..n], keep);
      assert xs == xs[..n] + [xs[n]];
    }
  }

  /** Filtering works element by element, so it keeps the order of its input. */
  lemma {:induction false} FilterAppend(xs: seq<Definition>, ys: seq<Definition>, keep: Definition -> bool)
    decreases |ys|
    ensures Filter(xs + ys, keep) == Filter(xs, keep) + Filter(ys, keep)
  {
    if ys == [] {
      assert xs + ys == xs;
    } else {
      var n := |ys| - 1;
      assert (xs + ys)[..|xs + ys| - 1] == xs + ys[..n];
      FilterAppend(xs, ys[..n], keep);
      var last := if keep(ys[n]) then [ys[n]] else [];
      ConcatAssoc(Filter(xs, keep), Filter(ys[..n], keep), last);
    }
  }

  /** The `type` of every definition, in file order. */
  function Kinds(defs: seq<Definition>): seq<string> {
    seq(|defs|, i requires 0 <= i < |defs| => defs[i].kind)
  }

  /** The `uid` of every definition, in file order. */
  function Uids(defs: seq<Definition>): seq<string> {
    seq(|defs|, i requires 0 <= i < |defs| => defs[i].uid)
  }

  /** `[...new Set(xs)]`: each element once, in the order of its first appearance. */
  function Dedup(xs: seq<string>): seq<string> {
    if xs == [] then []
    else
      var n := |xs| - 1;
      var before := Dedup(xs[..n]);
      if xs[n] in before then before else before + [xs[n]]
  }

  /** The set keeps every element and repeats none. */
  lemma {:induction false} DedupSpec(xs: seq<string>)
    decreases |xs|
    ensures forall x :: x in Dedup(xs) <==> x in xs
    ensures forall i, j :: 0 <= i < j < |Dedup(xs)| ==> Dedup(xs)[i] != Dedup(xs)[j]
  {
    if xs != [] {
      var n := |xs| - 1;
      DedupSpec(xs[..n]);
      assert xs == xs[..n] + [xs[n]];
    }
  }

  /** First-appearance order: the set of a prefix of `xs` lists its elements as a prefix of
      the set of `xs`. */
  lemma {:induction false} DedupPrefix(xs: seq<string>, n: nat)
    requires n <= |xs|
    decreases |xs|
    ensures Dedup(xs[..n]) <= Dedup(xs)
  {
    if n < |xs| {
      var m := |xs| - 1;
      DedupPrefix(xs[..m], n);
      assert xs[..m][..n] == xs[..n];
    } else {
      assert xs[..n] == xs;
    }
  }

  // ---------------------------------------------------------------------------
  // get_ui_components

  /** An optional string argument that is present and non-empty, hence truthy. */
  predicate Given(arg: Option<string>) {
    arg.Some? && arg.value != []
  }

  /** What the discovery tool returns. The constant usage notes of a success are not
      modelled. */
  datatype DiscoverResult =
    | DiscoverFailure(message: string, availableTypes: seq<string>)
    | DiscoverSuccess(version: string, components: seq<Definition>)

  /** The definitions selected by the arguments: by identifier when one is given, else by
      type when one is given, else all. */
  function Selected(catalog: Catalog, componentType: Option<string>, uid: Option<string>): seq<Definition> {
    if Given(uid) then Filter(catalog.components, (c: Definition) => c.uid == uid.value)
    else if Given(componentType) then Filter(catalog.components, (c: Definition) => c.kind == componentType.value)
    else catalog.components
  }

  /** Selection only ever drops definitions. */
  lemma SelectedWithin(catalog: Catalog, componentType: Option<string>, uid: Option<string>)
    ensures forall c :: c in Selected(catalog, componentType, uid) ==> c in catalog.components
  {
    if Given(uid) {
      FilterSpec(catalog.components, (c: Definition) => c.uid == uid.value);
    } else if Given(componentType) {
      FilterSpec(catalog.components, (c: Definition) => c.kind == componentType.value);
    }
  }

  /** The failure message, by the same precedence. */
  function NoMatchMessage(componentType: Option<string>, uid: Option<string>): string {
    if Given(uid) then "No component found with UID: " + uid.value
    else if Given(componentType) then "No components found with type: " + componentType.value
    else "No components available"
  }

  /** The `execute` body of `get_ui_components`. Each selected definition is projected on
      `uid`, `type`, `description`, `inputs` and `example`, which are all its fields. */
  function Discover(catalog: Catalog, componentType: Option<string>, uid: Option<string>): (r: DiscoverResult)
    ensures r.DiscoverSuccess? ==>
      r.version == catalog.version && r.components != [] &&
      forall i :: 0 <= i < |r.components| ==> r.components[i] in catalog.components
    ensures r.DiscoverFailure? ==> Given(uid) || Given(componentType) || catalog.components == []
  {
    SelectedWithin(catalog, componentType, uid);
    var components := Selected(catalog, componentType, uid);
    if |components| == 0 then
      DiscoverFailure(NoMatchMessage(componentType, uid), Dedup(Kinds(catalog.components)))
    else DiscoverSuccess(catalog.version, components)
  }

  /** With an identifier given, discovery lists exactly the definitions carrying it and
      ignores the type argument; it fails, naming the identifier, exactly when none does. */
  lemma DiscoverByUid(catalog: Catalog, componentType: Option<string>, u: string)
    requires u != []
    ensures var r := Discover(catalog, componentType, Some(u));
      && (r.DiscoverFailure? <==> forall i :: 0 <= i < |catalog.components| ==> catalog.components[i].uid != u)
      && (r.DiscoverFailure? ==> r.message == "No component found with UID: " + u)
      && (r.DiscoverSuccess? ==> forall c :: c in r.components <==> c in catalog.components && c.uid == u)
  {
    FilterSpec(catalog.components, (c: Definition) => c.uid == u);
  }

  /** With only a type given, discovery lists exactly the definitions of that type; it fails,
      naming the type, exactly when there is none. */
  lemma DiscoverByType(catalog: Catalog, uid: Option<string>, k: string)
    requires !Given(uid) && k != []
    ensures var r := Discover(catalog, Some(k), uid);
      && (r.DiscoverFailure? <==> forall i :: 0 <= i < |catalog.components| ==> catalog.components[i].kind != k)
      && (r.DiscoverFailure? ==> r.message == "No components found with type: " + k)
      && (r.DiscoverSuccess? ==> forall c :: c in r.components <==> c in catalog.components && c.kind == k)
  {
    FilterSpec(catalog.components, (c: Definition) => c.kind == k);
  }

  /** Without arguments (or with empty ones) discovery lists the whole registry in file
      order, and fails only on an empty registry. */
  lemma DiscoverAll(catalog: Catalog, componentType: Option<string>, uid: Option<string>)
    requires !Given(uid) && !Given(componentType)
    ensures catalog.components != [] ==>
      Discover(catalog, componentType, uid) == DiscoverSuccess(catalog.version, catalog.components)
    ensures catalog.components == [] ==>
      Discover(catalog, componentType, uid) == DiscoverFailure("No components available", [])
  {
  }

  /** A failure lists every type of the registry exactly once. */
  lemma AvailableTypes(catalog: Catalog, componentType: Option<string>, uid: Option<string>)
    requires Discover(catalog, componentType, uid).DiscoverFailure?
    ensures var types := Discover(catalog, componentType, uid).availableTypes;
      && (forall k :: k in types <==> exists i :: 0 <= i < |catalog.components| && catalog.components[i].kind == k)
      && (forall i, j :: 0 <= i < j < |types| ==> types[i] != types[j])
  {
    var kinds := Kinds(catalog.components);
    DedupSpec(kinds);
    forall k | k in kinds
      ensures exists i :: 0 <= i < |catalog.components| && catalog.components[i].kind == k
    {
      var i :| 0 <= i < |kinds| && kinds[i] == k;
    }
    forall i | 0 <= i < |catalog.components| ensures catalog.components[i].kind in kinds {
      assert kinds[i] == catalog.components[i].kind;
    }
  }

  // ---------------------------------------------------------------------------
  // create_ui_component

  /** What the construction tool returns. The constant usage notes of a success are not
      modelled. */
  datatype ConstructResult =
    | UnknownComponent(error: string, availableComponents: seq<string>)
    | MissingFieldsFailure(error: string, missingFields: seq<string>, componentSchema: seq<Input>)
    | Created(message: string, uicpBlock: string)

  /** The object `{ uid, data }` the tool serialises. */
  function BlockValue(uid: string, data: map<string, Value>): Value {
    JObj(map["uid" := JStr(uid), "data" := JObj(data)])
  }

  /** The fenced block: the opening fence and a newline, the serialised object, a newline
      and the closing fence. `stringify` is `JSON.stringify(_, null, 2)`. */
  function FormatBlock(uid: string, data: map<string, Value>, stringify: Value -> string): string {
    "```uicp\n" + stringify(BlockValue(uid, data)) + "\n```"
  }

  /** The `execute` body of `create_ui_component` (the arguments have already passed the
      parameter schema: `uid` is a string and `data` an object). */
  function Construct(catalog: Catalog, uid: string, data: map<string, Value>,
                     stringify: Value -> string): ConstructResult
  {
    match Find(catalog.components, JStr(uid))
    case None => UnknownComponent("Unknown component UID: " + uid, Uids(catalog.components))
    case Some(c) =>
      var missing := MissingFields(c.inputs, data);
      if |missing| > 0 then MissingFieldsFailure("Missing required fields", missing, c.inputs)
      else Created("Successfully created " + c.kind + " component: " + uid, FormatBlock(uid, data, stringify))
  }

  /** The tool as written: the lookup, then one pass over the schema entries collecting the
      required keys `data` lacks. */
  method CreateComponent(catalog: Catalog, uid: string, data: map<string, Value>,
                         stringify: Value -> string) returns (r: ConstructResult)
    ensures r == Construct(catalog, uid, data, stringify)
  {
    var component := Find(catalog.components, JStr(uid));
    if component.None? {
      return UnknownComponent("Unknown component UID: " + uid, Uids(catalog.components));
    }
    var inputs := component.value.inputs;
    var missingFields: seq<string> := [];
    var i := 0;
    while i < |inputs|
      invariant 0 <= i <= |inputs|
      invariant missingFields == MissingFields(inputs[..i], data)
    {
      MissingFieldsStep(inputs, i, data);
      if inputs[i].required && inputs[i].name !in data {
        missingFields := missingFields + [inputs[i].name];
      } else {
        assert missingFields + [] == missingFields;
      }
      i := i + 1;
    }
    assert inputs[..i] == inputs;
    if |missingFields| > 0 {
      return MissingFieldsFailure("Missing required fields", missingFields, component.value.inputs);
    }
    var formattedBlock := FormatBlock(uid, data, stringify);
    return Created("Successfully created " + component.value.kind + " component: " + uid, formattedBlock);
  }

  /** An identifier that no definition carries is reported with every registry identifier,
      in file order. */
  lemma ConstructUnknown(catalog: Catalog, uid: string, data: map<string, Value>, stringify: Value -> string)
    ensures Construct(catalog, uid, data, stringify).UnknownComponent? <==>
      forall i :: 0 <= i < |catalog.components| ==> catalog.components[i].uid != uid
    ensures var r := Construct(catalog, uid, data, stringify);
      r.UnknownComponent? ==>
        && r.error == "Unknown component UID: " + uid
        && |r.availableComponents| == |catalog.components|
        && forall i :: 0 <= i < |catalog.components| ==> r.availableComponents[i] == catalog.components[i].uid
  {
  }

  /** A known identifier whose required inputs are all in `data` yields the success message
      and exactly the formatted block. */
  lemma ConstructCreated(catalog: Catalog, uid: string, data: map<string, Value>,
                         stringify: Value -> string, c: Definition)
    requires Find(catalog.components, JStr(uid)) == Some(c)
    requires forall k :: IsRequiredInput(c.inputs, k) ==> k in data
    ensures Construct(catalog, uid, data, stringify) == Created(
      "Successfully created " + c.kind + " component: " + uid,
      "```uicp\n" + stringify(JObj(map["uid" := JStr(uid), "data" := JObj(data)])) + "\n```")
  {
    MissingFieldsReported(catalog, uid, data, stringify, c);
  }

  /** The tool and the validator apply the same rule: for the block `{ uid, data }` the tool
      reports an unknown component with the validator's message, reports missing fields
      exactly when the validator does and with one message per reported field, and creates
      the block exactly when the validator would accept it. */
  lemma ConstructAgreesWithValidator(catalog: Catalog, uid: string, data: map<string, Value>,
                                     stringify: Value -> string)
    ensures Validate(catalog, Block(JStr(uid), JObj(data))).Normal?
    ensures var r := Construct(catalog, uid, data, stringify);
      var v := Validate(catalog, Block(JStr(uid), JObj(data))).value;
      && (r.Created? <==> v.valid)
      && (r.UnknownComponent? ==> v.errors == [r.error])
      && (r.MissingFieldsFailure? ==> v.errors == MissingFieldErrors(r.missingFields))
  {
  }

  /** Every field the tool reports missing is required by the schema and absent from the
      data, and every such field is reported. */
  lemma MissingFieldsReported(catalog: Catalog, uid: string, data: map<string, Value>,
                              stringify: Value -> string, c: Definition)
    requires Find(catalog.components, JStr(uid)) == Some(c)
    ensures Construct(catalog, uid, data, stringify).Created? <==>
      forall k :: IsRequiredInput(c.inputs, k) ==> k in data
    ensures Construct(catalog, uid, data, stringify).MissingFieldsFailure? ==>
      forall k :: k in Construct(catalog, uid, data, stringify).missingFields <==>
        IsRequiredInput(c.inputs, k) && k !in data
  {
    MissingFieldsSpec(c.inputs, data);
    var missing := MissingFields(c.inputs, data);
    if |missing| > 0 {
      assert missing[0] in missing;
    }
  }

  // ---------------------------------------------------------------------------
  // The round trip from construction to extraction

  /** The serialisation of a block value as the extractor needs it: non-empty, without
      whitespace at either end, without a closing fence, and read back by `parse`. */
  predicate Serialises(stringify: Value -> string, parse: string -> Option<Value>, v: Value) {
    var text := stringify(v);
    && text != []
    && !IsWhitespace(text[0]) && !IsWhitespace(text[|text| - 1])
    && !Contains(text, Fence)
    && parse(text) == Some(v)
  }

  /** A serialisation followed by the newline is a plain block body. */
  lemma NewlineBody(text: string)
    requires text != [] && !IsWhitespace(text[0]) && !Contains(text, Fence)
    ensures PlainBody(text + "\n")
  {
    var body := text + "\n";
    forall j: nat | j <= |body| ensures !StartsAt(body, j, Fence) {
      if j + 3 <= |text| {
        StartsAtPrefix(text, "\n", j, Fence);
      } else if j + 3 <= |body| {
        assert body[j..j + 3][2] == '\n';
      }
    }
  }

  /** The formatted block is the opening fence, a newline, the body and the closing fence. */
  lemma FormatBlockLayout(text: string)
    ensures "```uicp\n" + text + "\n```" == Open + "\n" + (text + "\n") + Fence
  {
  }

  /** Empty text around a concatenation changes nothing. */
  lemma Unpadded<T>(a: seq<T>, b: seq<T>, c: seq<T>, d: seq<T>)
    ensures [] + a + b + c + d + [] == a + b + c + d
    ensures [] + a + [] == a
  {
  }

  /** A lone block with a plain body is extracted as that block, leaving only its
      placeholder. */
  lemma LoneBlock(body: string, parse: string -> Option<Value>, b: Block)
    requires PlainBody(body) && Accept(parse(Trim(body))) == Some(b)
    ensures Extract(Open + "\n" + body + Fence, parse) == Extraction([b], Placeholder(0))
  {
    var s := Open + "\n" + body + Fence;
    LayoutOfConcat("", body, "");
    Unpadded(Open, "\n", body, Fence);
    assert !Contains("", Open);
    SingleBlockAccepted(s, "", body, "", parse, b);
    Unpadded(Placeholder(0), [], [], []);
  }

  /** Round trip: a block the tool creates, with a non-empty identifier and a serialisation
      that holds no closing fence, is extracted as exactly that block, `{ uid, data }`, and
      the text keeps only its placeholder. */
  lemma ConstructRoundTrip(catalog: Catalog, uid: string, data: map<string, Value>,
                           stringify: Value -> string, parse: string -> Option<Value>)
    requires Construct(catalog, uid, data, stringify).Created?
    requires uid != [] && Serialises(stringify, parse, BlockValue(uid, data))
    ensures Extract(Construct(catalog, uid, data, stringify).uicpBlock, parse)
      == Extraction([Block(JStr(uid), JObj(data))], Placeholder(0))
  {
    var text := stringify(BlockValue(uid, data));
    SerialisedBody(uid, data, text, parse);
    FormatBlockLayout(text);
    LoneBlock(text + "\n", parse, Block(JStr(uid), JObj(data)));
  }

  /** The body the pattern captures from a formatted block is accepted as `{ uid, data }`. */
  lemma SerialisedBody(uid: string, data: map<string, Value>, text: string, parse: string -> Option<Value>)
    requires uid != [] && text != [] && !IsWhitespace(text[0]) && !IsWhitespace(text[|text| - 1])
    requires !Contains(text, Fence) && parse(text) == Some(BlockValue(uid, data))
    ensures PlainBody(text + "\n")
    ensures Accept(parse(Trim(text + "\n"))) == Some(Block(JStr(uid), JObj(data)))
  {
    NewlineBody(text);
    TrimDropsTrailingWhitespace(text, "\n");
    AcceptConstructed(uid, data);
  }

  /** The object `{ uid, data }` with a non-empty identifier passes the extractor's check. */
  lemma AcceptConstructed(uid: string, data: map<string, Value>)
    requires uid != []
    ensures Accept(Some(BlockValue(uid, data))) == Some(Block(JStr(uid), JObj(data)))
  {
  }

  /** What a constructed block renders as: its component with `data` as props when the
      table holds the identifier, the "not available" notice otherwise; never the
      invalid notice. */
  function ConstructedView(components: map<string, Renderer>, uid: string, data: map<string, Value>): Rendered {
    if uid in components then ComponentView(components[uid], JObj(data)) else UnavailableNotice(uid)
  }

  /** A created block passes the validator it was built against. */
  lemma CreatedRenders(catalog: Catalog, components: map<string, Renderer>, uid: string,
                       data: map<string, Value>, stringify: Value -> string)
    requires Construct(catalog, uid, data, stringify).Created?
    ensures Render(catalog, components, Block(JStr(uid), JObj(data))) == Normal(ConstructedView(components, uid, data))
  {
    ConstructAgreesWithValidator(catalog, uid, data, stringify);
  }

  /** The message consisting of a created block alone composes to a single component part,
      `component-0`, showing that block's rendering. */
  lemma ConstructThenCompose(catalog: Catalog, components: map<string, Renderer>, uid: string,
                             data: map<string, Value>, stringify: Value -> string,
                             parse: string -> Option<Value>)
    requires Construct(catalog, uid, data, stringify).Created?
    requires uid != [] && Serialises(stringify, parse, BlockValue(uid, data))
    ensures Compose(catalog, components, parse, Construct(catalog, uid, data, stringify).uicpBlock)
      == Normal([ComponentContent(ConstructedView(components, uid, data), "component-0")])
  {
    var b := Block(JStr(uid), JObj(data));
    var content := Construct(catalog, uid, data, stringify).uicpBlock;
    ConstructRoundTrip(catalog, uid, data, stringify, parse);
    ComposeOf(catalog, components, parse, content, [b], Placeholder(0));
    CreatedRenders(catalog, components, uid, data, stringify);
    SplitPlaceholder(0);
    var views := Views(catalog, components, [b]);
    assert |views| == 1 && views[0] == Render(catalog, components, b);
    PartsOfPlaceholder(views, Split(Placeholder(0)), ConstructedView(components, uid, data));
  }

  /** The lone placeholder of block 0 composes to that block's rendering. */
  lemma PartsOfPlaceholder(views: seq<Outcome<Rendered>>, parts: seq<string>, view: Rendered)
    requires |views| == 1 && views[0] == Normal(view)
    requires |parts| == 3 && parts[0] == "" && parts[1] == Placeholder(0) && parts[2] == ""
    ensures PartsOf(views, parts, |parts|) == Normal([ComponentContent(view, "component-0")])
  {
    var here := [ComponentContent(view, "component-0")];
    var none: seq<Parsed> := [];
    assert none + none == none && none + here == here && here + none == here;
    EmptyPartAddsNothing(views, 0);
    EmptyPartAddsNothing(views, 2);
    PlaceholderNamesBlock(views, 0, 1, view);
    assert "component-" + NatToString(0) == "component-0";
    PartsOfStep(views, parts, 0, none, Normal(none));
    PartsOfStep(views, parts, 1, none, Normal(here));
    PartsOfStep(views, parts, 2, here, Normal(none));
  }

  /** An empty part contributes nothing. */
  lemma EmptyPartAddsNothing(views: seq<Outcome<Rendered>>, index: nat)
    ensures PartOf(views, "", index) == Normal([])
  {
    assert NextToken("", 0).None?;
  }
}
