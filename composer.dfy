/** Rendering and composition: `renderUICPBlock`, which turns a block into an error notice
    or a component, `parseUICPContent`, which splits the substituted text on placeholders
    into text and component parts, and `hasUICPBlocks`. */
module Composer {
  import opened Wrappers
  import opened Text
  import opened Json
  import opened Registry
  import opened Extractor
  import opened Validator
  import opened Resolver

  // ---------------------------------------------------------------------------
  // renderUICPBlock

  /** The three things a block can render as: the red notice listing validation errors,
      the yellow notice for a valid block whose component is not registered, or the
      registered component with the block's data as its props. */
  datatype Rendered =
    | InvalidNotice(errors: seq<string>)
    | UnavailableNotice(uid: string)
    | ComponentView(renderer: Renderer, props: Value)

  /** `renderUICPBlock(block, key)` over the registry document `catalog` and the
      registry table `components`. The table is indexed with the identifier converted to
      a property key, which for a string is the string itself. */
  function Render(catalog: Catalog, components: map<string, Renderer>, block: Block): Outcome<Rendered> {
    match Validate(catalog, block)
    case TypeError => TypeError
    case Normal(v) =>
      if !v.valid then Normal(InvalidNotice(v.errors))
      else
        var uid := Display(block.uid);
        if uid in components then Normal(ComponentView(components[uid], block.data))
        else Normal(UnavailableNotice(uid))
  }

  /** The renderer as written: the validator, then the registry lookup. */
  method RenderBlock(catalog: Catalog, registry: ComponentRegistry, block: Block) returns (r: Outcome<Rendered>)
    ensures r == Render(catalog, registry.components, block)
  {
    var validation := ValidateBlock(catalog, block);
    if validation.TypeError? {
      return TypeError;
    }
    if !validation.value.valid {
      return Normal(InvalidNotice(validation.value.errors));
    }
    var component := registry.Get(Display(block.uid));
    if component.None? {
      return Normal(UnavailableNotice(Display(block.uid)));
    }
    return Normal(ComponentView(component.value, block.data));
  }

  /** A block renders as the error notice exactly when it fails validation, and the notice
      lists the validator's messages; a valid block renders as its registered component
      with its data as props, or as the "not available" notice for its identifier when
      the table does not hold it. */
  lemma RenderCases(catalog: Catalog, components: map<string, Renderer>, block: Block)
    requires Validate(catalog, block).Normal?
    ensures var v := Validate(catalog, block).value;
      && (Render(catalog, components, block).value.InvalidNotice? <==> !v.valid)
      && (!v.valid ==> Render(catalog, components, block).value.errors == v.errors)
    ensures Validate(catalog, block).value.valid ==>
      && block.uid.JStr?
      && (block.uid.s in components ==>
            Render(catalog, components, block) == Normal(ComponentView(components[block.uid.s], block.data)))
      && (block.uid.s !in components ==>
            Render(catalog, components, block) == Normal(UnavailableNotice(block.uid.s)))
  {
    ValidIffNoErrors(catalog, block);
  }

  /** Rendering throws exactly when validation does. */
  lemma RenderThrows(catalog: Catalog, components: map<string, Renderer>, block: Block)
    ensures Render(catalog, components, block).TypeError? <==> Validate(catalog, block).TypeError?
  {
  }

  // ---------------------------------------------------------------------------
  // The placeholder pattern /__UICP_BLOCK_(\d+)__/

  const TokenHead: string := "__UICP_BLOCK_"
  const TokenTail: string := "__"

  /** The end of the run of decimal digits that starts at `i`. */
  function DigitsEnd(s: string, i: nat): (r: nat)
    requires i <= |s|
    decreases |s| - i
    ensures i <= r <= |s|
    ensures r == |s| || !IsDigit(s[r])
  {
    if i < |s| && IsDigit(s[i]) then DigitsEnd(s, i + 1) else i
  }

  /** Everything the run covers is a digit. */
  lemma {:induction false} DigitsEndSpec(s: string, i: nat)
    requires i <= |s|
    decreases |s| - i
    ensures forall j :: i <= j < DigitsEnd(s, i) ==> IsDigit(s[j])
  {
    if i < |s| && IsDigit(s[i]) {
      DigitsEndSpec(s, i + 1);
    }
  }

  /** A run of digits followed by a non-digit ends there. */
  lemma {:induction false} DigitsEndAt(s: string, i: nat, d: nat)
    requires i <= d < |s| && !IsDigit(s[d])
    requires forall j :: i <= j < d ==> IsDigit(s[j])
    decreases d - i
    ensures DigitsEnd(s, i) == d
  {
    if i < d {
      DigitsEndAt(s, i + 1, d);
    }
  }

  /** The end of the placeholder that starts at `p`, if one does: the head, a non-empty
      digit run (the greedy `\d+`, which can give nothing back since `_` is not a digit)
      and the tail. */
  function TokenAt(s: string, p: nat): (r: Option<nat>)
    ensures r.Some? ==> StartsAt(s, p, TokenHead) && p + 13 < DigitsEnd(s, p + 13)
    ensures r.Some? ==> r.value == DigitsEnd(s, p + 13) + 2 && r.value <= |s|
    ensures r.Some? ==> StartsAt(s, r.value - 2, TokenTail)
  {
    if StartsAt(s, p, TokenHead) then
      var d := DigitsEnd(s, p + 13);
      if p + 13 < d && StartsAt(s, d, TokenTail) then Some(d + 2) else None
    else None
  }

  /** The leftmost position at or after `from` where a placeholder starts. */
  function NextToken(s: string, from: nat): (r: Option<nat>)
    decreases |s| - from
    ensures r.Some? ==> from <= r.value < |s| && TokenAt(s, r.value).Some?
  {
    if from >= |s| then None
    else if TokenAt(s, from).Some? then Some(from)
    else NextToken(s, from + 1)
  }

  /** No placeholder starts before the one found, and none at all when none is found. */
  lemma {:induction false} NextTokenSpec(s: string, from: nat)
    decreases |s| - from
    ensures NextToken(s, from).Some? ==>
      forall j :: from <= j < NextToken(s, from).value ==> TokenAt(s, j).None?
    ensures NextToken(s, from).None? ==> forall j :: from <= j < |s| ==> TokenAt(s, j).None?
  {
    if from < |s| && TokenAt(s, from).None? {
      NextTokenSpec(s, from + 1);
      assert NextToken(s, from) == NextToken(s, from + 1);
    }
  }

  /** `part.match(/__UICP_BLOCK_(\d+)__/)` followed by `parseInt(match[1], 10)`: the
      index written in the leftmost placeholder of `part`. */
  function PlaceholderIndex(part: string): Option<nat> {
    match NextToken(part, 0)
    case None => None
    case Some(p) =>
      var d := DigitsEnd(part, p + 13);
      DigitsEndSpec(part, p + 13);
      Some(DigitsValue(part[p + 13..d]))
  }

  // ---------------------------------------------------------------------------
  // text.split(/(__UICP_BLOCK_\d+__)/)

  /** The split from `from` on: the text up to the next placeholder, the placeholder
      itself (the capture group), and the split of the rest. */
  function SplitFrom(s: string, from: nat): seq<string>
    requires from <= |s|
    decreases |s| - from
  {
    match NextToken(s, from)
    case None => [s[from..]]
    case Some(p) =>
      var q := TokenAt(s, p).value;
      [s[from..p], s[p..q]] + SplitFrom(s, q)
  }

  function Split(s: string): seq<string> {
    SplitFrom(s, 0)
  }

  /** The parts laid end to end. */
  function Concat(parts: seq<string>): string {
    if parts == [] then [] else parts[0] + Concat(parts[1..])
  }

  /** Splitting loses nothing: the parts laid end to end are the text. */
  lemma {:induction false} SplitJoin(s: string, from: nat)
    requires from <= |s|
    decreases |s| - from
    ensures Concat(SplitFrom(s, from)) == s[from..]
  {
    match NextToken(s, from)
    case None =>
      assert Concat([s[from..]]) == s[from..] + Concat([]);
    case Some(p) =>
      var q := TokenAt(s, p).value;
      var rest := SplitFrom(s, q);
      SplitJoin(s, q);
      var parts := [s[from..p], s[p..q]] + rest;
      assert parts[0] == s[from..p] && parts[1..][0] == s[p..q] && parts[1..][1..] == rest;
      assert Concat(parts) == s[from..p] + (s[p..q] + Concat(rest));
      assert s[from..] == s[from..p] + (s[p..q] + s[q..]);
  }

  /** `t` is the stretch of `s` that starts at `lo`. */
  predicate Within(s: string, lo: nat, t: string) {
    lo + |t| <= |s| && forall k :: 0 <= k < |t| ==> t[k] == s[lo + k]
  }

  /** A slice is the stretch of its text at its start. */
  lemma SliceWithin(s: string, lo: nat, hi: nat)
    requires lo <= hi <= |s|
    ensures Within(s, lo, s[lo..hi])
  {
  }

  /** A digit run inside a stretch ends where it ends in the whole text. */
  lemma {:induction false} DigitsEndWithin(s: string, lo: nat, t: string, i: nat)
    requires Within(s, lo, t) && i <= |t|
    decreases |t| - i
    ensures DigitsEnd(t, i) < |t| ==> DigitsEnd(s, lo + i) == lo + DigitsEnd(t, i)
    ensures DigitsEnd(s, lo + i) < lo + |t| ==> lo + DigitsEnd(t, i) == DigitsEnd(s, lo + i)
  {
    if i < |t| && IsDigit(t[i]) {
      DigitsEndWithin(s, lo, t, i + 1);
    }
  }

  /** A pattern occurs inside a stretch exactly where it occurs in the whole text. */
  lemma StartsWithin(s: string, lo: nat, t: string, j: nat, pat: string)
    requires Within(s, lo, t) && j + |pat| <= |t|
    ensures StartsAt(s, lo + j, pat) <==> StartsAt(t, j, pat)
  {
    var a, b := s[lo + j..lo + j + |pat|], t[j..j + |pat|];
    forall k | 0 <= k < |pat| ensures a[k] == b[k] {
      assert b[k] == t[j + k];
    }
    assert a == b;
  }

  /** A placeholder from its parts: the head, a non-empty digit run and the tail. */
  lemma TokenAtOf(s: string, p: nat, d: nat)
    requires StartsAt(s, p, TokenHead) && p + 13 < d <= |s|
    requires DigitsEnd(s, p + 13) == d && StartsAt(s, d, TokenTail)
    ensures TokenAt(s, p) == Some(d + 2)
  {
  }

  /** The placeholder pattern is local: a placeholder inside a stretch is one of the whole
      text, ending at the same place. */
  lemma TokenFromWithin(s: string, lo: nat, t: string, j: nat)
    requires Within(s, lo, t) && j <= |t|
    ensures TokenAt(t, j).Some? ==> TokenAt(s, lo + j) == Some(lo + TokenAt(t, j).value)
  {
    if TokenAt(t, j).Some? {
      var d := DigitsEnd(t, j + 13);
      StartsWithin(s, lo, t, j, TokenHead);
      StartsWithin(s, lo, t, d, TokenTail);
      DigitsEndWithin(s, lo, t, j + 13);
      TokenAtOf(s, lo + j, lo + d);
    }
  }

  /** A placeholder of the whole text that ends inside a stretch is one of the stretch. */
  lemma TokenToWithin(s: string, lo: nat, t: string, j: nat)
    requires Within(s, lo, t) && j <= |t|
    ensures TokenAt(s, lo + j).Some? && TokenAt(s, lo + j).value <= lo + |t| ==>
      TokenAt(t, j) == Some(TokenAt(s, lo + j).value - lo)
  {
    if TokenAt(s, lo + j).Some? && TokenAt(s, lo + j).value <= lo + |t| {
      var d := DigitsEnd(s, lo + j + 13);
      StartsWithin(s, lo, t, j, TokenHead);
      StartsWithin(s, lo, t, d - lo, TokenTail);
      DigitsEndWithin(s, lo, t, j + 13);
      TokenAtOf(t, j, d - lo);
    }
  }

  /** The shape of a split: a text part holding no placeholder, then alternately a part
      that is exactly one placeholder and another such text part. */
  predicate Alternating(parts: seq<string>)
    decreases |parts|
  {
    && |parts| % 2 == 1
    && NextToken(parts[0], 0).None?
    && (|parts| > 1 ==> TokenAt(parts[1], 0) == Some(|parts[1]|) && Alternating(parts[2..]))
  }

  /** The text parts of a split hold no placeholder, and the parts in between are
      placeholders, each spanning its whole part. */
  lemma {:induction false} SplitShape(s: string, from: nat)
    requires from <= |s|
    decreases |s| - from
    ensures Alternating(SplitFrom(s, from))
  {
    match NextToken(s, from)
    case None =>
      LeadingTextPlain(s, from, |s|);
      assert s[from..|s|] == s[from..];
    case Some(p) =>
      var q := TokenAt(s, p).value;
      var rest := SplitFrom(s, q);
      SplitShape(s, q);
      LeadingTextPlain(s, from, p);
      TokenPart(s, p);
      AlternatingCons(s[from..p], s[p..q], rest);
      assert SplitFrom(s, from) == [s[from..p], s[p..q]] + rest;
  }

  /** The part a placeholder of the text spans is that placeholder. */
  lemma TokenPart(s: string, p: nat)
    requires TokenAt(s, p).Some?
    ensures TokenAt(s[p..TokenAt(s, p).value], 0) == Some(TokenAt(s, p).value - p)
  {
    var q := TokenAt(s, p).value;
    SliceWithin(s, p, q);
    TokenToWithin(s, p, s[p..q], 0);
  }

  lemma AlternatingCons(text: string, token: string, rest: seq<string>)
    requires NextToken(text, 0).None? && TokenAt(token, 0) == Some(|token|) && Alternating(rest)
    ensures Alternating([text, token] + rest)
  {
    assert ([text, token] + rest)[2..] == rest;
  }

  /** The text before the next placeholder holds none. */
  lemma LeadingTextPlain(s: string, from: nat, hi: nat)
    requires from <= hi <= |s|
    requires NextToken(s, from) == Some(hi) || (NextToken(s, from).None? && hi == |s|)
    ensures NextToken(s[from..hi], 0).None?
  {
    NextTokenSpec(s, from);
    TextPartPlain(s, from, hi);
  }

  /** The shape, stated part by part: even-numbered parts are text without a placeholder,
      odd-numbered parts are placeholders. */
  lemma {:induction false} AlternatingParts(parts: seq<string>, i: nat)
    requires Alternating(parts) && i < |parts|
    decreases i
    ensures i % 2 == 0 ==> NextToken(parts[i], 0).None?
    ensures i % 2 == 1 ==> TokenAt(parts[i], 0) == Some(|parts[i]|)
  {
    if i >= 2 {
      AlternatingParts(parts[2..], i - 2);
      assert parts[2..][i - 2] == parts[i];
      assert (i - 2) % 2 == i % 2;
    }
  }

  /** A stretch of text in which no placeholder starts holds none. */
  lemma TextPartPlain(s: string, lo: nat, hi: nat)
    requires lo <= hi <= |s|
    requires forall j :: lo <= j < hi ==> TokenAt(s, j).None?
    ensures NextToken(s[lo..hi], 0).None?
  {
    var t := s[lo..hi];
    if NextToken(t, 0).Some? {
      var p := NextToken(t, 0).value;
      SliceWithin(s, lo, hi);
      TokenFromWithin(s, lo, t, p);
      assert false;
    }
  }

  /** A placeholder part's index is the number its digits spell. */
  lemma PlaceholderOf(n: nat)
    ensures TokenAt(Placeholder(n), 0) == Some(|Placeholder(n)|)
    ensures PlaceholderIndex(Placeholder(n)) == Some(n)
  {
    var ds := NatToString(n);
    var s := Placeholder(n);
    assert s == TokenHead + ds + TokenTail;
    assert s[..13] == TokenHead;
    assert forall j :: 13 <= j < 13 + |ds| ==> s[j] == ds[j - 13];
    DigitsEndAt(s, 13, 13 + |ds|);
    assert s[13 + |ds|..] == TokenTail;
    assert s[13..13 + |ds|] == ds;
    DigitsValueOfNatToString(n);
  }

  /** A text that is a single placeholder splits into an empty text part, the
      placeholder, and an empty text part. */
  lemma SplitPlaceholder(n: nat)
    ensures Split(Placeholder(n)) == ["", Placeholder(n), ""]
  {
    var s := Placeholder(n);
    PlaceholderOf(n);
    assert NextToken(s, 0) == Some(0);
    assert NextToken(s, |s|) == None;
    assert s[0..0] == "" && s[0..|s|] == s && s[|s|..] == "";
    assert SplitFrom(s, |s|) == [""];
  }

  // ---------------------------------------------------------------------------
  // parseUICPContent

  /** One element of the result: a text part with its key, or a rendered block with its key. */
  datatype Parsed =
    | TextContent(content: string, key: string)
    | ComponentContent(view: Rendered, key: string)

  /** What each block renders as. The renderer is a function of the block alone, so the
      rendering a placeholder calls for is the rendering of the block it names. */
  function Views(catalog: Catalog, components: map<string, Renderer>, blocks: seq<Block>): seq<Outcome<Rendered>> {
    seq(|blocks|, i requires 0 <= i < |blocks| => Render(catalog, components, blocks[i]))
  }

  /** What part number `index` of the split contributes, given the block renderings
      `views`: the rendering its placeholder names, when there is such a block; otherwise,
      if it holds no placeholder and is not blank, the part itself as text. */
  function PartOf(views: seq<Outcome<Rendered>>, part: string, index: nat): Outcome<seq<Parsed>> {
    match PlaceholderIndex(part)
    case Some(n) =>
      if n < |views| then
        match views[n]
        case TypeError => TypeError
        case Normal(view) => Normal([ComponentContent(view, "component-" + NatToString(n))])
      else Normal([])
    case None =>
      if Trim(part) != [] then Normal([TextContent(part, "text-" + NatToString(index))])
      else Normal([])
  }

  /** A part without a placeholder is shown, as text, exactly when it holds a character that
      is not whitespace (`part.trim()` is truthy). */
  lemma TextPartShown(views: seq<Outcome<Rendered>>, part: string, index: nat)
    requires PlaceholderIndex(part).None?
    ensures PartOf(views, part, index).Normal?
    ensures PartOf(views, part, index).value != [] <==> exists i :: 0 <= i < |part| && !IsWhitespace(part[i])
  {
    TrimEmpty(part);
  }

  /** The contributions of the first `n` parts, in order; a render that throws ends the pass. */
  function PartsOf(views: seq<Outcome<Rendered>>, parts: seq<string>, n: nat): Outcome<seq<Parsed>>
    requires n <= |parts|
  {
    if n == 0 then Normal([])
    else
      match PartsOf(views, parts, n - 1)
      case TypeError => TypeError
      case Normal(before) =>
        match PartOf(views, parts[n - 1], n - 1)
        case TypeError => TypeError
        case Normal(here) => Normal(before + here)
  }

  /** `parseUICPContent(content)`: with no accepted block, the whole content is the one
      text part `text-0`; otherwise the substituted text is split on placeholders and every
      part contributes as `PartOf` says. */
  function Compose(catalog: Catalog, components: map<string, Renderer>,
                   parse: string -> Option<Value>, content: string): Outcome<seq<Parsed>>
  {
    var x := Extract(content, parse);
    if |x.blocks| == 0 then Normal([TextContent(content, "text-0")])
    else
      var parts := Split(x.text);
      PartsOf(Views(catalog, components, x.blocks), parts, |parts|)
  }

  /** The composition of content that holds blocks, from its extraction. */
  lemma ComposeOf(catalog: Catalog, components: map<string, Renderer>,
                  parse: string -> Option<Value>, content: string, blocks: seq<Block>, text: string)
    requires Extract(content, parse) == Extraction(blocks, text) && blocks != []
    ensures Compose(catalog, components, parse, content) ==
      PartsOf(Views(catalog, components, blocks), Split(text), |Split(text)|)
  {
  }

  /** Once a part throws, the whole pass throws. */
  lemma {:induction false} PartsOfThrowsOn(views: seq<Outcome<Rendered>>, parts: seq<string>, i: nat, n: nat)
    requires i <= n <= |parts| && PartsOf(views, parts, i).TypeError?
    decreases n - i
    ensures PartsOf(views, parts, n).TypeError?
  {
    if i < n {
      PartsOfThrowsOn(views, parts, i, n - 1);
    }
  }

  /** Adding part `n` to the contributions of the parts before it. */
  lemma PartsOfStep(views: seq<Outcome<Rendered>>, parts: seq<string>, n: nat,
                    before: seq<Parsed>, here: Outcome<seq<Parsed>>)
    requires n < |parts| && PartsOf(views, parts, n) == Normal(before)
    requires PartOf(views, parts[n], n) == here
    ensures here.TypeError? ==> PartsOf(views, parts, n + 1).TypeError?
    ensures here.Normal? ==> PartsOf(views, parts, n + 1) == Normal(before + here.value)
  {
  }

  /** The `forEach` callback: what part number `index` adds to the result. */
  method Contribution(catalog: Catalog, registry: ComponentRegistry, blocks: seq<Block>,
                      part: string, index: nat) returns (r: Outcome<seq<Parsed>>)
    ensures r == PartOf(Views(catalog, registry.components, blocks), part, index)
  {
    var blockIndex := PlaceholderIndex(part);
    if blockIndex.Some? {
      if blockIndex.value < |blocks| {
        var component := RenderBlock(catalog, registry, blocks[blockIndex.value]);
        if component.TypeError? {
          return TypeError;
        }
        return Normal([ComponentContent(component.value, "component-" + NatToString(blockIndex.value))]);
      }
      return Normal([]);
    } else if Trim(part) != [] {
      return Normal([TextContent(part, "text-" + NatToString(index))]);
    }
    return Normal([]);
  }

  /** The parser as written: extraction, then one pass over the parts of the split. */
  method ParseContent(catalog: Catalog, registry: ComponentRegistry,
                      parse: string -> Option<Value>, content: string) returns (r: Outcome<seq<Parsed>>)
    ensures r == Compose(catalog, registry.components, parse, content)
  {
    var x := ExtractBlocks(content, parse);
    if |x.blocks| == 0 {
      return Normal([TextContent(content, "text-0")]);
    }
    ghost var views := Views(catalog, registry.components, x.blocks);
    var result: seq<Parsed> := [];
    var parts := Split(x.text);
    for index := 0 to |parts|
      invariant PartsOf(views, parts, index) == Normal(result)
    {
      var here := Contribution(catalog, registry, x.blocks, parts[index], index);
      PartsOfStep(views, parts, index, result, here);
      if here.TypeError? {
        PartsOfThrowsOn(views, parts, index + 1, |parts|);
        return TypeError;
      }
      result := result + here.value;
    }
    r := Normal(result);
  }

  /** `hasUICPBlocks(content)`: whether an opening fence occurs, complete block or not. */
  predicate HasBlocks(content: string): (r: bool)
    ensures r <==> FindFrom(content, Open, 0).Some?
    ensures r ==> |Open| <= |content|
  {
    ContainsFind(content, Open);
    Contains(content, Open)
  }

  /** Content in which no block even begins is passed through as one text part. */
  lemma ComposeWithoutBlocks(catalog: Catalog, components: map<string, Renderer>,
                             parse: string -> Option<Value>, content: string)
    requires !HasBlocks(content)
    ensures Compose(catalog, components, parse, content) == Normal([TextContent(content, "text-0")])
  {
    ExtractWithoutFence(content, parse);
  }

  /** With no accepted block the content is passed through whole, whatever it holds: the
      shortcut does not look at the cut text, so an opening fence that survived extraction
      is shown as it is. */
  lemma ComposeNoBlocks(catalog: Catalog, components: map<string, Renderer>,
                        parse: string -> Option<Value>, content: string)
    requires Extract(content, parse).blocks == []
    ensures Compose(catalog, components, parse, content) == Normal([TextContent(content, "text-0")])
  {
  }

  /** A message whose last block is still being written (an opening fence, with no closing
      fence after it) and that holds no earlier block: it has blocks in the sense of
      `hasUICPBlocks`, yet the result is the raw content, opening fence included. */
  lemma UnfinishedShownRaw(catalog: Catalog, components: map<string, Renderer>,
                           parse: string -> Option<Value>, s: string, pre: string, rest: string)
    requires s == pre + Open + rest && !Contains(pre, Open) && !Contains(rest, Fence)
    ensures HasBlocks(s)
    ensures Compose(catalog, components, parse, s) == Normal([TextContent(s, "text-0")])
  {
    UnclosedExtract(s, pre, rest, parse);
    UnclosedOpens(s, pre, rest);
    assert StartsAt(s, |pre|, Open);
  }

  /** A reply whose only block is closed but rejected: nothing is accepted, so the reply is
      shown raw, the rejected block included, although the cut had hidden it. */
  lemma RejectedShownRaw(catalog: Catalog, components: map<string, Renderer>,
                         parse: string -> Option<Value>, s: string, pre: string, body: string, post: string)
    requires Layout(s, pre, body, post)
    requires !Contains(pre, Open) && !Contains(post, Open) && PlainBody(body)
    requires Accept(parse(Trim(body))).None?
    ensures Compose(catalog, components, parse, s) == Normal([TextContent(s, "text-0")])
  {
    SingleBlockRejected(s, pre, body, post, parse);
    ComposeNoBlocks(catalog, components, parse, s);
  }

  /** The split of a text without placeholders is the text itself. */
  lemma SplitPlain(t: string)
    requires NextToken(t, 0).None?
    ensures Split(t) == [t]
  {
    assert t[0..] == t;
  }

  /** A rejected closed block followed by an accepted one: the accepted block is extracted,
      but no component is shown; the result is the text before the rejected block, when it
      is not blank (and holds no placeholder of its own). */
  lemma RejectedHidesAccepted(catalog: Catalog, components: map<string, Renderer>,
                              parse: string -> Option<Value>, s: string, pre: string,
                              body1: string, mid: string, body2: string, post: string, b: Block)
    requires TwoLayout(s, pre, body1, mid, body2, post)
    requires !Contains(pre, Open) && !Contains(mid, Open) && !Contains(post, Open)
    requires PlainBody(body1) && PlainBody(body2)
    requires Accept(parse(Trim(body1))).None? && Accept(parse(Trim(body2))) == Some(b)
    requires NextToken(TrimEnd(pre), 0).None?
    ensures var t := TrimEnd(pre);
      Compose(catalog, components, parse, s) ==
        Normal(if Trim(t) == [] then [] else [TextContent(t, "text-0")])
  {
    RejectedThenAccepted(s, pre, body1, mid, body2, post, parse, b);
    ComposeOfPlain(catalog, components, parse, s, [b], TrimEnd(pre));
  }

  /** The one part of a text without placeholders is shown as `text-0` unless it is blank. */
  lemma PartsOfPlain(views: seq<Outcome<Rendered>>, t: string)
    requires NextToken(t, 0).None?
    ensures PartsOf(views, [t], 1) == Normal(if Trim(t) == [] then [] else [TextContent(t, "text-0")])
  {
    assert PlaceholderIndex(t).None?;
    assert "text-" + NatToString(0) == "text-0";
    var here: seq<Parsed> := if Trim(t) == [] then [] else [TextContent(t, "text-0")];
    assert PartOf(views, [t][0], 0) == Normal(here);
    assert [] + here == here;
  }

  /** Accepted blocks whose placeholders all vanished from the cut text: only that text shows. */
  lemma ComposeOfPlain(catalog: Catalog, components: map<string, Renderer>,
                       parse: string -> Option<Value>, content: string, blocks: seq<Block>, t: string)
    requires Extract(content, parse) == Extraction(blocks, t) && blocks != []
    requires NextToken(t, 0).None?
    ensures Compose(catalog, components, parse, content) ==
      Normal(if Trim(t) == [] then [] else [TextContent(t, "text-0")])
  {
    ComposeOf(catalog, components, parse, content, blocks, t);
    SplitPlain(t);
    PartsOfPlain(Views(catalog, components, blocks), t);
  }

  /** `e` is what part `part`, number `index`, contributes. */
  predicate FromPart(views: seq<Outcome<Rendered>>, part: string, index: nat, e: Parsed) {
    match e
    case TextContent(t, key) =>
      t == part && PlaceholderIndex(part).None? && Trim(part) != [] && key == "text-" + NatToString(index)
    case ComponentContent(view, key) =>
      && PlaceholderIndex(part).Some?
      && var n := PlaceholderIndex(part).value;
      && n < |views|
      && views[n] == Normal(view)
      && key == "component-" + NatToString(n)
  }

  /** What one part contributes is what `FromPart` describes. */
  lemma PartOfSound(views: seq<Outcome<Rendered>>, part: string, index: nat)
    requires PartOf(views, part, index).Normal?
    ensures forall e :: e in PartOf(views, part, index).value ==> FromPart(views, part, index, e)
  {
  }

  /** A pass that does not throw is the pass over all parts but the last, followed by the
      last part's contribution. */
  lemma PartsOfLast(views: seq<Outcome<Rendered>>, parts: seq<string>, n: nat)
    requires 0 < n <= |parts| && PartsOf(views, parts, n).Normal?
    ensures PartsOf(views, parts, n - 1).Normal? && PartOf(views, parts[n - 1], n - 1).Normal?
    ensures PartsOf(views, parts, n).value == PartsOf(views, parts, n - 1).value + PartOf(views, parts[n - 1], n - 1).value
  {
  }

  /** Every element of the result comes from a part of the split: a text element is a
      non-blank part without a placeholder, keyed by its position; a component element is
      the rendering of the block its part's placeholder names, keyed by that block's index. */
  lemma {:induction false} PartsOfSound(views: seq<Outcome<Rendered>>, parts: seq<string>, n: nat)
    requires n <= |parts| && PartsOf(views, parts, n).Normal?
    ensures forall e :: e in PartsOf(views, parts, n).value ==>
      exists i :: 0 <= i < n && FromPart(views, parts[i], i, e)
  {
    if n > 0 {
      PartsOfLast(views, parts, n);
      PartsOfSound(views, parts, n - 1);
      PartOfSound(views, parts[n - 1], n - 1);
      var before := PartsOf(views, parts, n - 1).value;
      forall e | e in PartsOf(views, parts, n).value
        ensures exists i :: 0 <= i < n && FromPart(views, parts[i], i, e)
      {
        if e in before {
          var i :| 0 <= i < n - 1 && FromPart(views, parts[i], i, e);
        } else {
          assert FromPart(views, parts[n - 1], n - 1, e);
        }
      }
    }
  }

  /** Every part's contribution is in the result: together with `PartsOfSound`, the result
      holds exactly the non-blank text parts and the blocks named by in-range placeholders. */
  lemma {:induction false} PartsOfComplete(views: seq<Outcome<Rendered>>, parts: seq<string>, n: nat, i: nat)
    requires i < n <= |parts| && PartsOf(views, parts, n).Normal?
    decreases n
    ensures PartOf(views, parts[i], i).Normal?
    ensures forall e :: e in PartOf(views, parts[i], i).value ==> e in PartsOf(views, parts, n).value
  {
    PartsOfLast(views, parts, n);
    if i < n - 1 {
      PartsOfComplete(views, parts, n - 1, i);
    }
  }

  /** A placeholder names a block by its index wherever it comes from: one that the
      substitution wrote and one already present in the text alike become that block's
      rendering, so a literal placeholder in user text is not told apart. */
  lemma PlaceholderNamesBlock(views: seq<Outcome<Rendered>>, n: nat, index: nat, view: Rendered)
    requires n < |views| && views[n] == Normal(view)
    ensures PartOf(views, Placeholder(n), index) == Normal([ComponentContent(view, "component-" + NatToString(n))])
  {
    PlaceholderOf(n);
  }
}
