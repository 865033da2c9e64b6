# UICP block protocol, modelled in Dafny

This project models the embedded-block protocol of `lib/uicp`: the way a chat front end
finds fenced ```` ```uicp ```` blocks in a model's reply, and what it then does with them.
- It parses each block's JSON and keeps those with a truthy `uid` and `data`.
- It replaces each kept block with a placeholder `__UICP_BLOCK_i__`.
- It cuts the text at an unfinished block.
- It validates each block against the component definitions: the identifier must be known and every required input present.
- It renders each block as an error notice, a "not available" notice or the registered component.
- It splits the text back into text parts and component parts.

On the server side it models the two tools that let the model discover the components and
build a well-formed block.

The model is split into modules:
- `Text`: JavaScript string operations over `seq<char>`: `\s`, `trim`/`trimEnd`, `indexOf`, `includes`, first-occurrence `replace`, decimal printing and `parseInt`.
- `Json`: parsed JSON values, truthiness, property reads, the `in` operator (with its `TypeError`) and template-literal display.
- `Registry`: the definition document as a parameter, `find` by identifier, and the required-field rule shared by the validator and the construction tool.
- `Extractor`: `extractUICPBlocks`.
  - The regular expression ```` /```uicp\s*\n([\s\S]*?)```/g ```` is written as a scanner: the maximal whitespace run, its last newline, then the first closing fence.
  - The `exec` loop is a declarative specification, plus the `while` loop as a method proved equal to it.
  - A last step handles placeholder substitution and truncation.
- `Validator`: `validateUICPBlock`, as a specification function and as the `forEach` loop proved equal to it.
- `Resolver`: the mutable `COMPONENT_REGISTRY`, a class with `getComponent`, `registerComponent` and `getRegisteredComponents`.
- `Composer`:
  - `renderUICPBlock`, as a tagged result;
  - the placeholder split `/(__UICP_BLOCK_\d+__)/`;
  - `parseUICPContent`, as a specification and its `forEach` loop;
  - `hasUICPBlocks`.
- `Tools`:
  - the `execute` bodies of `get_ui_components` (discover) and `create_ui_component` (construct, with its `forEach` loop);
  - the round trip from a constructed block through extraction to composition.

`JSON.parse` and `JSON.stringify(_, null, 2)` have no Dafny counterpart. They are function
parameters (`parse: string -> Option<Value>`, where `None` is a thrown `SyntaxError`, and
`stringify: Value -> string`). The round trip takes, as a hypothesis about the one value it
serialises, that `parse` reads the serialisation back and that the serialisation neither
begins nor ends with whitespace and holds no closing fence. A JavaScript `TypeError` thrown
by the `in` test on truthy non-object data is modelled as `Outcome.TypeError`. It goes up
through validation, rendering and composition, as the exception does in the source.

The code and its own stated intent differ in two places, and the model follows the code.
- `extractUICPBlocks` is documented (at `lib/uicp/parser.tsx:39`) as truncating at an
  incomplete block so that raw block syntax is never shown. But `parseUICPContent` returns
  the original content whenever no block was accepted (`lib/uicp/parser.tsx:162-163`), so
  the truncation is discarded. A streamed reply such as ``Hi ```uicp\n{`` is shown raw,
  opening fence and partial JSON included (Composer.ComposeNoBlocks,
  Composer.UnfinishedShownRaw). A reply whose only block is closed but rejected is shown
  raw in the same way, rejected block included (Composer.RejectedShownRaw).
- When at least one block of the reply is accepted, the cut at a rejected closed block
  stands, and it hides every later block, accepted or not
  (Composer.RejectedHidesAccepted).

## Model

| member | source | states |
|---|---|---|
| Text.TrimEnd | lib/uicp/parser.tsx:76 | `trimEnd` keeps a prefix of the text that is empty or does not end in whitespace |
| Text.TrimEndRemovesWhitespace | lib/uicp/parser.tsx:76 | everything `trimEnd` removes is whitespace |
| Text.TrimDropsTrailingWhitespace | lib/uicp/parser.tsx:53 | `trim` of a text with non-blank ends followed by whitespace is that text |
| Text.TrimStartRemovesWhitespace | lib/uicp/parser.tsx:185 | every character the start of `trim` removes is whitespace |
| Text.TrimEmpty | lib/uicp/parser.tsx:185 | `trim()` gives the empty, falsy string exactly when the text is all whitespace |
| Text.FindFromSpec | lib/uicp/parser.tsx:72-73 | the search finds the first occurrence at or after the start, and finds nothing only when there is none |
| Text.ContainsFind | lib/uicp/parser.tsx:72-73 | `/```uicp/` matches exactly when the search for it succeeds |
| Text.ReplaceFirst | lib/uicp/parser.tsx:59-62 | replacing leaves a text without the pattern unchanged and otherwise changes its length by the size difference once |
| Text.DigitsValueOfNatToString | lib/uicp/parser.tsx:172 | `parseInt` of the decimal form `${i}` written at line 57 is `i` |
| Json.Property | lib/uicp/parser.tsx:56 | a property read yields a value exactly for an own key of an object |
| Json.HasKey | lib/uicp/parser.tsx:100 | `key in v` throws exactly on values other than objects and arrays, and on an object tests own-key membership |
| Json.Display | lib/uicp/parser.tsx:94 | `${n}` writes an integer in decimal, with a minus sign when it is negative, and `parseInt` reads the digits back as its magnitude |
| Registry.Find | lib/uicp/parser.tsx:92 | `find` yields nothing exactly when no definition has the identifier, and otherwise the first one that has it |
| Registry.MissingFieldsSpec | lib/uicp/parser.tsx:99-103 | a key is reported missing exactly when the schema requires it and the data lacks it |
| Registry.MissingFieldsAppend | lib/uicp/parser.tsx:99-103 | the rule works entry by entry over the schema, so its report follows schema order |
| Registry.MissingFieldsInSchemaOrder | lib/uicp/parser.tsx:99-103 | a missing required input is reported after those of the earlier inputs and before those of the later ones |
| Registry.MissingFieldsIgnoresExtraKeys | lib/uicp/parser.tsx:99-103 | data keys that no input is named after do not change the report |
| Registry.MissingRequired | lib/uicp/parser.tsx:99-103 | on object data the rule with `in` gives the own-key report |
| Registry.MissingRequiredThrows | lib/uicp/parser.tsx:100 | the rule throws exactly when some input is required and the data is neither an object nor an array |
| Extractor.MatchAtShape | lib/uicp/parser.tsx:46 | what the scanner finds at a position has the pattern's shape: fence, whitespace run ending in a newline, body without a closing fence, closing fence |
| Extractor.MatchAt | lib/uicp/parser.tsx:46 | a match found at a position spans from that position, and nothing is found where no opening fence starts |
| Extractor.MatchAtComplete | lib/uicp/parser.tsx:46 | wherever the pattern matches at a position, the scanner finds a match there with the same start, body end and end |
| Extractor.Exec | lib/uicp/parser.tsx:51 | `exec` from `lastIndex` returns a match that the scanner finds at its own start, at or after `lastIndex` |
| Extractor.ExecFinds | lib/uicp/parser.tsx:51 | when the pattern matches somewhere at or after `lastIndex`, `exec` returns a match starting there or earlier |
| Extractor.ExecLeftmost | lib/uicp/parser.tsx:51 | no match starts between `lastIndex` and the match `exec` returns |
| Extractor.AllMatchesOrdered | lib/uicp/parser.tsx:51 | the `/g` loop's matches are genuine matches, in source order, each starting after the previous one ended |
| Extractor.AcceptRule | lib/uicp/parser.tsx:52-56 | a body is accepted exactly when it parses to an object with truthy `uid` and `data`, and the block keeps those values |
| Extractor.Truncate | lib/uicp/parser.tsx:72-77 | the cut keeps a prefix that holds no opening fence, and keeps a text without one whole |
| Extractor.TruncateAt | lib/uicp/parser.tsx:72-77 | at the first surviving opening fence the text is the part before it with trailing whitespace removed |
| Extractor.Extract | lib/uicp/parser.tsx:41-80 | the text returned never contains an opening fence |
| Extractor.ExtractBlocks | lib/uicp/parser.tsx:41-80 | the `while` loop over `exec` computes the specification: accepted blocks in match order, placeholders substituted, then the cut |
| Extractor.ExtractStep | lib/uicp/parser.tsx:51-67 | one `exec` step contributes the block of its match if accepted and nothing otherwise |
| Extractor.SubstituteSnoc | lib/uicp/parser.tsx:57-62 | the block accepted after `n` others replaces its match text with placeholder `n` |
| Extractor.BlocksOfSnoc | lib/uicp/parser.tsx:58 | accepted blocks are appended in order |
| Extractor.ExtractWithoutFence | lib/uicp/parser.tsx:46-77 | content without an opening fence yields no block and is returned unchanged |
| Extractor.SingleBlockRejected | lib/uicp/parser.tsx:64-77 | a closed block that fails to parse or to pass the check stays in place, and the cut then hides it and everything after it |
| Extractor.SingleBlockAccepted | lib/uicp/parser.tsx:51-62 | a single well-formed accepted block between fence-free texts is extracted and replaced by `__UICP_BLOCK_0__` |
| Extractor.UnclosedExtract | lib/uicp/parser.tsx:46-77 | a first opening fence with no closing fence after it yields no block, and the text before it with trailing whitespace removed |
| Extractor.RejectedThenAccepted | lib/uicp/parser.tsx:51-77 | a rejected closed block followed by an accepted one: the accepted block is extracted, but the cut at the rejected block leaves only the text before it, trimmed |
| Validator.ValidateBlock | lib/uicp/parser.tsx:85-106 | the validator's loop computes the specification: unknown identifier, or one message per missing required input |
| Validator.UnknownIsInvalid | lib/uicp/parser.tsx:92-96 | an identifier no definition carries gives `valid = false` and exactly the one message `Unknown component UID: <uid>` |
| Validator.ObjectDataErrors | lib/uicp/parser.tsx:99-103 | for object data the messages are one `Missing required field: k` per required input `k` absent, in schema order, and only those |
| Validator.ValidIffNoErrors | lib/uicp/parser.tsx:105 | `valid` holds exactly when there are no messages, exactly when a definition carries the identifier and nothing required is missing |
| Validator.ValidateThrows | lib/uicp/parser.tsx:100 | validation throws exactly when the identifier is known, some input is required and the data is a truthy non-object, non-array |
| Validator.ExtraKeysIgnored | lib/uicp/parser.tsx:99-103 | extra data keys do not change the verdict or the messages |
| Resolver.ComponentRegistry.constructor | lib/uicp/parser.tsx:11-15 | the table starts with `NBAGameScore` and `NewsArticlePreview`, in that order |
| Resolver.ComponentRegistry.Get | lib/uicp/parser.tsx:26-28 | a lookup yields the registered renderer exactly for a registered identifier, `null` otherwise |
| Resolver.ComponentRegistry.Register | lib/uicp/parser.tsx:213-215 | registering sets only that identifier; every other lookup is unchanged; a new identifier is listed last and a replaced one keeps its place |
| Resolver.ComponentRegistry.RegisteredComponents | lib/uicp/parser.tsx:220-222 | the listed identifiers are the registration order itself: exactly the registered ones, each once, in insertion order |
| Composer.RenderBlock | lib/uicp/parser.tsx:111-152 | the renderer's steps compute the specification |
| Composer.RenderCases | lib/uicp/parser.tsx:115-151 | rendering is three-way: the error list when invalid; otherwise the registered component with the data as props; otherwise "not available" with the identifier |
| Composer.RenderThrows | lib/uicp/parser.tsx:115 | rendering throws exactly when validation does |
| Composer.NextTokenSpec | lib/uicp/parser.tsx:166 | the split finds the leftmost placeholder, and none is missed |
| Composer.SplitJoin | lib/uicp/parser.tsx:166 | the parts of the split, laid end to end, are the text |
| Composer.SplitShape | lib/uicp/parser.tsx:166 | the split alternates text parts holding no placeholder and parts that are exactly one placeholder |
| Composer.AlternatingParts | lib/uicp/parser.tsx:166-169 | even-numbered parts never match the placeholder pattern; odd-numbered parts are whole placeholders |
| Composer.PlaceholderOf | lib/uicp/parser.tsx:169-172 | the index read back from `__UICP_BLOCK_n__` is `n` |
| Composer.SplitPlaceholder | lib/uicp/parser.tsx:166 | a lone placeholder splits into an empty part, itself and an empty part |
| Composer.ParseContent | lib/uicp/parser.tsx:158-195 | the parser's loop computes the specification: one text part `text-0` when there is no block, otherwise each part's contribution in split order |
| Composer.Contribution | lib/uicp/parser.tsx:168-192 | the `forEach` callback computes one part's contribution |
| Composer.TextPartShown | lib/uicp/parser.tsx:185-191 | a part without a placeholder is pushed as text exactly when it holds a character that is not whitespace |
| Composer.ComposeWithoutBlocks | lib/uicp/parser.tsx:159-163 | content where `hasUICPBlocks` is false is returned whole and untruncated as the single text part `text-0` |
| Composer.HasBlocks | lib/uicp/parser.tsx:200-203 | `/```uicp/.test` holds exactly when the search for the opening fence succeeds, which needs a text at least as long as the fence |
| Composer.ComposeNoBlocks | lib/uicp/parser.tsx:159-163 | when no block is accepted, the whole original content, untruncated, is the single text part `text-0`, whatever fences it holds |
| Composer.UnfinishedShownRaw | lib/uicp/parser.tsx:159-163 | a reply whose only block is still open passes `hasUICPBlocks`, yet parses to its raw content, opening fence and partial body included |
| Composer.RejectedShownRaw | lib/uicp/parser.tsx:159-163 | a reply whose only block is closed but rejected is shown raw, rejected block included, as the single text part `text-0` |
| Composer.ComposeOfPlain | lib/uicp/parser.tsx:165-190 | when blocks were accepted but the cut text holds no placeholder, the result is that text as `text-0`, or nothing when it is blank |
| Composer.RejectedHidesAccepted | lib/uicp/parser.tsx:158-190 | after a rejected closed block, a later accepted block is extracted yet never shown: only the text before the rejected block appears |
| Composer.PartsOfSound | lib/uicp/parser.tsx:168-192 | each text element is a non-blank, untrimmed part without a placeholder, keyed `text-<part index>`; each component element renders the block its placeholder names, keyed `component-<block index>` |
| Composer.PartsOfComplete | lib/uicp/parser.tsx:168-192 | every part's contribution appears in the result, so no non-blank text part and no in-range placeholder is dropped |
| Composer.PartsOfThrowsOn | lib/uicp/parser.tsx:168-192 | a render that throws makes the whole parse throw |
| Composer.PlaceholderNamesBlock | lib/uicp/parser.tsx:166-171 | a placeholder becomes the rendering of the block it names wherever it came from, so a literal placeholder in user text is treated as a block reference |
| Tools.FilterSpec | lib/uicp/tools.ts:27-31 | the filter keeps exactly the definitions that pass, and is empty exactly when none does |
| Tools.FilterAppend | lib/uicp/tools.ts:27-31 | filtering keeps registry order |
| Tools.FilterAll | lib/uicp/tools.ts:25-31 | a filter every definition passes returns the registry unchanged |
| Tools.Discover | lib/uicp/tools.ts:23-62 | a success carries the registry version and a non-empty selection drawn from the registry; a failure needs a truthy argument or an empty registry |
| Tools.DedupSpec | lib/uicp/tools.ts:41 | `[...new Set(types)]` holds every type and repeats none |
| Tools.DedupPrefix | lib/uicp/tools.ts:41 | `[...new Set(types)]` lists types in order of first appearance |
| Tools.DiscoverByUid | lib/uicp/tools.ts:27-37 | a truthy `uid` selects exactly the definitions carrying it, ignores `component_type`, and fails, naming the UID, exactly when none does |
| Tools.DiscoverByType | lib/uicp/tools.ts:29-39 | without a truthy `uid`, a truthy type selects exactly the definitions of that type and fails, naming it, exactly when none does |
| Tools.DiscoverAll | lib/uicp/tools.ts:25-54 | without truthy arguments the whole registry is returned with its version, failing only when it is empty |
| Tools.AvailableTypes | lib/uicp/tools.ts:41 | a failure lists each registry type exactly once |
| Tools.CreateComponent | lib/uicp/tools.ts:86-133 | the tool's loop computes the specification |
| Tools.ConstructUnknown | lib/uicp/tools.ts:88-96 | an unknown identifier fails with `Unknown component UID: <uid>` and every registry UID, in order |
| Tools.MissingFieldsReported | lib/uicp/tools.ts:99-113 | `missing_fields` is exactly the required inputs absent from the data; the tool succeeds exactly when there are none |
| Tools.ConstructCreated | lib/uicp/tools.ts:115-132 | on success the message names the type and UID, and the block is exactly `"```uicp\n" + stringify({uid, data}) + "\n```"` |
| Tools.ConstructAgreesWithValidator | lib/uicp/tools.ts:99-113 | the tool and `validateUICPBlock` agree: success exactly when valid, the same unknown-UID message, one `Missing required field` message per reported field |
| Tools.ConstructRoundTrip | lib/uicp/tools.ts:122 | with a non-empty UID and a fence-free serialisation, extracting a created block yields exactly `{uid, data}` and the text `__UICP_BLOCK_0__` |
| Tools.CreatedRenders | lib/uicp/tools.ts:99-113 | a created block renders as its component, or as "not available", and never as the invalid notice |
| Tools.ConstructThenCompose | lib/uicp/tools.ts:116-122 | a reply consisting of a created block alone parses to the single component part `component-0` |

## Left out

- `JSON.parse` and `JSON.stringify` internals: indentation, escaping and numbers other than integers are not modelled. They are parameters, and the round trip assumes `Serialises` for the one value it serialises.
- Tools.ConstructRoundTrip: holds under the hypotheses that the UID is non-empty and the serialisation holds no closing fence. A `data` string containing three backticks breaks the round trip, and that case is not modelled further.
- Object key order: object data is a map. Schema order is kept as a sequence in the order `Object.entries` gives. The reordering of integer-like keys by `Object.entries` and `Object.keys` is not modelled, for schemas and for the registry table alike.
- Prototype lookups: `in`, `getComponent` and `registerComponent` on inherited names such as `constructor` or `__proto__` are modelled as own-key operations.
- `parseInt` precision: indices above 2^53 are read exactly, not rounded.
- `String.prototype.replace` replacement patterns: the replacement is always a placeholder, which holds no `$`, so they cannot arise.
- React: elements, element keys passed to `renderUICPBlock`, styling and the fixed texts of the notices are left out. A component is a `Renderer` value named after its identifier. The result of a render is the tagged `Rendered` value.
- Extractor.Block: keeps only `uid` and `data` of the parsed object. Nothing downstream reads the other keys that `blocks.push(parsed)` keeps.
- Text: characters are Unicode scalars, not UTF-16 code units. No index into the text is observable, so nothing depends on the difference.
- `console.error` diagnostics are left out.
- `async`, the `tool()` wrapper and the zod parameter schemas are left out. Arguments are taken as already of the declared types: optional strings for discovery, a string and an object for construction.
- Fixed parts of the tool results are left out: the `success` flag (the result constructor carries it), the descriptions, and the constant `usage` and `instructions` texts.
- Discovery's projection onto `uid`, `type`, `description`, `inputs` and `example` is the identity: a definition has exactly those fields here.
- The streaming caller in `components/message.tsx` is not part of this model. It calls `parseUICPContent` only when `hasUICPBlocks` is true. Composer.ComposeWithoutBlocks shows that the guard does not change the parts shown.
- Json.Display: JSON numbers are exact unbounded integers. JavaScript writes an integer with absolute value at least 10^21 in exponent form (`${1e21}` is `1e+21`); the model writes all its digits, so an `Unknown component UID` message for such a numeric `uid` differs.
- A literal `__UICP_BLOCK_n__` in user text is not escaped by the source. The model keeps that behaviour, and Composer.PlaceholderNamesBlock states it.
