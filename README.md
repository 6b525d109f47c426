# Markdown renderer: rule table, selector matching, trim and escapeText

This project models the rule engine of the renderer that turns an HTML-like
document tree into Markdown. The behaviour modelled is what the renderer's
test suite, `test/renderer.spec.js`, fixes:

- A renderer owns a table from selector keys to converters. The table is
  filled by `Renderer.factory(options)` and by `addRule(key, converter)`.
  A comma-joined key such as `"H1, H2, H3"` registers one entry per
  selector.
- A selector such as `"P DIV H3"` is an ancestor chain. Its last token
  names the node's own tag, or `TEXT_NODE` for text. Every earlier token
  must name an enclosing element, from the outside in, with any other
  elements allowed in between.
- `convert(node, fallback)` picks the most specific matching entry, where
  specificity is the number of tokens. It returns that entry's text, or the
  fallback when nothing matches or the converter's result is falsy.
- `mix(other)` registers the other renderer's entries one exact selector
  at a time. Keys the other table lacks keep their converters, even when
  they came from the same comma group.
- `trim` strips space, tab, CR and LF from both ends, but never a
  non-breaking space. `escapeText` puts one backslash before every
  occurrence of ``* ( ) [ ] { } _ # ` + - . !``.

The implementation file `src/renderer.js` is not part of this model. The
model follows the suite's expectations, and the descendant-selector and
specificity rules above. The suite's cases agree with those rules, but
every node they use has its selector's tokens on consecutive parents.

Modules:

- `Wrappers`: `Option`.
- `Text`: `Trim`, `EscapeText` and their laws. Also the string splitting
  that keys are parsed with.
- `Selectors`: nodes, key parsing (`ParseKey`), matching (`Matches`) and
  specificity. Includes the proof that the outward ancestor scan decides
  exactly "the tokens occur in order".
- `Rules`:
  - the table as a sequence of entries with distinct selectors;
  - its meaning `TableOf` as a map of selectors to converters;
  - registration (`Put`, `AddKey`, `AddOptions`, `PutEntries`);
  - the choice of rule (`BestMatch`, `ConvertWith`).
- `Render`: the `Renderer` class. Its `rules` field is updated in place by
  the constructor (the factory), `AddRule` and `Mix`, and the `Convert`
  query reads it.
- `Scenarios`: every case of the suite except the `getSpaceControlled` one,
  each written as one or more methods or lemmas. Each method builds the
  renderers as the case does and states, as its postcondition, the text
  the case expects.

A converter is modelled by what it returns: `Some(text)`, or `None` for a
callback that returns `false` or nothing. `None` and `Some("")` are falsy.
A node is `Element(tag, ancestors)` or `TextNode(ancestors)`. Ancestor tags
are listed innermost first, and the document root the parser wraps around
the markup is not among them.

## Model

| member | source | states |
|---|---|---|
| Render.Renderer.constructor | test/renderer.spec.js:26-32 | The factory's options are registered in order, as `addRule` would register each. The new table's meaning is the options' key tables laid over each other, later options winning. |
| Render.Renderer.AddRule | test/renderer.spec.js:14-16 | Every selector the key lists now maps to the converter. Every other selector keeps its entry, and the table invariant (distinct, well-formed keys) is kept. |
| Render.Renderer.Mix | test/renderer.spec.js:268 | The receiver's table becomes its old table overridden by the other table, key by exact key. The other renderer is unchanged. |
| Render.Renderer.Convert | test/renderer.spec.js:49-51 | With no matching key the fallback comes back. When one matching key is strictly more specific than every other, its converter decides the result, and a falsy result gives the fallback. |
| Rules.BestMatch | test/renderer.spec.js:273-275 | The chosen entry matches, no matching entry is more specific, and no later matching entry is as specific, so the most recently registered of equally specific keys wins. It is the only entry meeting all three. There is none exactly when no entry matches. |
| Rules.ConvertWith | test/renderer.spec.js:42-74 | No match gives the fallback. A falsy winner gives the fallback. Otherwise the winner's text is returned. |
| Rules.ConvertFollowsTable | test/renderer.spec.js:42-52 | Convert depends only on the table's meaning: no matching key gives the fallback, and the strictly most specific matching key decides. |
| Rules.ConvertByTable | test/renderer.spec.js:270-275 | A key that beats every other matching key by specificity decides the conversion, wherever its entry stands in the table. |
| Rules.ConvertRoot | test/renderer.spec.js:127-144 | A node right below the document root is decided by its own single-tag key alone. Without that key, or with a falsy converter under it, the fallback comes back. |
| Rules.MoreSpecificBeats | test/renderer.spec.js:274-275 | A matching entry is never chosen over a matching entry with more tokens. |
| Rules.PutWins | test/renderer.spec.js:268-275 | An entry just registered for a selector is the one chosen for a node that selector matches, unless an entry left in the table is more specific for that node. |
| Rules.TableOfPutAll | test/renderer.spec.js:14-16 | Registering a list of selectors with one converter lays a table mapping each of them to it over the old table. |
| Rules.TableOfPutEntries | test/renderer.spec.js:268 | Registering another table's entries lays that table over this one. |
| Rules.TableOfAddOptions | test/renderer.spec.js:28-32 | The factory's options mean their key tables laid over each other in order. |
| Rules.AddKeyComma | test/renderer.spec.js:14 | Registering `"A,B"` leaves exactly the table that registering `A` and then `B` leaves. |
| Rules.MixIdempotent | test/renderer.spec.js:268 | Mixing the same source twice leaves the same table as mixing it once. |
| Selectors.ParseKey | test/renderer.spec.js:14 | Every selector parsed from a key has at least one token, no token is blank or holds white space, and none holds a comma. |
| Selectors.CommaExpansion | test/renderer.spec.js:76-97 | The selectors of `"A,B"` are those of `A` followed by those of `B`. |
| Selectors.ParseKeyOfList | test/renderer.spec.js:14 | A key of single tags joined by `", "` parses into exactly those tags, each a selector of its own. |
| Selectors.Matches | test/renderer.spec.js:99-125 | A match names the node's own rule name as its last token, and it has no more tokens than the node has ancestors plus one. |
| Selectors.MatchesIff | test/renderer.spec.js:99-125 | A selector matches exactly when its last token is the node's rule name and its other tokens occur in order among the ancestors, gaps allowed. |
| Selectors.FoundInOrderIff | test/renderer.spec.js:234-242 | The outward scan of the ancestor chain succeeds exactly when the wanted tokens can be placed at strictly outward ancestors in order. |
| Selectors.RootMatchesSingleTokenOnly | test/renderer.spec.js:127-144 | A node without ancestors is matched by exactly one selector, its own rule name alone. |
| Text.Trim | test/renderer.spec.js:163-170 | The result is no longer than the input. It neither starts nor ends with space, tab, CR or LF. It is empty exactly when the input is all such characters. |
| Text.TrimOfPadded | test/renderer.spec.js:166-169 | White space, then a part that neither starts nor ends with white space, then white space: the result is exactly that part. |
| Text.TrimSurroundings | test/renderer.spec.js:163-170 | The input is the result with one run of trimmable characters before it and another after it. |
| Text.TrimIdempotent | test/renderer.spec.js:163-170 | Trimming twice gives what trimming once gives. |
| Text.EscapeText | test/renderer.spec.js:172-184 | The result is as long as the input plus its number of protected characters. Every protected character in it follows a backslash. |
| Text.UnescapeEscapeText | test/renderer.spec.js:172-184 | Dropping the backslash in front of each protected character gives back the original text. |
| Text.EscapeTextConcat | test/renderer.spec.js:180 | Escaping works character by character, so it distributes over concatenation. |
| Text.EscapeTextPlain | test/renderer.spec.js:175-183 | Text without protected characters is unchanged. |
| Scenarios.TakesRule | test/renderer.spec.js:10-24 | After `addRule` with the heading key, an H1 converts to the rule's text. |
| Scenarios.FactoryOption | test/renderer.spec.js:26-40 | The same holds when the rule is given to the factory. |
| Scenarios.NoRule | test/renderer.spec.js:42-52 | Without rules, `convert` returns the fallback ("subContents"). |
| Scenarios.FalsyConverters | test/renderer.spec.js:54-74 | With converters that return `false` or nothing, H1 and EM both give the fallback. |
| Scenarios.CommaSeparated | test/renderer.spec.js:76-97 | H2 and H6 get the comma-joined heading rule. |
| Scenarios.NestedSelectors | test/renderer.spec.js:99-125 | An LI inside a UL gets the "UL LI" rule, and one inside an OL gets the "OL LI" rule. |
| Scenarios.NotOverRoot | test/renderer.spec.js:127-144 | A P right below the root gets the "P" rule, not the "DIV P" rule. |
| Scenarios.TextNodeRuleName | test/renderer.spec.js:146-161 | A text node inside a P gets the "TEXT_NODE" rule. |
| Scenarios.TrimLineBreaks | test/renderer.spec.js:166 | `"aa\r\n"` trims to `"aa"`. |
| Scenarios.TrimTab | test/renderer.spec.js:167 | `"\t"` trims to the empty string. |
| Scenarios.TrimSpaces | test/renderer.spec.js:168 | `" aa aa "` trims to `"aa aa"`. |
| Scenarios.TrimKeepsNonBreakingSpace | test/renderer.spec.js:169 | `"Hello"`, a non-breaking space and a space trims to `"Hello"` followed by the non-breaking space. |
| Scenarios.EscapeWrappedCases | test/renderer.spec.js:175-179 | `*`, `( )`, `[ ]`, `{ }` and `_` around "text" are each escaped with one backslash. |
| Scenarios.EscapeRepeatedCases | test/renderer.spec.js:180-181 | `"##"` becomes two escaped `#`, and a backtick is escaped. |
| Scenarios.EscapeSpacedCases | test/renderer.spec.js:182-183 | `+`, `-`, `.` and `!` are escaped where they stand apart from the word. |
| Scenarios.MixRenderers | test/renderer.spec.js:222-276 | After `renderer1.mix(renderer2)`, H1, P and H3 under P > DIV give renderer2's text; H2, H3 under P and H3 under DIV give renderer1's. |

## Left out

- `getSpaceControlled` (test/renderer.spec.js:186-220): it reads the raw, untrimmed text of DOM siblings and children, and five DOM examples are too little to state its algorithm faithfully.
- `DomRunner` and `toDom`, the HTML parser and the tree walker: a node is given directly as its tag (or the text-node marker) plus its ancestors' tags. Entity decoding (`&nbsp;`) is part of the parser, so the non-breaking-space case starts from the decoded character U+00A0.
- Converter callbacks are modelled only by their result, as `Option<string>`. The arguments they receive (the node and the converted content of its children), their side effects and their exceptions are not modelled.
- Tag names are compared exactly, as the DOM supplies them in upper case; case folding is not modelled.
- `convert` called without a fallback (lines 21, 37, 87, 94, 115, 123, 141, 158, 270-275) is modelled with the empty string as fallback. In each of those cases a rule matches and decides, so the fallback plays no part.
- Ties between distinct, equally specific matching keys are not fixed by the suite. The model picks the most recently registered key; `Rules.BestMatch` states that choice.
- The table is a sequence of entries with distinct selectors, and its meaning as a map (`Table()`) is a ghost function of it. A plain `map` field would lose the order the tie-break needs.
- Scenario texts ("markdownText", "ulli", "renderer1", and so on) are method parameters: each scenario holds for any converter text.
- Gaps between selector tokens: the model lets other elements stand between the ancestors a selector names, as a descendant selector does. No case of the suite has such a gap, so the suite does not decide between this reading and a parent-chain-only one.
- The mixing case (lines 224-242) builds its nodes by hand as bare `parentNode` chains with no wrapping document root. In the model every element of such a chain is an ancestor.
- Render.Renderer.Convert: its contract covers a table whose matching keys have a strictly most specific one, which holds in every case of the suite. The general tie-broken choice is stated by `Rules.ConvertWith` and `Rules.BestMatch`.
