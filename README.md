# dynamic-pub-path-plugin, modelled in Dafny

The plugin hooks into webpack's main template. Through the `requireExtensions` hook it rewrites
the bootstrap text once. The first assignment `__webpack_require__.p = <rhs>;` becomes

    __webpack_require__.p = (function(o){ o.toString = function() { return <expression> }; return o; }({}))

so the public path is an object whose `toString` evaluates the configured expression when the
runtime concatenates it with a chunk name. The rewrite is one call:
`source.replace(/(__webpack_require__\.p) = (.*);/, template)`. The template is a template literal
holding `$1` and the `expression` option. That option defaults to `null` in the constructor
(`Object.assign({ expression: null }, options)`).

The model is pure, like the source. Its modules are listed below (`Optional` only holds an
`Option` datatype):

- `PublicPathPattern` (pattern.dfy) models the regular expression by hand. `Matches(s, i, e)` says
  when the pattern matches exactly `s[i..e]`: the literal `__webpack_require__.p = `, then
  characters other than the four line terminators `\n`, `\r`, U+2028 and U+2029, then a `;`.
  `IsSelected` picks the match that a regex without the `g` flag uses: the leftmost start, and the
  longest greedy `.*` for that start. The scanners `LineEnd`, `LastSemicolon`, `MatchEndAt`,
  `FindFrom` and `FindMatch` compute this match and are proved against `IsSelected`.
- `Substitution` (substitution.dfy) models ECMA-262's GetSubstitution (section 22.1.3.19.1 of the
  2023 edition). This is how `replace` expands `$$`, `$&`, `` $` ``, `$'`, `$n`, `$nn` and `$<` in
  the replacement string. The expansion applies to the user's expression too, because the
  expression is spliced into the template before `replace` sees it.
- `DynamicPubPathPlugin` (plugin.dfy) covers three things: the option defaulting, `ToString` of
  the expression value as the template literal applies it, and the template itself. It also holds
  `Rewrite` (the hook body) and `Apply` (the constructor's options followed by the hook).
- `TextSplice` (properties.dfy) covers replacing one span of a text, the only edit `replace` makes
  when the regex has no `g` flag. `RewriteProperties` (properties.dfy) holds the lemmas about the
  rewrite.

The plugin's code has no syntax-tree rewriter, no use-site rewriting, no cache, no source-map
handling and no failure collection. It has no idempotence check either, and a `null` expression
raises no configuration error. The model follows the code: a `null` expression is written out as the text `null`, and a second rewrite of
the output changes it again (`NotAFixedPoint`).

## Model

| member | source | states |
|---|---|---|
| `PublicPathPattern.LineEnd` | index.js:11 | `.` stops at a line terminator: the result is the first terminator at or after `k`, or the end of the text, and no terminator lies before it |
| `PublicPathPattern.LastSemicolon` | index.js:11 | greedy backtracking of `.*` before `;`: the result is a `;` inside the range with no `;` after it, or `None` when the range holds no `;` |
| `PublicPathPattern.MatchEndAt` | index.js:11 | at start `i` the pattern matches exactly when the result is `Some`; that end is a match and no longer match starts at `i` |
| `PublicPathPattern.FindFrom` | index.js:11 | the result is a match at the smallest start `>= i` with the greedy end; `None` means no match starts at or after `i` |
| `PublicPathPattern.FindMatch` | index.js:11 | `None` exactly when the text holds no match; otherwise the result is the leftmost-greedy match, and it is the only one |
| `PublicPathPattern.SelectedUnique` | index.js:11 | a text has at most one leftmost-greedy match, so "the first match" is well defined |
| `PublicPathPattern.RightHandSide` | index.js:11 | the second group is the text between ` = ` and the final `;`, and it contains no line terminator |
| `PublicPathPattern.MatchesShift` | index.js:11 | whether the pattern matches depends only on the matched text, so a match moved to another text with the same characters is still a match |
| `Substitution.Token` | index.js:11 | each `$`-pattern of the replacement string spans 1 to 3 characters; a character other than `$` is copied as it is |
| `Substitution.Expand` | index.js:11 | GetSubstitution, token by token from the left; its lemmas `ExpandLiteral`, `ExpandLiteralPrefix` and `ExpandInertSuffix` show that `$`-free text is copied verbatim, before the expansion of what follows it and after the expansion of what precedes it, unless a `$`-pattern could absorb it |
| `Substitution.ExpandLiteral` | index.js:11 | a replacement string without `$` is inserted verbatim |
| `Substitution.ExpandLiteralPrefix` | index.js:11 | a `$`-free leading part of the replacement string is copied, and the rest is expanded independently |
| `Substitution.ExpandInertSuffix` | index.js:11 | a `$`-free trailing part that starts with a character no `$`-pattern can continue is copied after the expansion of what precedes it |
| `DynamicPubPathPlugin.Configure` | index.js:2-6 | `expression` is always present. It is `null` unless the caller's options define it. Every other key the caller supplies is kept with its value, except `__proto__`: `Object.assign` writes that key through the prototype setter, which creates no own key |
| `DynamicPubPathPlugin.ToText` | index.js:11 | `${expression}` renders `null` as `null`, `undefined` as `undefined`, booleans as `true` or `false`, and a string as itself; only a string can bring a `$` into the template |
| `DynamicPubPathPlugin.Template` | index.js:11 | the template literal: `$1`, then the fixed head, the expression's text and the fixed tail, before `replace` expands it |
| `DynamicPubPathPlugin.TemplateDollarSigns` | index.js:11 | the template opens with `$1`, and for an expression without `$` that is its only `$`-pattern |
| `DynamicPubPathPlugin.Context` | index.js:11 | `$`-patterns see the whole source, the match's position and text, and the two groups: `__webpack_require__.p` and the old right-hand side |
| `DynamicPubPathPlugin.Replacement` | index.js:11 | the replacement is `__webpack_require__.p`, then the fixed head ` = (function(o){ o.toString = function() { return `, then the expanded expression, then the fixed tail ` }; return o; }({}))` |
| `DynamicPubPathPlugin.TemplateExpansion` | index.js:11 | in the template, `$1` becomes the first group and the fixed text around the expression is copied; only the expression goes through `$`-expansion |
| `DynamicPubPathPlugin.Rewrite` | index.js:10-12 | without a match the source is returned unchanged; otherwise the result is the text before the leftmost-greedy match, then the replacement, then the text after the match |
| `DynamicPubPathPlugin.Apply` | index.js:2-12 | with no options, or options lacking `expression`, the rewrite uses the text `null`; otherwise it uses the supplied value's string form |
| `TextSplice.Splice` | index.js:11 | replacing `s[i..e]` keeps the text before `i` and the text from `e` on, puts the new text between them, and changes the length by the new text's length minus `e - i` |
| `TextSplice.SpliceChanges` | index.js:11 | splicing text that ends in `)` over a span that ends in `;` always changes the text |
| `TextSplice.SpliceKeepsLaterMatch` | index.js:11 | a match that lies after the replaced span keeps its text and still matches, shifted by the length change |
| `TextSplice.SpliceKeepsInsertedMatch` | index.js:11 | a match inside the inserted text is a match of the spliced text |
| `RewriteProperties.SelectedEndsAtLastSemicolon` | index.js:11 | the replaced span crosses no line terminator, and no `;` follows it on the same line, so it ends at that line's last `;` |
| `RewriteProperties.RewriteSplices` | index.js:11 | the output is the source with the leftmost-greedy match replaced: the prefix before it and everything after the dropped `;` are kept |
| `RewriteProperties.RewriteIdentityIffNoMatch` | index.js:11 | the output equals the input exactly when the pattern does not match, for every expression |
| `RewriteProperties.ReplacementShape` | index.js:11 | for an expression without `$`, the replacement is the exact template text with the expression inserted verbatim |
| `RewriteProperties.LaterMatchesSurvive` | index.js:11 | no `g` flag: an assignment that matches at or after the end of the first match keeps its text, and still matches in the output, shifted by the change in the text's length |
| `RewriteProperties.ReplacementRematches` | index.js:11 | the template with a single-line expression without `$` inserted verbatim (which is the replacement for such an expression) is itself a match of the pattern, and its greedy end is the `;` after `return o`, the replacement's last `;` |
| `RewriteProperties.NotAFixedPoint` | index.js:11 | a text with a match changes again when rewritten a second time (expression without `$` or line break) |
| `RewriteProperties.DollarPairCollapses` | index.js:11 | `$$` in the expression comes out as one `$`, so the expression is not always copied verbatim |
| `RewriteProperties.MatchedTextPattern` | index.js:11 | `$&` in the expression comes out as the whole matched assignment, `;` included |
| `RewriteProperties.AssignmentLineSelected` | index.js:11 | when no match starts in the code before it and the assignment ends its line with `;`, the match is that whole line up to the final `;`, even if the old right-hand side holds other `;` |
| `RewriteProperties.AssignmentEndingItsLine` | index.js:3-11 | with no options, an assignment that ends its line, after code holding no match, becomes the template with `null` as the expression; the code before it, the line break and everything after it are kept |

## Left out

- Hook registration (`compiler.hooks.compilation.tap`, `mainTemplate.hooks.requireExtensions.tap`, index.js:9-10) is webpack plumbing. The model takes the bootstrap text as a parameter of `Rewrite`.
- The run-time meaning of the emitted JavaScript is left out. This covers `toString` coercion when the public path is concatenated, and evaluation of the expression.
- Expression values: the model covers `null`, `undefined`, booleans and strings. Numbers, objects, functions and symbols are left out, because their `ToString` (number formatting, user `toString` methods, a thrown TypeError) is outside the rewrite.
- Options arguments that are not objects (strings, numbers) are left out. `Object.assign` would copy their own indexed properties, and `Configure` only models an options object (or its absence).
- The constructor stores `this.options`, and `apply` reads `expression` at line 8. The model assumes nothing changes `this.options` in between, so `Apply` reads the value the constructor produced.
- JavaScript strings are UTF-16 code units; Dafny strings here are sequences of Unicode scalar values. Without the `u` flag, `.` matches each half of a surrogate pair, and both halves are non-terminators. Match positions therefore agree, but indices count scalar values rather than code units. Lone surrogates cannot be represented.
- Named groups: `$<` is always copied unchanged, which is right only because the pattern has no named groups. Named-group substitution is not modelled.
