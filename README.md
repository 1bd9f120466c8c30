# html-string renderer, modelled in Dafny

The repository renders HTML with a JavaScript tagged template: `` html`<p>${value}</p>` ``
receives the literal fragments and the interpolated values. It turns each value into text,
escaping it with the `xss` sanitiser unless the value is trusted, and concatenates
fragments and values. Three variants of the renderer exist, and each is modelled here:

- `src/html.ts`, the current library (module `TsRenderer`). `toHtmlValue` classifies
  a value as an array, absent, a number, an `UnsafeValue` or `HtmlString` wrapper,
  another object, or anything else. `html` interleaves fragments and converted values
  and wraps the text in an `HtmlString`. `html.attrs` expands an object into HTML
  attributes with kebab-cased names. `html.render` unwraps and trims. `html.unsafe`
  marks a value as trusted.
- `lib/html.js`, the CommonJS build of the same library (module `LibRenderer`). Its
  wrappers hand back their stored value as it is rather than its `toString()`.
- `src/html.js`, an older design (module `LegacyRenderer`). It is a left fold over the
  fragments. The fragment after a value decides what happens to the value:
  - `:html` emits it unescaped;
  - `:attrs` expands an object into `key="value"` pairs;
  - anything else escapes it.

  Every `:html` and `:attrs` token is then removed from the fragments.

Shared pieces:

- `Strings`: `join`, `trim` with the ECMAScript whitespace set, `String.raw`-style
  interleaving of fragments and substitutions, and the decimal `toString` of integers.
- `Values`: the interpolated values as one closed datatype (`Null`, `Undefined`,
  `Bool`, `Num`, `Str`, `Arr`, the `Unsafe` and `Html` wrappers, and `Obj` for any other
  object), with JavaScript's `String(...)` conversion.
- `Kebab`: `toKebabCase`, identical in all three files (src/html.ts:28-29,
  lib/html.js:4-5, src/html.js:4-6).

Throughout, an *absent* value is one of `false`, `null` and `undefined`: the three values
that src/html.ts:62 and src/html.js:38 test for (`Values.IsAbsent`). JavaScript's other
falsy values, `0`, `""` and `NaN`, are not absent here.

The `xss` sanitiser is foreign code. Every operation that escapes takes it as a
parameter `esc: string -> string`, so every property holds for any sanitiser. Statements
such as "escaped once" or "never escaped" are made precise in two ways:

- An output is shown to be `Fill(esc, plan)`, where the plan marks which pieces go
  through `esc`.
- The output is shown to be the same under every escaper.

## Model

| member | source | states |
|---|---|---|
| Kebab.HyphenateScan | src/html.ts:29 | the regular expression's `replace`, one match attempt at a time, adds exactly one hyphen per capital |
| Kebab.ToKebabCase | src/html.ts:28-29 | a kebab-cased name contains no ASCII capital |
| Kebab.LowerAscii | src/html.ts:29 | `toLowerCase` keeps the length and leaves no capital |
| Kebab.ScanIsHyphenBeforeUpper | src/html.ts:28-29 | the regular expression's two alternatives, applied left to right, put a hyphen before every capital, whatever precedes it, and change nothing else |
| Kebab.KebabIsHyphenatedLowercase | src/html.ts:28-29 | `toKebabCase` is "hyphen before every capital, then lower-case" |
| Kebab.KebabLength | src/html.ts:28-29 | the name grows by exactly one hyphen per capital |
| Kebab.KebabFixesExactlyLowercase | src/html.ts:28-29 | a name is unchanged if and only if it has no capital |
| Kebab.KebabIdempotent | src/html.ts:28-29 | kebab-casing twice is kebab-casing once |
| Kebab.KebabOneHump | lib/html.test.js:137-152 | `head` + capitalised word becomes `head-word` (`dataCustom` gives `data-custom`) |
| Kebab.KebabAppend | lib/html.test.js:137-152 | kebab-casing distributes over concatenation, so `dataMultipleWords` gives `data-multiple-words` word by word |
| Kebab.KebabNoWhitespace | src/html.ts:28-29 | kebab-casing adds no whitespace and never shortens a name |
| Strings.Trim | src/html.ts:113 | `trim` leaves no whitespace at either end and returns the input with only whitespace cut from both ends |
| Strings.TrimIdempotent | lib/html.js:66 | trimming twice is trimming once |
| Strings.TrimFixesTrimmed | src/html.ts:113 | text without whitespace at its ends is left alone |
| Strings.TrimIgnoresTrailingWhitespace | src/html.ts:113 | whitespace appended to a text does not change its trim |
| Strings.JoinTrimmed | src/html.ts:113 | non-empty parts without whitespace at their ends, joined by spaces, need no trim |
| Strings.Join | src/html.ts:60 | `Array.prototype.join`: the parts in order with one separator between neighbours; its laws are `JoinAppend` and `JoinTrimmed` |
| Strings.Interleave | src/html.ts:102 | `String.raw({ raw: strings }, ...subs)`: substitution `i` between fragment `i` and fragment `i + 1`; its laws are the `Interleave*` lemmas |
| Strings.InterleaveEnds | src/html.ts:102 | the interleaved text starts with the first fragment and ends with the last |
| Strings.NatDecimal | src/html.ts:66 | the numeral of a natural number is non-empty digits whose value is the number, with no leading zero |
| Strings.Decimal | src/html.ts:66 | an integer's `toString` is signed exactly when negative and the digits after the sign stand for its magnitude, with no leading zero; "0" exactly for zero |
| Values.JsString | lib/html.js:50-55 | `String(v)` as a template literal and `String.raw` convert: `null`, `undefined`, `true`/`false` their names, a number its numeral, a string itself, another object its own `toString()`, a wrapper "[object Object]"; `[]` gives "" and a one-element array its element as `join` converts it |
| Values.JsStringArrayCons | lib/html.js:50-55 | an array of two or more elements converts to its first element as `join` converts it, a comma, then the rest of the array converted the same way; with the `JsString` cases this fixes the comma join of every array |
| TsRenderer.ToHtmlValue | src/html.ts:58-78 | absent values give "", a number its numeral, a string its escaped text, a wrapper its stored value as `value?.toString() ?? ""` converts it (nothing for `null` and `undefined`), unescaped |
| TsRenderer.ToHtmlValueFollowsPlan | src/html.ts:58-78 | `toHtmlValue` is its escape plan filled in: the escaper is applied once to each string or `true`, arrays looked into, and to nothing else |
| TsRenderer.EscaperIrrelevantForTrusted | src/html.ts:62-76 | numbers, wrappers, other objects, absent values and arrays of them render the same under every escaper |
| TsRenderer.AbsentButNotZero | src/html.ts:62-67 | `false`, `null`, `undefined` render as nothing; a number never does, and `0` renders as "0" |
| TsRenderer.ArraySpaceJoined | src/html.ts:59-61 | an array renders as its elements' renderings separated by single spaces; `[]` as nothing |
| TsRenderer.StringArrayEscapedPerElement | src/html.ts:59-61 | any array of strings renders as the escaped strings joined by single, unescaped spaces |
| TsRenderer.StringPairEscapedPerElement | src/html.ts:59-61 | `[a, b]` renders as `esc(a) + " " + esc(b)` |
| TsRenderer.HtmlValues | src/html.ts:101 | one converted text per value |
| TsRenderer.HtmlTag | src/html.ts:100-103 | the result is an `HtmlString` of text that starts with the first fragment and ends with the last; interpolated again, it is its own text under every escaper |
| TsRenderer.TagWithoutValues | src/html.ts:100-103 | a template without values is its one fragment |
| TsRenderer.NestingIsInlining | src/html.ts:100-103 | a template result interpolated into another template gives exactly what writing the inner fragments and values in its place gives: no second escaping |
| TsRenderer.ToAttributeString | src/html.ts:85-95 | `true` gives the kebab-cased name, an absent value nothing, anything else the name, `="`, the value's text and `"`, in that layout |
| TsRenderer.AttributeOmittedIff | src/html.ts:85-95 | an attribute is empty exactly when its value is absent (or it is a `true` one with an empty name); otherwise it starts with the kebab-cased name |
| TsRenderer.AttributeTrimmed | src/html.ts:85-95 | a written attribute with a whitespace-free name is non-empty and has no whitespace at its ends |
| TsRenderer.AttributeStrings | src/html.ts:109-111 | one attribute string per entry, in entry order |
| TsRenderer.Attrs | src/html.ts:108-114 | the attribute text has no whitespace at either end |
| TsRenderer.AttrsPlainJoin | src/html.ts:108-114 | with every attribute written, the text is the attributes joined by single spaces, starting with the first name |
| TsRenderer.AttrsWithoutOmission | src/html.ts:108-114 | two lists of written attributes concatenate with one space |
| TsRenderer.AttrsTrailingOmission | src/html.ts:108-114 | an absent attribute at the end leaves no trace |
| TsRenderer.AttrsAroundOmission | src/html.ts:108-114 | an absent attribute between two others contributes an empty string between two separators |
| TsRenderer.AttrsMiddleOmission | src/html.ts:108-114 | an absent attribute between written ones leaves two adjacent spaces, so the text differs from the one without it |
| TsRenderer.AttrsCompact | src/html.ts:108-114 | corrected `attrs`: absent attributes filtered out before the join; no whitespace at the ends |
| TsRenderer.AttrsCompactOmits | src/html.ts:108-114 | in the corrected `attrs` an absent attribute anywhere contributes nothing, and without absent attributes it agrees with `attrs` |
| TsRenderer.Render | src/html.ts:119 | `render` gives the wrapped text with the whitespace cut from both ends, none left; a wrapper around nothing gives "" |
| TsRenderer.RenderTemplate | src/html.ts:119 | rendering a template is trimming its interleaved text, and rendering again changes nothing |
| TsRenderer.MarkUnsafe | src/html.ts:124 | `unsafe` wraps the value, which then renders as its own text under every escaper |
| LibRenderer.ToHtmlValue | lib/html.js:19-39 | a wrapper yields its stored value untouched; everything else yields a string |
| LibRenderer.ElementAgreesWithTs | lib/html.js:19-39 | as `join` converts it, every value renders exactly as in src/html.ts, so all of `TsRenderer`'s escaping properties carry over |
| LibRenderer.TopLevelAgreesWithTs | lib/html.js:29-34 | as `String.raw` converts it, a value renders as in src/html.ts exactly when it is not a wrapper around `null` or `undefined` |
| LibRenderer.HtmlTexts | lib/html.js:54 | one converted text per value |
| LibRenderer.HtmlTag | lib/html.js:53-56 | the result is an `HtmlString` of text; interpolated again, it is its own text under every escaper |
| LibRenderer.HtmlTagAgreesWithTs | lib/html.js:53-56 | without wrappers around nothing, a template renders exactly as in src/html.ts |
| LibRenderer.UnsafeNullWritesNull | lib/html.js:29-31 | `html.unsafe(null)` writes "null" here and nothing in src/html.ts |
| LibRenderer.NestingIsInlining | lib/html.js:53-56 | for any values, wrappers around nothing included, a template result interpolated into another template gives exactly the inlined template: no second escaping |
| LibRenderer.ToAttributeString | lib/html.js:41-51 | `true` gives the kebab-cased name, an absent value nothing, anything else the name, `="`, the `String(...)` of the converted value and `"` |
| LibRenderer.AttributeAgreesWithTs | lib/html.js:41-51 | an attribute agrees with src/html.ts exactly when its value is not a wrapper around nothing |
| LibRenderer.AttributeStrings | lib/html.js:59-61 | one attribute string per entry |
| LibRenderer.Attrs | lib/html.js:58-64 | the attribute text has no whitespace at either end |
| LibRenderer.AttrsAgreeWithTs | lib/html.js:58-64 | without wrappers around nothing, `attrs` agrees with src/html.ts, so its omission properties carry over |
| LibRenderer.Render | lib/html.js:66 | the stored text with the whitespace cut from both ends, none left |
| LibRenderer.RenderTemplate | lib/html.js:66 | rendering a template is trimming its interleaved text, and rendering again changes nothing |
| LibRenderer.MarkUnsafe | lib/html.js:67 | `unsafe` wraps the value, which is then written as its own `String(...)` under every escaper |
| LegacyRenderer.Clean | src/html.js:59 | removing modifiers never lengthens a fragment |
| LegacyRenderer.CleanFixesExactlyTokenFree | src/html.js:59 | a fragment is unchanged if and only if it contains no `:html` or `:attrs` |
| LegacyRenderer.CleanRemovesToken | src/html.js:59 | a modifier is removed wherever it stands, the text before it kept |
| LegacyRenderer.CleanCanLeaveToken | src/html.js:59 | the single pass can assemble a new `:html` from the text around a removed one (`:ht:htmlml` gives `:html`) |
| LegacyRenderer.Current | src/html.js:38-43 | the value the lookahead sees is never an array and never absent: absent values become "", an array its space join, and every other value is kept |
| LegacyRenderer.ProcessValue | src/html.js:46-56 | after the last fragment the value's text as it is; the text escaped once when no `:html` follows and `:attrs` does not meet an object; unescaped after `:html`; the pairs after `:attrs` and an object |
| LegacyRenderer.LookaheadDecides | src/html.js:46-56 | off the escape branch the output is the same under every escaper |
| LegacyRenderer.Reduce | src/html.js:34-62 | the fold after its first `n` steps: each step appends the cleaned fragment and the processed value |
| LegacyRenderer.ReduceInterleaves | src/html.js:34-62 | after each step the fold's output, followed by the next cleaned fragment, is the interleaving so far |
| LegacyRenderer.ReduceComplete | src/html.js:34-63 | after the last fragment the value is `undefined` with no next fragment, so nothing is appended |
| LegacyRenderer.HtmlTag | src/html.js:32-63 | with one fragment more than values, the output is the cleaned fragments interleaved with the processed values; no fragments give "" |
| LegacyRenderer.AbsentAndZero | src/html.js:38 | absent values become "" (still handed to the escaper unless `:html` follows); `0` stays and is written "0" |
| LegacyRenderer.ArrayEscapedAsAWhole | src/html.js:41-54 | any array is joined with spaces (`null` and `undefined` elements as nothing) and the joined text escaped once as a whole |
| LegacyRenderer.StringPairEscapedAsAWhole | src/html.js:41-54 | `[a, b]` gives `esc(a + " " + b)`: the space is escaped with the strings |
| LegacyRenderer.AttrsExpandsEveryKey | src/html.js:48-49 | after `:attrs` an object gives one `key="value"` pair per key, in key order, space-joined, under every escaper |
| LegacyRenderer.PairKeepsFalse | src/html.js:49 | a `false` attribute is written as `="false"`, not omitted |
| LegacyRenderer.AttrsOnNonObjectEscapes | src/html.js:48-54 | `:attrs` after a non-object (including the "" of an absent value) escapes it as with no modifier |
| LegacyRenderer.NestedNeedsHtmlModifier | src/html.js:52-55 | a nested template's plain-string result is escaped again unless `:html` follows |

## Left out

- The `xss` sanitiser's own rules are not modelled. It is the parameter `esc`, and only where it is applied is stated, not what it outputs.
- LibRenderer.ToHtmlValue: lib/html.js:38 hands the raw value to `xss`, so `true` reaches it as a boolean, while src/html.ts:77 converts first with `toString()`. The model applies `esc` to `String(v)` in both, assuming that `xss` converts a non-string argument to its string before sanitising it.
- Non-integer numbers (`1.5`, `NaN`, `Infinity`, `-0`) are left out: a number is an `int` written in decimal.
- Strings.Decimal: JavaScript writes an integer of magnitude 1e21 or more in exponent form (`"1e+21"`); the model writes every integer as plain digits.
- Integers beyond 2^53: `Num` holds any integer, while a JavaScript number cannot represent every integer above 2^53; rounding to the nearest double is not modelled.
- User-defined `toString()` methods are not run. An object's `toString()` result is a stored string (`Obj.text`), and an exception thrown from one is not modelled.
- Functions, symbols and `bigint` values are left out of the value type.
- `toLowerCase` is modelled on ASCII only: non-ASCII capitals are not lowered. The regular expression itself only matches ASCII, and the model matches it exactly.
- `html` passes `{ raw: strings }` to `String.raw`, so the template's cooked fragments are written; the model's fragments are those cooked strings, as given.
- `Object.entries` and `Object.keys` order is taken to be the order of an object's entry list. JavaScript's rule that integer-like keys come first is not modelled. A non-object argument to `html.attrs` (a string, say) is not modelled: the argument is its list of entries.
- TsRenderer.Render: only `HtmlString` arguments, as its TypeScript signature declares.
- LibRenderer.Render: requires a wrapper that stores a string. Anything else has no `trim` and throws a `TypeError`, and the exception is not modelled.
- The TypeScript types (`AttributeValue` and its parts) have no run-time effect and are not modelled.
- Sparse arrays and array holes are not modelled.
- `examples/*/app.js` (HTTP servers, with a `:safe` modifier no renderer implements) and `vite.config.ts` (build configuration) are not part of this model.
- Behaviours of the code that the model keeps as written:
  - An absent attribute in the middle of `html.attrs` leaves two spaces (see Findings).
  - In src/html.js an absent value becomes "" and is still handed to the escaper.
  - In src/html.js numbers are escaped like text.
  - In src/html.js a cleaned fragment can still contain `:html` (`LegacyRenderer.CleanCanLeaveToken`).

## Findings

| source | as written | input that shows it | evidently intended | confidence | as-written member | corrected member |
|---|---|---|---|---|---|---|
| src/html.ts:108-114 | every entry's attribute string, the empty strings of absent values included, is joined with spaces and only the ends are trimmed (lib/html.js:58-64 is the same) | `{id: 1, hidden: false, dataFoo: "bar"}` gives `id="1"  data-foo="bar"` with two spaces | omitted attributes leave no trace: `id="1" data-foo="bar"` | medium; not executed | TsRenderer.AttrsMiddleOmission | TsRenderer.AttrsCompactOmits |
