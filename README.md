# replaceTokens — a verified model

`replaceTokens(str, obj, options)` from recipe-lib fills tokens into a template string. It works in four steps:

1. It merges the options over the defaults. The default separator is `':'` and the default transformer is the value's own `toString()`.
2. It splits the input on the token separator.
3. It replaces every section whose lookup in `obj` is truthy with the transformer's text.
4. It puts the sections back together.

There are two versions, and the model covers both:

- **`src/replacement.ts`** reassembles in a loop. It puts a `':'` back between two neighbouring sections when both were left unchanged.
- **`replacement.js`** is the compiled build of an earlier version. It reassembles with `updated.join("")`.

Modules:

- `Wrappers` (`wrappers.dfy`): the `Option` type used for the optional option fields.
- `JsText` (`js_text.dfy`): `String.prototype.split` for a non-empty separator (cuts at the leftmost, non-overlapping occurrences) and `Array.prototype.join`.
  - It also has `ReplaceAll`, an independent reference for "every occurrence replaced".
  - It proves the split/join round trip in both directions.
- `Replacement` (`replacement.dfy`): `src/replacement.ts`.
  - The option merge is `ResolveOptions`.
  - The classification of the sections is `UpdateSections`.
  - The reassembly loop is the method `Reassemble`. It is proved against the function `Rebuild`: the loop's string is always the join of the pieces emitted so far, where a piece is a section preceded by its lead (the glue text, or nothing).
  - `ReplaceTokens` is the whole operation as a method.
  - `Replaced` is the function it is proved equal to. All lemmas about the operation are stated on `Replaced`.
- `ReplacementJs` (`replacement_js.dfy`): `replacement.js`, as a pure function. It includes the lemma that says exactly when the two versions agree.
- `ReplacementExamples` (`examples.dfy`): the cases of `src/replacement.spec.ts` and the examples of the doc comment, evaluated exactly.

Two JavaScript behaviours are parameters, held in a `Runtime<T>` value:

- whether a token value is truthy;
- what its `toString()` returns.

A user-supplied transformer is a function `T -> string`.

## Model

| member | source | states |
|---|---|---|
| JsText.Split | src/replacement.ts:94 | `str.split(sep)` has at least one part, and joining the parts with `sep` gives the input back |
| JsText.SplitLeftmost | src/replacement.ts:94 | The split cuts at the leftmost occurrences of the separator. No part contains an occurrence. Every part except the last has no occurrence that starts inside it and runs into the separator after it. |
| JsText.SplitJoin | src/replacement.ts:94 | The converse round trip: parts with the leftmost property are exactly what the split of their join returns, so the split is the unique such cutting |
| JsText.SplitWithoutSeparator | src/replacement.ts:94 | A text with no occurrence of the separator splits into the one part that is the text itself |
| JsText.SplitFirstPart | src/replacement.ts:94 | `a + sep + b`, where no occurrence starts inside `a`, splits into `a` followed by the split of `b` |
| JsText.JoinSplit | replacement.js:95-99 | Joining the split with any glue is the same as replacing every leftmost occurrence of the separator by that glue |
| JsText.Join | replacement.js:99 | `Array.prototype.join`: the parts with the glue between neighbours. No contract of its own; `JsText.JoinEmptyLength` states the length of `join("")` and `JsText.JoinSplit` states that joining a split with any glue replaces every separator occurrence by that glue |
| JsText.JoinEmptyLength | replacement.js:99 | `join("")` of a list of strings has the summed length of its elements |
| Replacement.ResolveOptions | src/replacement.ts:84-91 | Each field is handled separately. The separator is the supplied one, or `':'` when it (or the whole options object) is missing. The transformer is the supplied one, or the value's `toString`. |
| Replacement.UpdateSections | src/replacement.ts:95-97 | One updated section per split section. A section whose lookup is truthy becomes `transformer(obj[section])`. Every other section is copied as it is. |
| Replacement.UnchangedIff | src/replacement.ts:105 | "Unchanged" is string equality. A section counts as unchanged exactly when it is not matched or its replacement text equals the section itself. |
| Replacement.NothingMatchedKeepsSections | src/replacement.ts:95-97 | If no section is matched, the updated sections are the split sections |
| Replacement.FalsyIsAbsent | src/replacement.ts:96 | A key whose value is falsy gives the same output as removing the key |
| Replacement.Reassemble | src/replacement.ts:100-112 | The loop's output equals `Rebuild(split, updated, ':')`. Invariant: after `i` rounds, `outStr` is the join of the first `i` pieces. |
| Replacement.Replaced | src/replacement.ts:78-115 | The whole operation as a function: merge, split, classify, reassemble with `':'`. No contract of its own; `Replacement.Identity`, `Replacement.NothingMatchedColons`, `Replacement.SingleSection` and `Replacement.FalsyIsAbsent` state its behaviour, and `Replacement.ReplaceTokens` is proved equal to it |
| Replacement.ReplaceTokens | src/replacement.ts:78-115 | The method (merge, split, map, loop) returns `Replaced(str, obj, options)` |
| Replacement.RebuildAt | src/replacement.ts:105-110 | Section `i > 0` is preceded by the glue exactly when sections `i - 1` and `i` are both unchanged, and by nothing otherwise |
| Replacement.RebuildStartsWithFirst | src/replacement.ts:103-104 | The output begins with the first updated section; nothing is put in front of it |
| Replacement.RebuildLength | src/replacement.ts:101-111 | Output length = sum of the updated sections' lengths + glue length × the number of neighbouring both-unchanged pairs |
| Replacement.RebuildUnchanged | src/replacement.ts:101-112 | If every section is unchanged, the output is the sections joined with the glue |
| Replacement.PiecesWithoutPairs | src/replacement.ts:108-110 | With no neighbouring both-unchanged pair, every piece is just its updated section |
| Replacement.RebuildIsConcatenationIff | src/replacement.ts:101-112 | The output is the plain concatenation of the updated sections if and only if no two neighbours are both unchanged |
| Replacement.NothingMatchedColons | src/replacement.ts:107 | If no section matches, the output is the input with every occurrence of the configured separator replaced by `':'` |
| Replacement.Identity | src/replacement.ts:94-112 | With the default separator and no section matched, the output is the input |
| Replacement.IdentityEmptyObject | src/replacement.ts:84-112 | With an empty token object and no options, the output is the input |
| Replacement.SingleSection | src/replacement.ts:94-104 | Without any occurrence of the separator, the output is `transformer(obj[str])` when `obj[str]` is truthy, and `str` otherwise |
| Replacement.ReplacedIntended | src/replacement.ts:107 | The corrected definition: the configured separator, not `':'`, is glued between two unchanged sections. No contract of its own; `Replacement.IntendedIdentity` and `Replacement.IntendedAgreesOnDefault` state its behaviour |
| Replacement.IntendedIdentity | src/replacement.ts:107 | In the corrected reassembly, which glues with the configured separator, an input with no matched section comes back unchanged for every separator |
| Replacement.IntendedAgreesOnDefault | src/replacement.ts:107 | With the default separator, the corrected reassembly and the code as written give the same output on every input |
| ReplacementJs.ReplaceTokens | replacement.js:87-100 | The compiled build: the same merge, split and classification, then `updated.join("")`. No contract of its own; `ReplacementJs.OutputLength`, `ReplacementJs.NothingMatchedDeletesSeparators` and `ReplacementJs.AgreesWithCurrent` state its behaviour |
| ReplacementJs.FieldwiseDefaults | replacement.js:89-93 | Leaving out the options object, or one field, is the same as passing the default for that field |
| ReplacementJs.FalsyIsAbsent | replacement.js:97 | A key whose value is falsy gives the same output as removing the key |
| ReplacementJs.OutputLength | replacement.js:99 | The output length is the sum of the updated sections' lengths |
| ReplacementJs.NothingMatchedDeletesSeparators | replacement.js:95-99 | If no section matches, the output is the input with every occurrence of the separator deleted |
| ReplacementJs.AgreesWithCurrent | replacement.js:99 | The compiled build and `src/replacement.ts` give the same output exactly when no two neighbouring sections are both unchanged |
| ReplacementExamples.OneToken | src/replacement.ts:94-112 | `before sep token sep after`, with the token matched and changed: both versions give `before + value + after` |
| ReplacementExamples.TwoTokens | src/replacement.ts:94-112 | The same with two tokens separated by plain text |
| ReplacementExamples.NoToken | src/replacement.ts:105-107 | For two plain sections, the outputs differ by version. `src/replacement.ts` glues them with `':'` whatever the separator. `replacement.js` puts them side by side. The corrected reassembly returns the input. |
| ReplacementExamples.SingleTokenExample | src/replacement.spec.ts:5-17 | `"Have a :quality: day today!"` with `{quality: "good"}` gives `"Have a good day today!"` |
| ReplacementExamples.MultipleTokensExample | src/replacement.spec.ts:18-32 | Two tokens give `"Have a bad day tomorrow!"` |
| ReplacementExamples.CustomSeparatorExample | src/replacement.spec.ts:33-48 | With separator `<sep>`, the colons of `":Have: :a "` stay in place |
| ReplacementExamples.CustomTransformerExample | src/replacement.spec.ts:49-64 | An upper-casing transformer gives `"Have a GOOD day today!"` |
| ReplacementExamples.TransformerAndSeparatorExample | src/replacement.spec.ts:65-81 | Separator `_` with a doubling transformer gives `"Have a goodgood day today!"` |
| ReplacementExamples.DocBasicExample | src/replacement.ts:9-19 | `"this is :person: string"` gives `"this is my string"` in both versions |
| ReplacementExamples.DocMultipleExample | replacement.js:30-41 | `"my name is :name: and I am :age: years old"` gives `"my name is John and I am 100 years old"` in both versions |
| ReplacementExamples.DocTransformerExample | src/replacement.ts:34-54 | Person objects with a name transformer give `"First person - John Doe\nSecond person - Jane Doeth"` |
| ReplacementExamples.DocSeparatorExample | src/replacement.ts:56-69 | `"First person: <sep>person<sep>"` gives `"First person: John Doe"` |
| ReplacementExamples.ColonBetweenUnchanged | src/replacement.ts:105-107 | `"a:b"` with `{}` gives `"a:b"` from `src/replacement.ts`, but `"ab"` from `replacement.js` |
| ReplacementExamples.CustomSeparatorNotRestored | src/replacement.ts:107 | `"a_b"` with `{}` and separator `_` gives `"a:b"`. The corrected reassembly gives `"a_b"`. |

## Left out

- Calls into JavaScript are parameters, not code:
  - The default transformer `a.toString()`, user transformers, and JavaScript truthiness are passed in as functions (`Runtime.truthy`, `Runtime.toString`, and the `T -> string` transformer).
  - An exception thrown by a transformer or by `toString` is not modelled.
- Lookup in the token object sees own keys only. A plain JavaScript object also finds inherited members such as `obj["constructor"]`; the `map<string, T>` does not.
- Replacement.ReplaceTokens: requires a non-empty separator. `split("")` cuts a string into single UTF-16 code units, and that case is not modelled. The same requirement is on `Replacement.Replaced`, `Replacement.ReplacedIntended` and `ReplacementJs.ReplaceTokens`.
- An options field that is present but explicitly `undefined` overrides the default when spread. In the model an option field is only ever present with a value, or absent.
- Strings are sequences of `char`. JavaScript's UTF-16 code units and surrogate pairs are not modelled.
- The `__assign` polyfill (replacement.js:2-12) is not modelled; the per-field `Option` fallback of `ResolveOptions` takes its place. The CommonJS export lines (replacement.js:13-14, replacement.js:101) are left out as well.
- The doc comment's custom separator example (src/replacement.ts:56-68, replacement.js:65-77) states a result copied from the previous example. The model proves what the code gives, `"First person: John Doe"`.
- The Jest harness of `src/replacement.spec.ts` is not modelled. Its cases appear only as the example lemmas.
- ReplacementExamples.UpperAscii: upper-cases only ASCII letters, not all of `toUpperCase`; the test input needs no more.

## Findings

| source | as written | input that shows it | evidently intended | confidence | as-written member | corrected member |
|---|---|---|---|---|---|---|
| src/replacement.ts:107 | Between two unchanged sections the loop always puts back `':'`, even when a different `tokenSeparator` was configured | `replaceTokens("a_b", {}, {tokenSeparator: "_"})` returns `"a:b"` | Put back the separator that was split on, so an input without tokens comes back unchanged (`"a_b"`) under every separator, as it already does under the default one | medium, not executed | ReplacementExamples.CustomSeparatorNotRestored | Replacement.IntendedIdentity |

Three further facts bear on this finding:

- `Replacement.NothingMatchedColons` states the general as-written behaviour: with nothing matched, every occurrence of the separator turns into `':'`.
- `Replacement.ReplacedIntended` is the corrected definition. `Replacement.IntendedIdentity` proves the identity law for it under every separator.
- `Replacement.IntendedAgreesOnDefault` proves that the correction changes nothing under the default separator.
