# io-ts-extensions, modelled in Dafny

io-ts-extensions adds a few combinators to the io-ts runtime-validation
library. A *descriptor* names a data shape. It can check an untrusted value
(`validate` / `decode`, giving a success or a list of validation errors), test
membership (`is`) and serialize a value (`encode`). The extensions are:

- `decoder`, `encoder` and `codec`, which build descriptors from caller-supplied parts;
- the optionality modifiers `nullable`, `optional` and `nullUnion`, each a union of the wrapped descriptor with `null` and/or `undefined`;
- `EnumType` / `createEnumType`, whose membership test is "equals one of the enum object's values";
- `generateError`, which reports a decode result, and `unsafeDecode`, which unwraps a result or raises.

The model is pure, like the source. Every export is a function over datatypes.

- `values.dfy` (module `Values`) holds runtime values, context entries, validation errors and results.
- `descriptors.dfy` (module `Descriptors`) holds the closed `Descriptor` datatype. Its variants are a primitive leaf, a codec made from caller parts, a union, and an enumeration. It also holds the io-ts behaviour the extensions build on: `Validate`, `Is`, `Encode` and the union fold. Lemmas state the union's contract (it succeeds iff some member succeeds, with the first success) and the validation invariant: on a well-formed descriptor, a success satisfies `is` and a failure carries at least one error.
- `extensions.dfy` (module `Extensions`) holds the exports of `src/index.ts` and their contracts.
- `examples.dfy` (module `Examples`) states the repository's usage examples as lemmas.

Points where io-ts's behaviour, and so the extensions', is easy to misread:

- `optional(T)` rejects `null` with the errors io-ts's union collects from its members, not with one error of its own. Each member is validated at the union's context extended by that member's entry (key `"0"`, `"1"`, …). Primitives and enums report at exactly that context; a caller's validate function may place its errors anywhere.
- The modifiers encode through io-ts's union encode. If every member's encode is io-ts's own `identity`, the union encodes every value unchanged, even one no member accepts. Otherwise the value goes to the first member whose `is` accepts it, and a value no member accepts raises. So a sentinel the wrapped type accepts is encoded as the wrapped type encodes it; one it rejects is encoded unchanged.
- On success, `generateError` returns io-ts's one-line "no errors" report, not an empty list. The model writes that line as `NoErrors`.
- A context entry holds the checking descriptor itself as its type. The model keeps the descriptor's name.

## Model

| member | source | states |
|---|---|---|
| `Extensions.MakeDecoder` | src/index.ts:6-13 | the decoder exposes the given name and validate function unchanged, and its `decode(i)` is the given validate applied to `i` at the one-entry context with key `""`, the decoder's name and `i` |
| `Extensions.MakeEncoder` | src/index.ts:15 | the encoder holds the given encode function unchanged, including whether it is io-ts's `identity` |
| `Extensions.MakeCodec` | src/index.ts:17-21 | the codec's name, `is`, validate and encode are the decoder's name, the given predicate, the decoder's validate and the encoder's encode, for every input; no validation is added; the codec keeps the encoder's function, so it encodes by `identity` exactly when the encoder does |
| `Extensions.CodecDecodesAsDecoder` | src/index.ts:17-21 | a codec decodes every input to exactly what its decoder's `decode` gives |
| `Extensions.CodecAgreement` | src/index.ts:17-21 | if the caller's `is` agrees with the decoder, every value the codec decodes satisfies `is`, and every failure carries an error |
| `Extensions.Nullable` | src/index.ts:29-31 | the default name is `T.name + " \| null \| undefined"`, or the name given; `is(u)` holds iff `u` is null, undefined or accepted by `T` |
| `Extensions.NullableValidate` | src/index.ts:29-31 | null and undefined always decode; any other value decodes iff `T` decodes it, to `T`'s result; whenever `T` succeeds its result is the union's; a sentinel `T` rejects decodes to itself |
| `Extensions.NullableEncode` | src/index.ts:29-31 | a value of `T` is encoded as `T` encodes it; null or undefined that `T` rejects is encoded unchanged; over a `T` that encodes by `identity`, every value is encoded unchanged |
| `Extensions.Optional` | src/index.ts:36-38 | the default name is `T.name + " \| undefined"`, or the name given; `is(u)` holds iff `u` is undefined or accepted by `T` |
| `Extensions.OptionalValidate` | src/index.ts:36-38 | undefined always decodes; any other value, null included, decodes iff `T` decodes it, to `T`'s result; so null fails whenever `T` rejects it |
| `Extensions.OptionalEncode` | src/index.ts:36-38 | a value of `T` is encoded as `T` encodes it; undefined that `T` rejects is encoded unchanged; over a `T` that encodes by `identity`, every value is encoded unchanged |
| `Extensions.NullUnion` | src/index.ts:43-45 | the default name is `T.name + " \| null"`, or the name given; `is(u)` holds iff `u` is null or accepted by `T` |
| `Extensions.NullUnionValidate` | src/index.ts:43-45 | null always decodes; any other value, undefined included, decodes iff `T` decodes it, to `T`'s result; so undefined fails whenever `T` rejects it |
| `Extensions.NullUnionEncode` | src/index.ts:43-45 | a value of `T` is encoded as `T` encodes it; null that `T` rejects is encoded unchanged; over a `T` that encodes by `identity`, every value is encoded unchanged |
| `Extensions.ModifiersWellFormed` | src/index.ts:29-45 | the three modifiers preserve well-formedness, so their decode results keep the validation invariant |
| `Extensions.CreateEnumType` | src/index.ts:54-69 | the default name is `"enum"`, or the name given; `is(u)` holds iff some key of the enum object maps to `u` |
| `Extensions.EnumValidate` | src/index.ts:60-61 | a member decodes to itself; any other value fails with exactly one error carrying the value and the current context; encode is the identity |
| `Extensions.EnumKeysIrrelevant` | src/index.ts:58 | two enum objects with the same values give the same `is` and the same validation, whatever their keys |
| `Extensions.EmptyEnumRejects` | src/index.ts:58-60 | an empty enum object accepts nothing and every decode fails |
| `Extensions.GenerateError` | src/index.ts:72-75 | the report is the single "no errors" line iff the decode succeeds; on failure it has one line per error, in order |
| `Extensions.GenerateErrorNonEmpty` | src/index.ts:72-75 | for a well-formed descriptor the report is never empty, and a failure's report has no "no errors" line |
| `Extensions.UnsafeDecode` | src/index.ts:77-84 | returns a value iff the decode succeeds, and then exactly the decoded value; otherwise raises the report of the failure |
| `Extensions.UnsafeDecodeRaisesReport` | src/index.ts:77-84 | what unsafeDecode raises is exactly `generateError`'s report, and for a well-formed descriptor it names at least one error |
| `Descriptors.UnionSemantics` | src/index.ts:29-45 | the union behind every modifier succeeds iff some member succeeds at the context the union gives it, and then yields the first successful member's result |
| `Descriptors.ValidateConsistent` | src/index.ts:17-61 | on a well-formed descriptor (codec, modifier, enum or primitive) every success satisfies `is` and every failure carries at least one error |
| `Descriptors.EncodeMember` | src/index.ts:29-45 | encoding a value the descriptor's `is` accepts never raises, for unions too |
| `Descriptors.UnionEncodeFirst` | src/index.ts:29-45 | every union encodes a value as the first member whose `is` accepts it encodes it |
| `Descriptors.PrimitiveDecode` | test/index.ts:38-40 | a primitive decodes an accepted value to itself and otherwise fails with one error rooted at its own name |
| `Examples.NonEmptyStringCodecExample` | test/index.ts:18-35 | the codec decodes like its decoder, accepting "str" and rejecting "", and still encodes "" unchanged |
| `Examples.NullableEncodeExample` | src/index.ts:29-31 | `nullable(string)` encodes null, undefined and "s" unchanged, and also 3, which it does not accept |
| `Examples.StringExample` | test/index.ts:38-40 | `string` rejects undefined and null and accepts "test" |
| `Examples.NullableStringExample` | test/index.ts:36-44 | `nullable(string)` decodes undefined, null and "test" |
| `Examples.OptionalStringExample` | test/index.ts:45-53 | `optional(string)` decodes undefined and "test" and rejects null |
| `Examples.NullUnionStringExample` | test/index.ts:54-62 | `nullUnion(string)` decodes null and "test" and rejects undefined |
| `Examples.DefaultNamesExample` | src/index.ts:29-54 | the default names over `string` are "string \| null \| undefined", "string \| undefined", "string \| null"; an enum's is "enum" |
| `Examples.SexEnumExample` | test/index.ts:63-75 | the enum `{Male: 'M', Female: 'F'}` accepts 'M' and 'F', rejects 'A' with or without a name, and does not accept its key 'Male' |
| `Examples.UnsafeDecodeNumberExample` | test/index.ts:79-87 | unwrapping `number` returns 1 for 1 and raises for '1', '', undefined and null |
| `Examples.GenerateErrorExample` | test/index.ts:76-78 | checking 12 against `string` reports one error for 12 at the root context of `string`; a string gets the "no errors" line |

## Left out

- Message text: `generateError` and `unsafeDecode` produce strings through io-ts's `PathReporter`, which is not part of this model. The model keeps one abstract line per error (`Invalid(error)`) and the success line (`NoErrors`), not their wording.
- io-ts internals: the `t.Type` class, `E.getOrElse`, `pipe` and `failure` are modelled only by what the extensions use from them. io-ts's shortcut for tagged unions is left out, because the modifiers' unions are never tagged.
- NullableValidate: does not state which errors a failed decode carries. io-ts's error aggregation is outside the core. The model collects them in member order, and their non-emptiness is proved by `Descriptors.ValidateConsistent`.
- OptionalValidate: does not state which errors a failed decode carries, for the same reason.
- NullUnionValidate: does not state which errors a failed decode carries, for the same reason.
- Non-empty failures are not built into the type. io-ts can build an empty failure, so the model proves non-emptiness for well-formed descriptors instead: every union has a member, and every codec's validate never returns an empty failure.
- Context entries hold the checking descriptor's name, not the descriptor object itself.
- Numbers are integers. Floating point, `NaN` and the JavaScript object and array values are not modelled.
- Exceptions are outcomes, not control flow. `unsafeDecode`'s throw is `Raised(report)`. A union encode that finds no accepting member is `None`.
- `unsafeDecode` is curried in the source. The model takes the decode function and the value together.
- The TypeScript type aliases `Nullable`, `Optional` and `NullUnion` have no runtime behaviour and are not modelled. Neither are the generic type parameters.
- The enum object is taken as a map from keys to values. How TypeScript compiles an `enum` declaration into such an object (for example, the reverse mapping of numeric enums) is not modelled. The `this`-binding of `enumObject` in the `EnumType` constructor is replaced by the captured map.
- JavaScript function identity: whether an encode function is io-ts's `identity` is an explicit tag (`Identity` or `Via(f)`), not a reference comparison.
- The mocha harness of test/index.ts is not modelled. Its assertions appear only as the example lemmas.
