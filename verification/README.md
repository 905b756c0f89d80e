# Witness map encoder

This project models the witness encoder of a Noir proving service. The encoder, `generateWitnessMap` in `src/utils.ts`, turns a JSON-like object of named circuit inputs into a witness map. Guided by the circuit's ABI parameter list, it produces a map from consecutive integer indices to `0x`-prefixed hexadecimal strings.

The ABI types work as follows:

- `field` and `integer` each occupy one scalar.
- `string` occupies one scalar per character.
- `array` occupies its length times its element type's scalars. Nested input arrays are flattened by `flattenMultiDimensionalArray`.
- `struct` occupies its fields' scalars, in field order.

The expected count of an array is `computeTotalLengthOfArray`.

## Modules

| file | module | contents |
|---|---|---|
| `wrappers.dfy` | `Wrappers` | `Option` and `Result` |
| `abi.dfy` | `Abi` | the `Type`/`Param` descriptors, the dynamic input `Value`, one `Error` per failure, and `TotalLength`, which models `computeTotalLengthOfArray` |
| `hex.dfy` | `HexFormat` | `Number.prototype.toString(16)` as `Hex`, plus a reader that inverts it |
| `encoding.dfy` | `Encoding` | the encoder as pure functions: `Flatten` and `Encode` (the scalars in index order), and `WitnessMap` (the resulting map) |
| `witness.dfy` | `WitnessEncoder` | the two loops of the source as methods, each proved to return exactly what its specification function returns |
| `properties.dfy` | `Properties` | what the encoder promises: layout, error precedence, acceptance of well-shaped inputs, and the per-kind behaviour |
| `examples.dfy` | `Examples` | concrete encodings, including the two places where the encoder checks less than the type describes |

Errors are values. Each `throw` in the source becomes one `Error` variant. Two further variants cover JavaScript runtime faults on inputs the code does not guard against:

- `NestedTooDeep`: an input array nested deeper than its type.
- `NullInputs`: a property read on `null`.

The first error in schema order is the one returned. Only the error's kind and the names in its message are modelled.

## Model

| member | source | states |
|---|---|---|
| Abi.TotalLengthOfConcat | src/utils.ts:64-68 | the struct total is additive: splitting a field list splits the scalar count |
| Abi.NestedArrayLength | src/utils.ts:57-58 | an `m`-array of `n`-arrays occupies as many scalars as an `m*n` array of the same element type |
| HexFormat.HexNatDigits | src/utils.ts:109 | `toString(16)` of a non-negative number is a non-empty run of lower-case hex digits with no leading zero |
| HexFormat.HexNatRoundTrip | src/utils.ts:182 | reading the hex digits of `n` back gives `n` |
| HexFormat.ScalarRoundTrip | src/utils.ts:141 | every number written as `0x${n.toString(16)}`, negative ones included, reads back as exactly `n` |
| Encoding.EncodeScalar | src/utils.ts:101-124 | a `field`/`integer` value succeeds with exactly one `0x`-prefixed scalar |
| Encoding.EncodeElement | src/utils.ts:139-153 | a flattened number is always accepted, with no width check; a string is accepted iff it starts with `0x`, and is then kept verbatim, else refused with `ArrayElementNotHex`; any other value is refused with `UnexpectedArrayElement` |
| Encoding.EncodeElements | src/utils.ts:139-154 | on success, one `0x`-prefixed scalar per flattened element |
| Encoding.PadCodes | src/utils.ts:27-36 | a string nested in an array contributes exactly its declared length of character codes: truncated when longer, zero-padded when shorter |
| Encoding.EncodeArray | src/utils.ts:126-160 | an accepted array yields `length * total(elem)` scalars, all `0x`-prefixed |
| Encoding.EncodeStruct | src/utils.ts:162-172 | an accepted struct yields its fields' total length of scalars, all `0x`-prefixed |
| Encoding.EncodeString | src/utils.ts:174-188 | an accepted top-level string yields exactly its declared length of scalars, all `0x`-prefixed |
| Encoding.EncodeParam | src/utils.ts:94-196 | an accepted parameter yields exactly `computeTotalLengthOfArray` of its type in scalars, all `0x`-prefixed |
| Encoding.Encode | src/utils.ts:93-197 | an accepted parameter list yields exactly the sum of its parameters' total lengths in scalars, all `0x`-prefixed |
| Encoding.WitnessMap | src/utils.ts:81-200 | succeeds iff a parameter list is given and every parameter encodes; the keys are then exactly `startIndex .. startIndex + total - 1` and every value is `0x`-prefixed |
| Encoding.EncodeErrorPersists | src/utils.ts:93-98 | once a prefix of the parameters fails, the whole list fails with that same error |
| Encoding.FlattenErrorPersists | src/utils.ts:24-26 | once a prefix of an input array fails to flatten, the whole array fails with that same error |
| Encoding.EncodeElementsErrorPersists | src/utils.ts:139-153 | the first rejected flattened element decides the array's error |
| WitnessEncoder.FlattenMultiDimensionalArray | src/utils.ts:21-48 | the depth-first flattening loop returns exactly `Flatten(items, elementType)` |
| WitnessEncoder.PushPadded | src/utils.ts:27-36 | the padding loop appends exactly `PadCodes(s, length)`: the first `length` character codes, then zeros |
| WitnessEncoder.PushEntries | src/utils.ts:37-41 | copying a struct's witness map entry by entry appends its scalars in key order |
| WitnessEncoder.GenerateWitnessMap | src/utils.ts:81-200 | the loop over the parameters returns exactly `WitnessMap(inputs, parameters, startIndex)` |
| WitnessEncoder.SetParameter | src/utils.ts:94-196 | one iteration of the parameter loop extends the map by exactly the parameter's scalars from `index` and advances `index` by their count, or returns the parameter's error |
| WitnessEncoder.SetScalar | src/utils.ts:101-124 | the `field`/`integer` branch sets exactly one key, or fails as `EncodeScalar` does |
| WitnessEncoder.SetArray | src/utils.ts:126-137 | the `array` branch flattens, checks the count, and writes the elements as `EncodeArray` says |
| WitnessEncoder.SetElements | src/utils.ts:139-154 | the loop over the flattened elements writes them at consecutive keys from `index` |
| WitnessEncoder.SetStruct | src/utils.ts:162-172 | the nested map built from `index` is copied in order, giving exactly the fields' scalars at consecutive keys |
| WitnessEncoder.SetString | src/utils.ts:174-188 | the `string` branch writes one character code per key, in order |
| Properties.EncodeConcat | src/utils.ts:93 | encoding `a + b` gives `a`'s error, else `b`'s error, else `a`'s scalars followed by `b`'s: parameters are laid out in declaration order and the first failure wins |
| Properties.EncodeSlot | src/utils.ts:93-197 | in a successful encoding, a parameter's scalars are the slice starting right after the total length of the parameters before it |
| Properties.ParameterSlot | src/utils.ts:90-91 | in the witness map, a parameter's `j`-th scalar is at key `startIndex + total(before) + j` |
| Properties.StartIndexShift | src/utils.ts:84 | changing the start index shifts the keys and changes no value |
| Properties.ExtraKeysIgnored | src/utils.ts:94 | inputs that agree on the schema's names encode identically; other keys are ignored |
| Properties.MissingParameterFirst | src/utils.ts:94-98 | a parameter absent from the inputs fails with `MissingParameter`, whatever its type, once the parameters before it have succeeded |
| Properties.ParameterListRequired | src/utils.ts:86-88 | no parameter list is an error; an empty list gives an empty map |
| Properties.EncodeSingle | src/utils.ts:93-197 | a one-parameter list encodes as that parameter |
| Properties.ScalarParameter | src/utils.ts:101-124 | for `field`/`integer`: a number wider than 64 bits is refused; any other number becomes one scalar that reads back as the number; a `0x` string is kept verbatim; any other string is refused with `ExpectedHex`; any other value with `ExpectedInteger` |
| Properties.StringParameter | src/utils.ts:174-188 | a top-level string is refused unless its length equals the declared one; otherwise the `i`-th scalar reads back as the code of the `i`-th character |
| Properties.StructParameter | src/utils.ts:162-172 | a struct given an object encodes as its field list; anything else is refused with `ExpectedStruct` |
| Properties.ArrayParameter | src/utils.ts:126-160 | an array parameter is refused unless it is an array whose flattening has exactly the type's total length; it is then encoded element by element |
| Properties.UnknownKindError | src/utils.ts:190-195 | a present parameter of a kind outside the closed set fails with `UnsupportedType` naming that kind, once the parameters before it have succeeded |
| Properties.UnknownKindRejected | src/utils.ts:190-195 | a parameter of a kind outside the closed set makes the whole encoding fail |
| Properties.EncodeElementsOk | src/utils.ts:139-154 | the loop over a flattened array succeeds iff every element is a number or a `0x` string |
| Properties.EncodeElementsValues | src/utils.ts:139-154 | on success, the `j`-th scalar is the rendering of the `j`-th flattened element |
| Properties.NumberElementRoundTrip | src/utils.ts:140-142 | a flattened number of any size is accepted and its scalar reads back as the number |
| Properties.ElementsReadBack | src/utils.ts:139-154 | on success, each scalar gives back its element: a number through the hexadecimal reader, a `0x` string verbatim |
| Properties.EncodeElementsAccept | src/utils.ts:139-154 | a flattened array of numbers and `0x` strings is always accepted |
| Properties.FlattenValid | src/utils.ts:55-71 | a well-shaped array flattens without error to exactly `|items| * computeTotalLengthOfArray(elem)` encodable scalars |
| Properties.FlattenOneValid | src/utils.ts:24-45 | a well-shaped element flattens to exactly its type's total length of encodable scalars |
| Properties.EncodeAcceptsValid | src/utils.ts:93-197 | inputs of exactly the schema's shape, within the width limit and with `0x` strings, are always accepted |
| Properties.EncodeParamAcceptsValid | src/utils.ts:100-196 | a well-shaped value is accepted for its parameter, whatever the kind |
| Properties.WitnessMapAcceptsValid | src/utils.ts:81-200 | for well-shaped inputs the map exists and its keys are exactly the schema's total length from `startIndex` |
| Examples.FlattenNumbers | src/utils.ts:42-44 | numbers pass through flattening unchanged for any element type but a struct |
| Examples.EncodeNumbers | src/utils.ts:140-142 | flattened numbers are rendered as `0x` plus their hex digits, in order |
| Examples.FlatNumbersAccepted | src/utils.ts:133 | an array parameter accepts a flat list of numbers of the right total count, however deep its type is nested |
| Examples.SmallHex | src/utils.ts:109 | `toString(16)` on the small numbers used in the examples |
| Examples.FlatteningDecides | src/utils.ts:130-137 | an array parameter's encoding depends on its value only through the flattened list: inputs that flatten alike encode alike |
| Examples.FlattenTwoRows | src/utils.ts:24-26 | two rows of numbers flatten to the first row followed by the second |
| Examples.MatrixRowsFlatten | src/utils.ts:24-26 | the rows `[1, 2]` and `[3, 4]` flatten to `[1, 2, 3, 4]` |
| Examples.MatrixFlat | src/utils.ts:126-160 | a flat `[1, 2, 3, 4]` for a 2x2 matrix encodes as `0x1 .. 0x4` |
| Examples.NestedAsFlat | src/utils.ts:57-58 | numbers of the right count encode the same for an `m`-array of `n`-arrays and for an `m * n`-array |
| Examples.MatrixExamples | src/utils.ts:126-160 | a 2x2 matrix given nested or flat yields the same scalars `0x1 .. 0x4` |
| Examples.WidthNotCheckedOnArrayElements | src/utils.ts:104 | a number for a 128-bit field is refused as a parameter and accepted as a flattened array element |
| Examples.WidthCheckedInStructElements | src/utils.ts:37-38 | a 128-bit field of a struct inside an array is still refused with `UnsupportedWidth`, because the struct goes through the whole encoder |
| Examples.FieldExamples | src/utils.ts:101-124 | 255 gives `0xff`; `"0xFF"` is kept verbatim; `"255"` is refused |
| Examples.PaddedCodes | src/utils.ts:27-36 | `"ab"` for a 4-character string inside an array flattens to the codes 97, 98, 0, 0 |
| Examples.PaddedStringExample | src/utils.ts:27-36 | `"ab"` as a 4-character string inside an array gives `0x61, 0x62, 0x0, 0x0` |
| Examples.StructFields | src/utils.ts:162-168 | the fields of a struct are encoded in the schema's field order, not the object's key order |
| Examples.StructExample | src/utils.ts:162-168 | a struct parameter at start index 5 fills keys 5 and 6 with its fields in order |

The encoder checks less than its types describe; the model follows the code:

- Array nesting is checked only through the flattened count (`src/utils.ts:133`), not shape by shape. `Examples.FlatNumbersAccepted` states the consequence.
- The 64-bit width check (`src/utils.ts:104`) is skipped only for numbers that are themselves flattened array elements (`src/utils.ts:140-142`). Struct fields are checked at any depth, also inside arrays, because a struct element goes through `generateWitnessMap` (`src/utils.ts:38`).
- Errors carry the parameter's own name, not a path through the nested structure.
- There is no recursion-depth limit.
- A string nested in an array is padded or truncated to its declared length (`src/utils.ts:27-36`). A top-level string must match its length exactly (`src/utils.ts:176`).

## Left out

- `src/handler.ts` and `src/server.ts` (HTTP handling, circuit loading, proof generation) are not part of this model. They are I/O around the encoder.
- Numbers are exact integers, so `Math.floor` is the identity on them. Fractional inputs and floating-point rounding of large numbers are not modelled.
- Characters are Unicode scalar values with code `c as nat`. JavaScript's UTF-16 code units are not modelled, so a character outside the Basic Multilingual Plane counts as one character instead of two.
- JavaScript property lookups on non-objects are simplified. The model returns "absent" for every value except `null`, and a fault for `null`. Lookups that JavaScript resolves on primitives and prototypes (`"abc"["length"]`, an array's index properties, inherited `Object.prototype` members) are not modelled. A struct field named `length` inside a string value is one example.
- Malformed schemas are not modelled. A schema is assumed to carry `length`, `type` and `fields` where its kind needs them, and the `TypeError`s a malformed one would raise are left out. The exception is an input array nested deeper than its type, which the model reports as `NestedTooDeep`.
- Error messages are modelled as error variants carrying the names and numbers shown. The exact message text, and the `typeof` description in some messages, are left out.
- The `Map` is built from scratch on each call, and nothing is shared or concurrent. The model's map is a value (`map<int, string>`) that the methods reassign.
- Abi.TotalLength: has no contract of its own. What it counts is stated by `Properties.FlattenValid`, `Encoding.EncodeParam` and `Encoding.WitnessMap`.
