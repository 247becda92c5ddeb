# jup-ag wire formats in Dafny

This project models the wire-format core of `jup-ag`, a Rust client for the Jupiter
swap aggregator on Solana. It covers what the crate does with the JSON the Jupiter API
returns and with the JSON it sends:

- `swap` decodes the base64 + bincode transactions of a swap response into a `Swap`.
- `route_map` parses the mint keys of the indexed route map and expands every
  `from index -> [to indices]` entry into `mint -> [mints]`.
- `field_instruction` reads Solana instructions (base58 program id and account pubkeys,
  base64 data). It reads one instruction, an optional one (`null` means none) or an
  array of them.
- `field_pubkey` and `field_option_pubkey` carry pubkeys as their base58 strings.
- `field_prioritization_fee` writes the `prioritizationFeeLamports` request field.

Modules:

- `Results` (results.dfy) holds Rust's `Option` and `Result`. `:-` plays the part of `?`.
  `TryMap` is `iter().map(f).collect::<Result<Vec<_>, _>>()`. `OptionMap` and
  `Transpose` are `Option::map` and `Option::transpose`.
- `Foreign` (foreign.dfy) holds the `solana_sdk` types and the foreign library calls.
  The calls are `Pubkey::from_str`, `Pubkey::to_string`, standard base64 (section 4 of
  RFC 4648) and `bincode::deserialize`. The base64 and bincode encoders the remote
  service uses are included too, as the partners of the decoders. They are fields of a
  `Lib` value that every operation takes as a parameter. What the model takes for
  granted of them is stated as the predicates `PubkeyStringsRoundTrip`,
  `Base64RoundTrips` and `BincodeRoundTrips`. They are required only by the round-trip
  lemmas.
- `Serde` (serde.dfy) holds a JSON value type and what serde's derived and standard
  deserializers accept. A struct is read from an object or from an array with one
  element per field. Every error serde itself raises is `Malformed`. The crate's own
  `de::Error::custom` errors are one tag each.
- `JupAg` (jup_ag.dfy) models `swap` and `route_map`.
- `FieldInstruction`, `FieldPubkey`, `FieldOptionPubkey` and `FieldPrioritizationFee`
  model one source module each.

The `for` loops of the source are methods with loops. The loops of `vec_instruction`
and `vec::deserialize` are proved equal to a specification function
(`InstructionsFromJson`, `PubkeysFromJson`). The insert loop of `route_map` is proved
to establish the predicate `BuiltFrom`, from which `ExpandRouteMap` derives its
properties. The `HashMap` the route map is read from is visited in no fixed order. The
loop models this by picking any entry not yet visited.

## Model

| member | source | states |
|---|---|---|
| `Results.TryMap` | src/lib.rs:214-218 | `collect` into a `Result` succeeds exactly when every element converts. The output keeps length and order. The error is the first failing element's, and every error comes from an element before which all converted. |
| `Results.OptionMap` | src/lib.rs:192 | `Option::map` keeps `None` and applies the function to a present value. |
| `Results.Transpose` | src/lib.rs:192 | `Option::transpose`: `None` becomes `Ok(None)` and nothing else does; `Some(Ok(t))` becomes `Ok(Some(t))`; `Some(Err(e))` becomes `Err(e)`. |
| `Serde.AsString` | src/field_instruction.rs:23 | `String` is read exactly from a JSON string, with its contents; anything else is serde's own error. |
| `Serde.AsBool` | src/field_instruction.rs:24-25 | `bool` is read exactly from a JSON boolean, with its value; anything else is serde's own error. |
| `Serde.AsArray` | src/field_instruction.rs:93 | `Vec<serde_json::Value>` is read exactly from a JSON array, with its elements in order; anything else is serde's own error. |
| `Serde.StructFields` | src/field_instruction.rs:12-26 | A derived struct deserializer reads an object that has every field (extra keys ignored, values taken by field name) or an array with exactly one element per field, whose elements are the field values in order. Anything else fails. |
| `Serde.AsStrings` | src/field_pubkey.rs:13 | `Vec<String>` is read exactly from an array whose elements are all strings, in order. Otherwise serde's own error is raised. |
| `JupAg.DecodeTransaction` | src/lib.rs:187-189 | `decode` base64-decodes first and fails with `Base64Decode` if that fails. Otherwise it returns the bincode result, with a bincode error wrapped as `Bincode`. |
| `JupAg.DecodeOptionalTransaction` | src/lib.rs:192-194 | `x.map(decode).transpose()` succeeds exactly when the transaction is absent or decodes. It gives `Ok(None)` exactly for an absent one; a present one yields `decode`'s value or `decode`'s error. |
| `JupAg.DecodeSwap` | src/lib.rs:191-195 | The swap decodes exactly when every present transaction decodes. `setup` and `cleanup` are absent exactly when the response lacked them. Each part is the decoding of its string. Errors come in field order: setup, then swap, then cleanup. |
| `JupAg.EncodeSwap` | src/lib.rs:162-168 | A swap is sent with its optional transactions absent exactly when they are absent from the swap. |
| `JupAg.DecodeEncodeTransaction` | src/lib.rs:187-189 | `decode` reads back every transaction written as base64 over bincode, given that both libraries read back what they write. |
| `JupAg.DecodeSwapRoundTrip` | src/lib.rs:191-195 | `swap` reads back every swap, with present and absent parts alike, under the same two properties. |
| `JupAg.ParseMintKeys` | src/lib.rs:214-218 | Parsing the mint keys succeeds exactly when every string parses. The output keeps length and order. The first unparsable string's error is returned as `ParsePubkey`. |
| `JupAg.ParseMintKeysRoundTrip` | src/lib.rs:214-218 | Mint keys written with `to_string` parse back to the same keys in the same order. |
| `JupAg.ExpandIndices` | src/lib.rs:224 | The target list maps each index to its mint key, keeping length and order. |
| `JupAg.KeysOfSize` | src/lib.rs:220-226 | Inserting one key per visited entry gives at most as many keys as entries, and exactly as many when no two entries share a key. |
| `JupAg.InsertEntryKeepsBuiltFrom` | src/lib.rs:221-225 | One `insert` of the loop keeps the loop invariant `BuiltFrom`. The invariant says: the keys are the mint keys of the visited entries; each value expands a visited entry with that key; with distinct keys, no visited entry is lost. |
| `JupAg.InsertEntries` | src/lib.rs:220-226 | After the insert loop has visited every entry, in any order, the map it built satisfies `BuiltFrom` for the whole indexed map. |
| `JupAg.ExpandRouteMap` | src/lib.rs:220-226 | The route map's key set is `{ mint_keys[i] : i a key of the indexed map }`. Every value is the expansion of some entry with that key. The map has at most as many entries as the indexed map. With distinct mint keys it has exactly as many, and `result[mint_keys[from]]` is the expansion of `from`'s list. |
| `JupAg.RouteMap` | src/lib.rs:214-228 | `route_map` fails exactly when a mint key does not parse, with that parse error, before any entry is built. Indices out of range (a panic in the source) are excluded only once the keys have parsed. On success: the key set is the mint keys of the indexed keys; there are at most as many entries as indexed entries; every value expands some entry with its key. With distinct mint keys there are exactly as many entries, and each indexed entry's expansion is stored under its mint key. |
| `FieldInstruction.ReadAccountMetaFields` | src/field_instruction.rs:20-26 | Reading `AccountMetaFields` fails only with serde's own error. |
| `FieldInstruction.ReadWriteAccountMetaFields` | src/field_instruction.rs:20-26 | An account written as an object with camelCase keys `pubkey`, `isSigner`, `isWritable` reads back unchanged. |
| `FieldInstruction.ReadInstructionFields` | src/field_instruction.rs:12-18 | Reading `InstructionFields` fails only with serde's own error. |
| `FieldInstruction.ReadWriteInstructionFields` | src/field_instruction.rs:12-28 | Instruction fields written as an object with keys `accounts`, `data`, `programId` read back unchanged. |
| `FieldInstruction.AccountFromFields` | src/field_instruction.rs:35-44 | Converting one account fails exactly when its pubkey does not parse, with an `AccountPubkey` error. It copies `isSigner` and `isWritable` unchanged. |
| `FieldInstruction.DeserializeFields` | src/field_instruction.rs:29-55 | Succeeds exactly when the program id parses, every account pubkey parses and the data base64-decodes. On success, `programId` and `data` are the decoded values and the accounts keep length, order and flags. Errors come in order: `ProgramId`, then the first bad account's `AccountPubkey`, then `Data`. |
| `FieldInstruction.Deserialize` | src/field_instruction.rs:8-56 | `instruction::deserialize` gives serde's own error exactly when the JSON lacks the struct's shape. Otherwise it decodes the fields as `DeserializeFields` states. |
| `FieldInstruction.Serialize` | src/field_instruction.rs:12-18 | An instruction is written as an object with exactly the keys `accounts`, `data`, `programId`. |
| `FieldInstruction.RoundTrip` | src/field_instruction.rs:8-56 | `instruction::deserialize` reads back every instruction written with base58 pubkeys and base64 data, given the two library round-trip properties. |
| `FieldInstruction.OptionDeserialize` | src/field_instruction.rs:64-81 | `null` gives `Ok(None)`. Any other value gives `Some` of the instruction when it deserializes, and otherwise its error wrapped as `OptionalInstruction`. |
| `FieldInstruction.OptionSerialize` | src/field_instruction.rs:70-72 | An optional instruction is written as `null` exactly when it is absent. |
| `FieldInstruction.OptionRoundTrip` | src/field_instruction.rs:64-81 | `option_instruction::deserialize` reads back every optional instruction. |
| `FieldInstruction.InstructionsFromJson` | src/field_instruction.rs:93-104 | A non-array is serde's error. An array gives instructions exactly when every element deserializes, with the same length and order. Otherwise the first failing element's error is returned, wrapped as `VecInstruction`. |
| `FieldInstruction.VecDeserialize` | src/field_instruction.rs:89-105 | The push loop returns exactly what `InstructionsFromJson` states. It stops at the first failing element. |
| `FieldInstruction.VecSerialize` | src/field_instruction.rs:93 | A list of instructions is written as an array of the same length, element by element. |
| `FieldInstruction.VecRoundTrip` | src/field_instruction.rs:89-105 | `vec_instruction::deserialize` reads back every list of instructions. |
| `FieldPubkey.PubkeysFromJson` | src/field_pubkey.rs:13-19 | A JSON value that is not an array of strings fails with serde's error before any parsing. Otherwise the result keeps length and order with `out[i] == from_str(in[i])`. It fails exactly when some string does not parse, with the first such error. |
| `FieldPubkey.VecDeserialize` | src/field_pubkey.rs:9-20 | The push loop returns exactly what `PubkeysFromJson` states. |
| `FieldPubkey.VecSerialize` | src/field_pubkey.rs:23-29 | `vec::serialize` writes an array of the same length whose element `i` is the string of pubkey `i`. |
| `FieldPubkey.VecRoundTrip` | src/field_pubkey.rs:9-29 | `vec::deserialize(vec::serialize(keys)) == Ok(keys)`, given that `from_str` parses what `to_string` prints. |
| `FieldPubkey.OptionSerialize` | src/field_pubkey.rs:38-46 | `option::serialize` writes `null` exactly for `None`, and `Some(k)` as the string `k.to_string()`. |
| `FieldPubkey.OptionSerializeInjective` | src/field_pubkey.rs:42-45 | Different optional pubkeys give different JSON, given the pubkey round-trip property. |
| `FieldOptionPubkey.Serialize` | src/field_option_pubkey.rs:6-14 | `null` exactly for `None`, and `Some(k)` as the string `k.to_string()`. |
| `FieldOptionPubkey.SameAsFieldPubkeyOption` | src/field_option_pubkey.rs:10-13 | It agrees with `field_pubkey::option::serialize` on every input. |
| `FieldPrioritizationFee.PriorityLevelJson` | src/field_prioritization_fee.rs:27 | A priority level is written as a string. |
| `FieldPrioritizationFee.PriorityLevelJsonInjective` | src/field_prioritization_fee.rs:27 | Different priority levels are written differently. |
| `FieldPrioritizationFee.Serialize` | src/field_prioritization_fee.rs:10-33 | `Auto` is exactly the string `"auto"`. `Exact` is exactly the bare number `lamports`. The other variants are one-key objects recognised by their key: `{"autoMultiplier": multiplier}`, `{"jitoTipLamports": lamports}` and `{"priorityLevelWithMaxLamports": {"priorityLevel": …, "maxLamports": …}}`. |
| `FieldPrioritizationFee.SerializeInjective` | src/field_prioritization_fee.rs:10-33 | Different fees serialize to different JSON. |

## Left out

- HTTP and async: every `reqwest` call and `.await` in `price`, `quote`, `swap` and `route_map`. Each model operation starts from the decoded response body. `Error::Reqwest` is kept in the error type but never produced.
- Building the request URLs of `price` and `quote`, the `SwapRequest` value, and the floating-point response fields (`price`, `price_impact_pct`, `pct`, `time_taken`). These are text formatting and floating point.
- Reading the `SwapResponse` and `IndexedRouteMap` bodies from JSON. This includes the `usize` map keys written as strings. The model starts from the decoded structs.
- The internals of base58 `Pubkey` parsing, base64 and bincode. They are foreign library code, passed in as `Lib`. Their round-trip properties are taken as given, as requirements of the round-trip lemmas.
- The text of error messages. Each `de::Error::custom` message is one `DeError` tag, and serde's own errors are the single tag `Malformed`.
- JSON text, duplicate object keys and numbers beyond integers. A JSON object is a map from keys to values.
- `JupAg.ExpandRouteMap`: with duplicate mint keys, the source's `HashMap` visiting order decides which entry wins. That order is unspecified, so the contract states only the key set, the size bound and that each value comes from some entry with that key.
- `JupAg.RouteMap`: an out-of-range index panics in the source. Here it is a precondition instead of a modelled panic.
- `FieldPrioritizationFee.Serialize`: the declarations of `PrioritizationFeeLamports` and `PriorityLevel` are not part of this model. The variants are taken from the serializer's match. Assumed: amounts and the multiplier are unsigned integers (modelled as unbounded `nat`; their Rust types are not visible). Assumed: `PriorityLevel` has the unit variants `Medium`, `High` and `VeryHigh`, written by a derived serializer in camelCase; the enum is only used, never declared, at src/field_prioritization_fee.rs:27.
- `field_as_string` is not part of this model, nor are the example programs.
- Integer widths: indices (`usize`) and lamports (`u64`) are unbounded naturals. No arithmetic is done on them, so no wrap-around can occur.
