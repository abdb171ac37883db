# Derived Codable conformance: coding keys, synthesis and body plans

This project is a Dafny model of the decision logic behind Swift's
compiler-derived `Encodable` and `Decodable` conformances, as implemented in
`lib/Sema/DerivedConformanceCodable.cpp`. The model covers the following steps:

- **Validation.** `validateCodingKeysEnum` and `validateCaseCodingKeysEnum`
  reconcile the cases of a hand-written `CodingKeys` (or `CodingKeys_<case>`)
  enum with the stored properties of a struct or class (or the payload
  parameters of an enum case). They use a pending name→member map, report
  every extraneous or non-conforming key, and then apply the Decodable
  leftover rule.
- **Classification.** `classifyCodingKeys` decides between Invalid,
  NeedsSynthesizedCodingKeys and Valid. `validateCodingKeysProtocolConformance`
  checks the shape of the key declaration it finds.
- **Synthesis.** `synthesizeCodingKeysEnum` and
  `synthesizeCodingKeysEnum_enum` grow the type's member list with the
  synthesized key enums. `combineIdentifiers` names the nested ones.
- **Body plans.** The bodies of `encode(to:)` and `init(from:)` come from
  `deriveBodyEncodable_encode`, `deriveBodyEncodable_enum_encode`,
  `deriveBodyDecodable_init` and `deriveBodyDecodable_enum_init`. Each is
  modelled as a list of abstract statements: the container binding, keyed
  writes and reads with or without `IfPresent`, nested keyed and unkeyed
  containers, default arguments, and `super` delegation.
  `lookupVarDeclForCodingKeysCase` is modelled as the lookup the plans use.
- **Gating.** `canSynthesize` checks the superclass initializer and then
  dispatches on the classification. `deriveEncodable` and `deriveDecodable`
  are the entry points.

What the type checker answers is given as input:

- **Members.** A stored property or payload parameter is a `Member` record.
  It says whether the member is user-accessible, whether its type conforms to
  each protocol, whether it is optional, a `let`, parent-initialized or
  default-initializable, whether it has a default argument, and the name of
  the property it wraps, if any.
- **Declarations.** The type's member declarations are a list of named
  declarations. Direct lookup by name returns the first match.
- **Superclass.** The superclass is a record of its conformances and of the
  initializers that lookup finds on it.

The compiler adds members to the type in place. That is modelled by the
class `KeySynthesis.TargetType`, whose `decls` field the synthesizers extend.
The loops of the validators, synthesizers and body builders are methods.
Each method is proved equal to a specification function. Lemmas about those
functions state the properties.

Files:

- `codable_types.dfy`: the entities and name lookup.
- `key_validation.dfy`: validation.
- `classification.dfy`: classification.
- `key_synthesis.dfy`: key-enum synthesis.
- `body_plans.dfy`: the statement datatype and the key-to-property lookup.
- `encode_bodies.dfy` and `decode_bodies.dfy`: the body plans.
- `derivation.dfy`: canSynthesize and the entry points.

## Model

| member | source | states |
|---|---|---|
| CodableTypes.CombineIdentifiers | lib/Sema/DerivedConformanceCodable.cpp:57-61 | The result is the first identifier, then `_`, then the second, and nothing else. |
| CodableTypes.NestedKeysNameInjective | lib/Sema/DerivedConformanceCodable.cpp:57-61 | `CodingKeys_<a>` equals `CodingKeys_<b>` exactly when a = b. No such name is `CodingKeys`, so nested key enums of distinct cases never collide with each other or with the top-level one. |
| CodableTypes.LookupDirect | lib/Sema/DerivedConformanceCodable.cpp:305-307 | A declaration found by name is one of the type's declarations with that name. |
| CodableTypes.LookupDirectMeaning | lib/Sema/DerivedConformanceCodable.cpp:305-307 | Lookup comes back empty exactly when no declaration has the name. |
| CodableTypes.LookupDirectAppend | lib/Sema/DerivedConformanceCodable.cpp:473-509 | After `addMember`, a name that was already declared finds the same declaration. A name that was not declared finds whatever the added declarations provide. |
| KeyValidation.InventoryFacts | lib/Sema/DerivedConformanceCodable.cpp:82-88 | Exactly the coding names of user-accessible members enter the pending map, each mapped to a member coded under that name. The insertion order lists each pending name once. |
| KeyValidation.ScanPending | lib/Sema/DerivedConformanceCodable.cpp:91-118 | The key scan only erases entries from the pending map. A member whose type does not conform is never erased. |
| KeyValidation.ScanReports | lib/Sema/DerivedConformanceCodable.cpp:91-118 | Every key with no pending member is reported as extraneous. Every key whose member does not conform is reported as non-conforming. |
| KeyValidation.CoveredSnoc | lib/Sema/DerivedConformanceCodable.cpp:91-118 | Adding one key keeps the keys covered exactly when the new key names a pending, conforming member that no earlier key named. |
| KeyValidation.ScanClean | lib/Sema/DerivedConformanceCodable.cpp:91-121 | The scan reports nothing exactly when the keys are distinct and each names a pending member that conforms. In that case the pending map that remains is exactly the members no key named. |
| KeyValidation.LeftoverFacts | lib/Sema/DerivedConformanceCodable.cpp:123-143 | The Decodable leftover rule reports every remaining member that may not be left out: a stored property that is neither default-initializable nor parent-initialized, or a payload parameter without a default argument (lines 212-227). It reports nothing exactly when every remaining member may be left out. |
| KeyValidation.ValidationMeaning | lib/Sema/DerivedConformanceCodable.cpp:67-230 | Both validators succeed exactly when the keys match the members one to one. The match covers distinct keys, conforming members, and leftovers only where the protocol allows them. They fail exactly when they report something, and every extraneous or non-conforming key is reported. |
| KeyValidation.CollectProperties | lib/Sema/DerivedConformanceCodable.cpp:80-88 | The loop that fills the pending map produces the inventory, with its insertion order. |
| KeyValidation.ValidateKeys | lib/Sema/DerivedConformanceCodable.cpp:67-146 | The validator method (its `Site` argument selects lines 153-230 instead) returns the verdict of the specification. It is valid exactly when the keys match the members and exactly when nothing is reported. Every extraneous key is reported. |
| Classification.CheckKeyEnum | lib/Sema/DerivedConformanceCodable.cpp:248-293 | The key declaration is accepted exactly when it is a type that conforms to CodingKey and is an enum, and then its cases are returned. Otherwise the diagnostic distinguishes "does not conform" from "not an enum", in the source's order of checks. |
| Classification.ClassifyCasesMeaning | lib/Sema/DerivedConformanceCodable.cpp:318-337 | The per-case scan gives Invalid exactly when some case's key enum is broken. It gives NeedsSynthesizedCodingKeys exactly when none is broken and some case's key enum (or the top-level one) is missing. It reports a diagnostic exactly when the result is Invalid. |
| Classification.ClassifyMeaning | lib/Sema/DerivedConformanceCodable.cpp:304-353 | For a struct or class, NeedsSynthesizedCodingKeys holds exactly when there is no CodingKeys. Valid holds exactly when CodingKeys is a CodingKey enum matching the stored properties. For an enum, Invalid and Valid are characterised through the top-level and per-case key enums. Invalid is always explained by a diagnostic. |
| Classification.ClassifyCodingKeys | lib/Sema/DerivedConformanceCodable.cpp:304-353 | The classification method, with its early returns, agrees with the specification. |
| KeySynthesis.ConformingCodingNamesFacts | lib/Sema/DerivedConformanceCodable.cpp:566-590 | A key case is made exactly for each accessible member that conforms. When coding names are distinct, no case is made twice. |
| KeySynthesis.NonConformingDiagsFacts | lib/Sema/DerivedConformanceCodable.cpp:566-590 | The synthesizer reports nothing exactly when every accessible member conforms. It reports every accessible member that does not conform. |
| KeySynthesis.SynthesizedNamesMatch | lib/Sema/DerivedConformanceCodable.cpp:566-590 | When every accessible member conforms and coding names are distinct, the synthesized cases pass the validator for either site. |
| KeySynthesis.StructSynthesisOutcome | lib/Sema/DerivedConformanceCodable.cpp:524-600 | Struct and class synthesis succeeds exactly when every accessible stored property conforms, and exactly when nothing is reported. Every non-conforming property is reported. On failure no declaration is added. |
| KeySynthesis.StructSynthesisKeys | lib/Sema/DerivedConformanceCodable.cpp:549-599 | On success, lookup finds the synthesized implicit CodingKeys. Its cases are `super` when the superclass is Encodable or Decodable, followed by the coding names of the accessible stored properties in order. |
| KeySynthesis.StructSynthesisValid | lib/Sema/DerivedConformanceCodable.cpp:524-600 | For a type without a coded superclass and with distinct coding names, classification after a successful synthesis gives Valid. |
| KeySynthesis.AddParamsFacts | lib/Sema/DerivedConformanceCodable.cpp:498-503 | The `allConform && add(...)` short-circuit: after the first failure nothing is added or reported. Before it, the flag stays set exactly when every accessible parameter conforms. Cases and the single diagnostic are then as `add` makes them. |
| KeySynthesis.CaseNames | lib/Sema/DerivedConformanceCodable.cpp:462-469 | One name per enum case, in case order. |
| KeySynthesis.LookupDirectAbsent | lib/Sema/DerivedConformanceCodable.cpp:484-486 | Appending declarations of other names does not change a lookup. |
| KeySynthesis.LookupPastPrefix | lib/Sema/DerivedConformanceCodable.cpp:484-486 | A lookup is unchanged by declarations of other names added after a prefix. |
| KeySynthesis.SynthCasesAppends | lib/Sema/DerivedConformanceCodable.cpp:476-510 | The per-case loop only appends. Each declaration it adds is `CodingKeys_<case>` for a case that qualified. |
| KeySynthesis.SynthCasesLookup | lib/Sema/DerivedConformanceCodable.cpp:484-486 | The loop leaves the nested key enum of a case not yet visited as it was. |
| KeySynthesis.SynthCaseStep | lib/Sema/DerivedConformanceCodable.cpp:476-510 | One case's step changes only the lookup of its own `CodingKeys_<case>`, and adds it exactly when the case qualifies. |
| KeySynthesis.SynthCasesPresence | lib/Sema/DerivedConformanceCodable.cpp:476-510 | After the loop, a case has a nested key enum exactly when it had one or it qualified. |
| KeySynthesis.SynthCasesConform | lib/Sema/DerivedConformanceCodable.cpp:476-515 | The loop succeeds exactly when every qualifying case's accessible parameters conform. On success it reports nothing. On failure it reports exactly one diagnostic, and after a failure nothing more. |
| KeySynthesis.SynthCasesContents | lib/Sema/DerivedConformanceCodable.cpp:476-510 | On success, each qualifying case's nested key enum holds exactly the coding names of its accessible parameters. |
| KeySynthesis.WithTopKeysLookup | lib/Sema/DerivedConformanceCodable.cpp:453-474 | Adding the top-level CodingKeys leaves nested lookups alone. When none existed, it adds one case per enum case. |
| KeySynthesis.EnumSynthesisDecls | lib/Sema/DerivedConformanceCodable.cpp:409-518 | Enum synthesis only appends declarations, even when it fails. |
| KeySynthesis.SynthCasesAddNoTopKeys | lib/Sema/DerivedConformanceCodable.cpp:476-510 | The per-case loop never adds a declaration named CodingKeys. |
| KeySynthesis.EnumSynthesisAddsKeys | lib/Sema/DerivedConformanceCodable.cpp:453-474 | Without an existing CodingKeys, lookup afterwards finds the synthesized one with one case per enum case. |
| KeySynthesis.EnumSynthesis | lib/Sema/DerivedConformanceCodable.cpp:409-518 | A case ends with a nested key enum exactly when it had one or qualified. Synthesis succeeds exactly when every qualifying case's parameters conform, and exactly when nothing is reported. At most one diagnostic is issued. |
| KeySynthesis.SynthCasesNoneQualify | lib/Sema/DerivedConformanceCodable.cpp:476-510 | When no case qualifies for a nested key enum, the per-case loop changes nothing. |
| KeySynthesis.EnumSynthesisIdempotent | lib/Sema/DerivedConformanceCodable.cpp:409-518 | Running enum synthesis again on its own output adds nothing, succeeds and reports nothing. This holds even after a failed first run, because the nested key enums made before the failure stay attached. It needs CodingKeys to be absent or an enum. |
| KeySynthesis.SynthesizedCaseKeysValidate | lib/Sema/DerivedConformanceCodable.cpp:409-518 | On success, a case given a synthesized nested key enum with distinct parameter names is neither broken nor missing for the per-case classification. |
| KeySynthesis.AddKeyCases | lib/Sema/DerivedConformanceCodable.cpp:498-503 | The parameter loop computes the short-circuit fold `AddParams`. |
| KeySynthesis.TargetType.SynthesizeCodingKeys | lib/Sema/DerivedConformanceCodable.cpp:524-600 | The in-place synthesizer leaves the flag, the type's declarations and the diagnostics as the specification gives them. |
| KeySynthesis.TargetType.SynthesizeCodingKeysForEnum | lib/Sema/DerivedConformanceCodable.cpp:409-518 | The same for the enum synthesizer. |
| BodyPlans.LookupVarForKey | lib/Sema/DerivedConformanceCodable.cpp:777-808 | The property found for a key is coded under that key. The IfPresent flag is set exactly when its type is optional. |
| BodyPlans.LookupVarForKeyMeaning | lib/Sema/DerivedConformanceCodable.cpp:777-808 | The lookup fails exactly when no stored property is coded under the key. Otherwise it finds the first that is. |
| EncodeBodies.EncodeWritesPerKey | lib/Sema/DerivedConformanceCodable.cpp:1157-1194 | One write per key, in key order. |
| EncodeBodies.EncodeWritesFollowKeys | lib/Sema/DerivedConformanceCodable.cpp:1157-1194 | Write i uses key i. It writes a stored property coded under that key, with `encodeIfPresent` exactly when that property is optional. |
| EncodeBodies.EncodeBodyShape | lib/Sema/DerivedConformanceCodable.cpp:1079-1235 | The container is always bound first, even with no keys. The writes follow, one per key. `super.encode` is present, and last, exactly when the superclass is Encodable. |
| EncodeBodies.DeriveBodyEncodable | lib/Sema/DerivedConformanceCodable.cpp:1079-1235 | The statement-building method produces the specified body. |
| EncodeBodies.UnkeyedWritesAll | lib/Sema/DerivedConformanceCodable.cpp:960-974 | A case with unnamed parameters writes every payload value, in position order. |
| EncodeBodies.NestedWritesFacts | lib/Sema/DerivedConformanceCodable.cpp:999-1046 | A named parameter is written exactly when its case's key enum has its name. Each write uses `encodeIfPresent` exactly when the parameter is optional. |
| EncodeBodies.EncodeArmsFacts | lib/Sema/DerivedConformanceCodable.cpp:903-1060 | The switch has an arm for every case with a top-level key and for no other. Each arm first binds a nested container under its case's key. |
| EncodeBodies.NestedWritesOf | lib/Sema/DerivedConformanceCodable.cpp:999-1046 | The payload loop produces the specified writes. |
| EncodeBodies.DeriveBodyEncodableEnum | lib/Sema/DerivedConformanceCodable.cpp:810-1074 | The enum encode builder produces the specified body. |
| DecodeBodies.DecodeReadsMirrorWrites | lib/Sema/DerivedConformanceCodable.cpp:1731-1838 | When no key resolves to a skipped `let`, the reads are the encoder's writes turned into reads: same members, keys, order and IfPresent flags. No warning is issued. |
| DecodeBodies.SkippedLetsNotRead | lib/Sema/DerivedConformanceCodable.cpp:1740-1799 | A parent-initialized `let` is never read, and every read is for one of the keys. |
| DecodeBodies.SkippedLetsReported | lib/Sema/DerivedConformanceCodable.cpp:1740-1799 | With a synthesized key enum, every skipped `let` is reported as not decoded. |
| DecodeBodies.ExplicitKeysEncodableSilent | lib/Sema/DerivedConformanceCodable.cpp:1774-1781 | With a written-out key enum in a type that is also Encodable, skipped `let`s are not reported. |
| DecodeBodies.DecodeBodyShape | lib/Sema/DerivedConformanceCodable.cpp:1651-1917 | With no keys there is no container and no read. Otherwise the container comes first and then the mirrored reads. A class with a superclass ends with `super.init(from:)` exactly when the superclass is Decodable, and otherwise with `super.init()`, tried exactly when it throws. No other type delegates. |
| DecodeBodies.DeriveBodyDecodable | lib/Sema/DerivedConformanceCodable.cpp:1651-1917 | The statement-building method produces the specified body and warnings. |
| DecodeBodies.KeyedReadsMirrorWrites | lib/Sema/DerivedConformanceCodable.cpp:1534-1580 | In the corrected enum decoder, the keyed reads undo the encoder's nested writes one for one, with `decodeIfPresent` exactly where `encodeIfPresent` was used. There is one argument per parameter. |
| DecodeBodies.AsWrittenMirrorsIff | lib/Sema/DerivedConformanceCodable.cpp:1534-1580 | As written, the enum decoder's reads undo the writes exactly when no keyed parameter is optional. |
| DecodeBodies.OptionalPayloadNotReadBack | lib/Sema/DerivedConformanceCodable.cpp:1534-1580 | The concrete input `case c(x: Int?)` with key `x`: the encoder uses `encodeIfPresent`. The decoder as written uses plain `decode`, and the corrected one mirrors the write. |
| DecodeBodies.ArmsMirror | lib/Sema/DerivedConformanceCodable.cpp:1401-1407 | The decoder has one key arm per encoder arm, in the same order and for the same case. |
| DecodeBodies.EnumDecodeBodyShape | lib/Sema/DerivedConformanceCodable.cpp:1372-1640 | Nothing is generated when CodingKeys has no case. Otherwise the body binds the container and switches on the first key. It has the encoder's arms, then a trailing default arm that calls `fatalError`. |
| DecodeBodies.ArmPayloadsMirror | lib/Sema/DerivedConformanceCodable.cpp:1421-1620 | Within a case with a payload, the decoder binds the same nested container as the encoder. An unnamed payload reads every position in order. A named payload's reads undo the writes always in the corrected reading, and in the reading as written exactly when no keyed parameter is optional. |
| DecodeBodies.UnkeyedReadsAll | lib/Sema/DerivedConformanceCodable.cpp:1458-1480 | Every payload position is read, in order. |
| DecodeBodies.KeyedReadArgsOf | lib/Sema/DerivedConformanceCodable.cpp:1534-1580 | The argument loop produces the specified constructor arguments, in either reading. A parameter without a key takes its default argument. A keyed one is read with plain `decode` as written, and with `decodeIfPresent` when optional in the corrected reading. |
| DecodeBodies.DeriveBodyDecodableEnum | lib/Sema/DerivedConformanceCodable.cpp:1302-1646 | The enum decode builder produces the specified body in either reading: as written, or with optional keyed parameters read by `decodeIfPresent`. |
| Derivation.CheckSuperInit | lib/Sema/DerivedConformanceCodable.cpp:1998-2053 | The superclass initializer is usable exactly when no delegation is needed or lookup finds exactly one designated, accessible, non-failable initializer. Otherwise one diagnostic names the first failing check: missing, not designated, inaccessible, failable. An ambiguous lookup is rejected without a diagnostic. |
| Derivation.KeysNamingMembersResolve | lib/Sema/DerivedConformanceCodable.cpp:777-808 | Keys that are coding names of stored properties all resolve to a property. |
| Derivation.CanSynthesizeOutcome | lib/Sema/DerivedConformanceCodable.cpp:1985-2063 | canSynthesize only adds declarations. Success reports nothing and implies a usable superclass initializer. A failure without a diagnostic happens exactly for an ambiguous superclass initializer. |
| Derivation.CanSynthesizeProvidesKeys | lib/Sema/DerivedConformanceCodable.cpp:2055-2062 | After success, the type has a CodingKeys enum that the body synthesizers can find. |
| Derivation.CanSynthesizeKeysResolve | lib/Sema/DerivedConformanceCodable.cpp:1985-2063 | For a struct or class, after success every key of CodingKeys resolves to a stored property, as the body synthesizers require. This needs CodingKeys to have been written out or the superclass not to be coded. |
| Derivation.CaseKeysReady | lib/Sema/DerivedConformanceCodable.cpp:1534-1546 | A case whose key enum validates is ready for both body builders. Its key enum is found, and for Decodable each named parameter without a key has a default argument. |
| Derivation.ValidEnumReady | lib/Sema/DerivedConformanceCodable.cpp:2055-2062 | When an enum's key enums are valid as declared, every case is ready for both body builders. |
| Derivation.SynthesizedEnumReady | lib/Sema/DerivedConformanceCodable.cpp:409-518 | After successful enum synthesis, every case with a top-level key is ready for both body builders. |
| Derivation.CanSynthesizeEnumReady | lib/Sema/DerivedConformanceCodable.cpp:1985-2063 | For an enum whose named payloads are plain, success leaves CodingKeys and every nested key enum the encode builder looks up. For Decodable it also leaves a default argument for every named parameter without a key, as the decode builder asserts. |
| Derivation.CanSynthesize | lib/Sema/DerivedConformanceCodable.cpp:1985-2063 | The method updates the target's declarations and returns the flag and diagnostics of the specification. |
| Derivation.DeriveMeaning | lib/Sema/DerivedConformanceCodable.cpp:2065-2147 | A witness is returned exactly when the type is a struct, class or enum, the requirement has the expected name, the context is allowed and canSynthesize succeeds. Then nothing is reported, CodingKeys exists and the body kind matches the type. Every other attempt after the preliminary checks reports "does not conform" and "no witness" first. Declarations are only added. |
| Derivation.DeriveEncodable | lib/Sema/DerivedConformanceCodable.cpp:2065-2110 | The entry point returns the specified witness, declarations and diagnostics for Encodable. |
| Derivation.DeriveDecodable | lib/Sema/DerivedConformanceCodable.cpp:2112-2147 | The same for Decodable. |

## Left out

- AST construction (expressions, patterns, declarations, types, `try`) is left out. Generated bodies are abstract statement lists, and key enums are lists of case names with an `implicit` flag.
- Type-checker services are inputs: conformance queries, `mapTypeIntoContext`, optional-type unwrapping, access checks, typealias resolution, and the `isFinal` query, which is the `finalClass` parameter.
- `lookupMember` and `lookupDirect` are both modelled as lookup in one declaration list. Inherited and static members are not represented.
- Superclass `init()` lookup: canSynthesize uses `lookupMember` (line 2015) and treats its whole result list, where more than one result is ambiguous. `deriveBodyDecodable_init` uses `lookupDirect` (line 1882) and takes the first result. Both read the one list `plainInit`. This assumes the two lookups agree, which the source only asserts (line 1885).
- Diagnostic text, fix-its and source locations are left out. So is the "make the property mutable" note on a skipped `let`. Diagnostics are a list of tagged values.
- The `DiagnosticTransaction` of `deriveEncodable`/`deriveDecodable` is reduced to its effect. The two errors are kept only when canSynthesize fails.
- `checkAndDiagnoseDisallowedContext` is a boolean input, and its own diagnostic is not modelled.
- The runtime behaviour of encoders, decoders and containers is left out, including any encode-then-decode round trip. Only the generated calls are modelled. The mirror lemmas compare the two plans statement by statement.
- Lazy body-synthesizer registration, access-level copying and adding the witness to the type are left out. The `override` and `required` attributes are recorded in the witness value without further properties.
- Derivation.CanSynthesizeKeysResolve: needs a written-out CodingKeys or a superclass that is not coded. The synthesized `super` key names no stored property, so the source's `lookupVarDeclForCodingKeysCase` would reach `llvm_unreachable` on it.
- KeySynthesis.EnumSynthesis, KeySynthesis.SynthCasesAppends and Derivation.CanSynthesizeOutcome: these assume distinct enum case names. A duplicate case name is an invalid redeclaration, which is diagnosed elsewhere.
- KeySynthesis.SynthesizedNamesMatch and KeySynthesis.StructSynthesisValid: these assume distinct coding names. Two properties coded under one name would make the synthesized enum declare a duplicate case, which the type checker rejects elsewhere.
- KeySynthesis.StructSynthesisValid: also excludes a class whose superclass is Encodable or Decodable. For such a class, synthesis adds a `super` key (line 556) that names no stored property, so validating the result again would report it as extraneous.
- Derivation.CanSynthesizeEnumReady: assumes that named payload parameters are accessible, are not property-wrapper storage, and have distinct names, as Swift declares them. Otherwise the decoder's assertion that each parameter without a key has a default argument may not follow from validation.
- KeySynthesis.EnumSynthesisIdempotent: assumes that no non-enum declaration is named CodingKeys. Such a declaration hides the synthesized enum from the next run, which would add another one.
- `superclassConformsTo` and `getVarNameForCoding` are the plain functions `SuperclassConformsTo` and `CodingName`. They have no contract of their own beyond their use in the lemmas above.

## Findings

| source | as written | input that shows it | evidently intended | confidence | as-written member | corrected member |
|---|---|---|---|---|---|---|
| lib/Sema/DerivedConformanceCodable.cpp:1534-1580 | The enum decoder reads each keyed payload parameter with `decode(T.self, forKey:)`, even when `T` is optional. The encoder (lines 1016-1031) writes that parameter with `encodeIfPresent`, which omits the key for `nil`. | `enum E: Codable { case c(x: Int?) }` with nested key `x`: encoding `.c(x: nil)` omits `x`, and decoding it requires `x` | Read optional keyed parameters with `decodeIfPresent`, mirroring the write | medium; not executed | DecodeBodies.OptionalPayloadNotReadBack | DecodeBodies.KeyedReadsMirrorWrites |
