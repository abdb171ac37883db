/** The shape of the synthesized encode(to:) and init(from:) bodies. A body
    is a list of statements over one keyed container; the enum bodies switch
    over the cases and work in a nested container per case. Types,
    expressions and `try` are not represented: each statement records which
    member or parameter it codes, under which key, and whether the IfPresent
    variant of the container call is used. */
module BodyPlans {
  import opened CodableTypes

  datatype Stmt =
    | BindContainer                                   // container = coder.container(keyedBy: CodingKeys.self)
    | Write(member: string, key: string, ifPresent: bool)  // try container.encode[IfPresent](self.member, forKey: .key)
    | Read(member: string, key: string, ifPresent: bool)   // self.member = try container.decode[IfPresent](T.self, forKey: .key)
    | SuperEncode                                     // try super.encode(to: container.superEncoder())
    | SuperInitFromDecoder                            // try super.init(from: container.superDecoder())
    | SuperInit(throws: bool)                         // [try] super.init()
    | SwitchOnSelf(caseArms: seq<EncodeArm>)            // switch self { ... }
    | SwitchOnFirstKey(keyArms: seq<DecodeArm>)         // switch container.allKeys.first { ... }

  /** `case .caseName(let a0, ...)` of the encoder's switch. */
  datatype EncodeArm = EncodeArm(caseName: string, body: seq<PayloadStmt>)

  /** An arm of the decoder's switch: `case .key?` or the default arm. */
  datatype DecodeArm = KeyArm(key: string, body: seq<PayloadStmt>) | DefaultFatalError

  datatype PayloadStmt =
    | BindNestedUnkeyed(key: string)                  // nestedContainer = container.nestedUnkeyedContainer(forKey: .key)
    | BindNestedKeyed(key: string, keysEnum: string)  // nestedContainer = container.nestedContainer(keyedBy: keysEnum.self, forKey: .key)
    | UnkeyedWrite(index: nat)                        // try nestedContainer.encode(a<index>)
    | NestedWrite(param: string, ifPresent: bool)     // try nestedContainer.encode[IfPresent](param, forKey: .param)
    | AssignCase(caseName: string, args: seq<Arg>)    // self = .caseName(args...)

  /** An argument of the case constructor in a decoding arm. */
  datatype Arg =
    | UnkeyedRead(index: nat)                         // try nestedContainer.decode(T.self), in position
    | NestedRead(param: string, ifPresent: bool)      // try nestedContainer.decode[IfPresent](T.self, forKey: .param)
    | DefaultArgument(param: string)                  // the parameter's default argument

  /** The stored property a key codes, and whether its type is optional
      (so that the IfPresent variants are used). */
  datatype VarLookup = VarLookup(member: Member, ifPresent: bool)

  /** lookupVarDeclForCodingKeysCase: the first stored property coded under
      `key` (for a wrapped property, its backing storage). */
  function LookupVarForKey(stored: seq<Member>, key: string): (r: Option<VarLookup>)
    ensures r.Some? ==> CodingName(r.value.member) == key && r.value.ifPresent == r.value.member.isOptional
  {
    if stored == [] then None
    else if CodingName(stored[0]) == key then Some(VarLookup(stored[0], stored[0].isOptional))
    else LookupVarForKey(stored[1..], key)
  }

  /** The lookup fails exactly when no stored property is coded under `key`,
      and otherwise finds the first one that is. */
  lemma {:induction false} LookupVarForKeyMeaning(stored: seq<Member>, key: string)
    ensures LookupVarForKey(stored, key).None? <==> forall i :: 0 <= i < |stored| ==> CodingName(stored[i]) != key
    ensures LookupVarForKey(stored, key).Some? ==>
      exists i :: 0 <= i < |stored| && stored[i] == LookupVarForKey(stored, key).value.member &&
        CodingName(stored[i]) == key && (forall j :: 0 <= j < i ==> CodingName(stored[j]) != key)
  {
    if stored != [] && CodingName(stored[0]) != key {
      var rest := stored[1..];
      LookupVarForKeyMeaning(rest, key);
      assert forall i :: 1 <= i < |stored| ==> stored[i] == rest[i - 1];
      if LookupVarForKey(rest, key).Some? {
        var i :| 0 <= i < |rest| && rest[i] == LookupVarForKey(rest, key).value.member &&
          CodingName(rest[i]) == key && (forall j :: 0 <= j < i ==> CodingName(rest[j]) != key);
        assert stored[i + 1] == rest[i];
        assert forall j :: 0 <= j < i + 1 ==> CodingName(stored[j]) != key by {
          forall j | 0 <= j < i + 1 ensures CodingName(stored[j]) != key {
            if j > 0 { assert stored[j] == rest[j - 1]; }
          }
        }
      }
    }
  }

  /** Every key names a stored property: what the body synthesizers rely on
      once the key enum has been validated or synthesized. */
  predicate KeysResolve(stored: seq<Member>, keys: seq<string>) {
    forall i :: 0 <= i < |keys| ==> LookupVarForKey(stored, keys[i]).Some?
  }

  /** The cases of the type's CodingKeys enum, when there is one. */
  function CodingKeysCases(decls: seq<NamedDecl>): seq<string>
    requires LookupEvaluated(decls, CodingKeysName).Some?
  {
    LookupEvaluated(decls, CodingKeysName).value.cases
  }
}
