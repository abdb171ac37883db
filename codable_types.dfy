/** The entities that derived Codable conformance works on: the target type,
    its stored properties and enum cases, the declarations that a direct
    name lookup on the type can find, and the diagnostics the derivation
    reports. Answers of the type checker (does this type conform to that
    protocol, is this declaration an enum) are recorded as fields. */
module CodableTypes {

  datatype Option<+T> = None | Some(value: T)

  /** The protocol whose requirement is being derived. */
  datatype Protocol = Encodable | Decodable

  /** A stored property of a struct or class, or a payload parameter of an
      enum case. */
  datatype Member = Member(
    name: string,                     // declared name; "" for an unnamed payload parameter
    wrappedOriginal: Option<string>,  // for property-wrapper backing storage: the wrapped property's name
    userAccessible: bool,             // false for lazy storage and other compiler-made storage
    encodable: bool,                  // the member's type conforms to Encodable
    decodable: bool,                  // the member's type conforms to Decodable
    defaultInitializable: bool,       // its pattern binding is default-initializable
    parentInitialized: bool,          // its declaration gives it an initial value
    hasDefaultExpr: bool,             // (payload parameter) it has a default argument
    isOptional: bool,                 // its type is Optional<T>
    isLet: bool)

  predicate ConformsTo(m: Member, proto: Protocol) {
    if proto == Encodable then m.encodable else m.decodable
  }

  /** The identifier a member is encoded under: a property-wrapper backing
      store is coded under the name of the property it wraps. */
  function CodingName(m: Member): string {
    match m.wrappedOriginal
    case Some(original) => original
    case None => m.name
  }

  datatype Kind = Struct | Class | Enum | OtherNominal

  /** An enum case. `params` is its payload parameter list, which exists only
      when the case has associated values. */
  datatype EnumCase = EnumCase(name: string, hasAssociatedValues: bool, params: seq<Member>)

  function Payload(c: EnumCase): seq<Member> {
    if c.hasAssociatedValues then c.params else []
  }

  predicate HasAnyUnnamedParameters(c: EnumCase) {
    exists i :: 0 <= i < |Payload(c)| && Payload(c)[i].name == ""
  }

  /** A superclass initializer as found by member lookup. */
  datatype Initializer = Initializer(designated: bool, accessible: bool, failable: bool, throws: bool)

  /** What the type checker knows about the superclass of a class. */
  datatype Superclass = Superclass(
    encodable: bool,                   // the superclass conforms to Encodable
    decodable: bool,                   // the superclass conforms to Decodable
    initFromDecoder: seq<Initializer>, // the results of looking up init(from:)
    plainInit: seq<Initializer>)       // the results of looking up init()

  /** The nominal type whose conformance is derived. */
  datatype Nominal = Nominal(
    kind: Kind,
    stored: seq<Member>,          // stored properties, in declaration order
    cases: seq<EnumCase>,         // enum cases, in declaration order
    superclass: Option<Superclass>,
    conformsToEncodable: bool)    // the type itself conforms to Encodable

  /** Whether the target is a class whose superclass conforms to `proto`. */
  predicate SuperclassConformsTo(t: Nominal, proto: Protocol) {
    && t.kind == Class
    && t.superclass.Some?
    && (if proto == Encodable then t.superclass.value.encodable else t.superclass.value.decodable)
  }

  /** A member of the target type found by name: `isTypeDecl` and `isEnum`
      describe the declaration after looking through a typealias;
      `conformsToCodingKey` is the conformance of the declared type. */
  datatype KeyDecl = KeyDecl(
    isTypeDecl: bool,
    conformsToCodingKey: bool,
    isEnum: bool,
    cases: seq<string>,
    implicit: bool)

  datatype NamedDecl = NamedDecl(name: string, decl: KeyDecl)

  const CodingKeysName: string := "CodingKeys"
  const SuperKey: string := "super"

  /** A key enum made by the compiler: an implicit enum conforming to CodingKey. */
  function SynthesizedKeyEnum(cases: seq<string>): KeyDecl {
    KeyDecl(true, true, true, cases, true)
  }

  /** Joins two identifiers with an underscore. */
  function CombineIdentifiers(first: string, second: string): (r: string)
    ensures |r| == |first| + 1 + |second|
    ensures r[..|first|] == first && r[|first|] == '_' && r[|first| + 1..] == second
  {
    first + "_" + second
  }

  /** The name of the key enum of enum case `caseName`. */
  function NestedKeysName(caseName: string): string {
    CombineIdentifiers(CodingKeysName, caseName)
  }

  /** Distinct cases get distinct key-enum names, and none of them collides
      with the top-level key enum. */
  lemma NestedKeysNameInjective(a: string, b: string)
    ensures NestedKeysName(a) == NestedKeysName(b) <==> a == b
    ensures NestedKeysName(a) != CodingKeysName
  {
  }

  /** Direct lookup by name: the first declaration with that name. */
  function LookupDirect(decls: seq<NamedDecl>, name: string): (r: Option<KeyDecl>)
    ensures r.Some? ==> NamedDecl(name, r.value) in decls
  {
    if decls == [] then None
    else if decls[0].name == name then Some(decls[0].decl)
    else
      var r := LookupDirect(decls[1..], name);
      assert r.Some? ==> NamedDecl(name, r.value) in decls[1..];
      r
  }

  /** The lookup fails exactly when no declaration has the name. */
  lemma {:induction false} LookupDirectMeaning(decls: seq<NamedDecl>, name: string)
    ensures LookupDirect(decls, name).None? <==> forall i :: 0 <= i < |decls| ==> decls[i].name != name
  {
    if decls != [] && decls[0].name != name {
      LookupDirectMeaning(decls[1..], name);
      assert forall i :: 1 <= i < |decls| ==> decls[i] == decls[1..][i - 1];
    }
  }

  /** Lookup after appending declarations: a name already declared keeps its
      first declaration. */
  lemma {:induction false} LookupDirectAppend(decls: seq<NamedDecl>, more: seq<NamedDecl>, name: string)
    ensures LookupDirect(decls, name).Some? ==> LookupDirect(decls + more, name) == LookupDirect(decls, name)
    ensures LookupDirect(decls, name).None? ==> LookupDirect(decls + more, name) == LookupDirect(more, name)
  {
    if decls == [] {
      assert decls + more == more;
    } else {
      assert (decls + more)[1..] == decls[1..] + more;
      LookupDirectAppend(decls[1..], more, name);
    }
  }

  /** The declaration found by name, if it is (an alias of) an enum. */
  function LookupEvaluated(decls: seq<NamedDecl>, name: string): Option<KeyDecl> {
    match LookupDirect(decls, name)
    case Some(d) => if d.isTypeDecl && d.isEnum then Some(d) else None
    case None => None
  }

  /** The diagnostics of the derivation, with the declaration each is attached to. */
  datatype Diag =
    | ExtraneousCodingKey(key: string)
    | NonConformingProperty(member: string)
    | NonDecodedProperty(key: string)
    | CodingKeysNotAnEnum(declName: string)
    | CodingKeysDoNotConform(declName: string)
    | NoSuperInit(initName: InitName)
    | SuperInitNotDesignated(initName: InitName)
    | SuperInitInaccessible(initName: InitName)
    | SuperInitFailable(initName: InitName)
    | PropertyWillNotBeDecoded(member: string)
    | InitOrCodingKeysImplicit(member: string, typeIsEncodable: bool)
    | InitOrCodingKeysExplicit(member: string)
    | BrokenRequirement(proto: Protocol)
    | TypeDoesNotConform(proto: Protocol)
    | NoWitness(proto: Protocol)

  /** The superclass initializer a synthesized init(from:) delegates to. */
  datatype InitName = InitFromDecoder | PlainInit
}
