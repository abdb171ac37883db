/** The entry points of the derivation: canSynthesize, which checks the
    superclass initializer a Decodable class must delegate to and then
    classifies (and if need be synthesizes) the coding keys, and
    deriveEncodable / deriveDecodable, which return the witness
    declaration or, on failure, make sure an error is reported. */
module Derivation {
  import opened CodableTypes
  import opened KeyValidation
  import opened Classification
  import opened KeySynthesis
  import opened BodyPlans
  import EncodeBodies
  import DecodeBodies

  // ---- The superclass initializer ----

  /** A Decodable class with a superclass delegates to an initializer of it. */
  predicate DelegatesToSuper(t: Nominal, proto: Protocol) {
    proto == Decodable && t.kind == Class && t.superclass.Some?
  }

  /** init(from:) when the superclass is Decodable, otherwise init(). */
  function SuperInitName(sc: Superclass): InitName {
    if sc.decodable then InitFromDecoder else PlainInit
  }

  /** The results of looking that initializer up on the superclass. */
  function SuperInitLookup(sc: Superclass): seq<Initializer> {
    if sc.decodable then sc.initFromDecoder else sc.plainInit
  }

  /** The lookup finds exactly one initializer, and it can be called from a
      non-failable init(from:). */
  predicate UsableSuperInit(sc: Superclass) {
    var found := SuperInitLookup(sc);
    |found| == 1 && found[0].designated && found[0].accessible && !found[0].failable
  }

  datatype SuperInitCheck = SuperInitUsable | SuperInitRejected(diags: seq<Diag>)

  /** The first half of canSynthesize. An ambiguous lookup is rejected
      without a diagnostic; otherwise a rejection names the initializer, and
      the reasons are checked in the order designated, accessible, not
      failable. */
  function CheckSuperInit(t: Nominal, proto: Protocol): (r: SuperInitCheck)
    ensures r.SuperInitUsable? <==> !DelegatesToSuper(t, proto) || UsableSuperInit(t.superclass.value)
    ensures r.SuperInitRejected? ==> |r.diags| <= 1 && (r.diags == [] <==> |SuperInitLookup(t.superclass.value)| > 1)
    ensures r.SuperInitRejected? ==>
      var n := SuperInitName(t.superclass.value);
      var found := SuperInitLookup(t.superclass.value);
      && (r.diags == [NoSuperInit(n)] <==> found == [])
      && (r.diags == [SuperInitNotDesignated(n)] <==> |found| == 1 && !found[0].designated)
      && (r.diags == [SuperInitInaccessible(n)] <==> |found| == 1 && found[0].designated && !found[0].accessible)
      && (r.diags == [SuperInitFailable(n)] <==> |found| == 1 && found[0].designated && found[0].accessible && found[0].failable)
  {
    if DelegatesToSuper(t, proto) then
      var sc := t.superclass.value;
      var n := SuperInitName(sc);
      var found := SuperInitLookup(sc);
      if found == [] then SuperInitRejected([NoSuperInit(n)])
      else if |found| > 1 then SuperInitRejected([])
      else if !found[0].designated then SuperInitRejected([SuperInitNotDesignated(n)])
      else if !found[0].accessible then SuperInitRejected([SuperInitInaccessible(n)])
      else if found[0].failable then SuperInitRejected([SuperInitFailable(n)])
      else SuperInitUsable
    else SuperInitUsable
  }

  // ---- canSynthesize ----

  /** canSynthesize, as a function of the type and its member declarations. */
  function CanSynthesizeSpec(t: Nominal, decls: seq<NamedDecl>, proto: Protocol): SynthResult {
    match CheckSuperInit(t, proto)
    case SuperInitRejected(diags) => SynthResult(false, decls, diags)
    case SuperInitUsable =>
      var c := Classify(t, decls, proto);
      match c.result
      case Invalid => SynthResult(false, decls, c.diags)
      case NeedsSynthesizedCodingKeys => SynthesizeSpec(t, decls, proto)
      case Valid => SynthResult(true, decls, [])
  }

  predicate AmbiguousSuperInit(t: Nominal, proto: Protocol) {
    DelegatesToSuper(t, proto) && |SuperInitLookup(t.superclass.value)| > 1
  }

  predicate CodedSuperclass(t: Nominal) {
    SuperclassConformsTo(t, Encodable) || SuperclassConformsTo(t, Decodable)
  }

  /** Every key names a stored property when each is some property's coding name. */
  lemma KeysNamingMembersResolve(stored: seq<Member>, keys: seq<string>)
    requires forall i :: 0 <= i < |keys| ==> exists j :: 0 <= j < |stored| && CodingName(stored[j]) == keys[i]
    ensures KeysResolve(stored, keys)
  {
    forall i | 0 <= i < |keys| ensures LookupVarForKey(stored, keys[i]).Some? {
      LookupVarForKeyMeaning(stored, keys[i]);
      var j :| 0 <= j < |stored| && CodingName(stored[j]) == keys[i];
    }
  }

  /** canSynthesize only adds declarations, and fails silently only on an
      ambiguous superclass initializer. */
  lemma CanSynthesizeOutcome(t: Nominal, decls: seq<NamedDecl>, proto: Protocol)
    requires DistinctCaseNames(t.cases)
    ensures |decls| <= |CanSynthesizeSpec(t, decls, proto).decls|
    ensures CanSynthesizeSpec(t, decls, proto).decls[..|decls|] == decls
    ensures CanSynthesizeSpec(t, decls, proto).ok ==> CanSynthesizeSpec(t, decls, proto).diags == []
    ensures (!CanSynthesizeSpec(t, decls, proto).ok && CanSynthesizeSpec(t, decls, proto).diags == []) <==>
      AmbiguousSuperInit(t, proto)
    ensures CanSynthesizeSpec(t, decls, proto).ok ==> CheckSuperInit(t, proto).SuperInitUsable?
  {
    if CheckSuperInit(t, proto).SuperInitUsable? {
      var c := Classify(t, decls, proto);
      ClassifyMeaning(t, decls, proto);
      if c.result == NeedsSynthesizedCodingKeys {
        if t.kind == Enum {
          EnumSynthesisDecls(t, decls, proto);
          EnumSynthesis(t, decls, proto);
        } else {
          StructSynthesisOutcome(t, decls, proto);
        }
      }
    }
  }

  /** When canSynthesize succeeds the type has a CodingKeys enum that the
      body synthesizers find. */
  lemma CanSynthesizeProvidesKeys(t: Nominal, decls: seq<NamedDecl>, proto: Protocol)
    requires DistinctCaseNames(t.cases)
    requires CanSynthesizeSpec(t, decls, proto).ok
    ensures LookupEvaluated(CanSynthesizeSpec(t, decls, proto).decls, CodingKeysName).Some?
  {
    CanSynthesizeOutcome(t, decls, proto);
    ClassifyMeaning(t, decls, proto);
    var r := CanSynthesizeSpec(t, decls, proto);
    var c := Classify(t, decls, proto);
    if c.result == NeedsSynthesizedCodingKeys {
      if t.kind == Enum {
        EnumSynthesisDecls(t, decls, proto);
        if LookupDirect(decls, CodingKeysName).Some? {
          assert r.decls == decls + r.decls[|decls|..];
          LookupDirectAppend(decls, r.decls[|decls|..], CodingKeysName);
        } else {
          EnumSynthesisAddsKeys(t, decls, proto);
        }
      } else {
        StructSynthesisKeys(t, decls, proto);
      }
    }
  }

  /** For a struct or class, every key of the CodingKeys found after a
      successful canSynthesize names a stored property, so the encode and
      decode bodies can be built; the one exception is the `super` key added
      to a synthesized CodingKeys of a class with a coded superclass. */
  lemma CanSynthesizeKeysResolve(t: Nominal, decls: seq<NamedDecl>, proto: Protocol)
    requires DistinctCaseNames(t.cases)
    requires CanSynthesizeSpec(t, decls, proto).ok && t.kind != Enum
    requires LookupDirect(decls, CodingKeysName).Some? || !CodedSuperclass(t)
    ensures LookupEvaluated(CanSynthesizeSpec(t, decls, proto).decls, CodingKeysName).Some?
    ensures KeysResolve(t.stored, CodingKeysCases(CanSynthesizeSpec(t, decls, proto).decls))
  {
    CanSynthesizeProvidesKeys(t, decls, proto);
    var r := CanSynthesizeSpec(t, decls, proto);
    var keys := CodingKeysCases(r.decls);
    var c := Classify(t, decls, proto);
    if c.result == Valid {
      var d := LookupDirect(decls, CodingKeysName).value;
      assert KeysMatch(d.cases, t.stored, proto, StoredProperties) by {
        ClassifyMeaning(t, decls, proto);
      }
      assert keys == d.cases;
      var inv := Inventory(t.stored);
      assert forall n :: n in inv ==> inv[n] in t.stored && CodingName(inv[n]) == n by {
        InventoryFacts(t.stored);
      }
      forall i | 0 <= i < |keys|
        ensures exists j :: 0 <= j < |t.stored| && CodingName(t.stored[j]) == keys[i]
      {
        var j :| 0 <= j < |t.stored| && t.stored[j] == inv[keys[i]];
      }
    } else {
      assert c.result == NeedsSynthesizedCodingKeys && LookupDirect(decls, CodingKeysName).None? by {
        ClassifyMeaning(t, decls, proto);
      }
      StructSynthesisKeys(t, decls, proto);
      assert keys == ConformingCodingNames(t.stored, proto);
      forall i | 0 <= i < |keys|
        ensures exists j :: 0 <= j < |t.stored| && CodingName(t.stored[j]) == keys[i]
      {
        assert keys[i] in keys;
        ConformingCodingNamesFacts(t.stored, proto);
      }
    }
    KeysNamingMembersResolve(t.stored, keys);
  }

  /** A case's payload parameters as Swift declares them: an unnamed
      payload, or named parameters that are accessible, are not
      property-wrapper storage, and have distinct names. */
  predicate PlainPayload(c: EnumCase) {
    || HasAnyUnnamedParameters(c)
    || ((forall j :: 0 <= j < |Payload(c)| ==> Payload(c)[j].userAccessible && Payload(c)[j].wrappedOriginal.None?)
      && DistinctCodingNames(Payload(c)))
  }

  predicate PlainPayloads(t: Nominal) {
    forall i :: 0 <= i < |t.cases| ==> PlainPayload(t.cases[i])
  }

  /** A case whose key enum validates has what both body builders need: the
      key enum is found, and each named parameter without a key has a
      default argument when Decodable is derived. */
  lemma CaseKeysReady(c: EnumCase, decls: seq<NamedDecl>, proto: Protocol)
    requires PlainPayload(c)
    requires HasAnyUnnamedParameters(c) || (!CaseKeysBroken(c, decls, proto) && !CaseKeysMissing(c, decls))
    ensures EncodeBodies.ArmReady(c, decls)
    ensures proto == Decodable ==> DecodeBodies.DecodeArmReady(c, decls)
  {
    if !HasAnyUnnamedParameters(c) {
      var nested := NestedKeysName(c.name);
      var d := LookupDirect(decls, nested).value;
      assert CheckKeyEnum(d, nested).KeyEnum?;
      assert LookupEvaluated(decls, nested) == Some(d);
      if proto == Decodable && c.hasAssociatedValues {
        var ps := Payload(c);
        var inv := Inventory(ps);
        assert KeysMatch(d.cases, ps, proto, CasePayload);
        InventoryFacts(ps);
        forall i | 0 <= i < |ps| && ps[i].name !in d.cases
          ensures ps[i].hasDefaultExpr
        {
          var n := CodingName(ps[i]);
          assert n in inv;
          var j :| 0 <= j < |ps| && ps[j] == inv[n];
          assert j == i;
          assert MayBeLeftOut(inv[n], CasePayload);
        }
      }
    }
  }

  /** When the key enums are valid as declared, nothing is synthesized and
      every case is ready for both builders. */
  lemma ValidEnumReady(t: Nominal, decls: seq<NamedDecl>, proto: Protocol)
    requires PlainPayloads(t)
    requires t.kind == Enum && Classify(t, decls, proto).result == Valid
    ensures forall i :: 0 <= i < |t.cases| ==>
      EncodeBodies.ArmReady(t.cases[i], decls) && (proto == Decodable ==> DecodeBodies.DecodeArmReady(t.cases[i], decls))
  {
    forall i | 0 <= i < |t.cases|
      ensures EncodeBodies.ArmReady(t.cases[i], decls)
      ensures proto == Decodable ==> DecodeBodies.DecodeArmReady(t.cases[i], decls)
    {
      assert !CaseKeysBroken(t.cases[i], decls, proto) && !CaseKeysMissing(t.cases[i], decls) by {
        ClassifyMeaning(t, decls, proto);
      }
      CaseKeysReady(t.cases[i], decls, proto);
    }
  }

  /** When key enums are synthesized successfully, every case with a key in
      the resulting CodingKeys is ready for both builders: a case that had a
      key enum kept it, and validated, and the others got one that validates. */
  lemma SynthesizedEnumReady(t: Nominal, decls: seq<NamedDecl>, proto: Protocol)
    requires DistinctCaseNames(t.cases) && PlainPayloads(t)
    requires t.kind == Enum && Classify(t, decls, proto).result == NeedsSynthesizedCodingKeys
    requires SynthesizeEnumSpec(t, decls, proto).ok
    ensures LookupEvaluated(SynthesizeEnumSpec(t, decls, proto).decls, CodingKeysName).Some?
    ensures var r := SynthesizeEnumSpec(t, decls, proto).decls;
      forall i :: 0 <= i < |t.cases| && t.cases[i].name in CodingKeysCases(r) ==>
        EncodeBodies.ArmReady(t.cases[i], r) && (proto == Decodable ==> DecodeBodies.DecodeArmReady(t.cases[i], r))
  {
    var r := SynthesizeEnumSpec(t, decls, proto).decls;
    EnumSynthesisDecls(t, decls, proto);
    var more := r[|decls|..];
    assert r == decls + more;
    assert LookupEvaluated(r, CodingKeysName).Some? && CodingKeysCases(r) == TopKeys(t, decls) by {
      if LookupDirect(decls, CodingKeysName).None? {
        EnumSynthesisAddsKeys(t, decls, proto);
      } else {
        assert LookupEvaluated(decls, CodingKeysName).Some? by {
          ClassifyMeaning(t, decls, proto);
        }
        LookupDirectAppend(decls, more, CodingKeysName);
      }
    }
    forall i | 0 <= i < |t.cases| && t.cases[i].name in CodingKeysCases(r)
      ensures EncodeBodies.ArmReady(t.cases[i], r)
      ensures proto == Decodable ==> DecodeBodies.DecodeArmReady(t.cases[i], r)
    {
      var c := t.cases[i];
      var n := NestedKeysName(c.name);
      if !HasAnyUnnamedParameters(c) {
        if LookupDirect(decls, n).Some? {
          LookupDirectAppend(decls, more, n);
          assert !CaseKeysBroken(c, decls, proto) by {
            ClassifyMeaning(t, decls, proto);
          }
        } else {
          SynthesizedCaseKeysValidate(t, decls, proto, i);
        }
      }
      CaseKeysReady(c, r, proto);
    }
  }

  /** For an enum whose named payloads are plain, a successful canSynthesize
      leaves everything the encode builder needs: CodingKeys, and a key enum
      for every case with a key and a named payload. For Decodable the same
      holds for the decode builder, and every named parameter without a key
      has a default argument. */
  lemma CanSynthesizeEnumReady(t: Nominal, decls: seq<NamedDecl>, proto: Protocol)
    requires DistinctCaseNames(t.cases) && PlainPayloads(t)
    requires t.kind == Enum && CanSynthesizeSpec(t, decls, proto).ok
    ensures EncodeBodies.EnumEncodeReady(t, CanSynthesizeSpec(t, decls, proto).decls)
    ensures proto == Decodable ==> DecodeBodies.EnumDecodeReady(t, CanSynthesizeSpec(t, decls, proto).decls)
  {
    CanSynthesizeProvidesKeys(t, decls, proto);
    var cl := Classify(t, decls, proto);
    assert CheckSuperInit(t, proto).SuperInitUsable? && cl.result != Invalid by {
      CanSynthesizeOutcome(t, decls, proto);
    }
    if cl.result == Valid {
      ValidEnumReady(t, decls, proto);
    } else {
      SynthesizedEnumReady(t, decls, proto);
    }
  }

  /** canSynthesize. */
  method CanSynthesize(target: TargetType, proto: Protocol) returns (ok: bool, diags: seq<Diag>)
    modifies target
    ensures SynthResult(ok, target.decls, diags) == CanSynthesizeSpec(target.nominal, old(target.decls), proto)
  {
    var t := target.nominal;
    if proto == Decodable && t.kind == Class && t.superclass.Some? {
      var sc := t.superclass.value;
      var memberName := if sc.decodable then InitFromDecoder else PlainInit;
      var result := if sc.decodable then sc.initFromDecoder else sc.plainInit;
      if |result| == 0 {
        return false, [NoSuperInit(memberName)];
      } else if |result| > 1 {
        return false, [];
      }
      var initializer := result[0];
      if !initializer.designated {
        return false, [SuperInitNotDesignated(memberName)];
      } else if !initializer.accessible {
        return false, [SuperInitInaccessible(memberName)];
      } else if initializer.failable {
        return false, [SuperInitFailable(memberName)];
      }
    }

    var classification, classifyDiags := ClassifyCodingKeys(t, target.decls, proto);
    match classification
    case Invalid =>
      return false, classifyDiags;
    case NeedsSynthesizedCodingKeys =>
      ok, diags := target.SynthesizeCodingKeys(proto);
    case Valid =>
      return true, [];
  }

  // ---- deriveEncodable and deriveDecodable ----

  /** The declaration returned as the witness: encode(to:) or init(from:),
      which body synthesizer it carries, and its implicit attribute. */
  datatype Witness =
    | EncodeFunc(enumBody: bool, isOverride: bool)
    | DecodeInit(enumBody: bool, isRequired: bool)

  /** deriveEncodable_encode / deriveDecodable_init: encode(to:) overrides
      when the superclass is Encodable; init(from:) is `required` in a class
      that is not final. */
  function WitnessFor(t: Nominal, proto: Protocol, finalClass: bool): Witness {
    if proto == Encodable then EncodeFunc(t.kind == Enum, SuperclassConformsTo(t, Encodable))
    else DecodeInit(t.kind == Enum, t.kind == Class && !finalClass)
  }

  datatype Derived = Derived(result: Option<Witness>, decls: seq<NamedDecl>, diags: seq<Diag>)

  /** deriveEncodable / deriveDecodable, as a function of the type. The two
      diagnostics issued before canSynthesize belong to a transaction that
      is discarded on success, so they are kept only on failure, before the
      diagnostics canSynthesize issued. `finalClass` says whether a class
      is declared final; it matters only for init(from:). */
  function DeriveSpec(t: Nominal, decls: seq<NamedDecl>, proto: Protocol,
                      baseNameMatches: bool, disallowedContext: bool, finalClass: bool): Derived
  {
    if t.kind == OtherNominal then Derived(None, decls, [])
    else if !baseNameMatches then Derived(None, decls, [BrokenRequirement(proto)])
    else if disallowedContext then Derived(None, decls, [])
    else
      var c := CanSynthesizeSpec(t, decls, proto);
      if c.ok then Derived(Some(WitnessFor(t, proto, finalClass)), c.decls, [])
      else Derived(None, c.decls, [TypeDoesNotConform(proto), NoWitness(proto)] + c.diags)
  }

  /** A witness is returned exactly when canSynthesize succeeds for a
      struct, class or enum with the expected requirement; then nothing is
      reported, CodingKeys is in place, the body synthesizer matches the
      kind of type, and a Decodable class can delegate to its superclass.
      Every other attempt past the preliminary checks reports that the type
      does not conform, so compilation stops. */
  lemma DeriveMeaning(t: Nominal, decls: seq<NamedDecl>, proto: Protocol,
                      baseNameMatches: bool, disallowedContext: bool, finalClass: bool)
    requires DistinctCaseNames(t.cases)
    ensures var r := DeriveSpec(t, decls, proto, baseNameMatches, disallowedContext, finalClass);
      && (r.result.Some? <==>
        t.kind != OtherNominal && baseNameMatches && !disallowedContext && CanSynthesizeSpec(t, decls, proto).ok)
      && (r.result.Some? ==>
        && r.diags == []
        && LookupEvaluated(r.decls, CodingKeysName).Some?
        && r.result.value.enumBody == (t.kind == Enum)
        && (proto == Decodable ==> DecodeBodies.SuperInitReady(t)))
      && (r.result.None? && t.kind != OtherNominal && baseNameMatches && !disallowedContext ==>
        |r.diags| >= 2 && r.diags[0] == TypeDoesNotConform(proto) && r.diags[1] == NoWitness(proto))
      && |decls| <= |r.decls| && r.decls[..|decls|] == decls
  {
    CanSynthesizeOutcome(t, decls, proto);
    if t.kind != OtherNominal && baseNameMatches && !disallowedContext && CanSynthesizeSpec(t, decls, proto).ok {
      CanSynthesizeProvidesKeys(t, decls, proto);
    }
  }

  /** deriveEncodable; the kind of requirement and the disallowed context
      are decided by the caller. */
  method DeriveEncodable(target: TargetType, baseNameMatches: bool, disallowedContext: bool)
    returns (result: Option<Witness>, diags: seq<Diag>)
    modifies target
    ensures Derived(result, target.decls, diags) ==
      DeriveSpec(target.nominal, old(target.decls), Encodable, baseNameMatches, disallowedContext, false)
  {
    var t := target.nominal;
    if t.kind == OtherNominal {
      return None, [];
    }
    if !baseNameMatches {
      return None, [BrokenRequirement(Encodable)];
    }
    if disallowedContext {
      return None, [];
    }
    var pending := [TypeDoesNotConform(Encodable), NoWitness(Encodable)];
    var ok, canDiags := CanSynthesize(target, Encodable);
    if ok {
      // The transaction is aborted: the pending diagnostics are dropped.
      return Some(EncodeFunc(t.kind == Enum, SuperclassConformsTo(t, Encodable))), [];
    }
    return None, pending + canDiags;
  }

  /** deriveDecodable. */
  method DeriveDecodable(target: TargetType, baseNameMatches: bool, disallowedContext: bool, finalClass: bool)
    returns (result: Option<Witness>, diags: seq<Diag>)
    modifies target
    ensures Derived(result, target.decls, diags) ==
      DeriveSpec(target.nominal, old(target.decls), Decodable, baseNameMatches, disallowedContext, finalClass)
  {
    var t := target.nominal;
    if t.kind == OtherNominal {
      return None, [];
    }
    if !baseNameMatches {
      return None, [BrokenRequirement(Decodable)];
    }
    if disallowedContext {
      return None, [];
    }
    var pending := [TypeDoesNotConform(Decodable), NoWitness(Decodable)];
    var ok, canDiags := CanSynthesize(target, Decodable);
    if ok {
      return Some(DecodeInit(t.kind == Enum, t.kind == Class && !finalClass)), [];
    }
    return None, pending + canDiags;
  }
}
