/** The three-way decision made before anything is synthesized: the type's
    coding-key enums are either present and valid, partly or wholly missing
    (so the compiler must synthesize them), or present and broken (reported,
    and then nothing is synthesized). */
module Classification {
  import opened CodableTypes
  import opened KeyValidation

  datatype Classification = Invalid | NeedsSynthesizedCodingKeys | Valid

  /** Either the cases of a usable key enum or the diagnostic rejecting it. */
  datatype KeyEnumCheck = KeyEnum(cases: seq<string>) | Rejected(diag: Diag)

  /** Checks that the declaration found under `name` is (an alias of) an enum
      conforming to CodingKey; a non-type is reported as not an enum before
      conformance is asked, a non-enum after it. */
  function CheckKeyEnum(d: KeyDecl, name: string): (r: KeyEnumCheck)
    ensures r.KeyEnum? <==> d.isTypeDecl && d.conformsToCodingKey && d.isEnum
    ensures r.KeyEnum? ==> r.cases == d.cases
    ensures r.Rejected? ==>
      (r.diag == CodingKeysDoNotConform(name) <==> d.isTypeDecl && !d.conformsToCodingKey) &&
      (r.diag == CodingKeysNotAnEnum(name) <==> !d.isTypeDecl || (d.conformsToCodingKey && !d.isEnum))
  {
    if !d.isTypeDecl then Rejected(CodingKeysNotAnEnum(name))
    else if !d.conformsToCodingKey then Rejected(CodingKeysDoNotConform(name))
    else if !d.isEnum then Rejected(CodingKeysNotAnEnum(name))
    else KeyEnum(d.cases)
  }

  datatype Outcome = Outcome(result: Classification, diags: seq<Diag>)

  /** The per-case scan of an enum: a missing CodingKeys_<case> asks for
      synthesis, a present one must be a valid key enum for the payload,
      and the first broken one ends the scan. */
  function ClassifyCases(cases: seq<EnumCase>, decls: seq<NamedDecl>, proto: Protocol, needs: bool): Outcome
    decreases |cases|
  {
    if cases == [] then Outcome(if needs then NeedsSynthesizedCodingKeys else Valid, [])
    else
      var c := cases[0];
      var nested := NestedKeysName(c.name);
      match LookupDirect(decls, nested)
      case None => ClassifyCases(cases[1..], decls, proto, true)
      case Some(d) =>
        match CheckKeyEnum(d, nested)
        case Rejected(diag) => Outcome(Invalid, [diag])
        case KeyEnum(keys) =>
          var v := Validation(keys, Payload(c), proto, CasePayload);
          if !v.valid then Outcome(Invalid, v.diags)
          else ClassifyCases(cases[1..], decls, proto, needs)
  }

  /** classifyCodingKeys, as a function of the type and its member declarations. */
  function Classify(t: Nominal, decls: seq<NamedDecl>, proto: Protocol): Outcome {
    match LookupDirect(decls, CodingKeysName)
    case None =>
      if t.kind == Enum then ClassifyCases(t.cases, decls, proto, true)
      else Outcome(NeedsSynthesizedCodingKeys, [])
    case Some(d) =>
      match CheckKeyEnum(d, CodingKeysName)
      case Rejected(diag) => Outcome(Invalid, [diag])
      case KeyEnum(keys) =>
        if t.kind == Enum then ClassifyCases(t.cases, decls, proto, false)
        else
          var v := Validation(keys, t.stored, proto, StoredProperties);
          Outcome(if v.valid then Valid else Invalid, v.diags)
  }

  /** The case has its own key enum, and that enum is unusable or does not
      match the case's payload. */
  predicate CaseKeysBroken(c: EnumCase, decls: seq<NamedDecl>, proto: Protocol) {
    var nested := NestedKeysName(c.name);
    match LookupDirect(decls, nested)
    case None => false
    case Some(d) =>
      match CheckKeyEnum(d, nested)
      case Rejected(_) => true
      case KeyEnum(keys) => !KeysMatch(keys, Payload(c), proto, CasePayload)
  }

  predicate CaseKeysMissing(c: EnumCase, decls: seq<NamedDecl>) {
    LookupDirect(decls, NestedKeysName(c.name)).None?
  }

  /** The per-case scan is Invalid exactly when some case's key enum is
      broken, and then it says why; otherwise it asks for synthesis exactly
      when some case's key enum (or, through `needs`, the top one) is missing. */
  lemma {:induction false} ClassifyCasesMeaning(cases: seq<EnumCase>, decls: seq<NamedDecl>, proto: Protocol, needs: bool)
    ensures ClassifyCases(cases, decls, proto, needs).result == Invalid <==>
      exists i :: 0 <= i < |cases| && CaseKeysBroken(cases[i], decls, proto)
    ensures ClassifyCases(cases, decls, proto, needs).result == NeedsSynthesizedCodingKeys <==>
      (forall i :: 0 <= i < |cases| ==> !CaseKeysBroken(cases[i], decls, proto)) &&
      (needs || exists i :: 0 <= i < |cases| && CaseKeysMissing(cases[i], decls))
    ensures ClassifyCases(cases, decls, proto, needs).result == Invalid <==>
      ClassifyCases(cases, decls, proto, needs).diags != []
    decreases |cases|
  {
    if cases != [] {
      var c := cases[0];
      var rest := cases[1..];
      assert forall i :: 1 <= i < |cases| ==> cases[i] == rest[i - 1];
      var nested := NestedKeysName(c.name);
      match LookupDirect(decls, nested)
      case None =>
        ClassifyCasesMeaning(rest, decls, proto, true);
        assert CaseKeysMissing(cases[0], decls);
      case Some(d) =>
        match CheckKeyEnum(d, nested)
        case Rejected(diag) =>
          assert CaseKeysBroken(cases[0], decls, proto);
        case KeyEnum(keys) =>
          var v := Validation(keys, Payload(c), proto, CasePayload);
          assert (v.valid <==> KeysMatch(keys, Payload(c), proto, CasePayload)) && (v.valid <==> v.diags == []) by {
            ValidationMeaning(keys, Payload(c), proto, CasePayload);
          }
          if v.valid {
            ClassifyCasesMeaning(rest, decls, proto, needs);
            assert !CaseKeysBroken(cases[0], decls, proto);
            assert !CaseKeysMissing(cases[0], decls);
          } else {
            assert CaseKeysBroken(cases[0], decls, proto);
          }
    }
  }

  /** For a struct or class: Valid exactly when CodingKeys is a CodingKey enum
      whose cases match the stored properties; synthesis exactly when there
      is no CodingKeys at all. For an enum: a CodingKeys that is present must
      be a CodingKey enum, and then the per-case rules decide. Invalid is
      always explained by a diagnostic, and the other verdicts report none. */
  lemma ClassifyMeaning(t: Nominal, decls: seq<NamedDecl>, proto: Protocol)
    ensures Classify(t, decls, proto).result == Invalid <==> Classify(t, decls, proto).diags != []
    ensures t.kind != Enum ==>
      (Classify(t, decls, proto).result == NeedsSynthesizedCodingKeys <==> LookupDirect(decls, CodingKeysName).None?)
    ensures t.kind != Enum ==>
      (Classify(t, decls, proto).result == Valid <==>
        exists d :: LookupDirect(decls, CodingKeysName) == Some(d) &&
          d.isTypeDecl && d.conformsToCodingKey && d.isEnum &&
          KeysMatch(d.cases, t.stored, proto, StoredProperties))
    ensures t.kind == Enum ==>
      (Classify(t, decls, proto).result == Invalid <==>
        (exists d :: LookupDirect(decls, CodingKeysName) == Some(d) &&
          !(d.isTypeDecl && d.conformsToCodingKey && d.isEnum)) ||
        exists i :: 0 <= i < |t.cases| && CaseKeysBroken(t.cases[i], decls, proto))
    ensures t.kind == Enum ==>
      (Classify(t, decls, proto).result == Valid <==>
        (exists d :: LookupDirect(decls, CodingKeysName) == Some(d) &&
          d.isTypeDecl && d.conformsToCodingKey && d.isEnum) &&
        forall i :: 0 <= i < |t.cases| ==>
          !CaseKeysBroken(t.cases[i], decls, proto) && !CaseKeysMissing(t.cases[i], decls))
  {
    match LookupDirect(decls, CodingKeysName)
    case None =>
      if t.kind == Enum {
        ClassifyCasesMeaning(t.cases, decls, proto, true);
      }
    case Some(d) =>
      match CheckKeyEnum(d, CodingKeysName)
      case Rejected(_) =>
      case KeyEnum(keys) =>
        if t.kind == Enum {
          ClassifyCasesMeaning(t.cases, decls, proto, false);
        } else {
          var v := Validation(keys, t.stored, proto, StoredProperties);
          assert (v.valid <==> KeysMatch(keys, t.stored, proto, StoredProperties)) && (v.valid <==> v.diags == []) by {
            ValidationMeaning(keys, t.stored, proto, StoredProperties);
          }
        }
  }

  /** classifyCodingKeys. */
  method ClassifyCodingKeys(t: Nominal, decls: seq<NamedDecl>, proto: Protocol)
    returns (result: Classification, diags: seq<Diag>)
    ensures Outcome(result, diags) == Classify(t, decls, proto)
  {
    var needsSynthesis := LookupDirect(decls, CodingKeysName).None?;
    var keys: seq<string> := [];
    if !needsSynthesis {
      match CheckKeyEnum(LookupDirect(decls, CodingKeysName).value, CodingKeysName)
      case Rejected(diag) =>
        return Invalid, [diag];
      case KeyEnum(cases) =>
        keys := cases;
    }

    if t.kind == Enum {
      for i := 0 to |t.cases|
        invariant Classify(t, decls, proto) == ClassifyCases(t.cases[i..], decls, proto, needsSynthesis)
      {
        assert t.cases[i..][1..] == t.cases[i + 1..];
        var c := t.cases[i];
        var nested := NestedKeysName(c.name);
        var found := LookupDirect(decls, nested);
        if found.None? {
          needsSynthesis := true;
        } else {
          match CheckKeyEnum(found.value, nested)
          case Rejected(diag) =>
            return Invalid, [diag];
          case KeyEnum(cases) =>
            var valid, caseDiags := ValidateKeys(cases, Payload(c), proto, CasePayload);
            if !valid {
              return Invalid, caseDiags;
            }
        }
      }
      return (if needsSynthesis then NeedsSynthesizedCodingKeys else Valid), [];
    } else if needsSynthesis {
      return NeedsSynthesizedCodingKeys, [];
    } else {
      var valid;
      valid, diags := ValidateKeys(keys, t.stored, proto, StoredProperties);
      result := if valid then Valid else Invalid;
    }
  }
}
