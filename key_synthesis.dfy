/** Synthesis of the coding-key enums a type lacks. For a struct or class one
    enum, CodingKeys, with a case per accessible conforming stored property
    (after `super` when the superclass is coded); it is added only if every
    accessible property conforms. For an enum, CodingKeys gets a case per
    enum case when it is missing, and each enum case that has a key in it,
    no key enum of its own and only named parameters gets CodingKeys_<case>;
    these are added even when some parameter does not conform. */
module KeySynthesis {
  import opened CodableTypes
  import opened KeyValidation
  import opened Classification

  /** Every accessible member's type conforms to the protocol. */
  predicate AllAccessibleConform(ms: seq<Member>, proto: Protocol) {
    forall i :: 0 <= i < |ms| && ms[i].userAccessible ==> ConformsTo(ms[i], proto)
  }

  /** No two accessible members are coded under the same name. */
  predicate DistinctCodingNames(ms: seq<Member>) {
    forall i, j :: 0 <= i < j < |ms| && ms[i].userAccessible && ms[j].userAccessible ==>
      CodingName(ms[i]) != CodingName(ms[j])
  }

  /** The key cases made for a member list: the coding names of the
      accessible members whose type conforms, in order. */
  function ConformingCodingNames(ms: seq<Member>, proto: Protocol): seq<string>
  {
    if ms == [] then []
    else
      var m := ms[|ms| - 1];
      ConformingCodingNames(ms[..|ms| - 1], proto) +
        (if m.userAccessible && ConformsTo(m, proto) then [CodingName(m)] else [])
  }

  /** The diagnostics of the struct and class synthesizer: one per accessible
      member whose type does not conform. */
  function NonConformingDiags(ms: seq<Member>, proto: Protocol): seq<Diag>
  {
    if ms == [] then []
    else
      var m := ms[|ms| - 1];
      NonConformingDiags(ms[..|ms| - 1], proto) +
        (if m.userAccessible && !ConformsTo(m, proto) then [NonConformingProperty(m.name)] else [])
  }

  /** A key case is made exactly for each accessible conforming member, and
      distinct coding names give distinct cases. */
  lemma {:induction false} ConformingCodingNamesFacts(ms: seq<Member>, proto: Protocol)
    ensures forall n :: n in ConformingCodingNames(ms, proto) <==>
      exists i :: 0 <= i < |ms| && ms[i].userAccessible && ConformsTo(ms[i], proto) && CodingName(ms[i]) == n
    ensures DistinctCodingNames(ms) ==>
      forall i, j :: 0 <= i < j < |ConformingCodingNames(ms, proto)| ==>
        ConformingCodingNames(ms, proto)[i] != ConformingCodingNames(ms, proto)[j]
  {
    if ms != [] {
      var p := ms[..|ms| - 1];
      var m := ms[|ms| - 1];
      ConformingCodingNamesFacts(p, proto);
      assert forall i :: 0 <= i < |p| ==> p[i] == ms[i];
      assert ms == p + [m];
      if DistinctCodingNames(ms) && m.userAccessible && ConformsTo(m, proto) {
        assert DistinctCodingNames(p);
        var q := ConformingCodingNames(p, proto);
        forall i | 0 <= i < |q|
          ensures q[i] != CodingName(m)
        {
          assert q[i] in q;
          var k :| 0 <= k < |p| && p[k].userAccessible && ConformsTo(p[k], proto) && CodingName(p[k]) == q[i];
          assert ms[k] == p[k];
        }
      }
    }
  }

  /** The struct synthesizer reports every accessible non-conforming member,
      and nothing when there is none. */
  lemma {:induction false} NonConformingDiagsFacts(ms: seq<Member>, proto: Protocol)
    ensures NonConformingDiags(ms, proto) == [] <==> AllAccessibleConform(ms, proto)
    ensures forall i :: 0 <= i < |ms| && ms[i].userAccessible && !ConformsTo(ms[i], proto) ==>
      NonConformingProperty(ms[i].name) in NonConformingDiags(ms, proto)
  {
    if ms != [] {
      var p := ms[..|ms| - 1];
      var m := ms[|ms| - 1];
      NonConformingDiagsFacts(p, proto);
      assert forall i :: 0 <= i < |p| ==> p[i] == ms[i];
      var d0 := NonConformingDiags(p, proto);
      var d := NonConformingDiags(ms, proto);
      assert d == d0 + (if m.userAccessible && !ConformsTo(m, proto) then [NonConformingProperty(m.name)] else []);
      assert AllAccessibleConform(ms, proto) <==>
        AllAccessibleConform(p, proto) && (m.userAccessible ==> ConformsTo(m, proto));
      forall i | 0 <= i < |ms| && ms[i].userAccessible && !ConformsTo(ms[i], proto)
        ensures NonConformingProperty(ms[i].name) in d
      {
        if i < |p| {
          assert ms[i] == p[i];
          assert NonConformingProperty(p[i].name) in d0;
        }
      }
    }
  }

  /** Synthesized key cases pass validation: when every accessible member
      conforms and coding names are distinct, the synthesized cases match
      the members one to one, so nothing is left over. */
  lemma SynthesizedNamesMatch(ms: seq<Member>, proto: Protocol, site: Site)
    requires AllAccessibleConform(ms, proto) && DistinctCodingNames(ms)
    ensures KeysMatch(ConformingCodingNames(ms, proto), ms, proto, site)
  {
    InventoryFacts(ms);
    ConformingCodingNamesFacts(ms, proto);
    var inv := Inventory(ms);
    var keys := ConformingCodingNames(ms, proto);
    forall n | n in inv
      ensures n in keys && ConformsTo(inv[n], proto)
    {
      var i :| 0 <= i < |ms| && ms[i].userAccessible && CodingName(ms[i]) == n;
      assert ConformsTo(ms[i], proto);
      var j :| 0 <= j < |ms| && ms[j] == inv[n];
      assert ms[j].userAccessible;
    }
  }

  /** The outcome of a synthesizer: whether it succeeded, the type's member
      declarations afterwards, and what it reported. */
  datatype SynthResult = SynthResult(ok: bool, decls: seq<NamedDecl>, diags: seq<Diag>)

  /** The cases of a synthesized struct or class CodingKeys. */
  function StructKeys(t: Nominal, proto: Protocol): seq<string> {
    (if SuperclassConformsTo(t, Encodable) || SuperclassConformsTo(t, Decodable) then [SuperKey] else [])
      + ConformingCodingNames(t.stored, proto)
  }

  /** synthesizeCodingKeysEnum for a struct or class. */
  function SynthesizeStructSpec(t: Nominal, decls: seq<NamedDecl>, proto: Protocol): SynthResult {
    var diags := NonConformingDiags(t.stored, proto);
    if diags != [] then SynthResult(false, decls, diags)
    else SynthResult(true, decls + [NamedDecl(CodingKeysName, SynthesizedKeyEnum(StructKeys(t, proto)))], [])
  }

  /** The struct synthesizer succeeds exactly when every accessible stored
      property conforms, reports each one that does not, and adds nothing
      on failure. */
  lemma StructSynthesisOutcome(t: Nominal, decls: seq<NamedDecl>, proto: Protocol)
    ensures SynthesizeStructSpec(t, decls, proto).ok <==> AllAccessibleConform(t.stored, proto)
    ensures SynthesizeStructSpec(t, decls, proto).ok <==> SynthesizeStructSpec(t, decls, proto).diags == []
    ensures forall i :: 0 <= i < |t.stored| && t.stored[i].userAccessible && !ConformsTo(t.stored[i], proto) ==>
      NonConformingProperty(t.stored[i].name) in SynthesizeStructSpec(t, decls, proto).diags
    ensures !SynthesizeStructSpec(t, decls, proto).ok ==> SynthesizeStructSpec(t, decls, proto).decls == decls
  {
    NonConformingDiagsFacts(t.stored, proto);
  }

  /** On success the added CodingKeys is what lookup finds, and it starts
      with `super` for a class with a coded superclass. */
  lemma StructSynthesisKeys(t: Nominal, decls: seq<NamedDecl>, proto: Protocol)
    requires SynthesizeStructSpec(t, decls, proto).ok && LookupDirect(decls, CodingKeysName).None?
    ensures LookupDirect(SynthesizeStructSpec(t, decls, proto).decls, CodingKeysName) ==
      Some(SynthesizedKeyEnum(StructKeys(t, proto)))
    ensures (SuperclassConformsTo(t, Encodable) || SuperclassConformsTo(t, Decodable)) ==>
      |StructKeys(t, proto)| > 0 && StructKeys(t, proto)[0] == SuperKey
  {
    var added := NamedDecl(CodingKeysName, SynthesizedKeyEnum(StructKeys(t, proto)));
    LookupDirectAppend(decls, [added], CodingKeysName);
  }

  /** For a struct or class without a coded superclass whose coding names
      are distinct, the synthesized CodingKeys is then classified Valid. */
  lemma StructSynthesisValid(t: Nominal, decls: seq<NamedDecl>, proto: Protocol)
    requires SynthesizeStructSpec(t, decls, proto).ok && LookupDirect(decls, CodingKeysName).None?
    requires t.kind != Enum && !SuperclassConformsTo(t, Encodable) && !SuperclassConformsTo(t, Decodable)
    requires DistinctCodingNames(t.stored)
    ensures Classify(t, SynthesizeStructSpec(t, decls, proto).decls, proto).result == Valid
  {
    var keys := StructKeys(t, proto);
    assert keys == ConformingCodingNames(t.stored, proto);
    assert AllAccessibleConform(t.stored, proto) by {
      NonConformingDiagsFacts(t.stored, proto);
    }
    assert Validation(keys, t.stored, proto, StoredProperties).valid by {
      SynthesizedNamesMatch(t.stored, proto, StoredProperties);
      ValidationMeaning(keys, t.stored, proto, StoredProperties);
    }
    StructSynthesisKeys(t, decls, proto);
  }

  // ---- Enums ----

  /** A nested key enum under construction, with the synthesizer's flag and
      diagnostics threaded through. */
  datatype Building = Building(cases: seq<string>, allConform: bool, diags: seq<Diag>)

  /** One payload parameter. Once a parameter has failed to conform, later
      parameters are not looked at: no case, no diagnostic. */
  function AddParam(b: Building, m: Member, proto: Protocol): Building {
    if !b.allConform || !m.userAccessible then b
    else if !ConformsTo(m, proto) then Building(b.cases, false, b.diags + [NonConformingProperty(m.name)])
    else Building(b.cases + [CodingName(m)], true, b.diags)
  }

  function AddParams(b: Building, ps: seq<Member>, proto: Protocol): Building
  {
    if ps == [] then b else AddParam(AddParams(b, ps[..|ps| - 1], proto), ps[|ps| - 1], proto)
  }

  /** The short-circuit: after a failure nothing changes; before one, the
      parameters are all added exactly when all conform, and otherwise the
      first non-conforming parameter is the only one reported. */
  lemma {:induction false} AddParamsFacts(b: Building, ps: seq<Member>, proto: Protocol)
    ensures !b.allConform ==> AddParams(b, ps, proto) == b
    ensures b.allConform ==> (AddParams(b, ps, proto).allConform <==> AllAccessibleConform(ps, proto))
    ensures b.allConform && AllAccessibleConform(ps, proto) ==>
      AddParams(b, ps, proto) == Building(b.cases + ConformingCodingNames(ps, proto), true, b.diags)
    ensures b.allConform && !AllAccessibleConform(ps, proto) ==>
      exists i :: 0 <= i < |ps| && ps[i].userAccessible && !ConformsTo(ps[i], proto) &&
        AllAccessibleConform(ps[..i], proto) &&
        AddParams(b, ps, proto).diags == b.diags + [NonConformingProperty(ps[i].name)]
  {
    if ps != [] {
      var p := ps[..|ps| - 1];
      var m := ps[|ps| - 1];
      AddParamsFacts(b, p, proto);
      assert forall i :: 0 <= i < |p| ==> p[i] == ps[i];
      var mid := AddParams(b, p, proto);
      var r := AddParams(b, ps, proto);
      assert r == AddParam(mid, m, proto);
      if b.allConform {
        assert AllAccessibleConform(ps, proto) <==>
          AllAccessibleConform(p, proto) && (m.userAccessible ==> ConformsTo(m, proto));
        if AllAccessibleConform(p, proto) && m.userAccessible && !ConformsTo(m, proto) {
          assert ps[..|p|] == p;
          assert r.diags == b.diags + [NonConformingProperty(ps[|p|].name)];
        } else if !AllAccessibleConform(p, proto) {
          var i :| 0 <= i < |p| && p[i].userAccessible && !ConformsTo(p[i], proto) &&
            AllAccessibleConform(p[..i], proto) && mid.diags == b.diags + [NonConformingProperty(p[i].name)];
          assert ps[..i] == p[..i];
          assert r == mid;
          assert ps[i].userAccessible && !ConformsTo(ps[i], proto) && AllAccessibleConform(ps[..i], proto);
        }
      }
    }
  }

  /** The member declarations and the synthesizer's flag and diagnostics. */
  datatype EnumSynth = EnumSynth(decls: seq<NamedDecl>, allConform: bool, diags: seq<Diag>)

  /** Whether enum case `c` gets a synthesized CodingKeys_<case>: it has a
      key in CodingKeys, no key enum of its own yet, and no unnamed parameter. */
  predicate GetsNestedKeys(c: EnumCase, topKeys: seq<string>, decls: seq<NamedDecl>) {
    c.name in topKeys && LookupDirect(decls, NestedKeysName(c.name)).None? && !HasAnyUnnamedParameters(c)
  }

  function SynthCase(s: EnumSynth, topKeys: seq<string>, c: EnumCase, proto: Protocol): EnumSynth {
    if !GetsNestedKeys(c, topKeys, s.decls) then s
    else
      var b := AddParams(Building([], s.allConform, s.diags), Payload(c), proto);
      EnumSynth(s.decls + [NamedDecl(NestedKeysName(c.name), SynthesizedKeyEnum(b.cases))], b.allConform, b.diags)
  }

  function SynthCases(s: EnumSynth, topKeys: seq<string>, cases: seq<EnumCase>, proto: Protocol): EnumSynth
  {
    if cases == [] then s
    else SynthCase(SynthCases(s, topKeys, cases[..|cases| - 1], proto), topKeys, cases[|cases| - 1], proto)
  }

  predicate DistinctCaseNames(cases: seq<EnumCase>) {
    forall i, j :: 0 <= i < j < |cases| ==> cases[i].name != cases[j].name
  }

  function CaseNames(cases: seq<EnumCase>): (r: seq<string>)
    ensures |r| == |cases| && forall i :: 0 <= i < |cases| ==> r[i] == cases[i].name
  {
    seq(|cases|, i requires 0 <= i < |cases| => cases[i].name)
  }

  /** The cases of the top-level key enum the nested ones are matched against. */
  function TopKeys(t: Nominal, decls: seq<NamedDecl>): seq<string> {
    match LookupEvaluated(decls, CodingKeysName)
    case Some(d) => d.cases
    case None => CaseNames(t.cases)
  }

  /** The declarations after CodingKeys is added when there is no enum under that name. */
  function WithTopKeys(t: Nominal, decls: seq<NamedDecl>): seq<NamedDecl> {
    if LookupEvaluated(decls, CodingKeysName).None? then
      decls + [NamedDecl(CodingKeysName, SynthesizedKeyEnum(CaseNames(t.cases)))]
    else decls
  }

  /** synthesizeCodingKeysEnum_enum. */
  function SynthesizeEnumSpec(t: Nominal, decls: seq<NamedDecl>, proto: Protocol): SynthResult {
    var s := SynthCases(EnumSynth(WithTopKeys(t, decls), true, []), TopKeys(t, decls), t.cases, proto);
    SynthResult(s.allConform, s.decls, s.diags)
  }

  /** synthesizeCodingKeysEnum. */
  function SynthesizeSpec(t: Nominal, decls: seq<NamedDecl>, proto: Protocol): SynthResult {
    if t.kind == Enum then SynthesizeEnumSpec(t, decls, proto) else SynthesizeStructSpec(t, decls, proto)
  }

  /** Lookup is unaffected by appending declarations of other names. */
  lemma LookupDirectAbsent(decls: seq<NamedDecl>, more: seq<NamedDecl>, name: string)
    requires forall k :: 0 <= k < |more| ==> more[k].name != name
    ensures LookupDirect(decls + more, name) == LookupDirect(decls, name)
  {
    LookupDirectAppend(decls, more, name);
  }

  /** Lookup is unaffected by declarations of other names after a prefix. */
  lemma {:induction false} LookupPastPrefix(prefix: seq<NamedDecl>, decls: seq<NamedDecl>, name: string)
    requires |prefix| <= |decls| && decls[..|prefix|] == prefix
    requires forall k :: |prefix| <= k < |decls| ==> decls[k].name != name
    ensures LookupDirect(decls, name) == LookupDirect(prefix, name)
  {
    var more := decls[|prefix|..];
    assert decls == prefix + more;
    assert forall k :: 0 <= k < |more| ==> more[k] == decls[|prefix| + k];
    LookupDirectAbsent(prefix, more, name);
  }

  /** The case scan only appends, and only key enums of qualifying cases. */
  lemma {:induction false} SynthCasesAppends(s0: EnumSynth, topKeys: seq<string>, cases: seq<EnumCase>, proto: Protocol)
    requires DistinctCaseNames(cases)
    ensures |s0.decls| <= |SynthCases(s0, topKeys, cases, proto).decls|
    ensures SynthCases(s0, topKeys, cases, proto).decls[..|s0.decls|] == s0.decls
    ensures forall k :: |s0.decls| <= k < |SynthCases(s0, topKeys, cases, proto).decls| ==>
      exists j :: 0 <= j < |cases| && GetsNestedKeys(cases[j], topKeys, s0.decls) &&
        SynthCases(s0, topKeys, cases, proto).decls[k].name == NestedKeysName(cases[j].name)
    decreases |cases|, 1
  {
    if cases != [] {
      var p := cases[..|cases| - 1];
      var c := cases[|cases| - 1];
      assert forall i :: 0 <= i < |p| ==> p[i] == cases[i];
      SynthCasesAppends(s0, topKeys, p, proto);
      var mid := SynthCases(s0, topKeys, p, proto).decls;
      var r := SynthCases(s0, topKeys, cases, proto).decls;
      assert r[..|mid|] == mid;
      assert r[..|s0.decls|] == mid[..|s0.decls|];
      forall k | |s0.decls| <= k < |r|
        ensures exists j :: (0 <= j < |cases| && GetsNestedKeys(cases[j], topKeys, s0.decls) &&
          r[k].name == NestedKeysName(cases[j].name))
      {
        if k < |mid| {
          assert r[k] == mid[k];
          var j :| 0 <= j < |p| && GetsNestedKeys(p[j], topKeys, s0.decls) && mid[k].name == NestedKeysName(p[j].name);
          assert cases[j] == p[j];
          assert 0 <= j < |cases| && GetsNestedKeys(cases[j], topKeys, s0.decls) && r[k].name == NestedKeysName(cases[j].name);
        } else {
          var j := |cases| - 1;
          assert cases[j] == c;
          assert GetsNestedKeys(c, topKeys, SynthCases(s0, topKeys, p, proto).decls);
          assert GetsNestedKeys(c, topKeys, s0.decls) by {
            SynthCasesLookup(s0, topKeys, p, proto, c);
          }
          assert r[k].name == NestedKeysName(c.name);
          assert 0 <= j < |cases| && GetsNestedKeys(cases[j], topKeys, s0.decls) && r[k].name == NestedKeysName(cases[j].name);
        }
      }
    }
  }

  /** The key enum of a case the scan has not reached yet is looked up as before. */
  lemma {:induction false} SynthCasesLookup(s0: EnumSynth, topKeys: seq<string>, cases: seq<EnumCase>, proto: Protocol, c: EnumCase)
    requires DistinctCaseNames(cases)
    requires forall j :: 0 <= j < |cases| ==> cases[j].name != c.name
    ensures LookupDirect(SynthCases(s0, topKeys, cases, proto).decls, NestedKeysName(c.name)) ==
      LookupDirect(s0.decls, NestedKeysName(c.name))
    decreases |cases|, 2
  {
    if cases != [] {
      SynthCasesAppends(s0, topKeys, cases, proto);
      var r := SynthCases(s0, topKeys, cases, proto).decls;
      var more := r[|s0.decls|..];
      assert r == s0.decls + more;
      forall k | 0 <= k < |more|
        ensures more[k].name != NestedKeysName(c.name)
      {
        assert r[|s0.decls| + k] == more[k];
        var j :| 0 <= j < |cases| && GetsNestedKeys(cases[j], topKeys, s0.decls) &&
          r[|s0.decls| + k].name == NestedKeysName(cases[j].name);
        NestedKeysNameInjective(cases[j].name, c.name);
      }
      LookupDirectAbsent(s0.decls, more, NestedKeysName(c.name));
    }
  }

  /** One case's step leaves the lookup of every other name alone, and
      makes the case's own key enum visible when it qualifies. */
  lemma SynthCaseStep(s: EnumSynth, topKeys: seq<string>, c: EnumCase, proto: Protocol, n: string)
    ensures n != NestedKeysName(c.name) ==> LookupDirect(SynthCase(s, topKeys, c, proto).decls, n) == LookupDirect(s.decls, n)
    ensures GetsNestedKeys(c, topKeys, s.decls) ==>
      LookupDirect(SynthCase(s, topKeys, c, proto).decls, NestedKeysName(c.name)) ==
        Some(SynthesizedKeyEnum(AddParams(Building([], s.allConform, s.diags), Payload(c), proto).cases))
  {
    if GetsNestedKeys(c, topKeys, s.decls) {
      var added := NamedDecl(NestedKeysName(c.name), SynthesizedKeyEnum(AddParams(Building([], s.allConform, s.diags), Payload(c), proto).cases));
      LookupDirectAppend(s.decls, [added], n);
      LookupDirectAppend(s.decls, [added], NestedKeysName(c.name));
    }
  }

  /** A case ends up with a key enum exactly when it had one or qualifies. */
  lemma {:induction false} SynthCasesPresence(s0: EnumSynth, topKeys: seq<string>, cases: seq<EnumCase>, proto: Protocol)
    requires DistinctCaseNames(cases)
    ensures forall i :: 0 <= i < |cases| ==>
      (LookupDirect(SynthCases(s0, topKeys, cases, proto).decls, NestedKeysName(cases[i].name)).Some? <==>
        LookupDirect(s0.decls, NestedKeysName(cases[i].name)).Some? || GetsNestedKeys(cases[i], topKeys, s0.decls))
  {
    if cases != [] {
      var p := cases[..|cases| - 1];
      var c := cases[|cases| - 1];
      SynthCasesPresence(s0, topKeys, p, proto);
      SynthCasesLookup(s0, topKeys, p, proto, c);
      var s := SynthCases(s0, topKeys, p, proto);
      var r := SynthCases(s0, topKeys, cases, proto);
      assert r == SynthCase(s, topKeys, c, proto);
      forall i | 0 <= i < |cases|
        ensures LookupDirect(r.decls, NestedKeysName(cases[i].name)).Some? <==>
          LookupDirect(s0.decls, NestedKeysName(cases[i].name)).Some? || GetsNestedKeys(cases[i], topKeys, s0.decls)
      {
        var n := NestedKeysName(cases[i].name);
        if i < |p| {
          assert p[i] == cases[i];
          NestedKeysNameInjective(cases[i].name, c.name);
          SynthCaseStep(s, topKeys, c, proto, n);
        } else {
          SynthCaseStep(s, topKeys, c, proto, n);
        }
      }
    }
  }

  /** The scan succeeds exactly when every qualifying case's accessible
      parameters conform. Before the first failure nothing is reported; the
      failure reports one diagnostic, and later cases nothing. */
  lemma {:induction false} SynthCasesConform(s0: EnumSynth, topKeys: seq<string>, cases: seq<EnumCase>, proto: Protocol)
    requires DistinctCaseNames(cases)
    ensures SynthCases(s0, topKeys, cases, proto).allConform <==>
      s0.allConform && forall i :: 0 <= i < |cases| && GetsNestedKeys(cases[i], topKeys, s0.decls) ==>
        AllAccessibleConform(Payload(cases[i]), proto)
    ensures !s0.allConform ==> SynthCases(s0, topKeys, cases, proto).diags == s0.diags
    ensures s0.allConform && SynthCases(s0, topKeys, cases, proto).allConform ==>
      SynthCases(s0, topKeys, cases, proto).diags == s0.diags
    ensures s0.allConform && !SynthCases(s0, topKeys, cases, proto).allConform ==>
      |SynthCases(s0, topKeys, cases, proto).diags| == |s0.diags| + 1
  {
    if cases != [] {
      var p := cases[..|cases| - 1];
      var c := cases[|cases| - 1];
      assert forall i :: 0 <= i < |p| ==> p[i] == cases[i];
      SynthCasesConform(s0, topKeys, p, proto);
      SynthCasesLookup(s0, topKeys, p, proto, c);
      var s := SynthCases(s0, topKeys, p, proto);
      AddParamsFacts(Building([], s.allConform, s.diags), Payload(c), proto);
    }
  }

  /** When the scan succeeds, each qualifying case's key enum holds exactly
      the coding names of its accessible parameters. */
  lemma {:induction false} SynthCasesContents(s0: EnumSynth, topKeys: seq<string>, cases: seq<EnumCase>, proto: Protocol)
    requires DistinctCaseNames(cases)
    ensures SynthCases(s0, topKeys, cases, proto).allConform ==>
      forall i :: 0 <= i < |cases| && GetsNestedKeys(cases[i], topKeys, s0.decls) ==>
        LookupDirect(SynthCases(s0, topKeys, cases, proto).decls, NestedKeysName(cases[i].name)) ==
          Some(SynthesizedKeyEnum(ConformingCodingNames(Payload(cases[i]), proto)))
  {
    if cases != [] {
      var p := cases[..|cases| - 1];
      var c := cases[|cases| - 1];
      var s := SynthCases(s0, topKeys, p, proto);
      var b := Building([], s.allConform, s.diags);
      var r := SynthCase(s, topKeys, c, proto);
      if r.allConform {
        assert s.allConform by {
          AddParamsFacts(b, Payload(c), proto);
        }
        forall i | 0 <= i < |cases| && GetsNestedKeys(cases[i], topKeys, s0.decls)
          ensures LookupDirect(r.decls, NestedKeysName(cases[i].name)) ==
            Some(SynthesizedKeyEnum(ConformingCodingNames(Payload(cases[i]), proto)))
        {
          if i < |p| {
            assert cases[i] == p[i];
            assert DistinctCaseNames(p);
            SynthCasesContents(s0, topKeys, p, proto);
            NestedKeysNameInjective(p[i].name, c.name);
            SynthCaseStep(s, topKeys, c, proto, NestedKeysName(p[i].name));
          } else {
            assert cases[i] == c;
            assert forall j :: 0 <= j < |p| ==> p[j] == cases[j];
            SynthCasesLookup(s0, topKeys, p, proto, c);
            AddParamsFacts(b, Payload(c), proto);
            SynthCaseStep(s, topKeys, c, proto, NestedKeysName(c.name));
            assert [] + ConformingCodingNames(Payload(c), proto) == ConformingCodingNames(Payload(c), proto);
          }
        }
      }
    }
  }

  /** Whether case `c` of enum `t` gets a synthesized key enum, judged on the
      declarations before synthesis. */
  predicate EnumCaseGetsKeys(c: EnumCase, t: Nominal, decls: seq<NamedDecl>) {
    GetsNestedKeys(c, TopKeys(t, decls), decls)
  }

  /** Adding the top-level CodingKeys does not change how the nested key
      enums are looked up. */
  lemma WithTopKeysLookup(t: Nominal, decls: seq<NamedDecl>, c: EnumCase)
    ensures |decls| <= |WithTopKeys(t, decls)| && WithTopKeys(t, decls)[..|decls|] == decls
    ensures LookupDirect(WithTopKeys(t, decls), NestedKeysName(c.name)) == LookupDirect(decls, NestedKeysName(c.name))
    ensures LookupDirect(decls, CodingKeysName).None? ==>
      LookupDirect(WithTopKeys(t, decls), CodingKeysName) == Some(SynthesizedKeyEnum(CaseNames(t.cases)))
  {
    var d1 := WithTopKeys(t, decls);
    assert decls + d1[|decls|..] == d1;
    NestedKeysNameInjective(c.name, c.name);
    LookupDirectAppend(decls, d1[|decls|..], NestedKeysName(c.name));
    LookupDirectAppend(decls, d1[|decls|..], CodingKeysName);
  }

  /** The enum synthesizer only appends declarations. */
  lemma EnumSynthesisDecls(t: Nominal, decls: seq<NamedDecl>, proto: Protocol)
    requires DistinctCaseNames(t.cases)
    ensures |decls| <= |SynthesizeEnumSpec(t, decls, proto).decls|
    ensures SynthesizeEnumSpec(t, decls, proto).decls[..|decls|] == decls
  {
    var d1 := WithTopKeys(t, decls);
    var top := TopKeys(t, decls);
    var s0 := EnumSynth(d1, true, []);
    WithTopKeysLookup(t, decls, EnumCase("", false, []));
    SynthCasesAppends(s0, top, t.cases, proto);
    var r := SynthCases(s0, top, t.cases, proto).decls;
    assert r[..|decls|] == r[..|d1|][..|decls|];
  }

  /** The case scan never adds a declaration named CodingKeys. */
  lemma {:induction false} SynthCasesAddNoTopKeys(s0: EnumSynth, topKeys: seq<string>, cases: seq<EnumCase>, proto: Protocol)
    requires DistinctCaseNames(cases)
    ensures |s0.decls| <= |SynthCases(s0, topKeys, cases, proto).decls|
    ensures SynthCases(s0, topKeys, cases, proto).decls[..|s0.decls|] == s0.decls
    ensures forall k :: |s0.decls| <= k < |SynthCases(s0, topKeys, cases, proto).decls| ==>
      SynthCases(s0, topKeys, cases, proto).decls[k].name != CodingKeysName
  {
    SynthCasesAppends(s0, topKeys, cases, proto);
    var r := SynthCases(s0, topKeys, cases, proto).decls;
    forall k | |s0.decls| <= k < |r|
      ensures r[k].name != CodingKeysName
    {
      var j :| 0 <= j < |cases| && r[k].name == NestedKeysName(cases[j].name);
      NestedKeysNameInjective(cases[j].name, cases[j].name);
    }
  }

  /** The enum synthesizer adds CodingKeys, with one case per enum case,
      when no declaration has that name. */
  lemma EnumSynthesisAddsKeys(t: Nominal, decls: seq<NamedDecl>, proto: Protocol)
    requires DistinctCaseNames(t.cases)
    requires LookupDirect(decls, CodingKeysName).None?
    ensures LookupDirect(SynthesizeEnumSpec(t, decls, proto).decls, CodingKeysName) == Some(SynthesizedKeyEnum(CaseNames(t.cases)))
  {
    var d1 := WithTopKeys(t, decls);
    var s0 := EnumSynth(d1, true, []);
    WithTopKeysLookup(t, decls, EnumCase("", false, []));
    SynthCasesAddNoTopKeys(s0, TopKeys(t, decls), t.cases, proto);
    LookupPastPrefix(d1, SynthCases(s0, TopKeys(t, decls), t.cases, proto).decls, CodingKeysName);
  }

  /** A case ends up with a key enum exactly when it had one or qualifies;
      synthesis succeeds exactly when every qualifying case's accessible
      parameters conform, reports nothing on success and exactly one
      diagnostic on failure, and on success every key enum it made holds the
      coding names of its case's accessible parameters. */
  lemma EnumSynthesis(t: Nominal, decls: seq<NamedDecl>, proto: Protocol)
    requires DistinctCaseNames(t.cases)
    ensures forall i :: 0 <= i < |t.cases| ==>
      (LookupDirect(SynthesizeEnumSpec(t, decls, proto).decls, NestedKeysName(t.cases[i].name)).Some? <==>
        LookupDirect(decls, NestedKeysName(t.cases[i].name)).Some? || EnumCaseGetsKeys(t.cases[i], t, decls))
    ensures SynthesizeEnumSpec(t, decls, proto).ok <==>
      forall i :: 0 <= i < |t.cases| && EnumCaseGetsKeys(t.cases[i], t, decls) ==>
        AllAccessibleConform(Payload(t.cases[i]), proto)
    ensures SynthesizeEnumSpec(t, decls, proto).ok <==> SynthesizeEnumSpec(t, decls, proto).diags == []
    ensures |SynthesizeEnumSpec(t, decls, proto).diags| <= 1
    ensures SynthesizeEnumSpec(t, decls, proto).ok ==>
      forall i :: 0 <= i < |t.cases| && EnumCaseGetsKeys(t.cases[i], t, decls) ==>
        LookupDirect(SynthesizeEnumSpec(t, decls, proto).decls, NestedKeysName(t.cases[i].name)) ==
          Some(SynthesizedKeyEnum(ConformingCodingNames(Payload(t.cases[i]), proto)))
  {
    var d1 := WithTopKeys(t, decls);
    var top := TopKeys(t, decls);
    var s0 := EnumSynth(d1, true, []);
    forall c: EnumCase
      ensures LookupDirect(d1, NestedKeysName(c.name)) == LookupDirect(decls, NestedKeysName(c.name))
    {
      WithTopKeysLookup(t, decls, c);
    }
    assert forall c: EnumCase :: GetsNestedKeys(c, top, d1) == EnumCaseGetsKeys(c, t, decls);
    SynthCasesPresence(s0, top, t.cases, proto);
    SynthCasesConform(s0, top, t.cases, proto);
    SynthCasesContents(s0, top, t.cases, proto);
  }

  /** On success, a case given a key enum whose accessible parameters have
      distinct coding names is no longer broken for classification. */
  lemma SynthesizedCaseKeysValidate(t: Nominal, decls: seq<NamedDecl>, proto: Protocol, i: nat)
    requires DistinctCaseNames(t.cases)
    requires i < |t.cases| && EnumCaseGetsKeys(t.cases[i], t, decls)
    requires DistinctCodingNames(Payload(t.cases[i]))
    requires SynthesizeEnumSpec(t, decls, proto).ok
    ensures !CaseKeysBroken(t.cases[i], SynthesizeEnumSpec(t, decls, proto).decls, proto)
    ensures !CaseKeysMissing(t.cases[i], SynthesizeEnumSpec(t, decls, proto).decls)
  {
    EnumSynthesis(t, decls, proto);
    EnumSynthesisDecls(t, decls, proto);
    SynthesizedNamesMatch(Payload(t.cases[i]), proto, CasePayload);
  }

  /** A scan in which no case qualifies changes nothing. */
  lemma {:induction false} SynthCasesNoneQualify(s0: EnumSynth, topKeys: seq<string>, cases: seq<EnumCase>, proto: Protocol)
    requires forall i :: 0 <= i < |cases| ==> !GetsNestedKeys(cases[i], topKeys, s0.decls)
    ensures SynthCases(s0, topKeys, cases, proto) == s0
  {
    if cases != [] {
      var p := cases[..|cases| - 1];
      assert forall i :: 0 <= i < |p| ==> p[i] == cases[i];
      SynthCasesNoneQualify(s0, topKeys, p, proto);
    }
  }

  /** Running the enum synthesizer again on its own output adds nothing and
      succeeds silently. This holds whether or not the first run succeeded:
      the key enums made before a non-conforming parameter was met stay
      attached, so a failed run followed by a second one reports success.
      The second run must find the first run's CodingKeys, so the type may
      not hold a declaration of that name that is not an enum. */
  lemma EnumSynthesisIdempotent(t: Nominal, decls: seq<NamedDecl>, proto: Protocol)
    requires DistinctCaseNames(t.cases)
    requires LookupDirect(decls, CodingKeysName).None? || LookupEvaluated(decls, CodingKeysName).Some?
    ensures var d1 := SynthesizeEnumSpec(t, decls, proto).decls;
      SynthesizeEnumSpec(t, d1, proto) == SynthResult(true, d1, [])
  {
    var r := SynthesizeEnumSpec(t, decls, proto);
    var top := TopKeys(t, decls);
    var s0 := EnumSynth(WithTopKeys(t, decls), true, []);
    if LookupDirect(decls, CodingKeysName).None? {
      EnumSynthesisAddsKeys(t, decls, proto);
    } else {
      assert s0.decls == decls;
      SynthCasesAddNoTopKeys(s0, top, t.cases, proto);
      LookupPastPrefix(decls, r.decls, CodingKeysName);
    }
    assert TopKeys(t, r.decls) == top && WithTopKeys(t, r.decls) == r.decls;
    SynthCasesPresence(s0, top, t.cases, proto);
    forall i | 0 <= i < |t.cases|
      ensures !GetsNestedKeys(t.cases[i], top, r.decls)
    {
    }
    SynthCasesNoneQualify(EnumSynth(r.decls, true, []), top, t.cases, proto);
  }

  /** The parameter loop of synthesizeCodingKeysEnum_enum for one case: the
      key cases of its nested enum, and the updated flag and diagnostics. */
  method AddKeyCases(params: seq<Member>, proto: Protocol, allConform0: bool, diags0: seq<Diag>)
    returns (keyCases: seq<string>, allConform: bool, diags: seq<Diag>)
    ensures Building(keyCases, allConform, diags) == AddParams(Building([], allConform0, diags0), params, proto)
  {
    keyCases, allConform, diags := [], allConform0, diags0;
    for j := 0 to |params|
      invariant Building(keyCases, allConform, diags) == AddParams(Building([], allConform0, diags0), params[..j], proto)
    {
      assert params[..j + 1][..j] == params[..j];
      // Once a parameter has failed, the rest are skipped.
      if allConform {
        var m := params[j];
        if m.userAccessible {
          if !ConformsTo(m, proto) {
            diags := diags + [NonConformingProperty(m.name)];
            allConform := false;
          } else {
            keyCases := keyCases + [CodingName(m)];
          }
        }
      }
    }
    assert params[..|params|] == params;
  }

  /** The type whose member list the synthesizers extend. */
  class TargetType {
    const nominal: Nominal
    var decls: seq<NamedDecl>

    constructor (nominal: Nominal, decls: seq<NamedDecl>)
      ensures this.nominal == nominal && this.decls == decls
    {
      this.nominal := nominal;
      this.decls := decls;
    }

    /** synthesizeCodingKeysEnum. */
    method SynthesizeCodingKeys(proto: Protocol) returns (ok: bool, diags: seq<Diag>)
      modifies this
      ensures SynthResult(ok, decls, diags) == SynthesizeSpec(nominal, old(decls), proto)
    {
      if nominal.kind == Enum {
        ok, diags := SynthesizeCodingKeysForEnum(proto);
        return;
      }

      var keys: seq<string> := [];
      if SuperclassConformsTo(nominal, Encodable) || SuperclassConformsTo(nominal, Decodable) {
        keys := [SuperKey];
      }
      ghost var superKeys := keys;
      var allConform := true;
      diags := [];
      var stored := nominal.stored;
      for i := 0 to |stored|
        invariant keys == superKeys + ConformingCodingNames(stored[..i], proto)
        invariant diags == NonConformingDiags(stored[..i], proto)
        invariant allConform <==> diags == []
      {
        assert stored[..i + 1][..i] == stored[..i];
        var m := stored[i];
        if !m.userAccessible {
          continue;
        }
        if !ConformsTo(m, proto) {
          diags := diags + [NonConformingProperty(m.name)];
          allConform := false;
        } else {
          keys := keys + [CodingName(m)];
        }
      }
      assert stored[..|stored|] == stored;
      assert keys == StructKeys(nominal, proto);
      if !allConform {
        return false, diags;
      }
      decls := decls + [NamedDecl(CodingKeysName, SynthesizedKeyEnum(keys))];
      ok := true;
    }

    /** synthesizeCodingKeysEnum_enum. */
    method SynthesizeCodingKeysForEnum(proto: Protocol) returns (ok: bool, diags: seq<Diag>)
      requires nominal.kind == Enum
      modifies this
      ensures SynthResult(ok, decls, diags) == SynthesizeEnumSpec(nominal, old(decls), proto)
    {
      var cases := nominal.cases;
      var topKeys: seq<string>;
      var top := LookupEvaluated(decls, CodingKeysName);
      if top.None? {
        var names: seq<string> := [];
        for i := 0 to |cases|
          invariant |names| == i && forall k :: 0 <= k < i ==> names[k] == cases[k].name
        {
          names := names + [cases[i].name];
        }
        assert names == CaseNames(cases);
        decls := decls + [NamedDecl(CodingKeysName, SynthesizedKeyEnum(names))];
        topKeys := names;
      } else {
        topKeys := top.value.cases;
      }
      assert decls == WithTopKeys(nominal, old(decls)) && topKeys == TopKeys(nominal, old(decls));

      ghost var start := decls;
      var allConform := true;
      diags := [];
      for i := 0 to |cases|
        invariant EnumSynth(decls, allConform, diags) == SynthCases(EnumSynth(start, true, []), topKeys, cases[..i], proto)
      {
        assert cases[..i + 1][..i] == cases[..i];
        var c := cases[i];
        var nested := NestedKeysName(c.name);
        if c.name !in topKeys || LookupDirect(decls, nested).Some? || HasAnyUnnamedParameters(c) {
          continue;
        }
        var keyCases;
        keyCases, allConform, diags := AddKeyCases(Payload(c), proto, allConform, diags);
        decls := decls + [NamedDecl(nested, SynthesizedKeyEnum(keyCases))];
      }
      assert cases[..|cases|] == cases;
      ok := allConform;
    }
  }
}
