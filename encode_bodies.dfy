/** The bodies of the derived encode(to:): for a struct or class, one write
    per CodingKeys case followed by the call to super; for an enum, a switch
    over self with one arm per case that has a key, each arm writing the
    payload into a nested container. */
module EncodeBodies {
  import opened CodableTypes
  import opened BodyPlans

  // ---- Structs and classes ----

  /** The write for one key: the property it resolves to, with the IfPresent
      variant for an optional property. */
  function WriteFor(stored: seq<Member>, key: string): Stmt
    requires LookupVarForKey(stored, key).Some?
  {
    var v := LookupVarForKey(stored, key).value;
    Write(v.member.name, key, v.ifPresent)
  }

  function EncodeWrites(stored: seq<Member>, keys: seq<string>): seq<Stmt>
    requires KeysResolve(stored, keys)
  {
    if keys == [] then []
    else EncodeWrites(stored, keys[..|keys| - 1]) + [WriteFor(stored, keys[|keys| - 1])]
  }

  /** deriveBodyEncodable_encode, as a function of the type and its members. */
  function EncodeBody(t: Nominal, decls: seq<NamedDecl>): seq<Stmt>
    requires LookupEvaluated(decls, CodingKeysName).Some?
    requires KeysResolve(t.stored, CodingKeysCases(decls))
  {
    [BindContainer] + EncodeWrites(t.stored, CodingKeysCases(decls)) +
      (if SuperclassConformsTo(t, Encodable) then [SuperEncode] else [])
  }

  /** One write per key, in key order. */
  lemma {:induction false} EncodeWritesPerKey(stored: seq<Member>, keys: seq<string>)
    requires KeysResolve(stored, keys)
    ensures |EncodeWrites(stored, keys)| == |keys|
    ensures forall i :: 0 <= i < |keys| ==> EncodeWrites(stored, keys)[i] == WriteFor(stored, keys[i])
  {
    if keys != [] {
      var p := keys[..|keys| - 1];
      assert forall i :: 0 <= i < |p| ==> p[i] == keys[i];
      EncodeWritesPerKey(stored, p);
    }
  }

  /** One write per key, in key order; each writes a stored property coded
      under that key, with encodeIfPresent exactly when it is optional. */
  lemma EncodeWritesFollowKeys(stored: seq<Member>, keys: seq<string>)
    requires KeysResolve(stored, keys)
    ensures |EncodeWrites(stored, keys)| == |keys|
    ensures forall i :: 0 <= i < |keys| ==>
      EncodeWrites(stored, keys)[i].Write? && EncodeWrites(stored, keys)[i].key == keys[i] &&
      exists j :: 0 <= j < |stored| && CodingName(stored[j]) == keys[i] &&
        EncodeWrites(stored, keys)[i].member == stored[j].name &&
        EncodeWrites(stored, keys)[i].ifPresent == stored[j].isOptional
  {
    EncodeWritesPerKey(stored, keys);
    var w := EncodeWrites(stored, keys);
    forall i | 0 <= i < |keys|
      ensures w[i].Write? && w[i].key == keys[i] &&
        exists j :: 0 <= j < |stored| && CodingName(stored[j]) == keys[i] &&
          w[i].member == stored[j].name && w[i].ifPresent == stored[j].isOptional
    {
      LookupVarForKeyMeaning(stored, keys[i]);
      var v := LookupVarForKey(stored, keys[i]).value;
      var j :| 0 <= j < |stored| && stored[j] == v.member && CodingName(stored[j]) == keys[i];
      assert w[i] == Write(stored[j].name, keys[i], stored[j].isOptional);
    }
  }

  /** The container is always bound first, even with no keys; super is
      encoded last exactly when the superclass is Encodable; in between is
      nothing but the writes. */
  lemma EncodeBodyShape(t: Nominal, decls: seq<NamedDecl>)
    requires LookupEvaluated(decls, CodingKeysName).Some?
    requires KeysResolve(t.stored, CodingKeysCases(decls))
    ensures var body := EncodeBody(t, decls);
      && |body| == 1 + |CodingKeysCases(decls)| + (if SuperclassConformsTo(t, Encodable) then 1 else 0)
      && body[0] == BindContainer
      && (SuperEncode in body <==> SuperclassConformsTo(t, Encodable))
      && (SuperclassConformsTo(t, Encodable) ==> body[|body| - 1] == SuperEncode)
      && (forall i :: 1 <= i <= |CodingKeysCases(decls)| ==> body[i].Write?)
  {
    var keys := CodingKeysCases(decls);
    EncodeWritesPerKey(t.stored, keys);
    var w := EncodeWrites(t.stored, keys);
    var tail: seq<Stmt> := if SuperclassConformsTo(t, Encodable) then [SuperEncode] else [];
    var body := EncodeBody(t, decls);
    assert body == [BindContainer] + w + tail;
    assert forall i :: 0 <= i < |w| ==> w[i].Write?;
    assert forall i :: 1 <= i <= |keys| ==> body[i] == w[i - 1];
    assert SuperEncode !in w;
  }

  /** deriveBodyEncodable_encode. */
  method DeriveBodyEncodable(t: Nominal, decls: seq<NamedDecl>) returns (body: seq<Stmt>)
    requires LookupEvaluated(decls, CodingKeysName).Some?
    requires KeysResolve(t.stored, CodingKeysCases(decls))
    ensures body == EncodeBody(t, decls)
  {
    var keys := LookupEvaluated(decls, CodingKeysName).value.cases;
    body := [BindContainer];
    for i := 0 to |keys|
      invariant body == [BindContainer] + EncodeWrites(t.stored, keys[..i])
    {
      assert keys[..i + 1][..i] == keys[..i];
      var found := LookupVarForKey(t.stored, keys[i]);
      body := body + [Write(found.value.member.name, keys[i], found.value.ifPresent)];
    }
    assert keys[..|keys|] == keys;
    if SuperclassConformsTo(t, Encodable) {
      body := body + [SuperEncode];
    }
  }

  // ---- Enums ----

  /** The writes of an unnamed payload: every value, in position. */
  function UnkeyedWrites(n: nat): seq<PayloadStmt> {
    if n == 0 then [] else UnkeyedWrites(n - 1) + [UnkeyedWrite(n - 1)]
  }

  /** The writes of a named payload: each parameter with a key in the case's
      key enum, with encodeIfPresent for an optional parameter. */
  function NestedWrites(ps: seq<Member>, nestedKeys: seq<string>): seq<PayloadStmt> {
    if ps == [] then []
    else
      var p := ps[|ps| - 1];
      NestedWrites(ps[..|ps| - 1], nestedKeys) +
        (if p.name in nestedKeys then [NestedWrite(p.name, p.isOptional)] else [])
  }

  /** Every payload value is written, in order. */
  lemma {:induction false} UnkeyedWritesAll(n: nat)
    ensures |UnkeyedWrites(n)| == n && forall i :: 0 <= i < n ==> UnkeyedWrites(n)[i] == UnkeyedWrite(i)
  {
    if n > 0 {
      UnkeyedWritesAll(n - 1);
    }
  }

  /** A parameter is written exactly when the case's key enum has its name,
      and then with encodeIfPresent exactly when it is optional. */
  lemma {:induction false} NestedWritesFacts(ps: seq<Member>, nestedKeys: seq<string>)
    ensures forall i :: 0 <= i < |ps| && ps[i].name in nestedKeys ==> NestedWrite(ps[i].name, ps[i].isOptional) in NestedWrites(ps, nestedKeys)
    ensures forall w :: w in NestedWrites(ps, nestedKeys) ==>
      w.NestedWrite? && w.param in nestedKeys && exists i :: 0 <= i < |ps| && ps[i].name == w.param && ps[i].isOptional == w.ifPresent
  {
    if ps != [] {
      var p := ps[..|ps| - 1];
      NestedWritesFacts(p, nestedKeys);
      assert forall i :: 0 <= i < |p| ==> p[i] == ps[i];
    }
  }

  /** The case's own key enum exists wherever the encoder needs it. */
  predicate ArmReady(c: EnumCase, decls: seq<NamedDecl>) {
    !HasAnyUnnamedParameters(c) ==> LookupEvaluated(decls, NestedKeysName(c.name)).Some?
  }

  /** The arm of one case that has a key: a nested unkeyed container for a
      payload with an unnamed parameter, otherwise a nested container keyed
      by CodingKeys_<case>. */
  function EncodeArmFor(c: EnumCase, decls: seq<NamedDecl>): EncodeArm
    requires ArmReady(c, decls)
  {
    if HasAnyUnnamedParameters(c) then
      EncodeArm(c.name, [BindNestedUnkeyed(c.name)] + UnkeyedWrites(|Payload(c)|))
    else
      var nested := NestedKeysName(c.name);
      EncodeArm(c.name, [BindNestedKeyed(c.name, nested)] + NestedWrites(Payload(c), LookupEvaluated(decls, nested).value.cases))
  }

  /** The arms of the switch: cases without a key get none. */
  function EncodeArms(cases: seq<EnumCase>, decls: seq<NamedDecl>, topKeys: seq<string>): seq<EncodeArm>
    requires forall i :: 0 <= i < |cases| && cases[i].name in topKeys ==> ArmReady(cases[i], decls)
  {
    if cases == [] then []
    else
      var c := cases[|cases| - 1];
      EncodeArms(cases[..|cases| - 1], decls, topKeys) + (if c.name in topKeys then [EncodeArmFor(c, decls)] else [])
  }

  predicate EnumEncodeReady(t: Nominal, decls: seq<NamedDecl>) {
    && LookupEvaluated(decls, CodingKeysName).Some?
    && forall i :: 0 <= i < |t.cases| && t.cases[i].name in CodingKeysCases(decls) ==> ArmReady(t.cases[i], decls)
  }

  /** deriveBodyEncodable_enum_encode, as a function of the type and its members. */
  function EnumEncodeBody(t: Nominal, decls: seq<NamedDecl>): seq<Stmt>
    requires EnumEncodeReady(t, decls)
  {
    [BindContainer, SwitchOnSelf(EncodeArms(t.cases, decls, CodingKeysCases(decls)))]
  }

  /** The switch has an arm for exactly the cases with a key, in case order,
      and each arm opens the nested container under its case's key. */
  lemma {:induction false} EncodeArmsFacts(cases: seq<EnumCase>, decls: seq<NamedDecl>, topKeys: seq<string>)
    requires forall i :: 0 <= i < |cases| && cases[i].name in topKeys ==> ArmReady(cases[i], decls)
    ensures forall a :: a in EncodeArms(cases, decls, topKeys) ==>
      a.caseName in topKeys && |a.body| > 0 &&
      (a.body[0].BindNestedUnkeyed? || a.body[0].BindNestedKeyed?) && a.body[0].key == a.caseName &&
      exists i :: 0 <= i < |cases| && cases[i].name == a.caseName
    ensures forall i :: 0 <= i < |cases| && cases[i].name in topKeys ==>
      EncodeArmFor(cases[i], decls) in EncodeArms(cases, decls, topKeys)
  {
    if cases != [] {
      var p := cases[..|cases| - 1];
      EncodeArmsFacts(p, decls, topKeys);
      assert forall i :: 0 <= i < |p| ==> p[i] == cases[i];
    }
  }

  /** The writes of a named payload. */
  method NestedWritesOf(ps: seq<Member>, nestedKeys: seq<string>) returns (stmts: seq<PayloadStmt>)
    ensures stmts == NestedWrites(ps, nestedKeys)
  {
    stmts := [];
    for j := 0 to |ps|
      invariant stmts == NestedWrites(ps[..j], nestedKeys)
    {
      assert ps[..j + 1][..j] == ps[..j];
      var p := ps[j];
      // A parameter without a key is skipped.
      if p.name !in nestedKeys {
        continue;
      }
      stmts := stmts + [NestedWrite(p.name, p.isOptional)];
    }
    assert ps[..|ps|] == ps;
  }

  /** deriveBodyEncodable_enum_encode. */
  method DeriveBodyEncodableEnum(t: Nominal, decls: seq<NamedDecl>) returns (body: seq<Stmt>)
    requires EnumEncodeReady(t, decls)
    ensures body == EnumEncodeBody(t, decls)
  {
    var topKeys := LookupEvaluated(decls, CodingKeysName).value.cases;
    var cases := t.cases;
    var arms: seq<EncodeArm> := [];
    for i := 0 to |cases|
      invariant arms == EncodeArms(cases[..i], decls, topKeys)
    {
      assert cases[..i + 1][..i] == cases[..i];
      var c := cases[i];
      if c.name !in topKeys {
        continue;
      }
      var stmts: seq<PayloadStmt>;
      if HasAnyUnnamedParameters(c) {
        stmts := [BindNestedUnkeyed(c.name)];
        for k := 0 to |Payload(c)|
          invariant stmts == [BindNestedUnkeyed(c.name)] + UnkeyedWrites(k)
        {
          stmts := stmts + [UnkeyedWrite(k)];
        }
      } else {
        var nested := NestedKeysName(c.name);
        var writes := NestedWritesOf(Payload(c), LookupEvaluated(decls, nested).value.cases);
        stmts := [BindNestedKeyed(c.name, nested)] + writes;
      }
      arms := arms + [EncodeArm(c.name, stmts)];
    }
    assert cases[..|cases|] == cases;
    body := [BindContainer, SwitchOnSelf(arms)];
  }
}
