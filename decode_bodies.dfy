/** The bodies of the derived init(from:): for a struct or class, one read
    per CodingKeys case (a `let` with an initial value is skipped and may be
    diagnosed) followed by the superclass initializer; for an enum, a switch
    over the first key present with one arm per case that has a key and a
    trapping default arm. Each is related to the encoder it must mirror. */
module DecodeBodies {
  import opened CodableTypes
  import opened BodyPlans
  import opened EncodeBodies

  // ---- Structs and classes ----

  /** A `let` with an initial value cannot be assigned, so it is never read. */
  predicate SkipsRead(m: Member) {
    m.isLet && m.parentInitialized
  }

  /** The warnings for a skipped `let`: silent when the key enum is written
      out and either the type is also Encodable or the key is absent;
      otherwise a warning plus a note naming the implicit or explicit fix. */
  function LetDiags(t: Nominal, m: Member, allKeys: seq<string>, implicitKeys: bool): seq<Diag> {
    if !implicitKeys && (t.conformsToEncodable || m.name !in allKeys) then []
    else
      [PropertyWillNotBeDecoded(m.name)] +
        (if implicitKeys then [InitOrCodingKeysImplicit(m.name, t.conformsToEncodable)]
         else [InitOrCodingKeysExplicit(m.name)])
  }

  datatype DecodeResult = DecodeResult(body: seq<Stmt>, diags: seq<Diag>)

  /** The reads for `keys`, in order; `allKeys` is the whole key enum. */
  function DecodeReads(t: Nominal, keys: seq<string>, allKeys: seq<string>, implicitKeys: bool): DecodeResult
    requires KeysResolve(t.stored, keys)
  {
    if keys == [] then DecodeResult([], [])
    else
      var r := DecodeReads(t, keys[..|keys| - 1], allKeys, implicitKeys);
      var key := keys[|keys| - 1];
      var v := LookupVarForKey(t.stored, key).value;
      if SkipsRead(v.member) then DecodeResult(r.body, r.diags + LetDiags(t, v.member, allKeys, implicitKeys))
      else DecodeResult(r.body + [Read(v.member.name, key, v.ifPresent)], r.diags)
  }

  /** A class whose superclass is not Decodable delegates to the first
      init() found, which must exist and must not be failable. */
  predicate SuperInitReady(t: Nominal) {
    t.kind == Class && t.superclass.Some? && !t.superclass.value.decodable ==>
      |t.superclass.value.plainInit| > 0 && !t.superclass.value.plainInit[0].failable
  }

  /** The delegation to the superclass that ends a class's init(from:). */
  function SuperDecodeTail(t: Nominal): seq<Stmt>
    requires SuperInitReady(t)
  {
    if t.kind == Class && t.superclass.Some? then
      if t.superclass.value.decodable then [SuperInitFromDecoder]
      else [SuperInit(t.superclass.value.plainInit[0].throws)]
    else []
  }

  predicate DecodeReady(t: Nominal, decls: seq<NamedDecl>) {
    && LookupEvaluated(decls, CodingKeysName).Some?
    && KeysResolve(t.stored, CodingKeysCases(decls))
    && SuperInitReady(t)
  }

  /** deriveBodyDecodable_init, as a function of the type and its members:
      with no keys there is no container and no read. */
  function DecodeBody(t: Nominal, decls: seq<NamedDecl>): DecodeResult
    requires DecodeReady(t, decls)
  {
    var ck := LookupEvaluated(decls, CodingKeysName).value;
    if ck.cases == [] then DecodeResult(SuperDecodeTail(t), [])
    else
      var r := DecodeReads(t, ck.cases, ck.cases, ck.implicit);
      DecodeResult([BindContainer] + r.body + SuperDecodeTail(t), r.diags)
  }

  /** The encoder's writes seen as reads of the same members and keys. */
  function AsReads(ws: seq<Stmt>): seq<Stmt> {
    if ws == [] then []
    else
      var w := ws[|ws| - 1];
      AsReads(ws[..|ws| - 1]) + [if w.Write? then Read(w.member, w.key, w.ifPresent) else w]
  }

  /** No key resolves to a `let` with an initial value. */
  predicate NoSkippedLets(stored: seq<Member>, keys: seq<string>)
    requires KeysResolve(stored, keys)
  {
    forall i :: 0 <= i < |keys| ==> !SkipsRead(LookupVarForKey(stored, keys[i]).value.member)
  }

  /** The decoder reads back what the encoder wrote: when no key resolves to
      a skipped `let`, the reads are the writes of the same properties under
      the same keys in the same order, with decodeIfPresent exactly where
      encodeIfPresent was used, and nothing is diagnosed. */
  lemma {:induction false} DecodeReadsMirrorWrites(t: Nominal, keys: seq<string>, allKeys: seq<string>, implicitKeys: bool)
    requires KeysResolve(t.stored, keys) && NoSkippedLets(t.stored, keys)
    ensures DecodeReads(t, keys, allKeys, implicitKeys) == DecodeResult(AsReads(EncodeWrites(t.stored, keys)), [])
  {
    if keys != [] {
      var p := keys[..|keys| - 1];
      assert forall i :: 0 <= i < |p| ==> p[i] == keys[i];
      DecodeReadsMirrorWrites(t, p, allKeys, implicitKeys);
      var ws := EncodeWrites(t.stored, keys);
      assert ws[..|ws| - 1] == EncodeWrites(t.stored, p);
    }
  }

  /** A read is never emitted for a skipped `let`. */
  lemma {:induction false} SkippedLetsNotRead(t: Nominal, keys: seq<string>, allKeys: seq<string>, implicitKeys: bool)
    requires KeysResolve(t.stored, keys)
    ensures forall s :: s in DecodeReads(t, keys, allKeys, implicitKeys).body ==>
      s.Read? && s.key in keys && !SkipsRead(LookupVarForKey(t.stored, s.key).value.member)
  {
    if keys != [] {
      var p := keys[..|keys| - 1];
      SkippedLetsNotRead(t, p, allKeys, implicitKeys);
      assert forall k :: k in p ==> k in keys;
    }
  }

  /** With a synthesized key enum, each skipped `let` is reported as not
      decoded. */
  lemma {:induction false} SkippedLetsReported(t: Nominal, keys: seq<string>, allKeys: seq<string>, implicitKeys: bool)
    requires KeysResolve(t.stored, keys) && implicitKeys
    ensures forall i :: 0 <= i < |keys| && SkipsRead(LookupVarForKey(t.stored, keys[i]).value.member) ==>
      PropertyWillNotBeDecoded(LookupVarForKey(t.stored, keys[i]).value.member.name) in DecodeReads(t, keys, allKeys, implicitKeys).diags
  {
    if keys != [] {
      var p := keys[..|keys| - 1];
      SkippedLetsReported(t, p, allKeys, implicitKeys);
      var before := DecodeReads(t, p, allKeys, implicitKeys).diags;
      var after := DecodeReads(t, keys, allKeys, implicitKeys).diags;
      assert before <= after;
      forall i | 0 <= i < |keys| && SkipsRead(LookupVarForKey(t.stored, keys[i]).value.member)
        ensures PropertyWillNotBeDecoded(LookupVarForKey(t.stored, keys[i]).value.member.name) in after
      {
        if i < |p| {
          assert keys[i] == p[i];
          assert PropertyWillNotBeDecoded(LookupVarForKey(t.stored, p[i]).value.member.name) in before;
        }
      }
    }
  }

  /** With a written-out key enum in a type that is also Encodable, skipped
      `let`s are not reported. */
  lemma {:induction false} ExplicitKeysEncodableSilent(t: Nominal, keys: seq<string>, allKeys: seq<string>, implicitKeys: bool)
    requires KeysResolve(t.stored, keys) && !implicitKeys && t.conformsToEncodable
    ensures DecodeReads(t, keys, allKeys, implicitKeys).diags == []
  {
    if keys != [] {
      ExplicitKeysEncodableSilent(t, keys[..|keys| - 1], allKeys, implicitKeys);
    }
  }

  /** With no keys the body is only the delegation to the superclass; with
      keys the container is bound first, the reads mirror the encoder's
      writes when no `let` is skipped, and a class with a superclass ends
      with super.init(from:) exactly when the superclass is Decodable, and
      otherwise with super.init(), tried exactly when that initializer throws. */
  lemma DecodeBodyShape(t: Nominal, decls: seq<NamedDecl>)
    requires DecodeReady(t, decls)
    ensures CodingKeysCases(decls) == [] ==> DecodeBody(t, decls) == DecodeResult(SuperDecodeTail(t), [])
    ensures CodingKeysCases(decls) != [] && NoSkippedLets(t.stored, CodingKeysCases(decls)) ==>
      DecodeBody(t, decls).body == [BindContainer] + AsReads(EncodeWrites(t.stored, CodingKeysCases(decls))) + SuperDecodeTail(t)
    ensures t.kind == Class && t.superclass.Some? ==>
      (DecodeBody(t, decls).body[|DecodeBody(t, decls).body| - 1] == SuperInitFromDecoder <==> t.superclass.value.decodable) &&
      (!t.superclass.value.decodable ==>
        DecodeBody(t, decls).body[|DecodeBody(t, decls).body| - 1] == SuperInit(t.superclass.value.plainInit[0].throws))
    ensures !(t.kind == Class && t.superclass.Some?) ==>
      SuperInitFromDecoder !in DecodeBody(t, decls).body && forall b :: SuperInit(b) !in DecodeBody(t, decls).body
  {
    var ck := LookupEvaluated(decls, CodingKeysName).value;
    if ck.cases != [] {
      SkippedLetsNotRead(t, ck.cases, ck.cases, ck.implicit);
      if NoSkippedLets(t.stored, ck.cases) {
        DecodeReadsMirrorWrites(t, ck.cases, ck.cases, ck.implicit);
      }
    }
  }

  /** deriveBodyDecodable_init. */
  method DeriveBodyDecodable(t: Nominal, decls: seq<NamedDecl>) returns (body: seq<Stmt>, diags: seq<Diag>)
    requires DecodeReady(t, decls)
    ensures DecodeResult(body, diags) == DecodeBody(t, decls)
  {
    var ck := LookupEvaluated(decls, CodingKeysName).value;
    var keys := ck.cases;
    body, diags := [], [];
    if keys != [] {
      var readStmts: seq<Stmt> := [];
      for i := 0 to |keys|
        invariant DecodeResult(readStmts, diags) == DecodeReads(t, keys[..i], keys, ck.implicit)
      {
        assert keys[..i + 1][..i] == keys[..i];
        var found := LookupVarForKey(t.stored, keys[i]).value;
        var m := found.member;
        if m.isLet && m.parentInitialized {
          var keyExists := m.name in keys;
          if !ck.implicit && (t.conformsToEncodable || !keyExists) {
            continue;
          }
          diags := diags + [PropertyWillNotBeDecoded(m.name)];
          if ck.implicit {
            diags := diags + [InitOrCodingKeysImplicit(m.name, t.conformsToEncodable)];
          } else {
            diags := diags + [InitOrCodingKeysExplicit(m.name)];
          }
          continue;
        }
        readStmts := readStmts + [Read(m.name, keys[i], found.ifPresent)];
      }
      assert keys[..|keys|] == keys;
      body := [BindContainer] + readStmts;
    }
    if t.kind == Class && t.superclass.Some? {
      var sc := t.superclass.value;
      if sc.decodable {
        body := body + [SuperInitFromDecoder];
      } else {
        var superInit := sc.plainInit[0];
        body := body + [SuperInit(superInit.throws)];
      }
    }
  }

  // ---- Enums ----

  /** Which reading of an optional named payload parameter the decoder uses:
      `AsWritten` reads every keyed parameter with plain decode, as lines
      1566-1570 of DerivedConformanceCodable.cpp do; `Corrected` reads an
      optional one with decodeIfPresent, mirroring the encoder. */
  datatype Reading = AsWritten | Corrected

  /** The positional reads of an unnamed payload. */
  function UnkeyedReads(n: nat): seq<Arg> {
    if n == 0 then [] else UnkeyedReads(n - 1) + [UnkeyedRead(n - 1)]
  }

  /** The constructor arguments of a named payload: a parameter with a key is
      read (with decodeIfPresent only in the corrected reading, when it is
      optional); one without a key takes its default argument. */
  function KeyedReadArgs(ps: seq<Member>, nestedKeys: seq<string>, reading: Reading): seq<Arg> {
    if ps == [] then []
    else
      var p := ps[|ps| - 1];
      KeyedReadArgs(ps[..|ps| - 1], nestedKeys, reading) +
        [if p.name in nestedKeys then NestedRead(p.name, reading == Corrected && p.isOptional) else DefaultArgument(p.name)]
  }

  /** The reads among constructor arguments, seen as the writes they undo. */
  function ArgsAsWrites(args: seq<Arg>): seq<PayloadStmt> {
    if args == [] then []
    else
      var a := args[|args| - 1];
      ArgsAsWrites(args[..|args| - 1]) + (if a.NestedRead? then [NestedWrite(a.param, a.ifPresent)] else [])
  }

  /** In the corrected reading the keyed reads undo the encoder's writes one
      for one: same parameters, same order, and decodeIfPresent exactly where
      encodeIfPresent was used. */
  lemma {:induction false} KeyedReadsMirrorWrites(ps: seq<Member>, nestedKeys: seq<string>)
    ensures ArgsAsWrites(KeyedReadArgs(ps, nestedKeys, Corrected)) == NestedWrites(ps, nestedKeys)
    ensures |KeyedReadArgs(ps, nestedKeys, Corrected)| == |ps|
  {
    if ps != [] {
      var p := ps[..|ps| - 1];
      KeyedReadsMirrorWrites(p, nestedKeys);
      var args := KeyedReadArgs(ps, nestedKeys, Corrected);
      assert args[..|args| - 1] == KeyedReadArgs(p, nestedKeys, Corrected);
    }
  }

  /** As the source builds them, the keyed reads undo the encoder's writes
      exactly when no parameter with a key is optional. */
  lemma {:induction false} AsWrittenMirrorsIff(ps: seq<Member>, nestedKeys: seq<string>)
    ensures ArgsAsWrites(KeyedReadArgs(ps, nestedKeys, AsWritten)) == NestedWrites(ps, nestedKeys) <==>
      forall i :: 0 <= i < |ps| && ps[i].name in nestedKeys ==> !ps[i].isOptional
  {
    if ps != [] {
      var p := ps[..|ps| - 1];
      var last := ps[|ps| - 1];
      AsWrittenMirrorsIff(p, nestedKeys);
      assert forall i :: 0 <= i < |p| ==> p[i] == ps[i];
      var args := KeyedReadArgs(ps, nestedKeys, AsWritten);
      assert args[..|args| - 1] == KeyedReadArgs(p, nestedKeys, AsWritten);
      var lhs := ArgsAsWrites(KeyedReadArgs(p, nestedKeys, AsWritten));
      var rhs := NestedWrites(p, nestedKeys);
      if last.name in nestedKeys {
        assert ArgsAsWrites(args) == lhs + [NestedWrite(last.name, false)];
        assert NestedWrites(ps, nestedKeys) == rhs + [NestedWrite(last.name, last.isOptional)];
        if ArgsAsWrites(args) == NestedWrites(ps, nestedKeys) {
          assert lhs == ArgsAsWrites(args)[..|lhs|];
          assert rhs == NestedWrites(ps, nestedKeys)[..|rhs|];
        }
      } else {
        assert ArgsAsWrites(args) == lhs;
        assert NestedWrites(ps, nestedKeys) == rhs;
      }
    }
  }

  /** The discrepancy on one input: `case c(x: Int?)` with key `x`. The
      encoder writes `x` with encodeIfPresent, so a nil payload leaves no
      key, but the decoder as written reads it with plain decode, which
      requires the key. */
  lemma OptionalPayloadNotReadBack()
    ensures var x := Member("x", None, true, true, true, false, false, false, true, false);
      && NestedWrites([x], ["x"]) == [NestedWrite("x", true)]
      && KeyedReadArgs([x], ["x"], AsWritten) == [NestedRead("x", false)]
      && ArgsAsWrites(KeyedReadArgs([x], ["x"], AsWritten)) != NestedWrites([x], ["x"])
      && ArgsAsWrites(KeyedReadArgs([x], ["x"], Corrected)) == NestedWrites([x], ["x"])
  {
    var x := Member("x", None, true, true, true, false, false, false, true, false);
    assert [x][..0] == [];
    AsWrittenMirrorsIff([x], ["x"]);
    KeyedReadsMirrorWrites([x], ["x"]);
  }

  /** Every parameter without a key has a default argument, as the decoder
      requires; the case's key enum exists for a named payload. */
  predicate DecodeArmReady(c: EnumCase, decls: seq<NamedDecl>) {
    c.hasAssociatedValues && !HasAnyUnnamedParameters(c) ==>
      && LookupEvaluated(decls, NestedKeysName(c.name)).Some?
      && forall i :: 0 <= i < |c.params| && c.params[i].name !in LookupEvaluated(decls, NestedKeysName(c.name)).value.cases ==>
        c.params[i].hasDefaultExpr
  }

  /** The arm for one case that has a key: a case without payload is
      assigned directly; an unnamed payload is read positionally from a
      nested unkeyed container; a named one from a container keyed by
      CodingKeys_<case>. */
  function DecodeArmFor(c: EnumCase, decls: seq<NamedDecl>, reading: Reading): DecodeArm
    requires DecodeArmReady(c, decls)
  {
    if !c.hasAssociatedValues then KeyArm(c.name, [AssignCase(c.name, [])])
    else if HasAnyUnnamedParameters(c) then
      KeyArm(c.name, [BindNestedUnkeyed(c.name), AssignCase(c.name, UnkeyedReads(|c.params|))])
    else
      var nested := NestedKeysName(c.name);
      KeyArm(c.name, [BindNestedKeyed(c.name, nested),
        AssignCase(c.name, KeyedReadArgs(c.params, LookupEvaluated(decls, nested).value.cases, reading))])
  }

  function DecodeArms(cases: seq<EnumCase>, decls: seq<NamedDecl>, topKeys: seq<string>, reading: Reading): seq<DecodeArm>
    requires forall i :: 0 <= i < |cases| && cases[i].name in topKeys ==> DecodeArmReady(cases[i], decls)
  {
    if cases == [] then []
    else
      var c := cases[|cases| - 1];
      DecodeArms(cases[..|cases| - 1], decls, topKeys, reading) +
        (if c.name in topKeys then [DecodeArmFor(c, decls, reading)] else [])
  }

  predicate EnumDecodeReady(t: Nominal, decls: seq<NamedDecl>) {
    && LookupEvaluated(decls, CodingKeysName).Some?
    && forall i :: 0 <= i < |t.cases| && t.cases[i].name in CodingKeysCases(decls) ==> DecodeArmReady(t.cases[i], decls)
  }

  /** deriveBodyDecodable_enum_init, in the given reading: nothing at all
      when CodingKeys has no case, else a switch over the first key present
      ending in a trapping default arm. */
  function EnumDecodeBody(t: Nominal, decls: seq<NamedDecl>, reading: Reading): seq<Stmt>
    requires EnumDecodeReady(t, decls)
  {
    var topKeys := CodingKeysCases(decls);
    if topKeys == [] then []
    else [BindContainer, SwitchOnFirstKey(DecodeArms(t.cases, decls, topKeys, reading) + [DefaultFatalError])]
  }

  /** The decoder's key arms correspond one to one, in order, to the
      encoder's case arms: arm i is selected by the key the encoder's arm i
      writes under. */
  lemma {:induction false} ArmsMirror(cases: seq<EnumCase>, decls: seq<NamedDecl>, topKeys: seq<string>, reading: Reading)
    requires forall i :: 0 <= i < |cases| && cases[i].name in topKeys ==> ArmReady(cases[i], decls)
    requires forall i :: 0 <= i < |cases| && cases[i].name in topKeys ==> DecodeArmReady(cases[i], decls)
    ensures |DecodeArms(cases, decls, topKeys, reading)| == |EncodeArms(cases, decls, topKeys)|
    ensures forall i :: 0 <= i < |DecodeArms(cases, decls, topKeys, reading)| ==>
      DecodeArms(cases, decls, topKeys, reading)[i].KeyArm? &&
      DecodeArms(cases, decls, topKeys, reading)[i].key == EncodeArms(cases, decls, topKeys)[i].caseName
  {
    if cases != [] {
      ArmsMirror(cases[..|cases| - 1], decls, topKeys, reading);
    }
  }

  /** Nothing is generated when CodingKeys has no case; otherwise the
      switch ends in the trapping default arm, and the arms before it are
      selected, in order, by the keys the encoder's arms write under. */
  lemma EnumDecodeBodyShape(t: Nominal, decls: seq<NamedDecl>, reading: Reading)
    requires EnumDecodeReady(t, decls) && EnumEncodeReady(t, decls)
    ensures EnumDecodeBody(t, decls, reading) == [] <==> CodingKeysCases(decls) == []
    ensures CodingKeysCases(decls) != [] ==>
      var dec := EnumDecodeBody(t, decls, reading);
      var enc := EnumEncodeBody(t, decls)[1].caseArms;
      && |dec| == 2 && dec[0] == BindContainer && dec[1].SwitchOnFirstKey?
      && |dec[1].keyArms| == |enc| + 1 && dec[1].keyArms[|enc|] == DefaultFatalError
      && forall i :: 0 <= i < |enc| ==> dec[1].keyArms[i].KeyArm? && dec[1].keyArms[i].key == enc[i].caseName
  {
    ArmsMirror(t.cases, decls, CodingKeysCases(decls), reading);
  }

  /** Within a named case's arms, the decoder's reads undo the encoder's
      writes in the corrected reading, and in the reading as written exactly
      when no keyed parameter is optional; within an unnamed one, both visit
      every payload position in order. */
  lemma ArmPayloadsMirror(c: EnumCase, decls: seq<NamedDecl>, reading: Reading)
    requires ArmReady(c, decls) && DecodeArmReady(c, decls)
    requires c.hasAssociatedValues
    ensures var enc := EncodeArmFor(c, decls).body;
      var dec := DecodeArmFor(c, decls, reading).body;
      && |dec| == 2 && dec[0] == enc[0] && dec[1].AssignCase?
      && (!HasAnyUnnamedParameters(c) ==>
        (ArgsAsWrites(dec[1].args) == enc[1..] <==>
          reading == Corrected ||
          forall i :: 0 <= i < |c.params| && c.params[i].name in LookupEvaluated(decls, NestedKeysName(c.name)).value.cases ==>
            !c.params[i].isOptional))
      && (HasAnyUnnamedParameters(c) ==>
        |dec[1].args| == |enc| - 1 == |c.params| &&
        forall i :: 0 <= i < |c.params| ==> dec[1].args[i] == UnkeyedRead(i) && enc[i + 1] == UnkeyedWrite(i))
  {
    if HasAnyUnnamedParameters(c) {
      UnkeyedWritesAll(|c.params|);
      UnkeyedReadsAll(|c.params|);
    } else {
      var keys := LookupEvaluated(decls, NestedKeysName(c.name)).value.cases;
      assert EncodeArmFor(c, decls).body[1..] == NestedWrites(c.params, keys);
      assert DecodeArmFor(c, decls, reading).body[1].args == KeyedReadArgs(c.params, keys, reading);
      if reading == Corrected {
        KeyedReadsMirrorWrites(c.params, keys);
      } else {
        AsWrittenMirrorsIff(c.params, keys);
      }
    }
  }

  /** Every payload position is read, in order. */
  lemma {:induction false} UnkeyedReadsAll(n: nat)
    ensures |UnkeyedReads(n)| == n && forall i :: 0 <= i < n ==> UnkeyedReads(n)[i] == UnkeyedRead(i)
  {
    if n > 0 {
      UnkeyedReadsAll(n - 1);
    }
  }

  /** The named payload's constructor arguments. */
  method KeyedReadArgsOf(ps: seq<Member>, nestedKeys: seq<string>, reading: Reading) returns (args: seq<Arg>)
    ensures args == KeyedReadArgs(ps, nestedKeys, reading)
  {
    args := [];
    for j := 0 to |ps|
      invariant args == KeyedReadArgs(ps[..j], nestedKeys, reading)
    {
      assert ps[..j + 1][..j] == ps[..j];
      var p := ps[j];
      if p.name !in nestedKeys {
        args := args + [DefaultArgument(p.name)];
        continue;
      }
      if reading == Corrected && p.isOptional {
        args := args + [NestedRead(p.name, true)];
      } else {
        args := args + [NestedRead(p.name, false)];
      }
    }
    assert ps[..|ps|] == ps;
  }

  /** deriveBodyDecodable_enum_init, in the given reading of optional named
      payload parameters. */
  method DeriveBodyDecodableEnum(t: Nominal, decls: seq<NamedDecl>, reading: Reading) returns (body: seq<Stmt>)
    requires EnumDecodeReady(t, decls)
    ensures body == EnumDecodeBody(t, decls, reading)
  {
    var topKeys := LookupEvaluated(decls, CodingKeysName).value.cases;
    if topKeys == [] {
      return [];
    }
    var cases := t.cases;
    var arms: seq<DecodeArm> := [];
    for i := 0 to |cases|
      invariant arms == DecodeArms(cases[..i], decls, topKeys, reading)
    {
      assert cases[..i + 1][..i] == cases[..i];
      var c := cases[i];
      if c.name !in topKeys {
        continue;
      }
      var stmts: seq<PayloadStmt>;
      if !c.hasAssociatedValues {
        stmts := [AssignCase(c.name, [])];
      } else if HasAnyUnnamedParameters(c) {
        var args: seq<Arg> := [];
        for k := 0 to |c.params|
          invariant args == UnkeyedReads(k)
        {
          args := args + [UnkeyedRead(k)];
        }
        stmts := [BindNestedUnkeyed(c.name), AssignCase(c.name, args)];
      } else {
        var nested := NestedKeysName(c.name);
        var args := KeyedReadArgsOf(c.params, LookupEvaluated(decls, nested).value.cases, reading);
        stmts := [BindNestedKeyed(c.name, nested), AssignCase(c.name, args)];
      }
      arms := arms + [KeyArm(c.name, stmts)];
    }
    assert cases[..|cases|] == cases;
    body := [BindContainer, SwitchOnFirstKey(arms + [DefaultFatalError])];
  }
}
