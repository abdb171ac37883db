/** Validation of a user-written coding-key enum against the members it
    should cover: the stored properties of a struct or class, or the payload
    parameters of one enum case. The scan over the key cases removes each
    matched, conforming member from a pending name-to-member map and records
    every problem instead of stopping at the first; members still pending
    afterwards are then judged by a rule that depends on the protocol. */
module KeyValidation {
  import opened CodableTypes

  /** Which members are validated: the leftover rule differs between them. */
  datatype Site = StoredProperties | CasePayload

  /** Whether a member without a key can still be initialized by init(from:). */
  predicate MayBeLeftOut(m: Member, site: Site) {
    match site
    case StoredProperties => m.defaultInitializable || m.parentInitialized
    case CasePayload => m.hasDefaultExpr
  }

  /** The pending map the scan starts from: user-accessible members keyed by
      coding name; a later member with the same key replaces the earlier one. */
  function Inventory(members: seq<Member>): map<string, Member>
  {
    if members == [] then map[]
    else
      var m := members[|members| - 1];
      var inv := Inventory(members[..|members| - 1]);
      if m.userAccessible then inv[CodingName(m) := m] else inv
  }

  /** The keys of Inventory(members) in the order they were first inserted,
      which is the order the leftover members are visited in. */
  function InventoryOrder(members: seq<Member>): seq<string>
  {
    if members == [] then []
    else
      var m := members[|members| - 1];
      var prefix := members[..|members| - 1];
      if m.userAccessible && CodingName(m) !in Inventory(prefix) then InventoryOrder(prefix) + [CodingName(m)]
      else InventoryOrder(prefix)
  }

  /** Only user-accessible members enter the pending map, each under its own
      coding name; the insertion order lists every key exactly once. */
  lemma {:induction false} InventoryFacts(members: seq<Member>)
    ensures forall n :: n in Inventory(members) <==>
      exists i :: 0 <= i < |members| && members[i].userAccessible && CodingName(members[i]) == n
    ensures forall n :: n in Inventory(members) ==>
      Inventory(members)[n].userAccessible && CodingName(Inventory(members)[n]) == n && Inventory(members)[n] in members
    ensures forall n :: n in InventoryOrder(members) <==> n in Inventory(members)
    ensures forall i, j :: 0 <= i < j < |InventoryOrder(members)| ==> InventoryOrder(members)[i] != InventoryOrder(members)[j]
  {
    if members != [] {
      var prefix := members[..|members| - 1];
      InventoryFacts(prefix);
      assert forall i :: 0 <= i < |prefix| ==> prefix[i] == members[i];
      assert members == prefix + [members[|members| - 1]];
    }
  }

  /** The pending map and the diagnostics so far. */
  datatype ScanState = ScanState(pending: map<string, Member>, diags: seq<Diag>)

  /** One key case: an unknown name is extraneous; a known member whose type
      does not conform is reported and stays pending; otherwise it is covered. */
  function ScanStep(s: ScanState, key: string, proto: Protocol): ScanState {
    if key !in s.pending then ScanState(s.pending, s.diags + [ExtraneousCodingKey(key)])
    else if !ConformsTo(s.pending[key], proto) then
      ScanState(s.pending, s.diags + [NonConformingProperty(s.pending[key].name)])
    else ScanState(s.pending - {key}, s.diags)
  }

  function Scan(keys: seq<string>, inv: map<string, Member>, proto: Protocol): ScanState
  {
    if keys == [] then ScanState(inv, [])
    else ScanStep(Scan(keys[..|keys| - 1], inv, proto), keys[|keys| - 1], proto)
  }

  /** The leftover rule for Decodable: every pending member, visited in
      insertion order, that cannot be left out is reported. */
  function LeftoverDiags(order: seq<string>, pending: map<string, Member>, site: Site): seq<Diag>
  {
    if order == [] then []
    else
      var n := order[|order| - 1];
      LeftoverDiags(order[..|order| - 1], pending, site) +
        (if n in pending && !MayBeLeftOut(pending[n], site) then [NonDecodedProperty(n)] else [])
  }

  datatype Verdict = Verdict(valid: bool, diags: seq<Diag>)

  /** The validators' result: a failed scan returns before the leftover rule. */
  function Validation(keys: seq<string>, members: seq<Member>, proto: Protocol, site: Site): Verdict {
    var s := Scan(keys, Inventory(members), proto);
    if s.diags != [] then Verdict(false, s.diags)
    else if proto == Decodable then
      var left := LeftoverDiags(InventoryOrder(members), s.pending, site);
      Verdict(left == [], left)
    else Verdict(true, [])
  }

  /** The keys are distinct and each names a pending member that conforms. */
  predicate KeysCovered(keys: seq<string>, inv: map<string, Member>, proto: Protocol) {
    && (forall i, j :: 0 <= i < j < |keys| ==> keys[i] != keys[j])
    && (forall i :: 0 <= i < |keys| ==> keys[i] in inv && ConformsTo(inv[keys[i]], proto))
  }

  /** The independent statement of what a valid key enum is: a one-to-one
      match onto conforming accessible members, and, for Decodable, every
      member without a key may be left out. */
  predicate KeysMatch(keys: seq<string>, members: seq<Member>, proto: Protocol, site: Site) {
    var inv := Inventory(members);
    && KeysCovered(keys, inv, proto)
    && (proto == Decodable ==> forall n :: n in inv && n !in keys ==> MayBeLeftOut(inv[n], site))
  }

  /** The scan only removes members from the pending map, and never a
      member whose type does not conform. */
  lemma {:induction false} ScanPending(keys: seq<string>, inv: map<string, Member>, proto: Protocol)
    ensures forall n :: n in Scan(keys, inv, proto).pending ==> n in inv && Scan(keys, inv, proto).pending[n] == inv[n]
    ensures forall n :: n in inv && !ConformsTo(inv[n], proto) ==> n in Scan(keys, inv, proto).pending
  {
    if keys != [] {
      ScanPending(keys[..|keys| - 1], inv, proto);
    }
  }

  /** Every key naming no accessible member, and every key whose member does
      not conform, is reported. */
  lemma {:induction false} ScanReports(keys: seq<string>, inv: map<string, Member>, proto: Protocol)
    ensures forall k :: k in keys && k !in inv ==> ExtraneousCodingKey(k) in Scan(keys, inv, proto).diags
    ensures forall k :: k in keys && k in inv && !ConformsTo(inv[k], proto) ==>
      NonConformingProperty(inv[k].name) in Scan(keys, inv, proto).diags
  {
    if keys != [] {
      var p := keys[..|keys| - 1];
      var k := keys[|keys| - 1];
      assert keys == p + [k];
      ScanReports(p, inv, proto);
      ScanPending(p, inv, proto);
      var s0 := Scan(p, inv, proto);
      assert Scan(keys, inv, proto) == ScanStep(s0, k, proto);
      assert s0.diags <= Scan(keys, inv, proto).diags;
    }
  }

  /** Extending the keys by one keeps them covered exactly when the new key
      is fresh and names a conforming member. */
  lemma CoveredSnoc(p: seq<string>, k: string, inv: map<string, Member>, proto: Protocol)
    ensures KeysCovered(p + [k], inv, proto) <==>
      KeysCovered(p, inv, proto) && k in inv && k !in p && ConformsTo(inv[k], proto)
  {
    var keys := p + [k];
    assert forall i :: 0 <= i < |p| ==> keys[i] == p[i];
    assert keys[|p|] == k;
    if k in p {
      var i :| 0 <= i < |p| && p[i] == k;
      assert keys[i] == keys[|p|];
    }
  }

  /** The scan is clean exactly when the keys cover distinct conforming
      members, and then exactly those members are no longer pending. */
  lemma {:induction false} ScanClean(keys: seq<string>, inv: map<string, Member>, proto: Protocol)
    ensures Scan(keys, inv, proto).diags == [] <==> KeysCovered(keys, inv, proto)
    ensures Scan(keys, inv, proto).diags == [] ==>
      Scan(keys, inv, proto).pending == inv - (set k | k in keys)
  {
    if keys == [] {
      assert inv - (set k | k in keys) == inv;
    } else {
      var p := keys[..|keys| - 1];
      var k := keys[|keys| - 1];
      assert keys == p + [k];
      ScanClean(p, inv, proto);
      CoveredSnoc(p, k, inv, proto);
      var s0 := Scan(p, inv, proto);
      var s := Scan(keys, inv, proto);
      assert s == ScanStep(s0, k, proto);
      if s0.diags == [] {
        assert (k in s0.pending) == (k in inv && k !in p);
        if s.diags == [] {
          assert (set x | x in keys) == (set x | x in p) + {k};
        }
      } else {
        assert s0.diags <= s.diags;
      }
    }
  }

  /** The leftover rule reports every pending member that cannot be left
      out, and reports nothing exactly when there is none. */
  lemma {:induction false} LeftoverFacts(order: seq<string>, pending: map<string, Member>, site: Site)
    ensures forall n :: n in order && n in pending && !MayBeLeftOut(pending[n], site) ==>
      NonDecodedProperty(n) in LeftoverDiags(order, pending, site)
    ensures LeftoverDiags(order, pending, site) == [] <==>
      forall n :: n in order && n in pending ==> MayBeLeftOut(pending[n], site)
  {
    if order != [] {
      var p := order[..|order| - 1];
      assert order == p + [order[|order| - 1]];
      LeftoverFacts(p, pending, site);
    }
  }

  /** The validators' verdict means KeysMatch, fails exactly when something
      was reported, and reports every key with no accessible member and
      every key whose member does not conform. */
  lemma ValidationMeaning(keys: seq<string>, members: seq<Member>, proto: Protocol, site: Site)
    ensures Validation(keys, members, proto, site).valid <==> KeysMatch(keys, members, proto, site)
    ensures Validation(keys, members, proto, site).valid <==> Validation(keys, members, proto, site).diags == []
    ensures forall k :: k in keys && k !in Inventory(members) ==>
      ExtraneousCodingKey(k) in Validation(keys, members, proto, site).diags
    ensures forall k :: k in keys && k in Inventory(members) && !ConformsTo(Inventory(members)[k], proto) ==>
      NonConformingProperty(Inventory(members)[k].name) in Validation(keys, members, proto, site).diags
  {
    var inv := Inventory(members);
    ScanReports(keys, inv, proto);
    ScanClean(keys, inv, proto);
    var s := Scan(keys, inv, proto);
    if s.diags == [] && proto == Decodable {
      InventoryFacts(members);
      LeftoverFacts(InventoryOrder(members), s.pending, site);
    }
  }

  /** The first loop of validateCodingKeysEnum: the accessible members by
      coding name, and those names in insertion order. */
  method CollectProperties(members: seq<Member>) returns (properties: map<string, Member>, order: seq<string>)
    ensures properties == Inventory(members) && order == InventoryOrder(members)
  {
    properties, order := map[], [];
    for i := 0 to |members|
      invariant properties == Inventory(members[..i])
      invariant order == InventoryOrder(members[..i])
    {
      assert members[..i + 1][..i] == members[..i];
      var m := members[i];
      if !m.userAccessible {
        continue;
      }
      var name := CodingName(m);
      if name !in properties {
        order := order + [name];
      }
      properties := properties[name := m];
    }
    assert members[..|members|] == members;
  }

  /** validateCodingKeysEnum / validateCaseCodingKeysEnum. */
  method ValidateKeys(keys: seq<string>, members: seq<Member>, proto: Protocol, site: Site)
    returns (valid: bool, diags: seq<Diag>)
    ensures Verdict(valid, diags) == Validation(keys, members, proto, site)
    ensures valid <==> KeysMatch(keys, members, proto, site)
    ensures valid <==> diags == []
    ensures forall k :: k in keys && k !in Inventory(members) ==> ExtraneousCodingKey(k) in diags
  {
    var properties, order := CollectProperties(members);
    valid := true;
    diags := [];
    for i := 0 to |keys|
      invariant ScanState(properties, diags) == Scan(keys[..i], Inventory(members), proto)
      invariant valid <==> diags == []
    {
      assert keys[..i + 1][..i] == keys[..i];
      var key := keys[i];
      if key !in properties {
        diags := diags + [ExtraneousCodingKey(key)];
        valid := false;
        continue;
      }
      var m := properties[key];
      if !ConformsTo(m, proto) {
        diags := diags + [NonConformingProperty(m.name)];
        valid := false;
      } else {
        properties := properties - {key};
      }
    }
    assert keys[..|keys|] == keys;

    // Only a clean scan of a Decodable type goes on to the leftovers.
    if valid && proto == Decodable {
      for i := 0 to |order|
        invariant diags == LeftoverDiags(order[..i], properties, site)
        invariant valid <==> diags == []
      {
        assert order[..i + 1][..i] == order[..i];
        var name := order[i];
        if name in properties && !MayBeLeftOut(properties[name], site) {
          valid := false;
          diags := diags + [NonDecodedProperty(name)];
        }
      }
      assert order[..|order|] == order;
    }
    assert Verdict(valid, diags) == Validation(keys, members, proto, site);
    ValidationMeaning(keys, members, proto, site);
  }
}
