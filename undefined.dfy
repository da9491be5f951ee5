/** collect_undefined_objs: every srcaddr/dstaddr entry of every policy is
    expanded through the address groups, every service entry through the
    service groups, and the leaves whose lower-cased key is neither a
    defined atomic name nor a wildcard are reported. Both programs carry
    the same routine. */
module UndefinedObjects {
  import opened Text
  import opened Registry
  import opened Expansion

  /** A policy field as the policy parser leaves it: one string or a list
      of strings. */
  datatype Value = Str(s: string) | Strs(items: seq<string>)

  type Policy = map<string, Value>

  /** The entries the source iterates for one field: a missing or empty
      field is skipped (`if not val: continue`), a scalar is a one-element
      list. */
  function Entries(pol: Policy, field: string): seq<string> {
    if field !in pol then []
    else match pol[field]
      case Str(s) => if s == "" then [] else [s]
      case Strs(items) => items
  }

  /** The fields each family is read from: ('srcaddr', 'dstaddr') for
      addresses, ('service',) for services. */
  const AddrFields: seq<string> := ["srcaddr", "dstaddr"]
  const SvcFields: seq<string> := ["service"]

  /** One policy's entries over the given fields, in loop order. */
  function FieldEntries(pol: Policy, fields: seq<string>): seq<string> {
    if fields == [] then []
    else FieldEntries(pol, fields[..|fields| - 1]) + Entries(pol, fields[|fields| - 1])
  }

  /** All policies' entries over the given fields, in loop order. */
  function EntriesOf(policies: seq<Policy>, fields: seq<string>): seq<string> {
    if policies == [] then []
    else EntriesOf(policies[..|policies| - 1], fields) + FieldEntries(policies[|policies| - 1], fields)
  }

  /** all_address_names / all_service_names: the keys of the atomic
      objects. */
  function NameKeys<R>(dict: map<string, R>): set<string> {
    set k | k in dict :: Key(k)
  }

  /** The filter applied to each leaf: its key is not a defined name and
      not a wildcard. */
  predicate Reported(m: string, names: set<string>) {
    Key(m) !in names && Key(m) != "any" && Key(m) != "all"
  }

  function ReportedOf(leaves: set<string>, names: set<string>): set<string> {
    set m | m in leaves && Reported(m, names)
  }

  /** Specification: the reported leaves of the fresh expansions of the
      entries. */
  function UndefinedLeaves(entries: seq<string>, g: Table<GroupRecord>, names: set<string>): set<string> {
    if entries == [] then {}
    else UndefinedLeaves(entries[..|entries| - 1], g, names) + ReportedOf(ExpandTop(entries[|entries| - 1], g), names)
  }

  /** The innermost loop: adds the reported leaves of one expansion. */
  method AddReported(leaves: set<string>, names: set<string>, acc: set<string>) returns (out: set<string>)
    ensures out == acc + ReportedOf(leaves, names)
  {
    out := acc;
    var rest := leaves;
    while rest != {}
      invariant rest <= leaves
      invariant out == acc + ReportedOf(leaves - rest, names)
      decreases |rest|
    {
      var m :| m in rest;
      var k := Key(m);
      ReportedOfStep(leaves, rest, m, names);
      if k !in names && k != "any" && k != "all" {
        out := out + {m};
      }
      rest := rest - {m};
    }
    assert leaves - rest == leaves;
  }

  /** The innermost loop's step: taking m out of the remaining leaves adds
      m to the reported ones exactly when m is reported. */
  lemma ReportedOfStep(leaves: set<string>, rest: set<string>, m: string, names: set<string>)
    requires m in rest && rest <= leaves
    ensures ReportedOf(leaves - (rest - {m}), names)
         == ReportedOf(leaves - rest, names) + (if Reported(m, names) then {m} else {})
  {
    assert leaves - (rest - {m}) == (leaves - rest) + {m};
  }

  /** The entry loop's step: one more entry adds its expansion's reported
      leaves. */
  lemma UndefinedLeavesStep(vals: seq<string>, j: nat, g: Table<GroupRecord>, names: set<string>)
    requires j < |vals|
    ensures UndefinedLeaves(vals[..j + 1], g, names)
         == UndefinedLeaves(vals[..j], g, names) + ReportedOf(ExpandTop(vals[j], g), names)
  {
    assert vals[..j + 1][..j] == vals[..j];
  }

  /** The loop over one field's entries. */
  method CollectField(pol: Policy, field: string, g: Table<GroupRecord>, names: set<string>, acc: set<string>)
    returns (out: set<string>)
    ensures out == acc + UndefinedLeaves(Entries(pol, field), g, names)
  {
    out := acc;
    if field !in pol {
      return;
    }
    var vals: seq<string>;
    match pol[field] {
      case Str(s) =>
        if s == "" {
          return;
        }
        vals := [s];
      case Strs(items) =>
        if items == [] {
          return;
        }
        vals := items;
    }
    assert vals == Entries(pol, field);
    var j := 0;
    while j < |vals|
      invariant 0 <= j <= |vals|
      invariant out == acc + UndefinedLeaves(vals[..j], g, names)
    {
      var leaves, _ := GetAllMembers(vals[j], g, {});
      out := AddReported(leaves, names, out);
      UndefinedLeavesStep(vals, j, g, names);
      j := j + 1;
    }
    assert vals[..j] == vals;
  }

  lemma {:induction false} UndefinedLeavesConcat(a: seq<string>, b: seq<string>, g: Table<GroupRecord>, names: set<string>)
    ensures UndefinedLeaves(a + b, g, names) == UndefinedLeaves(a, g, names) + UndefinedLeaves(b, g, names)
    decreases |b|
  {
    if b == [] {
      assert a + b == a;
    } else {
      var b' := b[..|b| - 1];
      assert (a + b)[..|a + b| - 1] == a + b';
      assert (a + b)[|a + b| - 1] == b[|b| - 1];
      UndefinedLeavesConcat(a, b', g, names);
    }
  }

  /** The `for key in fields` loop of one policy. */
  method CollectFields(pol: Policy, fields: seq<string>, g: Table<GroupRecord>, names: set<string>, acc: set<string>)
    returns (out: set<string>)
    ensures out == acc + UndefinedLeaves(FieldEntries(pol, fields), g, names)
  {
    out := acc;
    var j := 0;
    while j < |fields|
      invariant 0 <= j <= |fields|
      invariant out == acc + UndefinedLeaves(FieldEntries(pol, fields[..j]), g, names)
    {
      out := CollectField(pol, fields[j], g, names, out);
      FieldStep(pol, fields, j, g, names);
      j := j + 1;
    }
    assert fields[..j] == fields;
  }

  /** The field loop's step: one more field adds the leaves of its own
      entries. */
  lemma FieldStep(pol: Policy, fields: seq<string>, j: nat, g: Table<GroupRecord>, names: set<string>)
    requires j < |fields|
    ensures UndefinedLeaves(FieldEntries(pol, fields[..j + 1]), g, names)
         == UndefinedLeaves(FieldEntries(pol, fields[..j]), g, names) + UndefinedLeaves(Entries(pol, fields[j]), g, names)
  {
    assert fields[..j + 1][..j] == fields[..j];
    UndefinedLeavesConcat(FieldEntries(pol, fields[..j]), Entries(pol, fields[j]), g, names);
  }

  /** collect_undefined_objs(policies, ...): the undefined addresses and
      the undefined services, in the source's loop order. */
  method CollectUndefinedObjs(policies: seq<Policy>, reg: Registry)
    returns (undefinedAddr: set<string>, undefinedSvc: set<string>)
    ensures undefinedAddr == UndefinedLeaves(EntriesOf(policies, AddrFields), reg.addrGroups, NameKeys(reg.addresses.dict))
    ensures undefinedSvc == UndefinedLeaves(EntriesOf(policies, SvcFields), reg.svcGroups, NameKeys(reg.services.dict))
  {
    var allAddressNames := NameKeys(reg.addresses.dict);
    var allServiceNames := NameKeys(reg.services.dict);
    undefinedAddr, undefinedSvc := {}, {};
    var i := 0;
    while i < |policies|
      invariant 0 <= i <= |policies|
      invariant undefinedAddr == UndefinedLeaves(EntriesOf(policies[..i], AddrFields), reg.addrGroups, allAddressNames)
      invariant undefinedSvc == UndefinedLeaves(EntriesOf(policies[..i], SvcFields), reg.svcGroups, allServiceNames)
    {
      var pol := policies[i];
      undefinedAddr := CollectFields(pol, AddrFields, reg.addrGroups, allAddressNames, undefinedAddr);
      undefinedSvc := CollectFields(pol, SvcFields, reg.svcGroups, allServiceNames, undefinedSvc);
      PolicyStep(policies, i, AddrFields, reg.addrGroups, allAddressNames);
      PolicyStep(policies, i, SvcFields, reg.svcGroups, allServiceNames);
      i := i + 1;
    }
    assert policies[..i] == policies;
  }

  /** One more policy adds the leaves of its own entries. */
  lemma PolicyStep(policies: seq<Policy>, i: nat, fields: seq<string>, g: Table<GroupRecord>, names: set<string>)
    requires i < |policies|
    ensures UndefinedLeaves(EntriesOf(policies[..i + 1], fields), g, names)
         == UndefinedLeaves(EntriesOf(policies[..i], fields), g, names)
          + UndefinedLeaves(FieldEntries(policies[i], fields), g, names)
  {
    assert policies[..i + 1][..i] == policies[..i];
    UndefinedLeavesConcat(EntriesOf(policies[..i], fields), FieldEntries(policies[i], fields), g, names);
  }

  // ---------------------------------------------------------------------
  // What is reported.

  lemma {:induction false} UndefinedLeavesMember(entries: seq<string>, g: Table<GroupRecord>, names: set<string>)
    ensures forall m :: m in UndefinedLeaves(entries, g, names) <==>
              exists e :: e in entries && m in ExpandTop(e, g) && Reported(m, names)
    decreases |entries|
  {
    if entries != [] {
      var init := entries[..|entries| - 1];
      UndefinedLeavesMember(init, g, names);
      forall m
        ensures m in UndefinedLeaves(entries, g, names) <==>
                exists e :: e in entries && m in ExpandTop(e, g) && Reported(m, names)
      {
        LeafOfSnoc(entries, g, names, m);
      }
    }
  }

  /** For one name: the last entry adds its own leaves to those of the
      earlier entries. */
  lemma LeafOfSnoc(entries: seq<string>, g: Table<GroupRecord>, names: set<string>, m: string)
    requires entries != []
    requires m in UndefinedLeaves(entries[..|entries| - 1], g, names) <==>
             exists e :: e in entries[..|entries| - 1] && m in ExpandTop(e, g) && Reported(m, names)
    ensures m in UndefinedLeaves(entries, g, names) <==>
            exists e :: e in entries && m in ExpandTop(e, g) && Reported(m, names)
  {
    var init := entries[..|entries| - 1];
    var last := entries[|entries| - 1];
    assert entries == init + [last];
    if m in UndefinedLeaves(init, g, names) {
      var e :| e in init && m in ExpandTop(e, g) && Reported(m, names);
      assert e in entries;
    }
    if m in ReportedOf(ExpandTop(last, g), names) {
      assert last in entries;
    }
    if exists e :: e in entries && m in ExpandTop(e, g) && Reported(m, names) {
      var e :| e in entries && m in ExpandTop(e, g) && Reported(m, names);
      if e != last {
        assert e in init;
      }
    }
  }

  lemma {:induction false} FieldEntriesMember(pol: Policy, fields: seq<string>)
    ensures forall e :: e in FieldEntries(pol, fields) <==> exists f :: f in fields && e in Entries(pol, f)
    decreases |fields|
  {
    if fields != [] {
      var init := fields[..|fields| - 1];
      FieldEntriesMember(pol, init);
      assert fields == init + [fields[|fields| - 1]];
    }
  }

  /** Some listed field of some policy holds the entry. */
  ghost predicate Listed(e: string, policies: seq<Policy>, fields: seq<string>) {
    exists i, f :: 0 <= i < |policies| && f in fields && e in Entries(policies[i], f)
  }

  lemma ListedSnoc(e: string, policies: seq<Policy>, fields: seq<string>)
    requires policies != []
    ensures Listed(e, policies, fields) <==>
            Listed(e, policies[..|policies| - 1], fields) ||
            exists f :: f in fields && e in Entries(policies[|policies| - 1], f)
  {
    var n := |policies| - 1;
    var init := policies[..n];
    if Listed(e, policies, fields) {
      var i, f :| 0 <= i < |policies| && f in fields && e in Entries(policies[i], f);
      if i < n {
        assert init[i] == policies[i];
      }
    }
    if Listed(e, init, fields) {
      var i, f :| 0 <= i < |init| && f in fields && e in Entries(init[i], f);
      assert init[i] == policies[i];
    }
  }

  lemma {:induction false} EntriesOfMember(policies: seq<Policy>, fields: seq<string>)
    ensures forall e :: e in EntriesOf(policies, fields) <==> Listed(e, policies, fields)
    decreases |policies|
  {
    if policies != [] {
      var n := |policies| - 1;
      var init := policies[..n];
      EntriesOfMember(init, fields);
      FieldEntriesMember(policies[n], fields);
      forall e
        ensures e in EntriesOf(policies, fields) <==> Listed(e, policies, fields)
      {
        ListedSnoc(e, policies, fields);
      }
    }
  }

  /** The collector reports exactly the leaves, of a fresh expansion of an
      entry of a listed field of some policy, whose key is neither a
      defined name nor a wildcard. */
  lemma CollectedExactly(policies: seq<Policy>, fields: seq<string>, g: Table<GroupRecord>, names: set<string>)
    ensures forall m :: m in UndefinedLeaves(EntriesOf(policies, fields), g, names) <==>
              exists i, f, e :: 0 <= i < |policies| && f in fields && e in Entries(policies[i], f) &&
                m in ExpandTop(e, g) && Reported(m, names)
  {
    UndefinedLeavesMember(EntriesOf(policies, fields), g, names);
    EntriesOfMember(policies, fields);
  }

  /** A reported name is a stripped leaf: never a group (a group whose
      leaves are all defined contributes nothing of its own), never the
      key of a defined atomic object, never a wildcard in any letter case. */
  lemma NeverReported(policies: seq<Policy>, fields: seq<string>, g: Table<GroupRecord>, names: set<string>, m: string)
    requires m in UndefinedLeaves(EntriesOf(policies, fields), g, names)
    ensures Strip(m) == m && !IsGroupKey(g, Key(m))
    ensures Key(m) !in names && Key(m) != "any" && Key(m) != "all"
  {
    UndefinedLeavesMember(EntriesOf(policies, fields), g, names);
    var e :| e in EntriesOf(policies, fields) && m in ExpandTop(e, g) && Reported(m, names);
    ExpandLeaves(e, g, {});
  }

  /** Nothing is lost: every non-group key reachable from an entry that is
      neither defined nor a wildcard is reported under some spelling. */
  lemma ReportedComplete(policies: seq<Policy>, fields: seq<string>, g: Table<GroupRecord>, names: set<string>,
                         i: nat, f: string, e: string, k: string)
    requires i < |policies| && f in fields && e in Entries(policies[i], f)
    requires Reaches(g, Key(e), k) && !IsGroupKey(g, k)
    requires k !in names && k != "any" && k != "all"
    ensures exists m :: m in UndefinedLeaves(EntriesOf(policies, fields), g, names) && Key(m) == k
  {
    ExpandExact(e, g);
    var m :| m in ExpandTop(e, g) && Key(m) == k;
    CollectedExactly(policies, fields, g, names);
    assert m in UndefinedLeaves(EntriesOf(policies, fields), g, names);
  }
}
