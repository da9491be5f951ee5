/** render_obj_branch: the object tree shown under a policy cell. Each
    name is classified by a fixed precedence (already seen, wildcard,
    address, address group, service, service group, undefined) and groups
    are expanded recursively with one `seen` set shared by the whole call.
    The HTML is abstracted into a node tree whose kinds are exactly the
    branches of the source. One definition covers both programs: with
    `vipAware` set it is the report generator's version, which shows an
    address carrying both `extip` and `mappedip` as a VIP; without it, the
    older version that has no VIP branch. */
module Render {
  import opened Text
  import opened Registry
  import opened Measure

  /** One rendered entry, with the name it was rendered from. `Skipped` is
      the empty output for a key already seen. */
  datatype Node =
    | Skipped(ref: string)
    | Wildcard(ref: string)
    | Address(ref: string, record: Record)
    | Vip(ref: string, record: Record)
    | AddrGroup(ref: string, group: GroupRecord, children: seq<Node>)
    | Service(ref: string, record: Record)
    | SvcGroup(ref: string, group: GroupRecord, children: seq<Node>)
    | Undefined(ref: string)

  /** Keys that can start a recursive descent: the termination measure
      counts those not yet seen. */
  function GroupKeys(reg: Registry): set<string> {
    reg.addrGroups.lookup.Keys + reg.svcGroups.lookup.Keys
  }

  /** `if obj:` on a looked-up record: found and not an empty dict. */
  predicate Truthy(o: Option<Record>) {
    o.Some? && o.value != map[]
  }

  /** The VIP test: obj.get('extip') and obj.get('mappedip') both
      non-empty. */
  predicate IsVipRecord(r: Record) {
    Field(r, "extip") != "" && Field(r, "mappedip") != ""
  }

  /** Specification of render_obj_branch(name, ..., seen): the node and the
      seen set afterwards. */
  function Render(name: string, reg: Registry, vipAware: bool, seen: set<string>): (res: (Node, set<string>))
    ensures seen <= res.1
    ensures res.0.ref == name
    decreases |GroupKeys(reg) - seen|, 0
  {
    var key := Key(name);
    if key in seen then (Skipped(name), seen)
    else
      var seen1 := seen + {key};
      if key == "any" || key == "all" then (Wildcard(name), seen1)
      else
        var obj := Lookup(name, reg.addresses);
        if Truthy(obj) then
          (if vipAware && IsVipRecord(obj.value) then Vip(name, obj.value) else Address(name, obj.value), seen1)
        else
          var grp := Lookup(name, reg.addrGroups);
          if grp.Some? then
            assert key in GroupKeys(reg);
            Remaining(GroupKeys(reg), seen, seen1);
            var kids := RenderAll(grp.value.members, reg, vipAware, seen1);
            (AddrGroup(name, grp.value, kids.0), kids.1)
          else
            var svc := Lookup(name, reg.services);
            if Truthy(svc) then (Service(name, svc.value), seen1)
            else
              var sgrp := Lookup(name, reg.svcGroups);
              if sgrp.Some? then
                assert key in GroupKeys(reg);
                Remaining(GroupKeys(reg), seen, seen1);
                var kids := RenderAll(sgrp.value.members, reg, vipAware, seen1);
                (SvcGroup(name, sgrp.value, kids.0), kids.1)
              else (Undefined(name), seen1)
  }

  /** The loop over a group's members: one child per member, in order,
      each rendered with the seen set its predecessors left. */
  function RenderAll(members: seq<string>, reg: Registry, vipAware: bool, seen: set<string>): (res: (seq<Node>, set<string>))
    ensures seen <= res.1
    ensures |res.0| == |members|
    ensures forall i :: 0 <= i < |members| ==> res.0[i].ref == members[i]
    decreases |GroupKeys(reg) - seen|, 1, |members|
  {
    if members == [] then ([], seen)
    else
      var first := Render(members[0], reg, vipAware, seen);
      Remaining(GroupKeys(reg), seen, first.1);
      var rest := RenderAll(members[1..], reg, vipAware, first.1);
      ([first.0] + rest.0, rest.1)
  }

  /** render_obj_branch as the source writes it: the cascade of lookups
      and, for a group, the loop appending each member's branch. */
  method RenderObjBranch(name: string, reg: Registry, vipAware: bool, seen: set<string>)
    returns (node: Node, seenOut: set<string>)
    ensures (node, seenOut) == Render(name, reg, vipAware, seen)
    decreases |GroupKeys(reg) - seen|, 0
  {
    var key := Key(name);
    if key in seen {
      return Skipped(name), seen;
    }
    seenOut := seen + {key};
    if key == "any" || key == "all" {
      return Wildcard(name), seenOut;
    }
    var obj := Lookup(name, reg.addresses);
    if obj.Some? && obj.value != map[] {
      if vipAware && Field(obj.value, "extip") != "" && Field(obj.value, "mappedip") != "" {
        node := Vip(name, obj.value);
      } else {
        node := Address(name, obj.value);
      }
      return;
    }
    var grp := Lookup(name, reg.addrGroups);
    if grp.Some? {
      assert key in GroupKeys(reg);
      Remaining(GroupKeys(reg), seen, seenOut);
      var children;
      children, seenOut := RenderMembers(grp.value.members, reg, vipAware, seenOut);
      return AddrGroup(name, grp.value, children), seenOut;
    }
    var svc := Lookup(name, reg.services);
    if svc.Some? && svc.value != map[] {
      return Service(name, svc.value), seenOut;
    }
    var sgrp := Lookup(name, reg.svcGroups);
    if sgrp.Some? {
      assert key in GroupKeys(reg);
      Remaining(GroupKeys(reg), seen, seenOut);
      var children;
      children, seenOut := RenderMembers(sgrp.value.members, reg, vipAware, seenOut);
      return SvcGroup(name, sgrp.value, children), seenOut;
    }
    return Undefined(name), seenOut;
  }

  /** The `for member in grp['members']` loop of both group branches. */
  method RenderMembers(members: seq<string>, reg: Registry, vipAware: bool, seen: set<string>)
    returns (children: seq<Node>, seenOut: set<string>)
    ensures (children, seenOut) == RenderAll(members, reg, vipAware, seen)
    decreases |GroupKeys(reg) - seen|, 1
  {
    children, seenOut := [], seen;
    var i := 0;
    while i < |members|
      invariant 0 <= i <= |members|
      invariant (children, seenOut) == RenderAll(members[..i], reg, vipAware, seen)
    {
      Remaining(GroupKeys(reg), seen, seenOut);
      var child, v := RenderObjBranch(members[i], reg, vipAware, seenOut);
      RenderAllPrefix(members, i, reg, vipAware, seen);
      children, seenOut := children + [child], v;
      i := i + 1;
    }
    assert members[..i] == members;
  }

  /** The loop's step: the first i + 1 members render as the first i and
      then member i, from the seen set the first i left. */
  lemma RenderAllPrefix(members: seq<string>, i: nat, reg: Registry, vipAware: bool, seen: set<string>)
    requires i < |members|
    ensures var pre := RenderAll(members[..i], reg, vipAware, seen);
            var r := Render(members[i], reg, vipAware, pre.1);
            RenderAll(members[..i + 1], reg, vipAware, seen) == (pre.0 + [r.0], r.1)
  {
    assert members[..i + 1] == members[..i] + [members[i]];
    RenderAllSnoc(members[..i], members[i], reg, vipAware, seen);
  }

  /** Rendering one more member continues from the seen set the earlier
      members left, and appends its node. */
  lemma {:induction false} RenderAllSnoc(ms: seq<string>, m: string, reg: Registry, vipAware: bool, seen: set<string>)
    ensures RenderAll(ms + [m], reg, vipAware, seen)
         == (RenderAll(ms, reg, vipAware, seen).0 + [Render(m, reg, vipAware, RenderAll(ms, reg, vipAware, seen).1).0],
             Render(m, reg, vipAware, RenderAll(ms, reg, vipAware, seen).1).1)
    decreases |ms|
  {
    if ms == [] {
      var r := Render(m, reg, vipAware, seen);
      assert ms + [m] == [m];
      assert [m][1..] == [];
      assert RenderAll([m], reg, vipAware, seen) == ([r.0] + RenderAll([], reg, vipAware, r.1).0, RenderAll([], reg, vipAware, r.1).1);
      assert RenderAll([], reg, vipAware, r.1) == ([], r.1);
      assert [r.0] + [] == [r.0];
      assert RenderAll([m], reg, vipAware, seen) == ([r.0], r.1);
      assert RenderAll(ms, reg, vipAware, seen) == ([], seen);
      assert RenderAll(ms, reg, vipAware, seen).0 + [r.0] == [r.0];
    } else {
      var first := Render(ms[0], reg, vipAware, seen);
      assert (ms + [m])[0] == ms[0];
      assert (ms + [m])[1..] == ms[1..] + [m];
      RenderAllSnoc(ms[1..], m, reg, vipAware, first.1);
      var mid := RenderAll(ms[1..], reg, vipAware, first.1);
      var last := Render(m, reg, vipAware, mid.1);
      var longer := RenderAll(ms[1..] + [m], reg, vipAware, first.1);
      assert RenderAll(ms + [m], reg, vipAware, seen) == ([first.0] + longer.0, longer.1);
      assert RenderAll(ms, reg, vipAware, seen) == ([first.0] + mid.0, mid.1);
      assert [first.0] + (mid.0 + [last.0]) == ([first.0] + mid.0) + [last.0];
    }
  }

  // ---------------------------------------------------------------------
  // Kind precedence, stated as a list of tests tried in order.

  datatype Kind = SkippedKind | WildcardKind | VipKind | AddressKind | AddrGroupKind | ServiceKind | SvcGroupKind | UndefinedKind

  function KindOf(n: Node): Kind {
    match n
    case Skipped(_) => SkippedKind
    case Wildcard(_) => WildcardKind
    case Vip(_, _) => VipKind
    case Address(_, _) => AddressKind
    case AddrGroup(_, _, _) => AddrGroupKind
    case Service(_, _) => ServiceKind
    case SvcGroup(_, _, _) => SvcGroupKind
    case Undefined(_) => UndefinedKind
  }

  /** The tests of render_obj_branch in the order the source tries them,
      each with whether it holds for this name. */
  function Tests(name: string, reg: Registry, vipAware: bool, seen: set<string>): seq<(Kind, bool)> {
    var key := Key(name);
    var addr := Lookup(name, reg.addresses);
    [ (SkippedKind, key in seen),
      (WildcardKind, key == "any" || key == "all"),
      (VipKind, vipAware && Truthy(addr) && IsVipRecord(addr.value)),
      (AddressKind, Truthy(addr)),
      (AddrGroupKind, Lookup(name, reg.addrGroups).Some?),
      (ServiceKind, Truthy(Lookup(name, reg.services))),
      (SvcGroupKind, Lookup(name, reg.svcGroups).Some?),
      (UndefinedKind, true) ]
  }

  /** The kind of the first test that holds. */
  function FirstHit(tests: seq<(Kind, bool)>): Kind {
    if tests == [] then UndefinedKind
    else if tests[0].1 then tests[0].0
    else FirstHit(tests[1..])
  }

  lemma {:induction false} FirstHitAt(t: seq<(Kind, bool)>, i: nat)
    requires i < |t| && t[i].1
    requires forall j :: 0 <= j < i ==> !t[j].1
    ensures FirstHit(t) == t[i].0
  {
    if i > 0 {
      FirstHitAt(t[1..], i - 1);
    }
  }

  /** The node's kind is the first test of the precedence list that holds:
      an already seen key beats everything, then a wildcard (any letter
      case), an address (a VIP only in the report version), an address
      group, a service, a service group, and otherwise undefined. */
  lemma KindPrecedence(name: string, reg: Registry, vipAware: bool, seen: set<string>)
    ensures KindOf(Render(name, reg, vipAware, seen).0) == FirstHit(Tests(name, reg, vipAware, seen))
  {
    var key := Key(name);
    var addr := Lookup(name, reg.addresses);
    var r := Render(name, reg, vipAware, seen).0;
    FirstHitOfEight(key in seen, key == "any" || key == "all", vipAware && Truthy(addr) && IsVipRecord(addr.value),
                    Truthy(addr), Lookup(name, reg.addrGroups).Some?, Truthy(Lookup(name, reg.services)),
                    Lookup(name, reg.svcGroups).Some?);
    if key in seen {
      assert r.Skipped?;
    } else if key == "any" || key == "all" {
      assert r.Wildcard?;
    } else if vipAware && Truthy(addr) && IsVipRecord(addr.value) {
      assert r.Vip?;
    } else if Truthy(addr) {
      assert r.Address?;
    } else if Lookup(name, reg.addrGroups).Some? {
      assert r.AddrGroup?;
    } else if Truthy(Lookup(name, reg.services)) {
      assert r.Service?;
    } else if Lookup(name, reg.svcGroups).Some? {
      assert r.SvcGroup?;
    } else {
      assert r.Undefined?;
    }
  }

  /** The first hit of the eight tests, as a chain of conditions. */
  lemma FirstHitOfEight(b0: bool, b1: bool, b2: bool, b3: bool, b4: bool, b5: bool, b6: bool)
    ensures FirstHit([ (SkippedKind, b0), (WildcardKind, b1), (VipKind, b2), (AddressKind, b3),
                       (AddrGroupKind, b4), (ServiceKind, b5), (SvcGroupKind, b6), (UndefinedKind, true) ])
         == if b0 then SkippedKind else if b1 then WildcardKind else if b2 then VipKind
            else if b3 then AddressKind else if b4 then AddrGroupKind else if b5 then ServiceKind
            else if b6 then SvcGroupKind else UndefinedKind
  {
    var t := [ (SkippedKind, b0), (WildcardKind, b1), (VipKind, b2), (AddressKind, b3),
               (AddrGroupKind, b4), (ServiceKind, b5), (SvcGroupKind, b6), (UndefinedKind, true) ];
    var i := if b0 then 0 else if b1 then 1 else if b2 then 2 else if b3 then 3
             else if b4 then 4 else if b5 then 5 else if b6 then 6 else 7;
    FirstHitAt(t, i);
  }

  /** A name that is both an address and a service renders as the
      address, whatever the service table says. */
  lemma AddressBeforeService(name: string, reg: Registry, vipAware: bool, seen: set<string>)
    requires Key(name) !in seen && Key(name) != "any" && Key(name) != "all"
    requires Truthy(Lookup(name, reg.addresses))
    ensures Render(name, reg, vipAware, seen) ==
      (if vipAware && IsVipRecord(Lookup(name, reg.addresses).value)
       then Vip(name, Lookup(name, reg.addresses).value)
       else Address(name, Lookup(name, reg.addresses).value),
       seen + {Key(name)})
  {
  }

  /** In a registry built by the parsers (valid lookup tables, every record
      non-empty), a name renders as undefined exactly when its key is new,
      not a wildcard, and known to none of the four lookup tables (an empty
      name is never looked up). */
  lemma UndefinedExactly(name: string, reg: Registry, vipAware: bool, seen: set<string>)
    requires reg.Valid()
    requires forall n :: n in reg.addresses.dict ==> reg.addresses.dict[n] != map[]
    requires forall n :: n in reg.services.dict ==> reg.services.dict[n] != map[]
    ensures Render(name, reg, vipAware, seen).0.Undefined? <==>
      && Key(name) !in seen && Key(name) != "any" && Key(name) != "all"
      && (name == "" ||
          (Key(name) !in reg.addresses.lookup && Key(name) !in reg.addrGroups.lookup &&
           Key(name) !in reg.services.lookup && Key(name) !in reg.svcGroups.lookup))
  {
    LookupValid(name, reg.addresses);
    LookupValid(name, reg.addrGroups);
    LookupValid(name, reg.services);
    LookupValid(name, reg.svcGroups);
  }

  /** "ANY" is shown as the wildcard even when no table knows it. */
  lemma WildcardScenario(reg: Registry, vipAware: bool)
    ensures Render("ANY", reg, vipAware, {}) == (Wildcard("ANY"), {"any"})
  {
    StripOfTrimmed("ANY");
    LowerAt("ANY");
    assert Key("ANY") == "any";
    assert {} + {"any"} == {"any"};
  }

  // ---------------------------------------------------------------------
  // Each key is rendered once per top-level call.

  /** The keys of the entries actually shown, in display order: a skipped
      entry shows nothing. */
  function RenderedKeys(n: Node): seq<string> {
    match n
    case Skipped(_) => []
    case AddrGroup(r, _, kids) => [Key(r)] + RenderedKeysAll(kids)
    case SvcGroup(r, _, kids) => [Key(r)] + RenderedKeysAll(kids)
    case _ => [Key(n.ref)]
  }

  function RenderedKeysAll(ns: seq<Node>): seq<string> {
    if ns == [] then [] else RenderedKeys(ns[0]) + RenderedKeysAll(ns[1..])
  }

  ghost predicate NoDup(s: seq<string>) {
    forall i, j :: 0 <= i < j < |s| ==> s[i] != s[j]
  }

  lemma NoDupConcat(a: seq<string>, b: seq<string>)
    requires NoDup(a) && NoDup(b)
    requires forall x :: x in a ==> x !in b
    ensures NoDup(a + b)
  {
    forall i, j | 0 <= i < j < |a + b|
      ensures (a + b)[i] != (a + b)[j]
    {
      if i < |a| && j >= |a| {
        assert (a + b)[i] in a;
        assert (a + b)[j] == b[j - |a|];
      }
    }
  }

  /** The three shapes of a rendering: a seen key is skipped and changes
      nothing; a group renders its members from the seen set with its key
      added; every other node adds only its key. */
  lemma RenderShape(name: string, reg: Registry, vipAware: bool, seen: set<string>)
    ensures Key(name) in seen ==>
              Render(name, reg, vipAware, seen) == (Skipped(name), seen)
    ensures Key(name) !in seen && (Render(name, reg, vipAware, seen).0.AddrGroup? || Render(name, reg, vipAware, seen).0.SvcGroup?) ==>
              Key(name) in GroupKeys(reg) &&
              (Render(name, reg, vipAware, seen).0.children, Render(name, reg, vipAware, seen).1)
                == RenderAll(Render(name, reg, vipAware, seen).0.group.members, reg, vipAware, seen + {Key(name)})
    ensures Key(name) !in seen && !Render(name, reg, vipAware, seen).0.AddrGroup? && !Render(name, reg, vipAware, seen).0.SvcGroup? ==>
              !Render(name, reg, vipAware, seen).0.Skipped? && Render(name, reg, vipAware, seen).1 == seen + {Key(name)}
  {
  }

  /** Within one call no key is shown twice, and the keys shown are
      exactly the keys the call added to `seen`. */
  lemma {:induction false} RenderOnce(name: string, reg: Registry, vipAware: bool, seen: set<string>)
    ensures NoDup(RenderedKeys(Render(name, reg, vipAware, seen).0))
    ensures forall k :: k in RenderedKeys(Render(name, reg, vipAware, seen).0) <==>
              k in Render(name, reg, vipAware, seen).1 && k !in seen
    decreases |GroupKeys(reg) - seen|, 0
  {
    var key := Key(name);
    var r := Render(name, reg, vipAware, seen);
    RenderShape(name, reg, vipAware, seen);
    if key in seen {
      assert RenderedKeys(r.0) == [];
    } else if r.0.AddrGroup? || r.0.SvcGroup? {
      var seen1 := seen + {key};
      Remaining(GroupKeys(reg), seen, seen1);
      RenderAllOnce(r.0.group.members, reg, vipAware, seen1);
      assert RenderedKeys(r.0) == [key] + RenderedKeysAll(r.0.children);
      NoDupConcat([key], RenderedKeysAll(r.0.children));
    } else {
      assert RenderedKeys(r.0) == [key];
    }
  }

  lemma {:induction false} RenderAllOnce(members: seq<string>, reg: Registry, vipAware: bool, seen: set<string>)
    ensures NoDup(RenderedKeysAll(RenderAll(members, reg, vipAware, seen).0))
    ensures forall k :: k in RenderedKeysAll(RenderAll(members, reg, vipAware, seen).0) <==>
              k in RenderAll(members, reg, vipAware, seen).1 && k !in seen
    decreases |GroupKeys(reg) - seen|, 1, |members|
  {
    if members != [] {
      var first := Render(members[0], reg, vipAware, seen);
      RenderOnce(members[0], reg, vipAware, seen);
      Remaining(GroupKeys(reg), seen, first.1);
      RenderAllOnce(members[1..], reg, vipAware, first.1);
      var rest := RenderAll(members[1..], reg, vipAware, first.1);
      var all := [first.0] + rest.0;
      assert all[0] == first.0 && all[1..] == rest.0;
      assert RenderedKeysAll(all) == RenderedKeys(first.0) + RenderedKeysAll(rest.0);
      NoDupConcat(RenderedKeys(first.0), RenderedKeysAll(rest.0));
    }
  }

  // ---------------------------------------------------------------------
  // The two versions differ only in the VIP branch.

  /** Shows every VIP as a plain address. */
  function EraseVip(n: Node): Node {
    match n
    case Vip(r, rec) => Address(r, rec)
    case AddrGroup(r, g, kids) => AddrGroup(r, g, EraseVipAll(kids))
    case SvcGroup(r, g, kids) => SvcGroup(r, g, EraseVipAll(kids))
    case _ => n
  }

  function EraseVipAll(ns: seq<Node>): seq<Node> {
    if ns == [] then [] else [EraseVip(ns[0])] + EraseVipAll(ns[1..])
  }

  predicate VipFree(n: Node) {
    match n
    case Vip(_, _) => false
    case AddrGroup(_, _, kids) => forall i :: 0 <= i < |kids| ==> VipFree(kids[i])
    case SvcGroup(_, _, kids) => forall i :: 0 <= i < |kids| ==> VipFree(kids[i])
    case _ => true
  }

  /** The report version's tree with its VIPs shown as addresses is the
      older version's tree, and both leave the same seen set. */
  lemma {:induction false} VipErasure(name: string, reg: Registry, seen: set<string>)
    ensures EraseVip(Render(name, reg, true, seen).0) == Render(name, reg, false, seen).0
    ensures Render(name, reg, true, seen).1 == Render(name, reg, false, seen).1
    decreases |GroupKeys(reg) - seen|, 0
  {
    var key := Key(name);
    var seen1 := seen + {key};
    var grp := Lookup(name, reg.addrGroups);
    var sgrp := Lookup(name, reg.svcGroups);
    if AddrGroupCase(name, reg, seen) {
      AddrGroupUnfold(name, reg, true, seen);
      AddrGroupUnfold(name, reg, false, seen);
      Remaining(GroupKeys(reg), seen, seen1);
      VipErasureAll(grp.value.members, reg, seen1);
    } else if SvcGroupCase(name, reg, seen) {
      SvcGroupUnfold(name, reg, true, seen);
      SvcGroupUnfold(name, reg, false, seen);
      Remaining(GroupKeys(reg), seen, seen1);
      VipErasureAll(sgrp.value.members, reg, seen1);
    } else {
      LeafErasure(name, reg, seen);
    }
  }

  /** The lookups reach the address-group branch. */
  predicate AddrGroupCase(name: string, reg: Registry, seen: set<string>) {
    Key(name) !in seen && Key(name) != "any" && Key(name) != "all" && !Truthy(Lookup(name, reg.addresses))
    && Lookup(name, reg.addrGroups).Some?
  }

  /** The lookups reach the service-group branch. */
  predicate SvcGroupCase(name: string, reg: Registry, seen: set<string>) {
    Key(name) !in seen && Key(name) != "any" && Key(name) != "all" && !Truthy(Lookup(name, reg.addresses))
    && Lookup(name, reg.addrGroups).None? && !Truthy(Lookup(name, reg.services)) && Lookup(name, reg.svcGroups).Some?
  }

  lemma AddrGroupUnfold(name: string, reg: Registry, vipAware: bool, seen: set<string>)
    requires AddrGroupCase(name, reg, seen)
    ensures var g := Lookup(name, reg.addrGroups).value;
            var kids := RenderAll(g.members, reg, vipAware, seen + {Key(name)});
            Key(name) in GroupKeys(reg) && Render(name, reg, vipAware, seen) == (AddrGroup(name, g, kids.0), kids.1)
  {
  }

  lemma SvcGroupUnfold(name: string, reg: Registry, vipAware: bool, seen: set<string>)
    requires SvcGroupCase(name, reg, seen)
    ensures var g := Lookup(name, reg.svcGroups).value;
            var kids := RenderAll(g.members, reg, vipAware, seen + {Key(name)});
            Key(name) in GroupKeys(reg) && Render(name, reg, vipAware, seen) == (SvcGroup(name, g, kids.0), kids.1)
  {
  }

  /** Outside the group branches the two versions differ only in showing
      a VIP as an address. */
  lemma LeafErasure(name: string, reg: Registry, seen: set<string>)
    requires !AddrGroupCase(name, reg, seen) && !SvcGroupCase(name, reg, seen)
    ensures EraseVip(Render(name, reg, true, seen).0) == Render(name, reg, false, seen).0
    ensures Render(name, reg, true, seen).1 == Render(name, reg, false, seen).1
  {
    var key := Key(name);
    var addr := Lookup(name, reg.addresses);
    var on := Render(name, reg, true, seen);
    var off := Render(name, reg, false, seen);
    if key in seen {
      assert on == off;
    } else if key == "any" || key == "all" {
      assert on == off;
    } else if Truthy(addr) {
      assert off == (Address(name, addr.value), seen + {key});
      if IsVipRecord(addr.value) {
        assert on == (Vip(name, addr.value), seen + {key});
      } else {
        assert on == off;
      }
    } else {
      assert on == off;
    }
  }

  lemma {:induction false} VipErasureAll(members: seq<string>, reg: Registry, seen: set<string>)
    ensures EraseVipAll(RenderAll(members, reg, true, seen).0) == RenderAll(members, reg, false, seen).0
    ensures RenderAll(members, reg, true, seen).1 == RenderAll(members, reg, false, seen).1
    decreases |GroupKeys(reg) - seen|, 1, |members|
  {
    if members != [] {
      var first := Render(members[0], reg, true, seen);
      VipErasure(members[0], reg, seen);
      Remaining(GroupKeys(reg), seen, first.1);
      VipErasureAll(members[1..], reg, first.1);
      var rest := RenderAll(members[1..], reg, true, first.1);
      var all := [first.0] + rest.0;
      assert all[0] == first.0 && all[1..] == rest.0;
    }
  }

  lemma {:induction false} EraseVipFree(n: Node)
    ensures VipFree(EraseVip(n))
  {
    match n
    case AddrGroup(r, g, kids) => EraseVipAllFree(kids);
    case SvcGroup(r, g, kids) => EraseVipAllFree(kids);
    case _ =>
  }

  lemma {:induction false} EraseVipAllFree(ns: seq<Node>)
    ensures |EraseVipAll(ns)| == |ns|
    ensures forall i :: 0 <= i < |ns| ==> VipFree(EraseVipAll(ns)[i])
  {
    if ns != [] {
      EraseVipFree(ns[0]);
      EraseVipAllFree(ns[1..]);
    }
  }

  /** The older version never shows a VIP, at any depth. */
  lemma NoVipInOlderVersion(name: string, reg: Registry, seen: set<string>)
    ensures VipFree(Render(name, reg, false, seen).0)
  {
    VipErasure(name, reg, seen);
    EraseVipFree(Render(name, reg, true, seen).0);
  }
}
