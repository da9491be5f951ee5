/** The per-VDOM resolvers resolve_addr and resolve_service: exact
    (case-sensitive) names, the group map consulted before the atomic set,
    and undefined names dropped. Both are the same routine over a different
    pair of collections. */
module ScopeResolve {
  import opened Registry
  import opened Measure

  /** Specification of the shared routine with its `resolved` set: the
      atomic names found and the names marked resolved afterwards. A name
      already resolved yields nothing; otherwise it is marked, then a group
      yields the union of its members' results (one shared `resolved`), an
      atomic name yields itself, and anything else yields nothing. */
  function Resolve(name: string, groups: map<string, seq<string>>, atoms: set<string>, resolved: set<string>)
    : (res: (set<string>, set<string>))
    ensures resolved <= res.1
    ensures res.0 <= atoms
    decreases |groups.Keys - resolved|, 0
  {
    if name in resolved then ({}, resolved)
    else if name in groups then
      Remaining(groups.Keys, resolved, resolved + {name});
      ResolveAll(groups[name], groups, atoms, resolved + {name})
    else if name in atoms then ({name}, resolved + {name})
    else ({}, resolved + {name})
  }

  function ResolveAll(members: seq<string>, groups: map<string, seq<string>>, atoms: set<string>, resolved: set<string>)
    : (res: (set<string>, set<string>))
    ensures resolved <= res.1
    ensures res.0 <= atoms
    decreases |groups.Keys - resolved|, 1, |members|
  {
    if members == [] then ({}, resolved)
    else
      var first := Resolve(members[0], groups, atoms, resolved);
      Remaining(groups.Keys, resolved, first.1);
      var rest := ResolveAll(members[1..], groups, atoms, first.1);
      (first.0 + rest.0, rest.1)
  }

  /** The loop the two resolvers share. */
  method ResolveNames(name: string, groups: map<string, seq<string>>, atoms: set<string>, resolved: set<string>)
    returns (found: set<string>, resolvedOut: set<string>)
    ensures (found, resolvedOut) == Resolve(name, groups, atoms, resolved)
    decreases |groups.Keys - resolved|, 0
  {
    if name in resolved {
      return {}, resolved;
    }
    resolvedOut := resolved + {name};
    if name in groups {
      var members := groups[name];
      ghost var total := ResolveAll(members, groups, atoms, resolved + {name});
      found := {};
      var i := 0;
      assert members[0..] == members;
      while i < |members|
        invariant 0 <= i <= |members|
        invariant resolved + {name} <= resolvedOut
        invariant total.0 == found + ResolveAll(members[i..], groups, atoms, resolvedOut).0
        invariant total.1 == ResolveAll(members[i..], groups, atoms, resolvedOut).1
      {
        Remaining(groups.Keys, resolved, resolvedOut);
        var r, v := ResolveNames(members[i], groups, atoms, resolvedOut);
        assert members[i..][0] == members[i];
        assert members[i..][1..] == members[i + 1..];
        found, resolvedOut := found + r, v;
        i := i + 1;
      }
    } else if name in atoms {
      found := {name};
    } else {
      found := {};
    }
  }

  /** resolve_addr(addr_name, all_objs, vdom, resolved): the scope is read
      only after the cycle check, so a missing scope fails (KeyError) unless
      the name was already resolved. */
  method ResolveAddr(addrName: string, allObjs: AllObjects, vdom: string, resolved: set<string>)
    returns (found: set<string>, resolvedOut: set<string>)
    requires addrName in resolved || vdom in allObjs
    ensures addrName in resolved ==> found == {} && resolvedOut == resolved
    ensures vdom in allObjs ==>
      (found, resolvedOut) == Resolve(addrName, allObjs[vdom].addrgrp, allObjs[vdom].address, resolved)
  {
    if addrName in resolved {
      return {}, resolved;
    }
    found, resolvedOut := ResolveNames(addrName, allObjs[vdom].addrgrp, allObjs[vdom].address, resolved);
  }

  /** resolve_service: the same over the service group map and the
      service names. */
  method ResolveService(svcName: string, allObjs: AllObjects, vdom: string, resolved: set<string>)
    returns (found: set<string>, resolvedOut: set<string>)
    requires svcName in resolved || vdom in allObjs
    ensures svcName in resolved ==> found == {} && resolvedOut == resolved
    ensures vdom in allObjs ==>
      (found, resolvedOut) == Resolve(svcName, allObjs[vdom].servicegrp, allObjs[vdom].service, resolved)
  {
    if svcName in resolved {
      return {}, resolved;
    }
    found, resolvedOut := ResolveNames(svcName, allObjs[vdom].servicegrp, allObjs[vdom].service, resolved);
  }

  // ---------------------------------------------------------------------
  // What one call does, and the reachability it computes.

  /** One step from `resolved` to `after` finding `found`: every name found
      is atomic, not a group, and newly resolved; every newly resolved name
      is finished: a group's members are all resolved, an atomic non-group
      name has been found. */
  ghost predicate Step(groups: map<string, seq<string>>, atoms: set<string>, resolved: set<string>, after: set<string>, found: set<string>) {
    && resolved <= after
    && (forall x :: x in found ==> x in after && x !in resolved && x !in groups && x in atoms)
    && (forall k :: k in after && k !in resolved ==>
          (k in groups ==> forall m :: m in groups[k] ==> m in after) &&
          (k !in groups && k in atoms ==> k in found))
  }

  lemma {:induction false} ResolveStep(name: string, groups: map<string, seq<string>>, atoms: set<string>, resolved: set<string>)
    ensures name in Resolve(name, groups, atoms, resolved).1
    ensures Step(groups, atoms, resolved, Resolve(name, groups, atoms, resolved).1, Resolve(name, groups, atoms, resolved).0)
    decreases |groups.Keys - resolved|, 0
  {
    if name !in resolved && name in groups {
      Remaining(groups.Keys, resolved, resolved + {name});
      ResolveAllStep(groups[name], groups, atoms, resolved + {name});
    }
  }

  lemma {:induction false} ResolveAllStep(members: seq<string>, groups: map<string, seq<string>>, atoms: set<string>, resolved: set<string>)
    ensures forall m :: m in members ==> m in ResolveAll(members, groups, atoms, resolved).1
    ensures Step(groups, atoms, resolved, ResolveAll(members, groups, atoms, resolved).1, ResolveAll(members, groups, atoms, resolved).0)
    decreases |groups.Keys - resolved|, 1, |members|
  {
    if members != [] {
      var first := Resolve(members[0], groups, atoms, resolved);
      ResolveStep(members[0], groups, atoms, resolved);
      Remaining(groups.Keys, resolved, first.1);
      ResolveAllStep(members[1..], groups, atoms, first.1);
      forall m | m in members
        ensures m in ResolveAll(members, groups, atoms, resolved).1
      {
        if m != members[0] {
          assert m in members[1..];
        }
      }
    }
  }

  /** A chain of names, each a group listing the next as a member. */
  ghost predicate IsPath(groups: map<string, seq<string>>, p: seq<string>) {
    |p| >= 1 &&
    forall i :: 0 <= i < |p| - 1 ==> p[i] in groups && p[i + 1] in groups[p[i]]
  }

  ghost predicate Reaches(groups: map<string, seq<string>>, from: string, to: string) {
    exists p :: IsPath(groups, p) && p[0] == from && p[|p| - 1] == to
  }

  lemma {:induction false} ClosedContainsPath(groups: map<string, seq<string>>, s: set<string>, p: seq<string>)
    requires IsPath(groups, p) && p[0] in s
    requires forall k :: k in s && k in groups ==> forall m :: m in groups[k] ==> m in s
    ensures p[|p| - 1] in s
    decreases |p|
  {
    if |p| > 1 {
      assert IsPath(groups, p[1..]);
      ClosedContainsPath(groups, s, p[1..]);
    }
  }

  /** A group reaches whatever one of its members reaches. */
  lemma ReachesThroughMember(groups: map<string, seq<string>>, name: string, m: string, x: string)
    requires name in groups && m in groups[name]
    requires Reaches(groups, m, x)
    ensures Reaches(groups, name, x)
  {
    var p :| IsPath(groups, p) && p[0] == m && p[|p| - 1] == x;
    var q := [name] + p;
    assert q[1..] == p;
    assert IsPath(groups, q);
  }

  lemma {:induction false} ResolveSound(name: string, groups: map<string, seq<string>>, atoms: set<string>, resolved: set<string>)
    ensures forall x :: x in Resolve(name, groups, atoms, resolved).0 ==> Reaches(groups, name, x)
    decreases |groups.Keys - resolved|, 0
  {
    if name in resolved {
    } else if name in groups {
      var members := groups[name];
      Remaining(groups.Keys, resolved, resolved + {name});
      ResolveAllSound(members, groups, atoms, resolved + {name});
      assert Resolve(name, groups, atoms, resolved) == ResolveAll(members, groups, atoms, resolved + {name});
      forall x | x in Resolve(name, groups, atoms, resolved).0
        ensures Reaches(groups, name, x)
      {
        var m :| m in members && Reaches(groups, m, x);
        ReachesThroughMember(groups, name, m, x);
      }
    } else {
      assert IsPath(groups, [name]);
    }
  }

  lemma {:induction false} ResolveAllSound(members: seq<string>, groups: map<string, seq<string>>, atoms: set<string>, resolved: set<string>)
    ensures forall x :: x in ResolveAll(members, groups, atoms, resolved).0 ==>
              exists m :: m in members && Reaches(groups, m, x)
    decreases |groups.Keys - resolved|, 1, |members|
  {
    if members != [] {
      var first := Resolve(members[0], groups, atoms, resolved);
      ResolveSound(members[0], groups, atoms, resolved);
      Remaining(groups.Keys, resolved, first.1);
      ResolveAllSound(members[1..], groups, atoms, first.1);
      var rest := ResolveAll(members[1..], groups, atoms, first.1);
      assert ResolveAll(members, groups, atoms, resolved).0 == first.0 + rest.0;
      forall x | x in ResolveAll(members, groups, atoms, resolved).0
        ensures exists m :: m in members && Reaches(groups, m, x)
      {
        if x in first.0 {
          assert members[0] in members;
        } else {
          var m :| m in members[1..] && Reaches(groups, m, x);
          assert m in members;
        }
      }
    }
  }

  /** A fresh resolution (resolved=None in the source) finds exactly the
      atomic names, not shadowed by a group of the same name, that are
      reachable from the name through group members; names defined nowhere
      in the scope vanish, cycles included. */
  lemma ResolveExact(name: string, groups: map<string, seq<string>>, atoms: set<string>)
    ensures forall x :: x in Resolve(name, groups, atoms, {}).0 <==>
              Reaches(groups, name, x) && x !in groups && x in atoms
  {
    var res := Resolve(name, groups, atoms, {});
    ResolveStep(name, groups, atoms, {});
    ResolveSound(name, groups, atoms, {});
    forall x
      ensures x in res.0 <==> Reaches(groups, name, x) && x !in groups && x in atoms
    {
      if Reaches(groups, name, x) && x !in groups && x in atoms {
        var p :| IsPath(groups, p) && p[0] == name && p[|p| - 1] == x;
        ClosedContainsPath(groups, res.1, p);
      }
    }
  }

  /** A name defined neither as a group nor as an atom in the scope yields
      nothing, and is still marked resolved. */
  lemma UndefinedVanishes(name: string, groups: map<string, seq<string>>, atoms: set<string>, resolved: set<string>)
    requires name !in groups && name !in atoms
    ensures Resolve(name, groups, atoms, resolved) == ({}, resolved + {name})
  {
    if name in resolved {
      assert resolved + {name} == resolved;
    }
  }

  /** The group map is consulted first: a name that is both a group and an
      atom never appears as a result, only its members do. */
  lemma GroupShadowsAtom(name: string, groups: map<string, seq<string>>, atoms: set<string>, resolved: set<string>)
    requires name in groups
    ensures name !in Resolve(name, groups, atoms, resolved).0
  {
    ResolveStep(name, groups, atoms, resolved);
  }

  /** Names are compared exactly: with only "Web" defined, "web" resolves
      to nothing. */
  lemma CaseSensitiveScenario()
    ensures Resolve("web", map[], {"Web"}, {}).0 == {}
  {
    assert "web" != "Web";
  }
}
