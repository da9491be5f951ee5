/** Case-insensitive group expansion: get_all_members and
    get_all_service_members. The two routines are the same code over
    different tables (address groups, service groups), so one definition
    models both. The shared `_visited` set of the source is threaded through
    the recursion as an input and an output. */
module Expansion {
  import opened Text
  import opened Registry
  import opened Measure

  /** The key names a group whose record is present: the case in which the
      source recurses into the members. */
  predicate IsGroupKey(g: Table<GroupRecord>, k: string) {
    k in g.lookup && g.lookup[k] in g.dict
  }

  function MembersOf(g: Table<GroupRecord>, k: string): seq<string>
    requires IsGroupKey(g, k)
  {
    g.dict[g.lookup[k]].members
  }

  /** The keys of a group's members. */
  function MemberKeys(g: Table<GroupRecord>, k: string): set<string>
    requires IsGroupKey(g, k)
  {
    set m | m in MembersOf(g, k) :: Key(m)
  }

  /** The keys of a set of leaf names. */
  function KeysOf(names: set<string>): set<string> {
    set x | x in names :: Key(x)
  }

  /** Specification of get_all_members(name, groups, lookup, visited):
      the leaf names and the visited keys after the call. A key already
      visited contributes nothing; otherwise the key is recorded first, a
      group contributes the union of its members' expansions (left to right,
      one shared visited set), and anything else contributes its stripped
      name, defined or not. */
  function Expand(name: string, g: Table<GroupRecord>, visited: set<string>): (res: (set<string>, set<string>))
    ensures visited <= res.1
    decreases |g.lookup.Keys - visited|, 0
  {
    var key := Key(name);
    if key in visited then ({}, visited)
    else if IsGroupKey(g, key) then
      Remaining(g.lookup.Keys, visited, visited + {key});
      ExpandAll(MembersOf(g, key), g, visited + {key})
    else ({Strip(name)}, visited + {key})
  }

  /** The loop over a group's members: each member is expanded with the
      visited set the previous members left behind. */
  function ExpandAll(members: seq<string>, g: Table<GroupRecord>, visited: set<string>): (res: (set<string>, set<string>))
    ensures visited <= res.1
    decreases |g.lookup.Keys - visited|, 1, |members|
  {
    if members == [] then ({}, visited)
    else
      var first := Expand(members[0], g, visited);
      Remaining(g.lookup.Keys, visited, first.1);
      var rest := ExpandAll(members[1..], g, first.1);
      (first.0 + rest.0, rest.1)
  }

  /** get_all_members(name, ...) called without a visited set. */
  function ExpandTop(name: string, g: Table<GroupRecord>): set<string> {
    Expand(name, g, {}).0
  }

  /** get_all_members as the source writes it: the recursion, the loop
      over the members and the `|=` accumulation. */
  method GetAllMembers(name: string, g: Table<GroupRecord>, visited: set<string>)
    returns (allMembers: set<string>, visitedOut: set<string>)
    ensures (allMembers, visitedOut) == Expand(name, g, visited)
    decreases |g.lookup.Keys - visited|, 0
  {
    var key := Key(name);
    if key in visited {
      return {}, visited;
    }
    visitedOut := visited + {key};
    if key in g.lookup {
      var realName := g.lookup[key];
      if realName in g.dict {
        var members := g.dict[realName].members;
        ghost var total := ExpandAll(members, g, visited + {key});
        allMembers := {};
        var i := 0;
        assert members[0..] == members;
        while i < |members|
          invariant 0 <= i <= |members|
          invariant visited + {key} <= visitedOut
          invariant total.0 == allMembers + ExpandAll(members[i..], g, visitedOut).0
          invariant total.1 == ExpandAll(members[i..], g, visitedOut).1
        {
          Remaining(g.lookup.Keys, visited, visitedOut);
          var r, v := GetAllMembers(members[i], g, visitedOut);
          assert members[i..][0] == members[i];
          assert members[i..][1..] == members[i + 1..];
          allMembers, visitedOut := allMembers + r, v;
          i := i + 1;
        }
        return;
      }
    }
    allMembers := {Strip(name)};
  }

  // ---------------------------------------------------------------------
  // What one call does to the visited set and the result.

  /** One step of expansion from `visited` to `after`, producing `leaves`:
      every leaf is a stripped, non-group name whose key was newly visited;
      no two leaves share a key; and every newly visited key is finished:
      a group's member keys are all visited, a leaf key has its leaf. */
  ghost predicate Step(g: Table<GroupRecord>, visited: set<string>, after: set<string>, leaves: set<string>) {
    && visited <= after
    && (forall x :: x in leaves ==>
          Key(x) in after && Key(x) !in visited && !IsGroupKey(g, Key(x)) && Strip(x) == x)
    && (forall x, y :: x in leaves && y in leaves && Key(x) == Key(y) ==> x == y)
    && (forall k :: k in after && k !in visited ==>
          (IsGroupKey(g, k) ==> MemberKeys(g, k) <= after) &&
          (!IsGroupKey(g, k) ==> k in KeysOf(leaves)))
  }

  lemma StepCompose(g: Table<GroupRecord>, v0: set<string>, v1: set<string>, v2: set<string>, l1: set<string>, l2: set<string>)
    requires Step(g, v0, v1, l1) && Step(g, v1, v2, l2)
    ensures Step(g, v0, v2, l1 + l2)
  {
    forall k | k in v2 && k !in v0 && !IsGroupKey(g, k)
      ensures k in KeysOf(l1 + l2)
    {
      if k in v1 {
        var x :| x in l1 && Key(x) == k;
        assert x in l1 + l2;
      } else {
        var x :| x in l2 && Key(x) == k;
        assert x in l1 + l2;
      }
    }
  }

  /** Each call finishes its own key, records it, and keeps the step
      invariant; a key already visited yields nothing and changes nothing. */
  lemma {:induction false} ExpandStep(name: string, g: Table<GroupRecord>, visited: set<string>)
    ensures Key(name) in Expand(name, g, visited).1
    ensures Key(name) in visited ==> Expand(name, g, visited) == ({}, visited)
    ensures Step(g, visited, Expand(name, g, visited).1, Expand(name, g, visited).0)
    decreases |g.lookup.Keys - visited|, 0
  {
    var key := Key(name);
    if key in visited {
    } else if IsGroupKey(g, key) {
      var members := MembersOf(g, key);
      Remaining(g.lookup.Keys, visited, visited + {key});
      ExpandAllStep(members, g, visited + {key});
      var res := ExpandAll(members, g, visited + {key});
      assert MemberKeys(g, key) <= res.1;
    } else {
      KeyOfStrip(name);
      StripIdempotent(name);
      assert Key(Strip(name)) == key;
      assert key in KeysOf({Strip(name)});
    }
  }

  lemma {:induction false} ExpandAllStep(members: seq<string>, g: Table<GroupRecord>, visited: set<string>)
    ensures forall m :: m in members ==> Key(m) in ExpandAll(members, g, visited).1
    ensures Step(g, visited, ExpandAll(members, g, visited).1, ExpandAll(members, g, visited).0)
    decreases |g.lookup.Keys - visited|, 1, |members|
  {
    if members != [] {
      var first := Expand(members[0], g, visited);
      ExpandStep(members[0], g, visited);
      Remaining(g.lookup.Keys, visited, first.1);
      ExpandAllStep(members[1..], g, first.1);
      var rest := ExpandAll(members[1..], g, first.1);
      StepCompose(g, visited, first.1, rest.1, first.0, rest.0);
      forall m | m in members
        ensures Key(m) in rest.1
      {
        if m != members[0] {
          assert m in members[1..];
        }
      }
    }
  }

  /** The properties the source's comments and callers rely on, for any
      visited set: termination is by the definition above; the result holds
      no group name (a leaf's key never names a present group), at most one
      name per lower-cased key, and only stripped names. */
  lemma ExpandLeaves(name: string, g: Table<GroupRecord>, visited: set<string>)
    ensures forall x :: x in Expand(name, g, visited).0 ==>
              !IsGroupKey(g, Key(x)) && Strip(x) == x && Key(x) !in visited
    ensures forall x, y :: x in Expand(name, g, visited).0 && y in Expand(name, g, visited).0 && Key(x) == Key(y) ==> x == y
  {
    ExpandStep(name, g, visited);
  }

  /** A name whose key is not a group key expands to its stripped self,
      defined or not, and records its key. */
  lemma ExpandNonGroup(name: string, g: Table<GroupRecord>, visited: set<string>)
    requires Key(name) !in visited && !IsGroupKey(g, Key(name))
    ensures Expand(name, g, visited) == ({Strip(name)}, visited + {Key(name)})
  {
  }

  // ---------------------------------------------------------------------
  // Reachability: an independent description of what an expansion yields.

  /** A chain of keys, each a group key whose members include (by key) the
      next one. */
  ghost predicate IsPath(g: Table<GroupRecord>, p: seq<string>) {
    |p| >= 1 &&
    forall i :: 0 <= i < |p| - 1 ==> IsGroupKey(g, p[i]) && p[i + 1] in MemberKeys(g, p[i])
  }

  ghost predicate Reaches(g: Table<GroupRecord>, from: string, to: string) {
    exists p :: IsPath(g, p) && p[0] == from && p[|p| - 1] == to
  }

  /** A set of keys closed under the member relation contains everything
      reachable from its elements. */
  lemma {:induction false} ClosedContainsPath(g: Table<GroupRecord>, s: set<string>, p: seq<string>)
    requires IsPath(g, p) && p[0] in s
    requires forall k :: k in s && IsGroupKey(g, k) ==> MemberKeys(g, k) <= s
    ensures p[|p| - 1] in s
    decreases |p|
  {
    if |p| > 1 {
      assert p[1] in MemberKeys(g, p[0]);
      assert IsPath(g, p[1..]);
      ClosedContainsPath(g, s, p[1..]);
    }
  }

  /** A group reaches whatever one of its members reaches. */
  lemma ReachesThroughMember(g: Table<GroupRecord>, key: string, m: string, x: string)
    requires IsGroupKey(g, key) && m in MembersOf(g, key)
    requires Reaches(g, Key(m), x)
    ensures Reaches(g, key, x)
  {
    var p :| IsPath(g, p) && p[0] == Key(m) && p[|p| - 1] == x;
    assert Key(m) in MemberKeys(g, key);
    var q := [key] + p;
    assert q[1..] == p;
    assert IsPath(g, q);
  }

  /** Every leaf of an expansion is reachable from the expanded name. */
  lemma {:induction false} ExpandSound(name: string, g: Table<GroupRecord>, visited: set<string>)
    ensures forall x :: x in Expand(name, g, visited).0 ==> Reaches(g, Key(name), Key(x))
    decreases |g.lookup.Keys - visited|, 0
  {
    var key := Key(name);
    if key in visited {
    } else if IsGroupKey(g, key) {
      var members := MembersOf(g, key);
      Remaining(g.lookup.Keys, visited, visited + {key});
      ExpandAllSound(members, g, visited + {key});
      assert Expand(name, g, visited).0 == ExpandAll(members, g, visited + {key}).0;
      forall x | x in Expand(name, g, visited).0
        ensures Reaches(g, key, Key(x))
      {
        var m :| m in members && Reaches(g, Key(m), Key(x));
        ReachesThroughMember(g, key, m, Key(x));
      }
    } else {
      KeyOfStrip(name);
      assert IsPath(g, [key]);
    }
  }

  lemma {:induction false} ExpandAllSound(members: seq<string>, g: Table<GroupRecord>, visited: set<string>)
    ensures forall x :: x in ExpandAll(members, g, visited).0 ==>
              exists m :: m in members && Reaches(g, Key(m), Key(x))
    decreases |g.lookup.Keys - visited|, 1, |members|
  {
    if members != [] {
      var first := Expand(members[0], g, visited);
      ExpandSound(members[0], g, visited);
      Remaining(g.lookup.Keys, visited, first.1);
      ExpandAllSound(members[1..], g, first.1);
      forall x | x in ExpandAll(members, g, visited).0
        ensures exists m :: m in members && Reaches(g, Key(m), Key(x))
      {
        if x in first.0 {
          assert members[0] in members;
        } else {
          var m :| m in members[1..] && Reaches(g, Key(m), Key(x));
          assert m in members;
        }
      }
    }
  }

  /** A fresh expansion (the way every caller invokes get_all_members)
      yields, up to letter case, exactly the non-group keys reachable from
      the name through group members, cycles included: the cycle guard cuts
      repetitions but loses no leaf. */
  lemma ExpandExact(name: string, g: Table<GroupRecord>)
    ensures forall k :: k in KeysOf(ExpandTop(name, g)) <==> Reaches(g, Key(name), k) && !IsGroupKey(g, k)
  {
    var res := Expand(name, g, {});
    ExpandStep(name, g, {});
    ExpandSound(name, g, {});
    forall k
      ensures k in KeysOf(res.0) <==> Reaches(g, Key(name), k) && !IsGroupKey(g, k)
    {
      if k in KeysOf(res.0) {
        var x :| x in res.0 && Key(x) == k;
      }
      if Reaches(g, Key(name), k) && !IsGroupKey(g, k) {
        var p :| IsPath(g, p) && p[0] == Key(name) && p[|p| - 1] == k;
        ClosedContainsPath(g, res.1, p);
      }
    }
  }

  /** G1 holds G2, G2 holds X: G1 expands to {X}. */
  lemma NestedGroupScenario()
    ensures ExpandTop("G1", Table(map["G1" := GroupRecord("G1", ["G2"]), "G2" := GroupRecord("G2", ["X"])],
                                  map["g1" := "G1", "g2" := "G2"])) == {"X"}
  {
    var g := Table(map["G1" := GroupRecord("G1", ["G2"]), "G2" := GroupRecord("G2", ["X"])],
                   map["g1" := "G1", "g2" := "G2"]);
    assert Key("G1") == "g1" by { StripOfTrimmed("G1"); }
    assert Key("G2") == "g2" by { StripOfTrimmed("G2"); }
    assert Key("X") == "x" && Strip("X") == "X" by { StripOfTrimmed("X"); }
    var v1 := {"g1"};
    var v2 := v1 + {"g2"};
    assert !IsGroupKey(g, "x") && "x" !in v2;
    assert Expand("X", g, v2).0 == {"X"};
    assert ["X"][1..] == [];
    assert ExpandAll(["X"], g, v2).0 == {"X"};
    assert "g2" !in v1;
    assert Expand("G2", g, v1).0 == {"X"};
    assert ["G2"][1..] == [];
    assert ExpandAll(["G2"], g, v1).0 == {"X"};
    assert MembersOf(g, "g1") == ["G2"] && {} + {"g1"} == v1;
    assert Expand("G1", g, {}).0 == {"X"};
  }

  /** A self-referential group terminates with nothing: A holds only A. */
  lemma SelfCycleScenario()
    ensures ExpandTop("A", Table(map["A" := GroupRecord("A", ["A"])], map["a" := "A"])) == {}
  {
    var g := Table(map["A" := GroupRecord("A", ["A"])], map["a" := "A"]);
    assert Key("A") == "a" by { StripOfTrimmed("A"); }
    assert Expand("A", g, {"a"}).0 == {};
    assert ["A"][1..] == [];
    assert ExpandAll(["A"], g, {"a"}).0 == {};
    assert MembersOf(g, "a") == ["A"] && {} + {"a"} == {"a"};
    assert Expand("A", g, {}).0 == {};
  }
}
