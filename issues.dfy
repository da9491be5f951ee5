/** find_policy_reference_issues: the cross-scope check of the policy
    table. Every whitespace-separated token of a policy's srcaddr, dstaddr
    and service fields is compared, case-sensitively, with the names
    defined in the policy's VDOM; a token defined there is fine, a token
    defined only in the global scope is reported as such, and any other
    token is reported as undefined. Only the exact tokens "all" and "ALL"
    are exempt. */
module PolicyIssues {
  import opened Text
  import opened Registry

  /** A policy as the reporter reads it: field name to text. */
  type RawPolicy = map<string, string>

  /** The result of the function: the issue list, or the missing key of
      the scope map that made the lookup fail (a Python KeyError). */
  datatype Outcome = Ok(issues: seq<string>) | KeyError(key: string)

  datatype Family = AddressRef | ServiceRef

  datatype IssueKind = DefinedInGlobal | Undefined

  /** One reported token. */
  datatype Issue = Issue(pid: string, family: Family, token: string, kind: IssueKind)

  /** The policy's label in a message: its policyid if non-empty, else
      its id if non-empty, else its name (even an empty one), else
      "[noid]". */
  function PolicyId(pol: RawPolicy): string {
    if Field(pol, "policyid") != "" then pol["policyid"]
    else if Field(pol, "id") != "" then pol["id"]
    else if "name" in pol then pol["name"]
    else "[noid]"
  }

  /** The names a scope defines for one family: atomic objects and
      groups. */
  function KnownAddr(s: ScopeObjects): set<string> {
    s.address + s.addrgrp.Keys
  }

  function KnownSvc(s: ScopeObjects): set<string> {
    s.service + s.servicegrp.Keys
  }

  /** The only exemption: the exact spellings "all" and "ALL". */
  predicate Exempt(token: string) {
    token == "all" || token == "ALL"
  }

  /** The issue raised by one token, if any. */
  function Check(pid: string, family: Family, token: string, known: set<string>, global: set<string>): seq<Issue> {
    if Exempt(token) || token in known then []
    else [Issue(pid, family, token, if token in global then DefinedInGlobal else Undefined)]
  }

  /** The issues of a run of tokens, in order. */
  function TokenIssues(pid: string, family: Family, tokens: seq<string>, known: set<string>, global: set<string>): seq<Issue> {
    if tokens == [] then []
    else (TokenIssues(pid, family, tokens[..|tokens| - 1], known, global)
          + Check(pid, family, tokens[|tokens| - 1], known, global))
  }

  /** A missing field reads as "" and so has no tokens. */
  function Tokens(pol: RawPolicy, field: string): seq<string> {
    Split(Field(pol, field))
  }

  /** One policy's issues: srcaddr tokens, dstaddr tokens, service
      tokens. */
  function IssuesOfPolicy(pol: RawPolicy, local: ScopeObjects, global: ScopeObjects): seq<Issue> {
    var pid := PolicyId(pol);
    TokenIssues(pid, AddressRef, Tokens(pol, "srcaddr"), KnownAddr(local), KnownAddr(global))
    + TokenIssues(pid, AddressRef, Tokens(pol, "dstaddr"), KnownAddr(local), KnownAddr(global))
    + TokenIssues(pid, ServiceRef, Tokens(pol, "service"), KnownSvc(local), KnownSvc(global))
  }

  /** The issues of each policy in turn. */
  function AllOf(policies: seq<RawPolicy>, issuesOf: RawPolicy -> seq<Issue>): seq<Issue> {
    if policies == [] then []
    else AllOf(policies[..|policies| - 1], issuesOf) + issuesOf(policies[|policies| - 1])
  }

  /** Specification: all policies' issues, policy by policy. */
  function AllIssues(policies: seq<RawPolicy>, local: ScopeObjects, global: ScopeObjects): seq<Issue> {
    AllOf(policies, pol => IssuesOfPolicy(pol, local, global))
  }

  /** The text the source appends for an issue; `vdom` is the scope the
      reporter was called with. */
  function Message(issue: Issue, vdom: string): string {
    "ポリシーID " + issue.pid + Noun(issue.family) + issue.token + Tail(issue.kind, vdom)
  }

  /** The family's word with its opening bracket. */
  function Noun(f: Family): string {
    if f == AddressRef then ": アドレス「" else ": サービス「"
  }

  /** The closing bracket and the verdict. */
  function Tail(k: IssueKind, vdom: string): string {
    if k == DefinedInGlobal then "」は global 定義" else "」が " + vdom + " または global に未定義"
  }

  /** The messages of a run of issues, one for one and in order. */
  function Messages(issues: seq<Issue>, vdom: string): (texts: seq<string>)
    ensures |texts| == |issues|
  {
    seq(|issues|, i requires 0 <= i < |issues| => Message(issues[i], vdom))
  }

  /** Messages are rendered issue by issue, so they follow the issues'
      order across concatenation. */
  lemma MessagesConcat(a: seq<Issue>, b: seq<Issue>, vdom: string)
    ensures Messages(a + b, vdom) == Messages(a, vdom) + Messages(b, vdom)
  {
    var l, r := Messages(a + b, vdom), Messages(a, vdom) + Messages(b, vdom);
    assert |l| == |r|;
    forall i | 0 <= i < |l|
      ensures l[i] == r[i]
    {
      if i < |a| {
        assert (a + b)[i] == a[i];
      } else {
        assert (a + b)[i] == b[i - |a|];
      }
    }
  }

  lemma TokenIssuesStep(pid: string, family: Family, tokens: seq<string>, j: nat, known: set<string>, global: set<string>)
    requires j < |tokens|
    ensures TokenIssues(pid, family, tokens[..j + 1], known, global)
         == TokenIssues(pid, family, tokens[..j], known, global) + Check(pid, family, tokens[j], known, global)
  {
    assert tokens[..j + 1][..j] == tokens[..j];
  }

  /** The inner loop over one field's tokens: it appends the messages of
      exactly the issues TokenIssues raises, in token order. */
  method CheckTokens(pid: string, family: Family, tokens: seq<string>, known: set<string>, global: set<string>,
                     vdom: string, acc: seq<string>)
    returns (out: seq<string>)
    ensures out == acc + Messages(TokenIssues(pid, family, tokens, known, global), vdom)
  {
    out := acc;
    var j := 0;
    while j < |tokens|
      invariant 0 <= j <= |tokens|
      invariant out == acc + Messages(TokenIssues(pid, family, tokens[..j], known, global), vdom)
    {
      var token := tokens[j];
      var done := TokenIssues(pid, family, tokens[..j], known, global);
      var step := Check(pid, family, token, known, global);
      TokenIssuesStep(pid, family, tokens, j, known, global);
      MessagesConcat(done, step, vdom);
      if token != "all" && token != "ALL" && token !in known {
        var issue := Issue(pid, family, token, if token in global then DefinedInGlobal else Undefined);
        assert Messages(step, vdom) == [Message(issue, vdom)];
        out := out + [Message(issue, vdom)];
      } else {
        assert Messages(step, vdom) == [];
      }
      j := j + 1;
    }
    assert tokens[..j] == tokens;
  }

  /** The body of the policy loop: the srcaddr and dstaddr tokens
      against the address names, then the service tokens against the
      service names. */
  method CheckPolicy(pol: RawPolicy, local: ScopeObjects, global: ScopeObjects, vdom: string, acc: seq<string>)
    returns (out: seq<string>)
    ensures out == acc + Messages(IssuesOfPolicy(pol, local, global), vdom)
  {
    var pid := PolicyId(pol);
    var knownAddr, globalAddr := KnownAddr(local), KnownAddr(global);
    var knownSvc, globalSvc := KnownSvc(local), KnownSvc(global);
    var src, dst, svc := Tokens(pol, "srcaddr"), Tokens(pol, "dstaddr"), Tokens(pol, "service");
    ghost var a := TokenIssues(pid, AddressRef, src, knownAddr, globalAddr);
    ghost var b := TokenIssues(pid, AddressRef, dst, knownAddr, globalAddr);
    ghost var c := TokenIssues(pid, ServiceRef, svc, knownSvc, globalSvc);
    assert IssuesOfPolicy(pol, local, global) == a + b + c;
    var o1 := CheckTokens(pid, AddressRef, src, knownAddr, globalAddr, vdom, acc);
    var o2 := CheckTokens(pid, AddressRef, dst, knownAddr, globalAddr, vdom, o1);
    out := CheckTokens(pid, ServiceRef, svc, knownSvc, globalSvc, vdom, o2);
    ThreeRuns(acc, a, b, c, vdom, o1, o2, out);
  }

  /** Appending the messages of three runs of issues one after another
      appends the messages of the three runs together. */
  lemma ThreeRuns(acc: seq<string>, a: seq<Issue>, b: seq<Issue>, c: seq<Issue>, vdom: string,
                  o1: seq<string>, o2: seq<string>, o3: seq<string>)
    requires o1 == acc + Messages(a, vdom)
    requires o2 == o1 + Messages(b, vdom)
    requires o3 == o2 + Messages(c, vdom)
    ensures o3 == acc + Messages(a + b + c, vdom)
  {
    MessagesConcat(a, b, vdom);
    MessagesConcat(a + b, c, vdom);
  }

  lemma AllIssuesStep(policies: seq<RawPolicy>, p: nat, local: ScopeObjects, global: ScopeObjects)
    requires p < |policies|
    ensures AllIssues(policies[..p + 1], local, global) == AllIssues(policies[..p], local, global) + IssuesOfPolicy(policies[p], local, global)
  {
    assert policies[..p + 1][..p] == policies[..p];
    assert AllOf(policies[..p + 1], pol => IssuesOfPolicy(pol, local, global))
        == AllOf(policies[..p], pol => IssuesOfPolicy(pol, local, global)) + IssuesOfPolicy(policies[p], local, global);
  }

  /** find_policy_reference_issues(policy_list, all_objs, vdom). The scope
      is read before the global scope, so a missing VDOM is the error
      reported even when "global" is missing too. */
  method FindPolicyReferenceIssues(policyList: seq<RawPolicy>, allObjs: AllObjects, vdom: string)
    returns (r: Outcome)
    ensures vdom !in allObjs ==> r == KeyError(vdom)
    ensures vdom in allObjs && "global" !in allObjs ==> r == KeyError("global")
    ensures vdom in allObjs && "global" in allObjs ==>
      r == Ok(Messages(AllIssues(policyList, allObjs[vdom], allObjs["global"]), vdom))
  {
    if vdom !in allObjs {
      return KeyError(vdom);
    }
    if "global" !in allObjs {
      return KeyError("global");
    }
    var issues: seq<string> := [];
    var p := 0;
    while p < |policyList|
      invariant 0 <= p <= |policyList|
      invariant issues == Messages(AllIssues(policyList[..p], allObjs[vdom], allObjs["global"]), vdom)
    {
      AllIssuesStep(policyList, p, allObjs[vdom], allObjs["global"]);
      MessagesConcat(AllIssues(policyList[..p], allObjs[vdom], allObjs["global"]),
                     IssuesOfPolicy(policyList[p], allObjs[vdom], allObjs["global"]), vdom);
      issues := CheckPolicy(policyList[p], allObjs[vdom], allObjs["global"], vdom, issues);
      p := p + 1;
    }
    assert policyList[..p] == policyList;
    return Ok(issues);
  }

  // ---------------------------------------------------------------------
  // Which tokens are reported, and in what order.

  /** The issues of consecutive runs of tokens follow one another: the
      report keeps the token order. */
  lemma {:induction false} TokenIssuesConcat(pid: string, family: Family, a: seq<string>, b: seq<string>, known: set<string>, global: set<string>)
    ensures TokenIssues(pid, family, a + b, known, global) == TokenIssues(pid, family, a, known, global) + TokenIssues(pid, family, b, known, global)
    decreases |b|
  {
    if b == [] {
      assert a + b == a;
    } else {
      var b' := b[..|b| - 1];
      assert (a + b)[..|a + b| - 1] == a + b';
      assert (a + b)[|a + b| - 1] == b[|b| - 1];
      TokenIssuesConcat(pid, family, a, b', known, global);
    }
  }

  /** A run of tokens raises an issue for exactly the tokens that are not
      exempt and not defined in the scope, and classifies each by whether
      the global scope defines it. */
  lemma {:induction false} TokenIssuesMember(pid: string, family: Family, tokens: seq<string>, known: set<string>, global: set<string>)
    ensures forall iss :: iss in TokenIssues(pid, family, tokens, known, global) <==>
      && iss.pid == pid && iss.family == family && iss.token in tokens
      && !Exempt(iss.token) && iss.token !in known
      && (iss.kind == DefinedInGlobal <==> iss.token in global)
    decreases |tokens|
  {
    if tokens != [] {
      var init := tokens[..|tokens| - 1];
      TokenIssuesMember(pid, family, init, known, global);
      assert tokens == init + [tokens[|tokens| - 1]];
    }
  }

  /** Why an issue is raised for a policy: its id, a token of one of the
      family's fields that is not exempt, not defined in the scope, and
      classified by the global scope. */
  ghost predicate Raised(iss: Issue, pol: RawPolicy, local: ScopeObjects, global: ScopeObjects) {
    && iss.pid == PolicyId(pol)
    && !Exempt(iss.token)
    && (iss.family == AddressRef ==>
          && (iss.token in Tokens(pol, "srcaddr") || iss.token in Tokens(pol, "dstaddr"))
          && iss.token !in KnownAddr(local)
          && (iss.kind == DefinedInGlobal <==> iss.token in KnownAddr(global)))
    && (iss.family == ServiceRef ==>
          && iss.token in Tokens(pol, "service")
          && iss.token !in KnownSvc(local)
          && (iss.kind == DefinedInGlobal <==> iss.token in KnownSvc(global)))
  }

  lemma IssuesOfPolicyMember(pol: RawPolicy, local: ScopeObjects, global: ScopeObjects)
    ensures forall iss :: iss in IssuesOfPolicy(pol, local, global) <==> Raised(iss, pol, local, global)
  {
    var pid := PolicyId(pol);
    TokenIssuesMember(pid, AddressRef, Tokens(pol, "srcaddr"), KnownAddr(local), KnownAddr(global));
    TokenIssuesMember(pid, AddressRef, Tokens(pol, "dstaddr"), KnownAddr(local), KnownAddr(global));
    TokenIssuesMember(pid, ServiceRef, Tokens(pol, "service"), KnownSvc(local), KnownSvc(global));
  }

  /** The report holds the issues of each policy and nothing else. */
  lemma {:induction false} AllOfMember(policies: seq<RawPolicy>, issuesOf: RawPolicy -> seq<Issue>)
    ensures forall iss :: iss in AllOf(policies, issuesOf) <==>
              exists i :: 0 <= i < |policies| && iss in issuesOf(policies[i])
    decreases |policies|
  {
    if policies != [] {
      var n := |policies| - 1;
      var init := policies[..n];
      AllOfMember(init, issuesOf);
      forall iss | iss in AllOf(init, issuesOf)
        ensures exists i :: 0 <= i < |policies| && iss in issuesOf(policies[i])
      {
        var i :| 0 <= i < n && iss in issuesOf(init[i]);
        assert init[i] == policies[i];
      }
      forall iss, i | 0 <= i < n && iss in issuesOf(policies[i])
        ensures iss in AllOf(init, issuesOf)
      {
        assert init[i] == policies[i];
      }
    }
  }

  /** The report holds exactly the issues some policy raises. */
  lemma IssuesExactly(policies: seq<RawPolicy>, local: ScopeObjects, global: ScopeObjects)
    ensures forall iss :: iss in AllIssues(policies, local, global) <==>
              exists i :: 0 <= i < |policies| && Raised(iss, policies[i], local, global)
  {
    AllOfMember(policies, pol => IssuesOfPolicy(pol, local, global));
    forall i | 0 <= i < |policies|
      ensures forall iss :: iss in IssuesOfPolicy(policies[i], local, global) <==> Raised(iss, policies[i], local, global)
    {
      IssuesOfPolicyMember(policies[i], local, global);
    }
  }

  /** Policies are reported in order: the issues of a list of policies
      are those of a prefix followed by those of the rest. */
  lemma {:induction false} AllOfConcat(a: seq<RawPolicy>, b: seq<RawPolicy>, issuesOf: RawPolicy -> seq<Issue>)
    ensures AllOf(a + b, issuesOf) == AllOf(a, issuesOf) + AllOf(b, issuesOf)
    decreases |b|
  {
    if b == [] {
      assert a + b == a;
    } else {
      var b' := b[..|b| - 1];
      assert (a + b)[..|a + b| - 1] == a + b';
      assert (a + b)[|a + b| - 1] == b[|b| - 1];
      AllOfConcat(a, b', issuesOf);
    }
  }

  // ---------------------------------------------------------------------
  // Scenarios.

  const EmptyScope := ScopeObjects({}, map[], {}, map[])

  /** "any" is not exempt (only "all"/"ALL" are), and a policy without
      policyid, id or name is reported as "[noid]". */
  lemma AnyIsReported()
    ensures AllIssues([map["srcaddr" := "any"]], EmptyScope, EmptyScope) == [Issue("[noid]", AddressRef, "any", Undefined)]
  {
    var pol: RawPolicy := map["srcaddr" := "any"];
    AnyPolicyFields();
    var pid := PolicyId(pol);
    SingleToken(pid, AddressRef, "any", {}, {});
    var src := TokenIssues(pid, AddressRef, ["any"], {}, {});
    assert src == [Issue("[noid]", AddressRef, "any", Undefined)];
    assert TokenIssues(pid, AddressRef, [], {}, {}) == [];
    assert TokenIssues(pid, ServiceRef, [], {}, {}) == [];
    assert KnownAddr(EmptyScope) == {} && KnownSvc(EmptyScope) == {};
    assert IssuesOfPolicy(pol, EmptyScope, EmptyScope) == src + [] + [];
    SinglePolicy(pol, EmptyScope, EmptyScope);
  }

  /** The fields of the policy `{"srcaddr": "any"}` as the reporter reads
      them. */
  lemma AnyPolicyFields()
    ensures PolicyId(map["srcaddr" := "any"]) == "[noid]"
    ensures Tokens(map["srcaddr" := "any"], "srcaddr") == ["any"]
    ensures Tokens(map["srcaddr" := "any"], "dstaddr") == []
    ensures Tokens(map["srcaddr" := "any"], "service") == []
  {
    SplitOfWord("any");
    SplitOfBlank("");
  }

  /** The policy of the two reference-check scenarios: policyid 1, one
      source token, destination "all", service "ALL". */
  function ScenarioPolicy(src: string): RawPolicy {
    map["policyid" := "1", "srcaddr" := src, "dstaddr" := "all", "service" := "ALL"]
  }

  lemma ScenarioTokens(src: string)
    requires IsWord(src)
    ensures PolicyId(ScenarioPolicy(src)) == "1"
    ensures Tokens(ScenarioPolicy(src), "srcaddr") == [src]
    ensures Tokens(ScenarioPolicy(src), "dstaddr") == ["all"]
    ensures Tokens(ScenarioPolicy(src), "service") == ["ALL"]
  {
    SplitOfWord(src);
    SplitOfWord("all");
    SplitOfWord("ALL");
  }

  lemma SingleToken(pid: string, family: Family, token: string, known: set<string>, global: set<string>)
    ensures TokenIssues(pid, family, [token], known, global) == Check(pid, family, token, known, global)
  {
    assert [token][..0] == [];
  }

  lemma SinglePolicy(pol: RawPolicy, local: ScopeObjects, global: ScopeObjects)
    ensures AllIssues([pol], local, global) == IssuesOfPolicy(pol, local, global)
  {
    assert [pol][..0] == [];
    assert AllOf([pol], p => IssuesOfPolicy(p, local, global)) == [] + IssuesOfPolicy(pol, local, global);
  }

  lemma ScenarioIssues(src: string, local: ScopeObjects, global: ScopeObjects)
    requires IsWord(src) && !Exempt(src) && src !in KnownAddr(local)
    ensures AllIssues([ScenarioPolicy(src)], local, global)
         == [Issue("1", AddressRef, src, if src in KnownAddr(global) then DefinedInGlobal else Undefined)]
  {
    var pol := ScenarioPolicy(src);
    ScenarioTokens(src);
    SingleToken("1", AddressRef, src, KnownAddr(local), KnownAddr(global));
    SingleToken("1", AddressRef, "all", KnownAddr(local), KnownAddr(global));
    SingleToken("1", ServiceRef, "ALL", KnownSvc(local), KnownSvc(global));
    SinglePolicy(pol, local, global);
  }

  /** The message tells the reader what was found: for one policy and
      token, an address issue and a service issue read differently, and so
      do a global-only issue and an undefined one. */
  lemma MessagesDistinguish(pid: string, token: string, vdom: string, f1: Family, f2: Family, k1: IssueKind, k2: IssueKind)
    requires f1 != f2 || k1 != k2
    ensures Message(Issue(pid, f1, token, k1), vdom) != Message(Issue(pid, f2, token, k2), vdom)
  {
    var head := "ポリシーID " + pid;
    if f1 != f2 {
      NounsDiffer(f1, f2);
      DifferAfter(head, Noun(f1) + token + Tail(k1, vdom), Noun(f2) + token + Tail(k2, vdom), 2);
      MessageParts(pid, f1, token, k1, vdom);
      MessageParts(pid, f2, token, k2, vdom);
    } else {
      TailsDiffer(k1, k2, vdom);
      DifferAfter(head + Noun(f1) + token, Tail(k1, vdom), Tail(k2, vdom), 1);
      MessageParts(pid, f1, token, k1, vdom);
      MessageParts(pid, f2, token, k2, vdom);
    }
  }

  lemma MessageParts(pid: string, f: Family, token: string, k: IssueKind, vdom: string)
    ensures Message(Issue(pid, f, token, k), vdom) == ("ポリシーID " + pid) + (Noun(f) + token + Tail(k, vdom))
    ensures Message(Issue(pid, f, token, k), vdom) == ("ポリシーID " + pid + Noun(f) + token) + Tail(k, vdom)
  {
  }

  /** ア against サ. */
  lemma NounsDiffer(f1: Family, f2: Family)
    requires f1 != f2
    ensures |Noun(f1)| > 2 && |Noun(f2)| > 2 && Noun(f1)[2] != Noun(f2)[2]
  {
  }

  /** は against が. */
  lemma TailsDiffer(k1: IssueKind, k2: IssueKind, vdom: string)
    requires k1 != k2
    ensures |Tail(k1, vdom)| > 1 && |Tail(k2, vdom)| > 1 && Tail(k1, vdom)[1] != Tail(k2, vdom)[1]
  {
  }

  lemma DifferAfter(h: string, x: string, y: string, i: nat)
    requires i < |x| && i < |y| && x[i] != y[i]
    ensures h + x != h + y
  {
    assert (h + x)[|h| + i] == x[i];
    assert (h + y)[|h| + i] == y[i];
  }

  /** A policy in root naming an address defined nowhere. */
  lemma UndefinedAddressScenario()
    ensures Messages(AllIssues([ScenarioPolicy("UNDEFINED")], EmptyScope, EmptyScope), "root")
         == ["ポリシーID 1: アドレス「UNDEFINED」が root または global に未定義"]
  {
    ScenarioIssues("UNDEFINED", EmptyScope, EmptyScope);
    UndefinedText();
  }

  lemma UndefinedText()
    ensures Message(Issue("1", AddressRef, "UNDEFINED", Undefined), "root")
         == "ポリシーID 1: アドレス「UNDEFINED」が root または global に未定義"
  {
    UndefinedHead();
    UndefinedTail();
    UndefinedWhole();
    Regroup("ポリシーID ", "1", ": アドレス「", "UNDEFINED", "」が ", "root", " または global に未定義");
  }

  // The literal pieces of the two scenario messages, one small equation at
  // a time.

  lemma UndefinedHead()
    ensures "ポリシーID " + "1" + ": アドレス「" + "UNDEFINED" == "ポリシーID 1: アドレス「UNDEFINED"
  {
  }

  lemma UndefinedTail()
    ensures "」が " + "root" + " または global に未定義" == "」が root または global に未定義"
  {
  }

  lemma UndefinedWhole()
    ensures "ポリシーID 1: アドレス「UNDEFINED" + "」が root または global に未定義"
         == "ポリシーID 1: アドレス「UNDEFINED」が root または global に未定義"
  {
  }

  lemma Regroup(a: string, b: string, c: string, d: string, e: string, f: string, g: string)
    ensures a + b + c + d + e + f + g == (a + b + c + d) + (e + f + g)
  {
  }

  /** A policy in root naming an address the global scope defines and
      root does not. */
  lemma GlobalAddressScenario()
    ensures Messages(AllIssues([ScenarioPolicy("GLOBAL_ADDR")], EmptyScope, ScopeObjects({"GLOBAL_ADDR"}, map[], {}, map[])), "root")
         == ["ポリシーID 1: アドレス「GLOBAL_ADDR」は global 定義"]
  {
    ScenarioIssues("GLOBAL_ADDR", EmptyScope, ScopeObjects({"GLOBAL_ADDR"}, map[], {}, map[]));
    GlobalText();
  }

  lemma GlobalText()
    ensures Message(Issue("1", AddressRef, "GLOBAL_ADDR", DefinedInGlobal), "root")
         == "ポリシーID 1: アドレス「GLOBAL_ADDR」は global 定義"
  {
    GlobalHead();
    GlobalWhole();
  }

  lemma GlobalHead()
    ensures "ポリシーID " + "1" + ": アドレス「" + "GLOBAL_ADDR" == "ポリシーID 1: アドレス「GLOBAL_ADDR"
  {
  }

  lemma GlobalWhole()
    ensures "ポリシーID 1: アドレス「GLOBAL_ADDR" + "」は global 定義" == "ポリシーID 1: アドレス「GLOBAL_ADDR」は global 定義"
  {
  }
}
