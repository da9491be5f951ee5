# FortiGate policy auditor: object resolution, modelled in Dafny

This project models the object-resolution core of a FortiGate configuration
auditor. The auditor is two Python scripts. `fortigate_to_html.py` is the
current report generator. `fortigate.py` is an older single-scope version.

The model covers these parts:

- **VDOM splitter** (`VdomBlocks`, vdom.dfy). `extract_vdom_blocks` cuts a
  configuration, given as its lines, into one text per VDOM plus a "root"
  text.
- **Registry** (`Registry`, registry.dfy). Each object kind has a dict keyed
  by canonical name and a lookup table from lower-cased name to canonical
  name. `smart_obj_lookup` is modelled here.
- **Group expansion** (`Expansion`, expansion.dfy).
  `get_all_members` and `get_all_service_members` expand groups
  case-insensitively. One `visited` set is shared by the whole call tree.
  The two functions are the same in both scripts, so the model states them
  once over a group table.
- **Per-VDOM resolvers** (`ScopeResolve`, resolve.dfy). `resolve_addr` and
  `resolve_service` resolve names case-sensitively and drop undefined names.
- **Object tree** (`Render`, render.dfy). `render_obj_branch` becomes a tree
  of nodes (wildcard, address, VIP, group, service, undefined, skipped)
  instead of HTML. A flag selects the VIP-aware variant of
  `fortigate_to_html.py` or the older variant of `fortigate.py`.
- **Undefined-leaf collector** (`UndefinedObjects`, undefined.dfy).
  `collect_undefined_objs` expands each srcaddr, dstaddr and service entry
  and keeps the leaves that are neither defined atoms nor wildcards.
- **Issue reporter** (`PolicyIssues`, issues.dfy). `find_policy_reference_issues`
  classifies each policy token as local, global-only or undefined. It
  produces the ordered list of Japanese issue messages.

Each loop in the source is a Dafny method with loop invariants, proved
equal to a specification function or expression. The two-field loop of
`find_policy_reference_issues` over srcaddr and dstaddr is unrolled in
`CheckPolicy`. The properties below are lemmas about those
specifications.

Shared mutable sets are modelled as values passed in and returned: the
`visited`, `seen` and `resolved` sets that the Python code threads through
recursive calls. Termination of every recursion is measured by the group
keys not yet visited (`Measure.Remaining`).

`Text` (text.dfy) supplies the ASCII models of `str.strip()`, `str.lower()`,
`str.split()`, `str.strip(c)`, `str.startswith` and `str.join`.

## Model

| member | source | states |
|---|---|---|
| Registry.Lookup | fortigate_to_html.py:377-384 | An empty name finds nothing. Otherwise the record is found exactly when the stripped, lower-cased key is in the lookup table and names a record of the dict, and the result is that canonical record. |
| Registry.LookupCaseInsensitive | fortigate.py:160-167 | Two non-empty spellings with the same key ("Web" and " web ") find the same record. |
| Registry.LookupValid | fortigate.py:163-167 | In a table whose lookup entries all name records, a non-empty name is found iff its key is in the lookup table. The record found is filed under a name with the same key. |
| Registry.LookupFindsCanonical | fortigate_to_html.py:380-383 | A canonical name is found from any non-empty spelling of its key. |
| Registry.Insert | fortigate_to_html.py:257-258 | Storing a parsed record as the parsers do (results[name], lookup[name.lower()]) keeps the table valid, and the record is found again by its name. |
| Expansion.GetAllMembers | fortigate_to_html.py:341-356 | The loop with its shared visited set computes exactly the specification Expand: the leaf names and the visited set afterwards. |
| Expansion.ExpandStep | fortigate_to_html.py:341-347 | The name's key is always marked visited. An already-visited key yields the empty set and leaves visited unchanged. Every newly visited group has all its members' keys visited, and every newly visited non-group key is a leaf. |
| Expansion.ExpandAllStep | fortigate.py:136-138 | Expanding a member list marks every member's key visited and keeps the same step invariant across siblings. |
| Expansion.ExpandLeaves | fortigate_to_html.py:348-356 | Every leaf is stripped, is not a group key and was not visited before the call. No two leaves share a lower-case key. |
| Expansion.ExpandNonGroup | fortigate.py:127-139 | An unvisited name whose key is not a group key expands to exactly {name.strip()}, defined or not, and its key is added to visited. |
| Expansion.ExpandSound | fortigate.py:142-157 | Every leaf is reachable from the name through group membership. |
| Expansion.ExpandExact | fortigate_to_html.py:359-374 | A fresh expansion yields exactly the keys reachable from the name's key through group membership that are not group keys. Cycles are cut and no group name survives. |
| Expansion.NestedGroupScenario | fortigate.py:124-139 | G1 containing G2 containing X expands to {X}. |
| Expansion.SelfCycleScenario | fortigate_to_html.py:345-347 | A group listing itself terminates and expands to the empty set. |
| ScopeResolve.ResolveNames | fortigate_to_html.py:131-150 | The loop shared by both resolvers computes exactly the specification Resolve, with the shared resolved set. |
| ScopeResolve.ResolveAddr | fortigate_to_html.py:131-150 | An already-resolved name yields nothing and leaves resolved unchanged. Otherwise it resolves over the VDOM's address groups and addresses. |
| ScopeResolve.ResolveService | fortigate_to_html.py:152-168 | The same over the VDOM's service groups and services. |
| ScopeResolve.ResolveStep | fortigate_to_html.py:135-137 | The name is always marked resolved. Every name found is an atom, not a group, and newly resolved. Every newly resolved group has all its members resolved. |
| ScopeResolve.ResolveSound | fortigate_to_html.py:141-145 | Every name found is reachable from the name through group members. |
| ScopeResolve.ResolveExact | fortigate_to_html.py:131-168 | A fresh resolution finds exactly the atoms reachable through group members that are not themselves groups. The result is a subset of the VDOM's atoms. |
| ScopeResolve.UndefinedVanishes | fortigate_to_html.py:148-150 | A name that is neither a group nor an atom yields nothing and is still marked resolved. |
| ScopeResolve.GroupShadowsAtom | fortigate_to_html.py:141-147 | The group map is consulted first: a name that is a group is never in its own result, even if it is also an atom. |
| ScopeResolve.CaseSensitiveScenario | fortigate_to_html.py:166-168 | With only "Web" defined, "web" resolves to nothing. |
| Render.RenderObjBranch | fortigate_to_html.py:386-471 | The method with its shared seen set builds exactly the specification tree Render and the seen set afterwards. |
| Render.RenderMembers | fortigate.py:203-211 | The member loop renders each member in order with one shared seen set, exactly as RenderAll. |
| Render.RenderAll | fortigate.py:231-239 | One child per member, in order, each naming its member. Seen only grows. |
| Render.KindPrecedence | fortigate.py:177-243 | The node kind is the first test that holds, in order: already seen, any/all in any case, truthy address (VIP only in the VIP-aware variant), address group, truthy service, service group, else undefined. |
| Render.AddressBeforeService | fortigate_to_html.py:404-421 | An unseen, non-wildcard name with a non-empty address record renders as that address. It is a VIP iff the variant is VIP-aware and both extip and mappedip are non-empty. The name's key is added to seen. |
| Render.UndefinedExactly | fortigate_to_html.py:394-471 | Over valid tables with non-empty records, a node is undefined iff its key is unseen, not any/all, and either the name is empty or its key is in none of the four lookup tables. |
| Render.WildcardScenario | fortigate_to_html.py:396-402 | "ANY" renders as the wildcard in either variant and marks "any" seen. |
| Render.RenderOnce | fortigate.py:177-182 | Within one top-level call each lower-case key is rendered at most once. The keys rendered are exactly the keys newly added to seen. |
| Render.RenderAllOnce | fortigate.py:203-211 | The same across a member list sharing one seen set. |
| Render.VipErasure | fortigate_to_html.py:404-421 | The two variants differ only in VIP nodes: with VIP nodes turned back into address nodes, the trees are equal and so are the seen sets. |
| Render.EraseVipFree | fortigate_to_html.py:407-414 | Erasing VIP nodes leaves a tree with no VIP node. |
| Render.NoVipInOlderVersion | fortigate.py:187-194 | The variant without VIP support never produces a VIP node. |
| UndefinedObjects.CollectUndefinedObjs | fortigate_to_html.py:473-507 | The nested loops compute exactly the undefined leaves of all srcaddr and dstaddr entries against the address names, and of all service entries against the service names. |
| UndefinedObjects.CollectField | fortigate_to_html.py:487-496 | A missing or empty field adds nothing, a scalar is treated as one entry, and each entry's fresh expansion adds its reported leaves. |
| UndefinedObjects.AddReported | fortigate.py:265-268 | Adds exactly the leaves whose key is neither a defined name nor any/all. |
| UndefinedObjects.UndefinedLeavesMember | fortigate.py:263-268 | A name is among the undefined leaves of an entry list iff some entry expands to it and it is reported. |
| UndefinedObjects.CollectedExactly | fortigate.py:245-279 | A name is collected iff some policy's field entry expands to it, its key is not a defined atomic name, and it is not any/all. |
| UndefinedObjects.NeverReported | fortigate.py:251-279 | A collected name is stripped and is not a group key. Its key is not a defined name and is not any or all, so defined names, wildcards in any case and groups are never reported. |
| UndefinedObjects.ReportedComplete | fortigate_to_html.py:491-496 | Every non-group key reachable from a policy entry that is neither a defined name nor any/all is reported under some spelling. |
| PolicyIssues.FindPolicyReferenceIssues | fortigate_to_html.py:170-199 | A missing VDOM scope fails with KeyError, then a missing global scope. Otherwise the result is Ok with the messages of the specification AllIssues, one per issue and in order. |
| PolicyIssues.CheckPolicy | fortigate_to_html.py:179-198 | One policy appends the messages of its srcaddr, dstaddr and service token issues, in that order, to what was there. |
| PolicyIssues.CheckTokens | fortigate_to_html.py:182-190 | The token loop appends exactly the messages of TokenIssues for the whitespace-split field, in token order. |
| PolicyIssues.TokenIssuesMember | fortigate_to_html.py:182-198 | An issue is raised for a token iff it is not exactly all/ALL and not a local name or group (case-sensitive). It is global-defined iff the token is a global name or group. |
| PolicyIssues.IssuesExactly | fortigate_to_html.py:170-199 | An issue is in the report iff some policy raises it for one of its address or service tokens. |
| PolicyIssues.MessagesConcat | fortigate_to_html.py:187-198 | Messages are rendered issue by issue, so the messages of two runs of issues are the two runs' messages in order. |
| PolicyIssues.AllOfConcat | fortigate_to_html.py:178 | The report over two runs of policies is the concatenation of the two reports, so the order follows the policies. |
| PolicyIssues.AnyIsReported | fortigate_to_html.py:182-190 | "any" is not exempt: a policy with srcaddr "any" and no objects yields an undefined-address issue, with pid "[noid]". |
| PolicyIssues.MessagesDistinguish | fortigate_to_html.py:185-198 | For one policy and token, an address message differs from a service message, and a "global 定義" message differs from an undefined one, so the text always tells the family and the kind apart. |
| PolicyIssues.ScenarioIssues | fortigate_to_html.py:179-198 | A policy with id 1, one unknown source address, dstaddr "all" and service "ALL" yields exactly one address issue, global-defined iff the address is known globally. |
| PolicyIssues.UndefinedAddressScenario | tests/test_policy_references.py:19-23 | With empty root and global scopes, the report for UNDEFINED is the one expected string. |
| PolicyIssues.GlobalAddressScenario | tests/test_policy_references.py:41-45 | With GLOBAL_ADDR defined only in global, the report is the one expected "global 定義" string. |
| VdomBlocks.ExtractVdomBlocks | fortigate_to_html.py:20-69 | The three loops compute exactly the specification Extract. |
| VdomBlocks.ReadSection | fortigate_to_html.py:40-61 | The vdom-section loop records the blocks of Scan's entries, applied in order, and stops where Scan does. |
| VdomBlocks.ReadEntry | fortigate_to_html.py:45-54 | An entry's block is the following lines, each with a newline, up to but excluding the first line that strips to `next`, which is consumed. |
| VdomBlocks.ExtractShape | fortigate_to_html.py:40-68 | The keys are "root" plus the names opened by `edit` lines. A VDOM other than root keeps the block of its last entry. |
| VdomBlocks.ApplyLastWins | fortigate_to_html.py:43-45 | A repeated VDOM name restarts its block, so only the last entry's block remains. |
| VdomBlocks.ApplyKeys | fortigate_to_html.py:42-45 | Recording entries adds exactly their names as keys. |
| VdomBlocks.ScanEnd | fortigate_to_html.py:55-59 | The section ends at the end of the lines or just after a line that strips to `end`. |
| VdomBlocks.NoVdomSection | fortigate_to_html.py:29-37 | Without a `config vdom` line the result is only "root", holding all lines joined by newlines. |
| VdomBlocks.NestedConfigScenario | fortigate_to_html.py:40-66 | An `end` inside an entry belongs to the block. Only the `end` after the entries closes the section, and the lines around the section form the root text. |
| VdomBlocks.RootEntryOverwritten | fortigate_to_html.py:68 | Root is assigned last, so a VDOM named root loses its block to the text outside the section. |

## Left out

- The file dialog, file reads and writes, `main` and `choose_conf_file`: I/O.
- `generate_policy_table`, the HTML markup and the embedded JavaScript review UI: presentation. `Render` returns the node kinds and structure, not markup. The `depth` argument is never read in the source, so it is absent.
- The regex parsers (`parse_objects_from_block`, `parse_firewall_*`) and `collect_all_objects`: they depend on Python `re` semantics. The registry tables they produce are parameters of the model. The dotted-mask popcount inside the address parser goes with them.
- `collect_all_objects` overwrites the root scope and reads global from the whole text. The test scenarios are therefore stated over directly supplied registries.
- The tests import `collect_all_objects` and `find_policy_reference_issues` from `fortigate`, which does not define them. The scenarios follow the definitions in `fortigate_to_html.py`.
- The VIP merge into the address table in `main` is not modelled. `Render` takes the address table as given, VIPs included.
- `str.splitlines` is not modelled: `ExtractVdomBlocks` takes the configuration as its lines.
- `str.strip`, `str.lower` and `str.split` are ASCII models. Unicode whitespace and case mapping beyond ASCII are not covered.
- Non-string object names (the `isinstance` checks in `smart_obj_lookup` and `render_obj_branch`) are not modelled: names are strings.
- ScopeResolve.ResolveAddr: a call that reaches the scope lookup with a missing VDOM raises KeyError in the source. The model requires the VDOM to be present unless the name is already resolved, and does not model the exception.
- ScopeResolve.ResolveService: the same KeyError on a missing VDOM is not modelled; the VDOM is required to be present unless the name is already resolved.
- PolicyIssues.FindPolicyReferenceIssues: policy fields are modelled as strings, as in the tests. The list-valued fields a parser may produce would fail on `.split()` in the source and are not modelled. The unused `vdom_of_pol` is absent.
- UndefinedObjects.CollectUndefinedObjs: a field value is either a string or a list of strings. Other Python values are not modelled.
