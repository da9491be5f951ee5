/** extract_vdom_blocks: splits a configuration, given as its lines, into
    the text of each VDOM and a "root" text. Lines before the first
    `config vdom` line and after the `end` closing that section form the
    root text; inside the section each `edit NAME` line opens an entry
    whose lines, up to the first `next` line, form that VDOM's block. */
module VdomBlocks {
  import opened Text

  /** The first index at or after `from` whose line strips to `marker`,
      or |lines| when there is none. */
  function FirstLine(lines: seq<string>, from: nat, marker: string): (k: nat)
    requires from <= |lines|
    ensures from <= k <= |lines|
    ensures k < |lines| ==> Strip(lines[k]) == marker
    ensures forall j :: from <= j < k ==> Strip(lines[j]) != marker
    decreases |lines| - from
  {
    if from == |lines| then from
    else if Strip(lines[from]) == marker then from
    else FirstLine(lines, from + 1, marker)
  }

  /** The block text of an entry: each line followed by a newline. */
  function Suffixed(ls: seq<string>): string {
    if ls == [] then "" else Suffixed(ls[..|ls| - 1]) + ls[|ls| - 1] + "\n"
  }

  /** One `edit NAME ... next` entry of the vdom section. */
  datatype Entry = Entry(name: string, body: string)

  /** The name an `edit` line opens: the text after "edit " with the
      surrounding double quotes removed. */
  function EditName(t: string): string
    requires StartsWith(t, "edit ")
  {
    StripChar(t[5..], '"')
  }

  /** Specification of the vdom-section loop from line i: the entries
      opened, in order, and the index after the section. An `edit` line
      opens an entry that takes every following line up to the first
      `next` line, which is consumed; an `end` line closes the section;
      any other line is skipped. */
  function Scan(lines: seq<string>, i: nat): (res: (seq<Entry>, nat))
    requires i <= |lines|
    ensures i <= res.1 <= |lines|
    decreases |lines| - i
  {
    if i == |lines| then ([], i)
    else
      var t := Strip(lines[i]);
      if StartsWith(t, "edit ") then
        var e := FirstLine(lines, i + 1, "next");
        var next := if e < |lines| then e + 1 else e;
        var rest := Scan(lines, next);
        ([Entry(EditName(t), Suffixed(lines[i + 1..e]))] + rest.0, rest.1)
      else if t == "end" then ([], i + 1)
      else Scan(lines, i + 1)
  }

  /** vdom_blocks[name] = block for each entry in turn. */
  function Apply(blocks: map<string, string>, entries: seq<Entry>): map<string, string>
    decreases |entries|
  {
    if entries == [] then blocks
    else Apply(blocks[entries[0].name := entries[0].body], entries[1..])
  }

  /** The entries of the vdom section and the index after it; with no
      `config vdom` line there are none and the section ends at the end. */
  function Section(lines: seq<string>): (res: (seq<Entry>, nat))
    ensures FirstLine(lines, 0, "config vdom") <= res.1 <= |lines|
  {
    var k := FirstLine(lines, 0, "config vdom");
    if k < |lines| then Scan(lines, k + 1) else ([], |lines|)
  }

  /** Specification of extract_vdom_blocks on the lines of a
      configuration. The root text is assigned last. */
  function Extract(lines: seq<string>): map<string, string> {
    var k := FirstLine(lines, 0, "config vdom");
    var section := Section(lines);
    Apply(map[], section.0)["root" := Join(lines[..k] + lines[section.1..], "\n")]
  }

  /** The innermost loop: appends each line of the entry opened at
      `start - 1`, with its newline, until the first `next` line, which it
      consumes. */
  method ReadEntry(lines: seq<string>, start: nat, blocks: map<string, string>, vdomName: string)
    returns (blocksOut: map<string, string>, i: nat)
    requires start <= |lines|
    ensures blocksOut == blocks[vdomName := Suffixed(lines[start..FirstLine(lines, start, "next")])]
    ensures i == if FirstLine(lines, start, "next") < |lines| then FirstLine(lines, start, "next") + 1 else |lines|
  {
    ghost var e := FirstLine(lines, start, "next");
    blocksOut := blocks[vdomName := ""];
    i := start;
    assert lines[start..i] == [];
    while i < |lines|
      invariant start <= i <= e
      invariant blocksOut == blocks[vdomName := Suffixed(lines[start..i])]
    {
      var l2 := lines[i];
      if Strip(l2) == "next" {
        i := i + 1;
        return;
      }
      SuffixedStep(lines, start, i);
      blocksOut := blocksOut[vdomName := blocksOut[vdomName] + l2 + "\n"];
      i := i + 1;
    }
  }

  /** The entry loop's step: one more line and its newline. */
  lemma SuffixedStep(lines: seq<string>, start: nat, i: nat)
    requires start <= i < |lines|
    ensures Suffixed(lines[start..i + 1]) == Suffixed(lines[start..i]) + lines[i] + "\n"
  {
    assert lines[start..i + 1][..i - start] == lines[start..i];
  }

  /** The loop over the vdom section, from the line after `config vdom`:
      the blocks it records and the index after the section. */
  method ReadSection(lines: seq<string>, from: nat) returns (blocks: map<string, string>, i: nat)
    requires from <= |lines|
    ensures blocks == Apply(map[], Scan(lines, from).0)
    ensures i == Scan(lines, from).1
  {
    ghost var section := Scan(lines, from);
    blocks := map[];
    i := from;
    while i < |lines|
      invariant from <= i <= |lines|
      invariant Apply(blocks, Scan(lines, i).0) == Apply(map[], section.0)
      invariant Scan(lines, i).1 == section.1
      decreases |lines| - i
    {
      var t := Strip(lines[i]);
      if StartsWith(t, "edit ") {
        var vdomName := StripChar(t[5..], '"');
        ScanEdit(lines, i, blocks);
        blocks, i := ReadEntry(lines, i + 1, blocks, vdomName);
      } else if t == "end" {
        ScanClose(lines, i);
        return blocks, i + 1;
      } else {
        ScanSkip(lines, i);
        i := i + 1;
      }
    }
  }

  /** One `edit` line of the section: its entry is recorded, then the scan
      resumes after the entry's `next` line. */
  lemma ScanEdit(lines: seq<string>, i: nat, blocks: map<string, string>)
    requires i < |lines| && StartsWith(Strip(lines[i]), "edit ")
    ensures var e := FirstLine(lines, i + 1, "next");
            var next := if e < |lines| then e + 1 else e;
            Apply(blocks, Scan(lines, i).0)
              == Apply(blocks[EditName(Strip(lines[i])) := Suffixed(lines[i + 1..e])], Scan(lines, next).0)
            && Scan(lines, i).1 == Scan(lines, next).1
  {
    var e := FirstLine(lines, i + 1, "next");
    var next := if e < |lines| then e + 1 else e;
    var entry := Entry(EditName(Strip(lines[i])), Suffixed(lines[i + 1..e]));
    var es := [entry] + Scan(lines, next).0;
    assert Scan(lines, i) == (es, Scan(lines, next).1);
    assert es[0] == entry && es[1..] == Scan(lines, next).0;
  }

  /** An `end` line closes the section. */
  lemma ScanClose(lines: seq<string>, i: nat)
    requires i < |lines| && Strip(lines[i]) == "end"
    ensures Scan(lines, i) == ([], i + 1)
  {
    assert !StartsWith("end", "edit ");
  }

  /** Any other line of the section is skipped. */
  lemma ScanSkip(lines: seq<string>, i: nat)
    requires i < |lines| && !StartsWith(Strip(lines[i]), "edit ") && Strip(lines[i]) != "end"
    ensures Scan(lines, i) == Scan(lines, i + 1)
  {
  }

  /** The loop up to `config vdom`: the lines before it, whether it was
      found, and the index after it. */
  method ReadRoot(lines: seq<string>) returns (rootLines: seq<string>, inVdom: bool, i: nat)
    ensures rootLines == lines[..FirstLine(lines, 0, "config vdom")]
    ensures inVdom <==> FirstLine(lines, 0, "config vdom") < |lines|
    ensures i == if inVdom then FirstLine(lines, 0, "config vdom") + 1 else |lines|
  {
    ghost var k := FirstLine(lines, 0, "config vdom");
    rootLines := [];
    inVdom := false;
    i := 0;
    while i < |lines|
      invariant 0 <= i <= k
      invariant rootLines == lines[..i]
    {
      var line := lines[i];
      if Strip(line) == "config vdom" {
        inVdom := true;
        i := i + 1;
        return;
      }
      rootLines := rootLines + [line];
      i := i + 1;
    }
  }

  /** The loop over the lines after the section: each is appended to the
      root lines. */
  method AppendRest(lines: seq<string>, from: nat, rootLines: seq<string>) returns (out: seq<string>)
    requires from <= |lines|
    ensures out == rootLines + lines[from..]
  {
    out := rootLines;
    var i := from;
    while i < |lines|
      invariant from <= i <= |lines|
      invariant out == rootLines + lines[from..i]
    {
      assert lines[from..i + 1] == lines[from..i] + [lines[i]];
      out := out + [lines[i]];
      i := i + 1;
    }
    assert lines[from..i] == lines[from..];
  }

  /** extract_vdom_blocks as the source writes it: the loop up to
      `config vdom`, the loop over the section, and the loop over the
      remaining lines; "root" is assigned last. */
  method ExtractVdomBlocks(lines: seq<string>) returns (blocks: map<string, string>)
    ensures blocks == Extract(lines)
  {
    var rootLines, inVdom, i := ReadRoot(lines);
    blocks := map[];
    if inVdom {
      blocks, i := ReadSection(lines, i);
    } else {
      assert Section(lines) == ([], |lines|);
    }
    assert blocks == Apply(map[], Section(lines).0) && i == Section(lines).1;
    rootLines := AppendRest(lines, i, rootLines);
    blocks := blocks["root" := Join(rootLines, "\n")];
  }

  // ---------------------------------------------------------------------
  // What the extraction yields.

  /** The names the entries open. */
  function Names(entries: seq<Entry>): set<string> {
    set e | e in entries :: e.name
  }

  /** Recording entries adds exactly their names as keys. */
  lemma {:induction false} ApplyKeys(blocks: map<string, string>, entries: seq<Entry>)
    ensures Apply(blocks, entries).Keys == blocks.Keys + Names(entries)
    decreases |entries|
  {
    if entries != [] {
      ApplyKeys(blocks[entries[0].name := entries[0].body], entries[1..]);
      assert entries == [entries[0]] + entries[1..];
      assert Names(entries) == {entries[0].name} + Names(entries[1..]);
    }
  }

  /** A name no entry opens keeps its old block. */
  lemma {:induction false} ApplyUntouched(blocks: map<string, string>, entries: seq<Entry>, n: string)
    requires n !in Names(entries)
    ensures n in Apply(blocks, entries) <==> n in blocks
    ensures n in blocks ==> Apply(blocks, entries)[n] == blocks[n]
    decreases |entries|
  {
    if entries != [] {
      assert entries[0] in entries;
      assert Names(entries[1..]) <= Names(entries);
      ApplyUntouched(blocks[entries[0].name := entries[0].body], entries[1..], n);
    }
  }

  /** A VDOM opened by several entries keeps the block of the last one. */
  lemma {:induction false} ApplyLastWins(blocks: map<string, string>, entries: seq<Entry>, j: nat)
    requires j < |entries|
    requires forall l :: j < l < |entries| ==> entries[l].name != entries[j].name
    ensures entries[j].name in Apply(blocks, entries)
    ensures Apply(blocks, entries)[entries[j].name] == entries[j].body
    decreases |entries|
  {
    var rest := entries[1..];
    var b := blocks[entries[0].name := entries[0].body];
    if j == 0 {
      forall e | e in rest
        ensures e.name != entries[0].name
      {
        var l :| 0 <= l < |rest| && rest[l] == e;
        assert entries[l + 1] == e;
      }
      ApplyUntouched(b, rest, entries[0].name);
    } else {
      assert rest[j - 1] == entries[j];
      forall l | j - 1 < l < |rest|
        ensures rest[l].name != rest[j - 1].name
      {
        assert rest[l] == entries[l + 1];
      }
      ApplyLastWins(b, rest, j - 1);
    }
  }

  /** The result has a "root" key and one key per VDOM the section opens,
      and no other; a VDOM other than "root" keeps the block of the last
      entry that opens it. An entry named "root" is overwritten by the
      root text. */
  lemma ExtractShape(lines: seq<string>)
    ensures Extract(lines).Keys == {"root"} + Names(Section(lines).0)
    ensures forall j :: (0 <= j < |Section(lines).0| && Section(lines).0[j].name != "root" &&
                         forall l :: j < l < |Section(lines).0| ==> Section(lines).0[l].name != Section(lines).0[j].name)
              ==> Extract(lines)[Section(lines).0[j].name] == Section(lines).0[j].body
  {
    var es := Section(lines).0;
    ApplyKeys(map[], es);
    forall j | 0 <= j < |es| && es[j].name != "root" && (forall l :: j < l < |es| ==> es[l].name != es[j].name)
      ensures Extract(lines)[es[j].name] == es[j].body
    {
      ApplyLastWins(map[], es, j);
    }
  }

  /** The section stops at the end of the configuration or just after a
      line that strips to `end`. */
  lemma {:induction false} ScanEnd(lines: seq<string>, i: nat)
    requires i <= |lines|
    ensures Scan(lines, i).1 == |lines| || (0 < Scan(lines, i).1 && Strip(lines[Scan(lines, i).1 - 1]) == "end")
    decreases |lines| - i
  {
    if i < |lines| {
      var t := Strip(lines[i]);
      if StartsWith(t, "edit ") {
        var e := FirstLine(lines, i + 1, "next");
        ScanEnd(lines, if e < |lines| then e + 1 else e);
      } else if t != "end" {
        ScanEnd(lines, i + 1);
      }
    }
  }

  /** Without a `config vdom` line the whole configuration is the root text
      and no VDOM block is extracted. */
  lemma NoVdomSection(lines: seq<string>)
    requires forall j :: 0 <= j < |lines| ==> Strip(lines[j]) != "config vdom"
    ensures Extract(lines) == map["root" := Join(lines, "\n")]
  {
    NoSectionAllRoot(lines);
  }

  lemma NoSectionAllRoot(lines: seq<string>)
    requires FirstLine(lines, 0, "config vdom") == |lines|
    ensures Extract(lines) == map["root" := Join(lines, "\n")]
  {
    var section := Section(lines);
    assert section == ([], |lines|);
    var blocks := Apply(map[], section.0);
    assert blocks == map[];
    var rest := lines[..|lines|] + lines[section.1..];
    assert lines[section.1..] == [];
    assert rest == lines;
  }

  /** A VDOM block keeps a nested `config ... end` of its own: the `end`
      inside an entry does not close the section, and the lines around the
      section are joined into the root text. */
  lemma NestedConfigScenario()
    ensures Extract(["a", "config vdom", "edit v1", "config x", "end", "next", "end", "b"])
         == map["v1" := "config x\nend\n", "root" := "a\nb"]
  {
    var lines := ["a", "config vdom", "edit v1", "config x", "end", "next", "end", "b"];
    StripOfTrimmed(lines[0]);
    StripOfTrimmed(lines[1]);
    StripOfTrimmed(lines[2]);
    StripOfTrimmed(lines[3]);
    StripOfTrimmed(lines[4]);
    StripOfTrimmed(lines[5]);
    StripOfTrimmed(lines[6]);
    StripOfTrimmed(lines[7]);
    assert FirstLine(lines, 0, "config vdom") == 1;
    assert FirstLine(lines, 3, "next") == 5;
    assert StartsWith(lines[2], "edit ");
    assert EditName(lines[2]) == "v1";
    assert Scan(lines, 6) == ([], 7);
    assert lines[3..5][..1] == ["config x"];
    assert ["config x"][..0] == [];
    assert Suffixed(["config x"]) == "config x\n";
    assert Suffixed(lines[3..5]) == "config x\nend\n";
    assert Strip(lines[2]) == "edit v1";
    assert Scan(lines, 2) == ([Entry(EditName(Strip(lines[2])), Suffixed(lines[3..5]))] + Scan(lines, 6).0, Scan(lines, 6).1);
    assert EditName(Strip(lines[2])) == "v1";
    assert [Entry("v1", "config x\nend\n")] + [] == [Entry("v1", "config x\nend\n")];
    assert Scan(lines, 2) == ([Entry("v1", "config x\nend\n")], 7);
    assert Section(lines) == ([Entry("v1", "config x\nend\n")], 7);
    assert lines[..1] + lines[7..] == ["a", "b"];
    assert ["a", "b"][1..] == ["b"];
    assert Join(["a", "b"], "\n") == "a\nb";
    assert [Entry("v1", "config x\nend\n")][1..] == [];
    assert Apply(map[], [Entry("v1", "config x\nend\n")]) == map["v1" := "config x\nend\n"];
  }

  /** The root text is assigned after the VDOM blocks, so a VDOM literally
      named root loses its block to the (here empty) text outside the
      section. */
  lemma RootEntryOverwritten()
    ensures Extract(["config vdom", "edit root", "x", "next", "end"]) == map["root" := ""]
  {
    var lines := ["config vdom", "edit root", "x", "next", "end"];
    StripOfTrimmed(lines[0]);
    StripOfTrimmed(lines[1]);
    StripOfTrimmed(lines[2]);
    StripOfTrimmed(lines[3]);
    StripOfTrimmed(lines[4]);
    assert FirstLine(lines, 0, "config vdom") == 0;
    assert FirstLine(lines, 2, "next") == 3;
    assert Scan(lines, 4) == ([], 5);
    assert StartsWith(lines[1], "edit ");
    assert EditName(Strip(lines[1])) == "root";
    assert Scan(lines, 1) == ([Entry(EditName(Strip(lines[1])), Suffixed(lines[2..3]))] + Scan(lines, 4).0, Scan(lines, 4).1);
    assert Section(lines).1 == 5;
    ApplyKeys(map[], Section(lines).0);
    assert lines[..0] + lines[5..] == [];
  }
}
