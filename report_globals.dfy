/** The `ReportParser` passes that fill in run-time values: `add_global_tags`
    and `modify_result_path`. */
module ReportGlobals {
  import opened PyStr
  import opened Wrappers
  import opened ReportTree

  /** The arguments of the run that the values come from. `mode` is `None`
      when no mode was given; `pathJoin` stands for `os.path.join`. */
  datatype RunArgs = RunArgs(
    resultDir: string,
    scenario: string,
    mode: Option<string>,
    develMode: bool,
    distNative: Option<string>)

  /** `not mode or 'migrate' in mode or 'upgrade' in mode`. */
  predicate AllowsUpgrade(mode: Option<string>) {
    mode.None? || mode.value == "" || Contains(mode.value, "migrate") || Contains(mode.value, "upgrade")
  }

  /** The value `add_global_tags` gives one key of `GLOBAL_DIC_VALUES`. */
  function GlobalValue(key: string, default: string, args: RunArgs, pathJoin: (string, string) -> string)
    : (r: string)
    ensures key == "tmp_preupgrade" ==> r == args.resultDir
    ensures key == "migrate" || key == "upgrade" ==> (r == "1" <==> AllowsUpgrade(args.mode)) && (r == "1" || r == "0")
    ensures key == "report_dir" ==> r == pathJoin(args.resultDir, args.scenario)
    ensures key == "devel_mode" ==> r == (if args.develMode then "True" else "False")
    ensures key == "dist_native" ==> r == (if args.distNative.None? then "sign" else args.distNative.value)
    ensures key !in {"tmp_preupgrade", "migrate", "upgrade", "report_dir", "devel_mode", "dist_native"} ==> r == default
  {
    if key == "tmp_preupgrade" then args.resultDir
    else if key == "migrate" || key == "upgrade" then (if AllowsUpgrade(args.mode) then "1" else "0")
    else if key == "report_dir" then pathJoin(args.resultDir, args.scenario)
    else if key == "devel_mode" then BoolStr(args.develMode)
    else if key == "dist_native" then (match args.distNative case None => "sign" case Some(d) => d)
    else default
  }

  /** The element added for one key: a `Value` of type string, with the
      value in its one `value` child. */
  function ValueNode(tagValue: string, key: string, value: string): Node {
    Node(Q("Value"), map["id" := tagValue + key, "type" := "string"], None,
         [Node(Q("value"), map[], Some(value), [])])
  }

  /** The elements for the keys of `GLOBAL_DIC_VALUES`, in iteration order. */
  function GlobalNodes(globals: seq<(string, string)>, tagValue: string, args: RunArgs,
                       pathJoin: (string, string) -> string): (r: seq<Node>)
    ensures |r| == |globals|
    ensures forall i :: 0 <= i < |globals| ==>
      r[i] == ValueNode(tagValue, globals[i].0, GlobalValue(globals[i].0, globals[i].1, args, pathJoin))
  {
    seq(|globals|, i requires 0 <= i < |globals| =>
      ValueNode(tagValue, globals[i].0, GlobalValue(globals[i].0, globals[i].1, args, pathJoin)))
  }

  function Reversed(s: seq<Node>): (r: seq<Node>)
    ensures |r| == |s| && forall j :: 0 <= j < |s| ==> r[j] == s[|s| - 1 - j]
  {
    seq(|s|, j requires 0 <= j < |s| => s[|s| - 1 - j])
  }

  /** Putting a node in front of the reversed prefix reverses the longer prefix. */
  lemma ReversedSnoc(s: seq<Node>, m: nat)
    requires m < |s|
    ensures Reversed(s[..m + 1]) == [s[m]] + Reversed(s[..m])
  {
  }

  /** The root's children with `block` after every `Profile`. */
  function ExpandProfiles(s: seq<Node>, block: seq<Node>): seq<Node> {
    if s == [] then []
    else ExpandProfiles(s[..|s| - 1], block)
         + [s[|s| - 1]] + (if s[|s| - 1].tag == Q("Profile") then block else [])
  }

  lemma {:induction false} ExpandProfilesAppend(s: seq<Node>, t: seq<Node>, block: seq<Node>)
    ensures ExpandProfiles(s + t, block) == ExpandProfiles(s, block) + ExpandProfiles(t, block)
    decreases |t|
  {
    if t == [] {
      assert s + t == s;
    } else {
      var t' := t[..|t| - 1];
      ExpandProfilesAppend(s, t', block);
      assert (s + t)[..|s + t| - 1] == s + t';
      assert (s + t)[|s + t| - 1] == t[|t| - 1];
    }
  }

  /** Every original child is kept, in order, and each `Profile` is
      immediately followed by the whole block; the result grows by one
      block per `Profile`. */
  lemma ExpandProfilesSpec(s: seq<Node>, block: seq<Node>, i: nat)
    requires i < |s|
    ensures var e := ExpandProfiles(s, block);
      var p := |ExpandProfiles(s[..i], block)|;
      p < |e| && e[p] == s[i]
      && (s[i].tag == Q("Profile") ==> p + 1 + |block| <= |e| && e[p + 1..p + 1 + |block|] == block)
  {
    var e := ExpandProfiles(s, block);
    assert s == s[..i + 1] + s[i + 1..];
    ExpandProfilesAppend(s[..i + 1], s[i + 1..], block);
    assert s[..i + 1][..i] == s[..i];
  }

  /** One more child: the child, and the block when it is a `Profile`. */
  lemma ExpandProfilesSnoc(s: seq<Node>, i: nat, block: seq<Node>)
    requires i < |s|
    ensures ExpandProfiles(s[..i + 1], block)
         == ExpandProfiles(s[..i], block) + [s[i]] + (if s[i].tag == Q("Profile") then block else [])
  {
    assert s[..i + 1][..i] == s[..i];
  }

  /** The number of `Profile`s grows by one with a `Profile` at the end. */
  lemma ProfileCountSnoc(s: seq<Node>)
    requires s != []
    ensures |Tagged(s, Q("Profile"))|
         == |Tagged(s[..|s| - 1], Q("Profile"))| + (if s[|s| - 1].tag == Q("Profile") then 1 else 0)
  {
    var x := s[|s| - 1];
    TaggedAppend(s[..|s| - 1], [x], Q("Profile"));
    assert s[..|s| - 1] + [x] == s;
    assert [x][1..] == [];
  }

  lemma {:induction false} ExpandProfilesLength(s: seq<Node>, block: seq<Node>)
    ensures |ExpandProfiles(s, block)| == |s| + |Tagged(s, Q("Profile"))| * |block|
  {
    if s != [] {
      var init := s[..|s| - 1];
      ExpandProfilesLength(init, block);
      ProfileCountSnoc(s);
      var k := |Tagged(init, Q("Profile"))|;
      if s[|s| - 1].tag == Q("Profile") {
        assert (k + 1) * |block| == k * |block| + |block|;
      }
    }
  }

  /** `add_global_tags`: for every `Profile` child of the root, one `Value`
      per key, each inserted right after the `Profile`, so that they end up
      in reverse iteration order; then the document is written. */
  function AddGlobalTags(root: Node, globals: seq<(string, string)>, tagValue: string, args: RunArgs,
                         pathJoin: (string, string) -> string): Node {
    WriteXml(root.(children := ExpandProfiles(root.children, Reversed(GlobalNodes(globals, tagValue, args, pathJoin)))))
  }

  /** Right after each `Profile` come the values of the last key first and
      of the first key last. */
  lemma AddGlobalTagsOrder(root: Node, globals: seq<(string, string)>, tagValue: string, args: RunArgs,
                           pathJoin: (string, string) -> string, i: nat, j: nat)
    requires i < |root.children| && root.children[i].tag == Q("Profile") && j < |globals|
    ensures var r := AddGlobalTags(root, globals, tagValue, args, pathJoin);
      var p := |ExpandProfiles(root.children[..i], Reversed(GlobalNodes(globals, tagValue, args, pathJoin)))|;
      p + 1 + j < |r.children|
      && r.children[p] == root.children[i]
      && r.children[p + 1 + j] == ValueNode(tagValue, globals[|globals| - 1 - j].0,
                                            GlobalValue(globals[|globals| - 1 - j].0, globals[|globals| - 1 - j].1, args, pathJoin))
  {
    var block := Reversed(GlobalNodes(globals, tagValue, args, pathJoin));
    ExpandProfilesSpec(root.children, block, i);
    var e := ExpandProfiles(root.children, block);
    var p := |ExpandProfiles(root.children[..i], block)|;
    assert e[p + 1 + j] == e[p + 1..p + 1 + |block|][j];
    BlockEntry(globals, tagValue, args, pathJoin, j);
  }

  /** The `j`-th node of the block is the value of the `j`-th key from the end. */
  lemma BlockEntry(globals: seq<(string, string)>, tagValue: string, args: RunArgs,
                   pathJoin: (string, string) -> string, j: nat)
    requires j < |globals|
    ensures var k := |globals| - 1 - j;
      Reversed(GlobalNodes(globals, tagValue, args, pathJoin))[j]
        == ValueNode(tagValue, globals[k].0, GlobalValue(globals[k].0, globals[k].1, args, pathJoin))
  {
  }

  // ---------------------------------------------------------------------
  // modify_result_path
  // ---------------------------------------------------------------------

  /** A `value` child after the pass: every `SCENARIO` replaced. */
  function ReplaceScenario(v: Node, target: string): Node {
    match v.text
    case None => v
    case Some(t) => v.(text := Some(Replace(t, "SCENARIO", target)))
  }

  function ScenarioReplacer(target: string): Node -> Node {
    v => ReplaceScenario(v, target)
  }

  predicate IsCurrentDirValue(v: Node) {
    Get(v, "id").Some? && Contains(Get(v, "id").value, "_current_dir")
  }

  /** A `Value` after the pass: when its `id` holds `_current_dir`, each of
      its `value` children is updated. */
  function UpdateValue(v: Node, target: string): (r: Node)
    ensures r.tag == v.tag && r.attrib == v.attrib && r.text == v.text
  {
    if IsCurrentDirValue(v) then v.(children := MapTagged(v.children, Q("value"), ScenarioReplacer(target)))
    else v
  }

  /** Every `Value` strictly below `n` updated (the `.//Value` search). */
  function UpdateValuesBelow(n: Node, target: string): (r: Node)
    ensures r.tag == n.tag && r.attrib == n.attrib && r.text == n.text
    ensures |r.children| == |n.children|
    ensures forall j :: 0 <= j < |n.children| ==>
      r.children[j].tag == n.children[j].tag && r.children[j].attrib == n.children[j].attrib
      && r.children[j].text == n.children[j].text
    decreases n
  {
    n.(children := seq(|n.children|, i requires 0 <= i < |n.children| =>
         var c := UpdateValuesBelow(n.children[i], target);
         if c.tag == Q("Value") then UpdateValue(c, target) else c))
  }

  /** The pass does not raise below `n`: every `Value` has an `id`, and every
      `value` child of a `_current_dir` one has text. */
  predicate ValuesWellFormed(n: Node)
    decreases n
  {
    forall i :: 0 <= i < |n.children| ==>
      ValuesWellFormed(n.children[i])
      && (n.children[i].tag == Q("Value") ==> ValueWellFormed(n.children[i]))
  }

  /** The pass does not raise on the `Value` `v`: it has an `id`, and when
      that holds `_current_dir` every `value` child has text. */
  predicate ValueWellFormed(v: Node) {
    Get(v, "id").Some?
    && (IsCurrentDirValue(v) ==>
          forall j :: 0 <= j < |v.children| ==> v.children[j].tag == Q("value") ==> v.children[j].text.Some?)
  }

  /** One child of a node after the pass: its own subtree updated, and its
      `value`s too when it is a `Value`. */
  function ValueStep(c: Node, target: string): Node {
    var d := UpdateValuesBelow(c, target);
    if d.tag == Q("Value") then UpdateValue(d, target) else d
  }

  /** `b` is `a`, found below the top of the document, after the pass:
      every element keeps its tag, attributes and number of children, a
      `value` whose parent is a `_current_dir` `Value` (`underCurrentDir`)
      has `SCENARIO` replaced by the target, and every other text is kept,
      at every depth. */
  predicate ValuesUpdatedFrom(a: Node, b: Node, target: string, underCurrentDir: bool)
    decreases a
  {
    a.tag == b.tag && a.attrib == b.attrib && |a.children| == |b.children|
    && b.text == (if underCurrentDir && a.tag == Q("value") && a.text.Some?
                  then Some(Replace(a.text.value, "SCENARIO", target)) else a.text)
    && forall i :: 0 <= i < |a.children| ==>
         ValuesUpdatedFrom(a.children[i], b.children[i], target, a.tag == Q("Value") && IsCurrentDirValue(a))
  }

  /** `b` is the document `a` after the pass, attributes of the top aside:
      the top itself is not one of the `.//Value` hits. */
  predicate ValuesUpdated(a: Node, b: Node, target: string) {
    a.tag == b.tag && a.text == b.text && |a.children| == |b.children|
    && forall i :: 0 <= i < |a.children| ==> ValuesUpdatedFrom(a.children[i], b.children[i], target, false)
  }

  /** A child after the pass, and after the update of its own text when its
      parent is a `_current_dir` `Value`, is that child with the values
      updated. */
  lemma {:induction false} ValueStepUpdates(c: Node, target: string, underCurrentDir: bool)
    ensures var s := ValueStep(c, target);
      ValuesUpdatedFrom(c, if underCurrentDir && c.tag == Q("value") then ReplaceScenario(s, target) else s,
                        target, underCurrentDir)
    decreases c
  {
    var d := UpdateValuesBelow(c, target);
    var s := ValueStep(c, target);
    var cd := c.tag == Q("Value") && IsCurrentDirValue(c);
    forall i | 0 <= i < |c.children|
      ensures ValuesUpdatedFrom(c.children[i], s.children[i], target, cd)
    {
      var x := c.children[i];
      ValueStepUpdates(x, target, cd);
      assert d.children[i] == ValueStep(x, target);
      if cd {
        assert s.children[i] == if x.tag == Q("value") then ReplaceScenario(ValueStep(x, target), target) else ValueStep(x, target);
      } else {
        assert s.children[i] == ValueStep(x, target);
      }
    }
  }

  /** Every element of the document keeps its tag, attributes and text,
      except that each `value` child of each `_current_dir` `Value` below
      the top has `SCENARIO` replaced. */
  lemma UpdateValuesBelowSpec(n: Node, target: string)
    ensures ValuesUpdated(n, UpdateValuesBelow(n, target), target) && UpdateValuesBelow(n, target).attrib == n.attrib
  {
    var r := UpdateValuesBelow(n, target);
    forall i | 0 <= i < |n.children|
      ensures ValuesUpdatedFrom(n.children[i], r.children[i], target, false)
    {
      ValueStepUpdates(n.children[i], target, false);
      assert r.children[i] == ValueStep(n.children[i], target);
    }
  }

  /** `modify_result_path(result_dir, scenario, mode)`: `None` where the
      source raises; `mode` is unused. */
  function ModifyResultPath(root: Node, resultDir: string, scenario: string,
                            pathJoin: (string, string) -> string): (r: Option<Node>)
    ensures r.Some? <==> ValuesWellFormed(root)
    ensures r.Some? ==> ValuesUpdated(root, r.value, pathJoin(resultDir, scenario))
    ensures r.Some? ==> r.value.attrib == root.attrib["xmlns:xhtml" := "http://www.w3.org/1999/xhtml/"]
  {
    UpdateValuesBelowSpec(root, pathJoin(resultDir, scenario));
    if ValuesWellFormed(root) then Some(WriteXml(UpdateValuesBelow(root, pathJoin(resultDir, scenario))))
    else None
  }

  /** A `value` of a `_current_dir` `Value` child of `n` gets `SCENARIO`
      replaced by the target; the `value`s of other `Value`s keep their text. */
  lemma UpdateValuesBelowChild(n: Node, target: string, i: nat, j: nat)
    requires i < |n.children| && n.children[i].tag == Q("Value")
    requires j < |n.children[i].children| && n.children[i].children[j].tag == Q("value")
    ensures var after := UpdateValuesBelow(n, target).children[i].children[j];
      var before := n.children[i].children[j];
      (IsCurrentDirValue(n.children[i]) && before.text.Some? ==>
         after.text == Some(Replace(before.text.value, "SCENARIO", target)))
      && (!IsCurrentDirValue(n.children[i]) ==> after.text == before.text)
  {
    var c := UpdateValuesBelow(n.children[i], target);
    assert UpdateValuesBelow(n, target).children[i] == UpdateValue(c, target);
  }

  /** A value text without `SCENARIO` is left as it is. */
  lemma ReplaceScenarioAbsent(v: Node, target: string)
    requires v.text.Some? && !Contains(v.text.value, "SCENARIO")
    ensures ReplaceScenario(v, target) == v
  {
    ReplaceAbsent(v.text.value, "SCENARIO", target);
  }
}
