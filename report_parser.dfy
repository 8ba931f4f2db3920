/** `ReportParser`: the report document held in `target_tree` and the passes
    that update it in place, each with the source's loops and proved to
    compute the pass as specified in `ReportPasses`, `ReportText`,
    `ReportQueries` and `ReportGlobals`. */
module ReportParsing {
  import opened PyStr
  import opened Wrappers
  import opened ReportTree
  import opened ReportPasses
  import opened ReportText
  import opened ReportQueries
  import opened ReportGlobals
  import opened Progress

  // ---------------------------------------------------------------------
  // Per-element loops (the bodies of the passes' inner `for` statements)
  // ---------------------------------------------------------------------

  /** The check-import loop of `remove_empty_check_import` on one `check`:
      each empty stdout/stderr check-import is removed. */
  method RemoveEmptyImports(check: Node) returns (r: Node)
    ensures r == CleanCheck(check)
  {
    var kept: seq<Node> := [];
    for i := 0 to |check.children|
      invariant kept == KeptImports(check.children[..i])
    {
      assert check.children[..i + 1][..i] == check.children[..i];
      var node := check.children[i];
      if !IsEmptyStdImport(node) {
        kept := kept + [node];
      }
    }
    assert check.children[..|check.children|] == check.children;
    r := check.(children := kept);
  }

  /** The `check` loop of `remove_empty_check_import` on one rule-result. */
  method CleanChecks(rr: Node) returns (r: Node)
    ensures r == CleanRuleResult(rr)
  {
    var cs := rr.children;
    for k := 0 to |cs|
      invariant |cs| == |rr.children|
      invariant forall m :: 0 <= m < k ==>
        cs[m] == if rr.children[m].tag == Q("check") then CleanCheck(rr.children[m]) else rr.children[m]
      invariant forall m :: k <= m < |cs| ==> cs[m] == rr.children[m]
    {
      if cs[k].tag == Q("check") {
        var c := RemoveEmptyImports(cs[k]);
        cs := cs[k := c];
      }
    }
    assert cs == MapTagged(rr.children, Q("check"), CleanCheck);
    r := rr.(children := cs);
  }

  /** The rule-result loop of `remove_empty_check_import` on one TestResult. */
  method CleanRuleResults(tr: Node) returns (r: Node)
    ensures r == tr.(children := MapTagged(tr.children, Q("rule-result"), CleanRuleResult))
  {
    var rrs := tr.children;
    for k := 0 to |rrs|
      invariant |rrs| == |tr.children|
      invariant forall m :: 0 <= m < k ==>
        rrs[m] == if tr.children[m].tag == Q("rule-result") then CleanRuleResult(tr.children[m]) else tr.children[m]
      invariant forall m :: k <= m < |rrs| ==> rrs[m] == tr.children[m]
    {
      if rrs[k].tag == Q("rule-result") {
        var c := CleanChecks(rrs[k]);
        rrs := rrs[k := c];
      }
    }
    assert rrs == MapTagged(tr.children, Q("rule-result"), CleanRuleResult);
    r := tr.(children := rrs);
  }

  /** The line loop of `remove_debug_info` on one text. */
  method DropDebug(text: string) returns (r: string)
    ensures r == WithoutDebug(text)
  {
    var lines := Split(text, '\n');
    var newCheck: seq<string> := [];
    for i := 0 to |lines|
      invariant newCheck == DropDebugLines(lines[..i])
    {
      assert lines[..i + 1][..i] == lines[..i];
      if !IsDebugLine(lines[i]) {
        newCheck := newCheck + [lines[i]];
      }
    }
    assert lines[..|lines|] == lines;
    r := Join(newCheck, '\n');
  }

  /** The check-import loop of `remove_debug_info` under one `check`. */
  method DropDebugInCheck(check: Node) returns (r: Node)
    ensures r == check.(children := MapTagged(check.children, Q("check-import"), StripDebugImport))
  {
    var cs := check.children;
    for k := 0 to |cs|
      invariant |cs| == |check.children|
      invariant forall m :: 0 <= m < k ==>
        cs[m] == if check.children[m].tag == Q("check-import") then StripDebugImport(check.children[m]) else check.children[m]
      invariant forall m :: k <= m < |cs| ==> cs[m] == check.children[m]
    {
      if cs[k].tag == Q("check-import") && cs[k].text.Some? {
        var t := DropDebug(cs[k].text.value);
        cs := cs[k := cs[k].(text := Some(t))];
      }
      assert cs[k] == if check.children[k].tag == Q("check-import") then StripDebugImport(check.children[k]) else check.children[k];
    }
    assert cs == MapTagged(check.children, Q("check-import"), StripDebugImport);
    r := check.(children := cs);
  }

  /** `filter_grandchildren(rule, "check", "check-import")` of one
      rule-result, walked by `remove_debug_info`. */
  method DropDebugInRuleResult(rr: Node) returns (r: Node)
    ensures r == StripDebugRuleResult(rr)
  {
    var cs := rr.children;
    for k := 0 to |cs|
      invariant |cs| == |rr.children|
      invariant forall m :: 0 <= m < k ==>
        cs[m] == if rr.children[m].tag == Q("check")
                 then rr.children[m].(children := MapTagged(rr.children[m].children, Q("check-import"), StripDebugImport))
                 else rr.children[m]
      invariant forall m :: k <= m < |cs| ==> cs[m] == rr.children[m]
    {
      if cs[k].tag == Q("check") {
        var c := DropDebugInCheck(cs[k]);
        cs := cs[k := c];
      }
    }
    assert cs == MapGrandSeq(rr.children, "check", "check-import", StripDebugImport);
    r := rr.(children := cs);
  }

  /** The rule-result loop of `remove_debug_info` on one TestResult. */
  method DropDebugInTestResult(tr: Node) returns (r: Node)
    ensures r == tr.(children := MapTagged(tr.children, Q("rule-result"), StripDebugRuleResult))
  {
    var rrs := tr.children;
    for k := 0 to |rrs|
      invariant |rrs| == |tr.children|
      invariant forall m :: 0 <= m < k ==>
        rrs[m] == if tr.children[m].tag == Q("rule-result") then StripDebugRuleResult(tr.children[m]) else tr.children[m]
      invariant forall m :: k <= m < |rrs| ==> rrs[m] == tr.children[m]
    {
      if rrs[k].tag == Q("rule-result") {
        var c := DropDebugInRuleResult(rrs[k]);
        rrs := rrs[k := c];
      }
    }
    assert rrs == MapTagged(tr.children, Q("rule-result"), StripDebugRuleResult);
    r := tr.(children := rrs);
  }

  /** `strip_whitespaces` on the subtree at `n`, the node first and then its
      descendants in document order, as `getiterator` yields them. */
  method StripTree(n: Node) returns (r: Node)
    ensures r == StripAll(n)
    decreases n
  {
    var cs := n.children;
    for k := 0 to |cs|
      invariant |cs| == |n.children|
      invariant forall m :: 0 <= m < k ==> cs[m] == StripAll(n.children[m])
      invariant forall m :: k <= m < |cs| ==> cs[m] == n.children[m]
    {
      var c := StripTree(cs[k]);
      cs := cs[k := c];
    }
    r := n.(text := PaddedText(n), children := cs);
  }

  /** The line loop of `update_check_description` on one description text:
      each line is rewritten in place and `found` records whether a marker
      was seen. */
  method RewriteDescriptionLines(text: string) returns (r: string)
    ensures r == RewriteDescriptionText(text)
  {
    var orig := Split(text, '\n');
    var lines := orig;
    var found := false;
    for index := 0 to |lines|
      invariant |lines| == |orig|
      invariant forall m :: 0 <= m < index ==> lines[m] == RewriteLine(orig[m])
      invariant forall m :: index <= m < |lines| ==> lines[m] == orig[m]
      invariant found <==> exists m :: 0 <= m < index && IsMarkerLine(orig[m])
    {
      var line := lines[index];
      if StartsWith(Strip(line), DetailsMarker) {
        found := true;
        lines := lines[index := Replace(line, DetailsMarker, DetailsOpen)];
        continue;
      }
      if StartsWith(Strip(line), ExpectedMarker) {
        found := true;
        lines := lines[index := Replace(line, ExpectedMarker, ExpectedOpen)];
        continue;
      }
    }
    if found {
      assert lines == RewriteLines(orig);
      lines := lines + [ExpectedClose];
      r := Join(lines, '\n');
    } else {
      r := text;
    }
  }

  /** One `description` with text, its text rewritten in place. */
  method RewriteOneDescription(d: Node) returns (r: Node)
    requires d.text.Some?
    ensures r == RewriteDescription(d)
  {
    var t := RewriteDescriptionLines(d.text.value);
    r := d.(text := Some(t));
  }

  /** The description loop of `update_check_description` on one `Rule`;
      `None` where a description without text makes the source raise. */
  method RewriteRuleDescriptions(rule: Node) returns (r: Option<Node>)
    ensures r.Some? <==> RuleDescriptionsHaveText(rule)
    ensures r.Some? ==> r.value == RewriteRule(rule)
  {
    var cs := rule.children;
    for k := 0 to |cs|
      invariant |cs| == |rule.children|
      invariant forall m :: 0 <= m < k ==>
        rule.children[m].tag == Q("description") ==> rule.children[m].text.Some?
      invariant forall m :: 0 <= m < k ==>
        cs[m] == if rule.children[m].tag == Q("description") then RewriteDescription(rule.children[m]) else rule.children[m]
      invariant forall m :: k <= m < |cs| ==> cs[m] == rule.children[m]
    {
      if cs[k].tag == Q("description") {
        if cs[k].text.None? {
          return None;
        }
        var d := RewriteOneDescription(cs[k]);
        cs := cs[k := d];
      }
    }
    assert cs == MapTagged(rule.children, Q("description"), RewriteDescription);
    r := Some(rule.(children := cs));
  }

  /** Every `Rule` strictly below `n` through `update_check_description`;
      `None` where the source raises. */
  method RewriteRulesIn(n: Node) returns (r: Option<Node>)
    ensures r.Some? <==> DescriptionsHaveText(n)
    ensures r.Some? ==> r.value == RewriteRulesBelow(n)
    decreases n
  {
    var cs := n.children;
    for k := 0 to |cs|
      invariant |cs| == |n.children|
      invariant forall m :: 0 <= m < k ==>
        DescriptionsHaveText(n.children[m])
        && (n.children[m].tag == Q("Rule") ==> RuleDescriptionsHaveText(n.children[m]))
      invariant forall m :: 0 <= m < k ==>
        cs[m] == var c := RewriteRulesBelow(n.children[m]); if c.tag == Q("Rule") then RewriteRule(c) else c
      invariant forall m :: k <= m < |cs| ==> cs[m] == n.children[m]
    {
      var below := RewriteRulesIn(cs[k]);
      if below.None? {
        return None;
      }
      var c := below.value;
      if c.tag == Q("Rule") {
        var rewritten := RewriteRuleDescriptions(c);
        if rewritten.None? {
          return None;
        }
        c := rewritten.value;
      }
      cs := cs[k := c];
    }
    r := Some(n.(children := cs));
  }

  /** The TestResult loop of `remove_empty_check_import` over the root. */
  method CleanTestResults(root: Node) returns (r: Node)
    ensures r == RemoveEmptyCheckImports(root)
  {
    var tops := root.children;
    for i := 0 to |tops|
      invariant |tops| == |root.children|
      invariant forall m :: 0 <= m < i ==>
        tops[m] == MapGrandSeq(root.children, "TestResult", "rule-result", CleanRuleResult)[m]
      invariant forall m :: i <= m < |tops| ==> tops[m] == root.children[m]
    {
      if tops[i].tag == Q("TestResult") {
        var c := CleanRuleResults(tops[i]);
        tops := tops[i := c];
      }
    }
    assert tops == MapGrandSeq(root.children, "TestResult", "rule-result", CleanRuleResult);
    r := root.(children := tops);
  }

  /** The TestResult loop of `remove_debug_info` over the root. */
  method DropDebugInRoot(root: Node) returns (r: Node)
    ensures r == MapGrandchildren(root, "TestResult", "rule-result", StripDebugRuleResult)
  {
    var tops := root.children;
    for i := 0 to |tops|
      invariant |tops| == |root.children|
      invariant forall m :: 0 <= m < i ==>
        tops[m] == MapGrandSeq(root.children, "TestResult", "rule-result", StripDebugRuleResult)[m]
      invariant forall m :: i <= m < |tops| ==> tops[m] == root.children[m]
    {
      if tops[i].tag == Q("TestResult") {
        var c := DropDebugInTestResult(tops[i]);
        tops := tops[i := c];
      }
    }
    assert tops == MapGrandSeq(root.children, "TestResult", "rule-result", StripDebugRuleResult);
    r := root.(children := tops);
  }

  /** The `select` loop of `select_rules` on one `Profile`. */
  method MarkSelects(profile: Node, rules: seq<string>) returns (r: Node)
    ensures r == profile.(children := MapTagged(profile.children, Q("select"), Selector(rules)))
  {
    var cs := profile.children;
    for k := 0 to |cs|
      invariant |cs| == |profile.children|
      invariant forall m :: 0 <= m < k ==>
        cs[m] == if profile.children[m].tag == Q("select") then SetSelected(profile.children[m], rules) else profile.children[m]
      invariant forall m :: k <= m < |cs| ==> cs[m] == profile.children[m]
    {
      if cs[k].tag == Q("select") {
        var idref := Get(cs[k], "idref");
        if idref.Some? && idref.value in rules {
          cs := cs[k := Set(cs[k], "selected", "true")];
        } else {
          cs := cs[k := Set(cs[k], "selected", "false")];
        }
      }
    }
    assert cs == MapTagged(profile.children, Q("select"), Selector(rules));
    r := profile.(children := cs);
  }

  /** The `Profile` loop of `select_rules` over the root. */
  method MarkProfiles(root: Node, rules: seq<string>) returns (r: Node)
    ensures r == MapGrandchildren(root, "Profile", "select", Selector(rules))
  {
    var tops := root.children;
    for i := 0 to |tops|
      invariant |tops| == |root.children|
      invariant forall m :: 0 <= m < i ==>
        tops[m] == MapGrandSeq(root.children, "Profile", "select", Selector(rules))[m]
      invariant forall m :: i <= m < |tops| ==> tops[m] == root.children[m]
    {
      if tops[i].tag == Q("Profile") {
        var c := MarkSelects(tops[i], rules);
        tops := tops[i := c];
      }
    }
    assert tops == MapGrandSeq(root.children, "Profile", "select", Selector(rules));
    r := root.(children := tops);
  }

  /** The list comprehension of `check_rules` for one rule: whether some
      select's `idref` contains it, or `None` where a select without `idref`
      makes `rule in None` raise. */
  method MentionedIn(rule: string, sels: seq<Node>) returns (r: Option<bool>)
    ensures r == if SomeSelectLacksIdref(sels) then None else Some(Mentioned(rule, sels))
  {
    var found := false;
    for i := 0 to |sels|
      invariant forall m :: 0 <= m < i ==> Get(sels[m], "idref").Some?
      invariant found <==> exists m :: 0 <= m < i && Contains(Get(sels[m], "idref").value, rule)
    {
      var idref := Get(sels[i], "idref");
      if idref.None? {
        return None;
      }
      if Contains(idref.value, rule) {
        found := true;
      }
    }
    r := Some(found);
  }

  /** The search `[x for x in rule_nodes if x.get('id', '') == id_ref][0]`
      stops at the first match: the position of the first rule with the id. */
  method FindRule(rules: seq<Node>, id: string) returns (r: Option<nat>)
    ensures r == FirstWithId(rules, id)
  {
    for j := 0 to |rules|
      invariant forall m :: 0 <= m < j ==> GetOr(rules[m], "id") != id
    {
      if GetOr(rules[j], "id") == id {
        return Some(j);
      }
    }
    return None;
  }

  /** The `if`/`elif` chain of `add_global_tags` for one key. */
  method ValueFor(key: string, default: string, args: RunArgs, pathJoin: (string, string) -> string)
    returns (val: string)
    ensures val == GlobalValue(key, default, args, pathJoin)
  {
    val := default;
    if key == "tmp_preupgrade" {
      val := args.resultDir;
    } else if key == "migrate" || key == "upgrade" {
      if args.mode.None? || args.mode.value == "" || Contains(args.mode.value, "migrate")
         || Contains(args.mode.value, "upgrade") {
        val := "1";
      } else {
        val := "0";
      }
    } else if key == "report_dir" {
      val := pathJoin(args.resultDir, args.scenario);
    } else if key == "devel_mode" {
      val := BoolStr(args.develMode);
    } else if key == "dist_native" {
      if args.distNative.None? {
        val := "sign";
      } else {
        val := args.distNative.value;
      }
    }
  }

  /** Inserting `y` at position `|front|`. */
  lemma InsertAt(front: seq<Node>, mid: seq<Node>, back: seq<Node>, y: Node)
    ensures var cs := front + mid + back;
      cs[..|front|] + [y] + cs[|front|..] == front + ([y] + mid) + back
  {
    var cs := front + mid + back;
    assert cs[..|front|] == front;
    assert cs[|front|..] == mid + back;
  }

  /** The key loop of `add_global_tags` for one `Profile` at position `p` of
      `cs`: each new `Value` is inserted right after the `Profile`. */
  method InsertGlobals(cs: seq<Node>, p: nat, globals: seq<(string, string)>, tagValue: string,
                       args: RunArgs, pathJoin: (string, string) -> string) returns (r: seq<Node>)
    requires p < |cs|
    ensures r == cs[..p + 1] + Reversed(GlobalNodes(globals, tagValue, args, pathJoin)) + cs[p + 1..]
  {
    ghost var nodes := GlobalNodes(globals, tagValue, args, pathJoin);
    ghost var front := cs[..p + 1];
    ghost var back := cs[p + 1..];
    assert cs == front + [] + back;
    r := cs;
    for m := 0 to |globals|
      invariant r == front + Reversed(nodes[..m]) + back
    {
      var key := globals[m].0;
      var val := ValueFor(key, globals[m].1, args, pathJoin);
      var newChild := ValueNode(tagValue, key, val);
      ReversedSnoc(nodes, m);
      InsertAt(front, Reversed(nodes[..m]), back, newChild);
      r := r[..p + 1] + [newChild] + r[p + 1..];
    }
    assert nodes[..|globals|] == nodes;
  }

  lemma SuffixCons(s: seq<Node>, i: nat)
    requires i < |s|
    ensures s[i..] == [s[i]] + s[i + 1..]
  {
  }

  /** Inserting `b` right after the element at position `|done|`. */
  lemma SpliceAfter(done: seq<Node>, x: Node, rest: seq<Node>, b: seq<Node>)
    ensures var cs := done + [x] + rest;
      cs[..|done| + 1] + b + cs[|done| + 1..] == done + [x] + b + rest
  {
    var cs := done + [x] + rest;
    assert cs[..|done| + 1] == done + [x];
    assert cs[|done| + 1..] == rest;
  }

  /** One child of the root in the `Profile` loop of `add_global_tags`: the
      child `x` is at position `p == |done|`, and after a `Profile` the block
      is inserted; `q` is the position of the next original child. */
  method ExpandOne(cs: seq<Node>, p: nat, ghost done: seq<Node>, ghost x: Node, ghost rest: seq<Node>,
                   globals: seq<(string, string)>, tagValue: string,
                   args: RunArgs, pathJoin: (string, string) -> string) returns (r: seq<Node>, q: nat)
    requires cs == done + [x] + rest && p == |done|
    ensures r == done + [x]
                 + (if x.tag == Q("Profile") then Reversed(GlobalNodes(globals, tagValue, args, pathJoin)) else [])
                 + rest
    ensures q == |done| + 1 + (if x.tag == Q("Profile") then |globals| else 0)
  {
    if cs[p].tag == Q("Profile") {
      SpliceAfter(done, x, rest, Reversed(GlobalNodes(globals, tagValue, args, pathJoin)));
      r := InsertGlobals(cs, p, globals, tagValue, args, pathJoin);
      q := p + 1 + |globals|;
    } else {
      r := cs;
      q := p + 1;
    }
  }

  /** The `Profile` loop of `add_global_tags` over the root's children. */
  method ExpandAllProfiles(children: seq<Node>, globals: seq<(string, string)>, tagValue: string,
                           args: RunArgs, pathJoin: (string, string) -> string) returns (cs: seq<Node>)
    ensures cs == ExpandProfiles(children, Reversed(GlobalNodes(globals, tagValue, args, pathJoin)))
  {
    ghost var block := Reversed(GlobalNodes(globals, tagValue, args, pathJoin));
    ghost var done: seq<Node> := [];
    cs := children;
    var p := 0;
    for i := 0 to |children|
      invariant done == ExpandProfiles(children[..i], block)
      invariant p == |done|
      invariant cs == done + children[i..]
    {
      SuffixCons(children, i);
      ExpandProfilesSnoc(children, i, block);
      cs, p := ExpandOne(cs, p, done, children[i], children[i + 1..], globals, tagValue, args, pathJoin);
      done := done + [children[i]] + (if children[i].tag == Q("Profile") then block else []);
    }
    assert children[..|children|] == children;
  }

  /** The `value` loop of `modify_result_path` on one `Value`; `None` where
      the source raises. */
  method UpdateValueChildren(v: Node, target: string) returns (r: Option<Node>)
    ensures r.Some? <==> ValueWellFormed(v)
    ensures r.Some? ==> r.value == UpdateValue(v, target)
  {
    var id := Get(v, "id");
    if id.None? {
      return None;
    }
    if !Contains(id.value, "_current_dir") {
      return Some(v);
    }
    var cs := v.children;
    for k := 0 to |cs|
      invariant |cs| == |v.children|
      invariant forall m :: 0 <= m < k ==> v.children[m].tag == Q("value") ==> v.children[m].text.Some?
      invariant forall m :: 0 <= m < k ==>
        cs[m] == if v.children[m].tag == Q("value") then ReplaceScenario(v.children[m], target) else v.children[m]
      invariant forall m :: k <= m < |cs| ==> cs[m] == v.children[m]
    {
      if cs[k].tag == Q("value") {
        if cs[k].text.None? {
          return None;
        }
        cs := cs[k := cs[k].(text := Some(Replace(cs[k].text.value, "SCENARIO", target)))];
      }
    }
    assert cs == MapTagged(v.children, Q("value"), ScenarioReplacer(target));
    r := Some(v.(children := cs));
  }

  /** Every `Value` strictly below `n` through `modify_result_path`;
      `None` where the source raises. */
  method UpdateValuesIn(n: Node, target: string) returns (r: Option<Node>)
    ensures r.Some? <==> ValuesWellFormed(n)
    ensures r.Some? ==> r.value == UpdateValuesBelow(n, target)
    decreases n
  {
    var cs := n.children;
    for k := 0 to |cs|
      invariant |cs| == |n.children|
      invariant forall m :: 0 <= m < k ==>
        ValuesWellFormed(n.children[m]) && (n.children[m].tag == Q("Value") ==> ValueWellFormed(n.children[m]))
      invariant forall m :: 0 <= m < k ==>
        cs[m] == var c := UpdateValuesBelow(n.children[m], target); if c.tag == Q("Value") then UpdateValue(c, target) else c
      invariant forall m :: k <= m < |cs| ==> cs[m] == n.children[m]
    {
      var below := UpdateValuesIn(cs[k], target);
      if below.None? {
        return None;
      }
      var c := below.value;
      if c.tag == Q("Value") {
        var updated := UpdateValueChildren(c, target);
        if updated.None? {
          return None;
        }
        c := updated.value;
      }
      cs := cs[k := c];
    }
    r := Some(n.(children := cs));
  }

  /** One rule-result through `replace_inplace_risk`: the three `if`
      statements on its `result` text, the entries they append, and `None`
      where the source raises. */
  method ReclassifyOne(rr: Node, risksOf: Node -> seq<string>, levelOf: seq<string> -> int)
    returns (r: Option<(Node, seq<string>)>)
    ensures r == ReclassifyRuleResult(rr, risksOf, levelOf)
  {
    var ruleId := Get(rr, "idref");
    var resultIndex := FirstTagged(rr.children, Q("result"));
    if resultIndex.None? {
      return None;
    }
    var i := resultIndex.value;
    var text := rr.children[i].text;
    var risks := risksOf(rr);
    var changed: seq<string> := [];
    ghost var appended: seq<string> := [];
    if text != Some("fail") && risks != [] {
      text := Some("error");
      if ruleId.None? {
        return None;
      }
      changed := changed + [ruleId.value + ":" + text.value];
      appended := appended + [text.value];
    }
    if text == Some("fail") {
      if risks == [] {
        text := Some("error");
        if ruleId.None? {
          return None;
        }
        changed := changed + [ruleId.value + ":" + text.value];
        appended := appended + [text.value];
      } else {
        var riskLevel := levelOf(risks);
        text := UpdateResultBasedOnRisk(text, riskLevel);
        if ruleId.None? {
          return None;
        }
        changed := changed + [ruleId.value + ":" + text.value];
        appended := appended + [text.value];
      }
    }
    if text == Some("unknown") {
      text := Some("error");
      if ruleId.None? {
        return None;
      }
      changed := changed + [ruleId.value + ":" + text.value];
      appended := appended + [text.value];
    }
    assert Classified(text, appended) == Classify(rr.children[i].text, risks, levelOf(risks));
    assert changed == if appended == [] then [] else [ruleId.value + ":" + appended[0]];
    if changed == [] {
      r := Some((rr, []));
    } else {
      r := Some((rr.(children := rr.children[i := rr.children[i].(text := text)]), changed));
    }
  }

  /** The rule-results of one TestResult through `replace_inplace_risk`. */
  method ReclassifyTestResult(tr: Node, risksOf: Node -> seq<string>, levelOf: seq<string> -> int)
    returns (r: Option<(seq<Node>, seq<string>)>)
    ensures r == AccumTagged(tr.children, Q("rule-result"), ReclassifyStep(risksOf, levelOf))
  {
    ghost var step := ReclassifyStep(risksOf, levelOf);
    var out: seq<Node> := [];
    var changed: seq<string> := [];
    for k := 0 to |tr.children|
      invariant AccumTagged(tr.children[..k], Q("rule-result"), step) == Some((out, changed))
    {
      assert tr.children[..k + 1][..k] == tr.children[..k];
      var x := tr.children[k];
      if x.tag == Q("rule-result") {
        var cur := ReclassifyOne(x, risksOf, levelOf);
        if cur.None? {
          AccumTaggedNoneExtends(tr.children, k + 1, Q("rule-result"), step);
          return None;
        }
        out := out + [cur.value.0];
        changed := changed + cur.value.1;
      } else {
        out := out + [x];
      }
    }
    assert tr.children[..|tr.children|] == tr.children;
    r := Some((out, changed));
  }

  /** The walk of `replace_inplace_risk` over the TestResults of the root. */
  method ReclassifyAll(tops: seq<Node>, risksOf: Node -> seq<string>, levelOf: seq<string> -> int)
    returns (r: Option<(seq<Node>, seq<string>)>)
    ensures r == AccumGrand(tops, "TestResult", "rule-result", ReclassifyStep(risksOf, levelOf))
  {
    ghost var step := ReclassifyStep(risksOf, levelOf);
    var out: seq<Node> := [];
    var changed: seq<string> := [];
    for i := 0 to |tops|
      invariant AccumGrand(tops[..i], "TestResult", "rule-result", step) == Some((out, changed))
    {
      assert tops[..i + 1][..i] == tops[..i];
      var x := tops[i];
      if x.tag == Q("TestResult") {
        var cur := ReclassifyTestResult(x, risksOf, levelOf);
        if cur.None? {
          AccumGrandNoneExtends(tops, i + 1, "TestResult", "rule-result", step);
          return None;
        }
        out := out + [x.(children := cur.value.0)];
        changed := changed + cur.value.1;
      } else {
        out := out + [x];
      }
    }
    assert tops[..|tops|] == tops;
    r := Some((out, changed));
  }

  class ReportParser {
    /** `self.path`: where `write_xml` writes the document. */
    var path: string
    /** `self.target_tree`: the parsed report. */
    var targetTree: Node

    /** `ReportParser(report_path)`, with the document it parses given. */
    constructor(reportPath: string, parsed: Node)
      ensures path == reportPath && targetTree == parsed
    {
      path := reportPath;
      targetTree := parsed;
    }

    /** `write_xml()`: the root gains the `xmlns:xhtml` declaration. */
    method WriteXml()
      modifies this
      ensures targetTree == ReportTree.WriteXml(old(targetTree))
      ensures path == old(path)
    {
      targetTree := Set(targetTree, "xmlns:xhtml", "http://www.w3.org/1999/xhtml/");
    }

    /** `remove_empty_check_import()`. */
    method RemoveEmptyCheckImport()
      modifies this
      ensures targetTree == RemoveEmptyCheckImports(old(targetTree))
      ensures path == old(path)
    {
      targetTree := CleanTestResults(targetTree);
    }

    /** `remove_debug_info()`. */
    method RemoveDebugInfo()
      modifies this
      ensures targetTree == ReportText.RemoveDebugInfo(old(targetTree))
      ensures path == old(path)
    {
      targetTree := DropDebugInRoot(targetTree);
      WriteXml();
    }

    /** `strip_whitespaces()`. */
    method StripWhitespaces()
      modifies this
      ensures targetTree == ReportText.StripWhitespaces(old(targetTree))
      ensures path == old(path)
    {
      targetTree := StripTree(targetTree);
    }

    /** `update_check_description()`: `ok` is false where the source
        raises, and then the document is left as it was. */
    method UpdateCheckDescription() returns (ok: bool)
      modifies this
      ensures var spec := ReportText.UpdateCheckDescription(old(targetTree));
        ok == spec.Some? && (ok ==> targetTree == spec.value) && (!ok ==> targetTree == old(targetTree))
      ensures path == old(path)
    {
      var r := RewriteRulesIn(targetTree);
      if r.None? {
        return false;
      }
      targetTree := r.value;
      WriteXml();
      ok := true;
    }

    /** `select_rules(list_rules)`. */
    method SelectRules(listRules: seq<string>)
      modifies this
      ensures targetTree == ReportQueries.SelectRules(old(targetTree), listRules)
      ensures path == old(path)
    {
      targetTree := MarkProfiles(targetTree, listRules);
      WriteXml();
    }

    /** `check_rules(list_rules)`: the rules no select mentions, `None`
        where the source raises. */
    method CheckRules(listRules: seq<string>) returns (r: Option<seq<string>>)
      ensures r == ReportQueries.CheckRules(targetTree, listRules)
    {
      var sels := SelectNodes(targetTree);
      var unknownRules: seq<string> := [];
      for i := 0 to |listRules|
        invariant unknownRules == UnknownRules(listRules[..i], sels)
        invariant i > 0 ==> !SomeSelectLacksIdref(sels)
      {
        assert listRules[..i + 1][..i] == listRules[..i];
        var found := MentionedIn(listRules[i], sels);
        if found.None? {
          return None;
        }
        if !found.value {
          unknownRules := unknownRules + [listRules[i]];
        }
      }
      assert listRules[..|listRules|] == listRules;
      r := Some(unknownRules);
    }

    /** `list_rules()`. */
    method ListRules() returns (rules: seq<string>)
      ensures rules == ReportQueries.ListRules(targetTree)
    {
      var sels := SelectNodes(targetTree);
      rules := [];
      for i := 0 to |sels|
        invariant rules == Idrefs(sels[..i])
      {
        assert sels[..i + 1][..i] == sels[..i];
        var idref := Get(sels[i], "idref");
        assert Idrefs(sels[..i + 1])
          == Idrefs(sels[..i]) + (if idref.Some? && idref.value != "" then [idref.value] else []);
        if idref.Some? && idref.value != "" {
          rules := rules + [idref.value];
        }
      }
      assert sels[..|sels|] == sels;
    }

    /** `get_allowed_selected_rules()`. */
    method GetAllowedSelectedRules() returns (selected: seq<Node>)
      ensures selected == ReportQueries.GetAllowedSelectedRules(targetTree)
    {
      var sels := SelectNodes(targetTree);
      selected := [];
      for i := 0 to |sels|
        invariant selected == AllowedSelected(sels[..i])
      {
        assert sels[..i + 1][..i] == sels[..i];
        if Get(sels[i], "selected") == Some("true") {
          selected := selected + [sels[i]];
        }
      }
      assert sels[..|sels|] == sels;
    }

    /** `get_number_checks()`. */
    method GetNumberChecks() returns (n: nat)
      ensures n == ReportQueries.GetNumberChecks(targetTree)
    {
      var selected := GetAllowedSelectedRules();
      n := |selected|;
    }

    /** `get_name_of_checks()`: `None` where an allowed select names no rule
        and `rule[0]` raises. */
    method GetNameOfChecks() returns (r: Option<map<string, string>>)
      ensures r == ReportQueries.GetNameOfChecks(targetTree)
    {
      var listNames: map<string, string> := map[];
      var ruleNodes := FindDescendants(targetTree, "Rule");
      ghost var titleOf := TitleLookup(ruleNodes);
      var allowed := GetAllowedSelectedRules();
      for i := 0 to |allowed|
        invariant NamesOf(allowed[..i], titleOf) == Some(listNames)
      {
        var idRef := GetOr(allowed[i], "idref");
        NamesOfSnoc(allowed, i, titleOf);
        var rule := FindRule(ruleNodes, idRef);
        assert titleOf(idRef) == TitleOf(ruleNodes, idRef);
        if rule.None? {
          NamesOfDefined(allowed, titleOf);
          return None;
        }
        listNames := listNames[idRef := GetNodesText(ruleNodes[rule.value], "title")];
      }
      assert allowed[..|allowed|] == allowed;
      r := Some(listNames);
    }

    /** `add_global_tags(result_dir, scenario, mode, devel_mode,
        dist_native)`, with the keys and defaults of `GLOBAL_DIC_VALUES` in
        iteration order and `TAG_VALUE` given. */
    method AddGlobalTags(args: RunArgs, globals: seq<(string, string)>, tagValue: string,
                         pathJoin: (string, string) -> string)
      modifies this
      ensures targetTree == ReportGlobals.AddGlobalTags(old(targetTree), globals, tagValue, args, pathJoin)
      ensures path == old(path)
    {
      var cs := ExpandAllProfiles(targetTree.children, globals, tagValue, args, pathJoin);
      targetTree := targetTree.(children := cs);
      WriteXml();
    }

    /** `modify_result_path(result_dir, scenario, mode)`: `ok` is false
        where the source raises, and then the document is left as it was. */
    method ModifyResultPath(resultDir: string, scenario: string, mode: Option<string>,
                            pathJoin: (string, string) -> string) returns (ok: bool)
      modifies this
      ensures var spec := ReportGlobals.ModifyResultPath(old(targetTree), resultDir, scenario, pathJoin);
        ok == spec.Some? && (ok ==> targetTree == spec.value) && (!ok ==> targetTree == old(targetTree))
      ensures path == old(path)
    {
      var r := UpdateValuesIn(targetTree, pathJoin(resultDir, scenario));
      if r.None? {
        return false;
      }
      targetTree := r.value;
      WriteXml();
      ok := true;
    }

    /** `replace_inplace_risk(scanning_results)`, with the in-place risks of
        a rule-result and their level given as `risksOf` and `levelOf`.
        `ok` is false where the source raises: in the walk (the document is
        then as the cleanup left it) or in `update_data` (the walked
        document is then not written). */
    method ReplaceInplaceRisk(risksOf: Node -> seq<string>, levelOf: seq<string> -> int,
                              scanningResults: ScanProgress?) returns (ok: bool)
      modifies this, scanningResults
      ensures path == old(path)
      ensures var spec := ReportPasses.ReplaceInplaceRisk(old(targetTree), risksOf, levelOf);
        (spec.None? ==> !ok && targetTree == RemoveEmptyCheckImports(old(targetTree))
                        && (scanningResults != null ==> unchanged(scanningResults)))
        && (spec.Some? && ok ==> targetTree == spec.value.0)
        && (spec.Some? && !ok ==>
              targetTree == RemoveEmptyCheckImports(old(targetTree)).(children := spec.value.0.children))
        && (spec.Some? && scanningResults == null ==> ok)
        && (spec.Some? && scanningResults != null ==>
              scanningResults.outputData == UpdatedRows(old(scanningResults.outputData), spec.value.1)
              && (ok <==> UpdatableUpTo(old(scanningResults.outputData), spec.value.1, |old(scanningResults.outputData)|)))
      // the tracker's other fields are left alone, so it stays valid
      ensures scanningResults != null ==>
        scanningResults.totalCount == old(scanningResults.totalCount)
        && scanningResults.currentCount == old(scanningResults.currentCount)
        && scanningResults.debug == old(scanningResults.debug)
        && scanningResults.names == old(scanningResults.names)
        && scanningResults.listNames == old(scanningResults.listNames)
    {
      RemoveEmptyCheckImport();
      var walked := ReclassifyAll(targetTree.children, risksOf, levelOf);
      if walked.None? {
        return false;
      }
      targetTree := targetTree.(children := walked.value.0);
      if scanningResults != null {
        ok := scanningResults.UpdateData(walked.value.1);
        if !ok {
          return;
        }
      }
      WriteXml();
      ok := true;
    }
  }
}
