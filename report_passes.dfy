/** What each `ReportParser` pass does to the report document, as functions
    on the tree, with the properties the passes promise.  The class in
    report_parser.dfy runs the same passes with the source's loops and is
    proved to compute these functions. */
module ReportPasses {
  import opened PyStr
  import opened Wrappers
  import opened ReportTree

  // ---------------------------------------------------------------------
  // remove_empty_check_import
  // ---------------------------------------------------------------------

  /** `x.get("import-name") in ["stdout", "stderr"]`. */
  predicate HasStdName(n: Node) {
    Get(n, "import-name") == Some("stdout") || Get(n, "import-name") == Some("stderr")
  }

  /** `x.text is None or x.text.strip() == ""`. */
  predicate IsEmptyText(n: Node) {
    n.text.None? || Strip(n.text.value) == ""
  }

  /** A check-import the cleanup removes. */
  predicate IsEmptyStdImport(n: Node) {
    n.tag == Q("check-import") && HasStdName(n) && IsEmptyText(n)
  }

  /** The children of a `check` that survive the cleanup, in order. */
  function KeptImports(s: seq<Node>): seq<Node> {
    if s == [] then []
    else KeptImports(s[..|s| - 1]) + (if IsEmptyStdImport(s[|s| - 1]) then [] else [s[|s| - 1]])
  }

  /** The cleanup removes exactly the empty stdout/stderr check-imports:
      an element stays if and only if it is not one of them. */
  lemma {:induction false} KeptImportsMembers(s: seq<Node>)
    ensures forall x :: x in KeptImports(s) <==> x in s && !IsEmptyStdImport(x)
  {
    if s != [] {
      KeptImportsMembers(s[..|s| - 1]);
      assert s == s[..|s| - 1] + [s[|s| - 1]];
    }
  }

  /** The kept elements keep their relative order: the cleanup of a
      concatenation is the concatenation of the cleanups. */
  lemma {:induction false} KeptImportsAppend(s: seq<Node>, t: seq<Node>)
    ensures KeptImports(s + t) == KeptImports(s) + KeptImports(t)
    decreases |t|
  {
    if t == [] {
      assert s + t == s;
    } else {
      var t' := t[..|t| - 1];
      KeptImportsAppend(s, t');
      assert (s + t)[..|s + t| - 1] == s + t';
      assert (s + t)[|s + t| - 1] == t[|t| - 1];
    }
  }

  /** A `check` after the cleanup. */
  function CleanCheck(check: Node): Node {
    check.(children := KeptImports(check.children))
  }

  /** A `rule-result` after the cleanup: each of its `check` children cleaned. */
  function CleanRuleResult(rr: Node): Node {
    rr.(children := MapTagged(rr.children, Q("check"), CleanCheck))
  }

  /** `remove_empty_check_import`: every rule-result under every TestResult
      cleaned; the pass itself does not write the document. */
  function RemoveEmptyCheckImports(root: Node): Node {
    MapGrandchildren(root, "TestResult", "rule-result", CleanRuleResult)
  }

  /** The rule-results after the cleanup are the cleaned rule-results, one
      for one and in document order. */
  lemma RemoveEmptyCheckImportsRuleResults(root: Node)
    ensures Grandchildren(RemoveEmptyCheckImports(root), "TestResult", "rule-result")
         == MapAll(Grandchildren(root, "TestResult", "rule-result"), CleanRuleResult)
  {
    GrandchildrenOfMap(root.children, "TestResult", "rule-result", CleanRuleResult);
  }

  // ---------------------------------------------------------------------
  // replace_inplace_risk and update_result_based_on_risk
  // ---------------------------------------------------------------------

  /** `settings.needs_inspection` and `settings.needs_action`. */
  const NeedsInspection: string := "needs_inspection"
  const NeedsAction: string := "needs_action"

  /** `update_result_based_on_risk`: level 0 means needs_inspection, level 1
      needs_action, any other level leaves the text. */
  function UpdateResultBasedOnRisk(text: Option<string>, level: int): Option<string> {
    if level == 0 then Some(NeedsInspection)
    else if level == 1 then Some(NeedsAction)
    else text
  }

  /** The outcome for one rule-result: its new result text and the result
      texts appended to `changed_results` (in the order appended). */
  datatype Classified = Classified(text: Option<string>, appended: seq<string>)

  /** The three consecutive `if` statements of `replace_inplace_risk` for one
      result text, its in-place risks and the risk level computed from them. */
  function Classify(text: Option<string>, risks: seq<string>, level: int): (c: Classified)
    // risk evidence on anything but "fail" forces "error"
    ensures text != Some("fail") && risks != [] ==> c == Classified(Some("error"), ["error"])
    // "fail" without evidence is an anomaly: "error"
    ensures text == Some("fail") && risks == [] ==> c == Classified(Some("error"), ["error"])
    // "fail" with evidence takes the level mapping, and is always recorded
    ensures text == Some("fail") && risks != [] ==>
      c.text == (if level == 0 then Some(NeedsInspection) else if level == 1 then Some(NeedsAction) else Some("fail"))
      && c.appended == [c.text.value]
    // "unknown" always becomes "error"
    ensures text == Some("unknown") ==> c == Classified(Some("error"), ["error"])
    // no evidence and neither "fail" nor "unknown": untouched and not recorded
    ensures text != Some("fail") && text != Some("unknown") && risks == [] ==> c == Classified(text, [])
    // at most one record, and it names the final text
    ensures |c.appended| <= 1
    ensures c.appended != [] ==> c.text.Some? && c.appended == [c.text.value]
    ensures c.appended == [] ==> c.text == text
    ensures c.text != Some("unknown")
    ensures c.text == Some("fail") ==> risks != [] && level != 0 && level != 1
  {
    var (t1, a1) :=
      if text != Some("fail") && risks != [] then (Some("error"), ["error"]) else (text, []);
    var (t2, a2) :=
      if t1 == Some("fail") then
        if risks == [] then (Some("error"), ["error"])
        else
          var t := UpdateResultBasedOnRisk(t1, level);
          (t, [t.value])
      else (t1, []);
    var (t3, a3) :=
      if t2 == Some("unknown") then (Some("error"), ["error"]) else (t2, []);
    Classified(t3, a1 + a2 + a3)
  }

  /** The text of a rule-result's first `result` child, as `get_child` finds it. */
  function ResultText(rr: Node): Option<string> {
    match FirstTagged(rr.children, Q("result"))
    case None => None
    case Some(i) => rr.children[i].text
  }

  /** One rule-result through `replace_inplace_risk`: the rewritten node and
      the `"idref:result"` entries it adds to `changed_results`, or `None`
      where the source raises: no `result` child (`AttributeError`), or an
      entry to record for a rule-result without `idref` (`TypeError`). */
  function ReclassifyRuleResult(rr: Node, risksOf: Node -> seq<string>, levelOf: seq<string> -> int)
    : (r: Option<(Node, seq<string>)>)
    ensures FirstTagged(rr.children, Q("result")).None? ==> r.None?
    ensures r.Some? ==>
      r.value.0.tag == rr.tag && r.value.0.attrib == rr.attrib && |r.value.0.children| == |rr.children|
    // with a `result` child: the new result is the decision table's, and the
    // source raises exactly when an entry is due and there is no `idref`
    ensures FirstTagged(rr.children, Q("result")).Some? ==>
      var c := Classify(ResultText(rr), risksOf(rr), levelOf(risksOf(rr)));
      (r.None? <==> c.appended != [] && Get(rr, "idref").None?)
      && (r.Some? ==> ResultText(r.value.0) == c.text && (r.value.1 == [] <==> c.appended == []))
    // only the text of that `result` child changes
    ensures r.Some? && FirstTagged(rr.children, Q("result")).Some? ==>
      var i := FirstTagged(rr.children, Q("result")).value;
      r.value.0.children[i].tag == rr.children[i].tag && r.value.0.children[i].attrib == rr.children[i].attrib
      && r.value.0.children[i].children == rr.children[i].children
      && forall j :: 0 <= j < |rr.children| && j != i ==> r.value.0.children[j] == rr.children[j]
    ensures r.Some? ==> |r.value.1| <= 1
    ensures r.Some? && r.value.1 == [] ==> r.value.0 == rr
    ensures r.Some? && r.value.1 != [] ==>
      Get(rr, "idref").Some? && ResultText(r.value.0).Some?
      && r.value.1 == [Get(rr, "idref").value + ":" + ResultText(r.value.0).value]
  {
    match FirstTagged(rr.children, Q("result"))
    case None => None
    case Some(i) =>
      var risks := risksOf(rr);
      var c := Classify(rr.children[i].text, risks, levelOf(risks));
      if c.appended == [] then
        assert c.text == rr.children[i].text;
        assert rr.children[i := rr.children[i].(text := c.text)] == rr.children;
        Some((rr, []))
      else if Get(rr, "idref").None? then None
      else
        var rr' := rr.(children := rr.children[i := rr.children[i].(text := c.text)]);
        assert FirstTagged(rr'.children, Q("result")) == Some(i) by {
          FirstTaggedSameTags(rr.children, rr'.children, Q("result"));
        }
        Some((rr', [Get(rr, "idref").value + ":" + c.appended[0]]))
  }

  /** Two sequences with the same tags position by position have the same
      first element of any tag. */
  lemma {:induction false} FirstTaggedSameTags(s: seq<Node>, t: seq<Node>, qtag: string)
    requires |s| == |t| && forall i :: 0 <= i < |s| ==> s[i].tag == t[i].tag
    ensures FirstTagged(s, qtag) == FirstTagged(t, qtag)
  {
    if s != [] {
      FirstTaggedSameTags(s[1..], t[1..], qtag);
    }
  }

  /** An update of one node that may raise (`None`) and that records
      entries for the caller. */
  type Step = Node -> Option<(Node, seq<string>)>

  /** A step that never changes the tag of the node it updates. */
  ghost predicate KeepsTags(step: Step) {
    forall x :: step(x).Some? ==> step(x).value.0.tag == x.tag
  }

  /** `replace_inplace_risk`'s body for one rule-result. */
  function ReclassifyStep(risksOf: Node -> seq<string>, levelOf: seq<string> -> int): Step {
    rr => ReclassifyRuleResult(rr, risksOf, levelOf)
  }

  /** `step` applied to every node of `s`, in order, collecting the entries;
      `None` as soon as one step raises. */
  function AccumAll(s: seq<Node>, step: Step): Option<(seq<Node>, seq<string>)> {
    if s == [] then Some(([], []))
    else
      var prev := AccumAll(s[..|s| - 1], step);
      var cur := step(s[|s| - 1]);
      if prev.None? || cur.None? then None
      else Some((prev.value.0 + [cur.value.0], prev.value.1 + cur.value.1))
  }

  /** `step` applied to the nodes of `s` tagged `qtag`, the others kept. */
  function AccumTagged(s: seq<Node>, qtag: string, step: Step): Option<(seq<Node>, seq<string>)> {
    if s == [] then Some(([], []))
    else
      var prev := AccumTagged(s[..|s| - 1], qtag, step);
      var x := s[|s| - 1];
      if prev.None? then None
      else if x.tag != qtag then Some((prev.value.0 + [x], prev.value.1))
      else
        var cur := step(x);
        if cur.None? then None
        else Some((prev.value.0 + [cur.value.0], prev.value.1 + cur.value.1))
  }

  /** `step` applied to every `child` of every `parent` among the nodes of
      `s`: the nested loops over `filter_grandchildren`. */
  function AccumGrand(s: seq<Node>, parent: string, child: string, step: Step): Option<(seq<Node>, seq<string>)> {
    if s == [] then Some(([], []))
    else
      var prev := AccumGrand(s[..|s| - 1], parent, child, step);
      var x := s[|s| - 1];
      if prev.None? then None
      else if x.tag != Q(parent) then Some((prev.value.0 + [x], prev.value.1))
      else
        var cur := AccumTagged(x.children, Q(child), step);
        if cur.None? then None
        else Some((prev.value.0 + [x.(children := cur.value.0)], prev.value.1 + cur.value.1))
  }

  /** Once the walk of a prefix raises, the walk of the whole raises. */
  lemma {:induction false} AccumTaggedNoneExtends(s: seq<Node>, k: nat, qtag: string, step: Step)
    requires k <= |s| && AccumTagged(s[..k], qtag, step).None?
    ensures AccumTagged(s, qtag, step).None?
    decreases |s|
  {
    if k < |s| {
      var init := s[..|s| - 1];
      assert init[..k] == s[..k];
      AccumTaggedNoneExtends(init, k, qtag, step);
    } else {
      assert s[..k] == s;
    }
  }

  lemma {:induction false} AccumGrandNoneExtends(s: seq<Node>, k: nat, parent: string, child: string, step: Step)
    requires k <= |s| && AccumGrand(s[..k], parent, child, step).None?
    ensures AccumGrand(s, parent, child, step).None?
    decreases |s|
  {
    if k < |s| {
      var init := s[..|s| - 1];
      assert init[..k] == s[..k];
      AccumGrandNoneExtends(init, k, parent, child, step);
    } else {
      assert s[..k] == s;
    }
  }

  /** `replace_inplace_risk`: the cleanup, the reclassification of every
      rule-result in document order, and the write; the result is the new
      document and the `changed_results` list handed to the tracker, or
      `None` where the source raises. */
  function ReplaceInplaceRisk(root: Node, risksOf: Node -> seq<string>, levelOf: seq<string> -> int)
    : Option<(Node, seq<string>)>
  {
    var cleaned := RemoveEmptyCheckImports(root);
    var walked := AccumGrand(cleaned.children, "TestResult", "rule-result", ReclassifyStep(risksOf, levelOf));
    if walked.None? then None
    else Some((WriteXml(cleaned.(children := walked.value.0)), walked.value.1))
  }

  /** The flat walk keeps each node's outcome at its own position: one
      output per input, and no more entries than nodes when each step
      records at most one. */
  lemma {:induction false} AccumAllShape(s: seq<Node>, step: Step)
    requires AccumAll(s, step).Some?
    ensures |AccumAll(s, step).value.0| == |s|
    ensures forall k :: 0 <= k < |s| ==>
      step(s[k]).Some? && step(s[k]).value.0 == AccumAll(s, step).value.0[k]
    ensures (forall x :: step(x).Some? ==> |step(x).value.1| <= 1) ==> |AccumAll(s, step).value.1| <= |s|
  {
    if s != [] {
      var init := s[..|s| - 1];
      AccumAllShape(init, step);
      forall k | 0 <= k < |s|
        ensures step(s[k]).Some? && step(s[k]).value.0 == AccumAll(s, step).value.0[k]
      {
        if k < |s| - 1 { assert s[k] == init[k]; }
      }
    }
  }

  /** Walking `a + b` is walking `a`, then `b`. */
  predicate AccumAppends(a: seq<Node>, b: seq<Node>, step: Step) {
    var fab := AccumAll(a + b, step);
    var fa := AccumAll(a, step);
    var fb := AccumAll(b, step);
    (fab.Some? <==> fa.Some? && fb.Some?)
    && (fab.Some? ==> fab.value == (fa.value.0 + fb.value.0, fa.value.1 + fb.value.1))
  }

  lemma {:induction false} AccumAllAppend(a: seq<Node>, b: seq<Node>, step: Step)
    ensures AccumAppends(a, b, step)
    decreases |b|
  {
    if b == [] {
      assert a + b == a;
      var fa := AccumAll(a, step);
      if fa.Some? {
        assert fa.value.0 + [] == fa.value.0 && fa.value.1 + [] == fa.value.1;
      }
    } else {
      var b' := b[..|b| - 1];
      var x := b[|b| - 1];
      AccumAllAppend(a, b', step);
      var ab := a + b;
      assert ab[..|ab| - 1] == a + b';
      assert ab[|ab| - 1] == x;
      var fa := AccumAll(a, step);
      var fb' := AccumAll(b', step);
      var fx := step(x);
      if fa.Some? && fb'.Some? && fx.Some? {
        assert fa.value.0 + fb'.value.0 + [fx.value.0] == fa.value.0 + (fb'.value.0 + [fx.value.0]);
        assert fa.value.1 + fb'.value.1 + fx.value.1 == fa.value.1 + (fb'.value.1 + fx.value.1);
      }
    }
  }

  /** Walking the nodes tagged `qtag` in place is walking the list of those
      nodes: it raises exactly when that does, and yields the same entries. */
  lemma {:induction false} AccumTaggedIsFlat(s: seq<Node>, qtag: string, step: Step)
    requires KeepsTags(step)
    ensures AccumTagged(s, qtag, step).None? <==> AccumAll(Tagged(s, qtag), step).None?
    ensures AccumTagged(s, qtag, step).Some? ==>
      AccumAll(Tagged(s, qtag), step)
        == Some((Tagged(AccumTagged(s, qtag, step).value.0, qtag), AccumTagged(s, qtag, step).value.1))
  {
    if s != [] {
      var init := s[..|s| - 1];
      var x := s[|s| - 1];
      AccumTaggedIsFlat(init, qtag, step);
      assert s == init + [x];
      TaggedAppend(init, [x], qtag);
      assert [x][1..] == [];
      AccumAllAppend(Tagged(init, qtag), Tagged([x], qtag), step);
      var prev := AccumTagged(init, qtag, step);
      if prev.Some? {
        var done := prev.value.0;
        assert AccumAll(Tagged(init, qtag), step) == Some((Tagged(done, qtag), prev.value.1));
        if x.tag == qtag {
          assert Tagged([x], qtag) == [x];
          assert [x][..0] == [];
          var cur := step(x);
          if cur.Some? {
            var x' := cur.value.0;
            assert x'.tag == qtag;
            assert AccumAll([x], step) == Some(([] + [x'], [] + cur.value.1));
            assert AccumTagged(s, qtag, step) == Some((done + [x'], prev.value.1 + cur.value.1));
            TaggedAppend(done, [x'], qtag);
            assert [x'][1..] == [];
            assert Tagged([x'], qtag) == [x'];
          }
        } else {
          assert Tagged([x], qtag) == [];
          assert AccumAll([], step) == Some(([], []));
          assert AccumTagged(s, qtag, step) == Some((done + [x], prev.value.1));
          TaggedAppend(done, [x], qtag);
          assert Tagged(init, qtag) + [] == Tagged(init, qtag);
          assert Tagged(done, qtag) + [] == Tagged(done, qtag);
        }
      }
    }
  }

  lemma {:induction false} GrandchildrenOfAppend(s: seq<Node>, t: seq<Node>, parent: string, child: string)
    ensures GrandchildrenOf(s + t, parent, child) == GrandchildrenOf(s, parent, child) + GrandchildrenOf(t, parent, child)
  {
    if s == [] {
      assert s + t == t;
    } else {
      GrandchildrenOfAppend(s[1..], t, parent, child);
      assert (s + t)[1..] == s[1..] + t;
    }
  }

  /** The nested walk (parent by parent, child by child) is the flat walk of
      `filter_grandchildren`: it raises exactly when that does, the new
      grandchildren are the stepped ones, and the entries come in document
      order. */
  lemma {:induction false} AccumGrandIsFlat(s: seq<Node>, parent: string, child: string, step: Step)
    requires KeepsTags(step)
    ensures AccumGrand(s, parent, child, step).None? <==> AccumAll(GrandchildrenOf(s, parent, child), step).None?
    ensures AccumGrand(s, parent, child, step).Some? ==>
      AccumAll(GrandchildrenOf(s, parent, child), step)
        == Some((GrandchildrenOf(AccumGrand(s, parent, child, step).value.0, parent, child),
                 AccumGrand(s, parent, child, step).value.1))
  {
    if s != [] {
      var init := s[..|s| - 1];
      var x := s[|s| - 1];
      AccumGrandIsFlat(init, parent, child, step);
      assert s == init + [x];
      GrandchildrenOfAppend(init, [x], parent, child);
      assert [x][1..] == [];
      var gx := GrandchildrenOf([x], parent, child);
      AccumAllAppend(GrandchildrenOf(init, parent, child), gx, step);
      var prev := AccumGrand(init, parent, child, step);
      if prev.Some? {
        var done := prev.value.0;
        if x.tag == Q(parent) {
          assert gx == Tagged(x.children, Q(child));
          AccumTaggedIsFlat(x.children, Q(child), step);
          var cur := AccumTagged(x.children, Q(child), step);
          if cur.Some? {
            var x' := x.(children := cur.value.0);
            assert x'.tag == Q(parent);
            GrandchildrenOfAppend(done, [x'], parent, child);
            assert [x'][1..] == [];
            assert GrandchildrenOf([x'], parent, child) == Tagged(cur.value.0, Q(child));
          }
        } else {
          assert gx == [];
          GrandchildrenOfAppend(done, [x], parent, child);
          assert GrandchildrenOf(init, parent, child) + [] == GrandchildrenOf(init, parent, child);
          assert GrandchildrenOf(done, parent, child) + [] == GrandchildrenOf(done, parent, child);
        }
      }
    }
  }

  /** What `replace_inplace_risk` promises over the whole document: it
      raises exactly when reclassifying `get_all_rule_results()` in order
      raises; otherwise the new rule-results are those rule-results
      reclassified one for one, and `changed_results` holds at most one entry
      per rule-result, in document order, each `idref:final result`. */
  lemma ReplaceInplaceRiskIsFlat(root: Node, risksOf: Node -> seq<string>, levelOf: seq<string> -> int)
    ensures var cleaned := RemoveEmptyCheckImports(root);
      var rrs := Grandchildren(cleaned, "TestResult", "rule-result");
      var flat := AccumAll(rrs, ReclassifyStep(risksOf, levelOf));
      var r := ReplaceInplaceRisk(root, risksOf, levelOf);
      (r.None? <==> flat.None?)
      && (r.Some? ==>
            flat.value.1 == r.value.1
            && Grandchildren(r.value.0, "TestResult", "rule-result") == flat.value.0
            && |r.value.1| <= |rrs|
            && |flat.value.0| == |rrs|
            && forall k :: 0 <= k < |rrs| ==>
                 ReclassifyRuleResult(rrs[k], risksOf, levelOf).Some?
                 && ReclassifyRuleResult(rrs[k], risksOf, levelOf).value.0 == flat.value.0[k])
  {
    var cleaned := RemoveEmptyCheckImports(root);
    var step := ReclassifyStep(risksOf, levelOf);
    assert forall x :: step(x) == ReclassifyRuleResult(x, risksOf, levelOf);
    AccumGrandIsFlat(cleaned.children, "TestResult", "rule-result", step);
    var rrs := Grandchildren(cleaned, "TestResult", "rule-result");
    var flat := AccumAll(rrs, step);
    if flat.Some? {
      AccumAllShape(rrs, step);
    }
  }
}
