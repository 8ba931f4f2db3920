/** The `ReportParser` passes that rewrite the text of report elements:
    `remove_debug_info`, `strip_whitespaces`, `update_check_description`,
    and the namespace rewrite of `write_xccdf_version`. */
module ReportText {
  import opened PyStr
  import opened Wrappers
  import opened ReportTree
  import opened ReportPasses

  // ---------------------------------------------------------------------
  // remove_debug_info
  // ---------------------------------------------------------------------

  /** `re.match(r'^preupg.log.DEBUG.*', line)`: `.` matches any character
      but a newline, and `.*` matches whatever follows. */
  predicate IsDebugLine(line: string) {
    |line| >= 16 && line[..6] == "preupg" && line[6] != '\n' && line[7..10] == "log"
    && line[10] != '\n' && line[11..16] == "DEBUG"
  }

  /** The lines `remove_debug_info` keeps, in order. */
  function DropDebugLines(lines: seq<string>): seq<string> {
    if lines == [] then []
    else DropDebugLines(lines[..|lines| - 1])
         + (if IsDebugLine(lines[|lines| - 1]) then [] else [lines[|lines| - 1]])
  }

  /** A line is kept if and only if it is not a debug line. */
  lemma {:induction false} DropDebugLinesMembers(lines: seq<string>)
    ensures forall x :: x in DropDebugLines(lines) <==> x in lines && !IsDebugLine(x)
  {
    if lines != [] {
      DropDebugLinesMembers(lines[..|lines| - 1]);
      assert lines == lines[..|lines| - 1] + [lines[|lines| - 1]];
    }
  }

  /** Lines are filtered one by one: the kept lines of `a + b` are those
      of `a` followed by those of `b`, so order and repeats are kept. */
  lemma {:induction false} DropDebugLinesAppend(a: seq<string>, b: seq<string>)
    ensures DropDebugLines(a + b) == DropDebugLines(a) + DropDebugLines(b)
    decreases |b|
  {
    if b == [] {
      assert a + b == a;
    } else {
      var b' := b[..|b| - 1];
      assert (a + b)[..|a + b| - 1] == a + b';
      DropDebugLinesAppend(a, b');
    }
  }

  /** Lines without a debug line are all kept. */
  lemma {:induction false} DropDebugLinesNone(lines: seq<string>)
    requires forall i :: 0 <= i < |lines| ==> !IsDebugLine(lines[i])
    ensures DropDebugLines(lines) == lines
  {
    if lines != [] {
      DropDebugLinesNone(lines[..|lines| - 1]);
      assert lines == lines[..|lines| - 1] + [lines[|lines| - 1]];
    }
  }

  /** The new text of one check-import: `'\n'.join` of its lines that are
      not debug lines. */
  function WithoutDebug(text: string): string {
    Join(DropDebugLines(Split(text, '\n')), '\n')
  }

  /** The lines of the new text are exactly the kept lines; when every line
      was a debug line the text is empty, i.e. one empty line. */
  lemma WithoutDebugLines(text: string)
    ensures var kept := DropDebugLines(Split(text, '\n'));
      Split(WithoutDebug(text), '\n') == if kept == [] then [""] else kept
    ensures forall l :: l in Split(WithoutDebug(text), '\n') ==>
      !IsDebugLine(l) && (l in Split(text, '\n') || l == "")
  {
    var lines := Split(text, '\n');
    var kept := DropDebugLines(lines);
    DropDebugLinesMembers(lines);
    if kept != [] {
      assert forall i :: 0 <= i < |kept| ==> '\n' !in kept[i] by {
        forall i | 0 <= i < |kept| ensures '\n' !in kept[i] {
          assert kept[i] in lines;
        }
      }
      SplitJoin(kept, '\n');
    }
  }

  /** Removing the debug lines twice is removing them once. */
  lemma WithoutDebugIdempotent(text: string)
    ensures WithoutDebug(WithoutDebug(text)) == WithoutDebug(text)
  {
    var t := WithoutDebug(text);
    WithoutDebugLines(text);
    var lines := Split(t, '\n');
    assert forall i :: 0 <= i < |lines| ==> !IsDebugLine(lines[i]) by {
      forall i | 0 <= i < |lines| ensures !IsDebugLine(lines[i]) {
        assert lines[i] in lines;
      }
    }
    DropDebugLinesNone(lines);
    JoinSplit(t, '\n');
  }

  /** A text without debug lines is left as it is. */
  lemma WithoutDebugNoDebug(text: string)
    requires forall i :: 0 <= i < |Split(text, '\n')| ==> !IsDebugLine(Split(text, '\n')[i])
    ensures WithoutDebug(text) == text
  {
    DropDebugLinesNone(Split(text, '\n'));
    JoinSplit(text, '\n');
  }

  /** A check-import after the pass; one without text is skipped. */
  function StripDebugImport(ci: Node): Node {
    match ci.text
    case None => ci
    case Some(t) => ci.(text := Some(WithoutDebug(t)))
  }

  /** The check-imports of one rule-result (`filter_grandchildren(rule,
      "check", "check-import")`) after the pass. */
  function StripDebugRuleResult(rr: Node): Node {
    MapGrandchildren(rr, "check", "check-import", StripDebugImport)
  }

  /** `remove_debug_info`: every check-import of every rule-result of every
      TestResult loses its debug lines; then the document is written. */
  function RemoveDebugInfo(root: Node): Node {
    WriteXml(MapGrandchildren(root, "TestResult", "rule-result", StripDebugRuleResult))
  }

  /** Every check-import of every rule-result has had its debug lines
      removed, and no element was added or removed on the way. */
  lemma RemoveDebugInfoImports(root: Node)
    ensures var before := Grandchildren(root, "TestResult", "rule-result");
      var after := Grandchildren(RemoveDebugInfo(root), "TestResult", "rule-result");
      |after| == |before|
      && forall k :: 0 <= k < |before| ==>
           Grandchildren(after[k], "check", "check-import")
           == MapAll(Grandchildren(before[k], "check", "check-import"), StripDebugImport)
  {
    var before := Grandchildren(root, "TestResult", "rule-result");
    GrandchildrenOfMap(root.children, "TestResult", "rule-result", StripDebugRuleResult);
    forall k | 0 <= k < |before|
      ensures Grandchildren(StripDebugRuleResult(before[k]), "check", "check-import")
           == MapAll(Grandchildren(before[k], "check", "check-import"), StripDebugImport)
    {
      GrandchildrenOfMap(before[k].children, "check", "check-import", StripDebugImport);
    }
  }

  // ---------------------------------------------------------------------
  // strip_whitespaces
  // ---------------------------------------------------------------------

  /** The trailing padding oscap leaves after a module's output: two
      newlines, ten blanks and a newline. */
  const Padding: string := "\n\n          \n"

  /** The text a node has after `strip_whitespaces`: a stdout/stderr
      check-import whose non-empty text starts with a newline and ends with
      the padding loses both (`txt[1:-13]`, which is empty when the text is
      the padding alone); every other node keeps its text. */
  function PaddedText(n: Node): (r: Option<string>)
    ensures r != n.text ==>
      n.tag == Q("check-import") && HasStdName(n) && n.text.Some? && r.Some?
      && ("\n" + r.value + Padding == n.text.value || (n.text.value == Padding && r.value == ""))
    ensures n.tag == Q("check-import") && HasStdName(n) && n.text.Some?
      && StartsWith(n.text.value, "\n") && EndsWith(n.text.value, Padding) && n.text.value != Padding
      ==> r.Some? && "\n" + r.value + Padding == n.text.value
    ensures n.tag == Q("check-import") && HasStdName(n) && n.text == Some(Padding) ==> r == Some("")
  {
    if n.tag == Q("check-import") && HasStdName(n) && n.text.Some? && n.text.value != ""
       && StartsWith(n.text.value, "\n") && EndsWith(n.text.value, Padding)
    then
      var t := n.text.value;
      if |t| > |Padding| then
        assert t == "\n" + t[1..|t| - 13] + Padding by {
          assert t == t[..1] + t[1..|t| - 13] + t[|t| - 13..];
        }
        Some(t[1..|t| - 13])
      else Some("")
    else n.text
  }

  /** `strip_whitespaces` on the subtree rooted at `n`: `getiterator` visits
      the node itself and all its descendants. */
  function StripAll(n: Node): Node
    decreases n
  {
    n.(text := PaddedText(n),
       children := seq(|n.children|, i requires 0 <= i < |n.children| => StripAll(n.children[i])))
  }

  /** `b` is `a` with at most the texts of stdout/stderr check-imports
      changed, at every depth. */
  predicate OnlyStdTextsDiffer(a: Node, b: Node)
    decreases a
  {
    a.tag == b.tag && a.attrib == b.attrib && |a.children| == |b.children|
    && (a.text != b.text ==> a.tag == Q("check-import") && HasStdName(a))
    && forall i :: 0 <= i < |a.children| ==> OnlyStdTextsDiffer(a.children[i], b.children[i])
  }

  /** The pass adds, removes and reorders nothing and changes no tag or
      attribute: only stdout/stderr check-import texts change. */
  lemma {:induction false} StripAllShape(n: Node)
    ensures OnlyStdTextsDiffer(n, StripAll(n))
    decreases n
  {
    forall i | 0 <= i < |n.children|
      ensures OnlyStdTextsDiffer(n.children[i], StripAll(n).children[i])
    {
      StripAllShape(n.children[i]);
    }
  }

  /** `strip_whitespaces` (it does not write the document). */
  function StripWhitespaces(root: Node): Node {
    StripAll(root)
  }

  // ---------------------------------------------------------------------
  // update_check_description
  // ---------------------------------------------------------------------

  const DetailsMarker: string := "Details:"
  const ExpectedMarker: string := "Expected results:"

  /** The markup that replaces the markers: `'<ns0:' + tag_details + attr +
      '>'`, `'</ns0:' + tag_details + '>\n<ns0:' + tag_exp_results + attr +
      '>'` and the closing line `'</ns0:' + tag_exp_results + '>'`. */
  const DetailsOpen: string := "<ns0:details xml:lang=\"en\">"
  const ExpectedOpen: string := "</ns0:details>\n<ns0:expected-results xml:lang=\"en\">"
  const ExpectedClose: string := "</ns0:expected-results>"

  /** A line whose stripped text starts with one of the markers. */
  predicate IsMarkerLine(line: string) {
    StartsWith(Strip(line), DetailsMarker) || StartsWith(Strip(line), ExpectedMarker)
  }

  /** The loop body for one line: `Details:` is tested first. */
  function RewriteLine(line: string): string {
    if StartsWith(Strip(line), DetailsMarker) then Replace(line, DetailsMarker, DetailsOpen)
    else if StartsWith(Strip(line), ExpectedMarker) then Replace(line, ExpectedMarker, ExpectedOpen)
    else line
  }

  predicate HasMarker(lines: seq<string>) {
    exists i :: 0 <= i < |lines| && IsMarkerLine(lines[i])
  }

  function RewriteLines(lines: seq<string>): (r: seq<string>)
    ensures |r| == |lines|
  {
    seq(|lines|, i requires 0 <= i < |lines| => RewriteLine(lines[i]))
  }

  /** The new text of one description: rewritten and closed when a marker
      line was found (`found == 1`), otherwise the text as it was. */
  function RewriteDescriptionText(text: string): string {
    var lines := Split(text, '\n');
    if HasMarker(lines) then Join(RewriteLines(lines) + [ExpectedClose], '\n') else text
  }

  /** A suffix of `s` that starts with `sub` means `sub in s`. */
  lemma {:induction false} ContainsFrom(s: string, a: nat, sub: string)
    requires a <= |s| && StartsWith(s[a..], sub)
    ensures Contains(s, sub)
    decreases a
  {
    if a > 0 {
      assert s[1..][a - 1..] == s[a..];
      ContainsFrom(s[1..], a - 1, sub);
    } else {
      assert s[0..] == s;
    }
  }

  /** `s.strip()` is a slice of `s`. */
  lemma StripSlice(s: string)
    ensures exists a: nat, b: nat :: a <= b <= |s| && Strip(s) == s[a..b]
  {
    LStripShape(s);
    var l := LStrip(s);
    RStripShape(l);
    var a := |s| - |l|;
    var b := a + |RStrip(l)|;
    assert Strip(s) == s[a..b];
  }

  /** A stripped line that starts with `sub` contains it. */
  lemma StrippedStartContains(s: string, sub: string)
    requires StartsWith(Strip(s), sub)
    ensures Contains(s, sub)
  {
    StripSlice(s);
    var a: nat, b: nat :| a <= b <= |s| && Strip(s) == s[a..b];
    assert s[a..][..|sub|] == s[a..b][..|sub|];
    ContainsFrom(s, a, sub);
  }

  /** After `replace`, a string that contained the pattern contains the
      replacement. */
  lemma {:induction false} ReplaceIntroduces(s: string, pat: string, rep: string)
    requires pat != [] && Contains(s, pat)
    ensures Contains(Replace(s, pat, rep), rep)
    decreases |s|
  {
    var r := Replace(s, pat, rep);
    if |s| >= |pat| && s[..|pat|] == pat {
      assert r[..|rep|] == rep;
    } else {
      assert Contains(s[1..], pat);
      ReplaceIntroduces(s[1..], pat, rep);
      assert r[1..] == Replace(s[1..], pat, rep);
    }
  }

  /** A replacement at least as long as the pattern never shortens a string. */
  lemma {:induction false} ReplaceLonger(s: string, pat: string, rep: string)
    requires pat != [] && |rep| >= |pat|
    ensures |Replace(s, pat, rep)| >= |s|
    decreases |s|
  {
    if |s| >= |pat| {
      if s[..|pat|] == pat {
        ReplaceLonger(s[|pat|..], pat, rep);
      } else {
        ReplaceLonger(s[1..], pat, rep);
      }
    }
  }

  /** Each marker line now holds its markup; every other line is kept. */
  lemma RewriteLineSpec(line: string)
    ensures StartsWith(Strip(line), DetailsMarker) ==> Contains(RewriteLine(line), DetailsOpen)
    ensures !StartsWith(Strip(line), DetailsMarker) && StartsWith(Strip(line), ExpectedMarker)
      ==> Contains(RewriteLine(line), ExpectedOpen)
    ensures !IsMarkerLine(line) ==> RewriteLine(line) == line
    ensures |RewriteLine(line)| >= |line|
  {
    if StartsWith(Strip(line), DetailsMarker) {
      StrippedStartContains(line, DetailsMarker);
      ReplaceIntroduces(line, DetailsMarker, DetailsOpen);
      ReplaceLonger(line, DetailsMarker, DetailsOpen);
    } else if StartsWith(Strip(line), ExpectedMarker) {
      StrippedStartContains(line, ExpectedMarker);
      ReplaceIntroduces(line, ExpectedMarker, ExpectedOpen);
      ReplaceLonger(line, ExpectedMarker, ExpectedOpen);
    }
  }

  /** Joining longer parts gives a longer text. */
  lemma {:induction false} JoinLonger(a: seq<string>, b: seq<string>, sep: char)
    requires |a| == |b| && forall i :: 0 <= i < |a| ==> |a[i]| >= |b[i]|
    ensures |Join(a, sep)| >= |Join(b, sep)|
  {
    if |a| > 1 {
      JoinLonger(a[1..], b[1..], sep);
    }
  }

  /** Appending a part to a non-empty list appends it after a separator. */
  lemma {:induction false} JoinSnoc(parts: seq<string>, last: string, sep: char)
    requires |parts| >= 1
    ensures Join(parts + [last], sep) == Join(parts, sep) + [sep] + last
  {
    if |parts| > 1 {
      JoinSnoc(parts[1..], last, sep);
      assert (parts + [last])[1..] == parts[1..] + [last];
    }
  }

  /** Rewriting the lines never shortens their join. */
  lemma RewriteLinesLonger(lines: seq<string>)
    ensures |Join(RewriteLines(lines), '\n')| >= |Join(lines, '\n')|
  {
    var rl := RewriteLines(lines);
    forall i | 0 <= i < |lines| ensures |rl[i]| >= |lines[i]| {
      RewriteLineSpec(lines[i]);
    }
    JoinLonger(rl, lines, '\n');
  }

  /** With a marker, the text is the rewritten lines and the closing markup
      on a line of its own. */
  lemma MarkedRewrite(text: string)
    requires HasMarker(Split(text, '\n'))
    ensures RewriteDescriptionText(text) == Join(RewriteLines(Split(text, '\n')), '\n') + ("\n" + ExpectedClose)
  {
    var rl := RewriteLines(Split(text, '\n'));
    JoinSnoc(rl, ExpectedClose, '\n');
    assert Join(rl, '\n') + ['\n'] + ExpectedClose == Join(rl, '\n') + ("\n" + ExpectedClose);
  }

  /** With a marker, the text grows. */
  lemma MarkedRewriteLonger(text: string)
    requires HasMarker(Split(text, '\n'))
    ensures |RewriteDescriptionText(text)| > |text|
  {
    MarkedRewrite(text);
    RewriteLinesLonger(Split(text, '\n'));
    JoinSplit(text, '\n');
  }

  /** The description text changes if and only if one of its lines starts
      with a marker, and then it ends with the closing markup on its own
      line. */
  lemma RewriteDescriptionTextSpec(text: string)
    ensures RewriteDescriptionText(text) == text <==> !HasMarker(Split(text, '\n'))
    ensures HasMarker(Split(text, '\n')) ==> EndsWith(RewriteDescriptionText(text), "\n" + ExpectedClose)
  {
    if HasMarker(Split(text, '\n')) {
      MarkedRewrite(text);
      MarkedRewriteLonger(text);
      var head := Join(RewriteLines(Split(text, '\n')), '\n');
      var tail := "\n" + ExpectedClose;
      assert (head + tail)[|head + tail| - |tail|..] == tail;
    }
  }

  /** A description after the pass; one without text has made the source
      raise before this is reached. */
  function RewriteDescription(d: Node): Node {
    match d.text
    case None => d
    case Some(t) => d.(text := Some(RewriteDescriptionText(t)))
  }

  /** A `Rule` after the pass: its `description` children rewritten. */
  function RewriteRule(rule: Node): (r: Node)
    ensures r.tag == rule.tag && r.attrib == rule.attrib && r.text == rule.text
  {
    rule.(children := MapTagged(rule.children, Q("description"), RewriteDescription))
  }

  /** Every `Rule` strictly below `n` rewritten (`_get_all_rules()` is the
      `.//Rule` search, which does not include `n` itself). */
  function RewriteRulesBelow(n: Node): (r: Node)
    ensures r.tag == n.tag && r.attrib == n.attrib && r.text == n.text
    ensures |r.children| == |n.children|
    ensures forall j :: 0 <= j < |n.children| ==>
      r.children[j].tag == n.children[j].tag && r.children[j].text == n.children[j].text
    decreases n
  {
    n.(children := seq(|n.children|, i requires 0 <= i < |n.children| =>
         var c := RewriteRulesBelow(n.children[i]);
         if c.tag == Q("Rule") then RewriteRule(c) else c))
  }

  /** Every `description` child of every `Rule` strictly below `n` has text:
      otherwise `description.text.split` raises. */
  predicate DescriptionsHaveText(n: Node)
    decreases n
  {
    forall i :: 0 <= i < |n.children| ==>
      DescriptionsHaveText(n.children[i])
      && (n.children[i].tag == Q("Rule") ==> RuleDescriptionsHaveText(n.children[i]))
  }

  /** Every `description` child of `rule` has text. */
  predicate RuleDescriptionsHaveText(rule: Node) {
    forall j :: 0 <= j < |rule.children| ==>
      rule.children[j].tag == Q("description") ==> rule.children[j].text.Some?
  }

  /** One child of a node after the pass: its own subtree rewritten, and
      its descriptions too when it is a `Rule`. */
  function RuleStep(c: Node): Node {
    var d := RewriteRulesBelow(c);
    if d.tag == Q("Rule") then RewriteRule(d) else d
  }

  /** `b` is `a`, found below the top of the document, after the pass:
      every element keeps its tag, attributes and number of children, a
      `description` whose parent is a `Rule` (`underRule`) has its text
      rewritten, and every other text is kept, at every depth. */
  predicate DescriptionsRewrittenFrom(a: Node, b: Node, underRule: bool)
    decreases a
  {
    a.tag == b.tag && a.attrib == b.attrib && |a.children| == |b.children|
    && b.text == (if underRule && a.tag == Q("description") && a.text.Some?
                  then Some(RewriteDescriptionText(a.text.value)) else a.text)
    && forall i :: 0 <= i < |a.children| ==>
         DescriptionsRewrittenFrom(a.children[i], b.children[i], a.tag == Q("Rule"))
  }

  /** `b` is the document `a` after the pass, attributes of the top aside:
      the top itself is not one of the `.//Rule` hits, so its children are
      rewritten as children of a non-`Rule`. */
  predicate DescriptionsRewritten(a: Node, b: Node) {
    a.tag == b.tag && a.text == b.text && |a.children| == |b.children|
    && forall i :: 0 <= i < |a.children| ==> DescriptionsRewrittenFrom(a.children[i], b.children[i], false)
  }

  /** A child after the pass, and after the rewrite of its own text when its
      parent is a `Rule`, is that child with the descriptions rewritten. */
  lemma {:induction false} RuleStepRewrites(c: Node, underRule: bool)
    ensures var s := RuleStep(c);
      DescriptionsRewrittenFrom(c, if underRule && c.tag == Q("description") then RewriteDescription(s) else s, underRule)
    decreases c
  {
    var d := RewriteRulesBelow(c);
    var s := RuleStep(c);
    forall i | 0 <= i < |c.children|
      ensures DescriptionsRewrittenFrom(c.children[i], s.children[i], c.tag == Q("Rule"))
    {
      var x := c.children[i];
      RuleStepRewrites(x, c.tag == Q("Rule"));
      assert d.children[i] == RuleStep(x);
      if c.tag == Q("Rule") {
        assert s.children[i] == if x.tag == Q("description") then RewriteDescription(RuleStep(x)) else RuleStep(x);
      } else {
        assert s.children[i] == RuleStep(x);
      }
    }
  }

  /** Every element of the document keeps its tag, attributes and text,
      except that each `description` child of each `Rule` below the top
      gets the rewritten text. */
  lemma RewriteRulesBelowSpec(n: Node)
    ensures DescriptionsRewritten(n, RewriteRulesBelow(n)) && RewriteRulesBelow(n).attrib == n.attrib
  {
    var r := RewriteRulesBelow(n);
    forall i | 0 <= i < |n.children|
      ensures DescriptionsRewrittenFrom(n.children[i], r.children[i], false)
    {
      RuleStepRewrites(n.children[i], false);
      assert r.children[i] == RuleStep(n.children[i]);
    }
  }

  /** `update_check_description`: `None` where the source raises. */
  function UpdateCheckDescription(root: Node): (r: Option<Node>)
    ensures r.Some? <==> DescriptionsHaveText(root)
    ensures r.Some? ==> DescriptionsRewritten(root, r.value)
    ensures r.Some? ==> r.value.attrib == root.attrib["xmlns:xhtml" := "http://www.w3.org/1999/xhtml/"]
  {
    RewriteRulesBelowSpec(root);
    if DescriptionsHaveText(root) then Some(WriteXml(RewriteRulesBelow(root))) else None
  }

  /** A description directly under a `Rule` child of `n` gets the rewritten
      text of the original description. */
  lemma RewriteRulesBelowRuleChild(n: Node, i: nat, j: nat)
    requires i < |n.children| && n.children[i].tag == Q("Rule")
    requires j < |n.children[i].children| && n.children[i].children[j].tag == Q("description")
    requires n.children[i].children[j].text.Some?
    ensures RewriteRulesBelow(n).children[i].children[j].text
         == Some(RewriteDescriptionText(n.children[i].children[j].text.value))
  {
    var c := RewriteRulesBelow(n.children[i]);
    assert RewriteRulesBelow(n).children[i] == RewriteRule(c);
  }

  // ---------------------------------------------------------------------
  // write_xccdf_version
  // ---------------------------------------------------------------------

  const XccdfNs11: string := "http://checklists.nist.gov/xccdf/1.1"

  /** `re.match(pat, s[i:])` for a pattern whose only special character is
      `.` (any character but a newline). */
  predicate MatchesAt(s: string, i: nat, pat: string) {
    i + |pat| <= |s|
    && forall k :: 0 <= k < |pat| ==> if pat[k] == '.' then s[i + k] != '\n' else s[i + k] == pat[k]
  }

  /** `re.sub(pat, rep, s)` for such a pattern: matches found left to right,
      without overlap, each replaced by `rep`. */
  function RegexSub(s: string, pat: string, rep: string): string
    requires pat != []
    decreases |s|
  {
    if |s| < |pat| then s
    else if MatchesAt(s, 0, pat) then rep + RegexSub(s[|pat|..], pat, rep)
    else [s[0]] + RegexSub(s[1..], pat, rep)
  }

  /** Swapping one namespace for another of the same length keeps the
      length of the document. */
  lemma {:induction false} RegexSubLength(s: string, pat: string, rep: string)
    requires pat != [] && |rep| == |pat|
    ensures |RegexSub(s, pat, rep)| == |s|
    decreases |s|
  {
    if |s| >= |pat| {
      if MatchesAt(s, 0, pat) {
        RegexSubLength(s[|pat|..], pat, rep);
      } else {
        RegexSubLength(s[1..], pat, rep);
      }
    }
  }

  /** A document with no match is left as it is. */
  lemma {:induction false} RegexSubNoMatch(s: string, pat: string, rep: string)
    requires pat != [] && forall i: nat :: i < |s| ==> !MatchesAt(s, i, pat)
    ensures RegexSub(s, pat, rep) == s
    decreases |s|
  {
    if |s| >= |pat| {
      forall i: nat | i < |s[1..]| ensures !MatchesAt(s[1..], i, pat) {
        assert !MatchesAt(s, i + 1, pat);
        if MatchesAt(s[1..], i, pat) {
          forall k | 0 <= k < |pat| ensures (if pat[k] == '.' then s[i + 1 + k] != '\n' else s[i + 1 + k] == pat[k]) {
            assert s[1..][i + k] == s[i + 1 + k];
          }
        }
      }
      assert !MatchesAt(s, 0, pat);
      RegexSubNoMatch(s[1..], pat, rep);
      assert [s[0]] + s[1..] == s;
    }
  }

  /** A match after the first `m` characters is a match in what follows
      them. */
  lemma MatchesAtDrop(s: string, m: nat, q: nat, pat: string)
    requires m <= |s|
    ensures MatchesAt(s[m..], q, pat) <==> MatchesAt(s, m + q, pat)
  {
    forall j | m <= j < |s| ensures s[m..][j - m] == s[j] { }
  }

  /** With a replacement as long as the pattern, every character the
      substitution changes lies inside a match of the pattern in the input,
      and is the replacement's character at that offset: the rest of the
      text is kept. */
  lemma {:induction false} RegexSubKeepsRest(s: string, pat: string, rep: string)
    requires pat != [] && |rep| == |pat|
    ensures var r := RegexSub(s, pat, rep);
      |r| == |s|
      && forall p :: 0 <= p < |s| && r[p] != s[p] ==>
           exists q: nat :: q <= p < q + |pat| && MatchesAt(s, q, pat) && r[p] == rep[p - q]
    decreases |s|
  {
    var r := RegexSub(s, pat, rep);
    RegexSubLength(s, pat, rep);
    if |s| < |pat| {
    } else if MatchesAt(s, 0, pat) {
      var m := |pat|;
      var r' := RegexSub(s[m..], pat, rep);
      RegexSubKeepsRest(s[m..], pat, rep);
      assert r == rep + r';
      forall p | 0 <= p < |s| && r[p] != s[p]
        ensures exists q: nat :: q <= p < q + |pat| && MatchesAt(s, q, pat) && r[p] == rep[p - q]
      {
        if p < m {
          assert 0 <= p < 0 + |pat| && MatchesAt(s, 0, pat) && r[p] == rep[p - 0];
        } else {
          assert r'[p - m] == r[p] && s[m..][p - m] == s[p];
          var q': nat :| q' <= p - m < q' + |pat| && MatchesAt(s[m..], q', pat) && r'[p - m] == rep[p - m - q'];
          MatchesAtDrop(s, m, q', pat);
        }
      }
    } else {
      var r' := RegexSub(s[1..], pat, rep);
      RegexSubKeepsRest(s[1..], pat, rep);
      assert r == [s[0]] + r';
      forall p | 0 <= p < |s| && r[p] != s[p]
        ensures exists q: nat :: q <= p < q + |pat| && MatchesAt(s, q, pat) && r[p] == rep[p - q]
      {
        assert p != 0;
        assert r'[p - 1] == r[p] && s[1..][p - 1] == s[p];
        var q': nat :| q' <= p - 1 < q' + |pat| && MatchesAt(s[1..], q', pat) && r'[p - 1] == rep[p - 1 - q'];
        MatchesAtDrop(s, 1, q', pat);
      }
    }
  }

  /** One character of the input against one of the pattern. */
  predicate CharFits(c: char, pc: char) {
    if pc == '.' then c != '\n' else c == pc
  }

  /** The first `n` characters of `s` fit the pattern `pat` from its
      position `d` on. */
  predicate FitsFrom(s: string, pat: string, d: nat, n: nat) {
    d + n <= |pat| && n <= |s| && forall k :: 0 <= k < n ==> CharFits(s[k], pat[d + k])
  }

  /** `s` starts with something that completes a match begun `d`
      characters earlier. */
  predicate FitsTail(s: string, pat: string, d: nat) {
    d <= |pat| && FitsFrom(s, pat, d, |pat| - d)
  }

  /** A replacement that cannot take part in a match after the
      substitution: it does not match the pattern, no match can start inside
      it, and none begun before it can be completed by it. */
  predicate Inert(pat: string, rep: string) {
    |rep| == |pat|
    && !FitsFrom(rep, pat, 0, |pat|)
    && (forall k :: 1 <= k < |rep| ==> !FitsFrom(rep[k..], pat, 0, |rep| - k))
    && (forall d :: 1 <= d < |pat| ==> !FitsTail(rep, pat, d))
  }

  lemma MatchesAtStart(s: string, pat: string)
    ensures MatchesAt(s, 0, pat) <==> FitsFrom(s, pat, 0, |pat|)
  {
  }

  /** Only the first `n` characters count. */
  lemma FitsAppend(a: string, b: string, pat: string, d: nat, n: nat)
    requires n <= |a|
    ensures FitsFrom(a + b, pat, d, n) <==> FitsFrom(a, pat, d, n)
  {
    assert forall k :: 0 <= k < n ==> (a + b)[k] == a[k];
  }

  /** Fitting a character in front: that character, then the rest. */
  lemma FitsCons(c: char, b: string, pat: string, d: nat, n: nat)
    requires 1 <= n && d + n <= |pat|
    ensures FitsFrom([c] + b, pat, d, n) <==> CharFits(c, pat[d]) && FitsFrom(b, pat, d + 1, n - 1)
  {
    var s := [c] + b;
    if FitsFrom(s, pat, d, n) {
      assert CharFits(s[0], pat[d]);
      forall k | 0 <= k < n - 1 ensures CharFits(b[k], pat[d + 1 + k]) {
        assert s[k + 1] == b[k];
        assert CharFits(s[k + 1], pat[d + (k + 1)]);
      }
    }
    if CharFits(c, pat[d]) && FitsFrom(b, pat, d + 1, n - 1) {
      forall k | 0 <= k < n ensures CharFits(s[k], pat[d + k]) {
        if k > 0 {
          assert s[k] == b[k - 1];
          assert CharFits(b[k - 1], pat[d + 1 + (k - 1)]);
        }
      }
    }
  }

  /** A match at `p` inside `a` fits what is left of `a` against the start
      of the pattern. */
  lemma MatchInside(a: string, b: string, p: nat, pat: string)
    requires p <= |a| <= p + |pat|
    ensures MatchesAt(a + b, p, pat) ==> FitsFrom(a[p..], pat, 0, |a| - p)
  {
    assert forall k :: 0 <= k < |a| - p ==> a[p..][k] == (a + b)[p + k];
  }

  /** A match at or after the end of `a` is a match in `b`. */
  lemma MatchShift(a: string, b: string, p: nat, pat: string)
    requires |a| <= p
    ensures MatchesAt(a + b, p, pat) <==> MatchesAt(b, p - |a|, pat)
  {
    forall j | 0 <= j < |b| ensures (a + b)[|a| + j] == b[j] { }
  }

  /** When the first character fits, the misfit lies in the rest. */
  lemma MisfitRest(t: string, pat: string, d: nat)
    requires 1 <= |t| && d + 1 < |pat| && CharFits(t[0], pat[d])
    requires !FitsTail(t, pat, d)
    ensures !FitsTail(t[1..], pat, d + 1)
  {
    assert t == [t[0]] + t[1..];
    FitsCons(t[0], t[1..], pat, d, |pat| - d);
  }

  /** Putting back the first character keeps a misfit of the rest. */
  lemma MisfitCons(t: string, o: string, pat: string, d: nat)
    requires 1 <= |t| && d < |pat|
    requires !FitsTail(t, pat, d)
    requires d + 1 < |pat| && CharFits(t[0], pat[d]) ==> !FitsTail(o, pat, d + 1)
    ensures !FitsTail([t[0]] + o, pat, d)
  {
    assert t == [t[0]] + t[1..];
    FitsCons(t[0], t[1..], pat, d, |pat| - d);
    FitsCons(t[0], o, pat, d, |pat| - d);
  }

  /** A tail of the pattern that the input does not fit at its start is not
      fitted at the start of the output either. */
  lemma {:induction false} RegexSubKeepsMisfit(t: string, pat: string, rep: string, d: nat)
    requires Inert(pat, rep) && 1 <= d < |pat|
    requires !FitsTail(t, pat, d)
    ensures !FitsTail(RegexSub(t, pat, rep), pat, d)
    decreases |t|
  {
    if |t| < |pat| {
    } else if MatchesAt(t, 0, pat) {
      var o' := RegexSub(t[|pat|..], pat, rep);
      assert RegexSub(t, pat, rep) == rep + o';
      FitsAppend(rep, o', pat, d, |pat| - d);
      assert !FitsTail(rep, pat, d);
    } else {
      var o' := RegexSub(t[1..], pat, rep);
      assert RegexSub(t, pat, rep) == [t[0]] + o';
      if d + 1 < |pat| && CharFits(t[0], pat[d]) {
        MisfitRest(t, pat, d);
        RegexSubKeepsMisfit(t[1..], pat, rep, d + 1);
      }
      MisfitCons(t, o', pat, d);
    }
  }

  /** With an inert replacement, no match of the pattern is left after the
      substitution. */
  lemma {:induction false} RegexSubNoMatchLeft(s: string, pat: string, rep: string)
    requires |pat| >= 2 && Inert(pat, rep)
    ensures forall p: nat :: !MatchesAt(RegexSub(s, pat, rep), p, pat)
    decreases |s|
  {
    var o := RegexSub(s, pat, rep);
    if |s| < |pat| {
    } else if MatchesAt(s, 0, pat) {
      var o' := RegexSub(s[|pat|..], pat, rep);
      RegexSubNoMatchLeft(s[|pat|..], pat, rep);
      assert o == rep + o';
      forall p: nat ensures !MatchesAt(o, p, pat) {
        if p == 0 {
          MatchesAtStart(o, pat);
          FitsAppend(rep, o', pat, 0, |pat|);
        } else if p < |pat| {
          MatchInside(rep, o', p, pat);
        } else {
          MatchShift(rep, o', p, pat);
        }
      }
    } else {
      var o' := RegexSub(s[1..], pat, rep);
      RegexSubNoMatchLeft(s[1..], pat, rep);
      assert o == [s[0]] + o';
      forall p: nat ensures !MatchesAt(o, p, pat) {
        if p == 0 {
          assert s == [s[0]] + s[1..];
          MatchesAtStart(s, pat);
          MatchesAtStart(o, pat);
          FitsCons(s[0], s[1..], pat, 0, |pat|);
          FitsCons(s[0], o', pat, 0, |pat|);
          if CharFits(s[0], pat[0]) {
            RegexSubKeepsMisfit(s[1..], pat, rep, 1);
          }
        } else {
          MatchShift([s[0]], o', p, pat);
        }
      }
    }
  }

  /** The two namespaces differ only in their last character; the pattern's
      `h`s sit at 0 and 8 and its dots at 17, 22 and 34, and at none of
      these does the other namespace's `ht` start over. */
  lemma NamespacesInert()
    ensures Inert(XccdfNs11, XccdfNs12) && Inert(XccdfNs12, XccdfNs11)
  {
    NoMatchStartsInside(XccdfNs11, XccdfNs12);
    NoMatchStartsInside(XccdfNs12, XccdfNs11);
    NoMatchEndsInside(XccdfNs11, XccdfNs12);
    NoMatchEndsInside(XccdfNs12, XccdfNs11);
    assert XccdfNs11[35] != XccdfNs12[35];
  }

  /** Past its start, a namespace has its only `h` at 8, followed by `e`. */
  lemma NamespaceLetters(ns: string)
    requires ns == XccdfNs11 || ns == XccdfNs12
    ensures forall k :: 1 <= k < |ns| && k != 8 ==> ns[k] != 'h'
    ensures ns[0] == 'h' && ns[1] == 't' && ns[9] == 'e'
  {
  }

  /** Past its start, a namespace has `h` or `.` only at 8, 17, 22 and 34,
      and none of these is followed by `t` or `.`. */
  lemma NamespaceStops(ns: string)
    requires ns == XccdfNs11 || ns == XccdfNs12
    ensures forall d :: 1 <= d < |ns| && d != 8 && d != 17 && d != 22 && d != 34 ==> ns[d] != 'h' && ns[d] != '.'
    ensures ns[9] == 'e' && ns[18] == 'n' && ns[23] == 'g' && ns[35] != 't' && ns[35] != '.'
  {
  }

  lemma NoMatchStartsInside(pat: string, rep: string)
    requires pat == XccdfNs11 || pat == XccdfNs12
    requires rep == XccdfNs11 || rep == XccdfNs12
    ensures forall k :: 1 <= k < |rep| ==> !FitsFrom(rep[k..], pat, 0, |rep| - k)
  {
    NamespaceLetters(pat);
    NamespaceLetters(rep);
    forall k | 1 <= k < |rep| ensures !FitsFrom(rep[k..], pat, 0, |rep| - k) {
      if k == 8 {
        assert rep[k..][1] == rep[9];
      } else {
        assert rep[k..][0] == rep[k];
      }
    }
  }

  lemma NoMatchEndsInside(pat: string, rep: string)
    requires pat == XccdfNs11 || pat == XccdfNs12
    requires rep == XccdfNs11 || rep == XccdfNs12
    ensures forall d :: 1 <= d < |pat| ==> !FitsTail(rep, pat, d)
  {
    NamespaceLetters(rep);
    NamespaceStops(pat);
    forall d | 1 <= d < |pat| ensures !FitsTail(rep, pat, d) {
      if d == 8 || d == 17 || d == 22 || d == 34 {
        assert !CharFits(rep[1], pat[d + 1]);
      } else {
        assert !CharFits(rep[0], pat[d]);
      }
    }
  }

  /** The namespace rewrite on the file's content: to 1.1 when `direction`,
      to 1.2 otherwise. Nothing the pattern matches is left. */
  function WriteXccdfVersion(content: string, direction: bool): (r: string)
    ensures |r| == |content|
    ensures direction ==> forall p: nat :: !MatchesAt(r, p, XccdfNs12)
    ensures !direction ==> forall p: nat :: !MatchesAt(r, p, XccdfNs11)
    ensures direction ==> forall p :: 0 <= p < |content| && r[p] != content[p] ==>
      exists q: nat :: q <= p < q + |XccdfNs12| && MatchesAt(content, q, XccdfNs12) && r[p] == XccdfNs11[p - q]
    ensures !direction ==> forall p :: 0 <= p < |content| && r[p] != content[p] ==>
      exists q: nat :: q <= p < q + |XccdfNs11| && MatchesAt(content, q, XccdfNs11) && r[p] == XccdfNs12[p - q]
  {
    NamespacesInert();
    RegexSubKeepsRest(content, XccdfNs12, XccdfNs11);
    RegexSubKeepsRest(content, XccdfNs11, XccdfNs12);
    RegexSubNoMatchLeft(content, XccdfNs12, XccdfNs11);
    RegexSubNoMatchLeft(content, XccdfNs11, XccdfNs12);
    RegexSubLength(content, XccdfNs12, XccdfNs11);
    RegexSubLength(content, XccdfNs11, XccdfNs12);
    if direction then RegexSub(content, XccdfNs12, XccdfNs11)
    else RegexSub(content, XccdfNs11, XccdfNs12)
  }

  /** The unescaped dots of the namespace are wildcards: a look-alike URI
      is rewritten too. */
  lemma WildcardNamespace()
    ensures WriteXccdfVersion("http://checklists-nist.gov/xccdf/1.1", false) == XccdfNs12
  {
    var s := "http://checklists-nist.gov/xccdf/1.1";
    assert MatchesAt(s, 0, XccdfNs11);
    assert s[|XccdfNs11|..] == "";
  }
}
