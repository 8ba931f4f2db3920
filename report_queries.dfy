/** The `ReportParser` operations on the profile's `select` elements and the
    rules: `select_rules`, `check_rules`, `list_rules`,
    `get_allowed_selected_rules`, `get_number_checks` and
    `get_name_of_checks`. */
module ReportQueries {
  import opened PyStr
  import opened Wrappers
  import opened ReportTree

  /** `get_select_rules()`: the `select` children of the `Profile` children
      of the root. */
  function SelectNodes(root: Node): seq<Node> {
    Grandchildren(root, "Profile", "select")
  }

  /** The attribute, or `''` when it is missing (`x.get(key, '')`). */
  function GetOr(n: Node, key: string): string {
    match Get(n, key)
    case None => ""
    case Some(v) => v
  }

  /** `idref in list_rules`, where a missing `idref` (`None`) is in no list
      of names. */
  predicate Listed(sel: Node, rules: seq<string>) {
    Get(sel, "idref").Some? && Get(sel, "idref").value in rules
  }

  // ---------------------------------------------------------------------
  // select_rules
  // ---------------------------------------------------------------------

  /** One `select` after `select_rules`. */
  function SetSelected(sel: Node, rules: seq<string>): (r: Node)
    ensures Get(r, "selected") == Some("true") <==> Listed(sel, rules)
    ensures Get(r, "selected") == Some("false") <==> !Listed(sel, rules)
    ensures forall k :: k != "selected" ==> Get(r, k) == Get(sel, k)
    ensures r.tag == sel.tag && r.text == sel.text && r.children == sel.children
  {
    Set(sel, "selected", if Listed(sel, rules) then "true" else "false")
  }

  function Selector(rules: seq<string>): Node -> Node {
    sel => SetSelected(sel, rules)
  }

  /** `select_rules(list_rules)`, which then writes the document. */
  function SelectRules(root: Node, rules: seq<string>): Node {
    WriteXml(MapGrandchildren(root, "Profile", "select", Selector(rules)))
  }

  /** Every `select`, and nothing else, is marked: selected exactly when
      its `idref` is one of the given rules. */
  lemma SelectRulesMarks(root: Node, rules: seq<string>)
    ensures var before := SelectNodes(root);
      var after := SelectNodes(SelectRules(root, rules));
      |after| == |before| && forall k :: 0 <= k < |before| ==> after[k] == SetSelected(before[k], rules)
  {
    GrandchildrenOfMap(root.children, "Profile", "select", Selector(rules));
  }

  // ---------------------------------------------------------------------
  // get_allowed_selected_rules and get_number_checks
  // ---------------------------------------------------------------------

  predicate IsSelected(sel: Node) {
    Get(sel, "selected") == Some("true")
  }

  /** The selects marked `selected="true"`, in order. */
  function AllowedSelected(sels: seq<Node>): seq<Node> {
    if sels == [] then []
    else AllowedSelected(sels[..|sels| - 1])
         + (if IsSelected(sels[|sels| - 1]) then [sels[|sels| - 1]] else [])
  }

  lemma {:induction false} AllowedSelectedIn(sels: seq<Node>)
    ensures forall x :: x in AllowedSelected(sels) <==> x in sels && IsSelected(x)
    ensures |AllowedSelected(sels)| <= |sels|
  {
    if sels != [] {
      AllowedSelectedIn(sels[..|sels| - 1]);
      assert sels == sels[..|sels| - 1] + [sels[|sels| - 1]];
    }
  }

  /** A select is allowed if and only if it is marked selected, and it is
      then listed as often as it occurs. */
  lemma AllowedSelectedMembers(sels: seq<Node>)
    ensures forall x :: x in AllowedSelected(sels) <==> x in sels && IsSelected(x)
    ensures forall x :: multiset(AllowedSelected(sels))[x] == if IsSelected(x) then multiset(sels)[x] else 0
    ensures |AllowedSelected(sels)| <= |sels|
  {
    AllowedSelectedIn(sels);
    forall x {
      AllowedSelectedRepeats(sels, x);
    }
  }

  /** A marked select is listed as often as it occurs, an unmarked one
      never. */
  lemma {:induction false} AllowedSelectedRepeats(sels: seq<Node>, x: Node)
    ensures multiset(AllowedSelected(sels))[x] == if IsSelected(x) then multiset(sels)[x] else 0
  {
    if sels != [] {
      AllowedSelectedRepeats(sels[..|sels| - 1], x);
      assert sels == sels[..|sels| - 1] + [sels[|sels| - 1]];
    }
  }

  /** The selects are scanned in document order: the allowed selects of
      `a + b` are those of `a` followed by those of `b`. */
  lemma {:induction false} AllowedSelectedAppend(a: seq<Node>, b: seq<Node>)
    ensures AllowedSelected(a + b) == AllowedSelected(a) + AllowedSelected(b)
    decreases |b|
  {
    if b == [] {
      assert a + b == a;
    } else {
      var b' := b[..|b| - 1];
      assert (a + b)[..|a + b| - 1] == a + b';
      AllowedSelectedAppend(a, b');
    }
  }

  /** The positions of the selects marked `selected="true"`. */
  function SelectedPositions(sels: seq<Node>): set<nat> {
    set i: nat | i < |sels| && IsSelected(sels[i])
  }

  /** One allowed select per marked position. */
  lemma {:induction false} AllowedSelectedCount(sels: seq<Node>)
    ensures |AllowedSelected(sels)| == |SelectedPositions(sels)|
  {
    if sels != [] {
      var init := sels[..|sels| - 1];
      var n := |sels| - 1;
      AllowedSelectedCount(init);
      assert SelectedPositions(sels) == SelectedPositions(init) + (if IsSelected(sels[n]) then {n} else {}) by {
        forall i: nat | i < n ensures sels[i] == init[i] { }
      }
      assert n !in SelectedPositions(init);
    }
  }

  /** `get_allowed_selected_rules()`. */
  function GetAllowedSelectedRules(root: Node): seq<Node> {
    AllowedSelected(SelectNodes(root))
  }

  /** `get_number_checks()`: the number of selects marked
      `selected="true"`. */
  function GetNumberChecks(root: Node): (r: nat)
    ensures r == |SelectedPositions(SelectNodes(root))|
    ensures r <= |SelectNodes(root)|
  {
    AllowedSelectedMembers(SelectNodes(root));
    AllowedSelectedCount(SelectNodes(root));
    |GetAllowedSelectedRules(root)|
  }

  /** The number of selects whose `idref` is one of `rules`. */
  function CountListed(sels: seq<Node>, rules: seq<string>): nat {
    if sels == [] then 0
    else CountListed(sels[..|sels| - 1], rules) + (if Listed(sels[|sels| - 1], rules) then 1 else 0)
  }

  lemma {:induction false} AllowedAfterMarking(sels: seq<Node>, rules: seq<string>)
    ensures |AllowedSelected(MapAll(sels, Selector(rules)))| == CountListed(sels, rules)
  {
    if sels != [] {
      var init := sels[..|sels| - 1];
      AllowedAfterMarking(init, rules);
      assert MapAll(sels, Selector(rules))[..|sels| - 1] == MapAll(init, Selector(rules));
    }
  }

  /** After `select_rules(list_rules)`, the number of checks is the number of
      selects whose `idref` is in `list_rules`. */
  lemma NumberChecksAfterSelect(root: Node, rules: seq<string>)
    ensures GetNumberChecks(SelectRules(root, rules)) == CountListed(SelectNodes(root), rules)
  {
    GrandchildrenOfMap(root.children, "Profile", "select", Selector(rules));
    AllowedAfterMarking(SelectNodes(root), rules);
  }

  // ---------------------------------------------------------------------
  // check_rules
  // ---------------------------------------------------------------------

  /** Some select's `idref` contains `rule` (`select in i.get('idref')`). */
  predicate Mentioned(rule: string, sels: seq<Node>) {
    exists i :: 0 <= i < |sels| && Get(sels[i], "idref").Some? && Contains(Get(sels[i], "idref").value, rule)
  }

  /** The rules no select mentions, in the order given. */
  function UnknownRules(rules: seq<string>, sels: seq<Node>): seq<string> {
    if rules == [] then []
    else UnknownRules(rules[..|rules| - 1], sels)
         + (if Mentioned(rules[|rules| - 1], sels) then [] else [rules[|rules| - 1]])
  }

  lemma {:induction false} UnknownRulesMembers(rules: seq<string>, sels: seq<Node>)
    ensures forall x :: x in UnknownRules(rules, sels) <==> x in rules && !Mentioned(x, sels)
    ensures |UnknownRules(rules, sels)| <= |rules|
  {
    if rules != [] {
      UnknownRulesMembers(rules[..|rules| - 1], sels);
      assert rules == rules[..|rules| - 1] + [rules[|rules| - 1]];
    }
  }

  /** The filter works rule by rule: the unknown rules of a concatenation
      are those of each part, in the same order. */
  lemma {:induction false} UnknownRulesAppend(a: seq<string>, b: seq<string>, sels: seq<Node>)
    ensures UnknownRules(a + b, sels) == UnknownRules(a, sels) + UnknownRules(b, sels)
    decreases |b|
  {
    if b == [] {
      assert a + b == a;
    } else {
      var b' := b[..|b| - 1];
      assert (a + b)[..|a + b| - 1] == a + b';
      UnknownRulesAppend(a, b', sels);
    }
  }

  /** An unknown rule is reported as often as it is asked about, a known
      one never. */
  lemma {:induction false} UnknownRulesCount(rules: seq<string>, sels: seq<Node>, x: string)
    ensures multiset(UnknownRules(rules, sels))[x] == if Mentioned(x, sels) then 0 else multiset(rules)[x]
  {
    if rules != [] {
      var init := rules[..|rules| - 1];
      UnknownRulesCount(init, sels, x);
      assert rules == init + [rules[|rules| - 1]];
    }
  }

  lemma {:induction false} UnknownRulesNone(rules: seq<string>, sels: seq<Node>)
    requires forall i :: 0 <= i < |rules| ==> Mentioned(rules[i], sels)
    ensures UnknownRules(rules, sels) == []
  {
    if rules != [] {
      UnknownRulesNone(rules[..|rules| - 1], sels);
    }
  }

  predicate SomeSelectLacksIdref(sels: seq<Node>) {
    exists i :: 0 <= i < |sels| && Get(sels[i], "idref").None?
  }

  /** `check_rules(list_rules)`: `None` where the source raises, which is
      when some rule is asked about and some select has no `idref`. */
  function CheckRules(root: Node, rules: seq<string>): Option<seq<string>> {
    var sels := SelectNodes(root);
    if rules != [] && SomeSelectLacksIdref(sels) then None
    else Some(UnknownRules(rules, sels))
  }

  /** The rules reported unknown are exactly the given rules that no
      select's `idref` contains, each as often as it is given. */
  lemma CheckRulesSpec(root: Node, rules: seq<string>)
    ensures CheckRules(root, rules).None? <==> rules != [] && SomeSelectLacksIdref(SelectNodes(root))
    ensures CheckRules(root, rules).Some? ==>
      |CheckRules(root, rules).value| <= |rules|
      && (forall x :: x in CheckRules(root, rules).value <==> x in rules && !Mentioned(x, SelectNodes(root)))
      && forall x :: multiset(CheckRules(root, rules).value)[x]
           == if Mentioned(x, SelectNodes(root)) then 0 else multiset(rules)[x]
  {
    UnknownRulesMembers(rules, SelectNodes(root));
    forall x {
      UnknownRulesCount(rules, SelectNodes(root), x);
    }
  }

  // ---------------------------------------------------------------------
  // list_rules
  // ---------------------------------------------------------------------

  /** The non-empty `idref`s of the selects, in order. */
  function Idrefs(sels: seq<Node>): seq<string> {
    if sels == [] then []
    else
      var last := sels[|sels| - 1];
      Idrefs(sels[..|sels| - 1])
      + (if Get(last, "idref").Some? && Get(last, "idref").value != "" then [Get(last, "idref").value] else [])
  }

  lemma {:induction false} IdrefsMembers(sels: seq<Node>)
    ensures forall x :: x in Idrefs(sels) <==>
      x != "" && exists i :: 0 <= i < |sels| && Get(sels[i], "idref") == Some(x)
  {
    if sels != [] {
      var init := sels[..|sels| - 1];
      IdrefsMembers(init);
      forall x | x != "" && (exists i :: 0 <= i < |sels| && Get(sels[i], "idref") == Some(x))
        ensures x in Idrefs(sels)
      {
        var i :| 0 <= i < |sels| && Get(sels[i], "idref") == Some(x);
        if i < |sels| - 1 {
          assert init[i] == sels[i];
        }
      }
      forall x | x in Idrefs(sels)
        ensures exists i :: 0 <= i < |sels| && Get(sels[i], "idref") == Some(x)
      {
        if x in Idrefs(init) {
          var i :| 0 <= i < |init| && Get(init[i], "idref") == Some(x);
          assert sels[i] == init[i];
        }
      }
    }
  }

  /** The selects are scanned in document order: the `idref`s of `a + b`
      are those of `a` followed by those of `b`. */
  lemma {:induction false} IdrefsAppend(a: seq<Node>, b: seq<Node>)
    ensures Idrefs(a + b) == Idrefs(a) + Idrefs(b)
    decreases |b|
  {
    if b == [] {
      assert a + b == a;
    } else {
      var b' := b[..|b| - 1];
      assert (a + b)[..|a + b| - 1] == a + b';
      IdrefsAppend(a, b');
    }
  }

  /** The positions of the selects whose `idref` is `x`. */
  function IdrefPositions(sels: seq<Node>, x: string): set<nat> {
    set i: nat | i < |sels| && Get(sels[i], "idref") == Some(x)
  }

  lemma IdrefPositionsSnoc(sels: seq<Node>, x: string)
    requires sels != []
    ensures var n := |sels| - 1;
      IdrefPositions(sels, x)
      == IdrefPositions(sels[..n], x) + (if Get(sels[n], "idref") == Some(x) then {n} else {})
  {
    var n := |sels| - 1;
    var init := sels[..n];
    forall i: nat
      ensures i in IdrefPositions(sels, x) <==>
              i in IdrefPositions(init, x) || (i == n && Get(sels[n], "idref") == Some(x))
    {
      if i < n {
        assert sels[i] == init[i];
      }
    }
  }

  /** A non-empty `idref` is listed once per select that carries it. */
  lemma {:induction false} IdrefsRepeats(sels: seq<Node>, x: string)
    ensures multiset(Idrefs(sels))[x] == if x == "" then 0 else |IdrefPositions(sels, x)|
  {
    if sels != [] {
      var init := sels[..|sels| - 1];
      var n := |sels| - 1;
      IdrefsRepeats(init, x);
      var g := Get(sels[n], "idref");
      var added := if g.Some? && g.value != "" then [g.value] else [];
      assert Idrefs(sels) == Idrefs(init) + added;
      assert multiset(Idrefs(sels))[x] == multiset(Idrefs(init))[x] + multiset(added)[x];
      assert multiset(added)[x] == if x != "" && g == Some(x) then 1 else 0;
      IdrefPositionsSnoc(sels, x);
      assert n !in IdrefPositions(init, x);
    }
  }

  /** `list_rules()`. */
  function ListRules(root: Node): seq<string> {
    Idrefs(SelectNodes(root))
  }

  lemma ContainsItself(s: string)
    ensures Contains(s, s)
  {
    assert s[..|s|] == s;
  }

  /** The names `list_rules` lists are exactly the non-empty `idref`s, and
      `check_rules` knows every one of them. */
  lemma ListRulesSpec(root: Node)
    ensures forall x :: x in ListRules(root) <==>
      x != "" && exists i :: 0 <= i < |SelectNodes(root)| && Get(SelectNodes(root)[i], "idref") == Some(x)
    ensures forall x :: multiset(ListRules(root))[x] == if x == "" then 0 else |IdrefPositions(SelectNodes(root), x)|
    ensures !SomeSelectLacksIdref(SelectNodes(root)) ==> CheckRules(root, ListRules(root)) == Some([])
  {
    var sels := SelectNodes(root);
    IdrefsMembers(sels);
    forall x {
      IdrefsRepeats(sels, x);
    }
    var listed := ListRules(root);
    forall k | 0 <= k < |listed| ensures Mentioned(listed[k], sels) {
      assert listed[k] in listed;
      var i :| 0 <= i < |sels| && Get(sels[i], "idref") == Some(listed[k]);
      ContainsItself(listed[k]);
    }
    UnknownRulesNone(listed, sels);
  }

  // ---------------------------------------------------------------------
  // get_name_of_checks
  // ---------------------------------------------------------------------

  /** The position of the first rule whose `id` (or `''`) is `id`. */
  function FirstWithId(rules: seq<Node>, id: string): (r: Option<nat>)
    ensures r.Some? ==>
      r.value < |rules| && GetOr(rules[r.value], "id") == id
      && forall j :: 0 <= j < r.value ==> GetOr(rules[j], "id") != id
    ensures r.None? ==> forall j :: 0 <= j < |rules| ==> GetOr(rules[j], "id") != id
  {
    if rules == [] then None
    else if GetOr(rules[0], "id") == id then Some(0)
    else match FirstWithId(rules[1..], id)
      case None => None
      case Some(k) => Some(k + 1)
  }

  /** The title of the first rule with that id. */
  function TitleOf(rules: seq<Node>, id: string): Option<string> {
    match FirstWithId(rules, id)
    case None => None
    case Some(k) => Some(GetNodesText(rules[k], "title"))
  }

  /** The loop of `get_name_of_checks` over the allowed selects, with
      `titleOf` the title lookup: `None` where `rule[0]` raises because no
      rule has the select's id. */
  function NamesOf(allowed: seq<Node>, titleOf: string -> Option<string>): Option<map<string, string>> {
    if allowed == [] then Some(map[])
    else
      var prev := NamesOf(allowed[..|allowed| - 1], titleOf);
      var id := GetOr(allowed[|allowed| - 1], "idref");
      var title := titleOf(id);
      if prev.None? || title.None? then None
      else Some(prev.value[id := title.value])
  }

  /** The loop raises exactly when some allowed select names no rule. */
  lemma {:induction false} NamesOfDefined(allowed: seq<Node>, titleOf: string -> Option<string>)
    ensures NamesOf(allowed, titleOf).Some?
        <==> forall i :: 0 <= i < |allowed| ==> titleOf(GetOr(allowed[i], "idref")).Some?
  {
    if allowed != [] {
      var init := allowed[..|allowed| - 1];
      NamesOfDefined(init, titleOf);
      assert forall i :: 0 <= i < |init| ==> allowed[i] == init[i];
    }
  }

  /** When it does not raise, every allowed `idref` is mapped to its title. */
  lemma {:induction false} NamesOfCovers(allowed: seq<Node>, titleOf: string -> Option<string>)
    requires NamesOf(allowed, titleOf).Some?
    ensures var names := NamesOf(allowed, titleOf).value;
      forall i :: 0 <= i < |allowed| ==>
        GetOr(allowed[i], "idref") in names
        && Some(names[GetOr(allowed[i], "idref")]) == titleOf(GetOr(allowed[i], "idref"))
  {
    if allowed != [] {
      var init := allowed[..|allowed| - 1];
      NamesOfCovers(init, titleOf);
      assert forall i :: 0 <= i < |init| ==> allowed[i] == init[i];
    }
  }

  /** ... and nothing but the allowed `idref`s is mapped. */
  lemma {:induction false} NamesOfOnly(allowed: seq<Node>, titleOf: string -> Option<string>)
    requires NamesOf(allowed, titleOf).Some?
    ensures forall id :: id in NamesOf(allowed, titleOf).value ==>
      exists i :: 0 <= i < |allowed| && GetOr(allowed[i], "idref") == id
  {
    if allowed != [] {
      var init := allowed[..|allowed| - 1];
      NamesOfOnly(init, titleOf);
      assert forall i :: 0 <= i < |init| ==> allowed[i] == init[i];
    }
  }

  /** One more allowed select: its `idref` is added with its title. */
  lemma NamesOfSnoc(allowed: seq<Node>, i: nat, titleOf: string -> Option<string>)
    requires i < |allowed|
    ensures var prev := NamesOf(allowed[..i], titleOf);
      var id := GetOr(allowed[i], "idref");
      NamesOf(allowed[..i + 1], titleOf)
        == if prev.None? || titleOf(id).None? then None else Some(prev.value[id := titleOf(id).value])
  {
    assert allowed[..i + 1][..i] == allowed[..i];
  }

  function TitleLookup(rules: seq<Node>): string -> Option<string> {
    id => TitleOf(rules, id)
  }

  /** `get_name_of_checks()`: each allowed select's `idref` mapped to the
      title of the first rule (`.//Rule`) with that id. */
  function GetNameOfChecks(root: Node): Option<map<string, string>> {
    NamesOf(GetAllowedSelectedRules(root), TitleLookup(FindDescendants(root, "Rule")))
  }
}
