/** The report document as a value: a tree of namespace-qualified elements,
    with the `ElementTree` lookups that `ReportParser` builds its passes on
    (`get_node(s)`, `get_child`, `filter_children`, `filter_grandchildren`,
    the `.//` descendant search, `get_nodes_attrib`, `get_nodes_text`). */
module ReportTree {
  import opened PyStr
  import opened Wrappers


  /** One element: its qualified tag (`{namespace}local`), its attributes,
      its text (`None` when the element has none) and its children in
      document order. */
  datatype Node = Node(tag: string, attrib: map<string, string>, text: Option<string>, children: seq<Node>)

  const XccdfNs12: string := "http://checklists.nist.gov/xccdf/1.2"

  /** `ReportParser.element_prefix`. */
  const ElementPrefix: string := "{" + XccdfNs12 + "}"

  /** The qualified tag the parser looks up for a local name. */
  function Q(local: string): string {
    ElementPrefix + local
  }

  /** `element.get(key)`. */
  function Get(n: Node, key: string): Option<string> {
    if key in n.attrib then Some(n.attrib[key]) else None
  }

  /** `element.set(key, value)`. */
  function Set(n: Node, key: string, value: string): Node {
    n.(attrib := n.attrib[key := value])
  }

  /** The elements of `s` whose tag is `qtag`, in order. */
  function Tagged(s: seq<Node>, qtag: string): (r: seq<Node>)
    ensures |r| <= |s|
    ensures forall i :: 0 <= i < |r| ==> r[i].tag == qtag && r[i] in s
  {
    if s == [] then []
    else (if s[0].tag == qtag then [s[0]] else []) + Tagged(s[1..], qtag)
  }

  lemma {:induction false} TaggedAppend(s: seq<Node>, t: seq<Node>, qtag: string)
    ensures Tagged(s + t, qtag) == Tagged(s, qtag) + Tagged(t, qtag)
  {
    if s != [] {
      TaggedAppend(s[1..], t, qtag);
      assert (s + t)[1..] == s[1..] + t;
    } else {
      assert s + t == t;
    }
  }

  /** `node.findall(prefix + tag)` with prefix `''` or `'./'`: the children
      with that tag. */
  function FindAll(n: Node, local: string): seq<Node> {
    Tagged(n.children, Q(local))
  }

  /** `i` is the position of the first element of `s` tagged `qtag`. */
  predicate IsFirstTagged(s: seq<Node>, i: int, qtag: string) {
    0 <= i < |s| && s[i].tag == qtag && forall j :: 0 <= j < i ==> s[j].tag != qtag
  }

  /** The position of the first element of `s` tagged `qtag`, if any. */
  function FirstTagged(s: seq<Node>, qtag: string): (r: Option<nat>)
    ensures r.Some? ==> IsFirstTagged(s, r.value, qtag)
    ensures r.None? ==> forall i :: 0 <= i < |s| ==> s[i].tag != qtag
  {
    if s == [] then None
    else if s[0].tag == qtag then Some(0)
    else match FirstTagged(s[1..], qtag)
      case None => None
      case Some(k) => Some(k + 1)
  }

  /** `get_child(tree, tag)`: the first child with that tag, if any. */
  function GetChild(n: Node, local: string): Option<Node> {
    match FirstTagged(n.children, Q(local))
    case None => None
    case Some(i) => Some(n.children[i])
  }

  /** `get_nodes_attrib(tree, tag, attrib)`: the attribute of the first
      child with that tag, or `''` when there is no such child or it lacks
      the attribute (the `KeyError`/`AttributeError` the source catches). */
  function GetNodesAttrib(tree: Node, local: string, attrib: string): (r: string)
    ensures forall i :: IsFirstTagged(tree.children, i, Q(local)) ==>
      r == if attrib in tree.children[i].attrib then tree.children[i].attrib[attrib] else ""
    ensures (forall i :: 0 <= i < |tree.children| ==> tree.children[i].tag != Q(local)) ==> r == ""
  {
    match GetChild(tree, local)
    case None => ""
    case Some(c) => if attrib in c.attrib then c.attrib[attrib] else ""
  }

  /** `get_nodes_text(tree, tag)`: the stripped text of the first child with
      that tag, or `''` when there is no such child or its text is empty. */
  function GetNodesText(tree: Node, local: string): (r: string)
    ensures r != "" ==> !IsSpace(r[0]) && !IsSpace(r[|r| - 1])
    ensures forall i :: IsFirstTagged(tree.children, i, Q(local)) ==>
      r == match tree.children[i].text case None => "" case Some(t) => Strip(t)
    ensures (forall i :: 0 <= i < |tree.children| ==> tree.children[i].tag != Q(local)) ==> r == ""
  {
    match GetChild(tree, local)
    case None => ""
    case Some(c) =>
      match c.text
      case None => ""
      case Some(t) =>
        StripShape(t);
        if t != "" then Strip(t) else ""
  }

  /** Applies `f` to the elements of `s` tagged `qtag` and leaves the others:
      the effect of updating, in place, each node a `findall` returned. */
  function MapTagged(s: seq<Node>, qtag: string, f: Node -> Node): (r: seq<Node>)
    ensures |r| == |s|
    ensures forall i :: 0 <= i < |s| ==> r[i] == if s[i].tag == qtag then f(s[i]) else s[i]
  {
    seq(|s|, i requires 0 <= i < |s| => if s[i].tag == qtag then f(s[i]) else s[i])
  }

  function MapAll(s: seq<Node>, f: Node -> Node): (r: seq<Node>)
    ensures |r| == |s| && forall i :: 0 <= i < |s| ==> r[i] == f(s[i])
  {
    seq(|s|, i requires 0 <= i < |s| => f(s[i]))
  }

  /** Updating the elements tagged `qtag` with a tag-preserving `f` and then
      selecting that tag gives the updated selection. */
  lemma {:induction false} TaggedMapTagged(s: seq<Node>, qtag: string, f: Node -> Node)
    requires forall x :: f(x).tag == x.tag
    ensures Tagged(MapTagged(s, qtag, f), qtag) == MapAll(Tagged(s, qtag), f)
  {
    if s != [] {
      var m := MapTagged(s, qtag, f);
      TaggedMapTagged(s[1..], qtag, f);
      assert m[1..] == MapTagged(s[1..], qtag, f);
      assert m[0].tag == s[0].tag;
      var head := if s[0].tag == qtag then [s[0]] else [];
      MapAllAppend(head, Tagged(s[1..], qtag), f);
    }
  }

  lemma MapAllAppend(s: seq<Node>, t: seq<Node>, f: Node -> Node)
    ensures MapAll(s + t, f) == MapAll(s, f) + MapAll(t, f)
  {
  }

  /** The children of `s`'s elements tagged `parent` that are tagged
      `child`: `filter_grandchildren`. */
  function GrandchildrenOf(s: seq<Node>, parent: string, child: string): seq<Node> {
    if s == [] then []
    else (if s[0].tag == Q(parent) then Tagged(s[0].children, Q(child)) else [])
         + GrandchildrenOf(s[1..], parent, child)
  }

  /** `filter_grandchildren(tree, parent_tag, tag)`. */
  function Grandchildren(n: Node, parent: string, child: string): seq<Node> {
    GrandchildrenOf(n.children, parent, child)
  }

  /** Updating in place every node `filter_grandchildren` returns, with the
      update `f`. */
  function MapGrandSeq(s: seq<Node>, parent: string, child: string, f: Node -> Node): (r: seq<Node>)
    ensures |r| == |s|
    ensures forall i :: 0 <= i < |s| ==>
      r[i] == if s[i].tag == Q(parent) then s[i].(children := MapTagged(s[i].children, Q(child), f)) else s[i]
  {
    seq(|s|, i requires 0 <= i < |s| =>
      if s[i].tag == Q(parent) then s[i].(children := MapTagged(s[i].children, Q(child), f)) else s[i])
  }

  function MapGrandchildren(n: Node, parent: string, child: string, f: Node -> Node): Node {
    n.(children := MapGrandSeq(n.children, parent, child, f))
  }

  /** After the update, the grandchildren are exactly the updated
      grandchildren, in the same order: nothing is added or removed. */
  lemma {:induction false} GrandchildrenOfMap(s: seq<Node>, parent: string, child: string, f: Node -> Node)
    requires forall x :: f(x).tag == x.tag
    ensures GrandchildrenOf(MapGrandSeq(s, parent, child, f), parent, child)
         == MapAll(GrandchildrenOf(s, parent, child), f)
  {
    if s != [] {
      var m := MapGrandSeq(s, parent, child, f);
      assert m[1..] == MapGrandSeq(s[1..], parent, child, f);
      GrandchildrenOfMap(s[1..], parent, child, f);
      if s[0].tag == Q(parent) {
        TaggedMapTagged(s[0].children, Q(child), f);
      }
    }
  }

  /** All descendants of the nodes of `s`, each followed by its own
      descendants (document order): the `.//tag` search before filtering. */
  function Preorder(s: seq<Node>): seq<Node>
    decreases s
  {
    if s == [] then [] else [s[0]] + Preorder(s[0].children) + Preorder(s[1..])
  }

  /** `tree.findall('.//' + tag)`: every descendant with that tag, in
      document order. */
  function FindDescendants(n: Node, local: string): seq<Node> {
    Tagged(Preorder(n.children), Q(local))
  }

  /** `write_xml` as far as the document is concerned: the root gains the
      `xmlns:xhtml` declaration; serialising and re-parsing are left out. */
  function WriteXml(root: Node): (r: Node)
    ensures r.tag == root.tag && r.children == root.children && r.text == root.text
    ensures Get(r, "xmlns:xhtml") == Some("http://www.w3.org/1999/xhtml/")
    ensures forall k :: k != "xmlns:xhtml" ==> Get(r, k) == Get(root, k)
  {
    Set(root, "xmlns:xhtml", "http://www.w3.org/1999/xhtml/")
  }
}
