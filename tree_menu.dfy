/** The spatial-tree panel: the viewer's already-built spatial structure
    rendered as a menu of nested entries and leaves, each labelled with the
    node's IFC type and express ID. */
module TreeMenu {
  import opened JsValues

  /** A node of the spatial structure as the viewer hands it over: its IFC
      type, its express ID and its children in order. */
  datatype Node = Node(ifcType: string, expressID: int, children: seq<Node>)

  /** A rendered menu entry: a leaf (`li.leaf-node`, which remembers the
      express ID its click and hover handlers pick) or a nested entry (an
      `li` with a caret title and a `ul.nested` list of entries). */
  datatype MenuItem =
    | Leaf(title: string, expressID: int)
    | Nested(title: string, items: seq<MenuItem>)

  // ---------------------------------------------------------------------
  // Decimal text of an integer, as a template literal writes a number
  // ---------------------------------------------------------------------

  predicate IsDigit(c: char)
  {
    '0' <= c <= '9'
  }

  predicate AllDigits(s: string)
  {
    forall i :: 0 <= i < |s| ==> IsDigit(s[i])
  }

  function DigitChar(d: nat): char
    requires d < 10
  {
    "0123456789"[d]
  }

  function DigitValue(c: char): nat
    requires IsDigit(c)
  {
    (c as int - '0' as int) as nat
  }

  /** The decimal digits of `n`, most significant first, without leading
      zeros. */
  function Digits(n: nat): (s: string)
    ensures |s| > 0 && AllDigits(s)
    decreases n
  {
    if n < 10 then [DigitChar(n)] else Digits(n / 10) + [DigitChar(n % 10)]
  }

  /** The number a string of decimal digits denotes. */
  function DigitsValue(s: string): nat
    requires AllDigits(s)
    decreases |s|
  {
    if |s| == 0 then 0 else DigitsValue(s[..|s| - 1]) * 10 + DigitValue(s[|s| - 1])
  }

  lemma {:induction false} DigitsRoundTrip(n: nat)
    ensures DigitsValue(Digits(n)) == n
    decreases n
  {
    var s := Digits(n);
    if n >= 10 {
      DigitsRoundTrip(n / 10);
      assert s[..|s| - 1] == Digits(n / 10);
    }
  }

  /** Only zero is written with a leading zero digit. */
  lemma {:induction false} DigitsNoLeadingZero(n: nat)
    ensures Digits(n)[0] == '0' ==> Digits(n) == "0"
    decreases n
  {
    if n >= 10 {
      DigitsNoLeadingZero(n / 10);
      assert Digits(n)[0] == Digits(n / 10)[0];
    }
  }

  /** `${n}` for an integer `n`: a minus sign exactly for a negative `n`, then
      decimal digits without leading zeros. */
  function IntToString(n: int): (s: string)
    ensures |s| > 0 && (s[0] == '-' <==> n < 0)
    ensures AllDigits(if n < 0 then s[1..] else s)
    ensures var d := if n < 0 then s[1..] else s; |d| > 0 && (d[0] == '0' ==> d == "0")
  {
    DigitsNoLeadingZero(if n < 0 then -n else n);
    assert IsDigit(Digits(if n < 0 then -n else n)[0]);
    if n < 0 then "-" + Digits(-n) else Digits(n)
  }

  /** The integer a decimal text denotes, if it is one. */
  function ParseInt(s: string): Option<int>
  {
    if |s| > 1 && s[0] == '-' && AllDigits(s[1..]) then Some(-(DigitsValue(s[1..]) as int))
    else if |s| > 0 && AllDigits(s) then Some(DigitsValue(s))
    else None
  }

  /** A non-empty run of digits reads as its value, and with a leading minus
      sign as the negated value. */
  lemma ParseDigitText(d: string)
    requires |d| > 0 && AllDigits(d)
    ensures ParseInt(d) == Some(DigitsValue(d) as int)
    ensures ParseInt("-" + d) == Some(-(DigitsValue(d) as int))
  {
    assert IsDigit(d[0]);
    assert ("-" + d)[1..] == d;
  }

  /** The text of an integer reads back as that integer. */
  lemma IntToStringRoundTrip(n: int)
    ensures ParseInt(IntToString(n)) == Some(n)
  {
    var m: nat := if n < 0 then -n else n;
    DigitsRoundTrip(m);
    ParseDigitText(Digits(m));
  }

  // ---------------------------------------------------------------------
  // Labels and rendering
  // ---------------------------------------------------------------------

  /** `nodeToString(node)`: the IFC type, a spaced dash, and the express ID,
      which reads back from the rest of the label. */
  function Label(node: Node): (r: string)
    ensures |r| > |node.ifcType| + 3
    ensures r[..|node.ifcType|] == node.ifcType && r[|node.ifcType|..|node.ifcType| + 3] == " - "
    ensures ParseInt(r[|node.ifcType| + 3..]) == Some(node.expressID)
    ensures var d := r[|node.ifcType| + 3..];
            var digits := if node.expressID < 0 then d[1..] else d;
            |d| > 0 && (d[0] == '-' <==> node.expressID < 0) && |digits| > 0
            && AllDigits(digits) && (digits[0] == '0' ==> digits == "0")
  {
    IntToStringRoundTrip(node.expressID);
    var r := node.ifcType + " - " + IntToString(node.expressID);
    assert r[|node.ifcType| + 3..] == IntToString(node.expressID);
    r
  }

  /** A label names its node: two nodes whose types have the same length and
      whose labels agree have the same type and the same express ID. */
  lemma LabelDeterminesNode(a: Node, b: Node)
    requires |a.ifcType| == |b.ifcType| && Label(a) == Label(b)
    ensures a.ifcType == b.ifcType && a.expressID == b.expressID
  {
    var n := |a.ifcType|;
    assert a.ifcType == Label(a)[..n] && b.ifcType == Label(b)[..n];
    assert IntToString(a.expressID) == Label(a)[n + 3..];
    assert IntToString(b.expressID) == Label(b)[n + 3..];
    IntToStringRoundTrip(a.expressID);
    IntToStringRoundTrip(b.expressID);
  }

  /** `constructTreeMenuNode(parent, node)`: a node without children becomes
      a leaf; any other node becomes a nested entry holding its children's
      entries in order. */
  function RenderNode(node: Node): (r: MenuItem)
    ensures r.title == Label(node)
    ensures r.Leaf? <==> |node.children| == 0
    ensures r.Leaf? ==> r.expressID == node.expressID
    ensures r.Nested? ==> |r.items| == |node.children|
    decreases node, 1
  {
    if |node.children| == 0 then Leaf(Label(node), node.expressID)
    else Nested(Label(node), RenderAll(node.children))
  }

  /** `children.forEach((child) => constructTreeMenuNode(nodeElement, child))`. */
  function RenderAll(nodes: seq<Node>): (r: seq<MenuItem>)
    ensures |r| == |nodes|
    ensures forall i :: 0 <= i < |nodes| ==> r[i] == RenderNode(nodes[i])
    decreases nodes, 0
  {
    if |nodes| == 0 then [] else [RenderNode(nodes[0])] + RenderAll(nodes[1..])
  }

  /** `createTreeMenu(ifcProject)`: after the tree root is cleared it holds
      one entry, the project, always nested, holding its children's entries. */
  function CreateTreeMenu(project: Node): (r: MenuItem)
    ensures r.Nested? && r.title == Label(project)
    ensures r.items == RenderAll(project.children)
  {
    Nested(Label(project), RenderAll(project.children))
  }

  /** The project is rendered like any other node unless it has no children,
      in which case it is still nested (and empty) where any other node would
      be a leaf. */
  lemma ProjectRenderedAsNode(project: Node)
    ensures |project.children| != 0 ==> CreateTreeMenu(project) == RenderNode(project)
    ensures |project.children| == 0 ==>
              (CreateTreeMenu(project) == Nested(Label(project), [])
               && RenderNode(project) == Leaf(Label(project), project.expressID))
  {
  }

  // ---------------------------------------------------------------------
  // The rendered menu lists every node once, in preorder
  // ---------------------------------------------------------------------

  /** The labels of the nodes of a tree in preorder. */
  function NodeLabels(node: Node): seq<string>
    decreases node, 1
  {
    [Label(node)] + NodesLabels(node.children)
  }

  function NodesLabels(nodes: seq<Node>): seq<string>
    decreases nodes, 0
  {
    if |nodes| == 0 then [] else NodeLabels(nodes[0]) + NodesLabels(nodes[1..])
  }

  /** The labels of the entries of a menu in document order. */
  function ItemLabels(item: MenuItem): seq<string>
    decreases item, 1
  {
    match item
    case Leaf(title, _) => [title]
    case Nested(title, items) => [title] + ItemsLabels(items)
  }

  function ItemsLabels(items: seq<MenuItem>): seq<string>
    decreases items, 0
  {
    if |items| == 0 then [] else ItemLabels(items[0]) + ItemsLabels(items[1..])
  }

  /** The express IDs of the childless nodes in preorder. */
  function ChildlessIds(node: Node): seq<int>
    decreases node, 1
  {
    if |node.children| == 0 then [node.expressID] else ChildlessIdsAll(node.children)
  }

  function ChildlessIdsAll(nodes: seq<Node>): seq<int>
    decreases nodes, 0
  {
    if |nodes| == 0 then [] else ChildlessIds(nodes[0]) + ChildlessIdsAll(nodes[1..])
  }

  /** The express IDs of the leaves of a menu in document order. */
  function LeafIds(item: MenuItem): seq<int>
    decreases item, 1
  {
    match item
    case Leaf(_, id) => [id]
    case Nested(_, items) => LeafIdsAll(items)
  }

  function LeafIdsAll(items: seq<MenuItem>): seq<int>
    decreases items, 0
  {
    if |items| == 0 then [] else LeafIds(items[0]) + LeafIdsAll(items[1..])
  }

  /** The rendered entries carry the labels of all the nodes of the tree, each
      once, in preorder. */
  lemma {:induction false} RenderKeepsPreorder(node: Node)
    ensures ItemLabels(RenderNode(node)) == NodeLabels(node)
    decreases node, 1
  {
    if |node.children| != 0 {
      RenderAllKeepsPreorder(node.children);
    }
  }

  lemma {:induction false} RenderAllKeepsPreorder(nodes: seq<Node>)
    ensures ItemsLabels(RenderAll(nodes)) == NodesLabels(nodes)
    decreases nodes, 0
  {
    if |nodes| != 0 {
      RenderKeepsPreorder(nodes[0]);
      RenderAllKeepsPreorder(nodes[1..]);
      assert RenderAll(nodes)[1..] == RenderAll(nodes[1..]);
    }
  }

  /** The leaves of the menu are exactly the childless nodes, in preorder:
      every node without children is clickable, and nothing else is. */
  lemma {:induction false} LeavesAreChildlessNodes(node: Node)
    ensures LeafIds(RenderNode(node)) == ChildlessIds(node)
    decreases node, 1
  {
    if |node.children| != 0 {
      LeavesAreChildlessNodesAll(node.children);
    }
  }

  lemma {:induction false} LeavesAreChildlessNodesAll(nodes: seq<Node>)
    ensures LeafIdsAll(RenderAll(nodes)) == ChildlessIdsAll(nodes)
    decreases nodes, 0
  {
    if |nodes| != 0 {
      LeavesAreChildlessNodes(nodes[0]);
      LeavesAreChildlessNodesAll(nodes[1..]);
      assert RenderAll(nodes)[1..] == RenderAll(nodes[1..]);
    }
  }

  /** The whole tree panel lists the project's label first and then every
      other node's label once, in preorder. */
  lemma TreeMenuListsEveryNode(project: Node)
    ensures ItemLabels(CreateTreeMenu(project)) == NodeLabels(project)
  {
    RenderAllKeepsPreorder(project.children);
  }
}
