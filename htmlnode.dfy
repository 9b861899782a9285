/** The HTML node tree of src/htmlnode.py: the node datatype (the base class
    and its two subclasses as variants), attribute rendering, and node
    equality as `HTMLNode.__eq__` defines it. */
module HtmlNodes {
  import opened Results

  /** Attributes in insertion order. A Python dict never repeats a key; see `DistinctKeys`. */
  type Props = seq<(string, string)>

  /** A node's `children` attribute: `None`, or a list of nodes. */
  datatype Children = NoChildren | ChildList(nodes: seq<HtmlNode>)

  /** `HTMLNode` and its subclasses `LeafNode` and `ParentNode`. */
  datatype HtmlNode =
    | HtmlBase(tag: Option<string>, value: Option<string>, children: Children, props: Option<Props>)
    | Leaf(tag: Option<string>, content: string, props: Option<Props>)
    | Parent(tag: Option<string>, children: Children, props: Option<Props>)

  /** The `value` attribute: a parent node always has `None`. */
  function Value(n: HtmlNode): Option<string>
  {
    match n
    case HtmlBase(_, value, _, _) => value
    case Leaf(_, content, _) => Some(content)
    case Parent(_, _, _) => None
  }

  /** The `children` attribute: a leaf never has any. */
  function ChildrenOf(n: HtmlNode): Children
  {
    if n.Leaf? then NoChildren else n.children
  }

  /** `HTMLNode(tag=None, value=None, children=None, props=None)` */
  function NewHtmlNode(tag: Option<string> := None, value: Option<string> := None,
                       children: Children := NoChildren, props: Option<Props> := None): (n: HtmlNode)
    ensures n.tag == tag && Value(n) == value && ChildrenOf(n) == children && n.props == props
  {
    HtmlBase(tag, value, children, props)
  }

  // ---------------------------------------------------------------------
  // props_to_html

  /** One rendered attribute: ` key="value"`. */
  function Attribute(kv: (string, string)): string
  {
    " " + kv.0 + "=\"" + kv.1 + "\""
  }

  /** The attributes rendered one after the other, in insertion order. */
  function Attributes(p: Props): string
  {
    if |p| == 0 then "" else Attributes(p[..|p| - 1]) + Attribute(p[|p| - 1])
  }

  /** What `props_to_html` returns for a node whose `props` attribute is `props`. */
  function PropsString(props: Option<Props>): string
  {
    if props.None? || props.value == [] then "" else Attributes(props.value)
  }

  /** `HTMLNode.props_to_html`: loops over the keys, appending one attribute at a time. */
  method PropsToHtml(n: HtmlNode) returns (s: string)
    ensures s == PropsString(n.props)
  {
    if n.props.None? || n.props.value == [] {
      return "";
    }
    var p := n.props.value;
    s := "";
    for i := 0 to |p|
      invariant s == Attributes(p[..i])
    {
      assert p[..i + 1][..i] == p[..i];
      s := s + Attribute(p[i]);
    }
    assert p[..|p|] == p;
  }

  lemma {:induction false} AttributesAppend(p: Props, q: Props)
    ensures Attributes(p + q) == Attributes(p) + Attributes(q)
    decreases |q|
  {
    if |q| > 0 {
      var q' := q[..|q| - 1];
      assert (p + q)[..|p + q| - 1] == p + q';
      AttributesAppend(p, q');
    } else {
      assert p + q == p;
    }
  }

  /** Every attribute appears exactly once, in insertion order: the rendering
      splits at each entry into what precedes it, its own ` key="value"`
      segment, and what follows it. */
  lemma AttributesInOrder(p: Props, i: nat)
    requires i < |p|
    ensures Attributes(p) == Attributes(p[..i]) + Attribute(p[i]) + Attributes(p[i + 1..])
  {
    AttributesPrefix(p, i);
    AttributesSplitAt(p, i + 1);
  }

  lemma AttributesPrefix(p: Props, i: nat)
    requires i < |p|
    ensures Attributes(p[..i + 1]) == Attributes(p[..i]) + Attribute(p[i])
  {
    var front := p[..i + 1];
    assert front[..i] == p[..i];
  }

  lemma AttributesSplitAt(p: Props, k: nat)
    requires k <= |p|
    ensures Attributes(p) == Attributes(p[..k]) + Attributes(p[k..])
  {
    assert p == p[..k] + p[k..];
    AttributesAppend(p[..k], p[k..]);
  }

  /** `props_to_html` returns "" exactly when props is None or empty. */
  lemma PropsStringEmpty(props: Option<Props>)
    ensures PropsString(props) == "" <==> props.None? || props.value == []
  {
  }

  /** A non-empty rendering always starts with a space. */
  lemma {:induction false} AttributesStartWithSpace(p: Props)
    requires |p| > 0
    ensures |Attributes(p)| > 0 && Attributes(p)[0] == ' '
    decreases |p|
  {
    if |p| > 1 {
      AttributesStartWithSpace(p[..|p| - 1]);
    }
  }

  lemma PropsStringStartsWithSpace(props: Option<Props>)
    ensures PropsString(props) != "" ==> PropsString(props)[0] == ' '
  {
    if props.Some? && props.value != [] {
      AttributesStartWithSpace(props.value);
    }
  }

  /** Two attributes render as their two segments, in list order. */
  lemma AttributesOfTwo(a: (string, string), b: (string, string))
    ensures Attributes([a, b]) == Attribute(a) + Attribute(b)
  {
    var p := [a, b];
    assert p[..1] == [a];
    assert [a][..0] == [];
    assert Attributes([a]) == Attribute(a);
  }

  /** The rendering of the attributes in src/test_htmlnode.py:12-15. */
  lemma PropsExample()
    ensures PropsString(Some([("class", "p_class"), ("id", "p_id")])) == " class=\"p_class\" id=\"p_id\""
  {
    AttributesOfTwo(("class", "p_class"), ("id", "p_id"));
  }

  // ---------------------------------------------------------------------
  // __eq__

  /** Keys are pairwise distinct, as in any Python dict. */
  predicate DistinctKeys(p: Props)
  {
    forall i, j :: 0 <= i < j < |p| ==> p[i].0 != p[j].0
  }

  /** The dictionary the attribute list stands for. */
  function PropsMap(p: Props): map<string, string>
  {
    if |p| == 0 then map[] else PropsMap(p[..|p| - 1])[p[|p| - 1].0 := p[|p| - 1].1]
  }

  /** `self.props != other.props`, negated: dictionaries compare without regard to order. */
  predicate PropsEq(a: Option<Props>, b: Option<Props>)
  {
    (a.None? && b.None?) || (a.Some? && b.Some? && PropsMap(a.value) == PropsMap(b.value))
  }

  /** `HTMLNode.__eq__`: tag, value, children (element by element) and props.
      The subclass is not compared. */
  predicate NodeEq(a: HtmlNode, b: HtmlNode)
  {
    && a.tag == b.tag
    && Value(a) == Value(b)
    && PropsEq(a.props, b.props)
    && match ChildrenOf(a)
       case NoChildren => ChildrenOf(b).NoChildren?
       case ChildList(xs) =>
         && ChildrenOf(b).ChildList?
         && |xs| == |ChildrenOf(b).nodes|
         && forall i :: 0 <= i < |xs| ==> NodeEq(xs[i], ChildrenOf(b).nodes[i])
  }

  /** With distinct keys the dictionary holds each entry of the list. */
  lemma {:induction false} PropsMapLookup(p: Props)
    requires DistinctKeys(p)
    ensures forall i :: 0 <= i < |p| ==> p[i].0 in PropsMap(p) && PropsMap(p)[p[i].0] == p[i].1
    ensures forall k :: k in PropsMap(p) ==> exists i :: 0 <= i < |p| && p[i].0 == k
    decreases |p|
  {
    if |p| > 0 {
      var q := p[..|p| - 1];
      PropsMapLookup(q);
      forall k | k in PropsMap(p) ensures exists i :: 0 <= i < |p| && p[i].0 == k {
        if k != p[|p| - 1].0 {
          var i :| 0 <= i < |q| && q[i].0 == k;
          assert p[i].0 == k;
        }
      }
    }
  }

  /** Every key of one list is a key of the other, with the same value. */
  lemma PropsMapIncluded(p: Props, q: Props)
    requires DistinctKeys(p) && DistinctKeys(q) && multiset(p) <= multiset(q)
    ensures forall k :: k in PropsMap(p) ==> k in PropsMap(q) && PropsMap(q)[k] == PropsMap(p)[k]
  {
    PropsMapLookup(p);
    PropsMapLookup(q);
    forall k | k in PropsMap(p) ensures k in PropsMap(q) && PropsMap(q)[k] == PropsMap(p)[k] {
      var i :| 0 <= i < |p| && p[i].0 == k;
      assert p[i] in multiset(q);
      var j :| 0 <= j < |q| && q[j] == p[i];
    }
  }

  /** Props equality ignores insertion order: two orderings of the same
      entries give the same dictionary. */
  lemma PropsMapPermutation(p: Props, q: Props)
    requires DistinctKeys(p) && DistinctKeys(q) && multiset(p) == multiset(q)
    ensures PropsMap(p) == PropsMap(q)
  {
    PropsMapIncluded(p, q);
    PropsMapIncluded(q, p);
  }

  /** `NodeEq` is an equivalence relation. */
  lemma {:induction false} NodeEqReflexive(a: HtmlNode)
    ensures NodeEq(a, a)
    decreases a
  {
    if ChildrenOf(a).ChildList? {
      var xs := ChildrenOf(a).nodes;
      forall i | 0 <= i < |xs| ensures NodeEq(xs[i], xs[i]) {
        NodeEqReflexive(xs[i]);
      }
    }
  }

  lemma {:induction false} NodeEqSymmetric(a: HtmlNode, b: HtmlNode)
    requires NodeEq(a, b)
    ensures NodeEq(b, a)
    decreases a
  {
    if ChildrenOf(a).ChildList? {
      var xs, ys := ChildrenOf(a).nodes, ChildrenOf(b).nodes;
      forall i | 0 <= i < |ys| ensures NodeEq(ys[i], xs[i]) {
        NodeEqSymmetric(xs[i], ys[i]);
      }
    }
  }

  lemma {:induction false} NodeEqTransitive(a: HtmlNode, b: HtmlNode, c: HtmlNode)
    requires NodeEq(a, b) && NodeEq(b, c)
    ensures NodeEq(a, c)
    decreases a
  {
    if ChildrenOf(a).ChildList? {
      var xs, ys, zs := ChildrenOf(a).nodes, ChildrenOf(b).nodes, ChildrenOf(c).nodes;
      forall i | 0 <= i < |xs| ensures NodeEq(xs[i], zs[i]) {
        NodeEqTransitive(xs[i], ys[i], zs[i]);
      }
    }
  }

  /** Reordering a node's attributes leaves it equal to the original. */
  lemma NodeEqReorderedProps(tag: Option<string>, value: Option<string>, children: Children, p: Props, q: Props)
    requires DistinctKeys(p) && DistinctKeys(q) && multiset(p) == multiset(q)
    ensures NodeEq(HtmlBase(tag, value, children, Some(p)), HtmlBase(tag, value, children, Some(q)))
  {
    PropsMapPermutation(p, q);
    NodeEqReflexive(HtmlBase(tag, value, children, None));
  }

  /** src/test_htmlnode.py:17-22: the same attributes in the other order give
      an equal node, yet `props_to_html` renders the two differently, so
      equality is coarser than rendering. */
  lemma EqualityIgnoresAttributeOrder()
    ensures var p := [("class", "p_class"), ("id", "p_id")];
      var q := [("id", "p_id"), ("class", "p_class")];
      && NodeEq(HtmlBase(Some("p"), Some("hello world"), NoChildren, Some(p)),
                HtmlBase(Some("p"), Some("hello world"), NoChildren, Some(q)))
      && PropsString(Some(p)) != PropsString(Some(q))
  {
    var p := [("class", "p_class"), ("id", "p_id")];
    var q := [("id", "p_id"), ("class", "p_class")];
    ReorderedEqual(p, q);
    ReorderedRendering(p, q);
  }

  lemma ReorderedEqual(p: Props, q: Props)
    requires p == [("class", "p_class"), ("id", "p_id")] && q == [("id", "p_id"), ("class", "p_class")]
    ensures NodeEq(HtmlBase(Some("p"), Some("hello world"), NoChildren, Some(p)),
                   HtmlBase(Some("p"), Some("hello world"), NoChildren, Some(q)))
  {
    assert multiset(p) == multiset(q);
    NodeEqReorderedProps(Some("p"), Some("hello world"), NoChildren, p, q);
  }

  lemma ReorderedRendering(p: Props, q: Props)
    requires p == [("class", "p_class"), ("id", "p_id")] && q == [("id", "p_id"), ("class", "p_class")]
    ensures PropsString(Some(p)) != PropsString(Some(q))
  {
    AttributesOfTwo(p[0], p[1]);
    AttributesOfTwo(q[0], q[1]);
    assert PropsString(Some(p))[1] == 'c';
    assert PropsString(Some(q))[1] == 'i';
  }
}
