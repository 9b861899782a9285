/** Rendering of the node tree: `ParentNode.to_html` and `to_raw_text` of
    src/parentnode.py, dispatched over the three node variants together
    with the abstract `HTMLNode.to_html` and the leaf rendering. */
module ParentNodes {
  import opened Results
  import opened HtmlNodes

  /** `ParentNode(tag, children, props=None)`: the value is always `None`. */
  function NewParentNode(tag: Option<string>, children: Children, props: Option<Props> := None): (n: HtmlNode)
    ensures n.tag == tag && Value(n) == None && ChildrenOf(n) == children && n.props == props
  {
    Parent(tag, children, props)
  }

  /** The results of rendering parts one after the other: the first failure,
      or the concatenation of all the texts. */
  function JoinResults(rs: seq<Result<string>>): Result<string>
  {
    if |rs| == 0 then Ok("")
    else match JoinResults(rs[..|rs| - 1])
      case Err(e) => Err(e)
      case Ok(s) =>
        match rs[|rs| - 1]
        case Err(e) => Err(e)
        case Ok(t) => Ok(s + t)
  }

  /** `inner` between an opening tag carrying the rendered attributes and a closing tag. */
  function Element(tag: string, attributes: string, inner: string): string
  {
    OpeningTag(tag, attributes) + inner + ClosingTag(tag)
  }

  function OpeningTag(tag: string, attributes: string): string
  {
    "<" + tag + attributes + ">"
  }

  function ClosingTag(tag: string): string
  {
    "</" + tag + ">"
  }

  /** A leaf's HTML: the bare value without a tag, otherwise the value
      between an opening tag carrying the attributes and a closing tag. */
  function LeafHtml(tag: Option<string>, value: string, props: Option<Props>): string
  {
    if tag.None? then value else Element(tag.value, PropsString(props), value)
  }

  /** What `to_html` returns or raises for a node. */
  function Html(n: HtmlNode): Result<string>
    decreases n
  {
    match n
    case HtmlBase(_, _, _, _) => Err(NotImplemented)
    case Leaf(tag, content, props) => Ok(LeafHtml(tag, content, props))
    case Parent(tag, children, props) =>
      if tag.None? || tag.value == "" then Err(MissingTag)
      else if children.NoChildren? || children.nodes == [] then Err(MissingChildren)
      else
        match JoinResults(ChildHtmls(children.nodes))
        case Err(e) => Err(e)
        case Ok(inner) => Ok(Element(tag.value, PropsString(props), inner))
  }

  /** Each child's `to_html`, in order. */
  function ChildHtmls(cs: seq<HtmlNode>): (rs: seq<Result<string>>)
    ensures |rs| == |cs|
    decreases cs
  {
    seq(|cs|, i requires 0 <= i < |cs| => Html(cs[i]))
  }

  /** What `to_raw_text` returns or raises: a leaf gives its value, a parent
      the concatenation of its children's raw text; the base class has no
      such method and iterating over `None` children raises. */
  function RawText(n: HtmlNode): Result<string>
    decreases n
  {
    match n
    case HtmlBase(_, _, _, _) => Err(NoRawText)
    case Leaf(_, content, _) => Ok(content)
    case Parent(_, NoChildren, _) => Err(NoRawText)
    case Parent(_, ChildList(cs), _) => JoinResults(ChildTexts(cs))
  }

  function ChildTexts(cs: seq<HtmlNode>): (rs: seq<Result<string>>)
    ensures |rs| == |cs|
    decreases cs
  {
    seq(|cs|, i requires 0 <= i < |cs| => RawText(cs[i]))
  }

  /** `to_html` on any node: the base class raises, a leaf renders itself,
      and a parent renders through `ParentToHtml`. */
  method ToHtml(n: HtmlNode) returns (r: Result<string>)
    ensures r == Html(n)
    decreases n, 2
  {
    match n
    case HtmlBase(_, _, _, _) =>
      return Err(NotImplemented);
    case Leaf(tag, content, props) =>
      return Ok(LeafHtml(tag, content, props));
    case Parent(tag, children, props) =>
      r := ParentToHtml(n);
  }

  /** `ParentNode.to_html`: the two checks, then the children's HTML between
      the opening and the closing tag. */
  method ParentToHtml(n: HtmlNode) returns (r: Result<string>)
    requires n.Parent?
    ensures r == Html(n)
    decreases n, 1
  {
    if n.tag.None? || n.tag.value == "" {
      return Err(MissingTag);
    }
    if n.children.NoChildren? || n.children.nodes == [] {
      return Err(MissingChildren);
    }
    var attributes := PropsToHtml(n);
    var inner := RenderChildren(n);
    if inner.Err? {
      return Err(inner.error);
    }
    return Ok(OpeningTag(n.tag.value, attributes) + inner.value + ClosingTag(n.tag.value));
  }

  /** The loop of `ParentNode.to_html` that appends each child's HTML in turn,
      stopping at the first child that raises. */
  method RenderChildren(n: HtmlNode) returns (r: Result<string>)
    requires n.Parent? && n.children.ChildList?
    ensures r == JoinResults(ChildHtmls(n.children.nodes))
    decreases n, 0
  {
    var cs := n.children.nodes;
    var output := "";
    for i := 0 to |cs|
      invariant JoinResults(ChildHtmls(cs)[..i]) == Ok(output)
    {
      var child := ToHtml(cs[i]);
      if child.Err? {
        JoinResultsFailsAt(ChildHtmls(cs), i);
        return Err(child.error);
      }
      JoinResultsSnoc(ChildHtmls(cs), i, output);
      output := output + child.value;
    }
    assert ChildHtmls(cs)[..|cs|] == ChildHtmls(cs);
    return Ok(output);
  }

  // ---------------------------------------------------------------------
  // Lemmas

  /** One more successful part extends the joined text. */
  lemma JoinResultsSnoc(rs: seq<Result<string>>, i: nat, text: string)
    requires i < |rs| && JoinResults(rs[..i]) == Ok(text) && rs[i].Ok?
    ensures JoinResults(rs[..i + 1]) == Ok(text + rs[i].value)
  {
    assert rs[..i + 1][..i] == rs[..i];
  }

  /** The first failing part decides the error of the whole. */
  lemma JoinResultsFailsAt(rs: seq<Result<string>>, i: nat)
    requires i < |rs| && JoinResults(rs[..i]).Ok? && rs[i].Err?
    ensures JoinResults(rs) == Err(rs[i].error)
  {
    assert rs[..i + 1][..i] == rs[..i];
    JoinResultsFirstError(rs, i + 1);
  }

  /** Once a prefix of the parts fails, the whole fails with the same error. */
  lemma {:induction false} JoinResultsFirstError(rs: seq<Result<string>>, k: nat)
    requires k <= |rs| && JoinResults(rs[..k]).Err?
    ensures JoinResults(rs) == JoinResults(rs[..k])
    decreases |rs| - k
  {
    if k < |rs| {
      assert rs[..k + 1][..k] == rs[..k];
      JoinResultsFirstError(rs, k + 1);
    } else {
      assert rs[..k] == rs;
    }
  }

  /** The parts succeed together exactly when each of them succeeds. */
  lemma {:induction false} JoinResultsOk(rs: seq<Result<string>>)
    ensures JoinResults(rs).Ok? <==> forall i :: 0 <= i < |rs| ==> rs[i].Ok?
    decreases |rs|
  {
    if |rs| > 0 {
      JoinResultsOk(rs[..|rs| - 1]);
    }
  }

  /** The concatenation is at least as long as each part. */
  lemma {:induction false} JoinResultsLength(rs: seq<Result<string>>, ts: seq<Result<string>>)
    requires |rs| == |ts| && JoinResults(rs).Ok? && JoinResults(ts).Ok?
    requires forall i :: 0 <= i < |rs| ==> rs[i].Ok? && ts[i].Ok? && |rs[i].value| <= |ts[i].value|
    ensures |JoinResults(rs).value| <= |JoinResults(ts).value|
    decreases |rs|
  {
    if |rs| > 0 {
      var k := |rs| - 1;
      JoinResultsOk(rs[..k]);
      JoinResultsOk(ts[..k]);
      JoinResultsLength(rs[..k], ts[..k]);
    }
  }

  /** A tree whose parent nodes all have a tag and children, and which holds
      no bare `HTMLNode`. */
  predicate WellFormed(n: HtmlNode)
    decreases n
  {
    match n
    case HtmlBase(_, _, _, _) => false
    case Leaf(_, _, _) => true
    case Parent(tag, children, _) =>
      && tag.Some? && tag.value != ""
      && children.ChildList? && children.nodes != []
      && forall i :: 0 <= i < |children.nodes| ==> WellFormed(children.nodes[i])
  }

  /** `to_html` succeeds exactly on well-formed trees: it fails on a bare
      `HTMLNode`, on a parent without tag or children, and whenever any
      descendant fails. */
  lemma {:induction false} HtmlOkIffWellFormed(n: HtmlNode)
    ensures Html(n).Ok? <==> WellFormed(n)
    decreases n
  {
    match n
    case HtmlBase(_, _, _, _) =>
    case Leaf(_, _, _) =>
    case Parent(tag, children, _) =>
      if tag.Some? && tag.value != "" && children.ChildList? && children.nodes != [] {
        var cs := children.nodes;
        forall i | 0 <= i < |cs| ensures ChildHtmls(cs)[i].Ok? <==> WellFormed(cs[i]) {
          HtmlOkIffWellFormed(cs[i]);
        }
        JoinResultsOk(ChildHtmls(cs));
        assert Html(n).Ok? <==> JoinResults(ChildHtmls(cs)).Ok?;
      }
  }

  /** A failing child makes its parent fail. */
  lemma ChildFailurePropagates(n: HtmlNode, i: nat)
    requires n.Parent? && n.children.ChildList? && i < |n.children.nodes|
    requires Html(n.children.nodes[i]).Err?
    ensures Html(n).Err?
  {
    var cs := n.children.nodes;
    HtmlOkIffWellFormed(cs[i]);
    HtmlOkIffWellFormed(n);
  }

  /** `to_html` of the base class always raises. */
  lemma BaseHtmlFails(n: HtmlNode)
    requires n.HtmlBase?
    ensures Html(n) == Err(NotImplemented)
  {
  }

  /** A parent's own checks come first: no tag, then no children. */
  lemma ParentChecks(tag: Option<string>, children: Children, props: Option<Props>)
    ensures (tag.None? || tag == Some("")) ==> Html(Parent(tag, children, props)) == Err(MissingTag)
    ensures tag.Some? && tag.value != "" && (children.NoChildren? || children == ChildList([]))
            ==> Html(Parent(tag, children, props)) == Err(MissingChildren)
  {
  }

  /** A well-formed tree has raw text, and its raw text is never longer than its HTML. */
  lemma {:induction false} RawTextOfWellFormed(n: HtmlNode)
    requires WellFormed(n)
    ensures RawText(n).Ok? && Html(n).Ok?
    ensures |RawText(n).value| <= |Html(n).value|
    decreases n
  {
    HtmlOkIffWellFormed(n);
    match n
    case Leaf(_, _, _) =>
    case Parent(tag, children, props) =>
      var cs := children.nodes;
      forall i | 0 <= i < |cs|
        ensures RawText(cs[i]).Ok? && Html(cs[i]).Ok? && |RawText(cs[i]).value| <= |Html(cs[i]).value|
      {
        RawTextOfWellFormed(cs[i]);
      }
      JoinResultsOk(ChildTexts(cs));
      JoinResultsOk(ChildHtmls(cs));
      JoinResultsLength(ChildTexts(cs), ChildHtmls(cs));
  }

  /** With an empty list of children `to_raw_text` returns "" where `to_html` raises. */
  lemma EmptyChildren(tag: string, props: Option<Props>)
    requires tag != ""
    ensures RawText(Parent(Some(tag), ChildList([]), props)) == Ok("")
    ensures Html(Parent(Some(tag), ChildList([]), props)) == Err(MissingChildren)
  {
  }

  /** A tree whose raw text exists: every parent has a list of children and
      no bare `HTMLNode` occurs. Tags and props play no part. */
  predicate HasRawText(n: HtmlNode)
    decreases n
  {
    match n
    case HtmlBase(_, _, _, _) => false
    case Leaf(_, _, _) => true
    case Parent(_, children, _) =>
      && children.ChildList?
      && forall i :: 0 <= i < |children.nodes| ==> HasRawText(children.nodes[i])
  }

  /** `to_raw_text` succeeds exactly on trees with raw text: unlike `to_html`
      it never looks at a tag or at an empty list of children. */
  lemma {:induction false} RawTextOkIff(n: HtmlNode)
    ensures RawText(n).Ok? <==> HasRawText(n)
    decreases n
  {
    match n
    case HtmlBase(_, _, _, _) =>
    case Leaf(_, _, _) =>
    case Parent(_, children, _) =>
      if children.ChildList? {
        var cs := children.nodes;
        forall i | 0 <= i < |cs| ensures ChildTexts(cs)[i].Ok? <==> HasRawText(cs[i]) {
          RawTextOkIff(cs[i]);
        }
        JoinResultsOk(ChildTexts(cs));
      }
  }

  /** A parent's raw text depends on its children alone, never on its tag or props. */
  lemma RawTextIgnoresTagAndProps(t1: Option<string>, t2: Option<string>, p1: Option<Props>, p2: Option<Props>, children: Children)
    ensures RawText(Parent(t1, children, p1)) == RawText(Parent(t2, children, p2))
  {
  }

  /** Without a tag `to_html` raises MissingTag, yet `to_raw_text` still gives
      the children's text whenever each child has one. */
  lemma RawTextWithoutTag(t: Option<string>, cs: seq<HtmlNode>, p: Option<Props>)
    requires t.None? || t == Some("")
    requires forall i :: 0 <= i < |cs| ==> RawText(cs[i]).Ok?
    ensures RawText(Parent(t, ChildList(cs), p)).Ok?
    ensures Html(Parent(t, ChildList(cs), p)) == Err(MissingTag)
  {
    JoinResultsOk(ChildTexts(cs));
  }

  /** src/test_leafnode.py:11-17: a tagged leaf, without and with an attribute. */
  lemma LeafExamples()
    ensures Html(Leaf(Some("p"), "Hello, world!", None)) == Ok("<p>Hello, world!</p>")
    ensures Html(Leaf(Some("a"), "Click me!", Some([("href", "https://www.google.com")])))
            == Ok("<a href=\"https://www.google.com\">Click me!</a>")
  {
    ParagraphLeaf();
    AnchorLeaf();
  }

  lemma ParagraphLeaf()
    ensures LeafHtml(Some("p"), "Hello, world!", None) == "<p>Hello, world!</p>"
  {
    LeafHtmlTagged("p", "Hello, world!", None, "");
    ParagraphText();
  }

  lemma ParagraphText()
    ensures "<" + "p" + "" + ">" + "Hello, world!" + "</" + "p" + ">" == "<p>Hello, world!</p>"
  {
    assert "<" + "p" + "" + ">" == "<p>";
    assert "</" + "p" + ">" == "</p>";
    assert "<p>" + "Hello, world!" + "</p>" == "<p>Hello, world!</p>";
  }

  lemma AnchorLeaf()
    ensures LeafHtml(Some("a"), "Click me!", Some([("href", "https://www.google.com")]))
            == "<a href=\"https://www.google.com\">Click me!</a>"
  {
    AnchorShape("https://www.google.com", "Click me!");
    AnchorText();
  }

  lemma AnchorText()
    ensures "<a href=\"" + "https://www.google.com" + "\">" + "Click me!" + "</a>"
            == "<a href=\"https://www.google.com\">Click me!</a>"
  {
    AnchorOpen();
    assert "\">" + "Click me!" + "</a>" == "\">Click me!</a>";
    assert "<a href=\"https://www.google.com" + "\">Click me!</a>" == "<a href=\"https://www.google.com\">Click me!</a>";
  }

  lemma AnchorOpen()
    ensures "<a href=\"" + "https://www.google.com" == "<a href=\"https://www.google.com"
  {
    assert "https://www.google.com" == "https://" + "www.google.com";
    assert "<a href=\"" + "https://" == "<a href=\"https://";
  }

  /** A leaf with one `href` attribute renders as an anchor. */
  lemma AnchorShape(url: string, text: string)
    ensures LeafHtml(Some("a"), text, Some([("href", url)])) == "<a href=\"" + url + "\">" + text + "</a>"
  {
    var kv := ("href", url);
    var attrs := " href=\"" + url + "\"";
    assert [kv][..0] == [];
    assert " " + "href" + "=\"" == " href=\"";
    assert Attributes([kv]) == attrs;
    LeafHtmlTagged("a", text, Some([kv]), attrs);
    assert "<" + "a" + " href=\"" == "<a href=\"";
    assert "\"" + ">" == "\">";
    assert "</" + "a" + ">" == "</a>";
  }

  lemma LeafHtmlTagged(tag: string, value: string, props: Option<Props>, attrs: string)
    requires PropsString(props) == attrs
    ensures LeafHtml(Some(tag), value, props) == Element(tag, attrs, value)
    ensures Element(tag, attrs, value) == "<" + tag + attrs + ">" + value + "</" + tag + ">"
  {
  }
}
