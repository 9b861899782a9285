/** Inline spans of src/textnode.py: `TextType`, `TextNode`, its equality and
    `text_node_to_html_node`, together with the Markdown each span stands for
    (the reference the splitting stages are proved against) and the
    node-by-node loop every splitting stage shares. */
module TextNodes {
  import opened Results
  import opened HtmlNodes
  import opened ParentNodes

  datatype TextType = Plain | Bold | Italic | Code | Link | Image

  /** `TextNode(text, text_type, url=None)`. The type is optional: Python lets
      a node be built with `None`, and conversion to HTML rejects it. */
  datatype TextNode = TextNode(text: string, textType: Option<TextType>, url: Option<string>)

  /** `TextNode(s, TextType.PLAIN)`: every splitting stage builds its plain
      pieces this way, dropping any url. */
  function PlainNode(s: string): TextNode
  {
    TextNode(s, Some(Plain), None)
  }

  function TypedNode(s: string, tt: TextType): TextNode
  {
    TextNode(s, Some(tt), None)
  }

  predicate IsPlain(n: TextNode)
  {
    n.textType == Some(Plain)
  }

  /** `TextNode.__eq__`: text, then type, then url. */
  function TextNodeEq(a: TextNode, b: TextNode): (r: bool)
    ensures r <==> a == b
  {
    if a.text != b.text then false
    else if a.textType != b.textType then false
    else if a.url != b.url then false
    else true
  }

  /** src/test_textnode.py:7-20: equal with the same type (also `None`),
      different with different types. */
  lemma TextNodeEqExamples()
    ensures TextNodeEq(TextNode("This is a text node", Some(Bold), None), TextNode("This is a text node", Some(Bold), None))
    ensures TextNodeEq(TextNode("This is a text node", None, None), TextNode("This is a text node", None, None))
    ensures !TextNodeEq(TextNode("This is a text node", Some(Bold), None), TextNode("This is a text node", Some(Italic), None))
  {
  }

  // ---------------------------------------------------------------------
  // text_node_to_html_node

  /** A url as an f-string renders it: `None` becomes "None". */
  function UrlText(url: Option<string>): string
  {
    if url.Some? then url.value else "None"
  }

  /** `text_node_to_html_node`: one leaf per span type; a node without a
      type raises. */
  function TextNodeToHtmlNode(n: TextNode): (r: Result<HtmlNode>)
    ensures r.Err? <==> n.textType.None?
    ensures r.Err? ==> r.error == InvalidTextType
    ensures r.Ok? ==> r.value.Leaf?
  {
    match n.textType
    case None => Err(InvalidTextType)
    case Some(Plain) => Ok(Leaf(None, n.text, None))
    case Some(Bold) => Ok(Leaf(Some("b"), n.text, None))
    case Some(Italic) => Ok(Leaf(Some("i"), n.text, None))
    case Some(Code) => Ok(Leaf(Some("code"), n.text, None))
    case Some(Link) => Ok(Leaf(Some("a"), n.text, Some([("href", UrlText(n.url))])))
    case Some(Image) => Ok(Leaf(Some("img"), "", Some([("src", UrlText(n.url)), ("alt", n.text)])))
  }

  /** The HTML each span type turns into once its leaf is rendered. */
  lemma SpanHtml(n: TextNode)
    requires n.textType.Some?
    ensures var h := Html(TextNodeToHtmlNode(n).value);
      match n.textType.value
      case Plain => h == Ok(n.text)
      case Bold => h == Ok(Element("b", "", n.text))
      case Italic => h == Ok(Element("i", "", n.text))
      case Code => h == Ok(Element("code", "", n.text))
      case Link => h == Ok(Element("a", Attribute(("href", UrlText(n.url))), n.text))
      case Image => h == Ok(Element("img", Attribute(("src", UrlText(n.url))) + Attribute(("alt", n.text)), ""))
  {
    match n.textType.value
    case Plain =>
    case Bold =>
    case Italic =>
    case Code =>
    case Link =>
      var kv := ("href", UrlText(n.url));
      assert [kv][..0] == [];
      assert Attributes([kv]) == Attribute(kv);
    case Image =>
      AttributesOfTwo(("src", UrlText(n.url)), ("alt", n.text));
  }

  /** Every span's leaf carries the span's text as its raw text, except an
      image, whose text moves into the `alt` attribute. */
  lemma SpanRawText(n: TextNode)
    requires n.textType.Some?
    ensures RawText(TextNodeToHtmlNode(n).value) == Ok(if n.textType == Some(Image) then "" else n.text)
  {
  }

  // ---------------------------------------------------------------------
  // The Markdown a span stands for

  /** The two bracketed span kinds the extractors recognise. */
  datatype Kind = ImageKind | LinkKind

  /** `![alt](url)` or `[text](url)`, as the splitters rebuild it. */
  function Syntax(kind: Kind, alt: string, url: string): (r: string)
    ensures |r| == |alt| + |url| + (if kind == ImageKind then 5 else 4)
  {
    match kind
    case ImageKind => "![" + alt + "](" + url + ")"
    case LinkKind => "[" + alt + "](" + url + ")"
  }

  /** The node a match of the given kind becomes. */
  function KindNode(kind: Kind, capture: (string, string)): TextNode
  {
    TextNode(capture.0, Some(if kind == ImageKind then Image else Link), Some(capture.1))
  }

  /** The delimiter that marks a delimited span type in the source text. */
  function DelimiterFor(tt: TextType): string
  {
    match tt
    case Bold => "**"
    case Italic => "_"
    case Code => "`"
    case _ => ""
  }

  predicate Delimited(tt: TextType)
  {
    tt == Bold || tt == Italic || tt == Code
  }

  /** The Markdown a span was written as. */
  function Markup(n: TextNode): string
  {
    match n.textType
    case Some(Bold) => "**" + n.text + "**"
    case Some(Italic) => "_" + n.text + "_"
    case Some(Code) => "`" + n.text + "`"
    case Some(Image) => Syntax(ImageKind, n.text, UrlText(n.url))
    case Some(Link) => Syntax(LinkKind, n.text, UrlText(n.url))
    case _ => n.text
  }

  function MarkupAll(ns: seq<TextNode>): string
  {
    if |ns| == 0 then "" else Markup(ns[0]) + MarkupAll(ns[1..])
  }

  lemma {:induction false} MarkupAllAppend(a: seq<TextNode>, b: seq<TextNode>)
    ensures MarkupAll(a + b) == MarkupAll(a) + MarkupAll(b)
    decreases |a|
  {
    if |a| > 0 {
      assert (a + b)[1..] == a[1..] + b;
      MarkupAllAppend(a[1..], b);
      Regroup(Markup(a[0]), MarkupAll(a[1..]), MarkupAll(b));
    } else {
      assert a + b == b;
    }
  }

  lemma Regroup(x: string, y: string, z: string)
    ensures x + (y + z) == x + y + z
  {
  }

  /** A delimited span is its text between two copies of its delimiter, and a
      bracketed span is its syntax. */
  lemma MarkupOfSpan(n: TextNode)
    ensures n.textType.Some? && Delimited(n.textType.value)
            ==> Markup(n) == DelimiterFor(n.textType.value) + n.text + DelimiterFor(n.textType.value)
    ensures n.textType == Some(Image) && n.url.Some? ==> Markup(n) == Syntax(ImageKind, n.text, n.url.value)
    ensures n.textType == Some(Link) && n.url.Some? ==> Markup(n) == Syntax(LinkKind, n.text, n.url.value)
    ensures IsPlain(n) ==> Markup(n) == n.text
  {
  }

  // ---------------------------------------------------------------------
  // The loop shared by every splitting stage

  /** `for node in old_nodes: new_nodes.extend(<the node's pieces>)`, where
      computing a node's pieces may raise: the first failure in list order,
      or all the pieces in order. */
  function FlatMapNodes(ns: seq<TextNode>, f: TextNode -> Result<seq<TextNode>>): Result<seq<TextNode>>
  {
    if |ns| == 0 then Ok([])
    else
      var front :- FlatMapNodes(ns[..|ns| - 1], f);
      var last :- f(ns[|ns| - 1]);
      Ok(front + last)
  }

  /** The stage succeeds exactly when every node's pieces can be computed. */
  lemma {:induction false} FlatMapOk(ns: seq<TextNode>, f: TextNode -> Result<seq<TextNode>>)
    ensures FlatMapNodes(ns, f).Ok? <==> forall i :: 0 <= i < |ns| ==> f(ns[i]).Ok?
    decreases |ns|
  {
    if |ns| > 0 {
      var k := |ns| - 1;
      FlatMapOk(ns[..k], f);
      assert forall i :: 0 <= i < k ==> ns[..k][i] == ns[i];
    }
  }

  /** One more node: the loop's step. */
  lemma FlatMapStep(ns: seq<TextNode>, f: TextNode -> Result<seq<TextNode>>, i: nat)
    requires i < |ns|
    ensures FlatMapNodes(ns[..i + 1], f) ==
      match FlatMapNodes(ns[..i], f)
      case Err(e) => Err(e)
      case Ok(x) =>
        match f(ns[i])
        case Err(e) => Err(e)
        case Ok(y) => Ok(x + y)
  {
    assert ns[..i + 1][..i] == ns[..i];
  }

  /** Once a prefix of the nodes fails, the whole list fails the same way. */
  lemma {:induction false} FlatMapFirstError(ns: seq<TextNode>, f: TextNode -> Result<seq<TextNode>>, k: nat)
    requires k <= |ns| && FlatMapNodes(ns[..k], f).Err?
    ensures FlatMapNodes(ns, f) == FlatMapNodes(ns[..k], f)
    decreases |ns| - k
  {
    if k < |ns| {
      assert ns[..k + 1][..k] == ns[..k];
      FlatMapFirstError(ns, f, k + 1);
    } else {
      assert ns[..k] == ns;
    }
  }

  /** The stage works node by node: a list splits as its two halves do. */
  lemma {:induction false} FlatMapAppend(a: seq<TextNode>, b: seq<TextNode>, f: TextNode -> Result<seq<TextNode>>)
    ensures FlatMapNodes(a + b, f) ==
      match FlatMapNodes(a, f)
      case Err(e) => Err(e)
      case Ok(x) =>
        match FlatMapNodes(b, f)
        case Err(e) => Err(e)
        case Ok(y) => Ok(x + y)
    decreases |b|
  {
    if |b| == 0 {
      assert a + b == a;
      if FlatMapNodes(a, f).Ok? {
        assert FlatMapNodes(a, f).value + [] == FlatMapNodes(a, f).value;
      }
    } else {
      var b' := b[..|b| - 1];
      assert (a + b)[..|a + b| - 1] == a + b';
      assert (a + b)[|a + b| - 1] == b[|b| - 1];
      FlatMapAppend(a, b', f);
      if FlatMapNodes(a, f).Ok? && FlatMapNodes(b', f).Ok? && f(b[|b| - 1]).Ok? {
        var x, y, z := FlatMapNodes(a, f).value, FlatMapNodes(b', f).value, f(b[|b| - 1]).value;
        assert x + y + z == x + (y + z);
      }
    }
  }

  lemma FlatMapSingle(n: TextNode, f: TextNode -> Result<seq<TextNode>>)
    ensures FlatMapNodes([n], f) == f(n)
  {
    assert [n][..0] == [];
    if f(n).Ok? {
      assert [] + f(n).value == f(n).value;
    }
  }

  /** If every node's pieces spell the node's own Markdown, the whole stage
      leaves the Markdown of the list unchanged. */
  lemma {:induction false} FlatMapKeepsMarkup(ns: seq<TextNode>, f: TextNode -> Result<seq<TextNode>>)
    requires forall i :: 0 <= i < |ns| ==> f(ns[i]).Ok? ==> MarkupAll(f(ns[i]).value) == Markup(ns[i])
    requires FlatMapNodes(ns, f).Ok?
    ensures MarkupAll(FlatMapNodes(ns, f).value) == MarkupAll(ns)
    decreases |ns|
  {
    if |ns| > 0 {
      var k := |ns| - 1;
      forall i | 0 <= i < k ensures f(ns[..k][i]).Ok? ==> MarkupAll(f(ns[..k][i]).value) == Markup(ns[..k][i]) {
        assert ns[..k][i] == ns[i];
      }
      FlatMapKeepsMarkup(ns[..k], f);
      MarkupAllAppend(FlatMapNodes(ns[..k], f).value, f(ns[k]).value);
      assert ns == ns[..k] + [ns[k]];
      MarkupAllAppend(ns[..k], [ns[k]]);
    }
  }

  /** If every node's pieces all have a type, so does the whole output. */
  lemma {:induction false} FlatMapKeepsTyped(ns: seq<TextNode>, f: TextNode -> Result<seq<TextNode>>)
    requires forall i :: 0 <= i < |ns| ==> f(ns[i]).Ok? ==> forall m :: m in f(ns[i]).value ==> m.textType.Some?
    requires FlatMapNodes(ns, f).Ok?
    ensures forall m :: m in FlatMapNodes(ns, f).value ==> m.textType.Some?
    decreases |ns|
  {
    if |ns| > 0 {
      var k := |ns| - 1;
      forall i | 0 <= i < k
        ensures f(ns[..k][i]).Ok? ==> forall m :: m in f(ns[..k][i]).value ==> m.textType.Some?
      {
        assert ns[..k][i] == ns[i];
      }
      FlatMapKeepsTyped(ns[..k], f);
      assert f(ns[k]).Ok?;
    }
  }
}
