/** `convert_line_to_textnodes` of src/textnode.py: one PLAIN node holding the
    line goes through five splitting stages in a fixed order (bold, italic,
    code, image, link), each one leaving the nodes typed by the stages
    before it alone. */
module InlinePipeline {
  import opened Results
  import opened PyStrings
  import opened TextNodes
  import opened DelimiterSplit
  import opened MarkdownLinks
  import opened ImageLinkSplit

  /** What `convert_line_to_textnodes(text)` returns or raises. */
  function ConvertLine(text: string): Result<seq<TextNode>>
  {
    var bold :- SplitDelimiterAll([PlainNode(text)], "**", Bold);
    var italic :- SplitDelimiterAll(bold, "_", Italic);
    var code :- SplitDelimiterAll(italic, "`", Code);
    var image :- SplitKindAll(code, ImageKind);
    SplitKindAll(image, LinkKind)
  }

  /** The five calls, each stage fed with the previous one's list. */
  method ConvertLineToTextNodes(text: string) returns (r: Result<seq<TextNode>>)
    ensures r == ConvertLine(text)
  {
    var boldStage := SplitNodesDelimiter([PlainNode(text)], "**", Bold);
    if boldStage.Err? {
      return Err(boldStage.error);
    }
    var italicStage := SplitNodesDelimiter(boldStage.value, "_", Italic);
    if italicStage.Err? {
      return Err(italicStage.error);
    }
    var codeStage := SplitNodesDelimiter(italicStage.value, "`", Code);
    if codeStage.Err? {
      return Err(codeStage.error);
    }
    var imageStage := SplitNodesImage(codeStage.value);
    if imageStage.Err? {
      return Err(imageStage.error);
    }
    r := SplitNodesLink(imageStage.value);
  }

  /** The intermediate lists of a successful conversion. */
  lemma Stages(text: string) returns (bold: seq<TextNode>, italic: seq<TextNode>, code: seq<TextNode>, image: seq<TextNode>)
    requires ConvertLine(text).Ok?
    ensures SplitDelimiterAll([PlainNode(text)], "**", Bold) == Ok(bold)
    ensures SplitDelimiterAll(bold, "_", Italic) == Ok(italic)
    ensures SplitDelimiterAll(italic, "`", Code) == Ok(code)
    ensures SplitKindAll(code, ImageKind) == Ok(image)
    ensures ConvertLine(text) == SplitKindAll(image, LinkKind)
  {
    bold := SplitDelimiterAll([PlainNode(text)], "**", Bold).value;
    italic := SplitDelimiterAll(bold, "_", Italic).value;
    code := SplitDelimiterAll(italic, "`", Code).value;
    image := SplitKindAll(code, ImageKind).value;
  }

  // ---------------------------------------------------------------------
  // The conversion keeps the line

  lemma MarkupOfPlainText(text: string)
    ensures MarkupAll([PlainNode(text)]) == text
  {
    assert MarkupAll([PlainNode(text)]) == Markup(PlainNode(text)) + MarkupAll([]);
  }

  /** A successful conversion loses nothing: the nodes, written back as
      Markdown, spell the line. */
  lemma ConvertLineMarkup(text: string)
    requires ConvertLine(text).Ok?
    ensures MarkupAll(ConvertLine(text).value) == text
  {
    var bold, italic, code, image := Stages(text);
    MarkupOfPlainText(text);
    DelimiterStagesMarkup([PlainNode(text)], bold, italic, code, "**", "_", "`");
    KindStagesMarkup(code, image);
  }

  /** The bold, italic and code stages keep the line. */
  lemma DelimiterStagesMarkup(ns: seq<TextNode>, bold: seq<TextNode>, italic: seq<TextNode>, code: seq<TextNode>,
                              b: string, i: string, c: string)
    requires b == DelimiterFor(Bold) && i == DelimiterFor(Italic) && c == DelimiterFor(Code)
    requires SplitDelimiterAll(ns, b, Bold) == Ok(bold)
    requires SplitDelimiterAll(bold, i, Italic) == Ok(italic)
    requires SplitDelimiterAll(italic, c, Code) == Ok(code)
    ensures MarkupAll(code) == MarkupAll(ns)
  {
    DelimiterStageMarkup(ns, bold, b, Bold);
    DelimiterStageMarkup(bold, italic, i, Italic);
    DelimiterStageMarkup(italic, code, c, Code);
  }

  lemma DelimiterStageMarkup(ns: seq<TextNode>, ms: seq<TextNode>, d: string, tt: TextType)
    requires Delimited(tt) && d == DelimiterFor(tt) && SplitDelimiterAll(ns, d, tt) == Ok(ms)
    ensures MarkupAll(ms) == MarkupAll(ns)
  {
    SplitDelimiterKeepsMarkup(ns, tt);
  }

  /** The image and link stages keep the line. */
  lemma KindStagesMarkup(code: seq<TextNode>, image: seq<TextNode>)
    requires SplitKindAll(code, ImageKind) == Ok(image)
    ensures SplitKindAll(image, LinkKind).Ok?
    ensures MarkupAll(SplitKindAll(image, LinkKind).value) == MarkupAll(code)
  {
    SplitKindAllKeepsMarkup(code, ImageKind);
    SplitKindAllKeepsMarkup(image, LinkKind);
  }

  // ---------------------------------------------------------------------
  // Every node comes out typed

  /** A delimiter stage gives every piece a type. */
  lemma DelimiterStageTyped(ns: seq<TextNode>, d: string, tt: TextType)
    requires forall i :: 0 <= i < |ns| ==> ns[i].textType.Some?
    requires SplitDelimiterAll(ns, d, tt).Ok?
    ensures forall m :: m in SplitDelimiterAll(ns, d, tt).value ==> m.textType.Some?
  {
    forall i | 0 <= i < |ns|
      ensures Stage(d, tt)(ns[i]).Ok? ==> forall m :: m in Stage(d, tt)(ns[i]).value ==> m.textType.Some?
    {
      if IsPlain(ns[i]) && d != "" && Stage(d, tt)(ns[i]).Ok? {
        SplitTextTyped(ns[i].text, d, tt);
      }
    }
    FlatMapKeepsTyped(ns, Stage(d, tt));
  }

  lemma SplitTextTyped(text: string, d: string, tt: TextType)
    requires |d| > 0 && SplitText(text, d, tt).Ok?
    ensures forall m :: m in SplitText(text, d, tt).value ==> m.textType.Some?
  {
    var ns := SplitText(text, d, tt).value;
    SplitTextShape(text, d, tt);
    AlternatingPositions(ns, tt);
    forall m | m in ns ensures m.textType.Some? {
      var i :| 0 <= i < |ns| && ns[i] == m;
    }
  }

  lemma AllTyped(ns: seq<TextNode>)
    requires forall m :: m in ns ==> m.textType.Some?
    ensures forall i :: 0 <= i < |ns| ==> ns[i].textType.Some?
  {
    forall i | 0 <= i < |ns| ensures ns[i].textType.Some? {
      assert ns[i] in ns;
    }
  }

  /** Every node the conversion returns has a type, so each one converts to
      an HTML leaf without raising. */
  lemma ConvertLineTyped(text: string)
    requires ConvertLine(text).Ok?
    ensures forall m :: m in ConvertLine(text).value ==> m.textType.Some? && TextNodeToHtmlNode(m).Ok?
  {
    var bold, italic, code, image := Stages(text);
    DelimiterStageTyped([PlainNode(text)], "**", Bold);
    AllTyped(bold);
    DelimiterStageTyped(bold, "_", Italic);
    AllTyped(italic);
    DelimiterStageTyped(italic, "`", Code);
    AllTyped(code);
    SplitKindAllTyped(code, ImageKind);
    AllTyped(image);
    SplitKindAllTyped(image, LinkKind);
  }

  // ---------------------------------------------------------------------
  // How the conversion fails

  /** Only an unpaired `**`, `_` or backquote makes the conversion fail; the
      image and link stages never raise. */
  lemma ConvertLineErrors(text: string)
    ensures ConvertLine(text).Err? ==> ConvertLine(text).error == OddDelimiters
  {
    FlatMapErrors([PlainNode(text)], "**", Bold);
    var bold := SplitDelimiterAll([PlainNode(text)], "**", Bold);
    if bold.Ok? {
      FlatMapErrors(bold.value, "_", Italic);
      var italic := SplitDelimiterAll(bold.value, "_", Italic);
      if italic.Ok? {
        FlatMapErrors(italic.value, "`", Code);
        var code := SplitDelimiterAll(italic.value, "`", Code);
        if code.Ok? {
          SplitKindAllOk(code.value, ImageKind);
          SplitKindAllOk(SplitKindAll(code.value, ImageKind).value, LinkKind);
        }
      }
    }
  }

  /** An odd number of `**` in the line makes the conversion fail. */
  lemma OddBold(text: string)
    requires Count(text, "**") % 2 == 1
    ensures ConvertLine(text) == Err(OddDelimiters)
  {
    SplitDelimiterAllOkIff([PlainNode(text)], "**", Bold);
    FlatMapErrors([PlainNode(text)], "**", Bold);
  }

  /** The bold stage leaves a line without `**` as it is. */
  lemma NoBold(text: string)
    requires !Contains(text, "**")
    ensures SplitDelimiterAll([PlainNode(text)], "**", Bold) == Ok([PlainNode(text)])
  {
    SplitTextUntouched(text, "**", Bold);
    FlatMapSingle(PlainNode(text), Stage("**", Bold));
  }

  /** In a line without `**`, an odd number of `_` anywhere, even inside a
      link's url, makes the whole conversion fail. */
  lemma OddUnderscore(text: string)
    requires !Contains(text, "**") && Count(text, "_") % 2 == 1
    ensures ConvertLine(text) == Err(OddDelimiters)
  {
    NoBold(text);
    SplitDelimiterAllOkIff([PlainNode(text)], "_", Italic);
    FlatMapErrors([PlainNode(text)], "_", Italic);
  }

  /** A character of `d` that `s` lacks keeps `d` out of `s`. */
  lemma MissingChar(s: string, d: string, k: nat)
    requires k < |d| && d[k] !in s
    ensures !Contains(s, d)
  {
    forall j | 0 <= j <= |s| ensures !OccursAt(s, d, j) {
      if j + |d| <= |s| {
        assert s[j..j + |d|][k] == s[j + k];
      }
    }
  }

  /** A link whose url is written in snake case. */
  const SnakeLink := "[docs](my_page)"

  lemma SnakeLinkUnderscores()
    ensures Count(SnakeLink, "_") == 1
  {
    var rest := "page)";
    FindChar(SnakeLink, '_', 9);
    assert SnakeLink[10..] == rest;
    NoCharNoOccurrence(rest, '_');
    CountZero(rest, "_");
  }

  /** `find` of a one-character string: the first index holding that character. */
  lemma FindChar(s: string, c: char, i: nat)
    requires i < |s| && s[i] == c
    requires forall j :: 0 <= j < i ==> s[j] != c
    ensures Find(s, [c]) == Some(i)
  {
    FindFirst(s, [c]);
    assert OccursAt(s, [c], i) by {
      assert s[i..i + 1] == [s[i]];
    }
    var r := Find(s, [c]).value;
    assert s[r..r + 1] == [c];
    assert s[r] == c;
  }

  /** The `_` inside the url of `[docs](my_page)` is taken for an unpaired
      italic delimiter, so the line does not convert. */
  lemma SnakeLinkFails()
    ensures ConvertLine(SnakeLink) == Err(OddDelimiters)
  {
    SnakeLinkNoBold();
    SnakeLinkUnderscores();
    OddUnderscore(SnakeLink);
  }

  lemma SnakeLinkNoBold()
    ensures !Contains(SnakeLink, "**")
  {
    assert '*' !in SnakeLink;
    MissingChar(SnakeLink, "**", 0);
  }

  // ---------------------------------------------------------------------
  // Small lines

  /** An empty line converts to no nodes at all: the empty PLAIN node
      survives the delimiter stages and disappears at the image stage. */
  lemma EmptyLine()
    ensures ConvertLine("") == Ok([])
  {
    var n := PlainNode("");
    assert SplitN("", "**", 2) == [""];
    assert SplitN("", "_", 2) == [""];
    assert SplitN("", "`", 2) == [""];
    FlatMapSingle(n, Stage("**", Bold));
    FlatMapSingle(n, Stage("_", Italic));
    FlatMapSingle(n, Stage("`", Code));
    assert Scan("", 0, ImageKind) == [];
    FlatMapSingle(n, KindStage(ImageKind));
    assert FlatMapNodes([], KindStage(LinkKind)) == Ok([]);
  }

  /** Text with no delimiter, image or link converts to one PLAIN node. */
  lemma PlainLine(text: string)
    requires text != ""
    requires !Contains(text, "**") && !Contains(text, "_") && !Contains(text, "`")
    requires Extract(text, ImageKind) == [] && Extract(text, LinkKind) == []
    ensures ConvertLine(text) == Ok([PlainNode(text)])
  {
    var n := PlainNode(text);
    NoBold(text);
    SplitTextUntouched(text, "_", Italic);
    FlatMapSingle(n, Stage("_", Italic));
    SplitTextUntouched(text, "`", Code);
    FlatMapSingle(n, Stage("`", Code));
    NoCaptures(n, ImageKind);
    FlatMapSingle(n, KindStage(ImageKind));
    NoCaptures(n, LinkKind);
    FlatMapSingle(n, KindStage(LinkKind));
  }

  // ---------------------------------------------------------------------
  // Typed nodes are never split again

  /** A node that a stage maps to itself keeps its place: the output is the
      stage's output on the nodes before it, the node, and the stage's output
      on the nodes after it. */
  lemma KeptInPlace(ns: seq<TextNode>, f: TextNode -> Result<seq<TextNode>>, i: nat)
    requires i < |ns| && f(ns[i]) == Ok([ns[i]]) && FlatMapNodes(ns, f).Ok?
    ensures FlatMapNodes(ns[..i], f).Ok? && FlatMapNodes(ns[i + 1..], f).Ok?
    ensures FlatMapNodes(ns, f).value == FlatMapNodes(ns[..i], f).value + [ns[i]] + FlatMapNodes(ns[i + 1..], f).value
  {
    var front := ns[..i + 1];
    assert ns == front + ns[i + 1..];
    FlatMapAppend(front, ns[i + 1..], f);
    FlatMapStep(ns, f, i);
  }

  /** Every stage of the pipeline keeps a node that is not PLAIN where it is. */
  lemma StagesKeepTyped(ns: seq<TextNode>, i: nat)
    requires i < |ns| && !IsPlain(ns[i])
    ensures Stage("**", Bold)(ns[i]) == Ok([ns[i]])
    ensures Stage("_", Italic)(ns[i]) == Ok([ns[i]])
    ensures Stage("`", Code)(ns[i]) == Ok([ns[i]])
    ensures KindStage(ImageKind)(ns[i]) == Ok([ns[i]])
    ensures KindStage(LinkKind)(ns[i]) == Ok([ns[i]])
  {
  }
}
