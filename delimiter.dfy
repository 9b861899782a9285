/** `split_nodes_delimiter` of src/textnode.py: every PLAIN node is cut at
    the first two occurrences of a delimiter into a PLAIN piece, a typed
    piece and a PLAIN rest that is cut again in the same way. */
module DelimiterSplit {
  import opened Results
  import opened PyStrings
  import opened TextNodes

  /** What becomes of the text of one PLAIN node: `text.split(d, maxsplit=2)`
      gives one piece (no delimiter), two (a delimiter without its partner,
      which raises) or three (text, span, rest). */
  function SplitText(text: string, d: string, tt: TextType): Result<seq<TextNode>>
    requires |d| > 0
    decreases |text|
  {
    var parts := SplitN(text, d, 2);
    if |parts| == 1 then Ok([PlainNode(text)])
    else if |parts| == 2 then Err(OddDelimiters)
    else
      SplitThreeShorter(text, d);
      var first :- SplitText(parts[0], d, tt);
      var third :- SplitText(parts[2], d, tt);
      Ok(first + [TypedNode(parts[1], tt)] + third)
  }

  /** The pieces of one node of the input list: only PLAIN nodes are split,
      and `str.split` rejects an empty separator. */
  function SplitNode(n: TextNode, d: string, tt: TextType): Result<seq<TextNode>>
  {
    if !IsPlain(n) then Ok([n])
    else if d == "" then Err(EmptySeparator)
    else SplitText(n.text, d, tt)
  }

  function Stage(d: string, tt: TextType): TextNode -> Result<seq<TextNode>>
  {
    n => SplitNode(n, d, tt)
  }

  /** What `split_nodes_delimiter(old_nodes, d, tt)` returns or raises. */
  function SplitDelimiterAll(ns: seq<TextNode>, d: string, tt: TextType): Result<seq<TextNode>>
  {
    FlatMapNodes(ns, Stage(d, tt))
  }

  /** The total length of the nodes' texts, which bounds the recursion. */
  function TotalLength(ns: seq<TextNode>): nat
  {
    if |ns| == 0 then 0 else |ns[0].text| + TotalLength(ns[1..])
  }

  lemma {:induction false} TextWithinTotal(ns: seq<TextNode>, i: nat)
    requires i < |ns|
    ensures |ns[i].text| <= TotalLength(ns)
    decreases i
  {
    if i > 0 {
      TextWithinTotal(ns[1..], i - 1);
    }
  }

  /** `split_nodes_delimiter`: appends each node's pieces to `new_nodes`,
      recursing on the text before and after each delimited span. */
  method SplitNodesDelimiter(oldNodes: seq<TextNode>, d: string, tt: TextType) returns (r: Result<seq<TextNode>>)
    ensures r == SplitDelimiterAll(oldNodes, d, tt)
    decreases TotalLength(oldNodes)
  {
    var newNodes: seq<TextNode> := [];
    for i := 0 to |oldNodes|
      invariant SplitDelimiterAll(oldNodes[..i], d, tt) == Ok(newNodes)
    {
      var node := oldNodes[i];
      FlatMapStep(oldNodes, Stage(d, tt), i);
      var pieces: seq<TextNode>;
      if node.textType == Some(Plain) {
        if d == "" {
          FlatMapFirstError(oldNodes, Stage(d, tt), i + 1);
          return Err(EmptySeparator);
        }
        var substrings := SplitN(node.text, d, 2);
        if |substrings| == 1 {
          pieces := [PlainNode(node.text)];
        } else if |substrings| == 2 {
          FlatMapFirstError(oldNodes, Stage(d, tt), i + 1);
          return Err(OddDelimiters);
        } else {
          TextWithinTotal(oldNodes, i);
          SplitThreeShorter(node.text, d);
          SplitTextUnfold(node.text, d, tt);
          var firstNode := PlainNode(substrings[0]);
          TotalLengthSingle(firstNode);
          FlatMapSingle(firstNode, Stage(d, tt));
          var first := SplitNodesDelimiter([firstNode], d, tt);
          if first.Err? {
            FlatMapFirstError(oldNodes, Stage(d, tt), i + 1);
            return Err(first.error);
          }
          pieces := first.value;
          pieces := pieces + [TypedNode(substrings[1], tt)];
          var thirdNode := PlainNode(substrings[2]);
          TotalLengthSingle(thirdNode);
          FlatMapSingle(thirdNode, Stage(d, tt));
          var third := SplitNodesDelimiter([thirdNode], d, tt);
          if third.Err? {
            FlatMapFirstError(oldNodes, Stage(d, tt), i + 1);
            return Err(third.error);
          }
          pieces := pieces + third.value;
        }
      } else {
        pieces := [node];
      }
      assert Stage(d, tt)(node) == Ok(pieces);
      newNodes := newNodes + pieces;
    }
    assert oldNodes[..|oldNodes|] == oldNodes;
    return Ok(newNodes);
  }

  // ---------------------------------------------------------------------
  // One node

  lemma TotalLengthSingle(n: TextNode)
    ensures TotalLength([n]) == |n.text|
  {
    assert [n][1..] == [];
  }

  /** `SplitText` on a text holding at least two delimiters, one step unfolded. */
  lemma SplitTextUnfold(text: string, d: string, tt: TextType)
    requires |d| > 0 && |SplitN(text, d, 2)| == 3
    ensures var r := SplitN(text, d, 2);
      SplitText(text, d, tt) ==
        match SplitText(r[0], d, tt)
        case Err(e) => Err(e)
        case Ok(first) =>
          match SplitText(r[2], d, tt)
          case Err(e) => Err(e)
          case Ok(third) => Ok(first + [TypedNode(r[1], tt)] + third)
  {
  }

  /** The text before the first delimiter stays whole, so a text with two
      delimiters splits as its rest does, behind a PLAIN and a typed piece. */
  lemma SplitTextStep(text: string, d: string, tt: TextType)
    requires |d| > 0 && |SplitN(text, d, 2)| == 3
    ensures var r := SplitN(text, d, 2);
      && |r[2]| < |text|
      && SplitText(text, d, tt) ==
        match SplitText(r[2], d, tt)
        case Err(e) => Err(e)
        case Ok(third) => Ok([PlainNode(r[0]), TypedNode(r[1], tt)] + third)
  {
    var r := SplitN(text, d, 2);
    SplitThreeShorter(text, d);
    SplitTwoFacts(text, d);
    SplitTwoFacts(r[0], d);
    SplitTextUnfold(text, d, tt);
    if SplitText(r[2], d, tt).Ok? {
      var third := SplitText(r[2], d, tt).value;
      assert [PlainNode(r[0])] + [TypedNode(r[1], tt)] + third == [PlainNode(r[0]), TypedNode(r[1], tt)] + third;
    }
  }

  /** The facts about `split(d, maxsplit=2)` the splitter relies on. */
  lemma SplitTwoFacts(text: string, d: string)
    requires |d| > 0
    ensures var r := SplitN(text, d, 2);
      && (Count(text, d) == 0 <==> !Contains(text, d))
      && (|r| == 1 ==> r == [text] && Count(text, d) == 0)
      && (|r| == 2 ==> Count(text, d) == 1)
      && (|r| == 3 ==> Count(text, d) == 2 + Count(r[2], d) && !Contains(r[0], d) && !Contains(r[1], d))
  {
    var r := SplitN(text, d, 2);
    CountZero(text, d);
    SplitNCount(text, d, 2);
    SplitNPieces(text, d, 2);
    if |r| == 1 {
      JoinSplitN(text, d, 2);
    } else if |r| == 2 {
      CountZero(r[1], d);
    }
  }

  /** A text without the delimiter is one PLAIN node, and only such a text. */
  lemma SplitTextUntouched(text: string, d: string, tt: TextType)
    requires |d| > 0
    ensures SplitText(text, d, tt) == Ok([PlainNode(text)]) <==> !Contains(text, d)
  {
    SplitTwoFacts(text, d);
    if SplitText(text, d, tt) == Ok([PlainNode(text)]) {
      SplitTextShape(text, d, tt);
    }
  }

  /** Splitting fails exactly when the delimiter occurs an odd number of times. */
  lemma {:induction false} SplitTextOkIff(text: string, d: string, tt: TextType)
    requires |d| > 0
    ensures SplitText(text, d, tt).Ok? <==> Count(text, d) % 2 == 0
    decreases |text|
  {
    var r := SplitN(text, d, 2);
    if |r| == 3 {
      SplitTextOkStep(text, d, tt);
      SplitTextOkIff(r[2], d, tt);
    } else {
      SplitTextShortOk(text, d, tt);
    }
  }

  /** A text with two delimiters splits exactly when its rest does, and
      holds as many delimiters as its rest up to parity. */
  lemma SplitTextOkStep(text: string, d: string, tt: TextType)
    requires |d| > 0 && |SplitN(text, d, 2)| == 3
    ensures var r := SplitN(text, d, 2);
      && |r[2]| < |text|
      && (SplitText(text, d, tt).Ok? <==> SplitText(r[2], d, tt).Ok?)
      && (Count(text, d) % 2 == 0 <==> Count(r[2], d) % 2 == 0)
  {
    SplitTextStep(text, d, tt);
    SplitTwoFacts(text, d);
  }

  /** A text with at most one delimiter splits exactly when it has none. */
  lemma SplitTextShortOk(text: string, d: string, tt: TextType)
    requires |d| > 0 && |SplitN(text, d, 2)| < 3
    ensures SplitText(text, d, tt).Ok? <==> Count(text, d) % 2 == 0
  {
    SplitTwoFacts(text, d);
  }

  /** The pieces alternate PLAIN, typed, PLAIN, ..., PLAIN, with no url. */
  predicate Alternating(ns: seq<TextNode>, tt: TextType)
  {
    && |ns| >= 1
    && ns[0] == PlainNode(ns[0].text)
    && (|ns| > 1 ==> |ns| >= 3 && ns[1] == TypedNode(ns[1].text, tt) && Alternating(ns[2..], tt))
  }

  lemma Parity(i: nat)
    requires i >= 2
    ensures (i - 2) % 2 == i % 2
  {
  }

  /** Alternation, position by position: PLAIN pieces at even positions,
      typed pieces at odd ones, and an odd number of pieces. */
  lemma {:induction false} AlternatingPositions(ns: seq<TextNode>, tt: TextType)
    requires Alternating(ns, tt)
    ensures |ns| % 2 == 1
    ensures forall i :: 0 <= i < |ns| ==> ns[i] == TextNode(ns[i].text, Some(if i % 2 == 0 then Plain else tt), None)
    decreases |ns|
  {
    if |ns| > 1 {
      var rest := ns[2..];
      AlternatingPositions(rest, tt);
      forall i | 2 <= i < |ns|
        ensures ns[i] == TextNode(ns[i].text, Some(if i % 2 == 0 then Plain else tt), None)
      {
        assert ns[i] == rest[i - 2];
        Parity(i);
      }
    }
  }

  /** The pieces put back together, each typed piece between two delimiters. */
  function Rejoin(ns: seq<TextNode>, d: string): string
  {
    if |ns| == 0 then ""
    else if |ns| == 1 then ns[0].text
    else ns[0].text + d + ns[1].text + d + Rejoin(ns[2..], d)
  }

  /** A successful split of a text with 2k delimiters gives 2k+1 pieces
      alternating PLAIN and typed. */
  lemma {:induction false} SplitTextShape(text: string, d: string, tt: TextType)
    requires |d| > 0 && SplitText(text, d, tt).Ok?
    ensures var ns := SplitText(text, d, tt).value;
      |ns| == Count(text, d) + 1 && Alternating(ns, tt)
    decreases |text|
  {
    var r := SplitN(text, d, 2);
    SplitTwoFacts(text, d);
    if |r| == 3 {
      SplitTextStep(text, d, tt);
      SplitTextShape(r[2], d, tt);
      var third := SplitText(r[2], d, tt).value;
      var ns := SplitText(text, d, tt).value;
      assert ns[2..] == third;
    }
  }

  /** No piece of a successful split contains the delimiter. */
  lemma {:induction false} SplitTextPieces(text: string, d: string, tt: TextType)
    requires |d| > 0 && SplitText(text, d, tt).Ok?
    ensures var ns := SplitText(text, d, tt).value;
      forall i :: 0 <= i < |ns| ==> !Contains(ns[i].text, d)
    decreases |text|
  {
    var r := SplitN(text, d, 2);
    SplitTwoFacts(text, d);
    if |r| == 3 {
      SplitTextStep(text, d, tt);
      SplitTextPieces(r[2], d, tt);
      var third := SplitText(r[2], d, tt).value;
      var ns := SplitText(text, d, tt).value;
      forall i | 2 <= i < |ns| ensures !Contains(ns[i].text, d) {
        assert ns[i] == third[i - 2];
      }
    }
  }

  /** Putting the delimiters back around the typed pieces gives the text. */
  lemma {:induction false} SplitTextRejoin(text: string, d: string, tt: TextType)
    requires |d| > 0 && SplitText(text, d, tt).Ok?
    ensures Rejoin(SplitText(text, d, tt).value, d) == text
    decreases |text|
  {
    var r := SplitN(text, d, 2);
    SplitTwoFacts(text, d);
    if |r| == 3 {
      SplitTextStep(text, d, tt);
      SplitThreeShorter(text, d);
      SplitTextRejoin(r[2], d, tt);
      SplitTextShape(r[2], d, tt);
      var third := SplitText(r[2], d, tt).value;
      var ns := SplitText(text, d, tt).value;
      assert ns[2..] == third;
    }
  }

  // ---------------------------------------------------------------------
  // A list of nodes

  /** With a non-empty delimiter the stage fails exactly when some PLAIN
      node holds an odd number of delimiters. */
  lemma SplitDelimiterAllOkIff(ns: seq<TextNode>, d: string, tt: TextType)
    requires |d| > 0
    ensures SplitDelimiterAll(ns, d, tt).Ok?
            <==> forall i :: 0 <= i < |ns| && IsPlain(ns[i]) ==> Count(ns[i].text, d) % 2 == 0
  {
    FlatMapOk(ns, Stage(d, tt));
    forall i | 0 <= i < |ns| ensures Stage(d, tt)(ns[i]).Ok? <==> (IsPlain(ns[i]) ==> Count(ns[i].text, d) % 2 == 0) {
      SplitTextOkIff(ns[i].text, d, tt);
    }
  }

  /** An empty delimiter is rejected as soon as there is a PLAIN node to split. */
  lemma EmptyDelimiter(ns: seq<TextNode>, tt: TextType)
    ensures SplitDelimiterAll(ns, "", tt).Ok? <==> forall i :: 0 <= i < |ns| ==> !IsPlain(ns[i])
    ensures SplitDelimiterAll(ns, "", tt).Err? ==> SplitDelimiterAll(ns, "", tt).error == EmptySeparator
  {
    FlatMapOk(ns, Stage("", tt));
    FlatMapErrors(ns, "", tt);
  }

  /** Every failure of the stage is one of the two the splitter raises. */
  lemma {:induction false} FlatMapErrors(ns: seq<TextNode>, d: string, tt: TextType)
    ensures var r := SplitDelimiterAll(ns, d, tt);
      r.Err? ==> r.error == (if d == "" then EmptySeparator else OddDelimiters)
    decreases |ns|
  {
    if |ns| > 0 {
      FlatMapErrors(ns[..|ns| - 1], d, tt);
      var n := ns[|ns| - 1];
      if IsPlain(n) && d != "" {
        SplitTextErrors(n.text, d, tt);
      }
    }
  }

  lemma {:induction false} SplitTextErrors(text: string, d: string, tt: TextType)
    requires |d| > 0
    ensures SplitText(text, d, tt).Err? ==> SplitText(text, d, tt).error == OddDelimiters
    decreases |text|
  {
    var r := SplitN(text, d, 2);
    if |r| == 3 {
      SplitThreeShorter(text, d);
      SplitTextErrors(r[0], d, tt);
      SplitTextErrors(r[2], d, tt);
    }
  }

  /** Nodes that are not PLAIN pass through unchanged and in place. */
  lemma {:induction false} NonPlainPassThrough(ns: seq<TextNode>, d: string, tt: TextType)
    requires forall i :: 0 <= i < |ns| ==> !IsPlain(ns[i])
    ensures SplitDelimiterAll(ns, d, tt) == Ok(ns)
    decreases |ns|
  {
    if |ns| > 0 {
      var k := |ns| - 1;
      NonPlainPassThrough(ns[..k], d, tt);
      assert ns[..k] + [ns[k]] == ns;
    }
  }

  /** Alternating pieces of a delimited type spell out, as Markdown, the text
      with its delimiters put back. */
  lemma {:induction false} MarkupOfAlternating(ns: seq<TextNode>, tt: TextType)
    requires Delimited(tt) && Alternating(ns, tt)
    ensures MarkupAll(ns) == Rejoin(ns, DelimiterFor(tt))
    decreases |ns|
  {
    if |ns| > 1 {
      var d := DelimiterFor(tt);
      MarkupOfAlternating(ns[2..], tt);
      AlternatingHead(ns, tt);
      MarkupOfPair(ns, d, Rejoin(ns[2..], d));
    } else {
      assert MarkupAll(ns) == Markup(ns[0]) + MarkupAll(ns[1..]);
    }
  }

  /** The first two pieces of alternating pieces: PLAIN text, then a span
      between two delimiters. */
  lemma AlternatingHead(ns: seq<TextNode>, tt: TextType)
    requires Delimited(tt) && Alternating(ns, tt) && |ns| > 1
    ensures Markup(ns[0]) == ns[0].text
    ensures Markup(ns[1]) == DelimiterFor(tt) + ns[1].text + DelimiterFor(tt)
  {
    MarkupOfSpan(ns[0]);
    MarkupOfSpan(ns[1]);
  }

  lemma MarkupOfPair(ns: seq<TextNode>, d: string, c: string)
    requires |ns| >= 2 && Markup(ns[0]) == ns[0].text && Markup(ns[1]) == d + ns[1].text + d
    requires MarkupAll(ns[2..]) == c
    ensures MarkupAll(ns) == ns[0].text + d + ns[1].text + d + c
  {
    assert ns[1..][1..] == ns[2..];
    assert MarkupAll(ns[1..]) == Markup(ns[1]) + c;
    assert MarkupAll(ns) == Markup(ns[0]) + MarkupAll(ns[1..]);
    SpanRegroup(ns[0].text, d, ns[1].text, c);
  }

  lemma SpanRegroup(a: string, d: string, t: string, c: string)
    ensures a + (d + t + d + c) == a + d + t + d + c
  {
  }

  /** For bold, italic and code with their own delimiter, the stage leaves the
      Markdown the nodes stand for unchanged. */
  lemma SplitDelimiterKeepsMarkup(ns: seq<TextNode>, tt: TextType)
    requires Delimited(tt) && SplitDelimiterAll(ns, DelimiterFor(tt), tt).Ok?
    ensures MarkupAll(SplitDelimiterAll(ns, DelimiterFor(tt), tt).value) == MarkupAll(ns)
  {
    var d := DelimiterFor(tt);
    forall i | 0 <= i < |ns|
      ensures Stage(d, tt)(ns[i]).Ok? ==> MarkupAll(Stage(d, tt)(ns[i]).value) == Markup(ns[i])
    {
      var n := ns[i];
      if IsPlain(n) && SplitText(n.text, d, tt).Ok? {
        SplitTextShape(n.text, d, tt);
        SplitTextRejoin(n.text, d, tt);
        MarkupOfAlternating(SplitText(n.text, d, tt).value, tt);
      } else if !IsPlain(n) {
        assert MarkupAll([n]) == Markup(n) + MarkupAll([]);
      }
    }
    FlatMapKeepsMarkup(ns, Stage(d, tt));
  }
}
