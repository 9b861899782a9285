/** `split_nodes_image` and `split_nodes_link` of src/textnode.py: every PLAIN
    node is cut at the images (links) the extractor reports, in order, each
    cut made with `str.split(delim, maxsplit=1)` on what is left of the text. */
module ImageLinkSplit {
  import opened Results
  import opened PyStrings
  import opened TextNodes
  import opened MarkdownLinks

  /** What the inner loop makes of the text still to be cut, given the
      captures not yet used: before each capture's Markdown a PLAIN piece, then
      the capture's own node; the last remainder only when it is not empty.
      A capture whose Markdown is no longer in the remainder makes
      `substrings[1]` raise. */
  function SplitByCaptures(remainder: string, caps: seq<(string, string)>, kind: Kind): Result<seq<TextNode>>
    decreases |caps|
  {
    if |caps| == 0 then Ok(if remainder != "" then [PlainNode(remainder)] else [])
    else
      var parts := SplitN(remainder, Syntax(kind, caps[0].0, caps[0].1), 1);
      if |parts| < 2 then Err(IndexError)
      else
        var rest :- SplitByCaptures(parts[1], caps[1..], kind);
        Ok([PlainNode(parts[0]), KindNode(kind, caps[0])] + rest)
  }

  /** The pieces of one node of the input list: only PLAIN nodes are cut. */
  function SplitKindNode(n: TextNode, kind: Kind): Result<seq<TextNode>>
  {
    if !IsPlain(n) then Ok([n])
    else SplitByCaptures(n.text, Extract(n.text, kind), kind)
  }

  function KindStage(kind: Kind): TextNode -> Result<seq<TextNode>>
  {
    n => SplitKindNode(n, kind)
  }

  /** What `split_nodes_image(old_nodes)` (`ImageKind`) or
      `split_nodes_link(old_nodes)` (`LinkKind`) returns or raises. */
  function SplitKindAll(ns: seq<TextNode>, kind: Kind): Result<seq<TextNode>>
  {
    FlatMapNodes(ns, KindStage(kind))
  }

  /** Pieces already emitted in front of what is still to come. */
  function Prepend(front: seq<TextNode>, r: Result<seq<TextNode>>): Result<seq<TextNode>>
  {
    match r
    case Err(e) => Err(e)
    case Ok(x) => Ok(front + x)
  }

  /** The loop of `split_nodes_image` / `split_nodes_link`, appending to `new_nodes`. */
  method SplitNodesByKind(oldNodes: seq<TextNode>, kind: Kind) returns (r: Result<seq<TextNode>>)
    ensures r == SplitKindAll(oldNodes, kind)
  {
    var newNodes: seq<TextNode> := [];
    for i := 0 to |oldNodes|
      invariant SplitKindAll(oldNodes[..i], kind) == Ok(newNodes)
    {
      var node := oldNodes[i];
      FlatMapStep(oldNodes, KindStage(kind), i);
      if node.textType != Some(Plain) {
        assert KindStage(kind)(node) == Ok([node]);
        newNodes := newNodes + [node];
      } else {
        var caps := Extract(node.text, kind);
        assert KindStage(kind)(node) == SplitByCaptures(node.text, caps, kind);
        var extended := AppendPieces(newNodes, node.text, caps, kind);
        if extended.Err? {
          FlatMapFirstError(oldNodes, KindStage(kind), i + 1);
          return Err(extended.error);
        }
        newNodes := extended.value;
      }
    }
    assert oldNodes[..|oldNodes|] == oldNodes;
    return Ok(newNodes);
  }

  /** The body of the loop for one PLAIN node: cuts its text at each of the
      extractor's captures in turn, appending the pieces to `newNodes`. */
  method AppendPieces(newNodes: seq<TextNode>, text: string, caps: seq<(string, string)>, kind: Kind)
    returns (r: Result<seq<TextNode>>)
    ensures r == Prepend(newNodes, SplitByCaptures(text, caps, kind))
  {
    var remainder := text;
    var nodes := newNodes;
    assert caps[0..] == caps;
    for j := 0 to |caps|
      invariant Prepend(newNodes, SplitByCaptures(text, caps, kind)) == Prepend(nodes, SplitByCaptures(remainder, caps[j..], kind))
    {
      var delim := Syntax(kind, caps[j].0, caps[j].1);
      var substrings := SplitN(remainder, delim, 1);
      if |substrings| < 2 {
        CapturesMissing(nodes, remainder, caps, kind, j);
        return Err(IndexError);
      }
      CapturesAdvance(nodes, remainder, caps, kind, j, substrings);
      nodes := nodes + [PlainNode(substrings[0])];
      nodes := nodes + [KindNode(kind, caps[j])];
      remainder := substrings[1];
    }
    CapturesFinish(nodes, remainder, caps, kind);
    if remainder != "" {
      nodes := nodes + [PlainNode(remainder)];
    }
    return Ok(nodes);
  }

  method SplitNodesImage(oldNodes: seq<TextNode>) returns (r: Result<seq<TextNode>>)
    ensures r == SplitKindAll(oldNodes, ImageKind)
  {
    r := SplitNodesByKind(oldNodes, ImageKind);
  }

  method SplitNodesLink(oldNodes: seq<TextNode>) returns (r: Result<seq<TextNode>>)
    ensures r == SplitKindAll(oldNodes, LinkKind)
  {
    r := SplitNodesByKind(oldNodes, LinkKind);
  }

  // ---------------------------------------------------------------------
  // The inner loop's steps

  lemma PrependNothing(r: Result<seq<TextNode>>)
    ensures Prepend([], r) == r
  {
    if r.Ok? {
      assert [] + r.value == r.value;
    }
  }

  lemma PrependPrepend(a: seq<TextNode>, b: seq<TextNode>, r: Result<seq<TextNode>>)
    ensures Prepend(a, Prepend(b, r)) == Prepend(a + b, r)
  {
    if r.Ok? {
      assert a + (b + r.value) == a + b + r.value;
    }
  }

  /** One capture used up: its PLAIN piece and its node join the output. */
  lemma CapturesAdvance(nodes: seq<TextNode>, remainder: string, caps: seq<(string, string)>, kind: Kind,
                        j: nat, parts: seq<string>)
    requires j < |caps|
    requires parts == SplitN(remainder, Syntax(kind, caps[j].0, caps[j].1), 1) && |parts| >= 2
    ensures Prepend(nodes, SplitByCaptures(remainder, caps[j..], kind))
            == Prepend(nodes + [PlainNode(parts[0])] + [KindNode(kind, caps[j])], SplitByCaptures(parts[1], caps[j + 1..], kind))
  {
    var pair := [PlainNode(parts[0]), KindNode(kind, caps[j])];
    SplitByCapturesStep(remainder, caps, kind, j, parts);
    PrependPrepend(nodes, pair, SplitByCaptures(parts[1], caps[j + 1..], kind));
    assert nodes + pair == nodes + [PlainNode(parts[0])] + [KindNode(kind, caps[j])];
  }

  lemma SplitByCapturesStep(remainder: string, caps: seq<(string, string)>, kind: Kind, j: nat, parts: seq<string>)
    requires j < |caps|
    requires parts == SplitN(remainder, Syntax(kind, caps[j].0, caps[j].1), 1) && |parts| >= 2
    ensures SplitByCaptures(remainder, caps[j..], kind)
            == Prepend([PlainNode(parts[0]), KindNode(kind, caps[j])], SplitByCaptures(parts[1], caps[j + 1..], kind))
  {
    assert caps[j..][0] == caps[j];
    assert caps[j..][1..] == caps[j + 1..];
  }

  /** A capture whose Markdown is not in the remainder: `substrings[1]` raises. */
  lemma CapturesMissing(nodes: seq<TextNode>, remainder: string, caps: seq<(string, string)>, kind: Kind, j: nat)
    requires j < |caps|
    requires |SplitN(remainder, Syntax(kind, caps[j].0, caps[j].1), 1)| < 2
    ensures Prepend(nodes, SplitByCaptures(remainder, caps[j..], kind)) == Err(IndexError)
  {
    assert caps[j..][0] == caps[j];
  }

  /** All captures used up: the last remainder is kept unless it is empty. */
  lemma CapturesFinish(nodes: seq<TextNode>, remainder: string, caps: seq<(string, string)>, kind: Kind)
    ensures Prepend(nodes, SplitByCaptures(remainder, caps[|caps|..], kind))
            == Ok(if remainder != "" then nodes + [PlainNode(remainder)] else nodes)
  {
    assert caps[|caps|..] == [];
    assert nodes + [] == nodes;
  }

  // ---------------------------------------------------------------------
  // str.split with maxsplit=1

  /** The first occurrence of `d` in `s` is at or before any occurrence. */
  lemma FirstOccurrence(s: string, d: string, j: nat) returns (i: nat)
    requires OccursAt(s, d, j)
    ensures Find(s, d) == Some(i) && i <= j
  {
    FindFirst(s, d);
    assert Contains(s, d);
    i := Find(s, d).value;
  }

  /** `s.split(d, maxsplit=1)` at the first occurrence `i` of `d`. */
  lemma SplitOnce(s: string, d: string, i: nat)
    requires |d| > 0 && Find(s, d) == Some(i)
    ensures SplitN(s, d, 1) == [s[..i], s[i + |d|..]]
  {
    SplitNStep(s, d, 1, i);
  }

  /** `s.split(d, maxsplit=1)` gives two pieces exactly when `d` occurs, and
      then the text is the first piece, `d`, and the second piece. */
  lemma SplitOnceParts(s: string, d: string)
    requires |d| > 0
    ensures |SplitN(s, d, 1)| == 2 <==> Contains(s, d)
    ensures |SplitN(s, d, 1)| == 2 ==> s == SplitN(s, d, 1)[0] + d + SplitN(s, d, 1)[1]
  {
    FindFirst(s, d);
    if Find(s, d).Some? {
      var i := Find(s, d).value;
      SplitOnce(s, d, i);
      Reassemble(s, d, i);
    }
  }

  lemma OccursInSuffix(t: string, d: string, pos: nat, j: nat)
    requires pos <= j && OccursAt(t, d, j)
    ensures OccursAt(t[pos..], d, j - pos)
  {
    assert t[pos..][j - pos..j - pos + |d|] == t[j..j + |d|];
  }

  // ---------------------------------------------------------------------
  // Cutting at the extractor's captures never raises

  lemma CapturesTail(ms: seq<Match>)
    requires |ms| > 0
    ensures Captures(ms)[0] == (ms[0].alt, ms[0].url)
    ensures Captures(ms)[1..] == Captures(ms[1..])
  {
  }

  lemma OrderedTail(pos: nat, ms: seq<Match>, q: nat)
    requires |ms| > 0 && Ordered(pos, ms) && q <= ms[0].end
    ensures Ordered(q, ms[1..])
  {
    var rest := ms[1..];
    forall i | 0 <= i < |rest| ensures q <= rest[i].start < rest[i].end {
      assert rest[i] == ms[i + 1];
      OrderedChain(pos, ms, i + 1);
    }
  }

  /** Ordered matches each end before every later one starts. */
  lemma {:induction false} OrderedChain(pos: nat, ms: seq<Match>, j: nat)
    requires Ordered(pos, ms) && 0 < j < |ms|
    ensures ms[0].end <= ms[j].start
    decreases j
  {
    if j > 1 {
      OrderedChain(pos, ms, j - 1);
    }
  }

  /** The first remaining match spells its capture's Markdown at its start,
      so the split finds that Markdown no later than there and resumes no
      later than the match's end. */
  lemma CutAtFirst(t: string, kind: Kind, pos: nat, m: Match) returns (i: nat, next: nat)
    requires pos <= m.start && Found(t, kind, m)
    ensures pos <= next <= m.end <= |t|
    ensures i <= |t| - pos
    ensures SplitN(t[pos..], Syntax(kind, m.alt, m.url), 1) == [t[pos..][..i], t[next..]]
  {
    var d := Syntax(kind, m.alt, m.url);
    MatchAtSound(t, m.start, kind, m);
    OccursInSuffix(t, d, pos, m.start);
    i := FirstOccurrence(t[pos..], d, m.start - pos);
    SplitOnce(t[pos..], d, i);
    next := pos + i + |d|;
    assert t[pos..][i + |d|..] == t[next..];
  }

  /** Cutting the text from `pos` at ordered matches found in it succeeds. */
  lemma {:induction false} CapturesSplitOk(t: string, kind: Kind, pos: nat, ms: seq<Match>)
    requires pos <= |t| && Ordered(pos, ms) && AllFound(t, kind, ms)
    ensures SplitByCaptures(t[pos..], Captures(ms), kind).Ok?
    decreases |ms|
  {
    if |ms| > 0 {
      var m := ms[0];
      assert Found(t, kind, m);
      var _, next := CutAtFirst(t, kind, pos, m);
      OrderedTail(pos, ms, next);
      assert AllFound(t, kind, ms[1..]) by {
        forall i | 0 <= i < |ms| - 1 ensures Found(t, kind, ms[1..][i]) {
          assert ms[1..][i] == ms[i + 1];
        }
      }
      CapturesSplitOk(t, kind, next, ms[1..]);
      CapturesTail(ms);
    }
  }

  /** `substrings[1]` never raises: the Markdown of every capture the
      extractor reports is still in the remainder when its turn comes. */
  lemma ExtractSplitOk(text: string, kind: Kind)
    ensures SplitByCaptures(text, Extract(text, kind), kind).Ok?
  {
    ScanSound(text, 0, kind);
    assert text[0..] == text;
    CapturesSplitOk(text, kind, 0, Scan(text, 0, kind));
  }

  /** Neither `split_nodes_image` nor `split_nodes_link` ever raises. */
  lemma SplitKindAllOk(ns: seq<TextNode>, kind: Kind)
    ensures SplitKindAll(ns, kind).Ok?
  {
    FlatMapOk(ns, KindStage(kind));
    forall i | 0 <= i < |ns| ensures KindStage(kind)(ns[i]).Ok? {
      if IsPlain(ns[i]) {
        ExtractSplitOk(ns[i].text, kind);
      }
    }
  }

  // ---------------------------------------------------------------------
  // What the pieces are

  lemma KindNodeMarkup(kind: Kind, c: (string, string))
    ensures Markup(KindNode(kind, c)) == Syntax(kind, c.0, c.1)
  {
    MarkupOfSpan(KindNode(kind, c));
  }

  /** The pieces spell the remainder back: each capture's node stands for
      exactly the Markdown the split cut out. */
  lemma {:induction false} SplitByCapturesMarkup(remainder: string, caps: seq<(string, string)>, kind: Kind)
    requires SplitByCaptures(remainder, caps, kind).Ok?
    ensures MarkupAll(SplitByCaptures(remainder, caps, kind).value) == remainder
    decreases |caps|
  {
    if |caps| == 0 {
      if remainder != "" {
        assert MarkupAll([PlainNode(remainder)]) == Markup(PlainNode(remainder)) + MarkupAll([]);
      }
    } else {
      var d := Syntax(kind, caps[0].0, caps[0].1);
      var parts := SplitN(remainder, d, 1);
      SplitOnceParts(remainder, d);
      SplitByCapturesStep(remainder, caps, kind, 0, parts);
      assert caps[0..] == caps;
      SplitByCapturesMarkup(parts[1], caps[1..], kind);
      var rest := SplitByCaptures(parts[1], caps[1..], kind).value;
      var pair := [PlainNode(parts[0]), KindNode(kind, caps[0])];
      MarkupAllAppend(pair, rest);
      PairMarkup(parts[0], kind, caps[0]);
    }
  }

  lemma PairMarkup(p: string, kind: Kind, c: (string, string))
    ensures MarkupAll([PlainNode(p), KindNode(kind, c)]) == p + Syntax(kind, c.0, c.1)
  {
    var pair := [PlainNode(p), KindNode(kind, c)];
    KindNodeMarkup(kind, c);
    assert pair[1..] == [KindNode(kind, c)];
    assert pair[1..][1..] == [];
    assert MarkupAll(pair[1..]) == Syntax(kind, c.0, c.1) + "";
  }

  /** Before each capture a PLAIN piece, then the capture's node; after the
      last one a PLAIN piece only if some text is left. */
  predicate Shaped(ns: seq<TextNode>, caps: seq<(string, string)>, kind: Kind)
  {
    && (|ns| == 2 * |caps| || |ns| == 2 * |caps| + 1)
    && (forall k :: 0 <= k < |caps| ==> ns[2 * k] == PlainNode(ns[2 * k].text) && ns[2 * k + 1] == KindNode(kind, caps[k]))
    && (|ns| == 2 * |caps| + 1 ==> ns[2 * |caps|] == PlainNode(ns[2 * |caps|].text) && ns[2 * |caps|].text != "")
  }

  lemma ShapedCons(p: string, caps: seq<(string, string)>, kind: Kind, rest: seq<TextNode>)
    requires |caps| > 0 && Shaped(rest, caps[1..], kind)
    ensures Shaped([PlainNode(p), KindNode(kind, caps[0])] + rest, caps, kind)
  {
    var ns := [PlainNode(p), KindNode(kind, caps[0])] + rest;
    forall k | 1 <= k < |caps|
      ensures ns[2 * k] == PlainNode(ns[2 * k].text) && ns[2 * k + 1] == KindNode(kind, caps[k])
    {
      assert ns[2 * k] == rest[2 * (k - 1)];
      assert ns[2 * k + 1] == rest[2 * (k - 1) + 1];
      assert caps[k] == caps[1..][k - 1];
    }
    if |ns| == 2 * |caps| + 1 {
      assert ns[2 * |caps|] == rest[2 * |caps[1..]|];
    }
  }

  lemma {:induction false} SplitByCapturesShape(remainder: string, caps: seq<(string, string)>, kind: Kind)
    requires SplitByCaptures(remainder, caps, kind).Ok?
    ensures Shaped(SplitByCaptures(remainder, caps, kind).value, caps, kind)
    decreases |caps|
  {
    if |caps| > 0 {
      var parts := SplitN(remainder, Syntax(kind, caps[0].0, caps[0].1), 1);
      SplitByCapturesStep(remainder, caps, kind, 0, parts);
      assert caps[0..] == caps;
      SplitByCapturesShape(parts[1], caps[1..], kind);
      ShapedCons(parts[0], caps, kind, SplitByCaptures(parts[1], caps[1..], kind).value);
    }
  }

  /** A PLAIN node with no image (link) in it comes out unchanged, except
      that an empty one disappears. */
  lemma NoCaptures(n: TextNode, kind: Kind)
    requires IsPlain(n) && n.url.None? && Extract(n.text, kind) == []
    ensures SplitKindNode(n, kind) == Ok(if n.text == "" then [] else [n])
  {
  }

  /** Every node of the stage's output has a type. */
  lemma SplitKindAllTyped(ns: seq<TextNode>, kind: Kind)
    requires forall i :: 0 <= i < |ns| ==> ns[i].textType.Some?
    ensures SplitKindAll(ns, kind).Ok?
    ensures forall m :: m in SplitKindAll(ns, kind).value ==> m.textType.Some?
  {
    SplitKindAllOk(ns, kind);
    forall i | 0 <= i < |ns|
      ensures KindStage(kind)(ns[i]).Ok? ==> forall m :: m in KindStage(kind)(ns[i]).value ==> m.textType.Some?
    {
      if IsPlain(ns[i]) && KindStage(kind)(ns[i]).Ok? {
        SplitByCapturesTyped(ns[i].text, Extract(ns[i].text, kind), kind);
      }
    }
    FlatMapKeepsTyped(ns, KindStage(kind));
  }

  lemma {:induction false} SplitByCapturesTyped(remainder: string, caps: seq<(string, string)>, kind: Kind)
    requires SplitByCaptures(remainder, caps, kind).Ok?
    ensures forall m :: m in SplitByCaptures(remainder, caps, kind).value ==> m.textType.Some?
    decreases |caps|
  {
    if |caps| > 0 {
      var parts := SplitN(remainder, Syntax(kind, caps[0].0, caps[0].1), 1);
      SplitByCapturesTyped(parts[1], caps[1..], kind);
    }
  }

  /** The stage leaves the Markdown the node list stands for unchanged. */
  lemma SplitKindAllKeepsMarkup(ns: seq<TextNode>, kind: Kind)
    ensures SplitKindAll(ns, kind).Ok?
    ensures MarkupAll(SplitKindAll(ns, kind).value) == MarkupAll(ns)
  {
    SplitKindAllOk(ns, kind);
    forall i | 0 <= i < |ns|
      ensures KindStage(kind)(ns[i]).Ok? ==> MarkupAll(KindStage(kind)(ns[i]).value) == Markup(ns[i])
    {
      var n := ns[i];
      if IsPlain(n) {
        ExtractSplitOk(n.text, kind);
        SplitByCapturesMarkup(n.text, Extract(n.text, kind), kind);
      } else {
        assert MarkupAll([n]) == Markup(n) + MarkupAll([]);
      }
    }
    FlatMapKeepsMarkup(ns, KindStage(kind));
  }

  /** A PLAIN node becomes, in order, one image (link) node per capture the
      extractor reports, each after a PLAIN piece, and the pieces spell the
      node's text. */
  lemma SplitPlainNode(n: TextNode, kind: Kind)
    requires IsPlain(n)
    ensures SplitKindNode(n, kind).Ok?
    ensures MarkupAll(SplitKindNode(n, kind).value) == n.text
    ensures Shaped(SplitKindNode(n, kind).value, Extract(n.text, kind), kind)
  {
    ExtractSplitOk(n.text, kind);
    SplitByCapturesMarkup(n.text, Extract(n.text, kind), kind);
    SplitByCapturesShape(n.text, Extract(n.text, kind), kind);
  }

  /** Nodes that are not PLAIN pass through unchanged and in place. */
  lemma {:induction false} NonPlainPassThrough(ns: seq<TextNode>, kind: Kind)
    requires forall i :: 0 <= i < |ns| ==> !IsPlain(ns[i])
    ensures SplitKindAll(ns, kind) == Ok(ns)
    decreases |ns|
  {
    if |ns| > 0 {
      var k := |ns| - 1;
      NonPlainPassThrough(ns[..k], kind);
      assert ns[..k] + [ns[k]] == ns;
    }
  }

  // ---------------------------------------------------------------------
  // The cut is made at the first copy of the Markdown, not at the match

  /** An image followed by a link with the same text and url. */
  const LinkAfterImage := "![a](b)[a](b)"

  lemma LinkAfterImageMatch()
    ensures MatchAt(LinkAfterImage, 7, LinkKind) == Some(Match(7, 13, "a", "b"))
  {
    RunEndExact(LinkAfterImage, 8, 9, AltStop);
    RunEndExact(LinkAfterImage, 11, 12, UrlStop);
    MatchAtFold(LinkAfterImage, 7, LinkKind, 8, 9, 12);
    assert LinkAfterImage[8..9] == "a" && LinkAfterImage[11..12] == "b";
  }

  lemma LinkAfterImageScan()
    ensures Scan(LinkAfterImage, 0, LinkKind) == [Match(7, 13, "a", "b")]
  {
    LinkAfterImageMatch();
    assert Scan(LinkAfterImage, 13, LinkKind) == [];
    ScanMatch(LinkAfterImage, 7, LinkKind, Match(7, 13, "a", "b"));
    var p := 7;
    while p > 0
      invariant 0 <= p <= 7
      invariant Scan(LinkAfterImage, p, LinkKind) == [Match(7, 13, "a", "b")]
    {
      p := p - 1;
      assert !Opens(LinkAfterImage, p, LinkKind);
      ScanNoMatch(LinkAfterImage, p, LinkKind);
    }
  }

  lemma LinkAfterImageSyntax()
    ensures Syntax(LinkKind, "a", "b") == "[a](b)"
  {
    assert "[" + "a" + "](" + "b" + ")" == "[a](b)";
  }

  lemma LinkAfterImageCut()
    ensures SplitN(LinkAfterImage, "[a](b)", 1) == ["!", "[a](b)"]
  {
    var d := "[a](b)";
    assert LinkAfterImage[0..6] != d by { assert LinkAfterImage[0] == '!'; }
    assert LinkAfterImage[1..7] == d;
    assert Find(LinkAfterImage, d) == Some(1);
    SplitOnce(LinkAfterImage, d, 1);
    assert LinkAfterImage[..1] == "!";
    assert LinkAfterImage[7..] == d;
  }

  lemma LinkAfterImagePieces()
    ensures SplitByCaptures(LinkAfterImage, [("a", "b")], LinkKind)
            == Ok([PlainNode("!"), KindNode(LinkKind, ("a", "b")), PlainNode("[a](b)")])
  {
    LinkAfterImageSyntax();
    LinkAfterImageCut();
    var caps := [("a", "b")];
    SplitByCapturesStep(LinkAfterImage, caps, LinkKind, 0, ["!", "[a](b)"]);
    assert caps[0..] == caps && caps[1..] == [];
    assert SplitByCaptures("[a](b)", [], LinkKind) == Ok([PlainNode("[a](b)")]);
    assert [PlainNode("!"), KindNode(LinkKind, ("a", "b"))] + [PlainNode("[a](b)")]
        == [PlainNode("!"), KindNode(LinkKind, ("a", "b")), PlainNode("[a](b)")];
  }

  /** `split_nodes_link` on its own cuts at the first textual copy of the
      link's Markdown, which here lies inside the image: the link the
      extractor reported at index 7 stays in the PLAIN rest, and the image
      loses its `!` to a PLAIN piece. */
  lemma LinkAfterImageSplit()
    ensures SplitKindAll([PlainNode(LinkAfterImage)], LinkKind)
            == Ok([PlainNode("!"), KindNode(LinkKind, ("a", "b")), PlainNode("[a](b)")])
  {
    LinkAfterImageScan();
    assert Extract(LinkAfterImage, LinkKind) == [("a", "b")];
    LinkAfterImagePieces();
    assert IsPlain(PlainNode(LinkAfterImage)) && PlainNode(LinkAfterImage).text == LinkAfterImage;
    assert SplitKindNode(PlainNode(LinkAfterImage), LinkKind) == SplitByCaptures(LinkAfterImage, [("a", "b")], LinkKind);
    assert KindStage(LinkKind)(PlainNode(LinkAfterImage)) == SplitKindNode(PlainNode(LinkAfterImage), LinkKind);
    FlatMapSingle(PlainNode(LinkAfterImage), KindStage(LinkKind));
    assert SplitKindAll([PlainNode(LinkAfterImage)], LinkKind) == FlatMapNodes([PlainNode(LinkAfterImage)], KindStage(LinkKind));
    assert SplitKindAll([PlainNode(LinkAfterImage)], LinkKind) == SplitByCaptures(LinkAfterImage, [("a", "b")], LinkKind);
    assert SplitByCaptures(LinkAfterImage, [("a", "b")], LinkKind) == Ok([PlainNode("!"), KindNode(LinkKind, ("a", "b")), PlainNode("[a](b)")]);
  }
}
