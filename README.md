# Markdown-to-HTML converter core, modelled in Dafny

This project models the pure core of a small static-site generator written in
Python. The generator turns Markdown into an HTML node tree. The model covers:

- **Inline spans** (`src/textnode.py`): `TextType`, `TextNode` and its
  equality, `text_node_to_html_node`, the delimiter splitter for `**`, `_` and
  `` ` ``, the two extractors for `![alt](url)` and `[text](url)`, the image
  and link splitters, and the five-stage `convert_line_to_textnodes`.
- **HTML node tree** (`src/htmlnode.py`, `src/parentnode.py`): the node
  constructors, attribute rendering (`props_to_html`), node equality, the
  abstract `to_html`, `ParentNode.to_html` and `ParentNode.to_raw_text`.
- **Block segmentation** (`src/text_converter.py`): `markdown_to_blocks` and
  `clean_block`.

Python exceptions become `Err` values of one `Result` type (`results.dfy`).
The Python string methods the source relies on (`find`, `split` with and
without `maxsplit`, `join`, `count`, `strip`) are written out in
`pystrings.dfy` with the lemmas the rest of the model uses.

The code that updates variables step by step becomes Dafny methods with
loops. Each such method is proved equal to a specification function:

- `PropsToHtml` is proved against `PropsString`.
- `ToHtml` is proved against `Html`.
- `SplitNodesDelimiter` is proved against `SplitDelimiterAll`.
- `SplitNodesByKind` and `AppendPieces` are proved against `SplitKindAll`.
- `ConvertLineToTextNodes` is proved against `ConvertLine`.

The properties are then proved about those functions. The main reference is
`Markup`, the Markdown a span was written as. Every splitting stage, and the
whole pipeline, is proved to leave the Markdown of the node list unchanged.

Two behaviours of the source are proved as they are:

- `split_nodes_link`, called on its own on `![a](b)[a](b)`, cuts at the first
  textual copy of `[a](b)`. That copy lies inside the image
  (`ImageLinkSplit.LinkAfterImageSplit`). Inside `convert_line_to_textnodes`
  the image stage runs first and takes such images out of the PLAIN text, so
  the cut is not expected to go wrong there; that observation is not proved.
- An `_` inside a link's url, as in `[docs](my_page)`, is taken for an
  unpaired italic delimiter, and the whole line fails to convert
  (`InlinePipeline.SnakeLinkFails`).

## Model

| member | source | states |
|---|---|---|
| HtmlNodes.NewHtmlNode | src/htmlnode.py:10-14 | the constructor keeps tag, value, children and props as given, each defaulting to None |
| HtmlNodes.PropsToHtml | src/htmlnode.py:30-36 | the loop over the keys returns exactly `PropsString(props)` |
| HtmlNodes.PropsStringEmpty | src/htmlnode.py:31-32 | the rendering is "" exactly when props is None or empty |
| HtmlNodes.AttributesAppend | src/htmlnode.py:33-36 | the rendering of two attribute lists one after the other is the two renderings concatenated |
| HtmlNodes.AttributesInOrder | src/htmlnode.py:34-35 | each attribute appears as one ` key="value"` segment at its insertion position, between the renderings of the attributes before and after it |
| HtmlNodes.AttributesStartWithSpace | src/htmlnode.py:34-35 | a non-empty attribute list renders to a string that starts with a space |
| HtmlNodes.PropsStringStartsWithSpace | src/htmlnode.py:30-36 | a non-empty `props_to_html` result starts with a space |
| HtmlNodes.AttributesOfTwo | src/htmlnode.py:34-35 | two attributes render as their two segments in list order |
| HtmlNodes.PropsExample | src/test_htmlnode.py:12-15 | `{"class": "p_class", "id": "p_id"}` renders as ` class="p_class" id="p_id"` |
| HtmlNodes.PropsMapLookup | src/htmlnode.py:23 | with distinct keys, the dictionary an attribute list stands for maps each listed key to its value and holds no other key |
| HtmlNodes.PropsMapIncluded | src/htmlnode.py:23 | every entry of one list is an entry of the dictionary of a list with more entries |
| HtmlNodes.PropsMapPermutation | src/htmlnode.py:23 | two orderings of the same distinct-key attributes give the same dictionary |
| HtmlNodes.NodeEqReflexive | src/htmlnode.py:16-25 | every node equals itself (also src/test_htmlnode.py:7-10) |
| HtmlNodes.NodeEqSymmetric | src/htmlnode.py:16-25 | node equality is symmetric |
| HtmlNodes.NodeEqTransitive | src/htmlnode.py:16-25 | node equality is transitive |
| HtmlNodes.NodeEqReorderedProps | src/htmlnode.py:23 | reordering a node's attributes leaves the node equal to the original |
| HtmlNodes.EqualityIgnoresAttributeOrder | src/test_htmlnode.py:17-22 | the test's two nodes are equal, yet `props_to_html` renders them differently, so equality is coarser than rendering |
| ParentNodes.NewParentNode | src/parentnode.py:5-6 | a parent node keeps tag, children and props, and its value is always None |
| ParentNodes.ToHtml | src/htmlnode.py:27-28 | `to_html` dispatched on the node's class returns exactly `Html(n)`: the base class raises NotImplemented, a parent renders through `ParentToHtml` |
| ParentNodes.ParentToHtml | src/parentnode.py:8-18 | for a parent: MissingTag, then MissingChildren, else the opening tag with its attributes, the children's HTML and the closing tag, exactly `Html(n)` |
| ParentNodes.RenderChildren | src/parentnode.py:14-15 | the loop over the children appends their HTML in order and stops with the first child's error, i.e. it returns `JoinResults` of the children's renderings |
| ParentNodes.JoinResultsFirstError | src/parentnode.py:14-15 | when the children's renderings already fail within a prefix, the whole render fails with that prefix's error |
| ParentNodes.JoinResultsOk | src/parentnode.py:14-15 | rendering the children succeeds exactly when every child's rendering succeeds |
| ParentNodes.HtmlOkIffWellFormed | src/parentnode.py:8-18 | `to_html` succeeds exactly on trees in which every parent has a non-empty tag and non-empty children and no bare `HTMLNode` occurs |
| ParentNodes.ChildFailurePropagates | src/parentnode.py:14-15 | a failing child makes its parent fail |
| ParentNodes.BaseHtmlFails | src/htmlnode.py:27-28 | the base class's `to_html` always raises NotImplemented |
| ParentNodes.ParentChecks | src/parentnode.py:9-12 | a missing or empty tag raises MissingTag; otherwise missing or empty children raise MissingChildren |
| ParentNodes.RawTextOfWellFormed | src/parentnode.py:20-22 | a well-formed tree has raw text, and it is never longer than its HTML |
| ParentNodes.EmptyChildren | src/parentnode.py:20-22 | with an empty children list `to_raw_text` gives "" while `to_html` raises MissingChildren |
| ParentNodes.RawText | src/parentnode.py:20-22 | what `to_raw_text` returns: a leaf's value, a parent's children's raw text joined in order, and an error for a bare `HTMLNode` or for children that are None; its properties are stated by `RawTextOkIff`, `RawTextIgnoresTagAndProps` and `RawTextWithoutTag` |
| ParentNodes.RawTextOkIff | src/parentnode.py:20-22 | `to_raw_text` succeeds exactly on trees with no bare `HTMLNode` and no parent whose children are None, whatever the tags and however short the children lists |
| ParentNodes.RawTextIgnoresTagAndProps | src/parentnode.py:20-22 | a parent's raw text depends on its children alone, never on its tag or props |
| ParentNodes.RawTextWithoutTag | src/parentnode.py:9-22 | a parent whose tag is None or empty still has raw text when every child has one, while `to_html` raises MissingTag |
| ParentNodes.LeafHtml | src/test_leafnode.py:11-17 | a leaf's HTML: the bare value without a tag, otherwise `<tag attributes>value</tag>`; its cases are stated by `LeafExamples` and `AnchorShape` |
| ParentNodes.LeafExamples | src/test_leafnode.py:11-17 | `LeafNode("p", "Hello, world!")` renders as `<p>Hello, world!</p>`, and the `href` leaf as `<a href="https://www.google.com">Click me!</a>` |
| ParentNodes.AnchorShape | src/test_leafnode.py:15-17 | a leaf tagged "a" with one `href` renders as `<a href="url">text</a>` for every url and text |
| TextNodes.TextNodeEq | src/textnode.py:19-27 | two text nodes are equal exactly when text, type and url are all equal |
| TextNodes.TextNodeEqExamples | src/test_textnode.py:7-20 | equal with the same type, also when the type is None; unequal with bold against italic |
| TextNodes.TextNodeToHtmlNode | src/textnode.py:32-47 | the conversion fails exactly for a node without a type, with InvalidTextType, and otherwise yields a leaf |
| TextNodes.SpanHtml | src/textnode.py:32-45 | the rendered leaf of each type: PLAIN as bare text, `<b>`, `<i>`, `<code>`, `<a href>` with the url, `<img src alt>` with an empty value |
| TextNodes.SpanRawText | src/textnode.py:32-45 | each leaf's raw text is the span's text, except an image's, which is "" |
| TextNodes.FlatMapOk | src/textnode.py:61-79 | a stage succeeds exactly when every node's pieces can be computed |
| TextNodes.FlatMapFirstError | src/textnode.py:61-79 | the first node that fails decides the stage's error |
| TextNodes.FlatMapAppend | src/textnode.py:61-79 | a stage on two lists one after the other gives the two outputs one after the other |
| TextNodes.FlatMapKeepsMarkup | src/textnode.py:61-79 | when each node's pieces spell the node's Markdown, the stage's output spells the input's Markdown |
| TextNodes.FlatMapKeepsTyped | src/textnode.py:61-79 | when each node's pieces all have a type, so does the stage's output |
| DelimiterSplit.SplitNodesDelimiter | src/textnode.py:59-79 | the loop with its recursive calls returns exactly `SplitDelimiterAll(old_nodes, d, tt)` |
| DelimiterSplit.SplitNode | src/textnode.py:62-78 | one node of the input list: a non-PLAIN node passes through, an empty delimiter raises as `str.split` does, a PLAIN node is split by `SplitText` |
| DelimiterSplit.SplitText | src/textnode.py:63-76 | what a PLAIN node's text becomes: `split(d, maxsplit=2)` gives one piece (kept as PLAIN), two (raises) or three (PLAIN, the typed span, and the rest split again); its properties are stated by `SplitTextOkIff`, `SplitTextShape` and `SplitTextRejoin` |
| DelimiterSplit.SplitTextUntouched | src/textnode.py:63-65 | a text splits to one PLAIN node with the same text exactly when it holds no delimiter |
| DelimiterSplit.SplitTextOkIff | src/textnode.py:63-67 | splitting a text fails exactly when the count of non-overlapping delimiters is odd |
| DelimiterSplit.SplitTextErrors | src/textnode.py:66-67 | the only failure of splitting a text is OddDelimiters |
| DelimiterSplit.SplitTextShape | src/textnode.py:68-76 | a successful split has one more piece than the text has delimiters, and the pieces alternate PLAIN and the span type |
| DelimiterSplit.AlternatingPositions | src/textnode.py:68-76 | in alternating pieces, even positions are PLAIN and odd ones typed, and the count is odd |
| DelimiterSplit.SplitTextPieces | src/textnode.py:63-76 | no piece of a successful split contains the delimiter |
| DelimiterSplit.SplitTextRejoin | src/textnode.py:63-76 | putting the delimiter back around each typed piece gives the text back |
| DelimiterSplit.SplitTextStep | src/textnode.py:68-76 | the recursion is on a strictly shorter rest, and the result is the text before the first delimiter, the span up to the second, then the split of the rest |
| DelimiterSplit.SplitDelimiterAllOkIff | src/textnode.py:61-67 | with a non-empty delimiter, the stage fails exactly when some PLAIN node holds an odd delimiter count |
| DelimiterSplit.EmptyDelimiter | src/textnode.py:63 | an empty delimiter raises EmptySeparator exactly when there is a PLAIN node to split |
| DelimiterSplit.FlatMapErrors | src/textnode.py:59-79 | every failure of the stage is EmptySeparator when the delimiter is empty and OddDelimiters otherwise |
| DelimiterSplit.NonPlainPassThrough | src/textnode.py:77-78 | a list with no PLAIN node comes out unchanged |
| DelimiterSplit.MarkupOfAlternating | src/textnode.py:68-76 | alternating pieces of bold, italic or code spell the text with the delimiters put back |
| DelimiterSplit.SplitDelimiterKeepsMarkup | src/textnode.py:59-79 | splitting on a span type's own delimiter leaves the Markdown of the node list unchanged |
| MarkdownLinks.RunEndSound | src/textnode.py:104 | a group's run avoids the excluded characters and stops at the text's end or at an excluded character |
| MarkdownLinks.MatchAt | src/textnode.py:104 | the match the pattern makes starting exactly at one position, ending after it: `![` (for a link, a `[` not after `!`), a bracket-free group, `](`, a parenthesis-free group, `)`; stated by `MatchAtSound`, `MatchAtGroups` and `PiecesComplete` |
| MarkdownLinks.Scan | src/textnode.py:105 | the left-to-right search of `re.findall`, resuming after each match; stated by `ScanSound` and `ScanComplete` |
| MarkdownLinks.Extract | src/textnode.py:103-115 | the `(alt, url)` or `(text, url)` tuples both extractors return, in order; stated by `ExtractCaptures` |
| MarkdownLinks.MatchAtSound | src/textnode.py:103-115 | a match covers exactly `![alt](url)` or `[text](url)`, ends right after it, and a link is not preceded by `!` |
| MarkdownLinks.MatchAtGroups | src/textnode.py:103-115 | the groups of a match hold no bracket (first group) and no parenthesis (second group) |
| MarkdownLinks.PiecesComplete | src/textnode.py:103-115 | wherever the text lays out the pattern with bracket-free groups (and, for links, no `!` before it), the matcher finds exactly that match |
| MarkdownLinks.SpellsIffPieces | src/textnode.py:103-115 | the pattern's text spelled in one piece and laid out piece by piece are the same condition |
| MarkdownLinks.ScanSound | src/textnode.py:103-115 | every match `findall` reports is the match at its own start, and the matches come in order without overlapping |
| MarkdownLinks.ScanComplete | src/textnode.py:103-115 | `findall` misses no match that no reported match straddles |
| MarkdownLinks.ExtractCaptures | src/textnode.py:103-115 | no alt or link text holds `[` or `]`, and no url holds `(` or `)` |
| MarkdownLinks.LinksNotAfterBang | src/textnode.py:114 | a reported link is never immediately preceded by `!` |
| ImageLinkSplit.SplitNodesByKind | src/textnode.py:121-156 | the loop over the nodes returns exactly `SplitKindAll(old_nodes, kind)` |
| ImageLinkSplit.AppendPieces | src/textnode.py:127-136 | the inner loop over the captures, updating `remainder`, appends exactly the pieces `SplitByCaptures` specifies |
| ImageLinkSplit.SplitByCaptures | src/textnode.py:127-136 | the inner loop over the captures: before each capture's Markdown a PLAIN piece, then the capture's node, the last remainder only when not empty, and IndexError when a capture's Markdown is gone; stated by `SplitByCapturesMarkup`, `SplitByCapturesShape` and `CapturesSplitOk` |
| ImageLinkSplit.SplitNodesImage | src/textnode.py:121-137 | `split_nodes_image` is the stage for images |
| ImageLinkSplit.SplitNodesLink | src/textnode.py:140-156 | `split_nodes_link` is the stage for links |
| ImageLinkSplit.SplitOnceParts | src/textnode.py:131 | `split(delim, maxsplit=1)` gives two pieces exactly when the delimiter occurs, and the text is the first piece, the delimiter, then the second (also src/textnode.py:150) |
| ImageLinkSplit.KindNodeMarkup | src/textnode.py:130-133 | the node built from a capture stands for exactly the `delim` that the split cut out of the remainder: `![alt](url)` for an image, and `[text](url)` for a link (src/textnode.py:149-152) |
| ImageLinkSplit.CapturesSplitOk | src/textnode.py:127-134 | cutting at ordered matches found in the text never runs out of text |
| ImageLinkSplit.ExtractSplitOk | src/textnode.py:127-134 | `substrings[1]` never raises: every rebuilt delimiter is still in the remainder |
| ImageLinkSplit.SplitKindAllOk | src/textnode.py:121-156 | neither `split_nodes_image` nor `split_nodes_link` ever raises |
| ImageLinkSplit.SplitByCapturesMarkup | src/textnode.py:129-136 | the pieces spell the remainder back, each capture's node standing for its Markdown |
| ImageLinkSplit.SplitByCapturesShape | src/textnode.py:129-136 | before each capture a PLAIN piece (even an empty one), then the capture's node; a last PLAIN piece only if non-empty |
| ImageLinkSplit.SplitPlainNode | src/textnode.py:127-136 | a PLAIN node becomes, in order, one node per extracted capture with the text around it, and spells its text back |
| ImageLinkSplit.NoCaptures | src/textnode.py:135-136 | a PLAIN node with no match comes out unchanged, or disappears when its text is empty |
| ImageLinkSplit.NonPlainPassThrough | src/textnode.py:121-155 | a list with no PLAIN node comes out unchanged |
| ImageLinkSplit.SplitKindAllTyped | src/textnode.py:121-156 | every node of the output has a type when every input node has one |
| ImageLinkSplit.SplitKindAllKeepsMarkup | src/textnode.py:121-156 | the stage leaves the Markdown of the node list unchanged |
| ImageLinkSplit.LinkAfterImageSplit | src/textnode.py:149-150 | on `![a](b)[a](b)` alone, `split_nodes_link` cuts inside the image, giving `!`, the link, and `[a](b)` as PLAIN text |
| InlinePipeline.ConvertLineToTextNodes | src/textnode.py:88-95 | the five calls return exactly `ConvertLine(text)` |
| InlinePipeline.Stages | src/textnode.py:88-95 | a successful conversion passes through bold, italic, code, image and link, in that order |
| InlinePipeline.ConvertLineMarkup | src/textnode.py:88-95 | the nodes of a successful conversion spell the line back as Markdown |
| InlinePipeline.ConvertLineTyped | src/textnode.py:88-95 | every node of a successful conversion has a type and converts to an HTML leaf |
| InlinePipeline.ConvertLineErrors | src/textnode.py:88-95 | the conversion fails only with OddDelimiters |
| InlinePipeline.OddBold | src/textnode.py:90 | an odd count of `**` makes the conversion fail |
| InlinePipeline.NoBold | src/textnode.py:90 | the bold stage leaves a line without `**` as it is |
| InlinePipeline.OddUnderscore | src/textnode.py:91 | in a line without `**`, an odd count of `_` anywhere makes the conversion fail |
| InlinePipeline.SnakeLinkFails | src/textnode.py:88-95 | `[docs](my_page)` fails: its url's `_` is taken for an unpaired italic delimiter before the link stage runs |
| InlinePipeline.EmptyLine | src/textnode.py:88-95 | an empty line converts to no nodes at all |
| InlinePipeline.PlainLine | src/textnode.py:88-95 | a line with no delimiter, image or link converts to one PLAIN node |
| InlinePipeline.KeptInPlace | src/textnode.py:77-78 | a node a stage maps to itself keeps its place between the outputs for the nodes before and after it |
| InlinePipeline.StagesKeepTyped | src/textnode.py:77-78 | every one of the five stages maps a non-PLAIN node to itself (also src/textnode.py:124-126 and 143-145) |
| PyStrings.FindFirst | src/textnode.py:63 | `find` reports the first occurrence, and none exactly when the separator does not occur |
| PyStrings.JoinSplitN | src/text_converter.py:8-13 | joining the pieces of a split with the separator gives the text back |
| PyStrings.SplitNPieces | src/textnode.py:63 | no piece of a split but the last holds the separator, and the last only when `maxsplit` ran out |
| PyStrings.SplitNCount | src/textnode.py:63 | the separators counted in the text are those consumed by the split plus those left in the last piece |
| PyStrings.SplitJoin | src/text_converter.py:2 | splitting the join of pieces gives the pieces back when no piece holds the separator, not even across its end (also the line split of src/text_converter.py:8) |
| PyStrings.StripEmptyIff | src/text_converter.py:9-10 | `strip` gives "" exactly when the line is all whitespace |
| PyStrings.StripIdempotent | src/text_converter.py:9 | stripping twice is stripping once |
| TextConverter.DropEmptySubsequence | src/text_converter.py:4 | the filter keeps a subsequence of its input, in order (also src/text_converter.py:10) |
| TextConverter.DropEmptyMembers | src/text_converter.py:4 | an element survives the filter exactly when it is not empty (also src/text_converter.py:10) |
| TextConverter.DropEmptyNothing | src/text_converter.py:10-11 | nothing survives the filter exactly when every element is empty |
| TextConverter.CleanBlock | src/text_converter.py:7-14 | `clean_block`: the chunk's lines stripped, blank ones dropped, the rest joined with "\n", or "" when none is left; stated by `CleanBlockLines`, `CleanBlockEmptyIff` and `CleanBlockIdempotent` |
| TextConverter.MarkdownToBlocks | src/text_converter.py:1-5 | `markdown_to_blocks`: the chunks between "\n\n", each cleaned, the empty ones dropped; stated by `BlocksFromChunks`, `BlocksAreClean` and `Resegment` |
| TextConverter.BlocksFromChunks | src/text_converter.py:2-4 | no block is empty; the blocks are the cleaned chunks in chunk order; there are never more blocks than chunks |
| TextConverter.BlocksAreClean | src/text_converter.py:1-14 | every block is non-empty and is a fixed point of `clean_block` |
| TextConverter.CleanBlockLines | src/text_converter.py:8-13 | splitting a non-empty cleaned block at "\n" gives exactly the stripped non-blank lines of the chunk |
| TextConverter.CleanBlockLinesClean | src/text_converter.py:8-13 | every line of a cleaned block is non-empty and has no whitespace at either end |
| TextConverter.BlockShape | src/text_converter.py:8-13 | a cleaned block holds no "\n\n" and neither starts nor ends with "\n" |
| TextConverter.CleanBlockEmptyIff | src/text_converter.py:10-12 | `clean_block` returns "" exactly when every line of the chunk is empty or whitespace only |
| TextConverter.CleanBlockIdempotent | src/text_converter.py:7-14 | cleaning a cleaned block returns it unchanged |
| TextConverter.Resegment | src/text_converter.py:1-14 | joining the blocks with "\n\n" and segmenting again gives the same blocks |
| TextConverter.DocumentBlocks | src/text_converter.py:1-14 | a document of a one-line paragraph, a two-line paragraph and a two-line list, every line indented, gives the three blocks with the indentation stripped |
| TextConverter.TestMarkdownToBlocks | src/test_text_converter.py:7-25 | the test's indented three-paragraph document yields exactly its three expected blocks |

## Left out

- `src/filemanager.py` and `src/main.py`: file-system copying and entry-point wiring, all I/O.
- Block classification, block-to-HTML compilation and title extraction (`identify_block_type`, `BlockType`, `markdown_to_html_node`, `extract_title`): they are imported by the tests, but no implementation is in `src/text_converter.py`. They are not part of this model.
- `leafnode.py` is not part of this model. `LeafNode` is a variant of the node datatype. Its rendering follows the tests: `<tag props>value</tag>`, or the bare value without a tag. Its raw text is taken to be its value. Its own error cases are unknown and not modelled.
- `__repr__` of both node classes: debug strings only.
- Python's general regex engine: only the two fixed patterns are modelled, as a scanner.
- Unicode whitespace: `strip` is modelled with a fixed whitespace set, limited to the Latin-1 range (`PyStrings.IsSpace`).
- Exception message texts: each exception is one `Error` constructor.
- TextNodes.TextNodeToHtmlNode stores a url of `None` on a link or image node as the text "None" in the leaf's props, because prop values are strings here; the source stores `None` itself (src/textnode.py:43, 45). The rendering agrees, as a Python f-string writes "None", but `HTMLNode.__eq__` tells `{"href": None}` apart from `{"href": "None"}` and `HtmlNodes.NodeEq` does not. No other rendering of non-string values is modelled.
- HtmlNodes.NodeEq compares children element by element with the same equality and ignores the subclass, as `__eq__` does. Props are modelled as a list with distinct keys, not as a Python dict.
- MarkdownLinks.PiecesComplete: completeness is stated for text laid out piece by piece. `SpellsIffPieces` relates this to the text spelling the pattern in one piece.
- InlinePipeline.OddUnderscore requires the line to hold no `**`. Inside a bold span, `_` is never split again, so the count alone does not decide the outcome there.
- ImageLinkSplit.AppendPieces returns the list extended with one node's pieces, where the source appends each piece to its local `new_nodes` inside the inner loop (src/textnode.py:129-136). Like the source, `SplitNodesImage` and `SplitNodesLink` start from a fresh list and return it.
