/** Block segmentation of src/text_converter.py: `markdown_to_blocks` cuts a
    document at blank lines ("\n\n") and `clean_block` strips every line of
    a chunk, drops the blank ones and joins the rest with "\n". */
module TextConverter {
  import opened Results
  import opened PyStrings

  /** `[line.strip() for line in lines]` */
  function StripAll(lines: seq<string>): (r: seq<string>)
    ensures |r| == |lines|
  {
    seq(|lines|, i requires 0 <= i < |lines| => Strip(lines[i]))
  }

  /** `[x for x in xs if x != ""]` */
  function DropEmpty(xs: seq<string>): seq<string>
  {
    if |xs| == 0 then []
    else (if xs[0] != "" then [xs[0]] else []) + DropEmpty(xs[1..])
  }

  /** The stripped, non-blank lines of a chunk. */
  function Filtered(block: string): seq<string>
  {
    DropEmpty(StripAll(Split(block, "\n")))
  }

  /** `clean_block(block)` */
  function CleanBlock(block: string): string
  {
    var filtered := Filtered(block);
    if |filtered| == 0 then "" else Join(filtered, "\n")
  }

  /** `[clean_block(block) for block in initial_split]` */
  function CleanAll(chunks: seq<string>): (r: seq<string>)
    ensures |r| == |chunks|
  {
    seq(|chunks|, i requires 0 <= i < |chunks| => CleanBlock(chunks[i]))
  }

  /** `markdown_to_blocks(markdown)` */
  function MarkdownToBlocks(markdown: string): seq<string>
  {
    DropEmpty(CleanAll(Split(markdown, "\n\n")))
  }

  // ---------------------------------------------------------------------
  // Dropping the empty strings

  /** `ys` is `xs` with some elements left out, the rest kept in order. */
  predicate SubsequenceOf(ys: seq<string>, xs: seq<string>)
    decreases |xs|
  {
    if |ys| == 0 then true
    else if |xs| == 0 then false
    else (ys[0] == xs[0] && SubsequenceOf(ys[1..], xs[1..])) || SubsequenceOf(ys, xs[1..])
  }

  lemma {:induction false} SubsequenceShorter(ys: seq<string>, xs: seq<string>)
    requires SubsequenceOf(ys, xs)
    ensures |ys| <= |xs|
    decreases |xs|
  {
    if |ys| > 0 {
      if ys[0] == xs[0] && SubsequenceOf(ys[1..], xs[1..]) {
        SubsequenceShorter(ys[1..], xs[1..]);
      } else {
        SubsequenceShorter(ys, xs[1..]);
      }
    }
  }

  /** The filter keeps the non-empty elements, in their order. */
  lemma {:induction false} DropEmptySubsequence(xs: seq<string>)
    ensures SubsequenceOf(DropEmpty(xs), xs)
    decreases |xs|
  {
    if |xs| > 0 {
      DropEmptySubsequence(xs[1..]);
      var rest := DropEmpty(xs[1..]);
      if xs[0] != "" {
        assert DropEmpty(xs) == [xs[0]] + rest;
        assert DropEmpty(xs)[1..] == rest;
      } else {
        assert DropEmpty(xs) == rest;
      }
    }
  }

  /** An element survives the filter exactly when it is not empty. */
  lemma {:induction false} DropEmptyMembers(xs: seq<string>)
    ensures forall x :: x in DropEmpty(xs) <==> x in xs && x != ""
    decreases |xs|
  {
    if |xs| > 0 {
      DropEmptyMembers(xs[1..]);
      assert xs == [xs[0]] + xs[1..];
    }
  }

  /** A list without empty strings passes the filter unchanged. */
  lemma {:induction false} DropEmptyKeeps(xs: seq<string>)
    requires forall i :: 0 <= i < |xs| ==> |xs[i]| > 0
    ensures DropEmpty(xs) == xs
    decreases |xs|
  {
    if |xs| > 0 {
      DropEmptyKeeps(xs[1..]);
      assert [xs[0]] + xs[1..] == xs;
    }
  }

  /** Nothing survives exactly when every element is empty. */
  lemma DropEmptyNothing(xs: seq<string>)
    ensures DropEmpty(xs) == [] <==> forall i :: 0 <= i < |xs| ==> xs[i] == ""
  {
    DropEmptyMembers(xs);
    if DropEmpty(xs) != [] {
      assert DropEmpty(xs)[0] in DropEmpty(xs);
    }
  }

  // ---------------------------------------------------------------------
  // Lines

  /** A line as `clean_block` leaves it: not empty, not starting or ending
      with whitespace, and without a newline. */
  predicate CleanLine(l: string)
  {
    l != "" && Trimmed(l) && '\n' !in l
  }

  lemma CharContains(p: string, c: char)
    requires c in p
    ensures Contains(p, [c])
  {
    var k :| 0 <= k < |p| && p[k] == c;
    assert p[k..k + 1] == [c];
    assert OccursAt(p, [c], k);
  }

  /** The pieces of `split("\n")` hold no newline. */
  lemma SplitLinesNoNewline(b: string)
    ensures forall i :: 0 <= i < |Split(b, "\n")| ==> '\n' !in Split(b, "\n")[i]
  {
    SplitNPieces(b, "\n", -1);
    forall i | 0 <= i < |Split(b, "\n")| ensures '\n' !in Split(b, "\n")[i] {
      if '\n' in Split(b, "\n")[i] {
        CharContains(Split(b, "\n")[i], '\n');
      }
    }
  }

  /** Every line `clean_block` keeps is a clean line. */
  lemma FilteredClean(b: string)
    ensures forall l :: l in Filtered(b) ==> CleanLine(l)
  {
    var lines := Split(b, "\n");
    var stripped := StripAll(lines);
    SplitLinesNoNewline(b);
    DropEmptyMembers(stripped);
    forall l | l in Filtered(b) ensures CleanLine(l) {
      var i :| 0 <= i < |stripped| && stripped[i] == l;
      assert l == Strip(lines[i]);
    }
  }

  lemma CleanLinesIndexed(ls: seq<string>)
    requires forall l :: l in ls ==> CleanLine(l)
    ensures forall i :: 0 <= i < |ls| ==> CleanLine(ls[i])
  {
    forall i | 0 <= i < |ls| ensures CleanLine(ls[i]) {
      assert ls[i] in ls;
    }
  }

  /** Joining clean lines and splitting the result again gives the lines back. */
  lemma SplitJoinedLines(ls: seq<string>)
    requires |ls| > 0 && forall i :: 0 <= i < |ls| ==> CleanLine(ls[i])
    ensures Split(Join(ls, "\n"), "\n") == ls
  {
    forall k | 0 <= k < |ls| ensures CleanPiece(ls[k], "\n") && !Contains(ls[k], "\n") {
      CleanForNewline(ls[k]);
    }
    SplitJoin(ls, "\n");
  }

  lemma {:induction false} JoinNotEmpty(ls: seq<string>, sep: string)
    requires |ls| > 0 && ls[0] != ""
    ensures Join(ls, sep) != "" && Join(ls, sep)[0] == ls[0][0]
  {
  }

  /** The lines of a cleaned block are exactly the lines `clean_block` kept. */
  lemma CleanBlockLines(b: string)
    requires CleanBlock(b) != ""
    ensures Split(CleanBlock(b), "\n") == Filtered(b)
  {
    FilteredClean(b);
    CleanLinesIndexed(Filtered(b));
    SplitJoinedLines(Filtered(b));
  }

  /** Every line of a cleaned block is non-empty and has no whitespace at
      either end. */
  lemma CleanBlockLinesClean(b: string)
    ensures forall l :: l in Split(CleanBlock(b), "\n") && CleanBlock(b) != "" ==> l != "" && Trimmed(l)
  {
    if CleanBlock(b) != "" {
      CleanBlockLines(b);
      FilteredClean(b);
    }
  }

  /** `clean_block` returns "" exactly when every line of the chunk is empty
      or whitespace only. */
  lemma CleanBlockEmptyIff(b: string)
    ensures CleanBlock(b) == "" <==> forall l :: l in Split(b, "\n") ==> AllSpace(l)
  {
    var lines := Split(b, "\n");
    var stripped := StripAll(lines);
    DropEmptyNothing(stripped);
    forall i | 0 <= i < |lines| ensures stripped[i] == "" <==> AllSpace(lines[i]) {
      StripEmptyIff(lines[i]);
    }
    if |Filtered(b)| > 0 {
      DropEmptyMembers(stripped);
      assert Filtered(b)[0] in Filtered(b);
      JoinNotEmpty(Filtered(b), "\n");
    }
  }

  lemma SplitEmpty(sep: string)
    requires |sep| > 0
    ensures Split("", sep) == [""]
  {
    assert Find("", sep) == None;
  }

  /** Cleaning a cleaned block changes nothing. */
  lemma CleanBlockIdempotent(b: string)
    ensures CleanBlock(CleanBlock(b)) == CleanBlock(b)
  {
    var c := CleanBlock(b);
    if c == "" {
      SplitEmpty("\n");
      assert StripAll([""]) == [""];
      assert DropEmpty([""]) == [];
    } else {
      var ls := Filtered(b);
      CleanBlockLines(b);
      FilteredClean(b);
      CleanLinesIndexed(ls);
      assert StripAll(ls) == ls by {
        forall i | 0 <= i < |ls| ensures StripAll(ls)[i] == ls[i] {
          StripTrimmed(ls[i]);
        }
      }
      DropEmptyKeeps(ls);
    }
  }

  // ---------------------------------------------------------------------
  // Blocks

  /** No block is empty, and every block is the cleaning of one chunk, in
      chunk order, so there are never more blocks than chunks. */
  lemma BlocksFromChunks(markdown: string)
    ensures forall b :: b in MarkdownToBlocks(markdown) ==> b != ""
    ensures SubsequenceOf(MarkdownToBlocks(markdown), CleanAll(Split(markdown, "\n\n")))
    ensures |MarkdownToBlocks(markdown)| <= |Split(markdown, "\n\n")|
  {
    var cleaned := CleanAll(Split(markdown, "\n\n"));
    DropEmptyMembers(cleaned);
    DropEmptySubsequence(cleaned);
    SubsequenceShorter(MarkdownToBlocks(markdown), cleaned);
  }

  /** Each block is a cleaned chunk. */
  lemma BlocksAreClean(markdown: string)
    ensures forall b :: b in MarkdownToBlocks(markdown) ==> CleanBlock(b) == b && b != ""
  {
    var chunks := Split(markdown, "\n\n");
    var cleaned := CleanAll(chunks);
    DropEmptyMembers(cleaned);
    forall b | b in MarkdownToBlocks(markdown) ensures CleanBlock(b) == b {
      var i :| 0 <= i < |cleaned| && cleaned[i] == b;
      CleanBlockIdempotent(chunks[i]);
    }
  }

  /** No two newlines in a row. */
  predicate NoBlankLine(s: string)
  {
    forall k :: 0 <= k < |s| - 1 ==> !(s[k] == '\n' && s[k + 1] == '\n')
  }

  /** A non-empty line without a newline. */
  predicate OneLine(l: string)
  {
    |l| > 0 && '\n' !in l
  }

  /** Non-empty lines joined with "\n" neither start nor end with a newline
      and hold no two newlines in a row. */
  lemma {:induction false} JoinLines(ls: seq<string>)
    requires |ls| > 0 && forall i :: 0 <= i < |ls| ==> OneLine(ls[i])
    ensures var j := Join(ls, "\n"); j != "" && j[0] != '\n' && j[|j| - 1] != '\n' && NoBlankLine(j)
    decreases |ls|
  {
    var p := ls[0];
    assert p[0] in p && p[|p| - 1] in p;
    if |ls| > 1 {
      var rest := ls[1..];
      JoinLines(rest);
      var r := Join(rest, "\n");
      var j := p + "\n" + r;
      assert Join(ls, "\n") == j;
      forall k | 0 <= k < |j| - 1 ensures !(j[k] == '\n' && j[k + 1] == '\n') {
        if k < |p| {
          assert j[k] == p[k];
          assert p[k] in p;
        } else if k > |p| {
          assert j[k] == r[k - |p| - 1] && j[k + 1] == r[k - |p|];
        } else {
          assert j[k + 1] == r[0];
        }
      }
      assert j[|j| - 1] == r[|r| - 1];
    } else {
      forall k | 0 <= k < |p| - 1 ensures !(p[k] == '\n' && p[k + 1] == '\n') {
        assert p[k] in p;
      }
    }
  }

  /** No block holds a blank line or starts or ends with a newline. */
  lemma BlockShape(b: string)
    requires CleanBlock(b) != ""
    ensures var c := CleanBlock(b); c[0] != '\n' && c[|c| - 1] != '\n' && NoBlankLine(c)
  {
    FilteredClean(b);
    CleanLinesIndexed(Filtered(b));
    JoinLines(Filtered(b));
  }

  lemma NoBlankLineNoSeparator(s: string)
    requires NoBlankLine(s)
    ensures !Contains(s, "\n\n")
  {
    forall j | 0 <= j <= |s| ensures !OccursAt(s, "\n\n", j) {
      if j + 2 <= |s| {
        assert s[j..j + 2][0] == s[j] && s[j..j + 2][1] == s[j + 1];
      }
    }
  }

  /** A cleaned block followed by "\n\n" is split off whole. */
  lemma BlockCleanPiece(b: string)
    requires |b| > 0 && b[|b| - 1] != '\n' && NoBlankLine(b)
    ensures CleanPiece(b, "\n\n") && !Contains(b, "\n\n")
  {
    var s := b + "\n\n";
    NoBlankLineNoSeparator(b);
    assert OccursAt(s, "\n\n", |b|);
    forall j | 0 <= j < |b| ensures !OccursAt(s, "\n\n", j) {
      assert s[j] == b[j];
      if j < |b| - 1 {
        assert s[j + 1] == b[j + 1];
      }
      assert s[j..j + 2][0] == s[j] && s[j..j + 2][1] == s[j + 1];
    }
    FindFirst(s, "\n\n");
  }

  /** Joining the blocks with "\n\n" and segmenting again gives the same blocks. */
  lemma Resegment(markdown: string)
    ensures MarkdownToBlocks(Join(MarkdownToBlocks(markdown), "\n\n")) == MarkdownToBlocks(markdown)
  {
    var bs := MarkdownToBlocks(markdown);
    BlocksCleanIndexed(markdown);
    if |bs| == 0 {
      ResegmentNone();
    } else {
      ResegmentBlocks(bs);
    }
  }

  /** Blocks that are their own cleaning and not empty. */
  predicate CleanBlocks(bs: seq<string>)
  {
    forall k :: 0 <= k < |bs| ==> CleanBlock(bs[k]) == bs[k] && |bs[k]| > 0
  }

  lemma BlocksCleanIndexed(markdown: string)
    ensures CleanBlocks(MarkdownToBlocks(markdown))
  {
    var bs := MarkdownToBlocks(markdown);
    BlocksAreClean(markdown);
    forall k | 0 <= k < |bs| ensures CleanBlock(bs[k]) == bs[k] && |bs[k]| > 0 {
      assert bs[k] in bs;
    }
  }

  /** A document without blocks joins to "", which has no blocks. */
  lemma ResegmentNone()
    ensures MarkdownToBlocks(Join([], "\n\n")) == []
  {
    SplitEmpty("\n\n");
    assert CleanAll([""]) == [CleanBlock("")];
    SplitEmpty("\n");
    assert StripAll([""]) == [""];
  }

  /** Clean blocks joined with "\n\n" segment back into themselves. */
  lemma ResegmentBlocks(bs: seq<string>)
    requires |bs| > 0 && CleanBlocks(bs)
    ensures MarkdownToBlocks(Join(bs, "\n\n")) == bs
  {
    SplitCleanBlocks(bs);
    assert CleanAll(bs) == bs;
    DropEmptyKeeps(bs);
  }

  lemma SplitCleanBlocks(bs: seq<string>)
    requires |bs| > 0 && CleanBlocks(bs)
    ensures Split(Join(bs, "\n\n"), "\n\n") == bs
  {
    forall k | 0 <= k < |bs| ensures CleanPiece(bs[k], "\n\n") && !Contains(bs[k], "\n\n") {
      BlockShape(bs[k]);
      BlockCleanPiece(bs[k]);
    }
    SplitJoin(bs, "\n\n");
  }

  // ---------------------------------------------------------------------
  // A document shaped like the one of src/test_text_converter.py

  /** A text line of such a document: not empty, trimmed, one line. */
  predicate TextLine(l: string)
  {
    l != "" && Trimmed(l) && '\n' !in l
  }

  /** The indentation in front of every line: whitespace, one line. */
  predicate Indentation(w: string)
  {
    w != "" && AllSpace(w) && '\n' !in w
  }

  /** Leading whitespace before a trimmed line is stripped away. */
  lemma {:induction false} StripIndented(w: string, l: string)
    requires AllSpace(w) && Trimmed(l)
    ensures Strip(w + l) == l
    decreases |w|
  {
    if |w| > 0 && l != "" {
      assert (w + l)[1..] == w[1..] + l;
      StripIndented(w[1..], l);
    } else if |w| > 0 {
      assert w + l == w;
      StripEmptyIff(w);
    } else {
      assert w + l == l;
    }
  }

  /** An indented text line strips to its text and holds no newline. */
  lemma IndentedText(w: string, l: string)
    requires Indentation(w) && TextLine(l)
    ensures |w + l| > 0
    ensures '\n' !in w + l
    ensures Strip(w + l) == l
  {
    StripIndented(w, l);
    NoNewlineConcat(w, l);
  }

  lemma NoNewlineConcat(x: string, y: string)
    requires '\n' !in x && '\n' !in y
    ensures '\n' !in x + y
  {
  }

  lemma JoinTwo(x: string, y: string, sep: string)
    ensures Join([x, y], sep) == x + sep + y
  {
    assert [x, y][1..] == [y];
  }

  lemma JoinThree(x: string, y: string, z: string, sep: string)
    ensures Join([x, y, z], sep) == x + sep + (y + sep + z)
  {
    assert [x, y, z][1..] == [y, z];
    JoinTwo(y, z, sep);
  }

  /** No line holds a newline. */
  predicate Unbroken(lines: seq<string>)
  {
    forall i :: 0 <= i < |lines| ==> '\n' !in lines[i]
  }

  lemma UnbrokenTwo(x: string, y: string)
    requires '\n' !in x && '\n' !in y
    ensures Unbroken([x, y])
  {
  }

  lemma UnbrokenThree(x: string, y: string, z: string)
    requires '\n' !in x && '\n' !in y && '\n' !in z
    ensures Unbroken([x, y, z])
  {
  }

  /** `clean_block` on a chunk given as its lines. */
  lemma CleanLines(lines: seq<string>, kept: seq<string>, block: string, cleaned: string)
    requires |lines| > 0 && Unbroken(lines) && Join(lines, "\n") == block
    requires |kept| > 0 && DropEmpty(StripAll(lines)) == kept && Join(kept, "\n") == cleaned
    ensures CleanBlock(block) == cleaned
  {
    forall k | 0 <= k < |lines| ensures CleanPiece(lines[k], "\n") && !Contains(lines[k], "\n") {
      CleanForNewline(lines[k]);
    }
    SplitJoin(lines, "\n");
  }

  /** The opening chunk: a newline, then one indented line. */
  function Opening(w: string, b: string): string
  {
    "\n" + (w + b)
  }

  /** A chunk of two indented lines. */
  function Paragraph(w: string, a: string, s: string): string
  {
    (w + a) + "\n" + (w + s)
  }

  /** A chunk of two indented lines and a last line of indentation only. */
  function Closing(w: string, l1: string, l2: string): string
  {
    (w + l1) + "\n" + ((w + l2) + "\n" + w)
  }

  lemma OpeningClean(w: string, b: string)
    requires Indentation(w) && TextLine(b)
    ensures CleanBlock(Opening(w, b)) == b
  {
    OpeningLines(w, b);
    CleanLines(["", w + b], [b], Opening(w, b), b);
  }

  /** The opening chunk's lines, and what cleaning keeps of them. */
  lemma OpeningLines(w: string, b: string)
    requires Indentation(w) && TextLine(b)
    ensures Unbroken(["", w + b]) && Join(["", w + b], "\n") == Opening(w, b)
    ensures DropEmpty(StripAll(["", w + b])) == [b] && Join([b], "\n") == b
  {
    IndentedText(w, b);
    UnbrokenTwo("", w + b);
    JoinTwo("", w + b, "\n");
    assert "" + "\n" + (w + b) == "\n" + (w + b);
    OpeningKept(w, b);
  }

  lemma OpeningKept(w: string, b: string)
    requires Indentation(w) && TextLine(b)
    ensures DropEmpty(StripAll(["", w + b])) == [b]
  {
    IndentedText(w, b);
    assert StripAll(["", w + b]) == ["", b];
    assert ["", b][1..] == [b];
    DropEmptyKeeps([b]);
  }

  lemma ParagraphClean(w: string, a: string, s: string)
    requires Indentation(w) && TextLine(a) && TextLine(s)
    ensures CleanBlock(Paragraph(w, a, s)) == a + "\n" + s
  {
    ParagraphLines(w, a, s);
    CleanLines([w + a, w + s], [a, s], Paragraph(w, a, s), a + "\n" + s);
  }

  lemma ParagraphLines(w: string, a: string, s: string)
    requires Indentation(w) && TextLine(a) && TextLine(s)
    ensures Unbroken([w + a, w + s]) && Join([w + a, w + s], "\n") == Paragraph(w, a, s)
    ensures DropEmpty(StripAll([w + a, w + s])) == [a, s] && Join([a, s], "\n") == a + "\n" + s
  {
    IndentedText(w, a);
    IndentedText(w, s);
    UnbrokenTwo(w + a, w + s);
    JoinTwo(w + a, w + s, "\n");
    JoinTwo(a, s, "\n");
    ParagraphKept(w, a, s);
  }

  lemma ParagraphKept(w: string, a: string, s: string)
    requires Indentation(w) && TextLine(a) && TextLine(s)
    ensures DropEmpty(StripAll([w + a, w + s])) == [a, s]
  {
    IndentedText(w, a);
    IndentedText(w, s);
    assert StripAll([w + a, w + s]) == [a, s];
    DropEmptyKeeps([a, s]);
  }

  lemma DropEmptyTail(x: string, y: string)
    requires x != "" && y != ""
    ensures DropEmpty([x, y, ""]) == [x, y]
  {
    assert [x, y, ""][1..] == [y, ""];
    assert [y, ""][1..] == [""];
    assert DropEmpty([""]) == [];
  }

  lemma ClosingClean(w: string, l1: string, l2: string)
    requires Indentation(w) && TextLine(l1) && TextLine(l2)
    ensures CleanBlock(Closing(w, l1, l2)) == l1 + "\n" + l2
  {
    ClosingLines(w, l1, l2);
    CleanLines([w + l1, w + l2, w], [l1, l2], Closing(w, l1, l2), l1 + "\n" + l2);
  }

  lemma ClosingLines(w: string, l1: string, l2: string)
    requires Indentation(w) && TextLine(l1) && TextLine(l2)
    ensures Unbroken([w + l1, w + l2, w]) && Join([w + l1, w + l2, w], "\n") == Closing(w, l1, l2)
    ensures DropEmpty(StripAll([w + l1, w + l2, w])) == [l1, l2] && Join([l1, l2], "\n") == l1 + "\n" + l2
  {
    IndentedText(w, l1);
    IndentedText(w, l2);
    UnbrokenThree(w + l1, w + l2, w);
    JoinThree(w + l1, w + l2, w, "\n");
    JoinTwo(l1, l2, "\n");
    ClosingKept(w, l1, l2);
  }

  lemma ClosingKept(w: string, l1: string, l2: string)
    requires Indentation(w) && TextLine(l1) && TextLine(l2)
    ensures DropEmpty(StripAll([w + l1, w + l2, w])) == [l1, l2]
  {
    IndentedText(w, l1);
    IndentedText(w, l2);
    StripEmptyIff(w);
    assert StripAll([w + l1, w + l2, w]) == [l1, l2, ""];
    DropEmptyTail(l1, l2);
  }

  /** A newline in front of a line: no blank line, no trailing newline. */
  lemma NewlineThenLine(p: string)
    requires |p| > 0 && '\n' !in p
    ensures NoBlankLine("\n" + p) && ("\n" + p)[|p|] != '\n'
  {
    var s := "\n" + p;
    forall k | 0 <= k < |s| - 1 ensures !(s[k] == '\n' && s[k + 1] == '\n') {
      assert s[k + 1] == p[k];
      assert p[k] in p;
    }
    assert s[|p|] == p[|p| - 1];
    assert p[|p| - 1] in p;
  }

  lemma TwoLines(x: string, y: string)
    requires OneLine(x) && OneLine(y)
    ensures var j := x + "\n" + y; |j| > 0 && j[|j| - 1] != '\n' && NoBlankLine(j)
  {
    JoinTwo(x, y, "\n");
    var ls := [x, y];
    assert forall i :: 0 <= i < |ls| ==> OneLine(ls[i]);
    JoinLines(ls);
  }

  lemma ThreeLines(x: string, y: string, z: string)
    requires OneLine(x) && OneLine(y) && OneLine(z)
    ensures var j := x + "\n" + (y + "\n" + z); |j| > 0 && j[|j| - 1] != '\n' && NoBlankLine(j)
  {
    JoinThree(x, y, z, "\n");
    var ls := [x, y, z];
    assert forall i :: 0 <= i < |ls| ==> OneLine(ls[i]);
    JoinLines(ls);
  }

  /** None of the three chunks holds a blank line or ends with a newline. */
  lemma ChunkShapes(w: string, b: string, a: string, s: string, l1: string, l2: string)
    requires Indentation(w)
    requires TextLine(b) && TextLine(a) && TextLine(s) && TextLine(l1) && TextLine(l2)
    ensures CleanPiece(Opening(w, b), "\n\n")
    ensures CleanPiece(Paragraph(w, a, s), "\n\n")
    ensures !Contains(Closing(w, l1, l2), "\n\n")
  {
    IndentedText(w, b);
    IndentedText(w, a);
    IndentedText(w, s);
    IndentedText(w, l1);
    IndentedText(w, l2);
    NewlineThenLine(w + b);
    BlockCleanPiece(Opening(w, b));
    TwoLines(w + a, w + s);
    BlockCleanPiece(Paragraph(w, a, s));
    ThreeLines(w + l1, w + l2, w);
    NoBlankLineNoSeparator(Closing(w, l1, l2));
  }

  /** A document shaped like the test's: a leading newline, a one-line
      paragraph, a two-line paragraph and a two-line list, every line
      indented by `w`, and a last line holding only the indentation. */
  function Document(w: string, b: string, a: string, s: string, l1: string, l2: string): string
  {
    Opening(w, b) + "\n\n" + (Paragraph(w, a, s) + "\n\n" + Closing(w, l1, l2))
  }

  /** Such a document splits at its two blank lines into the three chunks. */
  lemma DocumentChunks(w: string, b: string, a: string, s: string, l1: string, l2: string)
    requires Indentation(w)
    requires TextLine(b) && TextLine(a) && TextLine(s) && TextLine(l1) && TextLine(l2)
    ensures Split(Document(w, b, a, s, l1, l2), "\n\n") == [Opening(w, b), Paragraph(w, a, s), Closing(w, l1, l2)]
  {
    var chunks := [Opening(w, b), Paragraph(w, a, s), Closing(w, l1, l2)];
    JoinThree(chunks[0], chunks[1], chunks[2], "\n\n");
    ChunkShapes(w, b, a, s, l1, l2);
    SplitJoin(chunks, "\n\n");
  }

  lemma ChunksClean(w: string, b: string, a: string, s: string, l1: string, l2: string)
    requires Indentation(w)
    requires TextLine(b) && TextLine(a) && TextLine(s) && TextLine(l1) && TextLine(l2)
    ensures CleanAll([Opening(w, b), Paragraph(w, a, s), Closing(w, l1, l2)]) == [b, a + "\n" + s, l1 + "\n" + l2]
  {
    CleanAllThree(Opening(w, b), Paragraph(w, a, s), Closing(w, l1, l2));
    OpeningClean(w, b);
    ParagraphClean(w, a, s);
    ClosingClean(w, l1, l2);
  }

  lemma CleanAllThree(x: string, y: string, z: string)
    ensures CleanAll([x, y, z]) == [CleanBlock(x), CleanBlock(y), CleanBlock(z)]
  {
  }

  lemma KeepThree(x: string, y: string, z: string)
    requires |x| > 0 && |y| > 0 && |z| > 0
    ensures DropEmpty([x, y, z]) == [x, y, z]
  {
    var xs := [x, y, z];
    assert forall i :: 0 <= i < |xs| ==> |xs[i]| > 0;
    DropEmptyKeeps(xs);
  }

  /** Such a document gives the three blocks with their indentation stripped. */
  lemma DocumentBlocks(w: string, b: string, a: string, s: string, l1: string, l2: string)
    requires Indentation(w)
    requires TextLine(b) && TextLine(a) && TextLine(s) && TextLine(l1) && TextLine(l2)
    ensures MarkdownToBlocks(Document(w, b, a, s, l1, l2)) == [b, a + "\n" + s, l1 + "\n" + l2]
  {
    DocumentChunks(w, b, a, s, l1, l2);
    ChunksClean(w, b, a, s, l1, l2);
    KeepThree(b, a + "\n" + s, l1 + "\n" + l2);
  }

  // ---------------------------------------------------------------------
  // The example of src/test_text_converter.py

  const Indent := "\t\t\t"
  const Bolded := "This is **bolded** paragraph"
  const Another := "This is another paragraph " + "with _italic_ text and `code` here"
  const Same := "This is the same paragraph on a new line"
  const ListOne := "- This is a list"
  const ListTwo := "- with items"

  /** The test's triple-quoted document, line by line: a leading newline,
      three paragraphs indented by three tabs with a blank line between them,
      and a last line of indentation only. */
  const TestMarkdown :=
    "\n" + Indent + Bolded + "\n"
    + "\n" + Indent + Another + "\n" + Indent + Same + "\n"
    + "\n" + Indent + ListOne + "\n" + Indent + ListTwo + "\n" + Indent

  /** The layout of the test's document over its lines. */
  function Layout(w: string, b: string, a: string, s: string, l1: string, l2: string): string
  {
    "\n" + w + b + "\n"
    + "\n" + w + a + "\n" + w + s + "\n"
    + "\n" + w + l1 + "\n" + w + l2 + "\n" + w
  }

  /** The layout is the three chunks joined by blank lines. */
  lemma LayoutChunks(w: string, b: string, a: string, s: string, l1: string, l2: string)
    ensures Layout(w, b, a, s, l1, l2) == Document(w, b, a, s, l1, l2)
  {
    var head := "\n" + w + b;
    var middle := head + "\n" + "\n" + w + a + "\n" + w + s;
    ChunkOpening(w, b);
    ChunkParagraph(head, w, a, s);
    ChunkClosing(middle, w, l1, l2);
    BlankLineRegroup(Opening(w, b), Paragraph(w, a, s), Closing(w, l1, l2));
  }

  lemma ChunkOpening(w: string, b: string)
    ensures "\n" + w + b == Opening(w, b)
  {
  }

  lemma ChunkParagraph(x: string, w: string, a: string, s: string)
    ensures x + "\n" + "\n" + w + a + "\n" + w + s == x + "\n\n" + Paragraph(w, a, s)
  {
  }

  lemma ChunkClosing(x: string, w: string, l1: string, l2: string)
    ensures x + "\n" + "\n" + w + l1 + "\n" + w + l2 + "\n" + w == x + "\n\n" + Closing(w, l1, l2)
  {
  }

  lemma BlankLineRegroup(o: string, p: string, c: string)
    ensures o + "\n\n" + p + "\n\n" + c == o + "\n\n" + (p + "\n\n" + c)
  {
  }

  lemma TestDocument()
    ensures TestMarkdown == Document(Indent, Bolded, Another, Same, ListOne, ListTwo)
  {
    assert TestMarkdown == Layout(Indent, Bolded, Another, Same, ListOne, ListTwo);
    LayoutChunks(Indent, Bolded, Another, Same, ListOne, ListTwo);
  }

  lemma TestIndent()
    ensures Indentation(Indent)
  {
  }

  lemma TestBolded()
    ensures TextLine(Bolded)
  {
  }

  lemma TestAnother()
    ensures TextLine(Another)
  {
    NoNewlineConcat("This is another paragraph ", "with _italic_ text and `code` here");
  }

  lemma TestSame()
    ensures TextLine(Same)
  {
  }

  lemma TestList()
    ensures TextLine(ListOne) && TextLine(ListTwo)
  {
  }

  /** The test's document gives the three paragraphs, stripped of their
      indentation, with the paragraph's two lines still joined by "\n". */
  lemma TestMarkdownToBlocks()
    ensures MarkdownToBlocks(TestMarkdown) == [Bolded, Another + "\n" + Same, ListOne + "\n" + ListTwo]
  {
    TestDocument();
    TestIndent();
    TestBolded();
    TestAnother();
    TestSame();
    TestList();
    DocumentBlocks(Indent, Bolded, Another, Same, ListOne, ListTwo);
  }
}
