/** `extract_markdown_images` and `extract_markdown_links` of src/textnode.py:
    `re.findall` with the patterns `!\[([^\[\]]*)\]\(([^\(\)]*)\)` and
    `(?<!!)\[([^\[\]]*)\]\(([^\(\)]*)\)`, written as a left-to-right scanner.
    Each group is a greedy run of characters outside a two-character class
    followed by a fixed closing character, so a match at a given position is
    unique and needs no backtracking. */
module MarkdownLinks {
  import opened Results
  import opened PyStrings
  import opened TextNodes

  /** One match: where it starts, where it ends, and its two groups. */
  datatype Match = Match(start: nat, end: nat, alt: string, url: string)

  /** The characters `[^\[\]]` excludes. */
  const AltStop: set<char> := {'[', ']'}
  /** The characters `[^\(\)]` excludes. */
  const UrlStop: set<char> := {'(', ')'}

  predicate Avoids(s: string, stop: set<char>)
  {
    forall k :: 0 <= k < |s| ==> s[k] !in stop
  }

  /** The end of the longest run from `p` of characters outside `stop`. */
  function RunEnd(s: string, p: nat, stop: set<char>): (e: nat)
    requires p <= |s|
    ensures p <= e <= |s|
    decreases |s| - p
  {
    if p == |s| || s[p] in stop then p else RunEnd(s, p + 1, stop)
  }

  /** The run is as long as it can be: it avoids `stop` and ends at the text's
      end or at a character of `stop`. */
  lemma {:induction false} RunEndSound(s: string, p: nat, stop: set<char>)
    requires p <= |s|
    ensures var e := RunEnd(s, p, stop);
      && (forall k :: p <= k < e ==> s[k] !in stop)
      && (e == |s| || s[e] in stop)
    decreases |s| - p
  {
    if p < |s| && s[p] !in stop {
      RunEndSound(s, p + 1, stop);
    }
  }

  /** The lookbehind `(?<!!)` at position `p`. */
  predicate NotAfterBang(s: string, p: nat)
  {
    p == 0 || (p <= |s| && s[p - 1] != '!')
  }

  /** The literal opening of a match. */
  function Opening(kind: Kind): string
  {
    if kind == ImageKind then "![" else "["
  }

  /** `s[i]` exists and is `c`. */
  predicate CharAt(s: string, i: int, c: char)
  {
    0 <= i < |s| && s[i] == c
  }

  /** The opening of a match at `p`: `![`, or a `[` not preceded by `!`. */
  predicate Opens(s: string, p: nat, kind: Kind)
  {
    if kind == ImageKind then CharAt(s, p, '!') && CharAt(s, p + 1, '[')
    else CharAt(s, p, '[') && NotAfterBang(s, p)
  }

  /** The match of the pattern starting exactly at `p`, if any. */
  function MatchAt(s: string, p: nat, kind: Kind): (r: Option<Match>)
    ensures r.Some? ==> r.value.start == p && p < r.value.end <= |s|
  {
    if !Opens(s, p, kind) then None
    else
      var a := p + |Opening(kind)|;
      var ae := RunEnd(s, a, AltStop);
      if !(CharAt(s, ae, ']') && CharAt(s, ae + 1, '(')) then None
      else
        var ue := RunEnd(s, ae + 2, UrlStop);
        if !CharAt(s, ue, ')') then None
        else Some(Match(p, ue + 1, s[a..ae], s[ae + 2..ue]))
  }

  /** `re.findall` from position `p`: try each position in turn, and after a
      match resume where it ended. */
  function Scan(s: string, p: nat, kind: Kind): seq<Match>
    decreases |s| - p
  {
    if p >= |s| then []
    else match MatchAt(s, p, kind)
      case Some(m) => [m] + Scan(s, m.end, kind)
      case None => Scan(s, p + 1, kind)
  }

  /** The list of `(alt, url)` or `(text, url)` tuples `findall` returns. */
  function Captures(ms: seq<Match>): (cs: seq<(string, string)>)
    ensures |cs| == |ms|
  {
    seq(|ms|, i requires 0 <= i < |ms| => (ms[i].alt, ms[i].url))
  }

  /** `extract_markdown_images(text)` for `ImageKind`, `extract_markdown_links(text)` for `LinkKind`. */
  function Extract(text: string, kind: Kind): seq<(string, string)>
  {
    Captures(Scan(text, 0, kind))
  }

  // ---------------------------------------------------------------------
  // The scanner matches exactly the pattern

  lemma {:induction false} RunEndExact(s: string, p: nat, e: nat, stop: set<char>)
    requires p <= e < |s| && s[e] in stop
    requires forall k :: p <= k < e ==> s[k] !in stop
    ensures RunEnd(s, p, stop) == e
    decreases e - p
  {
    if p < e {
      RunEndExact(s, p + 1, e, stop);
    }
  }

  /** The literal text a match covers, with its groups in place. */
  predicate Spells(s: string, p: nat, kind: Kind, alt: string, url: string)
  {
    OccursAt(s, Syntax(kind, alt, url), p)
  }

  /** The pattern's text laid out piece by piece at `p`: the opening, the
      first group, `](`, the second group and `)`. */
  predicate Pieces(s: string, p: nat, kind: Kind, alt: string, url: string)
  {
    && OccursAt(s, Opening(kind), p)
    && OccursAt(s, alt, p + |Opening(kind)|)
    && OccursAt(s, "](", p + |Opening(kind)| + |alt|)
    && OccursAt(s, url, p + |Opening(kind)| + |alt| + 2)
    && OccursAt(s, ")", p + |Opening(kind)| + |alt| + 2 + |url|)
  }

  lemma SpellsIffPieces(s: string, p: nat, kind: Kind, alt: string, url: string)
    ensures Spells(s, p, kind, alt, url) <==> Pieces(s, p, kind, alt, url)
  {
    var o := Opening(kind);
    assert Syntax(kind, alt, url) == o + alt + "](" + url + ")";
    OccursConcat(s, o + alt + "](" + url, ")", p);
    OccursConcat(s, o + alt + "](", url, p);
    OccursConcat(s, o + alt, "](", p);
    OccursConcat(s, o, alt, p);
  }

  /** The positions `MatchAt` computes, and the tests it passed. */
  lemma MatchAtUnfold(s: string, p: nat, kind: Kind) returns (a: nat, ae: nat, ue: nat)
    requires MatchAt(s, p, kind).Some?
    ensures Opens(s, p, kind) && a == p + |Opening(kind)| && a <= ae && ae + 2 <= ue < |s|
    ensures ae == RunEnd(s, a, AltStop) && ue == RunEnd(s, ae + 2, UrlStop)
    ensures CharAt(s, ae, ']') && CharAt(s, ae + 1, '(') && CharAt(s, ue, ')')
    ensures MatchAt(s, p, kind).value == Match(p, ue + 1, s[a..ae], s[ae + 2..ue])
  {
    a := p + |Opening(kind)|;
    ae := RunEnd(s, a, AltStop);
    ue := RunEnd(s, ae + 2, UrlStop);
  }

  /** `MatchAt` succeeds once each of its tests passes. */
  lemma MatchAtFold(s: string, p: nat, kind: Kind, a: nat, ae: nat, ue: nat)
    requires Opens(s, p, kind) && a == p + |Opening(kind)| && a <= ae && ae + 2 <= ue < |s|
    requires ae == RunEnd(s, a, AltStop) && ue == RunEnd(s, ae + 2, UrlStop)
    requires CharAt(s, ae, ']') && CharAt(s, ae + 1, '(') && CharAt(s, ue, ')')
    ensures MatchAt(s, p, kind) == Some(Match(p, ue + 1, s[a..ae], s[ae + 2..ue]))
  {
  }

  /** A run's text avoids the stop characters. */
  lemma RunAvoids(s: string, p: nat, e: nat, stop: set<char>)
    requires p <= |s| && e == RunEnd(s, p, stop)
    ensures Avoids(s[p..e], stop)
  {
    RunEndSound(s, p, stop);
    forall k | 0 <= k < e - p ensures s[p..e][k] !in stop {
      assert s[p..e][k] == s[p + k];
    }
  }

  /** A literal of one or two characters, read character by character. */
  lemma OneChar(s: string, i: nat, c: char)
    ensures CharAt(s, i, c) <==> OccursAt(s, [c], i)
  {
    if OccursAt(s, [c], i) {
      assert s[i] == s[i..i + 1][0];
    }
  }

  lemma TwoChars(s: string, i: nat, c: char, d: char)
    ensures CharAt(s, i, c) && CharAt(s, i + 1, d) <==> OccursAt(s, [c, d], i)
  {
    if OccursAt(s, [c, d], i) {
      assert s[i] == s[i..i + 2][0];
      assert s[i + 1] == s[i..i + 2][1];
    }
  }

  /** The opening test, as an occurrence of the literal opening. */
  lemma OpensOccurs(s: string, p: nat, kind: Kind)
    ensures Opens(s, p, kind) <==> OccursAt(s, Opening(kind), p) && (kind == LinkKind ==> NotAfterBang(s, p))
  {
    if kind == ImageKind {
      TwoChars(s, p, '!', '[');
      assert Opening(kind) == ['!', '['];
    } else {
      OneChar(s, p, '[');
      assert Opening(kind) == ['['];
    }
  }

  /** Text read off the string at the given positions lies there piece by piece. */
  lemma PiecesAt(s: string, p: nat, kind: Kind, a: nat, ae: nat, ue: nat)
    requires a == p + |Opening(kind)| && OccursAt(s, Opening(kind), p)
    requires a <= ae && ae + 2 <= ue < |s|
    requires OccursAt(s, "](", ae) && OccursAt(s, ")", ue)
    ensures Pieces(s, p, kind, s[a..ae], s[ae + 2..ue])
  {
  }

  /** Soundness: a match covers exactly `![alt](url)` or `[text](url)`, and
      a link is never preceded by `!`. */
  lemma MatchAtSound(s: string, p: nat, kind: Kind, m: Match)
    requires MatchAt(s, p, kind) == Some(m)
    ensures Spells(s, p, kind, m.alt, m.url)
    ensures m.end == p + |Syntax(kind, m.alt, m.url)|
    ensures kind == LinkKind ==> NotAfterBang(s, p)
  {
    var a, ae, ue := MatchAtUnfold(s, p, kind);
    OpensOccurs(s, p, kind);
    TwoChars(s, ae, ']', '(');
    OneChar(s, ue, ')');
    PiecesAt(s, p, kind, a, ae, ue);
    SpellsIffPieces(s, p, kind, s[a..ae], s[ae + 2..ue]);
  }

  /** The groups of a match hold none of the excluded characters. */
  lemma MatchAtGroups(s: string, p: nat, kind: Kind, m: Match)
    requires MatchAt(s, p, kind) == Some(m)
    ensures Avoids(m.alt, AltStop) && Avoids(m.url, UrlStop)
  {
    var a, ae, ue := MatchAtUnfold(s, p, kind);
    RunAvoids(s, a, ae, AltStop);
    RunAvoids(s, ae + 2, ue, UrlStop);
  }

  /** Completeness: wherever the text lays out the pattern piece by piece
      (equivalently, by `SpellsIffPieces`, wherever it spells the pattern),
      with groups free of the excluded characters and, for a link, no `!`
      just before, the scanner finds that very match. */
  lemma PiecesComplete(s: string, p: nat, kind: Kind, alt: string, url: string, e: nat)
    requires Pieces(s, p, kind, alt, url)
    requires Avoids(alt, AltStop) && Avoids(url, UrlStop)
    requires kind == LinkKind ==> NotAfterBang(s, p)
    requires e == p + |Opening(kind)| + |alt| + |url| + 3
    ensures MatchAt(s, p, kind) == Some(Match(p, e, alt, url))
  {
    var a := p + |Opening(kind)|;
    var ae := a + |alt|;
    var ue := ae + 2 + |url|;
    PiecesTests(s, p, kind, alt, url, a, ae, ue);
    TestsComplete(s, p, kind, alt, url, a, ae, ue, e);
  }

  lemma OccursMoved(s: string, x: string, i: int, j: int)
    requires OccursAt(s, x, i) && i == j
    ensures OccursAt(s, x, j)
  {
  }

  /** Once its tests pass, `MatchAt` reports the groups laid out in the text. */
  lemma TestsComplete(s: string, p: nat, kind: Kind, alt: string, url: string, a: nat, ae: nat, ue: nat, e: nat)
    requires Opens(s, p, kind) && a == p + |Opening(kind)| && a <= ae && ae + 2 <= ue < |s|
    requires ae == RunEnd(s, a, AltStop) && ue == RunEnd(s, ae + 2, UrlStop)
    requires CharAt(s, ae, ']') && CharAt(s, ae + 1, '(') && CharAt(s, ue, ')')
    requires e == ue + 1
    requires ae == a + |alt| && ue == ae + 2 + |url|
    requires OccursAt(s, alt, a) && OccursAt(s, url, ae + 2)
    ensures MatchAt(s, p, kind) == Some(Match(p, e, alt, url))
  {
    MatchAtFold(s, p, kind, a, ae, ue);
    SameMatch(MatchAt(s, p, kind), s, p, e, a, ae, ue, alt, url);
  }

  /** The tests `MatchAt` makes all pass on text laid out as the pattern. */
  lemma PiecesTests(s: string, p: nat, kind: Kind, alt: string, url: string, a: nat, ae: nat, ue: nat)
    requires Pieces(s, p, kind, alt, url)
    requires Avoids(alt, AltStop) && Avoids(url, UrlStop)
    requires kind == LinkKind ==> NotAfterBang(s, p)
    requires a == p + |Opening(kind)| && ae == a + |alt| && ue == ae + 2 + |url|
    ensures Opens(s, p, kind) && a == p + |Opening(kind)| && a <= ae && ae + 2 <= ue < |s|
    ensures ae == RunEnd(s, a, AltStop) && ue == RunEnd(s, ae + 2, UrlStop)
    ensures CharAt(s, ae, ']') && CharAt(s, ae + 1, '(') && CharAt(s, ue, ')')
    ensures OccursAt(s, alt, a) && OccursAt(s, url, ae + 2)
  {
    OpensOccurs(s, p, kind);
    TwoChars(s, ae, ']', '(');
    OneChar(s, ue, ')');
    RunOver(s, a, alt, AltStop, ']');
    RunOver(s, ae + 2, url, UrlStop, ')');
    OccursMoved(s, alt, p + |Opening(kind)|, a);
    OccursMoved(s, url, p + |Opening(kind)| + |alt| + 2, ae + 2);
  }

  /** The groups read off the string are the ones laid out there. */
  lemma SameMatch(r: Option<Match>, s: string, p: nat, e: nat, a: nat, ae: nat, ue: nat, alt: string, url: string)
    requires OccursAt(s, alt, a) && OccursAt(s, url, ae + 2)
    requires ae == a + |alt| && ue == ae + 2 + |url| && e == ue + 1
    requires r == Some(Match(p, ue + 1, s[a..ae], s[ae + 2..ue]))
    ensures r == Some(Match(p, e, alt, url))
  {
  }

  /** A run over text free of the stop characters ends at the stop character after it. */
  lemma RunOver(s: string, p: nat, x: string, stop: set<char>, c: char)
    requires OccursAt(s, x, p) && Avoids(x, stop)
    requires p + |x| < |s| && s[p + |x|] == c && c in stop
    ensures RunEnd(s, p, stop) == p + |x|
  {
    forall k | p <= k < p + |x| ensures s[k] !in stop {
      assert s[k] == s[p..p + |x|][k - p];
    }
    RunEndExact(s, p, p + |x|, stop);
  }

  /** `m` is the match the pattern makes at its own start. */
  predicate Found(s: string, kind: Kind, m: Match)
  {
    MatchAt(s, m.start, kind) == Some(m)
  }

  /** Matches that all start at or after `p`, each ending before the next starts. */
  predicate Ordered(p: nat, ms: seq<Match>)
  {
    && (forall i :: 0 <= i < |ms| ==> p <= ms[i].start < ms[i].end)
    && (forall i :: 0 <= i < |ms| - 1 ==> ms[i].end <= ms[i + 1].start)
  }

  predicate AllFound(s: string, kind: Kind, ms: seq<Match>)
  {
    forall i :: 0 <= i < |ms| ==> Found(s, kind, ms[i])
  }

  /** One step of `findall`: a match at `p` is reported and the scan resumes at its end. */
  lemma ScanMatch(s: string, p: nat, kind: Kind, m: Match)
    requires p < |s| && MatchAt(s, p, kind) == Some(m)
    ensures Scan(s, p, kind) == [m] + Scan(s, m.end, kind)
  {
  }

  /** One step of `findall`: with no match at `p` the scan moves on by one. */
  lemma ScanNoMatch(s: string, p: nat, kind: Kind)
    requires p < |s| && MatchAt(s, p, kind).None?
    ensures Scan(s, p, kind) == Scan(s, p + 1, kind)
  {
  }

  lemma OrderedCons(p: nat, m: Match, rest: seq<Match>)
    requires p <= m.start < m.end && Ordered(m.end, rest)
    ensures Ordered(p, [m] + rest)
  {
    var ms := [m] + rest;
    forall i | 0 <= i < |ms| - 1 ensures ms[i].end <= ms[i + 1].start {
      assert ms[i + 1] == rest[i];
    }
  }

  lemma AllFoundCons(s: string, kind: Kind, m: Match, rest: seq<Match>)
    requires Found(s, kind, m) && AllFound(s, kind, rest)
    ensures AllFound(s, kind, [m] + rest)
  {
    var ms := [m] + rest;
    forall i | 0 <= i < |ms| ensures Found(s, kind, ms[i]) {
      if i > 0 {
        assert ms[i] == rest[i - 1];
      }
    }
  }

  /** Every match `findall` reports from `p` on is the match at its own start,
      and the matches come in text order without overlapping. */
  lemma {:induction false} ScanSound(s: string, p: nat, kind: Kind)
    ensures Ordered(p, Scan(s, p, kind)) && AllFound(s, kind, Scan(s, p, kind))
    decreases |s| - p
  {
    if p < |s| {
      match MatchAt(s, p, kind)
      case Some(m) =>
        ScanMatch(s, p, kind, m);
        ScanSound(s, m.end, kind);
        OrderedCons(p, m, Scan(s, m.end, kind));
        AllFoundCons(s, kind, m, Scan(s, m.end, kind));
      case None =>
        ScanNoMatch(s, p, kind);
        ScanSound(s, p + 1, kind);
    }
  }

  /** No reported match strictly straddles position `q`. */
  predicate Uncovered(ms: seq<Match>, q: nat)
  {
    forall i :: 0 <= i < |ms| ==> !(ms[i].start < q < ms[i].end)
  }

  lemma UncoveredTail(first: Match, rest: seq<Match>, q: nat)
    requires Uncovered([first] + rest, q)
    ensures Uncovered(rest, q) && !(first.start < q < first.end)
  {
    assert ([first] + rest)[0] == first;
    forall i | 0 <= i < |rest| ensures !(rest[i].start < q < rest[i].end) {
      assert rest[i] == ([first] + rest)[i + 1];
    }
  }

  /** `findall` misses no match: every match the pattern makes at a position
      from `p` on that no reported match covers is reported. */
  lemma {:induction false} ScanComplete(s: string, p: nat, kind: Kind, q: nat, m: Match)
    requires p <= q && MatchAt(s, q, kind) == Some(m)
    requires Uncovered(Scan(s, p, kind), q)
    ensures m in Scan(s, p, kind)
    decreases |s| - p
  {
    match MatchAt(s, p, kind)
    case Some(first) =>
      ScanMatch(s, p, kind, first);
      if q != p {
        UncoveredTail(first, Scan(s, first.end, kind), q);
        ScanComplete(s, first.end, kind, q, m);
      }
    case None =>
      ScanNoMatch(s, p, kind);
      ScanComplete(s, p + 1, kind, q, m);
  }

  /** The groups `findall` returns never hold a bracket (first group) or a
      parenthesis (second group). */
  lemma ExtractCaptures(text: string, kind: Kind)
    ensures forall c :: c in Extract(text, kind) ==> Avoids(c.0, AltStop) && Avoids(c.1, UrlStop)
  {
    var ms := Scan(text, 0, kind);
    ScanSound(text, 0, kind);
    forall c | c in Extract(text, kind) ensures Avoids(c.0, AltStop) && Avoids(c.1, UrlStop) {
      var i :| 0 <= i < |ms| && Captures(ms)[i] == c;
      assert Found(text, kind, ms[i]);
      MatchAtGroups(text, ms[i].start, kind, ms[i]);
    }
  }

  /** A link `findall` reports is never immediately preceded by `!`. */
  lemma LinksNotAfterBang(text: string)
    ensures forall m :: m in Scan(text, 0, LinkKind) ==> NotAfterBang(text, m.start)
  {
    var ms := Scan(text, 0, LinkKind);
    ScanSound(text, 0, LinkKind);
    forall m | m in ms ensures NotAfterBang(text, m.start) {
      var i :| 0 <= i < |ms| && ms[i] == m;
      assert Found(text, LinkKind, ms[i]);
      MatchAtSound(text, m.start, LinkKind, m);
    }
  }
}
