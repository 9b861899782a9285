/** The handful of Python `str` operations the converter relies on, written
    out with the semantics CPython gives them: `find`, `split` (with and
    without `maxsplit`), `count`, `join` and `strip`. */
module PyStrings {
  import opened Results

  /** `d` occurs in `s` starting at index `j`. */
  predicate OccursAt(s: string, d: string, j: int)
  {
    0 <= j && j + |d| <= |s| && s[j..j + |d|] == d
  }

  /** `d in s` */
  predicate Contains(s: string, d: string)
  {
    exists j :: 0 <= j <= |s| && OccursAt(s, d, j)
  }

  /** The first index at or after `k` where `d` occurs in `s`. */
  function IndexFrom(s: string, d: string, k: nat): (r: Option<nat>)
    ensures r.Some? ==> k <= r.value && OccursAt(s, d, r.value)
    decreases |s| - k
  {
    if k + |d| > |s| then None
    else if s[k..k + |d|] == d then Some(k)
    else IndexFrom(s, d, k + 1)
  }

  /** `s.find(d)`, with `None` in place of -1. */
  function Find(s: string, d: string): (r: Option<nat>)
    ensures r.Some? ==> OccursAt(s, d, r.value)
  {
    IndexFrom(s, d, 0)
  }

  /** `IndexFrom` finds the first occurrence and misses none. */
  lemma {:induction false} IndexFromFirst(s: string, d: string, k: nat)
    ensures var r := IndexFrom(s, d, k);
      && (r.Some? ==> forall j :: k <= j < r.value ==> !OccursAt(s, d, j))
      && (r.None? ==> forall j :: k <= j ==> !OccursAt(s, d, j))
    decreases |s| - k
  {
    if k + |d| <= |s| && s[k..k + |d|] != d {
      IndexFromFirst(s, d, k + 1);
    }
  }

  /** `find` returns the leftmost occurrence, and nothing exactly when there is none. */
  lemma FindFirst(s: string, d: string)
    ensures var r := Find(s, d);
      && (r.Some? ==> forall j :: 0 <= j < r.value ==> !OccursAt(s, d, j))
      && (r.None? <==> !Contains(s, d))
  {
    IndexFromFirst(s, d, 0);
  }

  /** `s.split(sep, maxsplit)`: a negative `maxsplit` means no limit, as in
      Python. An empty separator is a ValueError in Python; every caller in
      the converter passes a non-empty literal. */
  function SplitN(s: string, sep: string, maxsplit: int): (r: seq<string>)
    requires |sep| > 0
    ensures 1 <= |r|
    ensures maxsplit >= 0 ==> |r| <= maxsplit + 1
    decreases |s|
  {
    if maxsplit == 0 then [s]
    else match Find(s, sep)
      case None => [s]
      case Some(i) => [s[..i]] + SplitN(s[i + |sep|..], sep, maxsplit - 1)
  }

  /** `s.split(sep)` */
  function Split(s: string, sep: string): (r: seq<string>)
    requires |sep| > 0
  {
    SplitN(s, sep, -1)
  }

  /** `sep.join(parts)` */
  function Join(parts: seq<string>, sep: string): string
  {
    if |parts| == 0 then ""
    else if |parts| == 1 then parts[0]
    else parts[0] + sep + Join(parts[1..], sep)
  }

  /** `s.count(sep)`: leftmost, non-overlapping occurrences. */
  function Count(s: string, sep: string): nat
    requires |sep| > 0
    decreases |s|
  {
    match Find(s, sep)
    case None => 0
    case Some(i) => 1 + Count(s[i + |sep|..], sep)
  }

  /** The characters `str.strip()` removes, restricted to the Latin-1 range. */
  predicate IsSpace(c: char)
  {
    var n := c as int;
    n == 32 || 9 <= n <= 13 || 28 <= n <= 31 || n == 0x85 || n == 0xA0
  }

  predicate AllSpace(s: string)
  {
    forall k :: 0 <= k < |s| ==> IsSpace(s[k])
  }

  /** Neither end of `s` is whitespace. */
  predicate Trimmed(s: string)
  {
    s == [] || (!IsSpace(s[0]) && !IsSpace(s[|s| - 1]))
  }

  /** `s.lstrip()`: the longest suffix of `s` that does not start with whitespace. */
  function TrimLeft(s: string): (r: string)
    ensures |r| <= |s| && r == s[|s| - |r|..]
    ensures r == [] || !IsSpace(r[0])
    ensures forall k :: 0 <= k < |s| - |r| ==> IsSpace(s[k])
    decreases |s|
  {
    if |s| > 0 && IsSpace(s[0]) then TrimLeft(s[1..]) else s
  }

  /** `s.rstrip()`: the longest prefix of `s` that does not end with whitespace. */
  function TrimRight(s: string): (r: string)
    ensures |r| <= |s| && r == s[..|r|]
    ensures r == [] || !IsSpace(r[|r| - 1])
    ensures forall k :: |r| <= k < |s| ==> IsSpace(s[k])
    decreases |s|
  {
    if |s| > 0 && IsSpace(s[|s| - 1]) then TrimRight(s[..|s| - 1]) else s
  }

  /** `s.strip()` */
  function Strip(s: string): (r: string)
    ensures Trimmed(r)
    ensures forall c :: c in r ==> c in s
  {
    var l := TrimLeft(s);
    var r := TrimRight(l);
    assert r != [] ==> r[0] == l[0];
    assert forall k :: 0 <= k < |r| ==> r[k] == s[|s| - |l| + k];
    r
  }

  // ---------------------------------------------------------------------
  // Lemmas about find, split and join

  /** The first occurrence found in a prefix is still the first once more text follows. */
  lemma FindPrefixStable(a: string, b: string, d: string, i: nat)
    requires Find(a, d) == Some(i)
    ensures Find(a + b, d) == Some(i)
  {
    FindFirst(a, d);
    FindFirst(a + b, d);
    assert OccursAt(a + b, d, i) by {
      assert (a + b)[i..i + |d|] == a[i..i + |d|];
    }
    var r := Find(a + b, d);
    if r.value < i {
      assert (a + b)[r.value..r.value + |d|] == a[r.value..r.value + |d|];
      assert OccursAt(a, d, r.value);
    }
  }

  /** No occurrence of `d` lies within the text before its first occurrence. */
  lemma NothingBeforeFirst(s: string, d: string, i: nat)
    requires |d| > 0 && Find(s, d) == Some(i)
    ensures !Contains(s[..i], d)
  {
    FindFirst(s, d);
    if Contains(s[..i], d) {
      var j :| 0 <= j <= i && OccursAt(s[..i], d, j);
      assert s[..i][j..j + |d|] == s[j..j + |d|];
      assert OccursAt(s, d, j);
    }
  }

  lemma JoinCons(x: string, rest: seq<string>, sep: string)
    requires |rest| >= 1
    ensures Join([x] + rest, sep) == x + sep + Join(rest, sep)
  {
    assert ([x] + rest)[1..] == rest;
  }

  /** One step of `split`: the text before the first separator, then the rest split again. */
  lemma SplitNStep(s: string, sep: string, maxsplit: int, i: nat)
    requires |sep| > 0 && maxsplit != 0 && Find(s, sep) == Some(i)
    ensures SplitN(s, sep, maxsplit) == [s[..i]] + SplitN(s[i + |sep|..], sep, maxsplit - 1)
  {
  }

  /** Every negative budget is the same unlimited split. */
  lemma {:induction false} SplitNUnlimited(s: string, sep: string, maxsplit: int)
    requires |sep| > 0 && maxsplit < 0
    ensures SplitN(s, sep, maxsplit) == Split(s, sep)
    decreases |s|
  {
    match Find(s, sep)
    case None =>
    case Some(i) =>
      SplitNStep(s, sep, maxsplit, i);
      SplitNStep(s, sep, -1, i);
      SplitNUnlimited(s[i + |sep|..], sep, maxsplit - 1);
      SplitNUnlimited(s[i + |sep|..], sep, -2);
  }

  /** Cutting out an occurrence and gluing it back. */
  lemma Reassemble(s: string, d: string, i: nat)
    requires OccursAt(s, d, i)
    ensures s[..i] + d + s[i + |d|..] == s
  {
  }

  /** An occurrence of `x + y` is an occurrence of `x` followed directly by one of `y`. */
  lemma OccursConcat(s: string, x: string, y: string, j: nat)
    ensures OccursAt(s, x + y, j) <==> OccursAt(s, x, j) && OccursAt(s, y, j + |x|)
  {
    if j + |x| + |y| <= |s| {
      var t := s[j..j + |x| + |y|];
      assert t[..|x|] == s[j..j + |x|];
      assert t[|x|..] == s[j + |x|..j + |x| + |y|];
      if OccursAt(s, x, j) && OccursAt(s, y, j + |x|) {
        assert t == t[..|x|] + t[|x|..];
      }
    }
  }

  /** Joining the pieces of a split with the separator gives the text back. */
  lemma {:induction false} JoinSplitN(s: string, sep: string, maxsplit: int)
    requires |sep| > 0
    ensures Join(SplitN(s, sep, maxsplit), sep) == s
    decreases |s|
  {
    if maxsplit != 0 && Find(s, sep).Some? {
      var i := Find(s, sep).value;
      var rest := s[i + |sep|..];
      var tail := SplitN(rest, sep, maxsplit - 1);
      SplitNStep(s, sep, maxsplit, i);
      JoinCons(s[..i], tail, sep);
      JoinSplitN(rest, sep, maxsplit - 1);
      Reassemble(s, sep, i);
    } else {
      assert SplitN(s, sep, maxsplit) == [s];
    }
  }

  /** Every piece of a split but the last is free of the separator; the last
      one is free of it unless the `maxsplit` cap was reached. */
  lemma {:induction false} SplitNPieces(s: string, sep: string, maxsplit: int)
    requires |sep| > 0
    ensures var r := SplitN(s, sep, maxsplit);
      && (forall k :: 0 <= k < |r| - 1 ==> !Contains(r[k], sep))
      && (Contains(r[|r| - 1], sep) ==> maxsplit >= 0 && |r| == maxsplit + 1)
    decreases |s|
  {
    if maxsplit != 0 && Find(s, sep).Some? {
      var i := Find(s, sep).value;
      SplitNStep(s, sep, maxsplit, i);
      NothingBeforeFirst(s, sep, i);
      SplitNPieces(s[i + |sep|..], sep, maxsplit - 1);
    } else {
      FindFirst(s, sep);
      assert SplitN(s, sep, maxsplit) == [s];
    }
  }

  lemma LastOfCons(r: seq<string>, x: string, tail: seq<string>)
    requires |tail| > 0 && r == [x] + tail
    ensures |r| - 1 == |tail| && r[|r| - 1] == tail[|tail| - 1]
  {
  }

  /** Each separator found is counted once and the count resumes after it. */
  lemma CountStep(s: string, sep: string, i: nat)
    requires |sep| > 0 && Find(s, sep) == Some(i)
    ensures Count(s, sep) == 1 + Count(s[i + |sep|..], sep)
  {
  }

  /** The number of pieces is the number of separators consumed plus one. */
  lemma {:induction false} SplitNCount(s: string, sep: string, maxsplit: int)
    requires |sep| > 0
    ensures var r := SplitN(s, sep, maxsplit);
      Count(s, sep) == |r| - 1 + Count(r[|r| - 1], sep)
    decreases |s|
  {
    if maxsplit != 0 && Find(s, sep).Some? {
      var i := Find(s, sep).value;
      var tail := SplitN(s[i + |sep|..], sep, maxsplit - 1);
      SplitNCount(s[i + |sep|..], sep, maxsplit - 1);
      SplitNCountStep(s, sep, maxsplit, i, tail, SplitN(s, sep, maxsplit));
    } else {
      SplitNWhole(s, sep, maxsplit);
    }
  }

  /** With no split left or no separator found, the text stays whole. */
  lemma SplitNWhole(s: string, sep: string, maxsplit: int)
    requires |sep| > 0 && (maxsplit == 0 || Find(s, sep).None?)
    ensures SplitN(s, sep, maxsplit) == [s]
  {
  }

  /** The count carries over one step of the split. */
  lemma SplitNCountStep(s: string, sep: string, maxsplit: int, i: nat, tail: seq<string>, r: seq<string>)
    requires |sep| > 0 && maxsplit != 0 && Find(s, sep) == Some(i)
    requires tail == SplitN(s[i + |sep|..], sep, maxsplit - 1) && r == SplitN(s, sep, maxsplit)
    requires |tail| > 0 && Count(s[i + |sep|..], sep) == |tail| - 1 + Count(tail[|tail| - 1], sep)
    ensures |r| > 0 && Count(s, sep) == |r| - 1 + Count(r[|r| - 1], sep)
  {
    SplitNStep(s, sep, maxsplit, i);
    CountStep(s, sep, i);
    LastOfCons(r, s[..i], tail);
  }

  /** `count` is zero exactly when the separator does not occur. */
  lemma CountZero(s: string, sep: string)
    requires |sep| > 0
    ensures Count(s, sep) == 0 <==> !Contains(s, sep)
  {
    FindFirst(s, sep);
  }

  /** The length bookkeeping of a three-way split: each piece is strictly
      shorter than the text it came from. */
  lemma SplitThreeShorter(s: string, sep: string)
    requires |sep| > 0 && |SplitN(s, sep, 2)| == 3
    ensures var r := SplitN(s, sep, 2);
      s == r[0] + sep + r[1] + sep + r[2] && |r[0]| < |s| && |r[2]| < |s|
  {
    JoinSplitN(s, sep, 2);
    JoinOfThree(SplitN(s, sep, 2), sep);
  }

  lemma JoinOfThree(parts: seq<string>, sep: string)
    requires |parts| == 3
    ensures Join(parts, sep) == parts[0] + sep + parts[1] + sep + parts[2]
  {
    var rest := parts[1..];
    assert Join(rest, sep) == parts[1] + sep + parts[2] by {
      assert rest[1..] == [parts[2]];
    }
  }

  /** A piece that ends before its first separator: splitting stops right after it. */
  predicate CleanPiece(p: string, sep: string)
  {
    Find(p + sep, sep) == Some(|p|)
  }

  /** A clean piece followed by the separator is split off as one piece. */
  lemma SplitCleanStep(p: string, sep: string, tail: string)
    requires |sep| > 0 && CleanPiece(p, sep)
    ensures Split(p + sep + tail, sep) == [p] + Split(tail, sep)
  {
    var s := p + sep + tail;
    FindPrefixStable(p + sep, tail, sep, |p|);
    assert s[..|p|] == p;
    assert s[|p| + |sep|..] == tail;
    SplitNStep(s, sep, -1, |p|);
    SplitNUnlimited(tail, sep, -2);
  }

  /** Splitting a join gives the parts back, provided no part runs into the
      separator that follows it. */
  lemma {:induction false} SplitJoin(parts: seq<string>, sep: string)
    requires |sep| > 0 && |parts| >= 1
    requires forall k :: 0 <= k < |parts| - 1 ==> CleanPiece(parts[k], sep)
    requires !Contains(parts[|parts| - 1], sep)
    ensures Split(Join(parts, sep), sep) == parts
    decreases |parts|
  {
    if |parts| == 1 {
      FindFirst(parts[0], sep);
      assert Split(parts[0], sep) == [parts[0]];
    } else {
      var rest := parts[1..];
      SplitJoin(rest, sep);
      JoinCons(parts[0], rest, sep);
      assert parts == [parts[0]] + rest;
      SplitCleanStep(parts[0], sep, Join(rest, sep));
    }
  }

  /** A string with no newline character is a clean piece for "\n". */
  lemma CleanForNewline(p: string)
    requires '\n' !in p
    ensures CleanPiece(p, "\n") && !Contains(p, "\n")
  {
    NoCharNoOccurrence(p, '\n');
    var s := p + "\n";
    assert OccursAt(s, "\n", |p|);
    FindFirst(s, "\n");
    forall j | 0 <= j < |p| ensures !OccursAt(s, "\n", j) {
      assert s[j] == p[j];
    }
  }

  lemma NoCharNoOccurrence(s: string, c: char)
    requires c !in s
    ensures !Contains(s, [c])
  {
    forall j | 0 <= j <= |s| ensures !OccursAt(s, [c], j) {
      if j + 1 <= |s| {
        assert s[j..j + 1] == [s[j]];
      }
    }
  }

  // ---------------------------------------------------------------------
  // Lemmas about strip

  /** `strip` returns "" exactly for whitespace-only text. */
  lemma StripEmptyIff(s: string)
    ensures Strip(s) == "" <==> AllSpace(s)
  {
    var l := TrimLeft(s);
    if TrimRight(l) == [] {
      assert l == [];
    }
  }

  /** Stripping trimmed text changes nothing, so `strip` is idempotent. */
  lemma StripTrimmed(s: string)
    requires Trimmed(s)
    ensures Strip(s) == s
  {
  }

  lemma StripIdempotent(s: string)
    ensures Strip(Strip(s)) == Strip(s)
  {
    StripTrimmed(Strip(s));
  }
}
