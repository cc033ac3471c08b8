/**
 What `buscar_palavras` computes, stated without reference to its loops:
 the result holds exactly the dictionary words of length at least 2 that can
 be read along a row, column or diagonal in either direction, each with the
 span of its first occurrence in scan order.
 */
module ScanProps {
  import opened Avl
  import Trie
  import opened WordSearch

  // ---------------------------------------------------------------------------
  // The fold

  /** `(w, c)` is a candidate and no earlier candidate carries the word `w`. */
  ghost predicate FirstOccurrence(cands: seq<(string, Coord)>, w: string, c: Coord) {
    exists i :: 0 <= i < |cands| && cands[i] == (w, c) && forall j :: 0 <= j < i ==> cands[j].0 != w
  }

  lemma FirstOccurrenceStep(cands: seq<(string, Coord)>, w: string, c: Coord)
    requires |cands| > 0
    ensures FirstOccurrence(cands, w, c) <==>
      cands[0] == (w, c) || (cands[0].0 != w && FirstOccurrence(cands[1..], w, c))
  {
    var tail := cands[1..];
    if FirstOccurrence(cands, w, c) && cands[0] != (w, c) {
      var i :| 0 <= i < |cands| && cands[i] == (w, c) && forall j :: 0 <= j < i ==> cands[j].0 != w;
      assert tail[i - 1] == cands[i];
      assert forall j :: 0 <= j < i - 1 ==> tail[j] == cands[j + 1];
    }
    if cands[0] != (w, c) && cands[0].0 != w && FirstOccurrence(tail, w, c) {
      var i :| 0 <= i < |tail| && tail[i] == (w, c) && forall j :: 0 <= j < i ==> tail[j].0 != w;
      assert cands[i + 1] == (w, c);
      assert forall j :: 0 < j < i + 1 ==> cands[j] == tail[j - 1];
    }
  }

  /** After offering `cands` to `t`, a word maps to a span exactly when it did
      so in `t`, or it was absent from `t`, the dictionary holds it, and the
      span is that of the word's first candidate. */
  lemma {:induction false} ScanEntries(dict: Trie.Node, t: Tree, cands: seq<(string, Coord)>, w: string, c: Coord)
    requires Valid(t)
    ensures (w in Content(Scan(dict, t, cands)) && Content(Scan(dict, t, cands))[w] == c) <==>
      (w in Content(t) && Content(t)[w] == c) ||
      (w !in Content(t) && Trie.Contains(dict, w) && FirstOccurrence(cands, w, c))
    decreases |cands|
  {
    if |cands| > 0 {
      ScanEntries(dict, Offer(dict, t, cands[0]), cands[1..], w, c);
      FirstOccurrenceStep(cands, w, c);
    }
  }

  /** A word already in the tree keeps its span through any number of offers. */
  lemma ScanKeeps(dict: Trie.Node, t: Tree, cands: seq<(string, Coord)>, w: string)
    requires Valid(t) && w in Content(t)
    ensures w in Content(Scan(dict, t, cands)) && Content(Scan(dict, t, cands))[w] == Content(t)[w]
  {
    ScanEntries(dict, t, cands, w, Content(t)[w]);
  }

  /** After offering `cands` to `t`, a word is in the tree exactly when it was
      before, or the dictionary holds it and some candidate carries it. */
  lemma {:induction false} ScanKeys(dict: Trie.Node, t: Tree, cands: seq<(string, Coord)>, w: string)
    requires Valid(t)
    ensures w in Keys(Scan(dict, t, cands)) <==>
      w in Keys(t) || (Trie.Contains(dict, w) && exists i :: 0 <= i < |cands| && cands[i].0 == w)
    decreases |cands|
  {
    if |cands| > 0 {
      var tail := cands[1..];
      ScanKeys(dict, Offer(dict, t, cands[0]), tail, w);
      if exists i :: 0 <= i < |tail| && tail[i].0 == w {
        var i :| 0 <= i < |tail| && tail[i].0 == w;
        assert cands[i + 1].0 == w;
      }
      if exists i :: 0 <= i < |cands| && cands[i].0 == w {
        var i :| 0 <= i < |cands| && cands[i].0 == w;
        if i > 0 {
          assert tail[i - 1].0 == w;
        }
      }
    }
  }

  /** Offering words the dictionary does not hold changes nothing. */
  lemma {:induction false} ScanFindsNothing(dict: Trie.Node, t: Tree, cands: seq<(string, Coord)>)
    requires Valid(t)
    requires forall i :: 0 <= i < |cands| ==> !Trie.Contains(dict, cands[i].0)
    ensures Scan(dict, t, cands) == t
    decreases |cands|
  {
    if |cands| > 0 {
      ScanFindsNothing(dict, t, cands[1..]);
    }
  }

  /** Offering two lists one after the other is offering their concatenation. */
  lemma {:induction false} ScanAppend(dict: Trie.Node, t: Tree, a: seq<(string, Coord)>, b: seq<(string, Coord)>)
    requires Valid(t)
    ensures Scan(dict, t, a + b) == Scan(dict, Scan(dict, t, a), b)
    decreases |a|
  {
    if |a| > 0 {
      assert (a + b)[1..] == a[1..] + b;
      ScanAppend(dict, Offer(dict, t, a[0]), a[1..], b);
    } else {
      assert a + b == b;
    }
  }

  /** The candidate list is the four passes' candidate lists in pass order. */
  lemma CandidatesByPass(g: Grid)
    requires Square(g)
    ensures Candidates(g) ==
      Expand(g, Segments(|g|, Horizontal)) + Expand(g, Segments(|g|, Vertical)) +
      Expand(g, Segments(|g|, Principal)) + Expand(g, Segments(|g|, Secondary))
  {
    var n := |g|;
    var h, v, p, s := Segments(n, Horizontal), Segments(n, Vertical), Segments(n, Principal), Segments(n, Secondary);
    FitsAppend(n, h, v);
    FitsAppend(n, h + v, p);
    ExpandAppend(g, h + v + p, s);
    ExpandAppend(g, h + v, p);
    ExpandAppend(g, h, v);
  }

  /** Two lists of fitting segments joined are a list of fitting segments. */
  lemma FitsAppend(n: int, a: seq<Segment>, b: seq<Segment>)
    requires forall i :: 0 <= i < |a| ==> Fits(n, a[i])
    requires forall i :: 0 <= i < |b| ==> Fits(n, b[i])
    ensures forall i :: 0 <= i < |a + b| ==> Fits(n, (a + b)[i])
  {
  }

  /** Four folds in a row are one fold over the concatenation. */
  lemma ScanFour(dict: Trie.Node, t: Tree, a: seq<(string, Coord)>, b: seq<(string, Coord)>,
                 c: seq<(string, Coord)>, d: seq<(string, Coord)>)
    requires Valid(t)
    ensures Scan(dict, t, a + b + c + d) == Scan(dict, Scan(dict, Scan(dict, Scan(dict, t, a), b), c), d)
  {
    ScanAppend(dict, t, a + b + c, d);
    ScanAppend(dict, t, a + b, c);
    ScanAppend(dict, t, a, b);
  }

  /** The four passes of `buscar_palavras` are one fold over all candidates,
      horizontal first, then vertical, principal and secondary diagonal. */
  lemma FindWordsIsScan(g: Grid, dict: Trie.Node)
    requires Board(g)
    ensures FindWords(g, dict) == Scan(dict, Leaf, Candidates(g))
  {
    var n := |g|;
    CandidatesByPass(g);
    ScanFour(dict, Leaf, Expand(g, Segments(n, Horizontal)), Expand(g, Segments(n, Vertical)),
             Expand(g, Segments(n, Principal)), Expand(g, Segments(n, Secondary)));
  }

  // ---------------------------------------------------------------------------
  // Geometry of a span

  function Sign(x: int): (s: int) {
    if x > 0 then 1 else if x < 0 then -1 else 0
  }

  function Abs(x: int): (a: int) {
    if x < 0 then -x else x
  }

  /** Both ends of `c` are cells of the board, they lie on one row, column or
      diagonal, and reading the cells from the first end to the second, one
      step at a time, spells `w`. */
  ghost predicate SpanSpells(g: Grid, w: string, c: Coord) {
    var dr := c.rowEnd - c.rowStart;
    var dc := c.colEnd - c.colStart;
    && Square(g)
    && InGrid(|g|, c.rowStart, c.colStart) && InGrid(|g|, c.rowEnd, c.colEnd)
    && (dr == 0 || dc == 0 || Abs(dr) == Abs(dc))
    && |w| == 1 + Max(Abs(dr), Abs(dc))
    && forall k :: 0 <= k < |w| ==> w[k] == g[c.rowStart + Step(Sign(dr), k)][c.colStart + Step(Sign(dc), k)]
  }

  /** A spelled word is no longer than the side of the board. */
  lemma SpanLength(g: Grid, w: string, c: Coord)
    requires SpanSpells(g, w, c)
    ensures 1 <= |w| <= |g|
  {
  }

  /** The span runs down the board, or rightwards along a row: the orientation
      of every forward candidate. */
  predicate ForwardSpan(c: Coord) {
    c.rowEnd > c.rowStart || (c.rowEnd == c.rowStart && c.colEnd > c.colStart)
  }

  /** `m` steps of size `d` point the way of `d`, and are `m` long unless `d` is 0. */
  lemma StepSign(d: int, m: int)
    requires -1 <= d <= 1 && m >= 1
    ensures Sign(Step(d, m)) == d && Sign(-Step(d, m)) == -d
    ensures Abs(Step(d, m)) == Abs(-Step(d, m)) == (if d == 0 then 0 else m)
  {
  }

  /** Going `m` steps forward and `k` back is going `m - k` steps forward. */
  lemma StepBack(d: int, m: int, k: int)
    requires -1 <= d <= 1
    ensures Step(d, m) + Step(-d, k) == Step(d, m - k)
  {
  }

  /** A straight span whose offsets point the ways `rs` and `cs` and whose
      longer offset is `m` is `m` steps of those sizes. */
  lemma SpanDelta(dr: int, dc: int, rs: int, cs: int, m: int)
    requires -1 <= rs <= 1 && -1 <= cs <= 1 && (rs != 0 || cs != 0)
    requires Sign(dr) == rs && Sign(dc) == cs
    requires dr == 0 || dc == 0 || Abs(dr) == Abs(dc)
    requires m == Max(Abs(dr), Abs(dc))
    ensures dr == Step(rs, m) && dc == Step(cs, m)
  {
  }

  /** A segment that fits ends inside the board, and its offsets from first
      to last cell are straight, point its way and are `len - 1` long. */
  lemma SegmentGeometry(n: int, s: Segment)
    requires Fits(n, s)
    ensures InGrid(n, EndRow(s), EndCol(s))
    ensures -1 <= RowStep(s.axis) <= 1 && -1 <= ColStep(s.axis) <= 1
    ensures RowStep(s.axis) != 0 || ColStep(s.axis) != 0
    ensures var dr, dc := EndRow(s) - s.row, EndCol(s) - s.col;
      && Sign(dr) == RowStep(s.axis) && Sign(dc) == ColStep(s.axis)
      && Sign(-dr) == -RowStep(s.axis) && Sign(-dc) == -ColStep(s.axis)
      && (dr == 0 || dc == 0 || Abs(dr) == Abs(dc))
      && s.len == 1 + Max(Abs(dr), Abs(dc)) && s.len == 1 + Max(Abs(-dr), Abs(-dc))
  {
    StepSign(RowStep(s.axis), s.len - 1);
    StepSign(ColStep(s.axis), s.len - 1);
  }

  /** The `k`-th letter of a segment's word. */
  lemma SpellAt(g: Grid, s: Segment, k: int)
    requires Square(g) && Fits(|g|, s) && 0 <= k < s.len
    ensures Spell(g, s)[k] == g[s.row + Step(RowStep(s.axis), k)][s.col + Step(ColStep(s.axis), k)]
  {
  }

  /** The `k`-th letter of a word a span spells. */
  lemma SpansAt(g: Grid, w: string, c: Coord, k: int, rd: int, cd: int)
    requires SpanSpells(g, w, c) && 0 <= k < |w|
    requires Sign(c.rowEnd - c.rowStart) == rd && Sign(c.colEnd - c.colStart) == cd
    ensures w[k] == g[c.rowStart + Step(rd, k)][c.colStart + Step(cd, k)]
  {
  }

  /** A segment's forward word is spelled by its span, which points forward. */
  lemma ForwardSpells(g: Grid, s: Segment)
    requires Square(g) && Fits(|g|, s)
    ensures SpanSpells(g, Forward(g, s).0, Forward(g, s).1)
    ensures ForwardSpan(Forward(g, s).1)
  {
    SegmentGeometry(|g|, s);
    forall k | 0 <= k < s.len
      ensures Spell(g, s)[k] == g[s.row + Step(RowStep(s.axis), k)][s.col + Step(ColStep(s.axis), k)]
    {
      SpellAt(g, s, k);
    }
  }

  /** The `k`-th letter of a segment's reversed word is the cell `k` steps
      back from its last cell. */
  lemma BackwardCell(g: Grid, s: Segment, k: int)
    requires Square(g) && Fits(|g|, s) && 0 <= k < s.len
    ensures Reverse(Spell(g, s))[k] == g[EndRow(s) + Step(-RowStep(s.axis), k)][EndCol(s) + Step(-ColStep(s.axis), k)]
  {
    var L := s.len;
    SegmentGeometry(|g|, s);
    SpellAt(g, s, L - 1 - k);
    StepBack(RowStep(s.axis), L - 1, k);
    StepBack(ColStep(s.axis), L - 1, k);
  }

  /** A segment's reversed word is spelled by its reversed span, which points
      backward. */
  lemma BackwardSpells(g: Grid, s: Segment)
    requires Square(g) && Fits(|g|, s)
    ensures SpanSpells(g, Backward(g, s).0, Backward(g, s).1)
    ensures !ForwardSpan(Backward(g, s).1)
  {
    SegmentGeometry(|g|, s);
    var w := Reverse(Spell(g, s));
    var rs, cs := RowStep(s.axis), ColStep(s.axis);
    forall k | 0 <= k < |w|
      ensures w[k] == g[EndRow(s) + Step(-rs, k)][EndCol(s) + Step(-cs, k)]
    {
      BackwardCell(g, s, k);
    }
  }

  /** A span that starts where segment `s` starts, goes its way and is as
      long as `s` ends where `s` ends. */
  lemma ForwardEnds(g: Grid, s: Segment, w: string, c: Coord)
    requires Square(g) && Fits(|g|, s) && SpanSpells(g, w, c)
    requires c.rowStart == s.row && c.colStart == s.col && |w| == s.len
    requires Sign(c.rowEnd - c.rowStart) == RowStep(s.axis)
    requires Sign(c.colEnd - c.colStart) == ColStep(s.axis)
    ensures EndRow(s) == c.rowEnd && EndCol(s) == c.colEnd
  {
    SegmentGeometry(|g|, s);
    SpanDelta(c.rowEnd - c.rowStart, c.colEnd - c.colStart, RowStep(s.axis), ColStep(s.axis), s.len - 1);
  }

  /** A span that starts where segment `s` starts and goes its way is the span
      of the segment's forward candidate. */
  lemma ForwardMatches(g: Grid, s: Segment, w: string, c: Coord)
    requires Square(g) && Fits(|g|, s) && SpanSpells(g, w, c)
    requires c.rowStart == s.row && c.colStart == s.col && |w| == s.len
    requires Sign(c.rowEnd - c.rowStart) == RowStep(s.axis)
    requires Sign(c.colEnd - c.colStart) == ColStep(s.axis)
    ensures Forward(g, s) == (w, c)
  {
    ForwardEnds(g, s, w, c);
    forall k | 0 <= k < s.len ensures Spell(g, s)[k] == w[k] {
      ForwardLetter(g, s, w, c, k);
    }
    assert Spell(g, s) == w;
  }

  /** Letter `k` of a forward span is letter `k` of the segment's word. */
  lemma ForwardLetter(g: Grid, s: Segment, w: string, c: Coord, k: int)
    requires Square(g) && Fits(|g|, s) && SpanSpells(g, w, c) && |w| == s.len && 0 <= k < s.len
    requires c.rowStart == s.row && c.colStart == s.col
    requires Sign(c.rowEnd - c.rowStart) == RowStep(s.axis)
    requires Sign(c.colEnd - c.colStart) == ColStep(s.axis)
    ensures Spell(g, s)[k] == w[k]
  {
    SpellAt(g, s, k);
    SpansAt(g, w, c, k, RowStep(s.axis), ColStep(s.axis));
  }

  /** A span that ends where segment `s` starts, goes against its way and is
      as long as `s` starts where `s` ends. */
  lemma BackwardEnds(g: Grid, s: Segment, w: string, c: Coord)
    requires Square(g) && Fits(|g|, s) && SpanSpells(g, w, c)
    requires c.rowEnd == s.row && c.colEnd == s.col && |w| == s.len
    requires Sign(c.rowEnd - c.rowStart) == -RowStep(s.axis)
    requires Sign(c.colEnd - c.colStart) == -ColStep(s.axis)
    ensures EndRow(s) == c.rowStart && EndCol(s) == c.colStart
  {
    SegmentGeometry(|g|, s);
    SpanDelta(c.rowStart - c.rowEnd, c.colStart - c.colEnd, RowStep(s.axis), ColStep(s.axis), s.len - 1);
  }

  /** A span that ends where segment `s` starts and goes against its way is
      the span of the segment's backward candidate. */
  lemma BackwardMatches(g: Grid, s: Segment, w: string, c: Coord)
    requires Square(g) && Fits(|g|, s) && SpanSpells(g, w, c)
    requires c.rowEnd == s.row && c.colEnd == s.col && |w| == s.len
    requires Sign(c.rowEnd - c.rowStart) == -RowStep(s.axis)
    requires Sign(c.colEnd - c.colStart) == -ColStep(s.axis)
    ensures Backward(g, s) == (w, c)
  {
    BackwardEnds(g, s, w, c);
    var sp := Spell(g, s);
    forall k | 0 <= k < s.len ensures Reverse(sp)[k] == w[k] {
      BackwardLetter(g, s, w, c, k);
    }
    assert Reverse(sp) == w;
  }

  /** Letter `k` of a backward span is letter `k` of the segment's reversed word. */
  lemma BackwardLetter(g: Grid, s: Segment, w: string, c: Coord, k: int)
    requires Square(g) && Fits(|g|, s) && SpanSpells(g, w, c) && |w| == s.len && 0 <= k < s.len
    requires EndRow(s) == c.rowStart && EndCol(s) == c.colStart
    requires Sign(c.rowEnd - c.rowStart) == -RowStep(s.axis)
    requires Sign(c.colEnd - c.colStart) == -ColStep(s.axis)
    ensures Reverse(Spell(g, s))[k] == w[k]
  {
    BackwardCell(g, s, k);
    SpansAt(g, w, c, k, -RowStep(s.axis), -ColStep(s.axis));
  }

  /** Every expanded candidate is spelled by its span and is at least two cells
      long; exactly the even-numbered ones point forward. */
  lemma ExpandSpells(g: Grid, ss: seq<Segment>, i: int)
    requires Square(g) && forall j :: 0 <= j < |ss| ==> Fits(|g|, ss[j])
    requires 0 <= i < 2 * |ss|
    ensures var e := Expand(g, ss)[i];
      SpanSpells(g, e.0, e.1) && 2 <= |e.0| && (ForwardSpan(e.1) <==> i % 2 == 0)
  {
    var m := i / 2;
    ExpandIndex(g, ss, m);
    var e := Expand(g, ss)[i];
    if i % 2 == 0 {
      assert i == 2 * m;
      assert e == Forward(g, ss[m]);
      ForwardSpells(g, ss[m]);
    } else {
      assert i == 2 * m + 1;
      assert e == Backward(g, ss[m]);
      BackwardSpells(g, ss[m]);
    }
  }

  /** Every candidate is spelled by its span and is at least two cells long. */
  lemma CandidateSpells(g: Grid, i: int)
    requires Square(g) && 0 <= i < |Candidates(g)|
    ensures SpanSpells(g, Candidates(g)[i].0, Candidates(g)[i].1) && 2 <= |Candidates(g)[i].0|
    ensures ForwardSpan(Candidates(g)[i].1) <==> i % 2 == 0
  {
    ExpandSpells(g, AllSegments(|g|), i);
  }

  /** The segment whose forward or backward candidate a span of two or more
      cells is. */
  lemma SpanSegment(g: Grid, w: string, c: Coord) returns (s: Segment, forward: bool)
    requires SpanSpells(g, w, c) && 2 <= |w|
    ensures Fits(|g|, s)
    ensures forward ==> Forward(g, s) == (w, c)
    ensures !forward ==> Backward(g, s) == (w, c)
  {
    var dr := Sign(c.rowEnd - c.rowStart);
    var dc := Sign(c.colEnd - c.colStart);
    forward := dr > 0 || (dr == 0 && dc > 0);
    var a := if dr == 0 then Horizontal else if dc == 0 then Vertical else if dr == dc then Principal else Secondary;
    s := if forward then Segment(a, c.rowStart, c.colStart, |w|) else Segment(a, c.rowEnd, c.colEnd, |w|);
    if forward {
      ForwardMatches(g, s, w, c);
    } else {
      BackwardMatches(g, s, w, c);
    }
  }

  /** Both candidates of a listed segment are in its expansion. */
  lemma InExpand(g: Grid, ss: seq<Segment>, s: Segment)
    requires Square(g) && forall j :: 0 <= j < |ss| ==> Fits(|g|, ss[j])
    requires s in ss
    ensures Forward(g, s) in Expand(g, ss) && Backward(g, s) in Expand(g, ss)
  {
    var m :| 0 <= m < |ss| && ss[m] == s;
    ExpandIndex(g, ss, m);
    var e := Expand(g, ss);
    assert e[2 * m] == Forward(g, s);
    assert e[2 * m + 1] == Backward(g, s);
  }

  /** Every span of at least two cells along a row, column or diagonal, in
      either direction, is some candidate. */
  lemma SpanIsCandidate(g: Grid, w: string, c: Coord)
    requires SpanSpells(g, w, c) && 2 <= |w|
    ensures (w, c) in Candidates(g)
  {
    var s, forward := SpanSegment(g, w, c);
    var ss := AllSegments(|g|);
    SegmentsComplete(|g|, s.axis, s);
    InExpand(g, ss, s);
  }

  /** The candidates are exactly the spans of two or more cells. */
  lemma CandidatesAreSpans(g: Grid, w: string, c: Coord)
    requires Square(g)
    ensures (w, c) in Candidates(g) <==> SpanSpells(g, w, c) && 2 <= |w|
  {
    if (w, c) in Candidates(g) {
      var i :| 0 <= i < |Candidates(g)| && Candidates(g)[i] == (w, c);
      CandidateSpells(g, i);
    }
    if SpanSpells(g, w, c) && 2 <= |w| {
      SpanIsCandidate(g, w, c);
    }
  }

  // ---------------------------------------------------------------------------
  // buscar_palavras

  /** A word maps to a span in the result exactly when the dictionary holds
      it and the span is that of its first candidate in scan order: a later
      occurrence never replaces an earlier one. */
  lemma FindWordsEntries(g: Grid, dict: Trie.Node, w: string, c: Coord)
    requires Board(g)
    ensures (w in Content(FindWords(g, dict)) && Content(FindWords(g, dict))[w] == c) <==>
      Trie.Contains(dict, w) && FirstOccurrence(Candidates(g), w, c)
  {
    FindWordsIsScan(g, dict);
    ScanEntries(dict, Leaf, Candidates(g), w, c);
  }

  /** The candidate a found word was recorded from: the first one carrying
      the word. */
  lemma RecordedFrom(g: Grid, dict: Trie.Node, w: string) returns (i: int)
    requires Board(g) && w in Keys(FindWords(g, dict))
    ensures Trie.Contains(dict, w)
    ensures 0 <= i < |Candidates(g)| && Candidates(g)[i] == (w, Content(FindWords(g, dict))[w])
    ensures forall j :: 0 <= j < i ==> Candidates(g)[j].0 != w
  {
    var c := Content(FindWords(g, dict))[w];
    FindWordsEntries(g, dict, w, c);
    i :| 0 <= i < |Candidates(g)| && Candidates(g)[i] == (w, c) && forall j :: 0 <= j < i ==> Candidates(g)[j].0 != w;
  }

  /** Soundness: every found word is in the dictionary, has between 2 and N
      letters, and is spelled on the board by its recorded span. */
  lemma FindWordsSound(g: Grid, dict: Trie.Node, w: string)
    requires Board(g) && w in Keys(FindWords(g, dict))
    ensures Trie.Contains(dict, w)
    ensures 2 <= |w| <= |g|
    ensures SpanSpells(g, w, Content(FindWords(g, dict))[w])
  {
    var i := RecordedFrom(g, dict, w);
    CandidateSpells(g, i);
    SpanLength(g, w, Content(FindWords(g, dict))[w]);
  }

  /** Completeness: a dictionary word of two or more letters that can be read
      along a row, column or diagonal, in either direction, is found. */
  lemma FindWordsComplete(g: Grid, dict: Trie.Node, w: string, c: Coord)
    requires Board(g) && SpanSpells(g, w, c) && 2 <= |w| && Trie.Contains(dict, w)
    ensures w in Keys(FindWords(g, dict))
  {
    FindWordsIsScan(g, dict);
    SpanIsCandidate(g, w, c);
    var cands := Candidates(g);
    var i :| 0 <= i < |cands| && cands[i] == (w, c);
    ScanKeys(dict, Leaf, cands, w);
  }

  /** The found words are exactly the dictionary words of two or more letters
      that the board spells along some straight line. */
  lemma FindWordsKeys(g: Grid, dict: Trie.Node, w: string)
    requires Board(g)
    ensures w in Keys(FindWords(g, dict)) <==>
      Trie.Contains(dict, w) && 2 <= |w| && exists c :: SpanSpells(g, w, c)
  {
    if w in Keys(FindWords(g, dict)) {
      FindWordsSound(g, dict, w);
    }
    if Trie.Contains(dict, w) && 2 <= |w| && exists c :: SpanSpells(g, w, c) {
      var c :| SpanSpells(g, w, c);
      FindWordsComplete(g, dict, w, c);
    }
  }

  /** The two candidates of one segment carry mutually reversed words. */
  lemma CandidatePair(g: Grid, ss: seq<Segment>, m: int)
    requires Square(g) && forall j :: 0 <= j < |ss| ==> Fits(|g|, ss[j])
    requires 0 <= m < |ss|
    ensures Reverse(Expand(g, ss)[2 * m + 1].0) == Expand(g, ss)[2 * m].0
  {
    ExpandIndex(g, ss, m);
    ReverseTwice(Spell(g, ss[m]));
  }

  /** The first candidate carrying a palindrome is a forward one: the same
      segment's forward candidate, one place earlier, carries the same word. */
  lemma FirstPalindromeIsForward(g: Grid, ss: seq<Segment>, i: int, w: string)
    requires Square(g) && forall j :: 0 <= j < |ss| ==> Fits(|g|, ss[j])
    requires 0 <= i < |Expand(g, ss)| && Expand(g, ss)[i].0 == w && Reverse(w) == w
    requires forall j :: 0 <= j < i ==> Expand(g, ss)[j].0 != w
    ensures i % 2 == 0
  {
    var m := i / 2;
    CandidatePair(g, ss, m);
    if i % 2 == 1 {
      assert false;
    }
  }

  /** Forward before reversal: a palindrome is recorded with a forward span. */
  lemma PalindromeForward(g: Grid, dict: Trie.Node, w: string)
    requires Board(g) && w in Keys(FindWords(g, dict)) && Reverse(w) == w
    ensures ForwardSpan(Content(FindWords(g, dict))[w])
  {
    var i := RecordedFrom(g, dict, w);
    FirstPalindromeIsForward(g, AllSegments(|g|), i, w);
    CandidateSpells(g, i);
  }

  /** The horizontal pass runs first, so a word it finds keeps its horizontal
      span whatever the later passes see. */
  lemma HorizontalWins(g: Grid, dict: Trie.Node, w: string)
    requires Board(g) && w in Content(SearchHorizontal(g, dict, Leaf))
    ensures w in Content(FindWords(g, dict))
    ensures Content(FindWords(g, dict))[w] == Content(SearchHorizontal(g, dict, Leaf))[w]
  {
    var t1 := SearchHorizontal(g, dict, Leaf);
    var t2 := SearchVertical(g, dict, t1);
    var t3 := SearchPrincipal(g, dict, t2);
    ScanKeeps(dict, t1, Expand(g, Segments(|g|, Vertical)), w);
    ScanKeeps(dict, t2, Expand(g, Segments(|g|, Principal)), w);
    ScanKeeps(dict, t3, Expand(g, Segments(|g|, Secondary)), w);
  }

  /** With a dictionary root that has no children, nothing is found. */
  lemma EmptyDictionaryFindsNothing(g: Grid, dict: Trie.Node)
    requires Board(g) && dict.children == map[]
    ensures FindWords(g, dict) == Leaf
  {
    FindWordsIsScan(g, dict);
    var cands := Candidates(g);
    forall i | 0 <= i < |cands| ensures !Trie.Contains(dict, cands[i].0) {
      CandidateSpells(g, i);
    }
    ScanFindsNothing(dict, Leaf, cands);
  }
}
