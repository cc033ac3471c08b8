/**
 The grid scanner of `jogo.c`.

 Each of the four passes walks every start cell and every run length of at
 least 2 along one axis, in the nesting order of its loops. At each
 (row, column, length) it builds the forward run and its reversal; each of the
 two words goes into the tree when the dictionary holds it and the tree does
 not. The scanner is modelled as the list of segments the loops visit, each
 expanded into its forward and backward candidate, and a left fold of
 "offer this candidate" over that list.
 */
module WordSearch {
  import opened Avl
  import Trie

  /** `Tabuleiro.matriz`: row-major cells. */
  type Grid = seq<seq<char>>

  /** Size of the stack buffers `palavra` and `invertida`. */
  const BufferSize: int := 100

  /** `ler_tabuleiro` reads the side length once: every row has |g| cells. */
  predicate Square(g: Grid) {
    forall r :: 0 <= r < |g| ==> |g[r]| == |g|
  }

  /** A board the scanner can run on: square, and small enough that the
      longest run plus its terminating NUL fits the word buffers. */
  predicate Board(g: Grid) {
    Square(g) && |g| < BufferSize
  }

  predicate InGrid(n: int, r: int, c: int) {
    0 <= r < n && 0 <= c < n
  }

  // ---------------------------------------------------------------------------
  // inverter_string

  /** `s` read backwards: letter `i` is letter `|s| - 1 - i` of `s`. */
  function Reverse(s: string): (r: string) {
    seq(|s|, i requires 0 <= i < |s| => s[|s| - 1 - i])
  }

  /** `inverter_string`: swap the i-th character from each end for every i
      below half the length. */
  method InvertString(s: string) returns (r: string)
    ensures r == Reverse(s)
  {
    var n := |s|;
    r := s;
    var i := 0;
    while i < n / 2
      invariant 0 <= i <= n / 2
      invariant |r| == n
      invariant forall k :: 0 <= k < i ==> r[k] == s[n - 1 - k] && r[n - 1 - k] == s[k]
      invariant forall k :: i <= k < n - i ==> r[k] == s[k]
    {
      var temp := r[i];
      r := r[i := r[n - 1 - i]];
      r := r[n - 1 - i := temp];
      i := i + 1;
    }
    assert forall k :: 0 <= k < n ==> r[k] == Reverse(s)[k] by {
      forall k | 0 <= k < n ensures r[k] == s[n - 1 - k] {
        if n - i <= k {
          assert r[n - 1 - (n - 1 - k)] == s[n - 1 - k];
        }
      }
    }
  }

  /** Reversing twice gives the original word back. */
  lemma ReverseTwice(s: string)
    ensures Reverse(Reverse(s)) == s
  {
  }

  // ---------------------------------------------------------------------------
  // The runs the four passes visit

  datatype Axis = Horizontal | Vertical | Principal | Secondary

  /** One iteration of a pass's innermost loop: start cell (`row`, `col`) and
      run length `len` along `axis`. */
  datatype Segment = Segment(axis: Axis, row: int, col: int, len: int)

  /** Row offset of one step along the axis. */
  function RowStep(a: Axis): (d: int) {
    if a == Horizontal then 0 else 1
  }

  /** Column offset of one step along the axis. */
  function ColStep(a: Axis): (d: int) {
    match a
    case Horizontal => 1
    case Vertical => 0
    case Principal => 1
    case Secondary => -1
  }

  /** `k` steps of size `d`, for a step size of -1, 0 or 1 (that is, `d * k`). */
  function Step(d: int, k: int): (off: int) {
    if d == 0 then 0 else if d > 0 then k else -k
  }

  /** The bound of the `tam` loop at start (i, j): the run must end inside
      the grid. */
  function MaxLen(n: int, a: Axis, i: int, j: int): (m: int) {
    match a
    case Horizontal => n - j
    case Vertical => n - i
    case Principal => if n - i < n - j then n - i else n - j
    case Secondary => if n - i < j + 1 then n - i else j + 1
  }

  /** A segment some pass of an n-by-n scan visits. */
  predicate Fits(n: int, s: Segment) {
    InGrid(n, s.row, s.col) && 2 <= s.len <= MaxLen(n, s.axis, s.row, s.col)
  }

  /** The outer loop index of a pass: the column for the column-major vertical
      pass, the row for the others. */
  function Major(s: Segment): (o: int) {
    if s.axis == Vertical then s.col else s.row
  }

  /** The middle loop index of a pass. */
  function Minor(s: Segment): (p: int) {
    if s.axis == Vertical then s.row else s.col
  }

  /** The `tam` loop at start (i, j), from length `len` upwards. */
  function Lengths(n: int, a: Axis, i: int, j: int, len: int): (ss: seq<Segment>)
    requires InGrid(n, i, j)
    decreases n - len
  {
    if len > MaxLen(n, a, i, j) then [] else [Segment(a, i, j, len)] + Lengths(n, a, i, j, len + 1)
  }

  /** The middle loop of a pass, from index `p` on, inside outer index `o`. */
  function Inner(n: int, a: Axis, o: int, p: int): (ss: seq<Segment>)
    requires 0 <= o < n && 0 <= p
    decreases n - p
  {
    if p >= n then []
    else if a == Vertical then Lengths(n, a, p, o, 2) + Inner(n, a, o, p + 1)
    else Lengths(n, a, o, p, 2) + Inner(n, a, o, p + 1)
  }

  /** The outer loop of a pass, from index `o` on. */
  function Outer(n: int, a: Axis, o: int): (ss: seq<Segment>)
    requires 0 <= o
    decreases n - o
  {
    if o >= n then [] else Inner(n, a, o, 0) + Outer(n, a, o + 1)
  }

  /** Every segment one pass visits, in visiting order. */
  function Segments(n: int, a: Axis): (ss: seq<Segment>)
    ensures forall i :: 0 <= i < |ss| ==> ss[i].axis == a && Fits(n, ss[i])
  {
    OuterMembers(n, a, 0);
    var ss := Outer(n, a, 0);
    assert forall i :: 0 <= i < |ss| ==> ss[i] in ss;
    ss
  }

  /** A pass visits exactly the segments of its axis that fit in the board. */
  lemma SegmentsComplete(n: int, a: Axis, s: Segment)
    ensures s in Segments(n, a) <==> s.axis == a && Fits(n, s)
  {
    OuterMembers(n, a, 0);
  }

  lemma {:induction false} LengthsMembers(n: int, a: Axis, i: int, j: int, len: int)
    requires InGrid(n, i, j)
    ensures forall s :: s in Lengths(n, a, i, j, len) <==>
      s.axis == a && s.row == i && s.col == j && len <= s.len <= MaxLen(n, a, i, j)
    decreases n - len
  {
    if len <= MaxLen(n, a, i, j) {
      LengthsMembers(n, a, i, j, len + 1);
    }
  }

  lemma {:induction false} InnerMembers(n: int, a: Axis, o: int, p: int)
    requires 0 <= o < n && 0 <= p
    ensures forall s :: s in Inner(n, a, o, p) <==>
      s.axis == a && Major(s) == o && p <= Minor(s) < n && 2 <= s.len <= MaxLen(n, a, s.row, s.col)
    decreases n - p
  {
    if p < n {
      InnerMembers(n, a, o, p + 1);
      if a == Vertical {
        LengthsMembers(n, a, p, o, 2);
      } else {
        LengthsMembers(n, a, o, p, 2);
      }
    }
  }

  lemma {:induction false} OuterMembers(n: int, a: Axis, o: int)
    requires 0 <= o
    ensures forall s :: s in Outer(n, a, o) <==>
      s.axis == a && o <= Major(s) < n && 0 <= Minor(s) < n && 2 <= s.len <= MaxLen(n, a, s.row, s.col)
    decreases n - o
  {
    if o < n {
      OuterMembers(n, a, o + 1);
      InnerMembers(n, a, o, 0);
    }
  }

  /** `s` comes before `t` in a pass's loop nest: smaller outer index, then
      smaller middle index, then shorter run. */
  predicate Before(s: Segment, t: Segment) {
    || Major(s) < Major(t)
    || (Major(s) == Major(t) && Minor(s) < Minor(t))
    || (Major(s) == Major(t) && Minor(s) == Minor(t) && s.len < t.len)
  }

  /** Every segment of `ss` comes before every later one. */
  predicate VisitOrder(ss: seq<Segment>) {
    forall i, j :: 0 <= i < j < |ss| ==> Before(ss[i], ss[j])
  }

  lemma VisitOrderAppend(a: seq<Segment>, b: seq<Segment>)
    requires VisitOrder(a) && VisitOrder(b)
    requires forall x, y :: x in a && y in b ==> Before(x, y)
    ensures VisitOrder(a + b)
  {
    forall i, j | 0 <= i < j < |a + b| ensures Before((a + b)[i], (a + b)[j]) {
      if j < |a| {
        assert (a + b)[i] == a[i] && (a + b)[j] == a[j];
      } else if i >= |a| {
        assert (a + b)[i] == b[i - |a|] && (a + b)[j] == b[j - |a|];
      } else {
        assert (a + b)[i] == a[i] && (a + b)[j] == b[j - |a|];
        assert a[i] in a && b[j - |a|] in b;
      }
    }
  }

  lemma {:induction false} LengthsOrdered(n: int, a: Axis, i: int, j: int, len: int)
    requires InGrid(n, i, j)
    ensures VisitOrder(Lengths(n, a, i, j, len))
    decreases n - len
  {
    if len <= MaxLen(n, a, i, j) {
      LengthsOrdered(n, a, i, j, len + 1);
      LengthsMembers(n, a, i, j, len + 1);
      VisitOrderAppend([Segment(a, i, j, len)], Lengths(n, a, i, j, len + 1));
    }
  }

  lemma {:induction false} InnerOrdered(n: int, a: Axis, o: int, p: int)
    requires 0 <= o < n && 0 <= p
    ensures VisitOrder(Inner(n, a, o, p))
    decreases n - p
  {
    if p < n {
      InnerOrdered(n, a, o, p + 1);
      InnerMembers(n, a, o, p + 1);
      if a == Vertical {
        LengthsOrdered(n, a, p, o, 2);
        LengthsMembers(n, a, p, o, 2);
        VisitOrderAppend(Lengths(n, a, p, o, 2), Inner(n, a, o, p + 1));
      } else {
        LengthsOrdered(n, a, o, p, 2);
        LengthsMembers(n, a, o, p, 2);
        VisitOrderAppend(Lengths(n, a, o, p, 2), Inner(n, a, o, p + 1));
      }
    }
  }

  lemma {:induction false} OuterOrdered(n: int, a: Axis, o: int)
    requires 0 <= o
    ensures VisitOrder(Outer(n, a, o))
    decreases n - o
  {
    if o < n {
      OuterOrdered(n, a, o + 1);
      OuterMembers(n, a, o + 1);
      InnerOrdered(n, a, o, 0);
      InnerMembers(n, a, o, 0);
      VisitOrderAppend(Inner(n, a, o, 0), Outer(n, a, o + 1));
    }
  }

  /** A pass visits its segments in the order of its loop nest: by row, then
      column, then length, except the vertical pass, which goes by column,
      then row, then length. */
  lemma SegmentsInVisitOrder(n: int, a: Axis)
    ensures VisitOrder(Segments(n, a))
  {
    OuterOrdered(n, a, 0);
  }

  /** The segments of `buscar_palavras`: the four passes one after another. */
  function AllSegments(n: int): (ss: seq<Segment>)
    ensures forall i :: 0 <= i < |ss| ==> Fits(n, ss[i])
  {
    Segments(n, Horizontal) + Segments(n, Vertical) + Segments(n, Principal) + Segments(n, Secondary)
  }

  // ---------------------------------------------------------------------------
  // Candidates

  /** The word buffer filled for segment `s`: cell k of the run. */
  function Spell(g: Grid, s: Segment): (w: string)
    requires Square(g) && Fits(|g|, s)
    ensures |w| == s.len
  {
    seq(s.len, k requires 0 <= k < s.len => g[s.row + Step(RowStep(s.axis), k)][s.col + Step(ColStep(s.axis), k)])
  }

  /** The last cell of a segment. */
  function EndRow(s: Segment): (r: int) {
    s.row + Step(RowStep(s.axis), s.len - 1)
  }

  function EndCol(s: Segment): (c: int) {
    s.col + Step(ColStep(s.axis), s.len - 1)
  }

  /** The forward word of a segment with its span, first cell to last. */
  function Forward(g: Grid, s: Segment): (string, Coord)
    requires Square(g) && Fits(|g|, s)
  {
    (Spell(g, s), Coord(s.row, s.col, EndRow(s), EndCol(s)))
  }

  /** The reversed word of a segment with its span, last cell to first. */
  function Backward(g: Grid, s: Segment): (string, Coord)
    requires Square(g) && Fits(|g|, s)
  {
    (Reverse(Spell(g, s)), Coord(EndRow(s), EndCol(s), s.row, s.col))
  }

  /** Each segment becomes its forward candidate followed by its backward one. */
  function Expand(g: Grid, ss: seq<Segment>): (cs: seq<(string, Coord)>)
    requires Square(g) && forall i :: 0 <= i < |ss| ==> Fits(|g|, ss[i])
    ensures |cs| == 2 * |ss|
  {
    if |ss| == 0 then [] else [Forward(g, ss[0]), Backward(g, ss[0])] + Expand(g, ss[1..])
  }

  /** Candidate 2m is the forward word of segment m, candidate 2m + 1 its reversal. */
  lemma {:induction false} ExpandIndex(g: Grid, ss: seq<Segment>, m: int)
    requires Square(g) && forall i :: 0 <= i < |ss| ==> Fits(|g|, ss[i])
    requires 0 <= m < |ss|
    ensures Expand(g, ss)[2 * m] == Forward(g, ss[m])
    ensures Expand(g, ss)[2 * m + 1] == Backward(g, ss[m])
  {
    if m > 0 {
      ExpandIndex(g, ss[1..], m - 1);
      var rest := Expand(g, ss[1..]);
      assert Expand(g, ss)[2 * m] == rest[2 * (m - 1)];
      assert Expand(g, ss)[2 * m + 1] == rest[2 * (m - 1) + 1];
    }
  }

  lemma {:induction false} ExpandAppend(g: Grid, a: seq<Segment>, b: seq<Segment>)
    requires Square(g)
    requires forall i :: 0 <= i < |a| ==> Fits(|g|, a[i])
    requires forall i :: 0 <= i < |b| ==> Fits(|g|, b[i])
    ensures Expand(g, a + b) == Expand(g, a) + Expand(g, b)
  {
    if |a| > 0 {
      assert (a + b)[1..] == a[1..] + b;
      ExpandAppend(g, a[1..], b);
    } else {
      assert a + b == b;
    }
  }

  /** Every candidate of an n-by-n board, in the order `buscar_palavras` offers them. */
  function Candidates(g: Grid): (cs: seq<(string, Coord)>)
    requires Square(g)
  {
    Expand(g, AllSegments(|g|))
  }

  // ---------------------------------------------------------------------------
  // Offering candidates to the tree

  /** The body of a pass's innermost loop for one candidate: insert it when the
      dictionary holds the word and the tree does not. */
  function Offer(dict: Trie.Node, t: Tree, cand: (string, Coord)): (r: Tree)
    requires Valid(t)
    ensures Valid(r)
    ensures Content(r) ==
      if Trie.Contains(dict, cand.0) && cand.0 !in Content(t) then Content(t)[cand.0 := cand.1] else Content(t)
  {
    if Trie.Contains(dict, cand.0) && !Contains(t, cand.0) then Insert(t, cand.0, cand.1) else t
  }

  /** Offers the candidates in order. */
  function Scan(dict: Trie.Node, t: Tree, cands: seq<(string, Coord)>): (r: Tree)
    requires Valid(t)
    ensures Valid(r)
    decreases |cands|
  {
    if |cands| == 0 then t else Scan(dict, Offer(dict, t, cands[0]), cands[1..])
  }

  /** `buscar_horizontal` */
  function SearchHorizontal(g: Grid, dict: Trie.Node, t: Tree): (r: Tree)
    requires Board(g) && Valid(t)
    ensures Valid(r)
  {
    Scan(dict, t, Expand(g, Segments(|g|, Horizontal)))
  }

  /** `buscar_vertical` */
  function SearchVertical(g: Grid, dict: Trie.Node, t: Tree): (r: Tree)
    requires Board(g) && Valid(t)
    ensures Valid(r)
  {
    Scan(dict, t, Expand(g, Segments(|g|, Vertical)))
  }

  /** `buscar_diagonal_principal` */
  function SearchPrincipal(g: Grid, dict: Trie.Node, t: Tree): (r: Tree)
    requires Board(g) && Valid(t)
    ensures Valid(r)
  {
    Scan(dict, t, Expand(g, Segments(|g|, Principal)))
  }

  /** `buscar_diagonal_secundaria` */
  function SearchSecondary(g: Grid, dict: Trie.Node, t: Tree): (r: Tree)
    requires Board(g) && Valid(t)
    ensures Valid(r)
  {
    Scan(dict, t, Expand(g, Segments(|g|, Secondary)))
  }

  /** `buscar_palavras`: the four passes, starting from the empty tree. */
  function FindWords(g: Grid, dict: Trie.Node): (r: Tree)
    requires Board(g)
    ensures Valid(r)
  {
    SearchSecondary(g, dict, SearchPrincipal(g, dict, SearchVertical(g, dict, SearchHorizontal(g, dict, Leaf))))
  }
}
