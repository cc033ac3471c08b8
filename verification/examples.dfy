/**
 Concrete scenarios: small dictionaries and a 3-by-3 board whose outcome
 follows from the code by hand.
 */
module Examples {
  import opened Avl
  import Trie
  import opened WordSearch
  import opened ScanProps

  // ---------------------------------------------------------------------------
  // Dictionary lookups

  /** A word with a hyphen is stored as its letters: found as "abc" (in any
      case), never as "ab-c". */
  lemma HyphenatedWord()
    ensures Trie.Contains(Trie.Insert(Trie.NewNode(), "ab-c"), "abc")
    ensures Trie.Contains(Trie.Insert(Trie.NewNode(), "ab-c"), "ABC")
    ensures !Trie.Contains(Trie.Insert(Trie.NewNode(), "ab-c"), "ab-c")
  {
    var t := Trie.Insert(Trie.NewNode(), "ab-c");
    Trie.ContainsInsert(Trie.NewNode(), "ab-c", "abc");
    Trie.ContainsInsert(Trie.NewNode(), "ab-c", "ABC");
    assert Trie.Filter("ab-c") == "abc";
    assert Trie.LowerWord("ABC") == "abc";
    assert !Trie.IsLetter("ab-c"[2]);
    Trie.NonLetterNotFound(t, "ab-c");
  }

  /** A proper prefix or extension of a stored word is not a word. */
  lemma PrefixAndExtension()
    ensures Trie.Contains(Trie.Insert(Trie.NewNode(), "gato"), "gato")
    ensures !Trie.Contains(Trie.Insert(Trie.NewNode(), "gato"), "gat")
    ensures !Trie.Contains(Trie.Insert(Trie.NewNode(), "gato"), "gatos")
  {
    var e := Trie.NewNode();
    Trie.ContainsInsert(e, "gato", "gato");
    Trie.ContainsInsert(e, "gato", "gat");
    Trie.ContainsInsert(e, "gato", "gatos");
    assert Trie.Filter("gato") == "gato";
    assert Trie.LowerWord("gato") == "gato";
    assert |Trie.LowerWord("gat")| != |Trie.Filter("gato")|;
    assert |Trie.LowerWord("gatos")| != |Trie.Filter("gato")|;
  }

  // ---------------------------------------------------------------------------
  // A 3-by-3 board

  /** The board
        c a t
        a b c
        t x x
      given row by row. */
  predicate IsBoard3(g: Grid) {
    |g| == 3 && g[0] == "cat" && g[1] == "abc" && g[2] == "txx"
  }

  /** The dictionary {cat, tac}. */
  const Dict: Trie.Node := Trie.InsertAll(Trie.NewNode(), ["cat", "tac"])

  lemma DictWords(q: string)
    ensures Trie.Contains(Dict, q) <==>
      Trie.AllLetters(q) && (Trie.LowerWord(q) == "cat" || Trie.LowerWord(q) == "tac")
  {
    var ws := ["cat", "tac"];
    Trie.ContainsInsertAll(Trie.NewNode(), ws, q);
    assert Trie.Filter(ws[0]) == "cat";
    assert Trie.Filter(ws[1]) == "tac";
  }

  /** Every cell of `g` is a lower-case letter. */
  ghost predicate LowerCells(g: Grid) {
    forall r, k :: 0 <= r < |g| && 0 <= k < |g[r]| ==> 'a' <= g[r][k] <= 'z'
  }

  /** The example board is square and written in lower case. */
  lemma Board3Lower(g: Grid)
    requires IsBoard3(g)
    ensures Board(g) && LowerCells(g)
  {
  }

  /** Every word a lower-case board spells is in lower case. */
  lemma BoardWordsLower(g: Grid, w: string, c: Coord)
    requires LowerCells(g) && SpanSpells(g, w, c)
    ensures Trie.LowerWord(w) == w
  {
    Trie.LowerOfLower(w);
  }

  /** On a 3-by-3 board the horizontal pass starts in row 0, column 0, with
      lengths 2 and 3. */
  lemma HorizontalStart(n: int)
    requires n == 3
    ensures |Segments(n, Horizontal)| >= 2
    ensures Segments(n, Horizontal)[0] == Segment(Horizontal, 0, 0, 2)
    ensures Segments(n, Horizontal)[1] == Segment(Horizontal, 0, 0, 3)
  {
    var s2, s3 := Segment(Horizontal, 0, 0, 2), Segment(Horizontal, 0, 0, 3);
    var lens := Lengths(n, Horizontal, 0, 0, 2);
    assert lens == [s2, s3] by {
      assert Lengths(n, Horizontal, 0, 0, 4) == [];
    }
    var inner := Inner(n, Horizontal, 0, 0);
    assert inner[..2] == [s2, s3] by {
      assert inner == lens + Inner(n, Horizontal, 0, 1);
    }
    assert Segments(n, Horizontal) == inner + Outer(n, Horizontal, 1);
  }

  /** The whole scan starts with the horizontal pass. */
  lemma ScanStart(n: int)
    requires n == 3
    ensures |AllSegments(n)| >= 2
    ensures AllSegments(n)[0] == Segment(Horizontal, 0, 0, 2)
    ensures AllSegments(n)[1] == Segment(Horizontal, 0, 0, 3)
  {
    HorizontalStart(n);
    var h := Segments(n, Horizontal);
    var hv := h + Segments(n, Vertical);
    var hvp := hv + Segments(n, Principal);
    assert AllSegments(n) == hvp + Segments(n, Secondary);
    assert hv[0] == h[0] && hv[1] == h[1];
    assert hvp[0] == hv[0] && hvp[1] == hv[1];
  }

  /** On a 3-by-3 board the first four candidates come from row 0, column 0:
      length 2 forward and reversed, then length 3 forward and reversed. */
  lemma FirstCandidatesOf(g: Grid)
    requires Square(g) && |g| == 3
    ensures |Candidates(g)| >= 4
    ensures Candidates(g)[0] == Forward(g, Segment(Horizontal, 0, 0, 2))
    ensures Candidates(g)[1] == Backward(g, Segment(Horizontal, 0, 0, 2))
    ensures Candidates(g)[2] == Forward(g, Segment(Horizontal, 0, 0, 3))
    ensures Candidates(g)[3] == Backward(g, Segment(Horizontal, 0, 0, 3))
  {
    ScanStart(|g|);
    ExpandIndex(g, AllSegments(|g|), 0);
    ExpandIndex(g, AllSegments(|g|), 1);
  }

  /** Row 0 read from column 0: "ca" and "cat", with their reversals. */
  lemma RowZero(g: Grid)
    requires IsBoard3(g)
    ensures Square(g)
    ensures Forward(g, Segment(Horizontal, 0, 0, 2)).0 == "ca"
    ensures Backward(g, Segment(Horizontal, 0, 0, 2)).0 == "ac"
    ensures Forward(g, Segment(Horizontal, 0, 0, 3)) == ("cat", Coord(0, 0, 0, 2))
    ensures Backward(g, Segment(Horizontal, 0, 0, 3)) == ("tac", Coord(0, 2, 0, 0))
  {
    var ca := Spell(g, Segment(Horizontal, 0, 0, 2));
    var cat := Spell(g, Segment(Horizontal, 0, 0, 3));
    assert ca == "ca" by {
      assert ca[0] == 'c' && ca[1] == 'a';
    }
    assert cat == "cat" by {
      assert cat[0] == 'c' && cat[1] == 'a' && cat[2] == 't';
    }
    assert Reverse(ca) == "ac";
    assert Reverse(cat) == "tac";
  }

  /** The first four candidates of the example board. */
  lemma FirstCandidates(g: Grid)
    requires IsBoard3(g)
    ensures |Candidates(g)| >= 4
    ensures Candidates(g)[0].0 == "ca"
    ensures Candidates(g)[1].0 == "ac"
    ensures Candidates(g)[2] == ("cat", Coord(0, 0, 0, 2))
    ensures Candidates(g)[3] == ("tac", Coord(0, 2, 0, 0))
  {
    RowZero(g);
    FirstCandidatesOf(g);
  }

  /** `dict` holds exactly the words "cat" and "tac", in any letter case. */
  ghost predicate CatTac(dict: Trie.Node) {
    forall q :: Trie.Contains(dict, q) <==>
      Trie.AllLetters(q) && (Trie.LowerWord(q) == "cat" || Trie.LowerWord(q) == "tac")
  }

  /** With the dictionary {cat, tac}, only "cat" and "tac" can be found on a
      lower-case board. */
  lemma OnlyCatAndTac(g: Grid, dict: Trie.Node, w: string)
    requires Board(g) && LowerCells(g) && CatTac(dict) && w in Keys(FindWords(g, dict))
    ensures w == "cat" || w == "tac"
  {
    var c := Content(FindWords(g, dict))[w];
    assert Trie.Contains(dict, w) && SpanSpells(g, w, c) by {
      FindWordsSound(g, dict, w);
    }
    assert Trie.LowerWord(w) == w by {
      BoardWordsLower(g, w, c);
    }
  }

  /** A word of the dictionary whose first candidate is `(w, c)` is found with
      span `c`. */
  lemma FoundAt(g: Grid, dict: Trie.Node, w: string, c: Coord, i: int)
    requires Board(g) && Trie.Contains(dict, w)
    requires 0 <= i < |Candidates(g)| && Candidates(g)[i] == (w, c)
    requires forall j :: 0 <= j < i ==> Candidates(g)[j].0 != w
    ensures w in Content(FindWords(g, dict)) && Content(FindWords(g, dict))[w] == c
  {
    assert FirstOccurrence(Candidates(g), w, c);
    FindWordsEntries(g, dict, w, c);
  }

  /** A map with entries `a := ca` and `b := cb` and no other key. */
  lemma TwoEntries<K, V>(m: map<K, V>, a: K, ca: V, b: K, cb: V)
    requires a in m && m[a] == ca && b in m && m[b] == cb
    requires forall k :: k in m ==> k == a || k == b
    ensures m == map[a := ca, b := cb]
  {
  }

  /** Neither "cat" nor "tac" occurs among the candidates before it. */
  lemma EarlierDiffer(cs: seq<(string, Coord)>)
    requires |cs| >= 3 && cs[0].0 == "ca" && cs[1].0 == "ac" && cs[2].0 == "cat"
    ensures forall j :: 0 <= j < 2 ==> cs[j].0 != "cat"
    ensures forall j :: 0 <= j < 3 ==> cs[j].0 != "tac"
  {
    assert "cat"[0] != "tac"[0];
  }

  /** The dictionary {cat, tac} holds "cat" and "tac". */
  lemma CatTacHolds(dict: Trie.Node)
    requires CatTac(dict)
    ensures Trie.Contains(dict, "cat") && Trie.Contains(dict, "tac")
  {
    assert Trie.LowerWord("cat") == "cat" && Trie.LowerWord("tac") == "tac";
  }

  /** With a dictionary holding "cat" and "tac", a board whose first four
      candidates are "ca", "ac", "cat" and "tac" finds "cat" and "tac" with the spans of their
      first candidates. */
  lemma CatAndTacFound(g: Grid, dict: Trie.Node)
    requires Board(g) && Trie.Contains(dict, "cat") && Trie.Contains(dict, "tac")
    requires |Candidates(g)| >= 4
    requires Candidates(g)[0].0 == "ca" && Candidates(g)[1].0 == "ac"
    requires Candidates(g)[2] == ("cat", Coord(0, 0, 0, 2))
    requires Candidates(g)[3] == ("tac", Coord(0, 2, 0, 0))
    ensures "cat" in Content(FindWords(g, dict)) && Content(FindWords(g, dict))["cat"] == Coord(0, 0, 0, 2)
    ensures "tac" in Content(FindWords(g, dict)) && Content(FindWords(g, dict))["tac"] == Coord(0, 2, 0, 0)
  {
    EarlierDiffer(Candidates(g));
    FoundAt(g, dict, "cat", Coord(0, 0, 0, 2), 2);
    FoundAt(g, dict, "tac", Coord(0, 2, 0, 0), 3);
  }

  /** ... and finds nothing else on a lower-case board. */
  lemma CatOutcome(g: Grid, dict: Trie.Node)
    requires Board(g) && LowerCells(g) && CatTac(dict)
    requires |Candidates(g)| >= 4
    requires Candidates(g)[0].0 == "ca" && Candidates(g)[1].0 == "ac"
    requires Candidates(g)[2] == ("cat", Coord(0, 0, 0, 2))
    requires Candidates(g)[3] == ("tac", Coord(0, 2, 0, 0))
    ensures Content(FindWords(g, dict)) == map["cat" := Coord(0, 0, 0, 2), "tac" := Coord(0, 2, 0, 0)]
  {
    var m := Content(FindWords(g, dict));
    CatTacHolds(dict);
    CatAndTacFound(g, dict);
    forall w | w in m ensures w == "cat" || w == "tac" {
      OnlyCatAndTac(g, dict, w);
    }
    TwoEntries(m, "cat", Coord(0, 0, 0, 2), "tac", Coord(0, 2, 0, 0));
  }

  /** Board "cat / abc / txx" with a dictionary of "cat" and "tac": "cat" keeps
      the span of its first, horizontal, occurrence (the vertical one in
      column 0 comes later and is skipped), and "tac" is its reversal in row 0. */
  lemma CatExample(g: Grid, dict: Trie.Node)
    requires IsBoard3(g) && CatTac(dict)
    ensures Content(FindWords(g, dict)) == map["cat" := Coord(0, 0, 0, 2), "tac" := Coord(0, 2, 0, 0)]
  {
    FirstCandidates(g);
    Board3Lower(g);
    CatOutcome(g, dict);
  }

  /** The same outcome with the dictionary built by inserting "cat" and "tac". */
  lemma CatExampleBuilt(g: Grid)
    requires IsBoard3(g)
    ensures Content(FindWords(g, Dict)) == map["cat" := Coord(0, 0, 0, 2), "tac" := Coord(0, 2, 0, 0)]
  {
    forall q ensures Trie.Contains(Dict, q) <==>
      Trie.AllLetters(q) && (Trie.LowerWord(q) == "cat" || Trie.LowerWord(q) == "tac")
    {
      DictWords(q);
    }
    CatExample(g, Dict);
  }
}
