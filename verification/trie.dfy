/**
 The dictionary trie of `trie.c`.

 A node has one child slot per letter a..z and an end-of-word flag. The model
 keeps the occupied slots in a map from letter index (0..25) to child, an
 index with no entry standing for a NULL slot. Case folding is ASCII
 `tolower`.
 */
module Trie {

  /** Number of child slots per node, `TAMANHO_ALFABETO`. */
  const AlphabetSize: int := 26

  datatype Node = Node(children: map<int, Node>, isWord: bool)

  /** `criar_no_trie`: every slot NULL, not the end of a word. */
  function NewNode(): (n: Node)
    ensures n.children == map[] && !n.isWord
    ensures forall q :: !Contains(n, q)
  {
    var n := Node(map[], false);
    assert forall q :: !Contains(n, q) by {
      forall q ensures !Contains(n, q) {
        if |q| > 0 {
          assert Index(q[0]) !in n.children;
        }
      }
    }
    n
  }

  /** ASCII `tolower`: upper-case letters map to lower case, every other
      character to itself. */
  function ToLower(c: char): (d: char)
    ensures 'A' <= c <= 'Z' ==> 'a' <= d <= 'z' && d as int == c as int + 32
    ensures !('A' <= c <= 'Z') ==> d == c
  {
    if 'A' <= c <= 'Z' then (c as int + 32) as char else c
  }

  /** The slot `tolower(c) - 'a'` a character selects; it is a real slot only
      when it lies in 0..25. */
  function Index(c: char): (i: int) {
    ToLower(c) as int - 'a' as int
  }

  /** `c` selects one of the 26 slots, i.e. it is an ASCII letter of either case. */
  predicate IsLetter(c: char) {
    0 <= Index(c) < AlphabetSize
  }

  /** Every character of `q` is a letter. */
  predicate AllLetters(q: string) {
    forall i :: 0 <= i < |q| ==> IsLetter(q[i])
  }

  /** `q` with every character case-folded. */
  function LowerWord(q: string): (r: string)
    ensures |r| == |q|
    ensures forall i :: 0 <= i < |q| ==> r[i] == ToLower(q[i])
  {
    if |q| == 0 then [] else [ToLower(q[0])] + LowerWord(q[1..])
  }

  /** The case-folded letters of `w`, in order, every other character dropped. */
  function Filter(w: string): (r: string)
    ensures |r| <= |w|
    ensures forall i :: 0 <= i < |r| ==> 'a' <= r[i] <= 'z'
  {
    if |w| == 0 then []
    else if IsLetter(w[0]) then [ToLower(w[0])] + Filter(w[1..])
    else Filter(w[1..])
  }

  /** The child in slot `i`, a fresh node standing for a NULL slot. */
  function Child(t: Node, i: int): (c: Node) {
    if i in t.children then t.children[i] else Node(map[], false)
  }

  /** `inserir_trie`: walk the letters of `w`, creating missing children and
      skipping characters that select no slot, then mark the final node. */
  function Insert(t: Node, w: string): (r: Node)
    ensures t.children.Keys <= r.children.Keys
    ensures r.isWord == (t.isWord || Filter(w) == [])
    decreases |w|
  {
    if |w| == 0 then t.(isWord := true)
    else
      var i := Index(w[0]);
      if !(0 <= i < AlphabetSize) then Insert(t, w[1..])
      else t.(children := t.children[i := Insert(Child(t, i), w[1..])])
  }

  /** `buscar_trie`: follow the slots of `q`, failing at the first character
      that selects no slot or an empty one; the answer is the end-of-word flag
      of the node reached. */
  function Contains(t: Node, q: string): (found: bool)
    decreases |q|
  {
    if |q| == 0 then t.isWord
    else
      var i := Index(q[0]);
      if !(0 <= i < AlphabetSize) || i !in t.children then false
      else Contains(t.children[i], q[1..])
  }

  // ---------------------------------------------------------------------------
  // Lookup after insertion

  /** Lookup in a node reached through a NULL slot finds nothing. */
  lemma EmptyFindsNothing(q: string)
    ensures !Contains(Node(map[], false), q)
  {
  }

  /** The central fact about `inserir_trie`: after inserting `w`, a query is
      found exactly when it was found before, or it is made only of letters and
      case-folds to the letters of `w`. */
  lemma {:induction false} ContainsInsert(t: Node, w: string, q: string)
    ensures Contains(Insert(t, w), q) <==> Contains(t, q) || (AllLetters(q) && LowerWord(q) == Filter(w))
    decreases |w|
  {
    if |w| == 0 {
      if |q| > 0 {
        assert LowerWord(q) != Filter(w);
      }
    } else {
      var i := Index(w[0]);
      if !(0 <= i < AlphabetSize) {
        ContainsInsert(t, w[1..], q);
      } else if |q| == 0 {
        assert LowerWord(q) != Filter(w);
      } else {
        var j := Index(q[0]);
        assert LowerWord(q) == [ToLower(q[0])] + LowerWord(q[1..]);
        assert Filter(w) == [ToLower(w[0])] + Filter(w[1..]);
        if !(0 <= j < AlphabetSize) {
          assert !AllLetters(q);
        } else if j != i {
          assert LowerWord(q)[0] != Filter(w)[0];
        } else {
          ContainsInsert(Child(t, i), w[1..], q[1..]);
          if i !in t.children {
            EmptyFindsNothing(q[1..]);
          }
          AllLettersCons(q);
          SameHead(LowerWord(q), Filter(w));
        }
      }
    }
  }

  /** A word is all letters exactly when its head is a letter and its tail is
      all letters. */
  lemma AllLettersCons(q: string)
    requires |q| > 0
    ensures AllLetters(q) <==> IsLetter(q[0]) && AllLetters(q[1..])
  {
    assert forall k :: 0 < k < |q| ==> q[k] == q[1..][k - 1];
  }

  /** Two words with the same first letter are equal exactly when their tails are. */
  lemma SameHead(a: string, b: string)
    requires |a| > 0 && |b| > 0 && a[0] == b[0]
    ensures a == b <==> a[1..] == b[1..]
  {
    if a[1..] == b[1..] {
      assert a == [a[0]] + a[1..] && b == [b[0]] + b[1..];
    }
  }

  /** After inserting `w`, its letters are found (for a word of letters only,
      that is `w` itself). */
  lemma InsertedIsFound(t: Node, w: string)
    ensures Contains(Insert(t, w), Filter(w))
  {
    FilterIsLetters(w);
    LowerOfLower(Filter(w));
    ContainsInsert(t, w, Filter(w));
  }

  /** Insertion only adds: whatever was found before is found after. */
  lemma InsertMonotone(t: Node, w: string, q: string)
    requires Contains(t, q)
    ensures Contains(Insert(t, w), q)
  {
    ContainsInsert(t, w, q);
  }

  /** The letters of a word are letters. */
  lemma {:induction false} FilterIsLetters(w: string)
    ensures AllLetters(Filter(w))
    decreases |w|
  {
    if |w| > 0 {
      FilterIsLetters(w[1..]);
      if IsLetter(w[0]) {
        assert Filter(w) == [ToLower(w[0])] + Filter(w[1..]);
        assert forall k :: 0 < k < |Filter(w)| ==> Filter(w)[k] == Filter(w[1..])[k - 1];
      }
    }
  }

  /** Case folding a lower-case word changes nothing. */
  lemma LowerOfLower(q: string)
    requires forall i :: 0 <= i < |q| ==> 'a' <= q[i] <= 'z'
    ensures LowerWord(q) == q
  {
  }

  // ---------------------------------------------------------------------------
  // Shape of insertion

  /** Inserting the same word twice gives the same trie as inserting it once. */
  lemma {:induction false} InsertIdempotent(t: Node, w: string)
    ensures Insert(Insert(t, w), w) == Insert(t, w)
    decreases |w|
  {
    if |w| > 0 {
      var i := Index(w[0]);
      if !(0 <= i < AlphabetSize) {
        InsertIdempotent(t, w[1..]);
      } else {
        InsertIdempotent(Child(t, i), w[1..]);
        assert Child(Insert(t, w), i) == Insert(Child(t, i), w[1..]);
      }
    }
  }

  /** Insertion behaves as if the characters outside a..z were deleted and the
      rest case-folded first. */
  lemma {:induction false} InsertFiltered(t: Node, w: string)
    ensures Insert(t, Filter(w)) == Insert(t, w)
    decreases |w|
  {
    if |w| > 0 {
      var i := Index(w[0]);
      if !(0 <= i < AlphabetSize) {
        InsertFiltered(t, w[1..]);
      } else {
        InsertFiltered(Child(t, i), w[1..]);
        var f := Filter(w);
        assert f[0] == ToLower(w[0]) && f[1..] == Filter(w[1..]);
        assert Index(f[0]) == i;
      }
    }
  }

  // ---------------------------------------------------------------------------
  // Lookup

  /** Lookup rejects any query containing a character outside the alphabet. */
  lemma {:induction false} NonLetterNotFound(t: Node, q: string)
    requires !AllLetters(q)
    ensures !Contains(t, q)
    decreases |q|
  {
    var k :| 0 <= k < |q| && !IsLetter(q[k]);
    if IsLetter(q[0]) && Index(q[0]) in t.children {
      assert q[1..][k - 1] == q[k];
      NonLetterNotFound(t.children[Index(q[0])], q[1..]);
    }
  }

  /** Lookup folds case: a query is found exactly when its lower-case form is. */
  lemma {:induction false} LookupFoldsCase(t: Node, q: string)
    ensures Contains(t, q) == Contains(t, LowerWord(q))
    decreases |q|
  {
    if |q| > 0 {
      var lq := LowerWord(q);
      assert lq[0] == ToLower(q[0]) && lq[1..] == LowerWord(q[1..]);
      assert Index(lq[0]) == Index(q[0]);
      if IsLetter(q[0]) && Index(q[0]) in t.children {
        LookupFoldsCase(t.children[Index(q[0])], q[1..]);
      }
    }
  }

  // ---------------------------------------------------------------------------
  // A dictionary built from a word list

  /** The trie obtained by inserting the words of `ws` in order into `t`. */
  function InsertAll(t: Node, ws: seq<string>): (u: Node)
    decreases |ws|
  {
    if |ws| == 0 then t else InsertAll(Insert(t, ws[0]), ws[1..])
  }

  /** A dictionary built from a word list holds exactly the letter-only
      queries that case-fold to the letters of some listed word. */
  lemma {:induction false} ContainsInsertAll(t: Node, ws: seq<string>, q: string)
    ensures Contains(InsertAll(t, ws), q) <==>
      Contains(t, q) || (AllLetters(q) && exists i :: 0 <= i < |ws| && LowerWord(q) == Filter(ws[i]))
    decreases |ws|
  {
    if |ws| > 0 {
      ContainsInsertAll(Insert(t, ws[0]), ws[1..], q);
      ContainsInsert(t, ws[0], q);
      if AllLetters(q) {
        if exists i :: 0 <= i < |ws[1..]| && LowerWord(q) == Filter(ws[1..][i]) {
          var i :| 0 <= i < |ws[1..]| && LowerWord(q) == Filter(ws[1..][i]);
          assert LowerWord(q) == Filter(ws[i + 1]);
        }
        if exists i :: 0 <= i < |ws| && LowerWord(q) == Filter(ws[i]) {
          var i :| 0 <= i < |ws| && LowerWord(q) == Filter(ws[i]);
          if i > 0 {
            assert LowerWord(q) == Filter(ws[1..][i - 1]);
          }
        }
      }
    }
  }
}
