/**
 Properties of the AVL tree that relate several calls: lookup after insert or
 remove, the ordered listing, idempotent insertion and the insert-all /
 remove-all round trip.
 */
module AvlProps {
  import opened Lex
  import opened Avl

  /** The keys of an in-order listing, in listing order. */
  ghost predicate StrictlyAscending(s: seq<(string, Coord)>) {
    forall i, j :: 0 <= i < j < |s| ==> Less(s[i].0, s[j].0)
  }

  /** Indexing into a node's in-order listing. */
  lemma SplitIndex<T>(sl: seq<T>, x: T, sr: seq<T>, i: int)
    requires 0 <= i < |sl| + 1 + |sr|
    ensures (sl + [x] + sr)[i] == (if i < |sl| then sl[i] else if i == |sl| then x else sr[i - |sl| - 1])
  {
  }

  /** Every word listed in order is a key of the tree. */
  lemma {:induction false} InOrderKeys(t: Tree)
    ensures forall i :: 0 <= i < |InOrder(t)| ==> InOrder(t)[i].0 in Keys(t)
  {
    match t
    case Leaf =>
    case Node(l, k, c, r, _) =>
      InOrderKeys(l);
      InOrderKeys(r);
      forall i | 0 <= i < |InOrder(t)| ensures InOrder(t)[i].0 in Keys(t) {
        SplitIndex(InOrder(l), (k, c), InOrder(r), i);
      }
  }

  /** Every key of the tree is listed in order. */
  lemma {:induction false} KeysListed(t: Tree)
    ensures forall x :: x in Keys(t) ==> exists i :: 0 <= i < |InOrder(t)| && InOrder(t)[i].0 == x
  {
    match t
    case Leaf =>
    case Node(l, k, c, r, _) =>
      KeysListed(l);
      KeysListed(r);
      var sl := InOrder(l);
      var sr := InOrder(r);
      assert InOrder(t) == sl + [(k, c)] + sr;
      assert Keys(t) == Keys(l) + Keys(r) + {k};
      forall x | x in Keys(t)
        ensures exists i :: 0 <= i < |InOrder(t)| && InOrder(t)[i].0 == x
      {
        if x in Keys(l) {
          var i :| 0 <= i < |sl| && sl[i].0 == x;
          SplitIndex(sl, (k, c), sr, i);
          assert InOrder(t)[i].0 == x;
        } else if x == k {
          SplitIndex(sl, (k, c), sr, |sl|);
          assert InOrder(t)[|sl|].0 == x;
        } else {
          assert x in Keys(r);
          var i :| 0 <= i < |sr| && sr[i].0 == x;
          SplitIndex(sl, (k, c), sr, |sl| + 1 + i);
          assert InOrder(t)[|sl| + 1 + i].0 == x;
        }
      }
  }

  /** In an ordered tree each listed word carries the span the tree maps it to. */
  lemma {:induction false} InOrderSpans(t: Tree)
    requires Ordered(t)
    ensures forall i :: 0 <= i < |InOrder(t)| ==>
      InOrder(t)[i].0 in Content(t) && Content(t)[InOrder(t)[i].0] == InOrder(t)[i].1
  {
    match t
    case Leaf =>
    case Node(l, k, c, r, _) =>
      InOrderSpans(l);
      InOrderSpans(r);
      InOrderKeys(t);
      InOrderKeys(l);
      InOrderKeys(r);
      OrderedDisjoint(t);
      var sl := InOrder(l);
      var sr := InOrder(r);
      forall i | 0 <= i < |InOrder(t)|
        ensures InOrder(t)[i].0 in Content(t) && Content(t)[InOrder(t)[i].0] == InOrder(t)[i].1
      {
        SplitIndex(sl, (k, c), sr, i);
        if i < |sl| {
          var x := sl[i].0;
          assert x !in Keys(r) && x != k;
          assert Content(t)[x] == Content(l)[x];
        }
      }
  }

  /** `imprimir_avl_recursivo` lists the words of an ordered tree in strictly
      increasing `strcmp` order. */
  lemma {:induction false} InOrderAscending(t: Tree)
    requires Ordered(t)
    ensures StrictlyAscending(InOrder(t))
  {
    match t
    case Leaf =>
    case Node(l, k, c, r, _) =>
      InOrderAscending(l);
      InOrderAscending(r);
      InOrderKeys(l);
      InOrderKeys(r);
      var s := InOrder(t);
      var sl := InOrder(l);
      var sr := InOrder(r);
      forall i, j | 0 <= i < j < |s| ensures Less(s[i].0, s[j].0) {
        SplitIndex(sl, (k, c), sr, i);
        SplitIndex(sl, (k, c), sr, j);
        if i < |sl| && j > |sl| {
          LessTransitive(s[i].0, k, s[j].0);
        }
      }
  }

  /** `buscar_avl` after `inserir_avl`: the inserted key is found, every other
      key is found exactly when it was found before. */
  lemma ContainsAfterInsert(t: Tree, k: string, c: Coord, q: string)
    requires Valid(t)
    ensures Contains(Insert(t, k, c), q) <==> q == k || Contains(t, q)
  {
    var r := Insert(t, k, c);
    assert Keys(r) == Content(r).Keys;
  }

  /** `buscar_avl` after `remover_avl`: the removed key is gone and every other
      key is found exactly when it was found before. */
  lemma ContainsAfterRemove(t: Tree, k: string, q: string)
    requires Valid(t)
    ensures Contains(Remove(t, k), q) <==> q != k && Contains(t, q)
  {
    var r := Remove(t, k);
    assert Keys(r) == Content(r).Keys;
  }

  /** Inserting a key twice is inserting it once: the first span is kept. */
  lemma InsertTwice(t: Tree, k: string, c1: Coord, c2: Coord)
    requires Valid(t)
    ensures Insert(Insert(t, k, c1), k, c2) == Insert(t, k, c1)
  {
    assert k in Content(Insert(t, k, c1));
  }

  /** Removing a key twice is removing it once. */
  lemma RemoveTwice(t: Tree, k: string)
    requires Valid(t)
    ensures Remove(Remove(t, k), k) == Remove(t, k)
  {
  }

  /** The words of a batch of (word, span) pairs. */
  ghost function Words(ks: seq<(string, Coord)>): set<string> {
    if |ks| == 0 then {} else {ks[0].0} + Words(ks[1..])
  }

  /** The words of a sequence of words. */
  ghost function Elements(ks: seq<string>): set<string> {
    if |ks| == 0 then {} else {ks[0]} + Elements(ks[1..])
  }

  /** Inserts the words of `ks`, in order, each with its span. */
  function InsertAll(t: Tree, ks: seq<(string, Coord)>): (r: Tree)
    requires Valid(t)
    ensures Valid(r)
    ensures Keys(r) == Keys(t) + Words(ks)
    decreases |ks|
  {
    if |ks| == 0 then t
    else InsertAll(Insert(t, ks[0].0, ks[0].1), ks[1..])
  }

  /** Removes the words of `ks`, in order. */
  function RemoveAll(t: Tree, ks: seq<string>): (r: Tree)
    requires Valid(t)
    ensures Valid(r)
    ensures Keys(r) == Keys(t) - Elements(ks)
    decreases |ks|
  {
    if |ks| == 0 then t
    else RemoveAll(Remove(t, ks[0]), ks[1..])
  }

  /** A tree with no keys is the empty tree. */
  lemma NoKeysIsLeaf(t: Tree)
    ensures Keys(t) == {} <==> t == Leaf
  {
    if t.Node? {
      assert t.key in Keys(t);
    }
  }

  /** Inserting a batch of words and then removing all of them, in any order,
      gives back the empty tree. */
  lemma InsertRemoveAllEmpty(ks: seq<(string, Coord)>, order: seq<string>)
    requires Words(ks) <= Elements(order)
    ensures RemoveAll(InsertAll(Leaf, ks), order) == Leaf
  {
    NoKeysIsLeaf(RemoveAll(InsertAll(Leaf, ks), order));
  }
}
