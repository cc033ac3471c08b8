/**
 The AVL tree of found words (avl.h, avl.c).

 Each node maps a word to the grid span where it was first seen and caches the
 height of its subtree. Insertion and removal rebuild the path they descend and
 return the new subtree root, exactly as the C functions return the pointer the
 caller must store back. The tree is an immutable datatype here, so the
 pointer surgery of the rotations becomes construction of new nodes.
 */
module Avl {
  import opened Lex

  /** A word's span in the grid: first and last cell, in scan order (`Coordenadas`). */
  datatype Coord = Coord(rowStart: int, colStart: int, rowEnd: int, colEnd: int)

  /** `NoAVL`; `Leaf` plays the part of the NULL pointer. */
  datatype Tree =
    | Leaf
    | Node(left: Tree, key: string, coord: Coord, right: Tree, height: int)

  function Max(a: int, b: int): (m: int) {
    if a > b then a else b
  }

  // ---------------------------------------------------------------------------
  // Abstract views and invariants

  /** Height computed from the shape alone, ignoring the cached fields. */
  ghost function Depth(t: Tree): nat {
    match t
    case Leaf => 0
    case Node(l, _, _, r, _) => 1 + Max(Depth(l), Depth(r))
  }

  /** The words stored in the tree. */
  ghost function Keys(t: Tree): set<string> {
    match t
    case Leaf => {}
    case Node(l, k, _, r, _) => Keys(l) + Keys(r) + {k}
  }

  /** The word-to-span map the tree represents. The unions are taken in
      left-node-right order, so the map is the in-order list read as a map
      (in an ordered tree the three parts are disjoint anyway). */
  ghost function Content(t: Tree): (m: map<string, Coord>)
    ensures m.Keys == Keys(t)
  {
    match t
    case Leaf => map[]
    case Node(l, k, c, r, _) => Content(l) + map[k := c] + Content(r)
  }

  /** The (word, span) pairs in left-node-right order, the order in which
      `imprimir_avl_recursivo` lists them. */
  ghost function InOrder(t: Tree): seq<(string, Coord)> {
    match t
    case Leaf => []
    case Node(l, k, c, r, _) => InOrder(l) + [(k, c)] + InOrder(r)
  }

  /** Binary-search-tree order under `strcmp`. */
  ghost predicate Ordered(t: Tree) {
    match t
    case Leaf => true
    case Node(l, k, _, r, _) =>
      && Ordered(l) && Ordered(r)
      && (forall x :: x in Keys(l) ==> Less(x, k))
      && (forall x :: x in Keys(r) ==> Less(k, x))
  }

  /** Every cached height is one more than the larger cached height of the
      children, an absent child counting 0 (so every node has height at least 1). */
  ghost predicate HeightsOk(t: Tree) {
    match t
    case Leaf => true
    case Node(l, _, _, r, h) =>
      HeightsOk(l) && HeightsOk(r) && h == 1 + Max(Height(l), Height(r)) && h >= 1
  }

  /** The AVL condition at every node, on cached heights. */
  ghost predicate Balanced(t: Tree) {
    match t
    case Leaf => true
    case Node(l, _, _, r, _) =>
      Balanced(l) && Balanced(r) && -1 <= Height(l) - Height(r) <= 1
  }

  ghost predicate Valid(t: Tree) {
    Ordered(t) && HeightsOk(t) && Balanced(t)
  }

  /** The shape a subtree has after an insertion of `k` made it taller: either
      it is the new single node, or `k` went to one side and that side is now
      the taller one. */
  ghost predicate Grown(t: Tree, k: string) {
    && t.Node?
    && (if Less(k, t.key) then BalanceFactor(t) == 1
        else if Less(t.key, k) then BalanceFactor(t) == -1
        else t.left.Leaf? && t.right.Leaf?)
  }

  // ---------------------------------------------------------------------------
  // Heights and rotations

  /** `altura`: the cached height, 0 for an absent subtree. */
  function Height(t: Tree): (h: int) {
    if t.Node? then t.height else 0
  }

  /** `fator_balanceamento`: left height minus right height, 0 for an absent subtree. */
  function BalanceFactor(t: Tree): (b: int) {
    if t.Node? then Height(t.left) - Height(t.right) else 0
  }

  /** `atualizar_altura`: refreshes the cached height of the root only. */
  function UpdateHeight(t: Tree): (r: Tree)
    ensures InOrder(r) == InOrder(t) && Keys(r) == Keys(t) && Content(r) == Content(t)
    ensures Ordered(r) == Ordered(t)
    ensures t.Node? && HeightsOk(t.left) && HeightsOk(t.right) ==> HeightsOk(r)
    ensures HeightsOk(t) ==> r == t
  {
    if t.Node? then t.(height := 1 + Max(Height(t.left), Height(t.right))) else t
  }

  /** Cached heights are true heights once they are consistent. */
  lemma {:induction false} HeightIsDepth(t: Tree)
    requires HeightsOk(t)
    ensures Height(t) == Depth(t)
  {
    if t.Node? {
      HeightIsDepth(t.left);
      HeightIsDepth(t.right);
    }
  }

  lemma MapUnionAssoc<K, V>(a: map<K, V>, b: map<K, V>, c: map<K, V>)
    ensures (a + b) + c == a + (b + c)
  {
  }

  /** Transitivity across a node: everything left of `k` is below everything right of it. */
  lemma OrderedAcross(l: Tree, k: string, r: Tree)
    requires forall x :: x in Keys(l) ==> Less(x, k)
    requires forall x :: x in Keys(r) ==> Less(k, x)
    ensures forall x, y :: x in Keys(l) && y in Keys(r) ==> Less(x, y)
  {
    forall x, y | x in Keys(l) && y in Keys(r)
      ensures Less(x, y)
    {
      LessTransitive(x, k, y);
    }
  }

  lemma SeqReassociate<T>(a: seq<T>, x: T, b: seq<T>, y: T, c: seq<T>)
    ensures (a + [x] + b) + [y] + c == a + [x] + (b + [y] + c)
  {
  }

  lemma MapReassociate<K, V>(a: map<K, V>, x: map<K, V>, b: map<K, V>, y: map<K, V>, c: map<K, V>)
    ensures (a + x + b) + y + c == a + x + (b + y + c)
  {
    MapUnionAssoc(a + x, b, y + c);
  }

  /** Moving the middle subtree `b` from under `x` to under `y` (or back)
      changes neither the in-order listing nor the keys nor the map. */
  lemma Reassociate(a: Tree, xk: string, xc: Coord, b: Tree, yk: string, yc: Coord, c: Tree,
                    h1: int, h2: int, h3: int, h4: int)
    ensures var lhs := Node(Node(a, xk, xc, b, h1), yk, yc, c, h2);
      var rhs := Node(a, xk, xc, Node(b, yk, yc, c, h3), h4);
      InOrder(lhs) == InOrder(rhs) && Keys(lhs) == Keys(rhs) && Content(lhs) == Content(rhs)
  {
    SeqReassociate(InOrder(a), (xk, xc), InOrder(b), (yk, yc), InOrder(c));
    MapReassociate(Content(a), map[xk := xc], Content(b), map[yk := yc], Content(c));
  }

  /** `rotacao_direita`: the left child `x` of `y` becomes the root; `x`'s right
      subtree moves under `y`. Only `y` and `x` get new heights: the three
      subtrees hanging below them are reattached untouched. */
  function RotateRight(y: Tree): (r: Tree)
    requires y.Node? && y.left.Node?
    ensures r.Node? && r.right.Node?
    ensures r.left == y.left.left && r.right.left == y.left.right && r.right.right == y.right
    ensures InOrder(r) == InOrder(y) && Keys(r) == Keys(y) && Content(r) == Content(y)
    ensures HeightsOk(y.left.left) && HeightsOk(y.left.right) && HeightsOk(y.right) ==> HeightsOk(r)
  {
    var x := y.left;
    var y' := UpdateHeight(Node(x.right, y.key, y.coord, y.right, y.height));
    var r := UpdateHeight(Node(x.left, x.key, x.coord, y', x.height));
    Reassociate(x.left, x.key, x.coord, x.right, y.key, y.coord, y.right, x.height, y.height, y'.height, r.height);
    r
  }

  /** `rotacao_esquerda`: the mirror image of `RotateRight`. */
  function RotateLeft(x: Tree): (r: Tree)
    requires x.Node? && x.right.Node?
    ensures r.Node? && r.left.Node?
    ensures r.right == x.right.right && r.left.right == x.right.left && r.left.left == x.left
    ensures InOrder(r) == InOrder(x) && Keys(r) == Keys(x) && Content(r) == Content(x)
    ensures HeightsOk(x.right.right) && HeightsOk(x.right.left) && HeightsOk(x.left) ==> HeightsOk(r)
  {
    var y := x.right;
    var x' := UpdateHeight(Node(x.left, x.key, x.coord, y.left, x.height));
    var r := UpdateHeight(Node(x', y.key, y.coord, y.right, y.height));
    Reassociate(x.left, x.key, x.coord, y.left, y.key, y.coord, y.right, x'.height, r.height, y.height, x.height);
    r
  }

  /** A right rotation keeps search-tree order. */
  lemma RotateRightOrdered(y: Tree)
    requires y.Node? && y.left.Node? && Ordered(y)
    ensures Ordered(RotateRight(y))
  {
    var x := y.left;
    var r := RotateRight(y);
    var y' := r.right;
    OrderedAcross(x, y.key, y.right);
    assert x.key in Keys(x);
    assert Ordered(y');
    assert forall z :: z in Keys(y') ==> Less(x.key, z);
  }

  /** A left rotation keeps search-tree order. */
  lemma RotateLeftOrdered(x: Tree)
    requires x.Node? && x.right.Node? && Ordered(x)
    ensures Ordered(RotateLeft(x))
  {
    var y := x.right;
    var r := RotateLeft(x);
    var x' := r.left;
    OrderedAcross(x.left, x.key, y);
    assert y.key in Keys(y);
    assert Ordered(x');
    assert forall z :: z in Keys(x') ==> Less(z, y.key);
  }

  /** In an ordered node the root key and the two subtrees' key sets are
      pairwise disjoint. */
  lemma OrderedDisjoint(t: Tree)
    requires t.Node? && Ordered(t)
    ensures t.key !in Keys(t.left) && t.key !in Keys(t.right)
    ensures Keys(t.left) !! Keys(t.right)
  {
    LessTrichotomy(t.key, t.key);
    forall x | x in Keys(t.left) && x in Keys(t.right) ensures false {
      LessTrichotomy(x, t.key);
    }
  }

  // ---------------------------------------------------------------------------
  // Rebalancing

  /** The four rotation cases of `remover_avl`, chosen by the balance factor of
      the root and of its taller child, on a node whose height was just refreshed. */
  function RebalanceRemove(n: Tree): (r: Tree)
    requires n.Node? && HeightsOk(n)
  {
    ChildHeights(n);
    var fb := BalanceFactor(n);
    if fb > 1 && BalanceFactor(n.left) >= 0 then
      RotateRight(n)
    else if fb > 1 && BalanceFactor(n.left) < 0 then
      RotateRight(n.(left := RotateLeft(n.left)))
    else if fb < -1 && BalanceFactor(n.right) <= 0 then
      RotateLeft(n)
    else if fb < -1 && BalanceFactor(n.right) > 0 then
      RotateLeft(n.(right := RotateRight(n.right)))
    else
      n
  }

  /** The four rotation cases of `inserir_avl`, chosen by comparing the new key
      with the key of the taller child. */
  function RebalanceInsert(n: Tree, k: string): (r: Tree)
    requires n.Node? && HeightsOk(n)
    requires BalanceFactor(n) > 1 ==> Grown(n.left, k)
    requires BalanceFactor(n) < -1 ==> Grown(n.right, k)
  {
    ChildHeights(n);
    GrownInner(n, k);
    var fb := BalanceFactor(n);
    if fb > 1 && Strcmp(k, n.left.key) < 0 then
      RotateRight(n)
    else if fb < -1 && Strcmp(k, n.right.key) > 0 then
      RotateLeft(n)
    else if fb > 1 && Strcmp(k, n.left.key) > 0 then
      RotateRight(n.(left := RotateLeft(n.left)))
    else if fb < -1 && Strcmp(k, n.right.key) < 0 then
      RotateLeft(n.(right := RotateRight(n.right)))
    else
      n
  }

  /** The grandchild a double rotation of `inserir_avl` dereferences exists. */
  lemma GrownInner(n: Tree, k: string)
    requires n.Node? && HeightsOk(n)
    requires BalanceFactor(n) > 1 ==> Grown(n.left, k)
    requires BalanceFactor(n) < -1 ==> Grown(n.right, k)
    ensures BalanceFactor(n) > 1 && n.left.Node? && Strcmp(k, n.left.key) > 0 ==> n.left.right.Node?
    ensures BalanceFactor(n) < -1 && n.right.Node? && Strcmp(k, n.right.key) < 0 ==> n.right.left.Node?
  {
    ChildHeights(n);
    if n.left.Node? {
      ChildHeights(n.left);
      StrcmpAntisymmetric(k, n.left.key);
    }
    if n.right.Node? {
      ChildHeights(n.right);
      StrcmpAntisymmetric(k, n.right.key);
    }
  }

  /** Cached heights of a consistent node and of its children are not negative. */
  lemma ChildHeights(n: Tree)
    requires n.Node? && HeightsOk(n)
    ensures Height(n) >= 1 && Height(n.left) >= 0 && Height(n.right) >= 0
    ensures n.left.Node? ==> Height(n.left.left) >= 0 && Height(n.left.right) >= 0
    ensures n.right.Node? ==> Height(n.right.left) >= 0 && Height(n.right.right) >= 0
  {
  }

  lemma SingleRightSound(n: Tree)
    requires n.Node? && n.left.Node? && HeightsOk(n) && Balanced(n.left) && Balanced(n.right)
    requires BalanceFactor(n) == 2 && BalanceFactor(n.left) >= 0
    ensures var r := RotateRight(n);
      && HeightsOk(r) && Balanced(r)
      && Height(r) == Height(n.left) + (if BalanceFactor(n.left) == 0 then 1 else 0)
  {
    ChildHeights(n);
    ChildHeights(n.left);
  }

  lemma SingleLeftSound(n: Tree)
    requires n.Node? && n.right.Node? && HeightsOk(n) && Balanced(n.left) && Balanced(n.right)
    requires BalanceFactor(n) == -2 && BalanceFactor(n.right) <= 0
    ensures var r := RotateLeft(n);
      && HeightsOk(r) && Balanced(r)
      && Height(r) == Height(n.right) + (if BalanceFactor(n.right) == 0 then 1 else 0)
  {
    ChildHeights(n);
    ChildHeights(n.right);
  }

  /** A node whose two children each hang two AVL trees of height `h - 1` or
      `h`, at least one of each pair of height `h`, is an AVL tree of height
      `h + 2`: the shape both double rotations produce. */
  lemma EvenGrandchildren(r: Tree, h: int)
    requires r.Node? && r.left.Node? && r.right.Node? && HeightsOk(r)
    requires Balanced(r.left.left) && Balanced(r.left.right)
    requires Balanced(r.right.left) && Balanced(r.right.right)
    requires h - 1 <= Height(r.left.left) <= h && h - 1 <= Height(r.left.right) <= h
    requires h - 1 <= Height(r.right.left) <= h && h - 1 <= Height(r.right.right) <= h
    requires Max(Height(r.left.left), Height(r.left.right)) == h
    requires Max(Height(r.right.left), Height(r.right.right)) == h
    ensures Balanced(r) && Height(r) == h + 2
  {
  }

  lemma DoubleRightSound(n: Tree)
    requires n.Node? && n.left.Node? && n.left.right.Node?
    requires HeightsOk(n) && Balanced(n.left) && Balanced(n.right)
    requires BalanceFactor(n) == 2 && BalanceFactor(n.left) < 0
    ensures var r := RotateRight(n.(left := RotateLeft(n.left)));
      HeightsOk(r) && Balanced(r) && Height(r) == Height(n.left)
  {
    var x := n.left;
    var z := x.right;
    var a, b, c, d := x.left, z.left, z.right, n.right;
    var ha := Height(a);
    assert Height(x) == ha + 2 && Height(d) == ha && Max(Height(b), Height(c)) == ha
      && ha - 1 <= Height(b) <= ha && ha - 1 <= Height(c) <= ha by {
      ChildHeights(n);
      ChildHeights(x);
      ChildHeights(z);
    }
    assert HeightsOk(x) && Balanced(x);
    assert HeightsOk(z) && Balanced(z);
    assert HeightsOk(a) && HeightsOk(b) && HeightsOk(c) && HeightsOk(d);
    assert Balanced(a) && Balanced(b) && Balanced(c) && Balanced(d);
    var r := RotateRight(n.(left := RotateLeft(x)));
    assert r.left.left == a && r.left.right == b && r.right.left == c && r.right.right == d;
    EvenGrandchildren(r, ha);
  }

  lemma DoubleLeftSound(n: Tree)
    requires n.Node? && n.right.Node? && n.right.left.Node?
    requires HeightsOk(n) && Balanced(n.left) && Balanced(n.right)
    requires BalanceFactor(n) == -2 && BalanceFactor(n.right) > 0
    ensures var r := RotateLeft(n.(right := RotateRight(n.right)));
      HeightsOk(r) && Balanced(r) && Height(r) == Height(n.right)
  {
    var x := n.right;
    var z := x.left;
    var a, b, c, d := n.left, z.left, z.right, x.right;
    var hd := Height(d);
    assert Height(x) == hd + 2 && Height(a) == hd && Max(Height(b), Height(c)) == hd
      && hd - 1 <= Height(b) <= hd && hd - 1 <= Height(c) <= hd by {
      ChildHeights(n);
      ChildHeights(x);
      ChildHeights(z);
    }
    assert HeightsOk(x) && Balanced(x);
    assert HeightsOk(z) && Balanced(z);
    assert HeightsOk(a) && HeightsOk(b) && HeightsOk(c) && HeightsOk(d);
    assert Balanced(a) && Balanced(b) && Balanced(c) && Balanced(d);
    var r := RotateLeft(n.(right := RotateRight(x)));
    assert r.left.left == a && r.left.right == b && r.right.left == c && r.right.right == d;
    EvenGrandchildren(r, hd);
  }

  /** The rotations for a node whose left side is two levels taller. */
  lemma LeftHeavySound(n: Tree)
    requires n.Node? && HeightsOk(n) && Ordered(n)
    requires Balanced(n.left) && Balanced(n.right)
    requires BalanceFactor(n) == 2
    ensures var r := RebalanceRemove(n);
      && Valid(r) && InOrder(r) == InOrder(n) && Content(r) == Content(n)
      && Height(r) == Height(n.left) + (if BalanceFactor(n.left) == 0 then 1 else 0)
  {
    ChildHeights(n);
    ChildHeights(n.left);
    if BalanceFactor(n.left) >= 0 {
      SingleRightSound(n);
      RotateRightOrdered(n);
    } else {
      var n' := n.(left := RotateLeft(n.left));
      RotateLeftOrdered(n.left);
      DoubleRightSound(n);
      assert Ordered(n');
      RotateRightOrdered(n');
    }
  }

  /** The rotations for a node whose right side is two levels taller. */
  lemma RightHeavySound(n: Tree)
    requires n.Node? && HeightsOk(n) && Ordered(n)
    requires Balanced(n.left) && Balanced(n.right)
    requires BalanceFactor(n) == -2
    ensures var r := RebalanceRemove(n);
      && Valid(r) && InOrder(r) == InOrder(n) && Content(r) == Content(n)
      && Height(r) == Height(n.right) + (if BalanceFactor(n.right) == 0 then 1 else 0)
  {
    ChildHeights(n);
    ChildHeights(n.right);
    if BalanceFactor(n.right) <= 0 {
      SingleLeftSound(n);
      RotateLeftOrdered(n);
    } else {
      var n' := n.(right := RotateRight(n.right));
      RotateRightOrdered(n.right);
      DoubleLeftSound(n);
      assert Ordered(n');
      RotateLeftOrdered(n');
    }
  }

  /** Rebalancing a node whose children are AVL trees differing in height by at
      most two yields an AVL tree with the same contents; the height it ends
      with depends on the balance of the taller child. */
  lemma RebalanceRemoveSound(n: Tree)
    requires n.Node? && HeightsOk(n) && Ordered(n)
    requires Balanced(n.left) && Balanced(n.right)
    requires -2 <= BalanceFactor(n) <= 2
    ensures var r := RebalanceRemove(n);
      && Valid(r) && InOrder(r) == InOrder(n) && Content(r) == Content(n)
      && (-1 <= BalanceFactor(n) <= 1 ==> r == n)
      && (BalanceFactor(n) == 2 ==>
            Height(r) == Height(n.left) + (if BalanceFactor(n.left) == 0 then 1 else 0))
      && (BalanceFactor(n) == -2 ==>
            Height(r) == Height(n.right) + (if BalanceFactor(n.right) == 0 then 1 else 0))
  {
    if BalanceFactor(n) == 2 {
      LeftHeavySound(n);
    } else if BalanceFactor(n) == -2 {
      RightHeavySound(n);
    } else {
      assert RebalanceRemove(n) == n;
      assert Balanced(n);
    }
  }

  /** Under the growth shape the key-driven insert cases pick the same rotation
      as the balance-driven remove cases, and never the symmetric-child one. */
  lemma RebalanceInsertSound(n: Tree, k: string)
    requires n.Node? && HeightsOk(n) && Ordered(n)
    requires Balanced(n.left) && Balanced(n.right)
    requires -2 <= BalanceFactor(n) <= 2
    requires BalanceFactor(n) > 1 ==> Grown(n.left, k)
    requires BalanceFactor(n) < -1 ==> Grown(n.right, k)
    ensures var r := RebalanceInsert(n, k);
      && r == RebalanceRemove(n)
      && Valid(r) && Content(r) == Content(n)
      && (-1 <= BalanceFactor(n) <= 1 ==> r == n)
      && (BalanceFactor(n) == 2 ==> Height(r) == Height(n.left))
      && (BalanceFactor(n) == -2 ==> Height(r) == Height(n.right))
  {
    RebalanceRemoveSound(n);
    if BalanceFactor(n) > 1 {
      LessTrichotomy(k, n.left.key);
    } else if BalanceFactor(n) < -1 {
      LessTrichotomy(k, n.right.key);
    }
  }

  // ---------------------------------------------------------------------------
  // Operations

  /** `criar_no_avl`: a single node of height 1. */
  function NewNode(k: string, c: Coord): (r: Tree)
    ensures Valid(r) && Content(r) == map[k := c] && Height(r) == 1
    ensures Grown(r, k)
  {
    LessTrichotomy(k, k);
    Node(Leaf, k, c, Leaf, 1)
  }

  /** What `inserir_avl` promises of its result `r`. */
  ghost predicate InsertPost(t: Tree, k: string, c: Coord, r: Tree) {
    && Valid(r)
    && Content(r) == (if k in Content(t) then Content(t) else Content(t)[k := c])
    && (k in Content(t) ==> r == t)
    && Height(t) <= Height(r) <= Height(t) + 1
    && (Height(r) == Height(t) + 1 ==> Grown(r, k))
  }

  /** `inserir_avl`: adds `k` with span `c` unless `k` is already there (the old
      span is kept), then rebalances on the way back up. */
  function Insert(t: Tree, k: string, c: Coord): (r: Tree)
    requires Valid(t)
    ensures InsertPost(t, k, c, r)
    decreases t
  {
    match t
    case Leaf => NewNode(k, c)
    case Node(l, key, kc, rt, h) =>
      var cmp := Strcmp(k, key);
      if cmp < 0 then
        var l' := Insert(l, k, c);
        var n := UpdateHeight(t.(left := l'));
        InsertLeftStep(t, k, c, l');
        RebalanceInsert(n, k)
      else if cmp > 0 then
        StrcmpAntisymmetric(k, key);
        var rt' := Insert(rt, k, c);
        var n := UpdateHeight(t.(right := rt'));
        InsertRightStep(t, k, c, rt');
        RebalanceInsert(n, k)
      else
        t
  }

  /** `a[k := v] + b` is `(a + b)[k := v]` when `b` does not override `k`. */
  lemma UpdateThrough<K, V>(a: map<K, V>, b: map<K, V>, k: K, v: V)
    requires k !in b
    ensures a[k := v] + b == (a + b)[k := v]
  {
  }

  /** `a + b[k := v]` is `(a + b)[k := v]`. */
  lemma UpdateLast<K, V>(a: map<K, V>, b: map<K, V>, k: K, v: V)
    ensures a + b[k := v] == (a + b)[k := v]
  {
  }

  /** Replacing the left subtree of an ordered node by an ordered tree whose
      keys are all below the node's key keeps the node ordered. */
  lemma ReplaceLeftOrdered(t: Tree, l': Tree)
    requires t.Node? && Ordered(t) && Ordered(l')
    requires forall x :: x in Keys(l') ==> Less(x, t.key)
    ensures Ordered(t.(left := l'))
  {
  }

  /** Replacing the right subtree of an ordered node by an ordered tree whose
      keys are all above the node's key keeps the node ordered. */
  lemma ReplaceRightOrdered(t: Tree, rt': Tree)
    requires t.Node? && Ordered(t) && Ordered(rt')
    requires forall x :: x in Keys(rt') ==> Less(t.key, x)
    ensures Ordered(t.(right := rt'))
  {
  }

  /** The node rebuilt on the way back from an insertion into the left subtree
      meets the requirements of `RebalanceInsert`. */
  lemma InsertLeftNode(t: Tree, k: string, c: Coord, l': Tree)
    requires Valid(t) && t.Node? && Less(k, t.key)
    requires InsertPost(t.left, k, c, l')
    ensures var n := UpdateHeight(t.(left := l'));
      && n.Node? && HeightsOk(n) && Ordered(n) && Balanced(n.left) && Balanced(n.right)
      && -2 <= BalanceFactor(n) <= 2
      && (BalanceFactor(n) > 1 ==> Grown(n.left, k))
      && (BalanceFactor(n) < -1 ==> Grown(n.right, k))
  {
    assert Keys(l') == Keys(t.left) + {k};
    ReplaceLeftOrdered(t, l');
    ChildHeights(t);
  }

  /** The node rebuilt on the way back from an insertion into the right subtree
      meets the requirements of `RebalanceInsert`. */
  lemma InsertRightNode(t: Tree, k: string, c: Coord, rt': Tree)
    requires Valid(t) && t.Node? && Less(t.key, k)
    requires InsertPost(t.right, k, c, rt')
    ensures var n := UpdateHeight(t.(right := rt'));
      && n.Node? && HeightsOk(n) && Ordered(n) && Balanced(n.left) && Balanced(n.right)
      && -2 <= BalanceFactor(n) <= 2
      && (BalanceFactor(n) > 1 ==> Grown(n.left, k))
      && (BalanceFactor(n) < -1 ==> Grown(n.right, k))
  {
    assert Keys(rt') == Keys(t.right) + {k};
    ReplaceRightOrdered(t, rt');
    ChildHeights(t);
  }

  /** The word-to-span map after inserting below the left child. */
  lemma InsertLeftContent(t: Tree, k: string, c: Coord, l': Tree)
    requires Valid(t) && t.Node? && Less(k, t.key)
    requires Content(l') == (if k in Content(t.left) then Content(t.left) else Content(t.left)[k := c])
    ensures var n := t.(left := l');
      Content(n) == (if k in Content(t) then Content(t) else Content(t)[k := c])
  {
    var l, key, kc, rt := t.left, t.key, t.coord, t.right;
    LessTrichotomy(k, key);
    assert k !in Content(rt) && k != key;
    if k !in Content(t) {
      UpdateThrough(Content(l), map[key := kc], k, c);
      UpdateThrough(Content(l) + map[key := kc], Content(rt), k, c);
    }
  }

  /** The word-to-span map after inserting below the right child. */
  lemma InsertRightContent(t: Tree, k: string, c: Coord, rt': Tree)
    requires Valid(t) && t.Node? && Less(t.key, k)
    requires Content(rt') == (if k in Content(t.right) then Content(t.right) else Content(t.right)[k := c])
    ensures var n := t.(right := rt');
      Content(n) == (if k in Content(t) then Content(t) else Content(t)[k := c])
  {
    var l, key, kc, rt := t.left, t.key, t.coord, t.right;
    LessTrichotomy(k, key);
    assert k !in Content(l) && k != key;
    if k !in Content(t) {
      UpdateLast(Content(l) + map[key := kc], Content(rt), k, c);
    }
  }

  /** Height bookkeeping of an insertion step: the subtree grows by at most
      one, and only when no rotation happened. */
  lemma InsertStepHeight(t: Tree, n: Tree, r: Tree, k: string, toLeft: bool)
    requires t.Node? && HeightsOk(t) && Balanced(t) && n.Node? && HeightsOk(n)
    requires toLeft ==> (
      && Less(k, t.key) && n.key == t.key && n.right == t.right
      && Height(t.left) <= Height(n.left) <= Height(t.left) + 1
      && (Height(n.left) == Height(t.left) + 1 ==> Grown(n.left, k)))
    requires !toLeft ==> (
      && Less(t.key, k) && n.key == t.key && n.left == t.left
      && Height(t.right) <= Height(n.right) <= Height(t.right) + 1
      && (Height(n.right) == Height(t.right) + 1 ==> Grown(n.right, k)))
    requires -1 <= BalanceFactor(n) <= 1 ==> r == n
    requires BalanceFactor(n) == 2 ==> Height(r) == Height(n.left)
    requires BalanceFactor(n) == -2 ==> Height(r) == Height(n.right)
    ensures -2 <= BalanceFactor(n) <= 2
    ensures Height(t) <= Height(r) <= Height(t) + 1
    ensures Height(r) == Height(t) + 1 ==> Grown(r, k)
  {
    ChildHeights(t);
    LessTrichotomy(k, t.key);
  }

  /** The whole step from an insertion into the left subtree. */
  lemma InsertLeftStep(t: Tree, k: string, c: Coord, l': Tree)
    requires Valid(t) && t.Node? && Less(k, t.key)
    requires InsertPost(t.left, k, c, l')
    ensures var n := UpdateHeight(t.(left := l'));
      && n.Node? && HeightsOk(n)
      && (BalanceFactor(n) > 1 ==> Grown(n.left, k))
      && (BalanceFactor(n) < -1 ==> Grown(n.right, k))
      && InsertPost(t, k, c, RebalanceInsert(n, k))
  {
    var n := UpdateHeight(t.(left := l'));
    InsertLeftNode(t, k, c, l');
    InsertLeftContent(t, k, c, l');
    RebalanceInsertSound(n, k);
    var r := RebalanceInsert(n, k);
    InsertStepHeight(t, n, r, k, true);
    if k in Content(t) {
      LessTrichotomy(k, t.key);
      assert k in Content(t.left);
      assert n == t;
    }
  }

  /** The whole step from an insertion into the right subtree. */
  lemma InsertRightStep(t: Tree, k: string, c: Coord, rt': Tree)
    requires Valid(t) && t.Node? && Less(t.key, k)
    requires InsertPost(t.right, k, c, rt')
    ensures var n := UpdateHeight(t.(right := rt'));
      && n.Node? && HeightsOk(n)
      && (BalanceFactor(n) > 1 ==> Grown(n.left, k))
      && (BalanceFactor(n) < -1 ==> Grown(n.right, k))
      && InsertPost(t, k, c, RebalanceInsert(n, k))
  {
    var n := UpdateHeight(t.(right := rt'));
    InsertRightNode(t, k, c, rt');
    InsertRightContent(t, k, c, rt');
    RebalanceInsertSound(n, k);
    var r := RebalanceInsert(n, k);
    InsertStepHeight(t, n, r, k, false);
    if k in Content(t) {
      LessTrichotomy(k, t.key);
      assert k in Content(t.right);
      assert n == t;
    }
  }

  /** `obter_menor`: the leftmost node (absent for an absent tree). */
  function Min(t: Tree): (m: Tree)
    ensures t.Leaf? ==> m.Leaf?
    ensures t.Node? ==> m.Node? && m.left.Leaf? && m.key in Keys(t)
  {
    if t.Node? && t.left.Node? then Min(t.left) else t
  }

  /** In an ordered tree the leftmost node holds the smallest key, together
      with the span the tree maps it to. */
  lemma {:induction false} MinIsSmallest(t: Tree)
    requires t.Node? && Ordered(t)
    ensures var m := Min(t);
      && Content(t)[m.key] == m.coord
      && forall x :: x in Keys(t) && x != m.key ==> Less(m.key, x)
  {
    var m := Min(t);
    if t.left.Node? {
      MinIsSmallest(t.left);
      OrderedDisjoint(t);
      forall x | x in Keys(t) && x != m.key ensures Less(m.key, x) {
        if x in Keys(t.right) {
          LessTransitive(m.key, t.key, x);
        }
      }
    } else {
      OrderedDisjoint(t);
      forall x | x in Keys(t) && x != m.key ensures Less(m.key, x) {
      }
    }
  }

  /** What `remover_avl` promises of its result `r`. */
  ghost predicate RemovePost(t: Tree, k: string, r: Tree) {
    && Valid(r)
    && Content(r) == Content(t) - {k}
    && (k !in Content(t) ==> r == t)
    && Height(t) - 1 <= Height(r) <= Height(t)
  }

  /** `remover_avl`: deletes `k` if present. A node with two children takes
      over the key and span of its in-order successor, which is then removed
      from the right subtree. Rebalancing follows on the way back up. */
  function Remove(t: Tree, k: string): (r: Tree)
    requires Valid(t)
    ensures RemovePost(t, k, r)
    decreases t
  {
    match t
    case Leaf => Leaf
    case Node(l, key, kc, rt, h) =>
      var cmp := Strcmp(k, key);
      if cmp < 0 then
        var l' := Remove(l, k);
        RemoveLeftStep(t, k, l');
        RebalanceRemove(UpdateHeight(t.(left := l')))
      else if cmp > 0 then
        StrcmpAntisymmetric(k, key);
        var rt' := Remove(rt, k);
        RemoveRightStep(t, k, rt');
        RebalanceRemove(UpdateHeight(t.(right := rt')))
      else if l.Leaf? || rt.Leaf? then
        var child := if l.Node? then l else rt;
        RemoveOneChildStep(t, k);
        if child.Leaf? then Leaf else RebalanceRemove(UpdateHeight(child))
      else
        var m := Min(rt);
        var rt' := Remove(rt, m.key);
        RemoveTwoChildStep(t, k, m, rt');
        RebalanceRemove(UpdateHeight(Node(l, m.key, m.coord, rt', h)))
  }

  /** `(a - {k}) + b` is `(a + b) - {k}` when `b` does not hold `k`. */
  lemma RemoveThrough<K, V>(a: map<K, V>, b: map<K, V>, k: K)
    requires k !in b
    ensures (a - {k}) + b == (a + b) - {k}
  {
  }

  /** `a + (b - {k})` is `(a + b) - {k}` when `a` does not hold `k`. */
  lemma RemoveLast<K, V>(a: map<K, V>, b: map<K, V>, k: K)
    requires k !in a
    ensures a + (b - {k}) == (a + b) - {k}
  {
  }

  /** Height bookkeeping of a removal step: the subtree shrinks by at most one. */
  lemma RemoveStepHeight(t: Tree, n: Tree, r: Tree, fromLeft: bool)
    requires t.Node? && HeightsOk(t) && Balanced(t) && n.Node? && HeightsOk(n)
    requires fromLeft ==> (
      && n.right == t.right && Height(t.left) - 1 <= Height(n.left) <= Height(t.left))
    requires !fromLeft ==> (
      && n.left == t.left && Height(t.right) - 1 <= Height(n.right) <= Height(t.right))
    requires -1 <= BalanceFactor(n) <= 1 ==> r == n
    requires BalanceFactor(n) == 2 ==>
      Height(r) == Height(n.left) + (if BalanceFactor(n.left) == 0 then 1 else 0)
    requires BalanceFactor(n) == -2 ==>
      Height(r) == Height(n.right) + (if BalanceFactor(n.right) == 0 then 1 else 0)
    ensures -2 <= BalanceFactor(n) <= 2
    ensures Height(t) - 1 <= Height(r) <= Height(t)
  {
    ChildHeights(t);
    ChildHeights(n);
  }

  /** The node rebuilt after removing below the left child. */
  lemma RemoveLeftNode(t: Tree, k: string, l': Tree)
    requires Valid(t) && t.Node? && Less(k, t.key)
    requires RemovePost(t.left, k, l')
    ensures var n := UpdateHeight(t.(left := l'));
      && n.Node? && HeightsOk(n) && Ordered(n) && Balanced(n.left) && Balanced(n.right)
      && Content(n) == Content(t) - {k}
  {
    var l, key, kc, rt := t.left, t.key, t.coord, t.right;
    assert Keys(l') == Keys(l) - {k};
    LessTrichotomy(k, key);
    assert k !in Content(rt) && k != key;
    RemoveThrough(Content(l), map[key := kc], k);
    RemoveThrough(Content(l) + map[key := kc], Content(rt), k);
  }

  /** The node rebuilt after removing below the right child. */
  lemma RemoveRightNode(t: Tree, k: string, rt': Tree)
    requires Valid(t) && t.Node? && Less(t.key, k)
    requires RemovePost(t.right, k, rt')
    ensures var n := UpdateHeight(t.(right := rt'));
      && n.Node? && HeightsOk(n) && Ordered(n) && Balanced(n.left) && Balanced(n.right)
      && Content(n) == Content(t) - {k}
  {
    var l, key, kc, rt := t.left, t.key, t.coord, t.right;
    assert Keys(rt') == Keys(rt) - {k};
    LessTrichotomy(k, key);
    assert k !in Content(l) && k != key;
    RemoveLast(Content(l) + map[key := kc], Content(rt), k);
  }

  /** The whole step of a removal below the left child. */
  lemma RemoveLeftStep(t: Tree, k: string, l': Tree)
    requires Valid(t) && t.Node? && Less(k, t.key)
    requires RemovePost(t.left, k, l')
    ensures var n := UpdateHeight(t.(left := l'));
      n.Node? && HeightsOk(n) && RemovePost(t, k, RebalanceRemove(n))
  {
    var n := UpdateHeight(t.(left := l'));
    RemoveLeftNode(t, k, l');
    ChildHeights(t);
    RemoveStepHeight(t, n, RebalanceRemove(n), true) by {
      RebalanceRemoveSound(n);
    }
    RebalanceRemoveSound(n);
    if k !in Content(t) {
      assert k !in Content(t.left);
      assert n == t;
    }
  }

  /** The whole step of a removal below the right child. */
  lemma RemoveRightStep(t: Tree, k: string, rt': Tree)
    requires Valid(t) && t.Node? && Less(t.key, k)
    requires RemovePost(t.right, k, rt')
    ensures var n := UpdateHeight(t.(right := rt'));
      n.Node? && HeightsOk(n) && RemovePost(t, k, RebalanceRemove(n))
  {
    var n := UpdateHeight(t.(right := rt'));
    RemoveRightNode(t, k, rt');
    ChildHeights(t);
    RemoveStepHeight(t, n, RebalanceRemove(n), false) by {
      RebalanceRemoveSound(n);
    }
    RebalanceRemoveSound(n);
    if k !in Content(t) {
      assert k !in Content(t.right);
      assert n == t;
    }
  }

  /** Removing the root key of a node whose other side is empty leaves the
      map of that child. */
  lemma RootOut<K, V>(a: map<K, V>, k: K, v: V, b: map<K, V>)
    requires k !in a && k !in b && (a == map[] || b == map[])
    ensures (a + map[k := v] + b) - {k} == a + b
  {
  }

  /** Removing a node with at most one child leaves that child, which needs no
      rebalancing. */
  lemma RemoveOneChildStep(t: Tree, k: string)
    requires Valid(t) && t.Node? && k == t.key && (t.left.Leaf? || t.right.Leaf?)
    ensures var child := if t.left.Node? then t.left else t.right;
      && (child.Node? ==> HeightsOk(UpdateHeight(child)))
      && RemovePost(t, k, if child.Leaf? then Leaf else RebalanceRemove(UpdateHeight(child)))
  {
    var child := if t.left.Node? then t.left else t.right;
    OneChildRemains(t);
    if child.Node? {
      assert UpdateHeight(child) == child;
      RebalanceRemoveSound(child);
    }
  }

  /** The remaining child of a node with at most one child is an AVL tree one
      level lower, holding every entry but the root's. */
  lemma OneChildRemains(t: Tree)
    requires Valid(t) && t.Node? && (t.left.Leaf? || t.right.Leaf?)
    ensures var child := if t.left.Node? then t.left else t.right;
      && Valid(child) && Content(child) == Content(t) - {t.key}
      && Height(child) == Height(t) - 1
  {
    OrderedDisjoint(t);
    RootOut(Content(t.left), t.key, t.coord, Content(t.right));
    ChildHeights(t);
    if t.left.Node? {
      assert Valid(t.left);
    } else {
      assert Valid(t.right);
    }
  }

  /** Map bookkeeping of the successor copy: the successor's entry moves from
      the right map to the root, and the old root entry disappears. */
  lemma RemoveTwoChildContent<K, V>(a: map<K, V>, k: K, v: V, b: map<K, V>, mk: K, mv: V)
    requires k !in a && k !in b && mk in b && b[mk] == mv && mk !in a
    ensures a + map[mk := mv] + (b - {mk}) == (a + map[k := v] + b) - {k}
  {
    assert a + map[mk := mv] + (b - {mk}) == a + b;
  }

  /** The node rebuilt around the in-order successor is ordered and maps
      everything but the removed key. */
  lemma RemoveTwoChildNode(t: Tree, m: Tree, rt': Tree)
    requires Valid(t) && t.Node? && t.left.Node? && t.right.Node?
    requires m == Min(t.right)
    requires RemovePost(t.right, m.key, rt')
    ensures var n := UpdateHeight(Node(t.left, m.key, m.coord, rt', t.height));
      && n.Node? && HeightsOk(n) && Ordered(n) && Balanced(n.left) && Balanced(n.right)
      && Content(n) == Content(t) - {t.key}
  {
    var l, key, kc, rt := t.left, t.key, t.coord, t.right;
    var n := UpdateHeight(Node(l, m.key, m.coord, rt', t.height));
    MinIsSmallest(rt);
    OrderedAcross(l, key, rt);
    assert Keys(rt') == Keys(rt) - {m.key};
    assert Ordered(n);
    OrderedDisjoint(t);
    RemoveTwoChildContent(Content(l), key, kc, Content(rt), m.key, m.coord);
  }

  /** The whole step of removing a key held by a node with two children. */
  lemma RemoveTwoChildStep(t: Tree, k: string, m: Tree, rt': Tree)
    requires Valid(t) && t.Node? && k == t.key && t.left.Node? && t.right.Node?
    requires m == Min(t.right)
    requires RemovePost(t.right, m.key, rt')
    ensures var n := UpdateHeight(Node(t.left, m.key, m.coord, rt', t.height));
      n.Node? && HeightsOk(n) && RemovePost(t, k, RebalanceRemove(n))
  {
    var n := UpdateHeight(Node(t.left, m.key, m.coord, rt', t.height));
    RemoveTwoChildNode(t, m, rt');
    ChildHeights(t);
    RebalanceRemoveSound(n);
    RemoveStepHeight(t, n, RebalanceRemove(n), false);
  }

  /** `buscar_avl`: binary search by `strcmp`. */
  function Contains(t: Tree, k: string): (b: bool)
    ensures Ordered(t) ==> (b <==> k in Keys(t))
  {
    match t
    case Leaf => false
    case Node(l, key, _, r, _) =>
      var cmp := Strcmp(k, key);
      if cmp == 0 then true
      else if cmp < 0 then
        LessTrichotomy(k, key);
        Contains(l, k)
      else
        LessTrichotomy(k, key);
        Contains(r, k)
  }
}
