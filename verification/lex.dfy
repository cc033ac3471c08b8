/**
 Byte-wise comparison of words, as C's `strcmp` performs it.

 The AVL tree of found words is keyed by `strcmp`, so its search-tree order
 is the lexicographic order on strings in which a proper prefix sorts first.
 Only the sign of `strcmp` is ever inspected, so the model returns -1, 0 or 1.
 */
module Lex {

  /** The sign of `strcmp(a, b)`: the first differing character decides,
      and running out of characters first makes a word smaller. */
  function Strcmp(a: string, b: string): (r: int)
    ensures -1 <= r <= 1
    ensures r == 0 <==> a == b
    decreases |a|
  {
    if |a| == 0 && |b| == 0 then 0
    else if |a| == 0 then -1
    else if |b| == 0 then 1
    else if a[0] < b[0] then -1
    else if a[0] > b[0] then 1
    else
      var r := Strcmp(a[1..], b[1..]);
      assert r == 0 ==> a == [a[0]] + a[1..] == [b[0]] + b[1..] == b;
      assert a == b ==> a[1..] == b[1..];
      r
  }

  /** `a` sorts strictly before `b`. */
  predicate Less(a: string, b: string) {
    Strcmp(a, b) < 0
  }

  /** Swapping the operands of `strcmp` flips its sign. */
  lemma {:induction false} StrcmpAntisymmetric(a: string, b: string)
    ensures Strcmp(b, a) == -Strcmp(a, b)
    decreases |a|
  {
    if |a| > 0 && |b| > 0 && a[0] == b[0] {
      StrcmpAntisymmetric(a[1..], b[1..]);
    }
  }

  /** Exactly one of `a < b`, `a == b`, `b < a` holds. */
  lemma LessTrichotomy(a: string, b: string)
    ensures Less(a, b) || a == b || Less(b, a)
    ensures !(Less(a, b) && Less(b, a))
    ensures !Less(a, a)
  {
    StrcmpAntisymmetric(a, b);
  }

  /** The order is transitive, so it is a strict total order on words. */
  lemma {:induction false} LessTransitive(a: string, b: string, c: string)
    requires Less(a, b) && Less(b, c)
    ensures Less(a, c)
    decreases |a|
  {
    if |a| > 0 && |b| > 0 && |c| > 0 && a[0] == b[0] && b[0] == c[0] {
      LessTransitive(a[1..], b[1..], c[1..]);
    }
  }
}
