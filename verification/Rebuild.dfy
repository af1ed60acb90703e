/**
 The operations that rebuild a tree from a listing of payloads: `balance`
 (sorted-array reconstruction) and `merge` (insertion of another tree's
 payloads, one at a time, into a copy of this tree).
 */
module Rebuild {
  import opened Trees
  import opened Traversal
  import opened Search

  /** At every node the right subtree has as many nodes as the left one, or one more. */
  predicate SizeBalanced<T>(t: Tree<T>) {
    match t
    case Leaf => true
    case Node(_, l, r) =>
      (Count(r) == Count(l) || Count(r) == Count(l) + 1) && SizeBalanced(l) && SizeBalanced(r)
  }

  /**
   `balanceTree(sortedArray, start, end)` on the inclusive index range
   [start, end]. The offset `end - start` is never negative here, so C++'s
   truncating division and Dafny's Euclidean division agree.
   */
  function BalanceRange<T>(a: seq<T>, start: int, end: int): (t: Tree<T>)
    requires 0 <= start <= end + 1 <= |a|
    ensures LKP(t) == a[start..end + 1]
    ensures Count(t) == end + 1 - start
    ensures SizeBalanced(t)
    decreases end + 1 - start
  {
    if start > end then Leaf
    else
      var mid := start + (end - start) / 2;
      var l := BalanceRange(a, start, mid - 1);
      var r := BalanceRange(a, mid + 1, end);
      SliceAround(a, start, mid, end);
      Node(a[mid], l, r)
  }

  lemma SliceAround<T>(a: seq<T>, start: int, mid: int, end: int)
    requires 0 <= start <= mid <= end < |a|
    ensures a[start..end + 1] == a[start..mid] + [a[mid]] + a[mid + 1..end + 1]
  {
  }

  /**
   `balance()`: list the payloads in order and rebuild over the whole array.
   For an empty tree `size() - 1` wraps as `size_t` and converts back to the
   `int` -1, so the rebuild sees the empty range [0, -1].
   */
  function Balance<T>(t: Tree<T>): (b: Tree<T>)
    ensures LKP(b) == LKP(t)
    ensures SizeBalanced(b)
  {
    NamedOrders(t);
    var a := InOrder(t);
    BalanceRange(a, 0, |a| - 1)
  }

  /** Balancing an ordered tree yields an ordered tree holding the same payloads. */
  lemma BalanceKeepsOrdering(t: Tree<int>)
    requires IsBst(t)
    ensures IsBst(Balance(t))
    ensures Keys(Balance(t)) == Keys(t)
  {
    OrderedIffInOrderIncreasing(t);
    OrderedIffInOrderIncreasing(Balance(t));
    InOrderMembers(t);
    InOrderMembers(Balance(t));
  }

  function Pow2(n: nat): (p: nat)
    ensures p >= 1
  {
    if n == 0 then 1 else 2 * Pow2(n - 1)
  }

  lemma {:induction false} Pow2Monotone(m: nat, n: nat)
    requires m <= n
    ensures Pow2(m) <= Pow2(n)
    decreases n
  {
    if m < n {
      Pow2Monotone(m, n - 1);
    }
  }

  /** No tree of height h holds 2^h nodes or more. */
  lemma {:induction false} CountBelowPow2<T>(t: Tree<T>)
    ensures Count(t) < Pow2(Height(t))
  {
    match t
    case Leaf =>
    case Node(_, l, r) =>
      CountBelowPow2(l);
      CountBelowPow2(r);
      Pow2Monotone(Height(l), Height(t) - 1);
      Pow2Monotone(Height(r), Height(t) - 1);
  }

  /** A size-balanced tree of height h holds at least 2^(h-1) nodes. */
  lemma {:induction false} BalancedCountAbovePow2<T>(t: Tree<T>)
    requires SizeBalanced(t) && t.Node?
    ensures Pow2(Height(t) - 1) <= Count(t)
  {
    match t
    case Node(_, l, r) =>
      if l.Leaf? {
        assert Count(r) <= 1;
        if r.Node? {
          assert r.left.Leaf? && r.right.Leaf?;
        }
      } else {
        assert r.Node?;
        BalancedCountAbovePow2(l);
        BalancedCountAbovePow2(r);
      }
  }

  /** A size-balanced tree is as shallow as any tree with the same number of nodes. */
  lemma BalancedIsShallowest<T>(b: Tree<T>, u: Tree<T>)
    requires SizeBalanced(b) && Count(u) == Count(b)
    ensures Height(b) <= Height(u)
  {
    if b.Node? {
      BalancedCountAbovePow2(b);
      CountBelowPow2(u);
      if Height(u) < Height(b) {
        Pow2Monotone(Height(u), Height(b) - 1);
      }
    }
  }

  /** The rebuilt tree is as shallow as any tree with the same number of nodes. */
  lemma BalanceHeightIsMinimal<T>(t: Tree<T>, u: Tree<T>)
    requires Count(u) == Count(t)
    ensures Height(Balance(t)) <= Height(u)
  {
    var b := Balance(t);
    InOrderMembers(b);
    InOrderMembers(t);
    BalancedIsShallowest(b, u);
  }

  /** One `insert` per element of `s`, in order. */
  function InsertAll<T>(less: (T, T) -> bool, t: Tree<T>, s: seq<T>): (u: Tree<T>)
    ensures Keys(t) <= Keys(u)
    ensures forall y :: y in Keys(u) ==> y in Keys(t) || y in s
    ensures Count(t) <= Count(u) <= Count(t) + |s|
    decreases |s|
  {
    if s == [] then t else InsertAll(less, Insert(less, t, s[0]), s[1..])
  }

  /** `merge`: a copy of this tree, then every payload of `other`, taken in order, inserted into it. */
  function Merge<T>(less: (T, T) -> bool, t: Tree<T>, other: Tree<T>): (u: Tree<T>)
    ensures Keys(t) <= Keys(u)
    ensures forall y :: y in Keys(u) ==> y in Keys(t) || y in Keys(other)
    ensures Count(t) <= Count(u) <= Count(t) + Count(other)
  {
    NamedOrders(other);
    InOrderMembers(other);
    InsertAll(less, Copy(t), InOrder(other))
  }

  lemma {:induction false} InsertAllLaws(t: Tree<int>, s: seq<int>)
    requires IsBst(t)
    ensures IsBst(InsertAll(IntLess, t, s))
    ensures Keys(InsertAll(IntLess, t, s)) == Keys(t) + set x | x in s
    decreases |s|
  {
    if s != [] {
      InsertLaws(t, s[0]);
      InsertAllLaws(Insert(IntLess, t, s[0]), s[1..]);
      assert (set x | x in s) == {s[0]} + set x | x in s[1..];
    }
  }

  /** Merging ordered trees keeps the ordering and yields the union of their payloads. */
  lemma MergeIsUnion(t: Tree<int>, other: Tree<int>)
    requires IsBst(t)
    ensures IsBst(Merge(IntLess, t, other))
    ensures Keys(Merge(IntLess, t, other)) == Keys(t) + Keys(other)
  {
    NamedOrders(other);
    InOrderMembers(other);
    InsertAllLaws(t, InOrder(other));
  }
}
