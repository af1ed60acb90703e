/**
 The ordered operations of the primary template: insertion, lookup, minimum
 and deletion. They see the element type only through `less`, the element's
 `operator<`, exactly as the template sees it only through `compareItems`.
 The ordering invariant and the content laws are proved for `int` payloads,
 the instantiation the serialiser supports; record payloads are treated in
 module Records.
 */
module Search {
  import opened Trees
  import opened Traversal

  /** `compareItems`: a three-way comparison built from `<` alone. */
  function CompareItems<T>(less: (T, T) -> bool, a: T, b: T): (c: int)
    ensures -1 <= c <= 1
    ensures c < 0 <==> less(a, b)
    ensures c > 0 <==> !less(a, b) && less(b, a)
    ensures c == 0 <==> !less(a, b) && !less(b, a)
  {
    if less(a, b) then -1 else if less(b, a) then 1 else 0
  }

  /** `operator<` on `int`. */
  function IntLess(a: int, b: int): bool {
    a < b
  }

  /** `insertNode`: walk down by comparison and hang a new leaf; a value that compares equal stops the walk. */
  function Insert<T>(less: (T, T) -> bool, t: Tree<T>, x: T): (u: Tree<T>)
    ensures Keys(t) <= Keys(u) <= Keys(t) + {x}
    ensures Count(u) == Count(t) || Count(u) == Count(t) + 1
    ensures !less(x, x) ==> Contains(less, u, x)
  {
    match t
    case Leaf => Node(x, Leaf, Leaf)
    case Node(k, l, r) =>
      if CompareItems(less, x, k) < 0 then Node(k, Insert(less, l, x), r)
      else if CompareItems(less, x, k) > 0 then Node(k, l, Insert(less, r, x))
      else t
  }

  /** `findNode`: the subtree whose root compares equal to `x`, or `Leaf` for a null result. */
  function Find<T>(less: (T, T) -> bool, t: Tree<T>, x: T): (n: Tree<T>)
    ensures n.Node? ==> CompareItems(less, x, n.key) == 0 && n.key in Keys(t) && Keys(n) <= Keys(t)
  {
    match t
    case Leaf => Leaf
    case Node(k, l, r) =>
      var c := CompareItems(less, x, k);
      if c == 0 then t
      else if c < 0 then Find(less, l, x)
      else Find(less, r, x)
  }

  /** `contains`: the lookup walk found a node. */
  predicate Contains<T>(less: (T, T) -> bool, t: Tree<T>, x: T)
    ensures Contains(less, t, x) ==> exists y :: y in Keys(t) && !less(x, y) && !less(y, x)
  {
    Find(less, t, x).Node?
  }

  /** `findMinNode`: follow left links from the root; `Leaf` for an empty tree. */
  function FindMin<T>(t: Tree<T>): (m: Tree<T>)
    ensures m.Node? <==> t.Node?
    ensures m.Node? ==> m.left == Leaf && m.key in Keys(t) && LKP(t)[0] == m.key
  {
    match t
    case Leaf => Leaf
    case Node(_, l, _) => if l == Leaf then t else FindMin(l)
  }

  /**
   `deleteNode`: walk down by comparison; at the matching node splice in the
   right child when there is no left one, the left child when there is no
   right one, and otherwise take over the least payload of the right subtree
   and delete that payload from the right subtree.
   */
  function Remove<T>(less: (T, T) -> bool, t: Tree<T>, x: T): (u: Tree<T>)
    ensures Keys(u) <= Keys(t)
    ensures Count(u) == Count(t) || Count(u) + 1 == Count(t)
  {
    match t
    case Leaf => Leaf
    case Node(k, l, r) =>
      var c := CompareItems(less, x, k);
      if c < 0 then Node(k, Remove(less, l, x), r)
      else if c > 0 then Node(k, l, Remove(less, r, x))
      else if l == Leaf then r
      else if r == Leaf then l
      else
        var m := FindMin(r).key;
        Node(m, l, Remove(less, r, m))
  }

  /** The ordering invariant: left payloads strictly smaller, right payloads strictly greater, at every node. */
  predicate IsBst(t: Tree<int>) {
    match t
    case Leaf => true
    case Node(k, l, r) =>
      && IsBst(l) && IsBst(r)
      && (forall y :: y in Keys(l) ==> y < k)
      && (forall y :: y in Keys(r) ==> k < y)
  }

  predicate StrictlyIncreasing(s: seq<int>) {
    forall i, j :: 0 <= i < j < |s| ==> s[i] < s[j]
  }

  // ---------------------------------------------------------------------
  // Laws that hold for any `less`: they follow from insert, find and
  // remove walking the same comparison path.
  // ---------------------------------------------------------------------

  /** Inserting a value the lookup walk already finds returns the very same tree. */
  lemma {:induction false} InsertFoundIsNoOp<T>(less: (T, T) -> bool, t: Tree<T>, x: T)
    requires Contains(less, t, x)
    ensures Insert(less, t, x) == t
  {
    match t
    case Node(k, l, r) =>
      if CompareItems(less, x, k) < 0 {
        InsertFoundIsNoOp(less, l, x);
      } else if CompareItems(less, x, k) > 0 {
        InsertFoundIsNoOp(less, r, x);
      }
  }

  /** Removing a value the lookup walk does not find returns the very same tree. */
  lemma {:induction false} RemoveMissingIsNoOp<T>(less: (T, T) -> bool, t: Tree<T>, x: T)
    requires !Contains(less, t, x)
    ensures Remove(less, t, x) == t
  {
    match t
    case Leaf =>
    case Node(k, l, r) =>
      if CompareItems(less, x, k) < 0 {
        RemoveMissingIsNoOp(less, l, x);
      } else {
        RemoveMissingIsNoOp(less, r, x);
      }
  }

  /** After inserting a value the walk did not find, removing it gives back the original tree. */
  lemma {:induction false} RemoveUndoesInsert<T>(less: (T, T) -> bool, t: Tree<T>, x: T)
    requires !less(x, x)
    requires !Contains(less, t, x)
    ensures Remove(less, Insert(less, t, x), x) == t
  {
    match t
    case Leaf =>
    case Node(k, l, r) =>
      if CompareItems(less, x, k) < 0 {
        RemoveUndoesInsert(less, l, x);
      } else {
        RemoveUndoesInsert(less, r, x);
      }
  }

  // ---------------------------------------------------------------------
  // The ordering invariant and the content laws, for `int` payloads.
  // ---------------------------------------------------------------------

  /** On an ordered tree the lookup walk succeeds exactly for the stored values. */
  lemma {:induction false} ContainsIffStored(t: Tree<int>, x: int)
    requires IsBst(t)
    ensures Contains(IntLess, t, x) <==> x in Keys(t)
  {
    match t
    case Leaf =>
    case Node(k, l, r) =>
      if x < k {
        ContainsIffStored(l, x);
      } else if x > k {
        ContainsIffStored(r, x);
      }
  }

  /** Insertion keeps the ordering invariant, adds exactly `x`, and adds a node only when `x` was absent. */
  lemma {:induction false} InsertLaws(t: Tree<int>, x: int)
    requires IsBst(t)
    ensures IsBst(Insert(IntLess, t, x))
    ensures Keys(Insert(IntLess, t, x)) == Keys(t) + {x}
    ensures Count(Insert(IntLess, t, x)) == if x in Keys(t) then Count(t) else Count(t) + 1
  {
    match t
    case Leaf =>
    case Node(k, l, r) =>
      if x < k {
        InsertLaws(l, x);
        assert Insert(IntLess, t, x) == Node(k, Insert(IntLess, l, x), r);
      } else if x > k {
        InsertLaws(r, x);
        assert Insert(IntLess, t, x) == Node(k, l, Insert(IntLess, r, x));
      }
  }

  /** The leftmost node of an ordered tree holds its least payload. */
  lemma {:induction false} MinIsLeast(t: Tree<int>)
    requires IsBst(t) && t.Node?
    ensures forall y :: y in Keys(t) ==> FindMin(t).key <= y
  {
    match t
    case Node(k, l, r) =>
      if l != Leaf {
        MinIsLeast(l);
      }
  }

  /**
   Deletion keeps the ordering invariant, removes exactly `x`, and removes a
   node exactly when `x` was stored.
   */
  lemma {:induction false} RemoveLaws(t: Tree<int>, x: int)
    requires IsBst(t)
    ensures IsBst(Remove(IntLess, t, x))
    ensures Keys(Remove(IntLess, t, x)) == Keys(t) - {x}
    ensures Count(Remove(IntLess, t, x)) == if x in Keys(t) then Count(t) - 1 else Count(t)
  {
    match t
    case Leaf =>
    case Node(k, l, r) =>
      if x < k {
        RemoveLaws(l, x);
      } else if x > k {
        RemoveLaws(r, x);
      } else if l != Leaf && r != Leaf {
        var m := FindMin(r).key;
        MinIsLeast(r);
        RemoveLaws(r, m);
        assert Remove(IntLess, t, x) == Node(m, l, Remove(IntLess, r, m));
        TakeOverSuccessor(k, l, r, m, Remove(IntLess, r, m));
      }
  }

  /**
   The two-child step in isolation: the node takes over `m`, the least payload
   of its right subtree `r`, and `r'` is `r` without `m`.
   */
  lemma TakeOverSuccessor(k: int, l: Tree<int>, r: Tree<int>, m: int, r': Tree<int>)
    requires IsBst(Node(k, l, r))
    requires m in Keys(r) && forall y :: y in Keys(r) ==> m <= y
    requires IsBst(r') && Keys(r') == Keys(r) - {m} && Count(r') == Count(r) - 1
    ensures IsBst(Node(m, l, r'))
    ensures Keys(Node(m, l, r')) == Keys(Node(k, l, r)) - {k}
    ensures Count(Node(m, l, r')) == Count(Node(k, l, r)) - 1
  {
    assert k < m;
    assert forall y :: y in Keys(l) ==> y < m;
    assert forall y :: y in Keys(r') ==> m < y;
    assert k !in Keys(l) && k !in Keys(r);
    assert Keys(l) + {m} + Keys(r') == Keys(l) + Keys(r);
  }

  /**
   The two-child case: the node takes over the least payload of its right
   subtree, keeps its left subtree, and that payload leaves the right subtree.
   */
  lemma TwoChildRemoval(t: Tree<int>)
    requires IsBst(t) && t.Node? && t.left.Node? && t.right.Node?
    ensures var u := Remove(IntLess, t, t.key);
      && u.Node? && u.left == t.left
      && u.key in Keys(t.right)
      && (forall y :: y in Keys(t.right) ==> u.key <= y)
      && Keys(u.right) == Keys(t.right) - {u.key}
  {
    MinIsLeast(t.right);
    RemoveLaws(t.right, FindMin(t.right).key);
  }

  lemma JoinIncreasing(a: seq<int>, k: int, b: seq<int>)
    requires StrictlyIncreasing(a) && StrictlyIncreasing(b)
    requires forall i :: 0 <= i < |a| ==> a[i] < k
    requires forall j :: 0 <= j < |b| ==> k < b[j]
    ensures StrictlyIncreasing(a + [k] + b)
  {
  }

  /** A tree is ordered exactly when its in-order listing is strictly increasing. */
  lemma {:induction false} OrderedIffInOrderIncreasing(t: Tree<int>)
    ensures IsBst(t) <==> StrictlyIncreasing(LKP(t))
  {
    match t
    case Leaf =>
    case Node(k, l, r) =>
      OrderedIffInOrderIncreasing(l);
      OrderedIffInOrderIncreasing(r);
      if IsBst(t) {
        OrderedNodeListsIncreasing(k, l, r);
      }
      if StrictlyIncreasing(LKP(t)) {
        IncreasingNodeIsOrdered(k, l, r);
      }
  }

  lemma OrderedNodeListsIncreasing(k: int, l: Tree<int>, r: Tree<int>)
    requires IsBst(Node(k, l, r)) && StrictlyIncreasing(LKP(l)) && StrictlyIncreasing(LKP(r))
    ensures StrictlyIncreasing(LKP(Node(k, l, r)))
  {
    InOrderMembers(l);
    InOrderMembers(r);
    forall i | 0 <= i < |LKP(l)| ensures LKP(l)[i] < k {
      assert LKP(l)[i] in LKP(l);
    }
    forall j | 0 <= j < |LKP(r)| ensures k < LKP(r)[j] {
      assert LKP(r)[j] in LKP(r);
    }
    JoinIncreasing(LKP(l), k, LKP(r));
  }

  lemma IncreasingNodeIsOrdered(k: int, l: Tree<int>, r: Tree<int>)
    requires StrictlyIncreasing(LKP(Node(k, l, r)))
    requires StrictlyIncreasing(LKP(l)) ==> IsBst(l)
    requires StrictlyIncreasing(LKP(r)) ==> IsBst(r)
    ensures IsBst(Node(k, l, r))
  {
    InOrderMembers(l);
    InOrderMembers(r);
    var s := LKP(Node(k, l, r));
    var a, b := LKP(l), LKP(r);
    assert s == a + [k] + b;
    forall y | y in Keys(l) ensures y < k {
      var i :| 0 <= i < |a| && a[i] == y;
      assert s[i] == a[i] && s[|a|] == k;
    }
    forall y | y in Keys(r) ensures k < y {
      var j :| 0 <= j < |b| && b[j] == y;
      assert s[|a| + 1 + j] == b[j] && s[|a|] == k;
    }
    assert StrictlyIncreasing(a) by {
      forall i, j | 0 <= i < j < |a| ensures a[i] < a[j] {
        assert s[i] == a[i] && s[j] == a[j];
      }
    }
    assert StrictlyIncreasing(b) by {
      forall i, j | 0 <= i < j < |b| ensures b[i] < b[j] {
        assert s[|a| + 1 + i] == b[i] && s[|a| + 1 + j] == b[j];
      }
    }
  }

  /** Two strictly increasing listings of the same values are the same listing. */
  lemma {:induction false} IncreasingUnique(a: seq<int>, b: seq<int>)
    requires StrictlyIncreasing(a) && StrictlyIncreasing(b)
    requires forall x :: x in a <==> x in b
    ensures a == b
    decreases |a|
  {
    if a != [] && b != [] {
      assert a[0] in a && b[0] in b;
      var i :| 0 <= i < |a| && a[i] == b[0];
      var j :| 0 <= j < |b| && b[j] == a[0];
      assert a[0] <= a[i] && b[0] <= b[j];
      assert a == [a[0]] + a[1..];
      assert b == [b[0]] + b[1..];
      forall x ensures x in a[1..] <==> x in b[1..] {
        if x in a[1..] {
          var i :| 0 <= i < |a[1..]| && a[1..][i] == x;
          assert a[0] < a[i + 1];
          assert x in a;
        }
        if x in b[1..] {
          var i :| 0 <= i < |b[1..]| && b[1..][i] == x;
          assert b[0] < b[i + 1];
          assert x in b;
        }
      }
      IncreasingUnique(a[1..], b[1..]);
    } else if a != [] {
      HeadIsMember(a);
      assert false;
    } else if b != [] {
      HeadIsMember(b);
      assert false;
    }
  }

  lemma HeadIsMember(s: seq<int>)
    requires s != []
    ensures s[0] in s
  {
  }

  /** Ordered trees holding the same values list them identically in order. */
  lemma SameKeysSameInOrder(a: Tree<int>, b: Tree<int>)
    requires IsBst(a) && IsBst(b) && Keys(a) == Keys(b)
    ensures LKP(a) == LKP(b)
  {
    OrderedIffInOrderIncreasing(a);
    OrderedIffInOrderIncreasing(b);
    InOrderMembers(a);
    InOrderMembers(b);
    IncreasingUnique(LKP(a), LKP(b));
  }
}
