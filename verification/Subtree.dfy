/**
 Subtree extraction and structural subtree matching. Both compare payloads
 with `==`, not with the ordering, so they need only equality on payloads.
 */
module Subtree {
  import opened Trees

  /**
   The copy `extractSubtree` makes of the node it found: the node and its two
   children are allocated explicitly, the grandchildren through `copySubtree`.
   */
  function CopyFound<T>(n: Tree<T>): (c: Tree<T>)
    requires n.Node?
    ensures c == n
  {
    Node(n.key, CopyChild(n.left), CopyChild(n.right))
  }

  function CopyChild<T>(n: Tree<T>): (c: Tree<T>)
    ensures c == n
  {
    match n
    case Leaf => Leaf
    case Node(k, l, r) => Node(k, if l.Node? then Copy(l) else Leaf, if r.Node? then Copy(r) else Leaf)
  }

  /**
   `extractSubtree`: search root, then left, then right for a node whose
   payload equals `v`, and return a copy of the subtree rooted there.
   */
  function Extract<T(==)>(t: Tree<T>, v: T): (e: Tree<T>)
    ensures e.Leaf? <==> v !in Keys(t)
    ensures e.Node? ==> e.key == v
  {
    match t
    case Leaf => Leaf
    case Node(k, l, r) =>
      if k == v then CopyFound(t)
      else
        var fromLeft := Extract(l, v);
        if fromLeft.Node? then fromLeft else Extract(r, v)
  }

  /** The extracted subtree is the first subtree headed by `v` in root-left-right order. */
  lemma {:induction false} ExtractFindsFirst<T>(t: Tree<T>, v: T)
    requires v in Keys(t)
    ensures exists i :: FirstHeadedBy(Subtrees(t), v, i) && Subtrees(t)[i] == Extract(t, v)
  {
    match t
    case Node(k, l, r) =>
      if k == v {
        assert FirstHeadedBy(Subtrees(t), v, 0);
      } else if v in Keys(l) {
        ExtractFindsFirst(l, v);
        var i :| FirstHeadedBy(Subtrees(l), v, i) && Subtrees(l)[i] == Extract(l, v);
        FirstInLeft(t, v, i);
      } else {
        ExtractFindsFirst(r, v);
        var i :| FirstHeadedBy(Subtrees(r), v, i) && Subtrees(r)[i] == Extract(r, v);
        FirstInRight(t, v, i);
      }
  }

  /** Position `i` of `s` is headed by `v`, and no earlier position is. */
  ghost predicate FirstHeadedBy<T>(s: seq<Tree<T>>, v: T, i: int) {
    0 <= i < |s| && s[i].Node? && s[i].key == v && forall j :: 0 <= j < i ==> !(s[j].Node? && s[j].key == v)
  }

  lemma FirstInLeft<T>(t: Tree<T>, v: T, i: int)
    requires t.Node? && t.key != v && FirstHeadedBy(Subtrees(t.left), v, i)
    ensures FirstHeadedBy(Subtrees(t), v, 1 + i) && Subtrees(t)[1 + i] == Subtrees(t.left)[i]
  {
    var s := Subtrees(t);
    assert s == [t] + Subtrees(t.left) + Subtrees(t.right);
    forall j | 0 < j < 1 + i ensures !(s[j].Node? && s[j].key == v) {
      assert s[j] == Subtrees(t.left)[j - 1];
    }
  }

  lemma FirstInRight<T>(t: Tree<T>, v: T, i: int)
    requires t.Node? && t.key != v && v !in Keys(t.left) && FirstHeadedBy(Subtrees(t.right), v, i)
    ensures var n := 1 + |Subtrees(t.left)|;
      FirstHeadedBy(Subtrees(t), v, n + i) && Subtrees(t)[n + i] == Subtrees(t.right)[i]
  {
    var s := Subtrees(t);
    var n := 1 + |Subtrees(t.left)|;
    assert s == [t] + Subtrees(t.left) + Subtrees(t.right);
    forall j | 0 < j < n + i ensures !(s[j].Node? && s[j].key == v) {
      if j < n {
        assert s[j] == Subtrees(t.left)[j - 1];
        SubtreeKeys(t.left, j - 1);
      } else {
        assert s[j] == Subtrees(t.right)[j - n];
      }
    }
  }

  /** `areIdentical`: same shape and equal payloads at every position. */
  function AreIdentical<T(==)>(a: Tree<T>, b: Tree<T>): (same: bool)
    ensures same <==> a == b
  {
    match (a, b)
    case (Leaf, Leaf) => true
    case (Node(ka, la, ra), Node(kb, lb, rb)) => ka == kb && AreIdentical(la, lb) && AreIdentical(ra, rb)
    case _ => false
  }

  /** `isSubtree`: some node of `host` roots a copy of `sub`; an empty `sub` always matches. */
  function IsSubtree<T(==)>(host: Tree<T>, sub: Tree<T>): (found: bool)
    ensures found <==> sub.Leaf? || sub in Subtrees(host)
  {
    if sub.Leaf? then true
    else if host.Leaf? then false
    else if AreIdentical(host, sub) then true
    else IsSubtree(host.left, sub) || IsSubtree(host.right, sub)
  }

  /** `containsSubtree`: the public entry point with its own empty-tree guards. */
  function ContainsSubtree<T(==)>(host: Tree<T>, candidate: Tree<T>): (found: bool)
    ensures found <==> candidate.Leaf? || candidate in Subtrees(host)
    ensures candidate.Leaf? ==> found
    ensures host.Leaf? && candidate.Node? ==> !found
  {
    if candidate.Leaf? then true
    else if host.Leaf? then false
    else IsSubtree(host, candidate)
  }

  /** A tree contains whatever it extracts, whether or not `v` occurs. */
  lemma ContainsWhatItExtracts<T>(t: Tree<T>, v: T)
    ensures ContainsSubtree(t, Extract(t, v))
  {
    if v in Keys(t) {
      ExtractFindsFirst(t, v);
    }
  }
}
