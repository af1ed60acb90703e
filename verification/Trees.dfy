/**
 The node algebra shared by every operation of the tree engine.

 A C++ `BinaryTree<T>` owns a root pointer to heap nodes that each own their
 two children; no node is shared and no cycle can arise. That is exactly an
 immutable algebraic datatype: `Leaf` is the null pointer, `Node` a heap node.
 Deep copies and fresh allocations become plain values.
 */
module Trees {

  datatype Tree<T> = Leaf | Node(key: T, left: Tree<T>, right: Tree<T>)

  /** Number of nodes. */
  function Count<T>(t: Tree<T>): nat {
    match t
    case Leaf => 0
    case Node(_, l, r) => Count(l) + 1 + Count(r)
  }

  /** Number of nodes on a longest root-to-leaf path (0 for the empty tree). */
  function Height<T>(t: Tree<T>): nat {
    match t
    case Leaf => 0
    case Node(_, l, r) => 1 + (if Height(l) < Height(r) then Height(r) else Height(l))
  }

  /** The set of payloads stored anywhere in the tree. */
  function Keys<T>(t: Tree<T>): set<T> {
    match t
    case Leaf => {}
    case Node(k, l, r) => Keys(l) + {k} + Keys(r)
  }

  /** The payloads stored in the tree, with multiplicity. */
  function Bag<T>(t: Tree<T>): multiset<T> {
    match t
    case Leaf => multiset{}
    case Node(k, l, r) => Bag(l) + multiset{k} + Bag(r)
  }

  /** Every non-empty subtree, listed root, then left, then right. */
  function Subtrees<T>(t: Tree<T>): (s: seq<Tree<T>>)
    ensures |s| == Count(t)
    ensures forall i :: 0 <= i < |s| ==> s[i].Node?
  {
    match t
    case Leaf => []
    case Node(_, l, r) => [t] + Subtrees(l) + Subtrees(r)
  }

  /** Two trees have the same Leaf/Node skeleton, whatever their payloads. */
  predicate SameShape<A, B>(a: Tree<A>, b: Tree<B>) {
    match (a, b)
    case (Leaf, Leaf) => true
    case (Node(_, al, ar), Node(_, bl, br)) => SameShape(al, bl) && SameShape(ar, br)
    case _ => false
  }

  /** Deep copy (`copyTree` and `copySubtree`): allocates a fresh node per node. */
  function Copy<T>(t: Tree<T>): (c: Tree<T>)
    ensures c == t
  {
    match t
    case Leaf => Leaf
    case Node(k, l, r) => Node(k, Copy(l), Copy(r))
  }

  lemma {:induction false} SubtreeKeys<T>(t: Tree<T>, i: nat)
    requires i < |Subtrees(t)|
    ensures Subtrees(t)[i].key in Keys(t)
    ensures Keys(Subtrees(t)[i]) <= Keys(t)
  {
    match t
    case Node(_, l, r) =>
      if i == 0 {
      } else if i - 1 < |Subtrees(l)| {
        assert Subtrees(t)[i] == Subtrees(l)[i - 1];
        SubtreeKeys(l, i - 1);
      } else {
        assert Subtrees(t)[i] == Subtrees(r)[i - 1 - |Subtrees(l)|];
        SubtreeKeys(r, i - 1 - |Subtrees(l)|);
      }
  }
}
