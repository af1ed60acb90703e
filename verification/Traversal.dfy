/**
 Traversals of the tree: the six fixed permutations of visiting the key (K),
 recursing left (L) and recursing right (P), the conventional in/pre/post-order
 names, and the traversal driven by a caller-supplied format string.
 */
module Traversal {
  import opened Trees

  /** What one character of a format string asks for at a node. */
  datatype Op = VisitKey | GoLeft | GoRight | Skip

  /** Case-insensitive reading of a format character; anything else is ignored. */
  function OpOf(c: char): Op {
    if c == 'K' || c == 'k' then VisitKey
    else if c == 'L' || c == 'l' then GoLeft
    else if c == 'P' || c == 'p' then GoRight
    else Skip
  }

  /** `traverseKLP`: key, then left subtree, then right subtree. */
  function KLP<T>(t: Tree<T>): (s: seq<T>)
    ensures |s| == Count(t)
  {
    match t
    case Leaf => []
    case Node(k, l, r) => [k] + KLP(l) + KLP(r)
  }

  /** `traverseKPL`: key, then right subtree, then left subtree. */
  function KPL<T>(t: Tree<T>): (s: seq<T>)
    ensures |s| == Count(t)
  {
    match t
    case Leaf => []
    case Node(k, l, r) => [k] + KPL(r) + KPL(l)
  }

  /** `traverseLPK`: left subtree, then right subtree, then key. */
  function LPK<T>(t: Tree<T>): (s: seq<T>)
    ensures |s| == Count(t)
  {
    match t
    case Leaf => []
    case Node(k, l, r) => LPK(l) + LPK(r) + [k]
  }

  /** `traverseLKP`: left subtree, then key, then right subtree. */
  function LKP<T>(t: Tree<T>): (s: seq<T>)
    ensures |s| == Count(t)
  {
    match t
    case Leaf => []
    case Node(k, l, r) => LKP(l) + [k] + LKP(r)
  }

  /** `traversePLK`: right subtree, then left subtree, then key. */
  function PLK<T>(t: Tree<T>): (s: seq<T>)
    ensures |s| == Count(t)
  {
    match t
    case Leaf => []
    case Node(k, l, r) => PLK(r) + PLK(l) + [k]
  }

  /** `traversePKL`: right subtree, then key, then left subtree. */
  function PKL<T>(t: Tree<T>): (s: seq<T>)
    ensures |s| == Count(t)
  {
    match t
    case Leaf => []
    case Node(k, l, r) => PKL(r) + [k] + PKL(l)
  }

  /** `traverseInOrder`, written out separately in BinaryTree.h. */
  function InOrder<T>(t: Tree<T>): (s: seq<T>)
    ensures |s| == Count(t)
  {
    match t
    case Leaf => []
    case Node(k, l, r) => InOrder(l) + [k] + InOrder(r)
  }

  /** `traversePreOrder`, written out separately in BinaryTree.h. */
  function PreOrder<T>(t: Tree<T>): (s: seq<T>)
    ensures |s| == Count(t)
  {
    match t
    case Leaf => []
    case Node(k, l, r) => [k] + PreOrder(l) + PreOrder(r)
  }

  /** `traversePostOrder`, written out separately in BinaryTree.h. */
  function PostOrder<T>(t: Tree<T>): (s: seq<T>)
    ensures |s| == Count(t)
  {
    match t
    case Leaf => []
    case Node(k, l, r) => PostOrder(l) + PostOrder(r) + [k]
  }

  /**
   The format-driven traversal: at every node each character of `fmt` is
   replayed in order, with the multiplicity it has in `fmt`.
   */
  function Custom<T>(t: Tree<T>, fmt: string): (s: seq<T>)
    ensures forall i :: 0 <= i < |s| ==> s[i] in Keys(t)
    decreases t, 1
  {
    match t
    case Leaf => []
    case Node(_, _, _) => CustomSteps(t, fmt, fmt)
  }

  /** The part of the format loop that still has the characters `ops` to run at node `t`. */
  function CustomSteps<T>(t: Tree<T>, fmt: string, ops: string): (s: seq<T>)
    requires t.Node?
    ensures forall i :: 0 <= i < |s| ==> s[i] in Keys(t)
    decreases t, 0, |ops|
  {
    if ops == [] then [] else Step(t, fmt, ops[0]) + CustomSteps(t, fmt, ops[1..])
  }

  /** What one format character contributes at node `t`. */
  function Step<T>(t: Tree<T>, fmt: string, c: char): (s: seq<T>)
    requires t.Node?
    ensures forall i :: 0 <= i < |s| ==> s[i] in Keys(t)
    decreases t, 0, 0
  {
    match OpOf(c)
    case VisitKey => [t.key]
    case GoLeft => Custom(t.left, fmt)
    case GoRight => Custom(t.right, fmt)
    case Skip => []
  }

  /** `size()`: the length of the in-order listing. */
  function Size<T>(t: Tree<T>): (n: nat)
    ensures n == Count(t)
  {
    InOrderLength(t);
    |InOrder(t)|
  }

  /** `isEmpty()`: the root pointer is null. */
  function IsEmpty<T>(t: Tree<T>): (b: bool)
    ensures b <==> Size(t) == 0
  {
    t == Leaf
  }

  lemma {:induction false} InOrderLength<T>(t: Tree<T>)
    ensures |InOrder(t)| == Count(t)
  {
    match t
    case Leaf =>
    case Node(_, l, r) => InOrderLength(l); InOrderLength(r);
  }

  /** The conventional names are the six-letter orders LKP, KLP and LPK. */
  lemma {:induction false} NamedOrders<T>(t: Tree<T>)
    ensures InOrder(t) == LKP(t)
    ensures PreOrder(t) == KLP(t)
    ensures PostOrder(t) == LPK(t)
  {
    match t
    case Leaf =>
    case Node(_, l, r) => NamedOrders(l); NamedOrders(r);
  }

  /** Every fixed order lists exactly the payloads of the tree, each as often as it occurs. */
  lemma FixedOrdersArePermutations<T>(t: Tree<T>)
    ensures multiset(KLP(t)) == Bag(t)
    ensures multiset(KPL(t)) == Bag(t)
    ensures multiset(LPK(t)) == Bag(t)
    ensures multiset(LKP(t)) == Bag(t)
    ensures multiset(PLK(t)) == Bag(t)
    ensures multiset(PKL(t)) == Bag(t)
  {
    BagKLP(t); BagKPL(t); BagLPK(t); BagLKP(t); BagPLK(t); BagPKL(t);
  }

  lemma {:induction false} BagKLP<T>(t: Tree<T>)
    ensures multiset(KLP(t)) == Bag(t)
  {
    match t
    case Leaf =>
    case Node(k, l, r) =>
      BagKLP(l); BagKLP(r);
      assert multiset(KLP(t)) == multiset{k} + multiset(KLP(l)) + multiset(KLP(r));
  }

  lemma {:induction false} BagKPL<T>(t: Tree<T>)
    ensures multiset(KPL(t)) == Bag(t)
  {
    match t
    case Leaf =>
    case Node(k, l, r) =>
      BagKPL(l); BagKPL(r);
      assert multiset(KPL(t)) == multiset{k} + multiset(KPL(r)) + multiset(KPL(l));
  }

  lemma {:induction false} BagLPK<T>(t: Tree<T>)
    ensures multiset(LPK(t)) == Bag(t)
  {
    match t
    case Leaf =>
    case Node(k, l, r) =>
      BagLPK(l); BagLPK(r);
      assert multiset(LPK(t)) == multiset(LPK(l)) + multiset(LPK(r)) + multiset{k};
  }

  lemma {:induction false} BagLKP<T>(t: Tree<T>)
    ensures multiset(LKP(t)) == Bag(t)
  {
    match t
    case Leaf =>
    case Node(k, l, r) =>
      BagLKP(l); BagLKP(r);
      assert multiset(LKP(t)) == multiset(LKP(l)) + multiset{k} + multiset(LKP(r));
  }

  lemma {:induction false} BagPLK<T>(t: Tree<T>)
    ensures multiset(PLK(t)) == Bag(t)
  {
    match t
    case Leaf =>
    case Node(k, l, r) =>
      BagPLK(l); BagPLK(r);
      assert multiset(PLK(t)) == multiset(PLK(r)) + multiset(PLK(l)) + multiset{k};
  }

  lemma {:induction false} BagPKL<T>(t: Tree<T>)
    ensures multiset(PKL(t)) == Bag(t)
  {
    match t
    case Leaf =>
    case Node(k, l, r) =>
      BagPKL(l); BagPKL(r);
      assert multiset(PKL(t)) == multiset(PKL(r)) + multiset{k} + multiset(PKL(l));
  }

  /** In-order lists every node once, and lists exactly the stored payloads. */
  lemma {:induction false} InOrderMembers<T>(t: Tree<T>)
    ensures |LKP(t)| == Count(t)
    ensures forall x :: x in LKP(t) <==> x in Keys(t)
  {
    match t
    case Leaf =>
    case Node(k, l, r) => InOrderMembers(l); InOrderMembers(r);
  }

  /** The three steps a three-letter format performs at a node, in order. */
  lemma CustomThreeSteps<T>(t: Tree<T>, fmt: string)
    requires t.Node? && |fmt| == 3
    ensures Custom(t, fmt) == Step(t, fmt, fmt[0]) + Step(t, fmt, fmt[1]) + Step(t, fmt, fmt[2])
  {
    var rest1 := fmt[1..];
    var rest2 := rest1[1..];
    assert rest2[1..] == [];
    assert CustomSteps(t, fmt, rest2) == Step(t, fmt, fmt[2]) + CustomSteps(t, fmt, rest2[1..]);
    assert CustomSteps(t, fmt, rest1) == Step(t, fmt, fmt[1]) + CustomSteps(t, fmt, rest2);
  }

  /** Whether `fmt` spells the three letters `a`, `b`, `c` in any mix of cases. */
  predicate Spells(fmt: string, a: Op, b: Op, c: Op) {
    |fmt| == 3 && OpOf(fmt[0]) == a && OpOf(fmt[1]) == b && OpOf(fmt[2]) == c
  }

  lemma {:induction false} CustomKLP<T>(t: Tree<T>, fmt: string)
    requires Spells(fmt, VisitKey, GoLeft, GoRight)
    ensures Custom(t, fmt) == KLP(t)
  {
    match t
    case Leaf =>
    case Node(_, l, r) => CustomThreeSteps(t, fmt); CustomKLP(l, fmt); CustomKLP(r, fmt);
  }

  lemma {:induction false} CustomKPL<T>(t: Tree<T>, fmt: string)
    requires Spells(fmt, VisitKey, GoRight, GoLeft)
    ensures Custom(t, fmt) == KPL(t)
  {
    match t
    case Leaf =>
    case Node(_, l, r) => CustomThreeSteps(t, fmt); CustomKPL(l, fmt); CustomKPL(r, fmt);
  }

  lemma {:induction false} CustomLPK<T>(t: Tree<T>, fmt: string)
    requires Spells(fmt, GoLeft, GoRight, VisitKey)
    ensures Custom(t, fmt) == LPK(t)
  {
    match t
    case Leaf =>
    case Node(_, l, r) => CustomThreeSteps(t, fmt); CustomLPK(l, fmt); CustomLPK(r, fmt);
  }

  lemma {:induction false} CustomLKP<T>(t: Tree<T>, fmt: string)
    requires Spells(fmt, GoLeft, VisitKey, GoRight)
    ensures Custom(t, fmt) == LKP(t)
  {
    match t
    case Leaf =>
    case Node(_, l, r) => CustomThreeSteps(t, fmt); CustomLKP(l, fmt); CustomLKP(r, fmt);
  }

  lemma {:induction false} CustomPLK<T>(t: Tree<T>, fmt: string)
    requires Spells(fmt, GoRight, GoLeft, VisitKey)
    ensures Custom(t, fmt) == PLK(t)
  {
    match t
    case Leaf =>
    case Node(_, l, r) => CustomThreeSteps(t, fmt); CustomPLK(l, fmt); CustomPLK(r, fmt);
  }

  lemma {:induction false} CustomPKL<T>(t: Tree<T>, fmt: string)
    requires Spells(fmt, GoRight, VisitKey, GoLeft)
    ensures Custom(t, fmt) == PKL(t)
  {
    match t
    case Leaf =>
    case Node(_, l, r) => CustomThreeSteps(t, fmt); CustomPKL(l, fmt); CustomPKL(r, fmt);
  }
}
