/**
 The specialisation for callable payloads (`BinaryTree<std::function<R(Args...)>>`).
 Callables cannot be ordered, so insertion always descends to the right and
 the tree degenerates to a chain in insertion order. Each node also carries
 the id handed out by the tree's counter. The payload type `F` is opaque:
 nothing is ever asked of a callable here.
 */
module Chain {
  import opened Trees
  import opened Traversal

  /** A node's payload: the callable and the id it received on insertion. */
  datatype Entry<F> = Entry(data: F, id: nat)

  /** The tree: its root and `nextId`, the id the next insertion receives. */
  datatype Chain<F> = Chain(root: Tree<Entry<F>>, nextId: nat)

  function Empty<F>(): Chain<F> {
    Chain(Leaf, 0)
  }

  /** The callables of a list of entries, in order. */
  function Data<F>(s: seq<Entry<F>>): (d: seq<F>)
    ensures |d| == |s|
    ensures forall i :: 0 <= i < |s| ==> d[i] == s[i].data
  {
    if s == [] then [] else [s[0].data] + Data(s[1..])
  }

  /** `insertNode` of the specialisation: always recurse into the right child. */
  function InsertRight<F>(t: Tree<Entry<F>>, e: Entry<F>): (u: Tree<Entry<F>>)
    ensures LKP(u) == LKP(t) + [e]
    ensures Count(u) == Count(t) + 1
  {
    match t
    case Leaf => Node(e, Leaf, Leaf)
    case Node(k, l, r) => Node(k, l, InsertRight(r, e))
  }

  /** `insert`: the new node gets the current counter value, and the counter advances. */
  function Insert<F>(c: Chain<F>, x: F): (d: Chain<F>)
    ensures d.nextId == c.nextId + 1
    ensures LKP(d.root) == LKP(c.root) + [Entry(x, c.nextId)]
    ensures Count(d.root) == Count(c.root) + 1
  {
    Chain(InsertRight(c.root, Entry(x, c.nextId)), c.nextId + 1)
  }

  /** `traverseInOrder` of the specialisation. */
  function InOrderData<F>(c: Chain<F>): (d: seq<F>)
    ensures |d| == Count(c.root)
    ensures forall i :: 0 <= i < |d| ==> d[i] == LKP(c.root)[i].data
  {
    NamedOrders(c.root);
    InOrderMembers(c.root);
    Data(InOrder(c.root))
  }

  /** `size` of the specialisation. */
  function Size<F>(c: Chain<F>): (n: nat)
    ensures n == Count(c.root)
  {
    InOrderMembers(c.root);
    NamedOrders(c.root);
    |InOrderData(c)|
  }

  /** `isEmpty` of the specialisation. */
  function IsEmpty<F>(c: Chain<F>): (b: bool)
    ensures b <==> Size(c) == 0
  {
    c.root.Leaf?
  }

  /** Every left child is empty: the tree is a right-leaning chain. */
  predicate RightSpine<F>(t: Tree<Entry<F>>) {
    match t
    case Leaf => true
    case Node(_, l, r) => l.Leaf? && RightSpine(r)
  }

  /** The ids met in order increase strictly and stay below the counter. */
  predicate IdsBelow<F>(s: seq<Entry<F>>, bound: nat) {
    (forall i, j :: 0 <= i < j < |s| ==> s[i].id < s[j].id)
    && (forall i :: 0 <= i < |s| ==> s[i].id < bound)
  }

  /** What every reachable chain satisfies. */
  predicate Valid<F>(c: Chain<F>) {
    RightSpine(c.root) && IdsBelow(LKP(c.root), c.nextId)
  }

  lemma {:induction false} InsertRightKeepsSpine<F>(t: Tree<Entry<F>>, e: Entry<F>)
    requires RightSpine(t)
    ensures RightSpine(InsertRight(t, e))
  {
    match t
    case Leaf =>
    case Node(_, _, r) => InsertRightKeepsSpine(r, e);
  }

  /** An entry carrying the counter value may follow every entry below the counter. */
  lemma IdsBelowAppend<F>(s: seq<Entry<F>>, e: Entry<F>, bound: nat)
    requires IdsBelow(s, bound) && e.id == bound
    ensures IdsBelow(s + [e], bound + 1)
  {
    var s' := s + [e];
    forall i, j | 0 <= i < j < |s'| ensures s'[i].id < s'[j].id {
      if j < |s| {
        assert s'[i] == s[i] && s'[j] == s[j];
      } else {
        assert s'[i] == s[i];
      }
    }
  }

  lemma DataAppend<F>(s: seq<Entry<F>>, e: Entry<F>)
    ensures Data(s + [e]) == Data(s) + [e.data]
  {
    assert forall i :: 0 <= i < |s| ==> (s + [e])[i] == s[i];
  }

  /** Insertion appends the callable to the in-order listing and keeps the chain valid. */
  lemma InsertAppends<F>(c: Chain<F>, x: F)
    requires Valid(c)
    ensures Valid(Insert(c, x))
    ensures InOrderData(Insert(c, x)) == InOrderData(c) + [x]
    ensures Size(Insert(c, x)) == Size(c) + 1
  {
    var e := Entry(x, c.nextId);
    var d := Insert(c, x);
    InsertRightKeepsSpine(c.root, e);
    IdsBelowAppend(LKP(c.root), e, c.nextId);
    NamedOrders(c.root);
    NamedOrders(d.root);
    DataAppend(LKP(c.root), e);
  }

  /** Insert each callable of `xs` in turn. */
  function InsertEach<F>(c: Chain<F>, xs: seq<F>): Chain<F>
    decreases |xs|
  {
    if xs == [] then c else InsertEach(Insert(c, xs[0]), xs[1..])
  }

  /** In-order traversal returns the callables in insertion order. */
  lemma {:induction false} InOrderIsInsertionOrder<F>(c: Chain<F>, xs: seq<F>)
    requires Valid(c)
    ensures Valid(InsertEach(c, xs))
    ensures InOrderData(InsertEach(c, xs)) == InOrderData(c) + xs
    decreases |xs|
  {
    if xs != [] {
      var c1 := Insert(c, xs[0]);
      InsertAppends(c, xs[0]);
      InOrderIsInsertionOrder(c1, xs[1..]);
      assert InsertEach(c, xs) == InsertEach(c1, xs[1..]);
      calc {
        InOrderData(InsertEach(c, xs));
        InOrderData(c1) + xs[1..];
        InOrderData(c) + [xs[0]] + xs[1..];
        { assert [xs[0]] + xs[1..] == xs; }
        InOrderData(c) + xs;
      }
    }
  }

  /** Starting from an empty tree, the in-order listing is exactly the insertion sequence. */
  lemma FromEmpty<F>(xs: seq<F>)
    ensures InOrderData(InsertEach(Empty(), xs)) == xs
  {
    InOrderIsInsertionOrder(Empty(), xs);
  }
}
