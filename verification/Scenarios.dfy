/**
 The demonstration runs of the program, as concrete facts about the model.
 */
module Scenarios {
  import opened Trees
  import opened Traversal
  import opened Search
  import opened Transform
  import opened Subtree
  import opened Rebuild
  import opened Serial

  /** A tree built by inserting `xs` in order into an empty tree. */
  function Build(xs: seq<int>): Tree<int> {
    InsertAll(IntLess, Leaf, xs)
  }

  function Single(k: int): Tree<int> {
    Node(k, Leaf, Leaf)
  }

  /** A root `b` with the single leaves `a` and `c` below it. */
  function Fork(a: int, b: int, c: int): Tree<int> {
    Node(b, Single(a), Single(c))
  }

  /** The tree the demonstration builds from 5, 3, 7, 2, 4, 6, 8. */
  const Demo: Tree<int> := Node(5, Fork(2, 3, 4), Fork(6, 7, 8))

  function Twice(x: int): int {
    2 * x
  }

  function Negate(x: int): int {
    -x
  }

  function IsEven(x: int): bool {
    x % 2 == 0
  }

  // ---------------------------------------------------------------------
  // Facts about a fork, whatever its payloads
  // ---------------------------------------------------------------------

  lemma ForkOrders(a: int, b: int, c: int)
    ensures KLP(Fork(a, b, c)) == [b, a, c]
    ensures LKP(Fork(a, b, c)) == [a, b, c]
    ensures PKL(Fork(a, b, c)) == [c, b, a]
  {
    assert KLP(Single(a)) == LKP(Single(a)) == PKL(Single(a)) == [a];
    assert KLP(Single(c)) == LKP(Single(c)) == PKL(Single(c)) == [c];
  }

  lemma MapFork(a: int, b: int, c: int, f: int -> int)
    ensures Map(Fork(a, b, c), f) == Fork(f(a), f(b), f(c))
  {
  }

  lemma WhereFork(a: int, b: int, c: int, p: int -> bool)
    requires p(a) && p(c)
    ensures Where(Fork(a, b, c), p) == Fork(a, b, c)
  {
    assert Where(Single(a), p) == Single(a);
    assert Where(Single(c), p) == Single(c);
  }

  /** Under KLP a node writes its key, then its left child, then its right child. */
  lemma SerializeKLP(t: Tree<int>)
    requires t.Node?
    ensures Serialize(t, "KLP") == [Num(t.key)] + Serialize(t.left, "KLP") + Serialize(t.right, "KLP")
  {
    var fmt := "KLP";
    assert OpOf('K') == VisitKey && OpOf('L') == GoLeft && OpOf('P') == GoRight;
    assert fmt[0] == 'K' && fmt[1..] == "LP" && "LP"[0] == 'L' && "LP"[1..] == "P" && "P"[0] == 'P' && "P"[1..] == [];
    calc {
      Serialize(t, fmt);
      SerializeSteps(t, fmt, fmt);
      Emit(t, fmt, 'K') + SerializeSteps(t, fmt, "LP");
      [Num(t.key)] + (Emit(t, fmt, 'L') + SerializeSteps(t, fmt, "P"));
      [Num(t.key)] + (Serialize(t.left, fmt) + (Emit(t, fmt, 'P') + SerializeSteps(t, fmt, [])));
      [Num(t.key)] + Serialize(t.left, fmt) + Serialize(t.right, fmt);
    }
  }

  lemma SerializeFork(a: int, b: int, c: int)
    ensures Serialize(Fork(a, b, c), "KLP") == [Num(b), Num(a), Null, Null, Num(c), Null, Null]
  {
    SerializeKLP(Single(a));
    SerializeKLP(Single(c));
    SerializeKLP(Fork(a, b, c));
  }

  // ---------------------------------------------------------------------
  // Insertion steps, whatever the payloads
  // ---------------------------------------------------------------------

  lemma GoesLeft(k: int, l: Tree<int>, r: Tree<int>, x: int)
    requires x < k
    ensures Insert(IntLess, Node(k, l, r), x) == Node(k, Insert(IntLess, l, x), r)
  {
  }

  lemma GoesRight(k: int, l: Tree<int>, r: Tree<int>, x: int)
    requires k < x
    ensures Insert(IntLess, Node(k, l, r), x) == Node(k, l, Insert(IntLess, r, x))
  {
  }

  /** Inserting a sequence is inserting its head, then its tail. */
  lemma InsertAllCons(t: Tree<int>, x: int, rest: seq<int>)
    ensures InsertAll(IntLess, t, [x] + rest) == InsertAll(IntLess, Insert(IntLess, t, x), rest)
  {
    assert ([x] + rest)[1..] == rest;
  }

  /** Seven keys in the order root, left, right, then the four grandchildren give a full tree. */
  lemma BuildFull(a: int, b: int, c: int, d: int, e: int, f: int, g: int)
    requires d < b < e < a < f < c < g
    ensures InsertAll(IntLess, Leaf, [a, b, c, d, e, f, g]) == Node(a, Fork(d, b, e), Fork(f, c, g))
  {
    var t1 := Single(a);
    var t2 := Node(a, Single(b), Leaf);
    var t3 := Node(a, Single(b), Single(c));
    var t4 := Node(a, Node(b, Single(d), Leaf), Single(c));
    var t5 := Node(a, Fork(d, b, e), Single(c));
    var t6 := Node(a, Fork(d, b, e), Node(c, Single(f), Leaf));
    var t7 := Node(a, Fork(d, b, e), Fork(f, c, g));
    GoesLeft(a, Leaf, Leaf, b);
    GoesRight(a, Single(b), Leaf, c);
    GoesLeft(a, Single(b), Single(c), d);
    GoesLeft(b, Leaf, Leaf, d);
    GoesLeft(a, Node(b, Single(d), Leaf), Single(c), e);
    GoesRight(b, Single(d), Leaf, e);
    GoesRight(a, Fork(d, b, e), Single(c), f);
    GoesLeft(c, Leaf, Leaf, f);
    GoesRight(a, Fork(d, b, e), Node(c, Single(f), Leaf), g);
    GoesRight(c, Single(f), Leaf, g);
    InsertAllCons(Leaf, a, [b, c, d, e, f, g]);
    InsertAllCons(t1, b, [c, d, e, f, g]);
    InsertAllCons(t2, c, [d, e, f, g]);
    InsertAllCons(t3, d, [e, f, g]);
    InsertAllCons(t4, e, [f, g]);
    InsertAllCons(t5, f, [g]);
    InsertAllCons(t6, g, []);
  }

  // ---------------------------------------------------------------------
  // The demonstration tree
  // ---------------------------------------------------------------------

  lemma DemoShape()
    ensures Build([5, 3, 7, 2, 4, 6, 8]) == Demo
  {
    BuildFull(5, 3, 7, 2, 4, 6, 8);
  }

  /** The demonstration tree satisfies the ordering invariant. */
  lemma DemoIsOrdered()
    ensures IsBst(Demo)
  {
  }

  lemma DemoOrders()
    ensures KLP(Demo) == [5, 3, 2, 4, 7, 6, 8]
    ensures LKP(Demo) == [2, 3, 4, 5, 6, 7, 8]
    ensures PKL(Demo) == [8, 7, 6, 5, 4, 3, 2]
  {
    ForkOrders(2, 3, 4);
    ForkOrders(6, 7, 8);
  }

  /** Pre-order (KLP), in-order (LKP), and the format "pKl" on the demonstration tree. */
  lemma DemoTraversals()
    ensures KLP(Build([5, 3, 7, 2, 4, 6, 8])) == [5, 3, 2, 4, 7, 6, 8]
    ensures LKP(Build([5, 3, 7, 2, 4, 6, 8])) == [2, 3, 4, 5, 6, 7, 8]
  {
    DemoShape();
    DemoOrders();
  }

  /** The format "pKl" on a root `k` over two forks lists right to left. */
  lemma CustomForks(k: int, a: int, b: int, c: int, d: int, e: int, f: int)
    ensures Custom(Node(k, Fork(a, b, c), Fork(d, e, f)), "pKl") == [f, e, d, k, c, b, a]
  {
    ForkOrders(a, b, c);
    ForkOrders(d, e, f);
    CustomPKL(Node(k, Fork(a, b, c), Fork(d, e, f)), "pKl");
  }

  lemma DemoCustom()
    ensures Custom(Build([5, 3, 7, 2, 4, 6, 8]), "pKl") == [8, 7, 6, 5, 4, 3, 2]
  {
    DemoShape();
    CustomForks(5, 2, 3, 4, 6, 7, 8);
  }

  /** A root `k` over two forks, mapped with `f`. */
  lemma MapForks(k: int, a: int, b: int, c: int, d: int, e: int, g: int, f: int -> int)
    ensures Map(Node(k, Fork(a, b, c), Fork(d, e, g)), f) == Node(f(k), Fork(f(a), f(b), f(c)), Fork(f(d), f(e), f(g)))
  {
    MapFork(a, b, c, f);
    MapFork(d, e, g, f);
  }

  /** The in-order listing of a root `k` over two forks. */
  lemma ForksInOrder(k: int, a: int, b: int, c: int, d: int, e: int, f: int)
    ensures LKP(Node(k, Fork(a, b, c), Fork(d, e, f))) == [a, b, c, k, d, e, f]
  {
    ForkOrders(a, b, c);
    ForkOrders(d, e, f);
  }

  /** Doubling every payload doubles the in-order listing. */
  lemma DoubleDemo()
    ensures LKP(Map(Demo, Twice)) == [4, 6, 8, 10, 12, 14, 16]
  {
    MapForks(5, 2, 3, 4, 6, 7, 8, Twice);
    ForksInOrder(10, 4, 6, 8, 12, 14, 16);
  }

  /** Mapping with negation keeps the shape, so the tree is no longer ordered. */
  lemma NegationKeepsShape()
    ensures SameShape(Map(Demo, Negate), Demo)
    ensures LKP(Map(Demo, Negate)) == [-2, -3, -4, -5, -6, -7, -8]
    ensures !IsBst(Map(Demo, Negate))
  {
    MapForks(5, 2, 3, 4, 6, 7, 8, Negate);
    ForksInOrder(-5, -2, -3, -4, -6, -7, -8);
    var m := Node(-5, Fork(-2, -3, -4), Fork(-6, -7, -8));
    assert -3 in Keys(m.left);
  }

  /** Keeping even payloads keeps every odd ancestor as a connective node. */
  lemma EvenFilterDemo()
    ensures LKP(Where(Demo, IsEven)) == [2, 3, 4, 5, 6, 7, 8]
  {
    WhereFork(2, 3, 4, IsEven);
    WhereFork(6, 7, 8, IsEven);
    assert Where(Demo, IsEven) == Demo;
    DemoOrders();
  }

  /** Extracting the subtree at 3 copies 3 with its children, and the tree contains it. */
  lemma ExtractDemo()
    ensures Extract(Demo, 3) == Node(3, Single(2), Single(4))
    ensures ContainsSubtree(Demo, Extract(Demo, 3))
    ensures Extract(Demo, 9) == Leaf
  {
    ContainsWhatItExtracts(Demo, 3);
  }

  /** A root `k` over two forks, serialised with KLP. */
  lemma SerializeForks(k: int, a: int, b: int, c: int, d: int, e: int, f: int)
    ensures Serialize(Node(k, Fork(a, b, c), Fork(d, e, f)), "KLP")
         == [Num(k), Num(b), Num(a), Null, Null, Num(c), Null, Null,
             Num(e), Num(d), Null, Null, Num(f), Null, Null]
  {
    SerializeFork(a, b, c);
    SerializeFork(d, e, f);
    SerializeKLP(Node(k, Fork(a, b, c), Fork(d, e, f)));
  }

  /** The KLP serialisation of the demonstration tree. */
  lemma SaveDemo()
    ensures Save(Demo) == [Num(5), Num(3), Num(2), Null, Null, Num(4), Null, Null,
                           Num(7), Num(6), Null, Null, Num(8), Null, Null]
  {
    SerializeForks(5, 2, 3, 4, 6, 7, 8);
  }

  /** Loading the saved demonstration tree gives it back. */
  lemma LoadDemo()
    ensures Load(Save(Demo)) == Some(Demo)
  {
    assert Program("KLP") == [VisitKey, GoLeft, GoRight];
    LoadUndoesSave(Demo, DefaultFormat);
  }

  const Tens: Tree<int> := Node(10, Leaf, Node(20, Leaf, Single(30)))

  /** Three ascending keys give a right chain. */
  lemma BuildAscending(x: int, y: int, z: int)
    requires x < y < z
    ensures InsertAll(IntLess, Leaf, [x, y, z]) == Node(x, Leaf, Node(y, Leaf, Single(z)))
  {
    var t1 := Single(x);
    var t2 := Node(x, Leaf, Single(y));
    GoesRight(x, Leaf, Leaf, y);
    GoesRight(x, Leaf, Single(y), z);
    GoesRight(y, Leaf, Leaf, z);
    InsertAllCons(Leaf, x, [y, z]);
    InsertAllCons(t1, y, [z]);
    InsertAllCons(t2, z, []);
  }

  lemma TensShape()
    ensures Build([10, 20, 30]) == Tens
    ensures InOrder(Tens) == [10, 20, 30]
  {
    BuildAscending(10, 20, 30);
    NamedOrders(Tens);
  }

  /** Keys above every stored key hang, one below the other, under the rightmost node. */
  lemma ExtendRight(a: int, b: int, c: int, d: int, e: int, f: int, g: int, x: int, y: int, z: int)
    requires d < b < e < a < f < c < g < x < y < z
    ensures InsertAll(IntLess, Node(a, Fork(d, b, e), Fork(f, c, g)), [x, y, z])
         == Node(a, Fork(d, b, e), Node(c, Single(f), Node(g, Leaf, Node(x, Leaf, Node(y, Leaf, Single(z))))))
  {
    var l := Fork(d, b, e);
    var t0 := Node(a, l, Fork(f, c, g));
    var t1 := Node(a, l, Node(c, Single(f), Node(g, Leaf, Single(x))));
    var t2 := Node(a, l, Node(c, Single(f), Node(g, Leaf, Node(x, Leaf, Single(y)))));
    GoesRight(a, l, Fork(f, c, g), x);
    GoesRight(c, Single(f), Single(g), x);
    GoesRight(g, Leaf, Leaf, x);
    GoesRight(a, l, Node(c, Single(f), Node(g, Leaf, Single(x))), y);
    GoesRight(c, Single(f), Node(g, Leaf, Single(x)), y);
    GoesRight(g, Leaf, Single(x), y);
    GoesRight(x, Leaf, Leaf, y);
    GoesRight(a, l, Node(c, Single(f), Node(g, Leaf, Node(x, Leaf, Single(y)))), z);
    GoesRight(c, Single(f), Node(g, Leaf, Node(x, Leaf, Single(y))), z);
    GoesRight(g, Leaf, Node(x, Leaf, Single(y)), z);
    GoesRight(x, Leaf, Single(y), z);
    GoesRight(y, Leaf, Leaf, z);
    InsertAllCons(t0, x, [y, z]);
    InsertAllCons(t1, y, [z]);
    InsertAllCons(t2, z, []);
  }

  /** Merging a right chain of larger keys into a full tree hangs them under the rightmost node. */
  lemma MergeForksShape(a: int, b: int, c: int, d: int, e: int, f: int, g: int, x: int, y: int, z: int)
    requires d < b < e < a < f < c < g < x < y < z
    ensures Merge(IntLess, Node(a, Fork(d, b, e), Fork(f, c, g)), Node(x, Leaf, Node(y, Leaf, Single(z))))
         == Node(a, Fork(d, b, e), Node(c, Single(f), Node(g, Leaf, Node(x, Leaf, Node(y, Leaf, Single(z))))))
  {
    var other := Node(x, Leaf, Node(y, Leaf, Single(z)));
    NamedOrders(other);
    assert LKP(Single(z)) == [z];
    assert InOrder(other) == [x, y, z];
    ExtendRight(a, b, c, d, e, f, g, x, y, z);
  }

  lemma ExtendedOrder(a: int, b: int, c: int, d: int, e: int, f: int, g: int, x: int, y: int, z: int)
    ensures LKP(Node(a, Fork(d, b, e), Node(c, Single(f), Node(g, Leaf, Node(x, Leaf, Node(y, Leaf, Single(z)))))))
         == [d, b, e, a, f, c, g, x, y, z]
  {
    ForkOrders(d, b, e);
    assert LKP(Single(z)) == [z];
    assert LKP(Single(f)) == [f];
    assert LKP(Node(y, Leaf, Single(z))) == [y, z];
    assert LKP(Node(x, Leaf, Node(y, Leaf, Single(z)))) == [x, y, z];
    var chain := Node(g, Leaf, Node(x, Leaf, Node(y, Leaf, Single(z))));
    assert LKP(chain) == [g, x, y, z];
    assert LKP(Node(c, Single(f), chain)) == [f, c, g, x, y, z];
  }

  /** Merging a right chain of larger keys into a full tree appends them to the in-order listing. */
  lemma MergeForks(a: int, b: int, c: int, d: int, e: int, f: int, g: int, x: int, y: int, z: int)
    requires d < b < e < a < f < c < g < x < y < z
    ensures LKP(Merge(IntLess, Node(a, Fork(d, b, e), Fork(f, c, g)), Node(x, Leaf, Node(y, Leaf, Single(z)))))
         == [d, b, e, a, f, c, g, x, y, z]
  {
    MergeForksShape(a, b, c, d, e, f, g, x, y, z);
    ExtendedOrder(a, b, c, d, e, f, g, x, y, z);
  }

  /** Merging the tree built from 10, 20, 30 into the demonstration tree. */
  lemma MergeDemo()
    ensures LKP(Merge(IntLess, Demo, Build([10, 20, 30]))) == [2, 3, 4, 5, 6, 7, 8, 10, 20, 30]
  {
    TensShape();
    MergeForks(5, 3, 7, 2, 4, 6, 8, 10, 20, 30);
  }

  // ---------------------------------------------------------------------
  // Balancing a chain
  // ---------------------------------------------------------------------

  const Chain5: Tree<int> := Node(1, Leaf, Node(2, Leaf, Node(3, Leaf, Node(4, Leaf, Single(5)))))

  /** Ascending insertion gives a right chain. */
  lemma ChainDemo()
    ensures Build([1, 2, 3, 4, 5]) == Chain5
  {
    var t1 := Single(1);
    var t2 := Node(1, Leaf, Single(2));
    var t3 := Node(1, Leaf, Node(2, Leaf, Single(3)));
    var t4 := Node(1, Leaf, Node(2, Leaf, Node(3, Leaf, Single(4))));
    assert Insert(IntLess, Leaf, 1) == t1;
    assert Insert(IntLess, t1, 2) == t2;
    assert Insert(IntLess, t2, 3) == t3;
    assert Insert(IntLess, t3, 4) == t4;
  }

  lemma ChainOrders()
    ensures InOrder(Chain5) == [1, 2, 3, 4, 5]
    ensures PreOrder(Chain5) == [1, 2, 3, 4, 5]
  {
    var c5 := Single(5);
    var c4 := Node(4, Leaf, c5);
    var c3 := Node(3, Leaf, c4);
    var c2 := Node(2, Leaf, c3);
    assert InOrder(c5) == [5] && PreOrder(c5) == [5];
    assert InOrder(c4) == [4, 5] && PreOrder(c4) == [4, 5];
    assert InOrder(c3) == [3, 4, 5] && PreOrder(c3) == [3, 4, 5];
    assert InOrder(c2) == [2, 3, 4, 5] && PreOrder(c2) == [2, 3, 4, 5];
  }

  lemma BalanceRangeDemo()
    ensures BalanceRange([1, 2, 3, 4, 5], 0, 4) == Node(3, Node(1, Leaf, Single(2)), Node(4, Leaf, Single(5)))
  {
    var a := [1, 2, 3, 4, 5];
    assert BalanceRange(a, 1, 1) == Single(2);
    assert BalanceRange(a, 0, 1) == Node(1, Leaf, Single(2));
    assert BalanceRange(a, 4, 4) == Single(5);
    assert BalanceRange(a, 3, 4) == Node(4, Leaf, Single(5));
  }

  lemma BalanceChain()
    ensures Balance(Chain5) == Node(3, Node(1, Leaf, Single(2)), Node(4, Leaf, Single(5)))
  {
    ChainOrders();
    BalanceRangeDemo();
    assert |InOrder(Chain5)| - 1 == 4;
  }

  lemma BalancedOrder()
    ensures PreOrder(Node(3, Node(1, Leaf, Single(2)), Node(4, Leaf, Single(5)))) == [3, 1, 2, 4, 5]
  {
    assert PreOrder(Single(2)) == [2];
    assert PreOrder(Single(5)) == [5];
  }

  /** Inserting 1..5 gives a chain; balancing rebuilds it around the middle value. */
  lemma BalanceDemo()
    ensures PreOrder(Build([1, 2, 3, 4, 5])) == [1, 2, 3, 4, 5]
    ensures PreOrder(Balance(Build([1, 2, 3, 4, 5]))) == [3, 1, 2, 4, 5]
  {
    ChainDemo();
    ChainOrders();
    BalanceChain();
    BalancedOrder();
  }

  /** A stream cut short after two keys still loads: the missing children are read as absent. */
  lemma ShortStreamDemo()
    ensures Load([Num(5), Num(3)]) == Some(Node(5, Single(3), Leaf))
  {
    var fmt := DefaultFormat;
    assert OpOf('K') == VisitKey && OpOf('L') == GoLeft && OpOf('P') == GoRight;
    assert fmt[1..] == "LP" && fmt[1..][1..] == "P" && fmt[1..][1..][1..] == [];
    assert ReadChildren(3, Leaf, Leaf, [], fmt, fmt) == Parsed(Single(3), []);
    assert Deserialize([Num(3)], fmt) == Parsed(Single(3), []);
  }
}
