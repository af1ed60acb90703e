/**
 The shape-preserving transforms `map` and `where`. Neither re-inserts
 anything: `map` rewrites payloads in place of a copy, and `where` keeps a
 failing node as a connective ancestor whenever something below it survives.
 So neither result need satisfy the ordering invariant.
 */
module Transform {
  import opened Trees
  import opened Traversal

  /** `f` applied to every element of `s`, in order. */
  function MapSeq<T>(s: seq<T>, f: T -> T): (r: seq<T>)
    ensures |r| == |s|
    ensures forall i :: 0 <= i < |s| ==> r[i] == f(s[i])
  {
    if s == [] then [] else [f(s[0])] + MapSeq(s[1..], f)
  }

  lemma {:induction false} MapSeqAppend<T>(a: seq<T>, b: seq<T>, f: T -> T)
    ensures MapSeq(a + b, f) == MapSeq(a, f) + MapSeq(b, f)
    decreases |a|
  {
    if a == [] {
      assert a + b == b;
    } else {
      assert (a + b)[0] == a[0];
      assert (a + b)[1..] == a[1..] + b;
      MapSeqAppend(a[1..], b, f);
    }
  }

  /** `mapTree`: a fresh node per node, carrying `f` of the old payload. */
  function Map<T>(t: Tree<T>, f: T -> T): (m: Tree<T>)
    ensures SameShape(m, t)
    ensures Count(m) == Count(t)
  {
    match t
    case Leaf => Leaf
    case Node(k, l, r) => Node(f(k), Map(l, f), Map(r, f))
  }

  /** Every fixed traversal of the mapped tree is the old traversal with `f` applied elementwise. */
  lemma MapCommutesWithTraversals<T>(t: Tree<T>, f: T -> T)
    ensures KLP(Map(t, f)) == MapSeq(KLP(t), f)
    ensures KPL(Map(t, f)) == MapSeq(KPL(t), f)
    ensures LPK(Map(t, f)) == MapSeq(LPK(t), f)
    ensures LKP(Map(t, f)) == MapSeq(LKP(t), f)
    ensures PLK(Map(t, f)) == MapSeq(PLK(t), f)
    ensures PKL(Map(t, f)) == MapSeq(PKL(t), f)
  {
    CustomKLP(t, "KLP"); CustomKLP(Map(t, f), "KLP"); MapCommutesWithCustom(t, f, "KLP");
    CustomKPL(t, "KPL"); CustomKPL(Map(t, f), "KPL"); MapCommutesWithCustom(t, f, "KPL");
    CustomLPK(t, "LPK"); CustomLPK(Map(t, f), "LPK"); MapCommutesWithCustom(t, f, "LPK");
    CustomLKP(t, "LKP"); CustomLKP(Map(t, f), "LKP"); MapCommutesWithCustom(t, f, "LKP");
    CustomPLK(t, "PLK"); CustomPLK(Map(t, f), "PLK"); MapCommutesWithCustom(t, f, "PLK");
    CustomPKL(t, "PKL"); CustomPKL(Map(t, f), "PKL"); MapCommutesWithCustom(t, f, "PKL");
  }

  /** The same holds for the traversal driven by any format string. */
  lemma {:induction false} MapCommutesWithCustom<T>(t: Tree<T>, f: T -> T, fmt: string)
    ensures Custom(Map(t, f), fmt) == MapSeq(Custom(t, fmt), f)
    decreases t, 1
  {
    match t
    case Leaf =>
    case Node(_, _, _) => MapCommutesWithSteps(t, f, fmt, fmt);
  }

  lemma {:induction false} MapCommutesWithSteps<T>(t: Tree<T>, f: T -> T, fmt: string, ops: string)
    requires t.Node?
    ensures CustomSteps(Map(t, f), fmt, ops) == MapSeq(CustomSteps(t, fmt, ops), f)
    decreases t, 0, |ops|
  {
    if ops != [] {
      MapCommutesWithSteps(t, f, fmt, ops[1..]);
      MapSeqAppend(Step(t, fmt, ops[0]), CustomSteps(t, fmt, ops[1..]), f);
      match OpOf(ops[0])
      case VisitKey =>
      case GoLeft => MapCommutesWithCustom(t.left, f, fmt);
      case GoRight => MapCommutesWithCustom(t.right, f, fmt);
      case Skip =>
    }
  }

  /**
   `whereTree`: a matching node is kept with its filtered children; a failing
   node is kept, payload unchanged, only when one of its filtered children is
   non-empty.
   */
  function Where<T>(t: Tree<T>, p: T -> bool): (w: Tree<T>)
    ensures Count(w) <= Count(t)
    ensures Keys(w) <= Keys(t)
    ensures w.Leaf? <==> forall x :: x in Keys(t) ==> !p(x)
    ensures Connective(w, p)
    ensures Prunes(w, t, p)
  {
    match t
    case Leaf => Leaf
    case Node(k, l, r) =>
      if p(k) then Node(k, Where(l, p), Where(r, p))
      else
        var wl := Where(l, p);
        var wr := Where(r, p);
        if wl.Node? || wr.Node? then Node(k, wl, wr) else Leaf
  }

  /**
   `w` is `t` with some subtrees cut off, each of which holds no match: every
   surviving node stays where it was, with its payload.
   */
  ghost predicate Prunes<T>(w: Tree<T>, t: Tree<T>, p: T -> bool) {
    match (w, t)
    case (Leaf, _) => forall x :: x in Keys(t) ==> !p(x)
    case (Node(wk, wl, wr), Node(tk, tl, tr)) => wk == tk && Prunes(wl, tl, p) && Prunes(wr, tr, p)
    case _ => false
  }

  /**
   Pruning away only match-free subtrees and keeping no dead-end node singles
   out one tree: the `whereTree` result.
   */
  lemma {:induction false} WhereIsTheOnlyPruning<T>(w: Tree<T>, t: Tree<T>, p: T -> bool)
    requires Prunes(w, t, p) && Connective(w, p)
    ensures w == Where(t, p)
  {
    match t
    case Leaf =>
    case Node(k, l, r) =>
      if w.Leaf? {
        assert Where(t, p).Leaf?;
      } else {
        WhereIsTheOnlyPruning(w.left, l, p);
        WhereIsTheOnlyPruning(w.right, r, p);
      }
  }

  /** Every node either matches or has a non-empty child. */
  predicate Connective<T>(w: Tree<T>, p: T -> bool) {
    match w
    case Leaf => true
    case Node(k, l, r) => (p(k) || l.Node? || r.Node?) && Connective(l, p) && Connective(r, p)
  }

  /** The elements of `s` that satisfy `p`, in order. */
  function Filter<T>(s: seq<T>, p: T -> bool): seq<T> {
    if s == [] then [] else (if p(s[0]) then [s[0]] else []) + Filter(s[1..], p)
  }

  lemma {:induction false} FilterAppend<T>(a: seq<T>, b: seq<T>, p: T -> bool)
    ensures Filter(a + b, p) == Filter(a, p) + Filter(b, p)
    decreases |a|
  {
    if a == [] {
      assert a + b == b;
    } else {
      var head := if p(a[0]) then [a[0]] else [];
      assert (a + b)[0] == a[0];
      assert (a + b)[1..] == a[1..] + b;
      FilterAppend(a[1..], b, p);
      calc {
        Filter(a + b, p);
        head + Filter(a[1..] + b, p);
        head + (Filter(a[1..], p) + Filter(b, p));
        (head + Filter(a[1..], p)) + Filter(b, p);
      }
    }
  }

  /** `a` can be obtained from `b` by deleting elements. */
  ghost predicate Subsequence<T>(a: seq<T>, b: seq<T>)
    decreases |b|
  {
    if a == [] then true
    else if b == [] then false
    else (a[0] == b[0] && Subsequence(a[1..], b[1..])) || Subsequence(a, b[1..])
  }

  lemma {:induction false} SubsequenceOfSelf<T>(a: seq<T>)
    ensures Subsequence(a, a)
    decreases |a|
  {
    if a != [] {
      SubsequenceOfSelf(a[1..]);
    }
  }

  lemma {:induction false} EmptySubsequence<T>(b: seq<T>)
    ensures Subsequence([], b)
  {
  }

  /** Subsequences combine piecewise across a concatenation. */
  lemma {:induction false} SubsequenceAppend<T>(a1: seq<T>, b1: seq<T>, a2: seq<T>, b2: seq<T>)
    requires Subsequence(a1, b1) && Subsequence(a2, b2)
    ensures Subsequence(a1 + a2, b1 + b2)
    decreases |b1|, |a1|
  {
    if b1 == [] {
      assert a1 == [];
      assert a1 + a2 == a2 && b1 + b2 == b2;
    } else if a1 == [] {
      SubsequenceAppend(a1, b1[1..], a2, b2);
      assert (b1 + b2)[1..] == b1[1..] + b2;
      assert a1 + a2 == a2;
      if a2 != [] {
        assert Subsequence(a2, (b1 + b2)[1..]);
      }
    } else if a1[0] == b1[0] && Subsequence(a1[1..], b1[1..]) {
      SubsequenceAppend(a1[1..], b1[1..], a2, b2);
      assert (a1 + a2)[1..] == a1[1..] + a2;
      assert (b1 + b2)[1..] == b1[1..] + b2;
    } else {
      SubsequenceAppend(a1, b1[1..], a2, b2);
      assert (b1 + b2)[1..] == b1[1..] + b2;
    }
  }

  /**
   The filtered tree lists, in order, a subsequence of the original payloads
   that still contains every matching payload in its original order.
   */
  lemma {:induction false} WhereKeepsMatchesInOrder<T>(t: Tree<T>, p: T -> bool)
    ensures Subsequence(LKP(Where(t, p)), LKP(t))
    ensures Filter(LKP(Where(t, p)), p) == Filter(LKP(t), p)
  {
    match t
    case Leaf =>
    case Node(k, l, r) =>
      WhereKeepsMatchesInOrder(l, p);
      WhereKeepsMatchesInOrder(r, p);
      var wl, wr := Where(l, p), Where(r, p);
      FilterAppend(LKP(l) + [k], LKP(r), p);
      FilterAppend(LKP(l), [k], p);
      assert Filter([k], p) == if p(k) then [k] else [];
      SubsequenceOfSelf([k]);
      if p(k) || wl.Node? || wr.Node? {
        FilterAppend(LKP(wl) + [k], LKP(wr), p);
        FilterAppend(LKP(wl), [k], p);
        SubsequenceAppend(LKP(wl), LKP(l), [k], [k]);
        SubsequenceAppend(LKP(wl) + [k], LKP(l) + [k], LKP(wr), LKP(r));
      } else {
        assert LKP(wl) == [] && LKP(wr) == [];
        EmptySubsequence(LKP(t));
      }
  }
}
