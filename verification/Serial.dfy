/**
 The textual save/load format. A tree is written as a stream of tokens, each
 followed by a comma in the text: the decimal key, or `null` for an absent
 node. Splitting the text at commas and `std::to_string`/`std::stoi` are
 abstracted into the token stream: `Num(k)` is a piece that `stoi` reads as
 `k`, `Malformed` a piece it rejects.
 */
module Serial {
  import opened Trees
  import opened Traversal

  datatype Token = Null | Num(value: int) | Malformed

  datatype Parse = Parsed(tree: Tree<int>, rest: seq<Token>) | ParseError

  datatype Option<T> = None | Some(value: T)

  const DefaultFormat: string := "KLP"

  /**
   `serializeTree`: `null` for an absent node; otherwise the format is
   replayed at the node, K writing the key and L/P writing a child.
   */
  function Serialize(t: Tree<int>, fmt: string): (s: seq<Token>)
    ensures Malformed !in s
    decreases t, 1
  {
    match t
    case Leaf => [Null]
    case Node(_, _, _) => SerializeSteps(t, fmt, fmt)
  }

  function SerializeSteps(t: Tree<int>, fmt: string, ops: string): (s: seq<Token>)
    requires t.Node?
    ensures Malformed !in s
    decreases t, 0, |ops|
  {
    if ops == [] then [] else Emit(t, fmt, ops[0]) + SerializeSteps(t, fmt, ops[1..])
  }

  function Emit(t: Tree<int>, fmt: string, c: char): (s: seq<Token>)
    requires t.Node?
    ensures Malformed !in s
    decreases t, 0, 0
  {
    match OpOf(c)
    case VisitKey => [Num(t.key)]
    case GoLeft => Serialize(t.left, fmt)
    case GoRight => Serialize(t.right, fmt)
    case Skip => []
  }

  /**
   `deserializeTree`: an exhausted stream or a `null` token gives an absent
   node; any other token must be a number, which becomes the node's key
   straight away, wherever K sits in the format. The L and P letters of the
   format then read the children in turn; K letters are not consulted.
   */
  function Deserialize(toks: seq<Token>, fmt: string): (p: Parse)
    ensures p.Parsed? ==> |p.rest| <= |toks| && p.rest == toks[|toks| - |p.rest|..]
    ensures p.ParseError? ==> Malformed in toks
    decreases |toks|, 0
  {
    if toks == [] then Parsed(Leaf, [])
    else
      match toks[0]
      case Null => Parsed(Leaf, toks[1..])
      case Malformed => ParseError
      case Num(k) => ReadChildren(k, Leaf, Leaf, toks[1..], fmt, fmt)
  }

  /** The rest of the format loop for the node with key `k` and the children read so far. */
  function ReadChildren(k: int, l: Tree<int>, r: Tree<int>, toks: seq<Token>, fmt: string, ops: string): (p: Parse)
    ensures p.Parsed? ==> |p.rest| <= |toks| && p.rest == toks[|toks| - |p.rest|..]
    ensures p.ParseError? ==> Malformed in toks
    decreases |toks|, 1, |ops|, 1
  {
    if ops == [] then Parsed(Node(k, l, r), toks)
    else
      match OpOf(ops[0])
      case GoLeft => ReadChild(k, l, r, true, toks, fmt, ops)
      case GoRight => ReadChild(k, l, r, false, toks, fmt, ops)
      case _ => ReadChildren(k, l, r, toks, fmt, ops[1..])
  }

  /** An L (`isLeft`) or P letter at the head of `ops`: read that child, then go on with the loop. */
  function ReadChild(k: int, l: Tree<int>, r: Tree<int>, isLeft: bool, toks: seq<Token>, fmt: string, ops: string): (p: Parse)
    requires ops != []
    ensures p.Parsed? ==> |p.rest| <= |toks| && p.rest == toks[|toks| - |p.rest|..]
    ensures p.ParseError? ==> Malformed in toks
    decreases |toks|, 1, |ops|, 0
  {
    match Deserialize(toks, fmt)
    case ParseError => ParseError
    case Parsed(sub, rest) =>
      var p := if isLeft then ReadChildren(k, sub, r, rest, fmt, ops[1..]) else ReadChildren(k, l, sub, rest, fmt, ops[1..]);
      ReadsOn(p, rest, toks);
      p
  }

  /** What the reader leaves after reading on from a suffix of `toks` is again a suffix of `toks`. */
  lemma ReadsOn(p: Parse, mid: seq<Token>, toks: seq<Token>)
    requires |mid| <= |toks| && mid == toks[|toks| - |mid|..]
    requires p.Parsed? ==> |p.rest| <= |mid| && p.rest == mid[|mid| - |p.rest|..]
    requires p.ParseError? ==> Malformed in mid
    ensures p.Parsed? ==> |p.rest| <= |toks| && p.rest == toks[|toks| - |p.rest|..]
    ensures p.ParseError? ==> Malformed in toks
  {
    if p.ParseError? {
      var i :| 0 <= i < |mid| && mid[i] == Malformed;
      assert toks[|toks| - |mid| + i] == Malformed;
    }
  }

  /** `saveToString`. */
  function Save(t: Tree<int>, fmt: string := DefaultFormat): (s: seq<Token>)
    ensures Malformed !in s
    ensures Numbers(s) == Custom(t, fmt)
  {
    SerializedKeysFollowTraversal(t, fmt);
    Serialize(t, fmt)
  }

  /**
   `loadFromString`: the tree read from the front of the stream, or a failure
   where `stoi` throws. Tokens after the tree are ignored.
   */
  function Load(toks: seq<Token>, fmt: string := DefaultFormat): (o: Option<Tree<int>>)
    ensures o.None? ==> Malformed in toks
  {
    match Deserialize(toks, fmt)
    case Parsed(t, _) => Some(t)
    case ParseError => None
  }

  // ---------------------------------------------------------------------
  // What the writer emits
  // ---------------------------------------------------------------------

  /** The keys of the numbers in a stream, in order. */
  function Numbers(s: seq<Token>): seq<int> {
    if s == [] then [] else (if s[0].Num? then [s[0].value] else []) + Numbers(s[1..])
  }

  lemma {:induction false} NumbersAppend(a: seq<Token>, b: seq<Token>)
    ensures Numbers(a + b) == Numbers(a) + Numbers(b)
    decreases |a|
  {
    if a == [] {
      assert a + b == b;
    } else {
      assert (a + b)[0] == a[0];
      assert (a + b)[1..] == a[1..] + b;
      NumbersAppend(a[1..], b);
    }
  }

  /** The keys a serialisation writes are exactly what the same format's traversal lists. */
  lemma {:induction false} SerializedKeysFollowTraversal(t: Tree<int>, fmt: string)
    ensures Numbers(Serialize(t, fmt)) == Custom(t, fmt)
    decreases t, 1
  {
    match t
    case Leaf =>
    case Node(_, _, _) => SerializedStepsFollowTraversal(t, fmt, fmt);
  }

  lemma {:induction false} SerializedStepsFollowTraversal(t: Tree<int>, fmt: string, ops: string)
    requires t.Node?
    ensures Numbers(SerializeSteps(t, fmt, ops)) == CustomSteps(t, fmt, ops)
    decreases t, 0, |ops|
  {
    if ops != [] {
      SerializedStepsFollowTraversal(t, fmt, ops[1..]);
      NumbersAppend(Emit(t, fmt, ops[0]), SerializeSteps(t, fmt, ops[1..]));
      match OpOf(ops[0])
      case VisitKey =>
      case GoLeft => SerializedKeysFollowTraversal(t.left, fmt);
      case GoRight => SerializedKeysFollowTraversal(t.right, fmt);
      case Skip =>
    }
  }

  /** A stream cut short is not an error: every prefix of a serialisation parses. */
  lemma PrematureEndParses(t: Tree<int>, fmt: string, n: nat)
    requires n <= |Serialize(t, fmt)|
    ensures Deserialize(Serialize(t, fmt)[..n], fmt).Parsed?
  {
  }

  /**
   The reader's two terminal outcomes: an exhausted stream is an absent node,
   and a key token `stoi` rejects fails the whole load, whatever follows it.
   */
  lemma ReaderOutcomes(fmt: string, rest: seq<Token>)
    ensures Deserialize([], fmt) == Parsed(Leaf, [])
    ensures Load([], fmt) == Some(Leaf)
    ensures Deserialize([Malformed] + rest, fmt) == ParseError
    ensures Load([Malformed] + rest, fmt) == None
  {
  }

  // ---------------------------------------------------------------------
  // The round trip
  // ---------------------------------------------------------------------

  /** The letters of a format that do something, in order. */
  function Program(ops: string): seq<Op>
    ensures Skip !in Program(ops)
  {
    if ops == [] then [] else (if OpOf(ops[0]) == Skip then [] else [OpOf(ops[0])]) + Program(ops[1..])
  }

  lemma ProgramStep(ops: string)
    requires ops != []
    ensures Program(ops) == (if OpOf(ops[0]) == Skip then [] else [OpOf(ops[0])]) + Program(ops[1..])
  {
  }

  /**
   Formats the reader can undo: the key comes first and only once, and both
   children are written (KLP and KPL in either case, possibly with repeated
   L or P letters or with ignored characters).
   */
  predicate KeyFirst(fmt: string) {
    var p := Program(fmt);
    |p| > 0 && p[0] == VisitKey && VisitKey !in p[1..] && GoLeft in p && GoRight in p
  }

  /** The format left after its first key letter. */
  function AfterKey(ops: string): (post: string)
    requires |Program(ops)| > 0 && Program(ops)[0] == VisitKey
    ensures Program(post) == Program(ops)[1..]
    decreases |ops|
  {
    if OpOf(ops[0]) == VisitKey then ops[1..] else AfterKey(ops[1..])
  }

  lemma {:induction false} WriterReachesKeyFirst(t: Tree<int>, fmt: string, ops: string)
    requires t.Node? && |Program(ops)| > 0 && Program(ops)[0] == VisitKey
    ensures SerializeSteps(t, fmt, ops) == [Num(t.key)] + SerializeSteps(t, fmt, AfterKey(ops))
    decreases |ops|
  {
    if OpOf(ops[0]) != VisitKey {
      WriterReachesKeyFirst(t, fmt, ops[1..]);
    }
  }

  lemma {:induction false} ReaderSkipsToKey(k: int, l: Tree<int>, r: Tree<int>, toks: seq<Token>, fmt: string, ops: string)
    requires |Program(ops)| > 0 && Program(ops)[0] == VisitKey
    ensures ReadChildren(k, l, r, toks, fmt, ops) == ReadChildren(k, l, r, toks, fmt, AfterKey(ops))
    decreases |ops|
  {
    if OpOf(ops[0]) != VisitKey {
      ReaderSkipsToKey(k, l, r, toks, fmt, ops[1..]);
    }
  }

  /** Reading back a serialisation, followed by any further tokens, rebuilds the tree and stops right after it. */
  lemma {:induction false} RoundTrip(t: Tree<int>, fmt: string, rest: seq<Token>)
    requires KeyFirst(fmt)
    ensures Deserialize(Serialize(t, fmt) + rest, fmt) == Parsed(t, rest)
    decreases t, 1
  {
    match t
    case Leaf =>
      assert ([Null] + rest)[1..] == rest;
    case Node(k, l, r) =>
      var post := AfterKey(fmt);
      WriterReachesKeyFirst(t, fmt, fmt);
      var body := SerializeSteps(t, fmt, post);
      var toks := Serialize(t, fmt) + rest;
      assert toks == [Num(k)] + (body + rest);
      assert toks[1..] == body + rest;
      ReaderSkipsToKey(k, Leaf, Leaf, body + rest, fmt, fmt);
      AfterKeyProgram(fmt);
      ReadBack(t, fmt, post, Leaf, Leaf, rest);
  }

  /** After the key, a key-first format still reads both children and never the key again. */
  lemma AfterKeyProgram(fmt: string)
    requires KeyFirst(fmt)
    ensures VisitKey !in Program(AfterKey(fmt))
    ensures GoLeft in Program(AfterKey(fmt)) && GoRight in Program(AfterKey(fmt))
  {
    var p := Program(fmt);
    assert p == [p[0]] + p[1..];
  }

  /** The reader's loop over the letters after K undoes the writer's loop over the same letters. */
  lemma {:induction false} ReadBack(t: Tree<int>, fmt: string, ops: string, l0: Tree<int>, r0: Tree<int>, rest: seq<Token>)
    requires t.Node? && KeyFirst(fmt) && VisitKey !in Program(ops)
    ensures ReadChildren(t.key, l0, r0, SerializeSteps(t, fmt, ops) + rest, fmt, ops)
            == Parsed(Node(t.key, if GoLeft in Program(ops) then t.left else l0,
                                  if GoRight in Program(ops) then t.right else r0), rest)
    decreases t, 0, |ops|
  {
    if ops == [] {
    } else {
      var tail := SerializeSteps(t, fmt, ops[1..]);
      var toks := SerializeSteps(t, fmt, ops) + rest;
      assert toks == Emit(t, fmt, ops[0]) + (tail + rest);
      ProgramStep(ops);
      match OpOf(ops[0])
      case VisitKey =>
        assert false;
      case GoLeft =>
        RoundTrip(t.left, fmt, tail + rest);
        ReadBack(t, fmt, ops[1..], t.left, r0, rest);
      case GoRight =>
        RoundTrip(t.right, fmt, tail + rest);
        ReadBack(t, fmt, ops[1..], l0, t.right, rest);
      case Skip =>
        assert Program(ops) == Program(ops[1..]);
        assert toks == tail + rest;
        ReadBack(t, fmt, ops[1..], l0, r0, rest);
    }
  }

  /** Saving and loading with a key-first format gives back the tree. */
  lemma LoadUndoesSave(t: Tree<int>, fmt: string)
    requires KeyFirst(fmt)
    ensures Load(Save(t, fmt), fmt) == Some(t)
  {
    RoundTrip(t, fmt, []);
    assert Save(t, fmt) + [] == Save(t, fmt);
  }

  /** With K after L the reader mistakes the left child's `null` for the root: LKP does not round-trip. */
  lemma InOrderFormatDoesNotRoundTrip()
    ensures Load(Save(Node(1, Leaf, Leaf), "LKP"), "LKP") == Some(Leaf)
  {
    var t, fmt := Node(1, Leaf, Leaf), "LKP";
    assert OpOf(fmt[0]) == GoLeft;
    var s := SerializeSteps(t, fmt, fmt);
    assert s == Emit(t, fmt, fmt[0]) + SerializeSteps(t, fmt, fmt[1..]);
    assert s[0] == Null;
  }
}
