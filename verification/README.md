# A verified model of a generic binary search tree engine

This project models the tree engine of a small C++ container library. It covers:

- the primary `BinaryTree<T>` template;
- the insertion-only specialisation for callable payloads;
- the ordering contract of the `PersonID`/`Person` record payloads.

The engine's heap nodes become an immutable datatype, `Tree<T> = Leaf | Node(key, left, right)`. `Leaf` stands for the null pointer. No node is ever shared, so every copy or fresh allocation the C++ code makes is just a value here.

The ordered operations take `less`, the element's `operator<`, as a parameter. This mirrors how the template sees the element type only through `compareItems`.

- Laws that hold for every `less` (insertion of a stored value is a no-op, removal undoes insertion, and so on) are stated generically.
- The ordering invariant and the content laws are proved for `int` payloads. That is also the instantiation the serialiser supports.
- Record payloads are handled in `Records`.

Modules, following the structure of `BinaryTree.h`:

- `Trees`: the node algebra, with count, height, payload set and multiset, the pre-order list of subtrees, and deep copy.
- `Traversal`: the six fixed K/L/P orders, the in/pre/post-order aliases, the format-driven traversal, `size` and `isEmpty`.
- `Search`: `compareItems`, `insertNode`, `findNode`/`contains`, `findMinNode`, `deleteNode`, and the ordering invariant.
- `Transform`: `mapTree` and `whereTree`.
- `Subtree`: `extractSubtree`/`copySubtree`, `areIdentical`, `isSubtree`/`containsSubtree`.
- `Rebuild`: `balanceTree`/`balance` and `merge`.
- `Serial`: `serializeTree`/`saveToString` and `deserializeTree`/`loadFromString`, over a token stream.
- `Chain`: the callable specialisation.
- `Records`: `PersonID` and `Person` comparisons.
- `Scenarios`: the demonstration runs of `main.cpp`, stated as concrete facts.

## Behaviour worth knowing

Each of these follows the code.

- **The reader ignores where K sits in the format.** `deserializeTree` always reads the key token first. Only the L and P letters then drive the children (BinaryTree.h:255-268).
  - A save/load round trip therefore holds only for key-first formats. The first effective letter must be K, there must be no further K, and both L and P must appear (KLP and KPL, in either case). This is `Serial.KeyFirst`.
  - Other formats do not round-trip. `Serial.InOrderFormatDoesNotRoundTrip` shows LKP turning a saved one-node tree into the empty tree.
- **An exhausted stream reads as an absent node** (BinaryTree.h:255). Every prefix of a serialisation that ends at a token boundary therefore loads (`Serial.PrematureEndParses`).
  - Only a token that `stoi` rejects makes the load fail (BinaryTree.h:259).
- **A failed load leaves the old tree freed.** `loadFromString` deletes the current tree before parsing (BinaryTree.h:503-505). Here `Load` returns either the new tree or `None`. Nothing is claimed about the receiver after a failure (see "Left out").
- **`whereTree` keeps the shape.** A payload that fails the predicate stays in place as a connecting node whenever something below it survives. `Transform.Where` states the result is `t` with only match-free subtrees cut off. `Transform.WhereIsTheOnlyPruning` shows this pins the result down.
- **Balanced height.** The rebuilt tree is as shallow as any tree with the same number of nodes. That minimal height implies the usual ⌈log2(n+1)⌉ bound.

## Model

| member | source | states |
|---|---|---|
| Search.CompareItems | BinaryTree.h:516-520 | The three-way result is -1 exactly when a < b, 1 exactly when b < a and not a < b, and 0 exactly when neither is less. |
| Search.Insert | BinaryTree.h:49-59 | For any ordering, insertion keeps every stored payload, adds nothing but x, and adds at most one node. When not x < x, the lookup walk finds x afterwards. |
| Search.Find | BinaryTree.h:61-72 | A node found by the lookup walk compares equal to the sought value, and holds a stored payload and only stored payloads. |
| Search.Contains | BinaryTree.h:368-370 | A successful lookup means some stored payload compares equal to x under the ordering. |
| Search.ContainsIffStored | BinaryTree.h:61-72 | On an ordered tree, `contains(x)` holds if and only if x is stored in the tree. |
| Search.InsertLaws | BinaryTree.h:49-59 | Insertion keeps the strict ordering invariant and makes the content the old content plus x. The node count grows by one exactly when x was absent. |
| Search.InsertFoundIsNoOp | BinaryTree.h:49-59 | For any ordering, inserting a value the lookup walk already finds returns the identical tree (duplicates are dropped). |
| Search.FindMin | BinaryTree.h:74-81 | The leftmost walk returns a node exactly for a non-empty tree. That node has no left child, holds a stored payload, and is first in the in-order listing. |
| Search.MinIsLeast | BinaryTree.h:74-81 | On an ordered tree the leftmost payload is no greater than any stored payload. |
| Search.Remove | BinaryTree.h:83-108 | For any ordering, deletion stores no new payload and removes at most one node. |
| Search.RemoveLaws | BinaryTree.h:83-108 | Deletion keeps the ordering invariant and makes the content the old content minus x. The node count drops by one exactly when x was stored. |
| Search.RemoveMissingIsNoOp | BinaryTree.h:83-108 | For any ordering, removing a value the lookup walk does not find returns the identical tree. |
| Search.TwoChildRemoval | BinaryTree.h:102-104 | When the matching node has two children, it keeps its left subtree and takes over the least payload of its right subtree. That payload leaves the right subtree. |
| Search.RemoveUndoesInsert | BinaryTree.h:49-108 | For any irreflexive ordering, inserting an absent value and then removing it gives back the original tree. |
| Search.OrderedIffInOrderIncreasing | BinaryTree.h:163-169 | A tree satisfies the ordering invariant if and only if its in-order listing is strictly increasing. |
| Search.SameKeysSameInOrder | BinaryTree.h:163-169 | Two ordered trees holding the same payloads produce the same in-order listing. |
| Traversal.Size | BinaryTree.h:512-514 | `size` (the length of the in-order listing) is the number of nodes. |
| Traversal.KLP | BinaryTree.h:187-193 | The KLP listing has one entry per node. |
| Traversal.KPL | BinaryTree.h:195-201 | The KPL listing has one entry per node. |
| Traversal.LPK | BinaryTree.h:203-209 | The LPK listing has one entry per node. |
| Traversal.LKP | BinaryTree.h:211-217 | The LKP listing has one entry per node. |
| Traversal.PLK | BinaryTree.h:219-225 | The PLK listing has one entry per node. |
| Traversal.PKL | BinaryTree.h:227-233 | The PKL listing has one entry per node. |
| Traversal.InOrder | BinaryTree.h:163-169 | The in-order listing has one entry per node. |
| Traversal.PreOrder | BinaryTree.h:171-177 | The pre-order listing has one entry per node. |
| Traversal.PostOrder | BinaryTree.h:179-185 | The post-order listing has one entry per node. |
| Traversal.Custom | BinaryTree.h:482-494 | Whatever the format, the format-driven traversal lists only payloads stored in the tree. |
| Trees.Copy | BinaryTree.h:39-47 | The deep copy of a tree is equal to the tree: same shape and the same payload at every position. |
| Traversal.IsEmpty | BinaryTree.h:508-510 | `isEmpty` (null root) holds exactly when `size` is 0. |
| Traversal.NamedOrders | BinaryTree.h:163-185 | The in-order, pre-order and post-order traversals list the same sequences as LKP, KLP and LPK. |
| Traversal.FixedOrdersArePermutations | BinaryTree.h:187-233 | Each of the six fixed traversals lists exactly the tree's payloads, with multiplicity. |
| Traversal.BagLKP | BinaryTree.h:211-217 | The LKP traversal lists each payload exactly as often as it is stored in the tree. |
| Traversal.InOrderMembers | BinaryTree.h:211-217 | The in-order listing has one entry per node, and a value occurs in it exactly when it is stored. |
| Traversal.CustomKLP | BinaryTree.h:482-494 | The format traversal driven by K, L, P in any mix of cases lists the KLP order. |
| Traversal.CustomKPL | BinaryTree.h:482-494 | The format traversal driven by K, P, L in any case lists the KPL order. |
| Traversal.CustomLPK | BinaryTree.h:482-494 | The format traversal driven by L, P, K in any case lists the LPK order. |
| Traversal.CustomLKP | BinaryTree.h:482-494 | The format traversal driven by L, K, P in any case lists the LKP order. |
| Traversal.CustomPLK | BinaryTree.h:482-494 | The format traversal driven by P, L, K in any case lists the PLK order. |
| Traversal.CustomPKL | BinaryTree.h:482-494 | The format traversal driven by P, K, L in any case lists the PKL order. |
| Transform.Map | BinaryTree.h:110-118 | The mapped tree has exactly the original's Leaf/Node skeleton and node count. |
| Transform.MapCommutesWithTraversals | BinaryTree.h:110-118 | Every fixed traversal of the mapped tree is the original traversal with the function applied to each element. |
| Transform.MapCommutesWithCustom | BinaryTree.h:110-118 | The same holds for the traversal driven by any format string. |
| Transform.Where | BinaryTree.h:120-141 | The result is the original tree with only match-free subtrees cut off: every kept node stays in place with its payload, and a non-matching node survives whenever something below it does. It is empty exactly when no stored payload matches, and every kept node matches or has a non-empty child. |
| Transform.WhereIsTheOnlyPruning | BinaryTree.h:120-141 | Any tree that prunes only match-free subtrees and keeps no dead-end non-matching node is the `whereTree` result. |
| Transform.WhereKeepsMatchesInOrder | BinaryTree.h:120-141 | The filtered tree's in-order listing is a subsequence of the original's and contains every matching payload, in the original order. |
| Subtree.CopyFound | BinaryTree.h:276-300 | The copy made of the found node, with its children built explicitly and its grandchildren copied through `copySubtree`, equals the original subtree. |
| Subtree.Extract | BinaryTree.h:273-307 | The result is empty exactly when the value is not stored; otherwise it is rooted at that value. |
| Subtree.ExtractFindsFirst | BinaryTree.h:273-307 | The extracted tree is the first subtree headed by the value in root-left-right order. |
| Subtree.AreIdentical | BinaryTree.h:154-161 | Two trees are identical exactly when they have the same shape and equal payloads at every position. |
| Subtree.IsSubtree | BinaryTree.h:143-152 | The search succeeds exactly when the candidate is empty or equals the subtree rooted at some node of the host. |
| Subtree.ContainsSubtree | BinaryTree.h:388-393 | An empty candidate is always contained, and an empty host contains no non-empty candidate. Otherwise containment means the candidate equals some subtree of the host. |
| Subtree.ContainsWhatItExtracts | BinaryTree.h:388-399 | A tree contains whatever it extracts, for every value. |
| Rebuild.BalanceRange | BinaryTree.h:319-329 | Rebuilding from an inclusive index range lists that slice in order and has one node per index. At every node the right subtree has as many nodes as the left or one more. |
| Rebuild.Balance | BinaryTree.h:414-420 | Balancing keeps the in-order listing and yields a size-balanced tree. |
| Rebuild.BalanceKeepsOrdering | BinaryTree.h:414-420 | Balancing an ordered tree gives an ordered tree with the same payloads. |
| Rebuild.BalanceHeightIsMinimal | BinaryTree.h:414-420 | The balanced tree is no taller than any tree with the same number of nodes. |
| Rebuild.InsertAll | BinaryTree.h:407-409 | For any ordering, the insertion loop keeps every stored payload, adds only values from the sequence, and adds at most one node per value. |
| Rebuild.Merge | BinaryTree.h:401-412 | For any ordering, the merged tree keeps every payload of this tree, holds only payloads of the two trees, and has at most as many nodes as the two together. |
| Rebuild.InsertAllLaws | BinaryTree.h:407-409 | Inserting a sequence one value at a time keeps the ordering invariant and adds exactly the sequence's values. |
| Rebuild.MergeIsUnion | BinaryTree.h:401-412 | Merging into an ordered tree gives an ordered tree whose content is the union of both trees' payloads. |
| Serial.Serialize | BinaryTree.h:235-251 | A serialisation contains only keys and `null` markers, never a token the reader would reject. |
| Serial.Save | BinaryTree.h:496-500 | The saved stream holds no token the reader rejects, and its keys are, in order, the same format's custom traversal. |
| Serial.SerializedKeysFollowTraversal | BinaryTree.h:235-251 | The keys a serialisation writes are, in order, exactly the same format's custom traversal. |
| Serial.Deserialize | BinaryTree.h:253-271 | The reader consumes a prefix of the stream and leaves the rest. It fails only if the stream holds a token `stoi` rejects. |
| Serial.ReadChildren | BinaryTree.h:261-268 | The reader's format loop after the key consumes a prefix of the stream. It fails only if the stream holds a token `stoi` rejects. |
| Serial.ReadBack | BinaryTree.h:235-268 | Once the key has been read, the reader's format loop over a node's serialised children rebuilds exactly the children that the format writes and stops right after them. |
| Serial.ReaderOutcomes | BinaryTree.h:255-259 | An exhausted stream loads as the empty tree. A rejected key token makes the load fail, whatever follows it. |
| Serial.PrematureEndParses | BinaryTree.h:255 | Every prefix of a serialisation that ends at a token boundary is read without failure. |
| Serial.Load | BinaryTree.h:502-506 | A load fails only if the stream holds a token `stoi` rejects. |
| Serial.RoundTrip | BinaryTree.h:235-271 | For a key-first format, reading a serialisation followed by any tokens rebuilds the tree and leaves exactly those tokens. |
| Serial.WriterReachesKeyFirst | BinaryTree.h:241-244 | When the first recognised letter of a format is K, the writer emits the node's key before anything else. Letters other than K, L and P are skipped. |
| Serial.LoadUndoesSave | BinaryTree.h:496-506 | For a key-first format, loading what was saved gives back the tree. |
| Serial.InOrderFormatDoesNotRoundTrip | BinaryTree.h:253-271 | With the LKP format a saved one-node tree loads back as the empty tree. |
| Chain.InsertRight | BinaryTree.h:558-563 | Insertion always going right appends the entry to the in-order listing and adds one node. |
| Chain.Insert | BinaryTree.h:558-563 | The new node receives the current counter value, the counter advances by one, and the entry is appended to the in-order listing. |
| Chain.InOrderData | BinaryTree.h:565-571 | The listing has one callable per node, and its i-th entry is the callable of the i-th node in order. |
| Chain.Size | BinaryTree.h:622-626 | The specialisation's `size` is the number of nodes. |
| Chain.IsEmpty | BinaryTree.h:618-620 | `isEmpty` holds exactly when `size` is 0. |
| Chain.InsertAppends | BinaryTree.h:608-616 | Insertion keeps the right-leaning shape and the increasing ids below the counter. It appends the callable to the in-order listing and grows the size by one. |
| Chain.InOrderIsInsertionOrder | BinaryTree.h:558-571 | After any run of insertions, the in-order listing is the old listing followed by the inserted callables in insertion order. |
| Chain.FromEmpty | BinaryTree.h:574-616 | Starting from an empty tree, the in-order listing is exactly the insertion sequence. |
| Records.IdOrderIsStrict | DataTypes.h:33-38 | `PersonID::operator<` (series first, then number) is irreflexive and transitive. |
| Records.IdTrichotomy | DataTypes.h:25-38 | For two ids exactly one of `<`, `==`, `>` holds, and `==` is value equality. So `compareItems` on ids is 0 exactly for equal ids. |
| Records.DerivedOperators | DataTypes.h:29-42 | For ids and for records, `>` is the converse of `<` and `!=` the negation of `==`. |
| Records.OnlyIdMatters | DataTypes.h:77-91 | Record comparisons depend on the id alone, so `compareItems` on records is 0 exactly for equal ids. |
| Records.FindByIdOnly | DataTypes.h:77-91 | The lookup walk for a record ends where the walk for any record with the same id ends. |
| Records.SameIdInsertIsNoOp | BinaryTree.h:52-56 | Inserting a record whose id is already stored leaves the tree unchanged, even if its names or dates differ. |
| Scenarios.DemoTraversals | main.cpp:291-333 | Inserting 5, 3, 7, 2, 4, 6, 8 gives pre-order [5,3,2,4,7,6,8] and in-order [2..8]. |
| Scenarios.DemoCustom | main.cpp:329-333 | On the same tree, the format "pKl" lists [8..2], the PKL order the demonstration prints. |
| Scenarios.DoubleDemo | main.cpp:336-341 | Doubling the demonstration tree doubles its in-order listing. |
| Scenarios.EvenFilterDemo | main.cpp:343-348 | Filtering the demonstration tree for even payloads keeps the odd ancestors 3, 5 and 7 as connective nodes. |
| Scenarios.ExtractDemo | main.cpp:349-358 | Extracting at 3 yields the subtree 3(2,4), which the tree contains. Extracting at an absent 9 yields the empty tree. |
| Scenarios.SaveDemo | main.cpp:359-361 | The KLP serialisation of the demonstration tree is 5,3,2,null,null,4,null,null,7,6,null,null,8,null,null. |
| Scenarios.LoadDemo | main.cpp:362-370 | Loading that serialisation gives back the demonstration tree. |
| Scenarios.MergeDemo | main.cpp:371-383 | Merging the tree built from 10, 20, 30 gives the in-order listing [2..8, 10, 20, 30]. |
| Scenarios.BalanceDemo | main.cpp:384-404 | Inserting 1..5 gives a right chain with pre-order [1..5]. After balancing, the pre-order is [3,1,2,4,5]. |
| Scenarios.ShortStreamDemo | BinaryTree.h:255 | A stream cut short after the keys 5 and 3 loads as 5 with left child 3. |

## Left out

- `main.cpp` and `main.py`: the console menus, the timing and CSV benchmark harness, random value generation and the plotting script. They are input/output and measurement, not tree logic. Only the demonstration's inputs appear, in `Scenarios`.
- The `std::complex` specialisation (BinaryTree.h:629-746): it orders by floating-point components, and its lexicographic comparison adds nothing beyond `PersonID`'s.
- The text layer of serialisation: splitting at commas, `std::to_string` and `std::stoi` are abstracted into the token stream. `Num(k)` is a piece `stoi` reads as k, and `Malformed` is one it rejects. For non-`int` payloads, `stoi` truncates (for example, `double`), so no round trip exists; only `int` payloads are modelled.
- Raw-pointer lifecycle: `deleteTree`, the destructor, and copy/move construction and assignment. Every tree here is an immutable value, so a copy is the value itself and merge's receiver is never changed.
- Serial.Load: does not model the receiver's state after a failed `loadFromString`. The C++ code frees the old tree first and leaves the root dangling when `stoi` throws; the model only says whether a new tree or a failure results.
- Integer widths: `int` keys are unbounded. So `stoi` range errors do not arise, and neither does an overflow of `int` when a mapping function such as `x * 2` is applied to large keys. The callable specialisation's `size_t` id counter never wraps here. In `balance`, `size() - 1` on an empty tree wraps as `size_t` and converts back to `int` -1; the model writes this as the empty range [0, -1].
- `Person`'s non-id fields and the `Student`/`Teacher` subclasses: names, `time_t` birth date, group, grades, department, and `operator<<` formatting. They take no part in any comparison.
- Payload equality in `extractSubtree` and `areIdentical` is Dafny's value equality. For `Person` payloads the C++ `==` compares ids only; that instantiation is not modelled.
- `Sequences.h` is not part of this model: it is included by BinaryTree.h:14 but nothing in the tree uses it.
- Stack depth: the C++ recursion depth is bounded by tree height, and the model's recursion has no such limit.
