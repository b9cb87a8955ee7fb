# A verified model of Richard-de-Jesus/algorithms

This project models, in Dafny, the five library crates of the repository:

- **the bounded stack and the notation converters** (`data-structures/stack`).
  A LIFO stack of fixed capacity reports `Fail::Full` and `Fail::Empty`
  explicitly. On top of it, `_in_to_post` turns infix into postfix with a
  shunting-yard scan ranked by `order`, and `_post_to_in` turns postfix back
  into fully bracketed infix with a reduce-as-you-go stack machine;
- **the six sorts** (`sorting`): selection, bubble, insertion, merge, quick
  (Hoare partition around the last entry) and heap sort;
- **the Caesar and Vigenère ciphers** (`cryptography`) over ASCII text;
- **the association-list map** (`data-structures/map`): parallel key and
  value vectors, a length counter, and `MapError` results;
- **the binary tree** (`data-structures/binary_tree`). `insert` fills the
  tree breadth-first while `find` searches as if it were a search tree.
  The tree also has four traversals, `depth`, a subtree-cutting `delete`,
  and the `node!` macro.

Rust methods that mutate `self` become functions that return the new
value. An `Err` or `None` result means the caller's value is unchanged.
The in-place sorts become methods that take a slice's contents and return
the rearranged contents; each one updates a local sequence exactly where
the Rust code writes. Rust's `?` is Dafny's `:-` over the `Wrappers`
datatypes. A call the source `unwrap`s is a precondition.

Modules, in dependency order:

- `Wrappers` (`Option`, `Result`) and `Sequences` (`Distinct`);
- `BoundedStack`;
- `Notation`, which holds the two converters;
- `NotationProperties`: what the converters do on any input — operands,
  characters kept, exactly when they fail;
- `Expressions`: on the spellings of an expression tree, the two
  converters undo each other;
- `Sorting`, `Cipher`, `AssocList` and `BinaryTree`.

Three behaviours of the code worth knowing:

- An unmatched `(` is not a failure of `_in_to_post`. The final drain
  copies it into the output (`UnmatchedOpenScenario`).
- `_post_to_in` does not skip spaces. Every character that is not a letter
  or digit, a space included, is applied as an operator.
- `_post_to_in` ignores values left below the top of the stack
  (`PostToInResidue`).

## Model

| member | source | states |
|---|---|---|
| BoundedStack.New | data-structures/stack/src/lib.rs:14-21 | a new stack is valid and empty (top is -1, no elements), with the requested capacity |
| BoundedStack.FullEmptyBySize | data-structures/stack/src/lib.rs:23-29 | on a valid stack, `is_full` holds exactly when it holds `capacity` items and `is_empty` exactly when it holds none |
| BoundedStack.Push | data-structures/stack/src/lib.rs:31-40 | refused with `Full` exactly when the stack is at capacity; otherwise the item is appended, the stack stays valid and the capacity is kept |
| BoundedStack.Pop | data-structures/stack/src/lib.rs:42-50 | refused with `Empty` exactly when the stack is empty; otherwise exactly the last element is removed and validity is kept |
| BoundedStack.Top | data-structures/stack/src/lib.rs:51-57 | `Empty` exactly on an empty stack; otherwise the last element pushed |
| BoundedStack.PushAll | data-structures/stack/src/lib.rs:63-65 | pushing the items one by one appends all of them in order |
| BoundedStack.From | data-structures/stack/src/lib.rs:59-67 | the stack holds exactly the given items, the last one on top |
| BoundedStack.PushThenPop | data-structures/stack/src/lib.rs:31-57 | LIFO: below capacity, a push succeeds, `top` then returns the pushed item, and a pop restores the original stack |
| BoundedStack.FailuresLeaveStack | data-structures/stack/src/lib.rs:31-57 | a push on a full stack is `Err(Full)`, and a pop or top on an empty stack is `Err(Empty)` |
| BoundedStack.CapacityOneScenario | data-structures/stack/src/lib.rs:168-185 | with capacity 1 the first push succeeds, the second is refused with `Full`, the first pop succeeds and the second is refused with `Empty` |
| BoundedStack.FromScenario | data-structures/stack/src/lib.rs:155-167 | `from([5, 7, 11], 42)` shows 11 on top and 7 after one pop; `from(['a', 'w'], 10)` shows 'w' |
| Notation.Order | data-structures/stack/src/lib.rs:73-80 | `^` ranks 3, `*` and `/` rank 2, `+` and `-` rank 1, every other character -1 |
| Notation.StackToOutput | data-structures/stack/src/lib.rs:81-86 | fails with `Empty` exactly on an empty stack; otherwise it moves the top element to the end of the output |
| Notation.CloseParen | data-structures/stack/src/lib.rs:96-99 | the `)` loop fails with `Empty` exactly when no `(` is on the stack; otherwise it stops at the most recent `(` and emits the operators above it in LIFO order |
| Notation.PopWhile | data-structures/stack/src/lib.rs:104-107 | the operator loop never fails; it emits exactly the stack tops ranked at least as high as the operator, and leaves a top that ranks lower |
| Notation.Drain | data-structures/stack/src/lib.rs:113-115 | the final loop appends the whole stack to the output in reverse, unmatched `(` included |
| Notation.StepIn | data-structures/stack/src/lib.rs:92-111 | one character of the scan keeps the stack valid and grows it by at most one; below capacity it can fail only with `Empty` |
| Notation.ScanIn | data-structures/stack/src/lib.rs:92-116 | while the stack and the unread input fit the capacity, the scan can fail only with `Empty` |
| Notation.TryInToPost | data-structures/stack/src/lib.rs:88-117 | `_in_to_post` never reports `Full` |
| Notation.Combine | data-structures/stack/src/lib.rs:132-139 | fails with `Empty` exactly when fewer than two values are stacked; otherwise it replaces top `a` and next `b` by `(b ch a)` |
| Notation.ScanPost | data-structures/stack/src/lib.rs:127-144 | while the stack and the unread input fit the capacity, the scan can fail only with `Empty` |
| Notation.TryPostToIn | data-structures/stack/src/lib.rs:124-145 | `_post_to_in` never reports `Full` |
| NotationProperties.ScanInOperands | data-structures/stack/src/lib.rs:92-94 | a successful scan appends exactly the unread input's letters and digits, in order, to those of the output |
| NotationProperties.ScanInContent | data-structures/stack/src/lib.rs:92-115 | nothing is lost or invented: the output plus the dropped characters (spaces, `)`, one `(` per `)`) equals the earlier output, stack and unread input |
| NotationProperties.StepInFailure | data-structures/stack/src/lib.rs:92-110 | over the infix alphabet `InInfixAlphabet` (letters, digits, brackets, space and the five operators `order` ranks), one step fails exactly on a `)` with no `(` stacked; otherwise a `(` adds one stacked `(`, a `)` removes one, and every other character leaves their number alone |
| NotationProperties.ScanInFailure | data-structures/stack/src/lib.rs:92-116 | over the infix alphabet `InInfixAlphabet`, the scan fails exactly when some prefix of the input closes more brackets than are open |
| NotationProperties.InToPostFailure | data-structures/stack/src/lib.rs:88-117 | `_in_to_post` fails, always with `Empty`, exactly when some prefix has more `)` than `(`; an unmatched `(` is no error |
| NotationProperties.InToPostOutput | data-structures/stack/src/lib.rs:88-117 | on success the output lists the input's letters and digits in order, holds no space or `)`, one `(` per unmatched `(`, and every other character as often as the input |
| NotationProperties.InToPost | data-structures/stack/src/lib.rs:120-122 | `in_to_post` is `_in_to_post` unwrapped, with the same guarantees on operands, spaces and `)` |
| NotationProperties.ScanPostFailure | data-structures/stack/src/lib.rs:127-144 | the postfix scan fails exactly when an operator finds fewer than two values stacked, or nothing is left at the end |
| NotationProperties.PostToInFailure | data-structures/stack/src/lib.rs:124-145 | `_post_to_in` fails, always with `Empty`, exactly when the input runs short of operands or leaves no value (the empty input included) |
| NotationProperties.ScanPostNonEmpty | data-structures/stack/src/lib.rs:127-144 | every value the postfix scan stacks is non-empty, so a result is too |
| NotationProperties.PostToIn | data-structures/stack/src/lib.rs:147-149 | `post_to_in` is `_post_to_in` unwrapped and returns a non-empty string |
| Expressions.Bracketed | data-structures/stack/src/lib.rs:138 | the fully bracketed tree has the `Infix` spelling as its text, keeps the postfix spelling, and is readable when well formed |
| Expressions.PostfixScan | data-structures/stack/src/lib.rs:127-142 | reading the postfix spelling of an expression pushes exactly its bracketed infix spelling, whatever follows |
| Expressions.PostToInOfPostfix | data-structures/stack/src/lib.rs:124-145 | `_post_to_in` turns the postfix spelling of a well-formed expression into its bracketed infix spelling |
| Expressions.PostToInResidue | data-structures/stack/src/lib.rs:144 | two complete postfix expressions in a row are not refused: only the second is returned |
| Expressions.OperatorStep | data-structures/stack/src/lib.rs:103-109 | an operator pops exactly the pending operators that bind at least as tightly (equal rank included, so `^` too groups left), then is pushed |
| Expressions.CloseStep | data-structures/stack/src/lib.rs:96-101 | a `)` emits the operators above the most recent `(` in LIFO order and drops that `(` |
| Expressions.TextScan | data-structures/stack/src/lib.rs:92-111 | reading the text of a readable expression leaves the stack below untouched, emits everything but the pending operators, and leaves those pending |
| Expressions.InToPostOfText | data-structures/stack/src/lib.rs:88-117 | `_in_to_post` turns the text of any readable expression, under the usual precedences and left grouping, into its postfix spelling |
| Expressions.RoundTrips | data-structures/stack/src/lib.rs:88-145 | on every well-formed expression the two converters undo each other, starting from either the bracketed infix or the postfix spelling |
| Expressions.TestScenario | data-structures/stack/src/lib.rs:187-195 | `"a+b*(c^d-e)^(f+g*h)-i"` converts to `"abcd^e-fgh*+^*+i-"`, which converts to `"((a+(b*(((c^d)-e)^(f+(g*h)))))-i)"` |
| Expressions.PrecedenceScenario | data-structures/stack/src/lib.rs:103-109 | `*` binds tighter than `+`: `"a+b*c"` gives `"abc*+"`, which reads back as `"(a+(b*c))"` |
| Expressions.BracketScenario | data-structures/stack/src/lib.rs:95-101 | brackets override precedence: `"(a+b)*c"` gives `"ab+c*"` |
| Expressions.LeftGroupingScenario | data-structures/stack/src/lib.rs:105 | equal ranks group left, `^` included: `"a-b-c"` gives `"ab-c-"` and `"a^b^c"` gives `"ab^c^"` |
| Expressions.ErrorScenarios | data-structures/stack/src/lib.rs:97-144 | a stray `)`, a missing operand and the empty postfix input fail with `Empty`; `"ab"` yields `"b"` |
| Expressions.UnmatchedOpenScenario | data-structures/stack/src/lib.rs:113-115 | `"(a"` is not refused: the final drain emits the `(`, giving `"a("` |
| Expressions.SpacesScenario | data-structures/stack/src/lib.rs:102 | spaces are skipped: `"a + b"` gives `"ab+"` |
| Sorting.Swap | sorting/src/lib.rs:21 | `slice::swap` exchanges the two entries and moves nothing else, so it permutes the slice |
| Sorting.SortedUnique | sorting/src/lib.rs:189-212 | two sorted permutations of the same elements are equal, so a sort's output is determined by its input |
| Sorting.SelectionSort | sorting/src/lib.rs:5-23 | the result is a sorted permutation of the input; inputs shorter than 2 are returned unchanged |
| Sorting.BubbleSort | sorting/src/lib.rs:25-44 | the result is a sorted permutation of the input; inputs shorter than 2 are returned unchanged |
| Sorting.BubblePass | sorting/src/lib.rs:32-42 | one pass permutes the slice and settles one more largest entry at the end; a pass without a swap leaves the slice sorted |
| Sorting.InsertionSort | sorting/src/lib.rs:47-63 | the result is a sorted permutation of the input; inputs shorter than 2 are returned unchanged |
| Sorting.Insert | sorting/src/lib.rs:54-61 | with the first `i` entries sorted, one step permutes the slice, sorts the first `i + 1` entries and leaves the rest alone |
| Sorting.InsertedShape | sorting/src/lib.rs:57-61 | storing the key in the gap the shifting left sorts the first `i + 1` entries and permutes the slice |
| Sorting.Merge | sorting/src/lib.rs:65-85 | with both halves sorted, the merge is a sorted permutation of the whole slice |
| Sorting.MergeSort | sorting/src/lib.rs:87-97 | the result is a sorted permutation of the input; inputs shorter than 2 are returned unchanged |
| Sorting.Partition | sorting/src/lib.rs:99-121 | returns `p` in `[low, high]` holding the old last entry, with entries before `p` at most it and entries after at least it; it permutes the range and leaves everything outside it unchanged |
| Sorting.PartitionRound | sorting/src/lib.rs:104-118 | one round of the outer loop permutes the range and either ends with the pivot's place found or narrows the gap between `i` and `j` |
| Sorting.ScanUp | sorting/src/lib.rs:105-108 | `i` stops at the first entry not below the pivot value, and every entry it passed is below it |
| Sorting.ScanDown | sorting/src/lib.rs:109-112 | `j` stops at the first entry not above the pivot value, or at -1, and every entry it passed is above it |
| Sorting.QuickSortRange | sorting/src/lib.rs:123-130 | `_quick_sort` sorts the entries from `low` to `high`, permutes them among themselves, and leaves the others unchanged |
| Sorting.QuickSort | sorting/src/lib.rs:133-139 | the result is a sorted permutation of the input; inputs shorter than 2 are returned unchanged |
| Sorting.Heapify | sorting/src/lib.rs:141-161 | if the heap within the first `n` entries is broken only at `i`, sifting down repairs it; it permutes the slice and moves only entries `i` to `n - 1` |
| Sorting.SiftStep | sorting/src/lib.rs:148-159 | after the swap with the larger child, only the child's place can break the heap |
| Sorting.HeapTop | sorting/src/lib.rs:178 | the root of a heap is its largest entry |
| Sorting.SortStep | sorting/src/lib.rs:177-181 | swapping the root behind the heap and sifting down keeps a heap one entry shorter, with a sorted suffix bounding everything before it |
| Sorting.HeapSort | sorting/src/lib.rs:164-182 | the result is a sorted permutation of the input; inputs shorter than 2 are returned unchanged |
| Sorting.BasicsScenario | sorting/src/lib.rs:188-213 | each of the six sorts turns `[11, 7, 3, 5, 2]` into `[2, 3, 5, 7, 11]` |
| Cipher.ShiftUp | cryptography/src/lib.rs:39-54 | the encrypting byte step rotates a letter forward by the shift within its own case and leaves every other byte unchanged |
| Cipher.ShiftDown | cryptography/src/lib.rs:74-89 | the decrypting byte step rotates a letter backward by the shift within its own case and leaves every other byte unchanged |
| Cipher.ShiftInverse | cryptography/src/lib.rs:39-89 | the two byte steps undo each other and keep whether a byte is a letter |
| Cipher.KeyShift | cryptography/src/lib.rs:10-19 | a key character becomes its place in the alphabet, case-insensitively, or 0 if it is not a letter |
| Cipher.VigenereAux | cryptography/src/lib.rs:4-22 | `None` exactly when the key or the text is not ASCII; otherwise one shift per key character |
| Cipher.EncodeFrom | cryptography/src/lib.rs:31-56 | the encrypt loop, from any key position, produces one ASCII byte per text byte; what each byte becomes is stated by `EncodeAt` |
| Cipher.DecodeFrom | cryptography/src/lib.rs:66-91 | the decrypt loop, from any key position, produces one ASCII byte per text byte; what each byte becomes is stated by `DecodeAt` |
| Cipher.EncodeAt | cryptography/src/lib.rs:31-56 | byte `i` of the output is byte `i` of the text rotated by the key character chosen by the letters before it, cycling through the key |
| Cipher.DecodeAt | cryptography/src/lib.rs:66-91 | byte `i` of the decryption, rotated forward by the key character chosen by the letters before it, gives byte `i` of the input |
| Cipher.DecodeEncode | cryptography/src/lib.rs:31-91 | decrypting from the same key position undoes encrypting |
| Cipher.VigenereEncrypt | cryptography/src/lib.rs:24-58 | `None` exactly when the key or the text is not ASCII; otherwise an ASCII string of the same length, each byte rotated by the key letter its letter count selects |
| Cipher.VigenereDecrypt | cryptography/src/lib.rs:60-93 | `None` in the same cases; otherwise each byte rotated back by the key letter its letter count selects |
| Cipher.VigenereRoundTrip | cryptography/src/lib.rs:24-93 | decrypting with the key used to encrypt gives back the text |
| Cipher.EndPosLetters | cryptography/src/lib.rs:35-51 | after a text, the key position is the start advanced by the number of letters, cycling through the key |
| Cipher.EncodeSplit | cryptography/src/lib.rs:31-56 | encrypting a concatenation encrypts the second part from the key position the first part leaves |
| Cipher.VigenereAppend | cryptography/src/lib.rs:31-56 | once the first part's letters have used the key a whole number of times, the second part is encrypted as if on its own |
| Cipher.CaesarEncrypt | cryptography/src/lib.rs:95-125 | `None` exactly when the text is not ASCII or the key exceeds 25; otherwise an ASCII string of the same length with every letter rotated forward by the key within its case and every other byte kept |
| Cipher.CaesarDecrypt | cryptography/src/lib.rs:127-157 | `None` in the same cases; otherwise every letter rotated backward by the key and every other byte kept |
| Cipher.CaesarRoundTrip | cryptography/src/lib.rs:95-157 | decrypting with the key used to encrypt gives back the text |
| Cipher.CaesarDecryptDebug | cryptography/src/lib.rs:136-155 | as a debug build runs it, decryption panics exactly when a byte's code is below the key; otherwise it agrees with `CaesarDecrypt` |
| Cipher.DecryptUnderflow | cryptography/src/lib.rs:138 | the NUL byte survives encryption with key 1, but decrypting it panics in a debug build |
| Cipher.CaesarScenario | cryptography/src/lib.rs:163-175 | `"abc ABC, xyz XYZ 01"` with key 1 encrypts to `"bcd BCD, yza YZA 01"`, which decrypts back |
| Cipher.VigenereScenario | cryptography/src/lib.rs:176-188 | `"abc ABC, xyz XYZ 01"` with key `"cipher"` encrypts to `"cjr HFT, zgo ECQ 01"`, which decrypts back |
| AssocList.FindValue | data-structures/map/src/lib.rs:60-63 | `None` exactly when the key is absent; otherwise the position of its first occurrence |
| AssocList.FindDistinct | data-structures/map/src/lib.rs:60-63 | without repeated keys, the position found is the only one holding the key |
| AssocList.New | data-structures/map/src/lib.rs:19-23 | a valid map that stands for exactly the one pair |
| AssocList.Insert | data-structures/map/src/lib.rs:25-38 | refused with `RepeatedKey` exactly when the key is present; otherwise the pair is appended to both vectors and the counter goes up by one |
| AssocList.InsertRefines | data-structures/map/src/lib.rs:25-38 | a fresh key's insert adds the pair to the map the list stands for |
| AssocList.Delete | data-structures/map/src/lib.rs:66-79 | refused with `NoKey` exactly when the key is absent; otherwise that one pair is removed from both vectors, the others keep their order, and the counter goes down by one |
| AssocList.DeleteKeeps | data-structures/map/src/lib.rs:66-79 | every pair left by a delete was in the map before, under another key |
| AssocList.DeleteCovers | data-structures/map/src/lib.rs:66-79 | every other key survives a delete |
| AssocList.DeleteRefines | data-structures/map/src/lib.rs:66-79 | a delete removes the key from the map the list stands for |
| AssocList.GetValue | data-structures/map/src/lib.rs:89-97 | `None` exactly when the key is absent; otherwise the value stored beside it |
| AssocList.GetValueRefines | data-structures/map/src/lib.rs:89-97 | lookup agrees with the map the list stands for |
| AssocList.LenCountsPairs | data-structures/map/src/lib.rs:81-101 | on a valid map, `len` equals the number of keys, of values and of distinct pairs |
| AssocList.From | data-structures/map/src/lib.rs:42-58 | `DifferentLenght` exactly when the lengths differ; otherwise a valid map holding exactly the given keys, each mapped to the value paired with its first occurrence (a repeated second key is dropped, as the ignored `insert` result drops it) |
| AssocList.BasicsScenario | data-structures/map/src/lib.rs:109-123 | two inserts and a delete succeed; then "foo" is absent, "one" maps to 1, re-inserting "one" gives `RepeatedKey` and deleting "xyz" gives `NoKey` |
| BinaryTree.New | data-structures/binary_tree/src/lib.rs:12-18 | a single node holding the value and nothing else |
| BinaryTree.Find | data-structures/binary_tree/src/lib.rs:55-64 | returns only `Some(x)` or `None`, and `Some(x)` only when `x` is in the tree |
| BinaryTree.FindSearchTree | data-structures/binary_tree/src/lib.rs:55-64 | on a search tree, `find` succeeds exactly when the value is present |
| BinaryTree.FindMisses | data-structures/binary_tree/src/lib.rs:55-64 | on `node!(1, 2, 3, 4, 5)`, `find(2)` misses the 2 that is there, so `insert(2)` adds a second one |
| BinaryTree.Slot | data-structures/binary_tree/src/lib.rs:25-53 | the breadth-first search always finds a free child position under an existing node |
| BinaryTree.GraftLabel | data-structures/binary_tree/src/lib.rs:39-49 | hanging the new node at a free position fills it and changes no other position |
| BinaryTree.Insert | data-structures/binary_tree/src/lib.rs:20-54 | nothing changes when `find` reports the value; otherwise exactly one copy of the value is added |
| BinaryTree.InsertAddsLeaf | data-structures/binary_tree/src/lib.rs:20-54 | an insert that goes ahead fills one free position with the value and leaves every other position as it was |
| BinaryTree.InsertPlace | data-structures/binary_tree/src/lib.rs:20-53 | on a complete tree of `n` nodes, a value that `find` misses goes to level-order position `n`, whether or not it is already elsewhere in the tree |
| BinaryTree.InsertComplete | data-structures/binary_tree/src/lib.rs:20-54 | on a complete tree, inserting a value that `find` misses keeps the tree complete and only adds position `n` |
| BinaryTree.FindMissesPlace | data-structures/binary_tree/src/lib.rs:20-64 | the second 2 inserted into `node!(1, 2, 3, 4, 5)` goes to level-order position 5 |
| BinaryTree.Fold | data-structures/binary_tree/src/lib.rs:163-165 | inserting values one by one keeps every existing value, ends with every given value in the tree, and adds at most one copy of each given value |
| BinaryTree.Build | data-structures/binary_tree/src/lib.rs:152-169 | `node!` holds every value given to it, and no value more often than it was given |
| BinaryTree.FoldSnoc | data-structures/binary_tree/src/lib.rs:160-165 | `node!` with one more value is one more `insert` |
| BinaryTree.BuildLevels | data-structures/binary_tree/src/lib.rs:152-169 | `node!` of distinct values holds exactly them, as a complete tree in level order |
| BinaryTree.BuildIsHeap | data-structures/binary_tree/src/lib.rs:152-169 | `node!` of distinct values is their array layout, children of position `k` at `2k+1` and `2k+2` |
| BinaryTree.Inorder | data-structures/binary_tree/src/lib.rs:73-78 | lists every node's data exactly once |
| BinaryTree.InorderSearchTree | data-structures/binary_tree/src/lib.rs:73-78 | a tree is a search tree exactly when its in-order listing is strictly increasing |
| BinaryTree.Preorder | data-structures/binary_tree/src/lib.rs:80-85 | lists every node's data exactly once, the root first |
| BinaryTree.Postorder | data-structures/binary_tree/src/lib.rs:87-92 | lists every node's data exactly once, the root last |
| BinaryTree.LevelFrom | data-structures/binary_tree/src/lib.rs:99-110 | the queue loop lists exactly the data of the queued trees |
| BinaryTree.LevelOrder | data-structures/binary_tree/src/lib.rs:94-111 | lists every node's data exactly once, the root first |
| BinaryTree.LevelOrderComplete | data-structures/binary_tree/src/lib.rs:94-111 | on a complete tree, `levelorder` lists the level-order positions in order |
| BinaryTree.LevelOrderBuild | data-structures/binary_tree/src/lib.rs:94-111 | `levelorder` of `node!` of distinct values gives them back in the order given |
| BinaryTree.Depth | data-structures/binary_tree/src/lib.rs:112-131 | `depth` is at least 1 |
| BinaryTree.DepthIsHeight | data-structures/binary_tree/src/lib.rs:112-131 | `depth` is the number of nodes on the longest route down |
| BinaryTree.BelowHeight | data-structures/binary_tree/src/lib.rs:112-131 | no node lies deeper than the height |
| BinaryTree.ReachesHeight | data-structures/binary_tree/src/lib.rs:112-131 | some node lies at exactly the height's last level |
| BinaryTree.Delete | data-structures/binary_tree/src/lib.rs:132-150 | `true` with the tree unchanged exactly when the root holds the value; otherwise the root stays, the value is gone, and nothing is added |
| BinaryTree.Prune | data-structures/binary_tree/src/lib.rs:138-148 | a child whose root holds the value is cut off; any other keeps its root and loses every copy of the value |
| BinaryTree.DeleteLabel | data-structures/binary_tree/src/lib.rs:132-150 | after `delete` returns `false`, a route still leads to its old data exactly when no node along it holds the value, and to nothing otherwise |
| BinaryTree.TraversalScenario | data-structures/binary_tree/src/lib.rs:194-215 | `node!(1, ..., 7)` gives in-order `[4,2,5,1,6,3,7]`, pre-order `[1,2,4,5,3,6,7]`, post-order `[4,5,2,6,7,3,1]`, level order `[1..7]` and depth 3 |
| BinaryTree.BasicsScenario | data-structures/binary_tree/src/lib.rs:175-193 | on `node!(1, ..., 5)` 3 is found and 42 is not; on the `char` tree 'b' is found; after `delete(3)`, 3 is gone |
| BinaryTree.MacroScenario | data-structures/binary_tree/src/lib.rs:216-227 | `new(1)` with inserts of 2 and 3 equals `node!(1, 2, 3)`, whose depth is 2 |

## Left out

- Output and test plumbing: the `println!` in the tree test, and the unsafe raw-pointer closure that runs every sort in the sorting test. `Sorting.BasicsScenario` calls each sort on a fresh copy instead.
- Element types: the sorts and the tree are modelled over `int`, and the `char` tree of the tests by code points. The float, bool and `&str` instantiations are not modelled. Neither is the `None` branch of `partial_cmp`, which only incomparable floats reach.
- The sorts are total orders here, so the `PartialOrd` comparisons need no special case.
- Integer widths: the `i32` `top` and `depth`, the `isize` indices of the sorts and `usize` lengths are unbounded integers. None of them comes near its limit on inputs that fit in memory.
- BoundedStack.From: more items than the capacity make every later `push(..).unwrap()` panic; that case is a precondition.
- `Vec::with_capacity` and the capacity of Rust strings are not modelled; only the stack's own `capacity` field is.
- Notation.TryInToPost, Notation.TryPostToIn: characters are taken one by one as Dafny `char`s, and the capacities `arg.len()` and `arg.len() * 2` are counted in characters, where the source counts UTF-8 bytes. On non-ASCII input the model's capacity is smaller than the source's. This never changes a result: the stack never holds more entries than the characters read so far, and both converters are proved never to report `Full` at the character-count capacity.
- NotationProperties.InToPostFailure: the exact failure condition is proved over the infix alphabet `InInfixAlphabet` (letters, digits, brackets, space and the five operators `order` ranks). Other characters rank -1, so they pop every stacked entry, `(` included; for them only "never `Full`" is proved.
- Cipher.VigenereEncrypt: with an empty key and non-empty ASCII text the source indexes `key[0]` of an empty vector and panics. That case is a precondition.
- Cipher.VigenereDecrypt: the same empty-key precondition. Line 74 computes `ch - key[j]` in `u8`. A non-letter below the shift panics there in a debug build and wraps back in a release build; the model gives the release result. The Caesar form of this is under Findings.
- Cipher.KeyShift: `to_uppercase` through `as_bytes_mut` is modelled as ASCII upper-casing of each key character.
- Cipher.CaesarEncrypt: the key is a `u8`, so keys of 256 and above are excluded by the precondition `key < 256`.
- `u8` arithmetic in general: every intermediate value of the byte steps stays within 0..255 on ASCII input, except for the decrypt underflow listed under Findings.
- AssocList.From: the `swap_remove` loop panics on empty vectors and on three or more pairs, and it drops the results of its `insert` calls. The precondition allows only one or two pairs when the lengths agree; the length check itself is modelled for all inputs.
- `keys()` and `values()` return the stored vectors. They are the fields `keys` and `values` of the datatype and need no function of their own.
- BinaryTree.InsertPlace: the exact breadth-first position is proved for complete trees, which are the trees `node!` of distinct values builds. On other trees `InsertAddsLeaf` proves only that some free position is filled.
- BinaryTree.Build: `node!()` with no arguments panics in `split_first().unwrap()`, so the value list must be non-empty.
- `_aux` is not a separate member: each traversal skips a missing child directly.
- The `Fail` and `MapError` values are returned, never printed; `Debug` and `PartialEq` derivations are Dafny's built-in equality.

## Findings

| source | as written | input that shows it | evidently intended | confidence | as-written member | corrected member |
|---|---|---|---|---|---|---|
| cryptography/src/lib.rs:138 | `value = ch - key` is computed in `u8` before the match, so for a non-letter byte whose code is below the key it underflows. That panics in a debug build; the non-letter arm at line 152 would have added the key back. | `caesar_decrypt("\0", 1)`, which is what `caesar_encrypt("\0", 1)` returns | every non-letter byte is passed through unchanged, so decryption undoes encryption for all ASCII text | not executed | Cipher.DecryptUnderflow | Cipher.CaesarRoundTrip |
