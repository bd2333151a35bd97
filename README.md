# Ordered symbol table on a binary search tree

This project models the binary search tree symbol table `BST<Key, Value>` of
`src/se/kth/BST.java`, and proves properties of the model. The table stores
its entries in nodes that cache their subtree size. It answers lookups and the
ordered queries min, max, select, rank, keys in a range and size of a range.
It deletes by Hibbard deletion. After each mutation it asserts its own
integrity check (symmetric order, consistent subtree counts, consistent ranks).

The Dafny modules:

- `Wrappers` (`wrappers.dfy`): `Option` stands for a nullable value. `Error`
  names the two exceptions the table throws: `IllegalArgument` for
  IllegalArgumentException and `NoSuchElement` for NoSuchElementException.
  `Result` and `Outcome` carry either a result or such an exception.
- `SortedSeqs` (`sorted_seqs.dfy`): reference definitions over key sequences,
  independent of any tree, with their lemmas:
  - `Sorted`: strictly ascending
  - `CountLess`: how many keys are smaller
  - `Range`: the keys in `[lo, hi]`
  - `Remove`: the sequence without `k`
- `Trees` (`trees.dfy`): the node structure as the datatype `Tree`, and the
  source's recursive private helpers as functions on it. Each helper that
  returns a (possibly new) subtree, which its caller rebinds, is a function
  returning the new `Tree`. Three ghost views give the meaning of a tree:
  - `Keys`: its set of keys
  - `InOrder`: its in-order key sequence
  - `Content`: the map it stands for

  The working invariant `Valid` is symmetric order (`SearchTree`) plus
  consistent cached sizes (`IsSizeConsistent`). The source's own bounded check
  `IsBST` is proved equivalent to `SearchTree`.
- `TreeLemmas` (`tree_lemmas.dfy`): what each mutator does to the map and to
  the key sequence, the duality of `Rank` and `Select`, and the range laws
  behind `keys(lo, hi)` and `size(lo, hi)`.
- `SymbolTable` (`bst.dfy`): the class `BST<V>` with the mutable field `root`.
  Its methods follow the public methods of the source.
  - The mutators reassign `root` and state the new `Contents()` and
    `KeySeq()` in terms of the old ones.
  - The queries state their result against `Contents()` and `KeySeq()`.
  - `Check()` holds exactly on valid trees.

Keys are `int`, in place of Java's `Comparable` keys, and `compareTo` is
integer comparison. Values are a type parameter `V`. A Java `null` value is
`None`.

## Model

| member | source | states |
|---|---|---|
| Trees.Size | src/se/kth/BST.java:46-52 | an absent subtree has size 0, otherwise the cached count; SizeCount and SizeIsCardinality prove it is the number of nodes and of entries |
| Trees.IsSizeConsistent | src/se/kth/BST.java:410-414 | every cached size is one more than the sizes of the two children; SizeCount proves this makes each size the number of nodes below |
| Trees.IsBST | src/se/kth/BST.java:398-403 | the bounded symmetric-order check; IsBSTCorrect proves it equivalent to symmetric order with every key strictly between the present bounds |
| TreeLemmas.RankConsistent | src/se/kth/BST.java:418-421 | the conditions the two loops test: rank(select(i)) == i for every i below the size, and select(rank(k)) == k for every key in ascending order; ValidRankConsistent proves they hold on every valid tree |
| Trees.Get | src/se/kth/BST.java:77-92 | binary search returns the value the map holds for the key, or None (null) when the key is absent |
| Trees.MinNode | src/se/kth/BST.java:222-227 | the leftmost node has no left child; its key is the first in-order key and is at most every key; its value is the one mapped to that key |
| Trees.MaxNode | src/se/kth/BST.java:241-246 | the rightmost node has no right child; its key is the last in-order key and is at least every key; its value is the one mapped to that key |
| Trees.Select | src/se/kth/BST.java:266-278 | for 0 <= i < size, descending by the left subtree's size reaches the key at position i of the ascending key sequence |
| Trees.Rank | src/se/kth/BST.java:294-306 | the result is the number of keys strictly less than the argument, whether the argument is present or not |
| Trees.Put | src/se/kth/BST.java:112-126 | inserting keeps symmetric order and consistent counts; the key set gains exactly the key; the size grows by one exactly when the key was absent |
| Trees.DeleteMin | src/se/kth/BST.java:141-148 | unlinking the leftmost node keeps the invariant, drops exactly the first in-order key, keeps the rest in order and shrinks the size by one |
| Trees.DeleteMax | src/se/kth/BST.java:162-169 | unlinking the rightmost node keeps the invariant, drops exactly the last in-order key, keeps the rest in order and shrinks the size by one |
| Trees.Delete | src/se/kth/BST.java:184-207 | deletion keeps the invariant; the key set loses exactly the key; the size shrinks by one exactly when it was present; an absent key leaves the tree unchanged |
| Trees.DeleteRoot | src/se/kth/BST.java:193-205 | at the matching node: replacing it by its only child or by its successor keeps the invariant, drops only its key, and leaves the left keys followed by the right keys |
| Trees.CollectKeys | src/se/kth/BST.java:338-353 | the pruned traversal appends to the queue exactly the in-order keys lying in [lo, hi], in order |
| Trees.IsBSTCorrect | src/se/kth/BST.java:398-403 | isBST(node, min, max) holds exactly when the tree is in symmetric order and all its keys lie strictly between the bounds that are present |
| Trees.SearchTreeSorted | src/se/kth/BST.java:16 | symmetric order makes the in-order key sequence strictly ascending |
| Trees.SizeCount | src/se/kth/BST.java:410-414 | when every cached size is consistent, the size at a node is the number of nodes of its subtree |
| Trees.SizeIsCardinality | src/se/kth/BST.java:42-52 | on a valid tree the root's size is the number of entries of the map |
| TreeLemmas.EmptyIff | src/se/kth/BST.java:34-36 | size 0, an empty tree, an empty key sequence and an empty map coincide |
| TreeLemmas.PutContent | src/se/kth/BST.java:112-126 | after put(k, v) the map holds v at k and every other entry is unchanged |
| TreeLemmas.PutPresentKeepsKeys | src/se/kth/BST.java:121-123 | overwriting the value of a present key leaves the ordered key sequence unchanged |
| TreeLemmas.PutAbsentInOrder | src/se/kth/BST.java:112-126 | inserting an absent key places it in the ascending key sequence right after the keys smaller than it, all other keys keeping their order |
| TreeLemmas.DeleteMinContent | src/se/kth/BST.java:141-148 | deleteMin removes exactly the smallest key's entry from the map |
| TreeLemmas.DeleteMaxContent | src/se/kth/BST.java:162-169 | deleteMax removes exactly the largest key's entry from the map |
| TreeLemmas.DeleteRootContent | src/se/kth/BST.java:193-205 | unlinking the matching node removes exactly its entry; the successor keeps its value |
| TreeLemmas.DeleteContent | src/se/kth/BST.java:184-207 | delete(k) removes exactly the entry for k and nothing else, and nothing at all when k is absent |
| TreeLemmas.DeleteInOrder | src/se/kth/BST.java:184-207 | delete(k) leaves the ascending key sequence with k taken out and every other key kept in order |
| TreeLemmas.RankSplits | src/se/kth/BST.java:294-306 | rank(k) is at most the size; the keys below k are exactly the first rank(k) keys in ascending order |
| TreeLemmas.RankSelect | src/se/kth/BST.java:418-419 | rank(select(i)) == i for every 0 <= i < size |
| TreeLemmas.SelectRank | src/se/kth/BST.java:420-421 | for every present key k, rank(k) < size and select(rank(k)) == k |
| TreeLemmas.ValidRankConsistent | src/se/kth/BST.java:417-423 | every tree in symmetric order with consistent counts passes both loops of isRankConsistent |
| TreeLemmas.RangeKeys | src/se/kth/BST.java:326-353 | keys(lo, hi) is ascending and holds exactly the keys k with lo <= k <= hi; it is empty when lo > hi |
| TreeLemmas.SizeRangeByRank | src/se/kth/BST.java:372-376 | for lo <= hi, rank(hi) - rank(lo), plus one when hi is present, is the number of keys in [lo, hi] |
| TreeLemmas.RangeMinMax | src/se/kth/BST.java:312-317 | keys(min(), max()) on a non-empty tree is every key, ascending |
| SymbolTable.BST.constructor | src/se/kth/BST.java:28 | a new table is valid and empty |
| SymbolTable.BST.Size | src/se/kth/BST.java:42-44 | size() is the number of entries and the number of keys |
| SymbolTable.BST.IsEmpty | src/se/kth/BST.java:34-36 | isEmpty() holds exactly when the map and the key sequence are empty |
| SymbolTable.BST.Get | src/se/kth/BST.java:73-75 | get(k) is the value mapped to k, or None when k is absent |
| SymbolTable.BST.Contains | src/se/kth/BST.java:60-65 | contains(k) holds exactly when k is a key of the map |
| SymbolTable.BST.Put | src/se/kth/BST.java:100-110 | with a value: the map gets k mapped to it, the rest unchanged, the key order is unchanged when k was present, and an absent k is inserted right after the keys smaller than it; with null: the same as delete(k); the invariant is kept |
| SymbolTable.BST.DeleteMin | src/se/kth/BST.java:133-139 | on an empty table throws NoSuchElement and changes nothing; otherwise removes exactly the smallest key and its entry, keeping the invariant |
| SymbolTable.BST.DeleteMax | src/se/kth/BST.java:154-160 | on an empty table throws NoSuchElement and changes nothing; otherwise removes exactly the largest key and its entry, keeping the invariant |
| SymbolTable.BST.Delete | src/se/kth/BST.java:176-182 | removes exactly the entry for k; the key sequence loses exactly k; an absent key leaves the tree unchanged; the invariant is kept |
| SymbolTable.BST.Min | src/se/kth/BST.java:215-220 | on an empty table throws NoSuchElement; otherwise returns the first key, which is present and at most every key |
| SymbolTable.BST.Max | src/se/kth/BST.java:234-239 | on an empty table throws NoSuchElement; otherwise returns the last key, which is present and at least every key |
| SymbolTable.BST.Select | src/se/kth/BST.java:259-264 | a rank outside [0, size) throws IllegalArgument; otherwise returns the key at that position of the ascending key sequence |
| SymbolTable.BST.Rank | src/se/kth/BST.java:287-292 | the number of keys strictly less than k: exactly the first rank(k) keys in ascending order are below k |
| SymbolTable.BST.Keys | src/se/kth/BST.java:312-317 | keys() is the whole key sequence: ascending, and holding exactly the keys of the map |
| SymbolTable.BST.KeysInRange | src/se/kth/BST.java:326-336 | keys(lo, hi) is ascending and holds exactly the keys of the map in [lo, hi]; empty when lo > hi |
| SymbolTable.BST.SizeInRange | src/se/kth/BST.java:362-377 | size(lo, hi) is the length of keys(lo, hi), and 0 when lo > hi |
| SymbolTable.BST.IsRankConsistent | src/se/kth/BST.java:417-423 | the two loops return true exactly when every rank selects back to itself and every key ranks back to itself |
| SymbolTable.BST.Check | src/se/kth/BST.java:382-387 | check() holds exactly when the tree is in symmetric order with consistent subtree counts, because consistent ranks then always follow |

## Left out

- Null keys: keys are `int`, so they cannot be null. The IllegalArgumentException thrown for a null key or bound (contains, get, put, delete, rank, keys(lo, hi), size(lo, hi)) has no counterpart.
- Java `int` arithmetic: sizes and ranks are unbounded `nat`s. A table with more than 2^31 - 1 entries would overflow the source's size fields; the model does not represent that.
- `assert check()` after each mutator: not a separate step. Each mutator instead ensures `Valid()`, and `Check()` returns true exactly on valid trees.
- Diagnostics in check(): the three printed messages are not modelled. With them go the extra calls to isBST, isSizeConsistent and isRankConsistent that happen only to decide whether to print.
- SymbolTable.BST.IsRankConsistent: modelled only on valid trees. On a tree with broken subtree counts, the source's select could reach a null subtree and rank could then throw; the model does not represent such a tree.
- In-place node mutation: each helper builds the updated subtree as a new value, and only `root` is reassigned. Nodes are owned by exactly one parent and never shared, so the model loses no aliasing. Hibbard deletion's reuse of the successor node object is modelled as a node with the successor's key and value.
- The `Queue` filled by keys(lo, hi) is modelled as a sequence that is appended to.
- `src/se/kth/SearchTest.java`, `src/se/kth/Main.java` and `src/se/kth/Utilities.java` (the benchmark driver and the file-reading utility) are not part of this model.
