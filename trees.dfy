/**
 * The size-annotated nodes of the symbol table and the recursive operations on
 * them. Each mutating helper follows the source's pattern of returning the
 * (possibly new) subtree that its caller rebinds as a child link or as root.
 */
module Trees {
  import opened Wrappers
  import opened SortedSeqs

  /** `size` is the node count cached at every node, the node itself included. */
  datatype Tree<V> = Leaf | Node(key: int, value: V, left: Tree<V>, right: Tree<V>, size: nat)

  /** The cached size of a subtree; an absent subtree has size 0. */
  function Size<V>(t: Tree<V>): nat {
    if t.Leaf? then 0 else t.size
  }

  /** The set of keys stored in the tree. */
  ghost function Keys<V>(t: Tree<V>): set<int> {
    match t
    case Leaf => {}
    case Node(k, _, l, r, _) => Keys(l) + {k} + Keys(r)
  }

  /** The keys met by an in-order walk. */
  ghost function InOrder<V>(t: Tree<V>): seq<int> {
    match t
    case Leaf => []
    case Node(k, _, l, r, _) => InOrder(l) + [k] + InOrder(r)
  }

  /** The abstract map the tree stands for. */
  ghost function Content<V>(t: Tree<V>): map<int, V> {
    match t
    case Leaf => map[]
    case Node(k, v, l, r, _) => (Content(l) + Content(r))[k := v]
  }

  /** Symmetric order: left keys strictly below, right keys strictly above, at every node. */
  ghost predicate SearchTree<V>(t: Tree<V>) {
    match t
    case Leaf => true
    case Node(k, _, l, r, _) =>
      && SearchTree(l) && SearchTree(r)
      && (forall x :: x in Keys(l) ==> x < k)
      && (forall x :: x in Keys(r) ==> k < x)
  }

  /** Every cached size is one more than the cached sizes of the two children. */
  predicate IsSizeConsistent<V>(t: Tree<V>) {
    match t
    case Leaf => true
    case Node(_, _, l, r, n) => n == Size(l) + Size(r) + 1 && IsSizeConsistent(l) && IsSizeConsistent(r)
  }

  /** The invariant every public operation keeps. */
  ghost predicate Valid<V>(t: Tree<V>) {
    SearchTree(t) && IsSizeConsistent(t)
  }

  /** `lo < x < hi`, where an absent bound constrains nothing. */
  ghost predicate Within(x: int, lo: Option<int>, hi: Option<int>) {
    (lo.None? || lo.value < x) && (hi.None? || x < hi.value)
  }

  /** The source's own symmetric-order check, with optional exclusive bounds. */
  predicate IsBST<V>(t: Tree<V>, lo: Option<int>, hi: Option<int>) {
    match t
    case Leaf => true
    case Node(k, _, l, r, _) =>
      && (lo.None? || k > lo.value)
      && (hi.None? || k < hi.value)
      && IsBST(l, lo, Some(k)) && IsBST(r, Some(k), hi)
  }

  // ----- how the abstractions relate -----

  lemma {:induction false} ContentKeys<V>(t: Tree<V>)
    ensures Content(t).Keys == Keys(t)
  {
    if t.Node? {
      ContentKeys(t.left);
      ContentKeys(t.right);
    }
  }

  lemma {:induction false} InOrderKeys<V>(t: Tree<V>)
    ensures forall x :: x in InOrder(t) <==> x in Keys(t)
  {
    if t.Node? {
      InOrderKeys(t.left);
      InOrderKeys(t.right);
      assert forall x :: x in InOrder(t) <==> x in InOrder(t.left) || x == t.key || x in InOrder(t.right);
    }
  }

  lemma InOrderMember<V>(t: Tree<V>, i: nat)
    requires i < |InOrder(t)|
    ensures InOrder(t)[i] in Keys(t)
  {
    var x := InOrder(t)[i];
    assert x in InOrder(t);
    InOrderKeys(t);
    assert x in InOrder(t) <==> x in Keys(t);
  }

  /** At a node of a search tree, the in-order keys on each side lie on that side of the node's key. */
  lemma ChildBounds<V>(t: Tree<V>)
    requires t.Node? && SearchTree(t)
    ensures forall x :: x in InOrder(t.left) ==> x < t.key
    ensures forall x :: x in InOrder(t.right) ==> t.key < x
  {
    InOrderKeys(t.left);
    InOrderKeys(t.right);
  }

  /** The in-order walk of a search tree is strictly ascending. */
  lemma {:induction false} SearchTreeSorted<V>(t: Tree<V>)
    requires SearchTree(t)
    ensures Sorted(InOrder(t))
  {
    if t.Node? {
      SearchTreeSorted(t.left);
      SearchTreeSorted(t.right);
      ChildBounds(t);
      SortedConcat(InOrder(t.left), t.key, InOrder(t.right));
    }
  }

  lemma {:induction false} SizeCount<V>(t: Tree<V>)
    requires IsSizeConsistent(t)
    ensures Size(t) == |InOrder(t)|
  {
    if t.Node? {
      SizeCount(t.left);
      SizeCount(t.right);
    }
  }

  lemma {:induction false} SizeKeys<V>(t: Tree<V>)
    requires Valid(t)
    ensures Size(t) == |Keys(t)|
  {
    if t.Node? {
      SizeKeys(t.left);
      SizeKeys(t.right);
      var a, b := Keys(t.left), Keys(t.right);
      assert a !! b by {
        forall x | x in a ensures x !in b {
          assert x < t.key;
        }
      }
      assert |a + b| == |a| + |b|;
      assert t.key !in a + b;
    }
  }

  /** The cached size at the root is the number of entries in the map. */
  lemma SizeIsCardinality<V>(t: Tree<V>)
    requires Valid(t)
    ensures Size(t) == |Content(t)|
  {
    SizeKeys(t);
    ContentKeys(t);
    assert |Content(t)| == |Content(t).Keys|;
  }

  /** isBST(node, lo, hi) holds exactly for search trees whose keys lie strictly between the bounds. */
  lemma {:induction false} IsBSTCorrect<V>(t: Tree<V>, lo: Option<int>, hi: Option<int>)
    ensures IsBST(t, lo, hi) <==> SearchTree(t) && forall x :: x in Keys(t) ==> Within(x, lo, hi)
  {
    if t.Node? {
      var k, l, r := t.key, t.left, t.right;
      IsBSTCorrect(l, lo, Some(k));
      IsBSTCorrect(r, Some(k), hi);
      if IsBST(t, lo, hi) {
        forall x | x in Keys(l) ensures x < k {
          assert Within(x, lo, Some(k));
        }
        forall x | x in Keys(r) ensures k < x {
          assert Within(x, Some(k), hi);
        }
        assert SearchTree(t);
        forall x | x in Keys(t) ensures Within(x, lo, hi) {
          if x in Keys(l) {
            assert Within(x, lo, Some(k));
          } else if x in Keys(r) {
            assert Within(x, Some(k), hi);
          }
        }
      }
      if SearchTree(t) && forall x :: x in Keys(t) ==> Within(x, lo, hi) {
        assert k in Keys(t);
        forall x | x in Keys(l) ensures Within(x, lo, Some(k)) {
          assert x in Keys(t);
        }
        forall x | x in Keys(r) ensures Within(x, Some(k), hi) {
          assert x in Keys(t);
        }
      }
    }
  }

  // ----- queries -----

  /** Binary search for `key`; None stands for the source's null. */
  function Get<V>(t: Tree<V>, key: int): (r: Option<V>)
    requires SearchTree(t)
    ensures r == if key in Content(t) then Some(Content(t)[key]) else None
  {
    match t
    case Leaf => None
    case Node(k, v, l, rt, _) =>
      ContentKeys(l);
      ContentKeys(rt);
      if key < k then Get(l, key)
      else if key > k then Get(rt, key)
      else Some(v)
  }

  /** The leftmost node: it holds the smallest key and that key's value. */
  function MinNode<V>(t: Tree<V>): (m: Tree<V>)
    requires t.Node? && SearchTree(t)
    ensures m.Node? && m.left.Leaf?
    ensures m.key == InOrder(t)[0]
    ensures m.key in Keys(t) && forall x :: x in Keys(t) ==> m.key <= x
    ensures m.key in Content(t) && Content(t)[m.key] == m.value
  {
    if t.left.Leaf? then t
    else
      ContentKeys(t.right);
      MinNode(t.left)
  }

  /** The rightmost node: it holds the largest key and that key's value. */
  function MaxNode<V>(t: Tree<V>): (m: Tree<V>)
    requires t.Node? && SearchTree(t)
    ensures m.Node? && m.right.Leaf?
    ensures m.key == InOrder(t)[|InOrder(t)| - 1]
    ensures m.key in Keys(t) && forall x :: x in Keys(t) ==> x <= m.key
    ensures m.key in Content(t) && Content(t)[m.key] == m.value
  {
    if t.right.Leaf? then t
    else
      MaxNode(t.right)
  }

  /** The key with exactly `i` smaller keys, found through the cached sizes. */
  function Select<V>(t: Tree<V>, i: nat): (key: int)
    requires IsSizeConsistent(t) && i < Size(t)
    ensures |InOrder(t)| == Size(t) && key == InOrder(t)[i]
  {
    SizeCount(t);
    SizeCount(t.left);
    var leftSize := Size(t.left);
    if leftSize > i then Select(t.left, i)
    else if leftSize < i then Select(t.right, i - leftSize - 1)
    else t.key
  }

  /** The number of keys strictly less than `key`, present or not. */
  function Rank<V>(t: Tree<V>, key: int): (n: nat)
    requires Valid(t)
    ensures n == CountLess(InOrder(t), key)
  {
    match t
    case Leaf => 0
    case Node(k, _, l, r, _) =>
      ChildBounds(t);
      SizeCount(l);
      CountLessAppend(InOrder(l) + [k], InOrder(r), key);
      CountLessAppend(InOrder(l), [k], key);
      if key < k then
        CountLessNoneBelow(InOrder(r), key);
        Rank(l, key)
      else if key > k then
        CountLessAllBelow(InOrder(l), key);
        1 + Size(l) + Rank(r, key)
      else
        CountLessAllBelow(InOrder(l), key);
        CountLessNoneBelow(InOrder(r), key);
        Size(l)
  }

  // ----- mutators -----

  /** Insert or overwrite: a new leaf of size 1, or the new value at the matching node. */
  function Put<V>(t: Tree<V>, key: int, value: V): (r: Tree<V>)
    requires Valid(t)
    ensures Valid(r)
    ensures Keys(r) == Keys(t) + {key}
    ensures Size(r) == Size(t) + (if key in Keys(t) then 0 else 1)
  {
    match t
    case Leaf => Node(key, value, Leaf, Leaf, 1)
    case Node(k, v, l, rt, _) =>
      if key < k then
        var l' := Put(l, key, value);
        Node(k, v, l', rt, 1 + Size(l') + Size(rt))
      else if key > k then
        var r' := Put(rt, key, value);
        Node(k, v, l, r', 1 + Size(l) + Size(r'))
      else
        Node(k, value, l, rt, 1 + Size(l) + Size(rt))
  }

  /** Unlink the leftmost node, replacing it by its right child. */
  function DeleteMin<V>(t: Tree<V>): (r: Tree<V>)
    requires t.Node? && Valid(t)
    ensures Valid(r)
    ensures InOrder(r) == InOrder(t)[1..]
    ensures Keys(r) == Keys(t) - {InOrder(t)[0]}
    ensures Size(r) == Size(t) - 1
  {
    if t.left.Leaf? then t.right
    else
      var l' := DeleteMin(t.left);
      assert InOrder(t)[1..] == InOrder(t.left)[1..] + [t.key] + InOrder(t.right);
      InOrderMember(t.left, 0);
      var m := InOrder(t)[0];
      assert m == InOrder(t.left)[0] && m < t.key && m !in Keys(t.right);
      Node(t.key, t.value, l', t.right, Size(l') + Size(t.right) + 1)
  }

  /** Unlink the rightmost node, replacing it by its left child. */
  function DeleteMax<V>(t: Tree<V>): (r: Tree<V>)
    requires t.Node? && Valid(t)
    ensures Valid(r)
    ensures InOrder(r) == InOrder(t)[..|InOrder(t)| - 1]
    ensures Keys(r) == Keys(t) - {InOrder(t)[|InOrder(t)| - 1]}
    ensures Size(r) == Size(t) - 1
  {
    if t.right.Leaf? then t.left
    else
      var r' := DeleteMax(t.right);
      var n, nr := |InOrder(t)|, |InOrder(t.right)|;
      assert InOrder(t)[..n - 1] == InOrder(t.left) + [t.key] + InOrder(t.right)[..nr - 1];
      InOrderMember(t.right, nr - 1);
      var m := InOrder(t)[n - 1];
      assert m == InOrder(t.right)[nr - 1] && t.key < m && m !in Keys(t.left);
      Node(t.key, t.value, t.left, r', Size(t.left) + Size(r') + 1)
  }

  /**
   * Hibbard deletion: a node with one child is replaced by that child; a node
   * with two is replaced by its in-order successor, the minimum of its right
   * subtree, which is first unlinked from there.
   */
  function Delete<V>(t: Tree<V>, key: int): (r: Tree<V>)
    requires Valid(t)
    ensures Valid(r)
    ensures Keys(r) == Keys(t) - {key}
    ensures Size(r) == Size(t) - (if key in Keys(t) then 1 else 0)
    ensures key !in Keys(t) ==> r == t
  {
    match t
    case Leaf => Leaf
    case Node(k, v, l, rt, _) =>
      if key < k then
        var l' := Delete(l, key);
        Node(k, v, l', rt, Size(l') + Size(rt) + 1)
      else if key > k then
        var r' := Delete(rt, key);
        Node(k, v, l, r', Size(l) + Size(r') + 1)
      else
        DeleteRoot(t)
  }

  /** The matching-node case of Delete: unlink the root of `t`. */
  function DeleteRoot<V>(t: Tree<V>): (r: Tree<V>)
    requires t.Node? && Valid(t)
    ensures Valid(r)
    ensures Keys(r) == Keys(t) - {t.key}
    ensures InOrder(r) == InOrder(t.left) + InOrder(t.right)
    ensures Size(r) == Size(t) - 1
  {
    if t.right.Leaf? then t.left
    else if t.left.Leaf? then t.right
    else
      var m := MinNode(t.right);
      var r' := DeleteMin(t.right);
      assert InOrder(t.right) == [m.key] + InOrder(r');
      assert forall x :: x in Keys(t.left) ==> x < m.key;
      assert forall x :: x in Keys(r') ==> m.key < x;
      Node(m.key, m.value, t.left, r', Size(t.left) + Size(r') + 1)
  }

  /** The keys of a node in [lo, hi] come from a side subtree only where the bound reaches past the node's key. */
  lemma RangeAtNode<V>(t: Tree<V>, lo: int, hi: int)
    requires t.Node? && SearchTree(t)
    ensures Range(InOrder(t), lo, hi)
         == (if lo < t.key then Range(InOrder(t.left), lo, hi) else [])
          + (if lo <= t.key <= hi then [t.key] else [])
          + (if hi > t.key then Range(InOrder(t.right), lo, hi) else [])
  {
    RangeAppend(InOrder(t.left) + [t.key], InOrder(t.right), lo, hi);
    RangeAppend(InOrder(t.left), [t.key], lo, hi);
    ChildBounds(t);
    if lo >= t.key {
      RangeNone(InOrder(t.left), lo, hi);
    }
    if hi <= t.key {
      RangeNone(InOrder(t.right), lo, hi);
    }
  }

  /** Regrouping a concatenation, kept out of CollectKeys' larger proof context. */
  lemma ConcatAssoc(a: seq<int>, b: seq<int>, c: seq<int>, d: seq<int>)
    ensures a + b + c + d == a + (b + c + d)
  {
  }

  /** keys(node, queue, lo, hi): append the keys in [lo, hi] to `queue`, pruning subtrees outside it. */
  method CollectKeys<V>(t: Tree<V>, queue: seq<int>, lo: int, hi: int) returns (q: seq<int>)
    requires SearchTree(t)
    ensures q == queue + Range(InOrder(t), lo, hi)
    decreases t
  {
    if t.Leaf? {
      assert queue + Range(InOrder(t), lo, hi) == queue + [];
      return queue;
    }
    RangeAtNode(t, lo, hi);
    ghost var below := if lo < t.key then Range(InOrder(t.left), lo, hi) else [];
    ghost var here := if lo <= t.key <= hi then [t.key] else [];
    ghost var above := if hi > t.key then Range(InOrder(t.right), lo, hi) else [];
    q := queue;
    if lo < t.key {
      q := CollectKeys(t.left, q, lo, hi);
    }
    assert q == queue + below;
    if lo <= t.key && hi >= t.key {
      q := q + [t.key];
    }
    assert q == queue + below + here;
    if hi > t.key {
      q := CollectKeys(t.right, q, lo, hi);
    }
    ConcatAssoc(queue, below, here, above);
  }
}
