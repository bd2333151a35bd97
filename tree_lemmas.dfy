/**
 * What the tree operations mean for the abstract map and for the ascending
 * key sequence: the entries each mutator leaves behind, the order-statistic
 * duality of Rank and Select, and the range laws behind keys(lo, hi) and
 * size(lo, hi).
 */
module TreeLemmas {
  import opened Wrappers
  import opened SortedSeqs
  import opened Trees

  // ----- emptiness -----

  /** An empty tree, an empty key sequence, an empty map and size 0 say the same thing. */
  lemma EmptyIff<V>(t: Tree<V>)
    requires Valid(t)
    ensures t.Leaf? <==> InOrder(t) == []
    ensures t.Leaf? <==> Content(t) == map[]
    ensures t.Leaf? <==> Size(t) == 0
  {
    if t.Node? {
      assert t.key in Content(t);
    }
  }

  // ----- map algebra at a node: Content(Node(k, v, l, r)) == (Content(l) + Content(r))[k := v] -----

  lemma MapUpdateLeft<V>(a: map<int, V>, b: map<int, V>, k: int, v: V, x: int, y: V)
    requires x != k && x !in b
    ensures (a[x := y] + b)[k := v] == ((a + b)[k := v])[x := y]
  {
  }

  lemma MapUpdateRight<V>(a: map<int, V>, b: map<int, V>, k: int, v: V, x: int, y: V)
    requires x != k
    ensures (a + b[x := y])[k := v] == ((a + b)[k := v])[x := y]
  {
  }

  lemma MapRemoveLeft<V>(a: map<int, V>, b: map<int, V>, k: int, v: V, x: int)
    requires x != k && x !in b
    ensures ((a - {x}) + b)[k := v] == ((a + b)[k := v]) - {x}
  {
  }

  lemma MapRemoveRight<V>(a: map<int, V>, b: map<int, V>, k: int, v: V, x: int)
    requires x != k && x !in a
    ensures (a + (b - {x}))[k := v] == ((a + b)[k := v]) - {x}
  {
  }

  lemma MapRemoveRoot<V>(a: map<int, V>, b: map<int, V>, k: int, v: V)
    requires k !in a && k !in b
    ensures ((a + b)[k := v]) - {k} == a + b
  {
  }

  /** Replacing the root's entry by the successor's, which leaves the right side. */
  lemma MapSplice<V>(a: map<int, V>, b: map<int, V>, k: int, v: V, m: int)
    requires k !in a && k !in b && m in b && m !in a
    ensures (a + (b - {m}))[m := b[m]] == ((a + b)[k := v]) - {k}
  {
  }

  // ----- mutators against the abstract map -----

  /** After put(k, v) the map holds v at k and is unchanged elsewhere. */
  lemma {:induction false} PutContent<V>(t: Tree<V>, key: int, value: V)
    requires Valid(t)
    ensures Content(Put(t, key, value)) == Content(t)[key := value]
  {
    match t
    case Leaf =>
    case Node(k, v, l, rt, _) =>
      if key < k {
        PutContent(l, key, value);
        ContentKeys(rt);
        MapUpdateLeft(Content(l), Content(rt), k, v, key, value);
      } else if key > k {
        PutContent(rt, key, value);
        MapUpdateRight(Content(l), Content(rt), k, v, key, value);
      }
  }

  /** Overwriting a present key keeps every key in its place. */
  lemma {:induction false} PutPresentKeepsKeys<V>(t: Tree<V>, key: int, value: V)
    requires Valid(t) && key in Keys(t)
    ensures InOrder(Put(t, key, value)) == InOrder(t)
  {
    match t
    case Node(k, v, l, rt, _) =>
      if key < k {
        PutPresentKeepsKeys(l, key, value);
      } else if key > k {
        PutPresentKeepsKeys(rt, key, value);
      }
  }

  /** Inserting an absent key places it at its rank: after exactly the keys smaller than it. */
  lemma {:induction false} PutAbsentInOrder<V>(t: Tree<V>, key: int, value: V)
    requires Valid(t) && key !in Keys(t)
    ensures InOrder(Put(t, key, value))
         == InOrder(t)[..CountLess(InOrder(t), key)] + [key] + InOrder(t)[CountLess(InOrder(t), key)..]
  {
    if t.Node? {
      if key < t.key {
        PutAbsentInOrder(t.left, key, value);
        PutAbsentInOrderLeft(t, key, value);
      } else {
        PutAbsentInOrder(t.right, key, value);
        PutAbsentInOrderRight(t, key, value);
      }
    }
  }

  lemma PutAbsentInOrderLeft<V>(t: Tree<V>, key: int, value: V)
    requires t.Node? && Valid(t) && key !in Keys(t) && key < t.key
    requires InOrder(Put(t.left, key, value))
          == InOrder(t.left)[..CountLess(InOrder(t.left), key)] + [key] + InOrder(t.left)[CountLess(InOrder(t.left), key)..]
    ensures InOrder(Put(t, key, value))
         == InOrder(t)[..CountLess(InOrder(t), key)] + [key] + InOrder(t)[CountLess(InOrder(t), key)..]
  {
    assert Rank(t, key) == Rank(t.left, key);
    InsertLeftOf(InOrder(t.left), t.key, InOrder(t.right), key, Rank(t.left, key));
  }

  lemma PutAbsentInOrderRight<V>(t: Tree<V>, key: int, value: V)
    requires t.Node? && Valid(t) && key !in Keys(t) && t.key < key
    requires InOrder(Put(t.right, key, value))
          == InOrder(t.right)[..CountLess(InOrder(t.right), key)] + [key] + InOrder(t.right)[CountLess(InOrder(t.right), key)..]
    ensures InOrder(Put(t, key, value))
         == InOrder(t)[..CountLess(InOrder(t), key)] + [key] + InOrder(t)[CountLess(InOrder(t), key)..]
  {
    var s, ls, rs := InOrder(t), InOrder(t.left), InOrder(t.right);
    var p := InOrder(Put(t.right, key, value));
    var c, cr := CountLess(s, key), CountLess(rs, key);
    RankRightOf(t, key);
    assert s == ls + [t.key] + rs;
    assert InOrder(Put(t, key, value)) == ls + [t.key] + p;
    InsertRightOf(ls, t.key, rs, key, cr, c);
  }

  /** A key above the root's ranks after the whole left subtree and the root. */
  lemma RankRightOf<V>(t: Tree<V>, key: int)
    requires t.Node? && Valid(t) && t.key < key
    ensures CountLess(InOrder(t), key) == |InOrder(t.left)| + 1 + CountLess(InOrder(t.right), key)
  {
    SizeCount(t.left);
    assert Rank(t, key) == Size(t.left) + 1 + Rank(t.right, key);
  }

  /** deleteMin removes exactly the smallest key's entry. */
  lemma {:induction false} DeleteMinContent<V>(t: Tree<V>)
    requires t.Node? && Valid(t)
    ensures Content(DeleteMin(t)) == Content(t) - {InOrder(t)[0]}
  {
    var k, v, l, rt := t.key, t.value, t.left, t.right;
    ContentKeys(l);
    ContentKeys(rt);
    if l.Leaf? {
      assert InOrder(t)[0] == k;
      MapRemoveRoot(Content(l), Content(rt), k, v);
    } else {
      DeleteMinContent(l);
      var m := InOrder(t)[0];
      InOrderMember(l, 0);
      assert m == InOrder(l)[0] && m < k && m !in Keys(rt);
      MapRemoveLeft(Content(l), Content(rt), k, v, m);
    }
  }

  /** deleteMax removes exactly the largest key's entry. */
  lemma {:induction false} DeleteMaxContent<V>(t: Tree<V>)
    requires t.Node? && Valid(t)
    ensures Content(DeleteMax(t)) == Content(t) - {InOrder(t)[|InOrder(t)| - 1]}
  {
    var k, v, l, rt := t.key, t.value, t.left, t.right;
    ContentKeys(l);
    ContentKeys(rt);
    if rt.Leaf? {
      assert InOrder(t)[|InOrder(t)| - 1] == k;
      MapRemoveRoot(Content(l), Content(rt), k, v);
    } else {
      DeleteMaxContent(rt);
      var n, nr := |InOrder(t)|, |InOrder(rt)|;
      var m := InOrder(t)[n - 1];
      InOrderMember(rt, nr - 1);
      assert m == InOrder(rt)[nr - 1] && k < m && m !in Keys(l);
      MapRemoveRight(Content(l), Content(rt), k, v, m);
    }
  }

  /** Unlinking a matching node, with or without the successor splice, removes exactly its entry. */
  lemma DeleteRootContent<V>(t: Tree<V>)
    requires t.Node? && Valid(t)
    ensures Content(DeleteRoot(t)) == Content(t) - {t.key}
  {
    var k, v, l, rt := t.key, t.value, t.left, t.right;
    ContentKeys(l);
    ContentKeys(rt);
    if rt.Node? && l.Node? {
      var m := MinNode(rt);
      DeleteMinContent(rt);
      assert m.key !in Keys(l);
      MapSplice(Content(l), Content(rt), k, v, m.key);
    } else {
      MapRemoveRoot(Content(l), Content(rt), k, v);
    }
  }

  /** delete(k) removes exactly the entry for k, and nothing when k is absent. */
  lemma {:induction false} DeleteContent<V>(t: Tree<V>, key: int)
    requires Valid(t)
    ensures Content(Delete(t, key)) == Content(t) - {key}
  {
    match t
    case Leaf =>
    case Node(k, v, l, rt, _) =>
      if key < k {
        DeleteContent(l, key);
        ContentKeys(rt);
        MapRemoveLeft(Content(l), Content(rt), k, v, key);
      } else if key > k {
        DeleteContent(rt, key);
        ContentKeys(l);
        MapRemoveRight(Content(l), Content(rt), k, v, key);
      } else {
        DeleteRootContent(t);
      }
  }

  lemma AbsentNotInOrder<V>(t: Tree<V>, x: int)
    requires x !in Keys(t)
    ensures Remove(InOrder(t), x) == InOrder(t)
  {
    InOrderKeys(t);
    RemoveAbsent(InOrder(t), x);
  }

  /** delete(k) leaves the in-order key sequence with k taken out and the rest in order. */
  lemma {:induction false} DeleteInOrder<V>(t: Tree<V>, key: int)
    requires Valid(t)
    ensures InOrder(Delete(t, key)) == Remove(InOrder(t), key)
  {
    if t.Node? {
      if key < t.key {
        DeleteInOrder(t.left, key);
        DeleteInOrderLeft(t, key);
      } else if key > t.key {
        DeleteInOrder(t.right, key);
        DeleteInOrderRight(t, key);
      } else {
        DeleteInOrderRoot(t);
      }
    }
  }

  lemma DeleteInOrderLeft<V>(t: Tree<V>, key: int)
    requires t.Node? && Valid(t) && key < t.key
    requires InOrder(Delete(t.left, key)) == Remove(InOrder(t.left), key)
    ensures InOrder(Delete(t, key)) == Remove(InOrder(t), key)
  {
    RemoveAtNode(InOrder(t.left), t.key, InOrder(t.right), key);
    AbsentNotInOrder(t.right, key);
  }

  lemma DeleteInOrderRight<V>(t: Tree<V>, key: int)
    requires t.Node? && Valid(t) && key > t.key
    requires InOrder(Delete(t.right, key)) == Remove(InOrder(t.right), key)
    ensures InOrder(Delete(t, key)) == Remove(InOrder(t), key)
  {
    RemoveAtNode(InOrder(t.left), t.key, InOrder(t.right), key);
    AbsentNotInOrder(t.left, key);
  }

  lemma DeleteInOrderRoot<V>(t: Tree<V>)
    requires t.Node? && Valid(t)
    ensures InOrder(Delete(t, t.key)) == Remove(InOrder(t), t.key)
  {
    RemoveAtNode(InOrder(t.left), t.key, InOrder(t.right), t.key);
    AbsentNotInOrder(t.left, t.key);
    AbsentNotInOrder(t.right, t.key);
  }

  // ----- order statistics -----

  /** rank(key) splits the ascending keys: position i holds a key below `key` iff i < rank(key). */
  lemma RankSplits<V>(t: Tree<V>, key: int)
    requires Valid(t)
    ensures Rank(t, key) <= Size(t)
    ensures forall i :: 0 <= i < |InOrder(t)| ==> (InOrder(t)[i] < key <==> i < Rank(t, key))
  {
    SearchTreeSorted(t);
    SizeCount(t);
    CountLessSplits(InOrder(t), key);
  }

  /** rank(select(i)) == i for every valid position i. */
  lemma RankSelect<V>(t: Tree<V>, i: nat)
    requires Valid(t) && i < Size(t)
    ensures Rank(t, Select(t, i)) == i
  {
    SearchTreeSorted(t);
    SizeCount(t);
    CountLessAt(InOrder(t), i);
  }

  /** select(rank(k)) == k for every present key k. */
  lemma SelectRank<V>(t: Tree<V>, key: int)
    requires Valid(t) && key in Keys(t)
    ensures Rank(t, key) < Size(t) && Select(t, Rank(t, key)) == key
  {
    SearchTreeSorted(t);
    SizeCount(t);
    InOrderKeys(t);
    var j :| 0 <= j < |InOrder(t)| && InOrder(t)[j] == key;
    CountLessAt(InOrder(t), j);
  }

  /** isRankConsistent: every rank selects back to itself, and every key, in ascending order, ranks back to itself. */
  ghost predicate RankConsistent<V>(t: Tree<V>)
    requires Valid(t)
  {
    && (forall i: nat :: i < Size(t) ==> Rank(t, Select(t, i)) == i)
    && (forall j :: 0 <= j < |InOrder(t)| ==> Rank(t, InOrder(t)[j]) < Size(t) && Select(t, Rank(t, InOrder(t)[j])) == InOrder(t)[j])
  }

  /** Symmetric order and consistent sizes imply consistent ranks. */
  lemma ValidRankConsistent<V>(t: Tree<V>)
    requires Valid(t)
    ensures RankConsistent(t)
  {
    forall i: nat | i < Size(t) ensures Rank(t, Select(t, i)) == i {
      RankSelect(t, i);
    }
    forall j | 0 <= j < |InOrder(t)|
      ensures Rank(t, InOrder(t)[j]) < Size(t) && Select(t, Rank(t, InOrder(t)[j])) == InOrder(t)[j]
    {
      InOrderMember(t, j);
      SelectRank(t, InOrder(t)[j]);
    }
  }

  // ----- range queries -----

  /** keys(lo, hi) holds exactly the keys in [lo, hi], ascending; none when lo > hi. */
  lemma RangeKeys<V>(t: Tree<V>, lo: int, hi: int)
    requires SearchTree(t)
    ensures Sorted(Range(InOrder(t), lo, hi))
    ensures forall x :: x in Range(InOrder(t), lo, hi) <==> x in Keys(t) && lo <= x <= hi
    ensures lo > hi ==> Range(InOrder(t), lo, hi) == []
  {
    SearchTreeSorted(t);
    RangeSorted(InOrder(t), lo, hi);
    RangeMembers(InOrder(t), lo, hi);
    InOrderKeys(t);
    if lo > hi {
      RangeNone(InOrder(t), lo, hi);
    }
  }

  /** size(lo, hi) by ranks counts the keys in [lo, hi]. */
  lemma SizeRangeByRank<V>(t: Tree<V>, lo: int, hi: int)
    requires Valid(t) && lo <= hi
    ensures |Range(InOrder(t), lo, hi)| == Rank(t, hi) - Rank(t, lo) + (if hi in Keys(t) then 1 else 0)
  {
    SearchTreeSorted(t);
    InOrderKeys(t);
    RangeCount(InOrder(t), lo, hi);
  }

  /** keys(min(), max()) is every key, ascending. */
  lemma RangeMinMax<V>(t: Tree<V>)
    requires t.Node? && SearchTree(t)
    ensures Range(InOrder(t), MinNode(t).key, MaxNode(t).key) == InOrder(t)
  {
    InOrderKeys(t);
    RangeAll(InOrder(t), MinNode(t).key, MaxNode(t).key);
  }
}
