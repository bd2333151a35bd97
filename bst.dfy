/**
 * The ordered symbol table: a binary search tree whose root the mutators
 * rebind. Keys are integers (Java's Comparable keys, which are never null
 * here); a Java null value is `None`.
 */
module SymbolTable {
  import opened Wrappers
  import opened SortedSeqs
  import Trees
  import TreeLemmas

  class BST<V> {
    var root: Trees.Tree<V>

    /** Symmetric order and consistent subtree counts. */
    ghost predicate Valid()
      reads this
    {
      Trees.Valid(root)
    }

    /** The key-to-value map the table stands for. */
    ghost function Contents(): map<int, V>
      reads this
    {
      Trees.Content(root)
    }

    /** The keys in ascending order. */
    ghost function KeySeq(): seq<int>
      reads this
    {
      Trees.InOrder(root)
    }

    constructor ()
      ensures Valid() && Contents() == map[] && KeySeq() == []
    {
      root := Trees.Leaf;
    }

    // ----- size and lookup -----

    method Size() returns (n: nat)
      requires Valid()
      ensures n == |Contents()| && n == |KeySeq()|
    {
      n := Trees.Size(root);
      Trees.SizeIsCardinality(root);
      Trees.SizeCount(root);
    }

    method IsEmpty() returns (empty: bool)
      requires Valid()
      ensures empty <==> Contents() == map[]
      ensures empty <==> KeySeq() == []
    {
      var n := Size();
      empty := n == 0;
      TreeLemmas.EmptyIff(root);
    }

    method Get(key: int) returns (value: Option<V>)
      requires Valid()
      ensures key in Contents() ==> value == Some(Contents()[key])
      ensures key !in Contents() ==> value == None
    {
      value := Trees.Get(root, key);
    }

    method Contains(key: int) returns (found: bool)
      requires Valid()
      ensures found <==> key in Contents()
    {
      var value := Get(key);
      found := value != None;
    }

    // ----- mutators -----

    /** put(key, value); a null value deletes the key instead. */
    method Put(key: int, value: Option<V>)
      requires Valid()
      modifies this
      ensures Valid()
      ensures value.Some? ==> Contents() == old(Contents())[key := value.value]
      ensures value.Some? && key in old(Contents()) ==> KeySeq() == old(KeySeq())
      ensures value.Some? && key !in old(Contents()) ==>
        KeySeq() == old(KeySeq())[..CountLess(old(KeySeq()), key)] + [key] + old(KeySeq())[CountLess(old(KeySeq()), key)..]
      ensures value.None? ==> Contents() == old(Contents()) - {key}
      ensures value.None? ==> KeySeq() == Remove(old(KeySeq()), key)
    {
      if value.None? {
        Delete(key);
        return;
      }
      TreeLemmas.PutContent(root, key, value.value);
      Trees.ContentKeys(root);
      if key in Trees.Keys(root) {
        TreeLemmas.PutPresentKeepsKeys(root, key, value.value);
      } else {
        TreeLemmas.PutAbsentInOrder(root, key, value.value);
      }
      root := Trees.Put(root, key, value.value);
    }

    method DeleteMin() returns (outcome: Outcome)
      requires Valid()
      modifies this
      ensures Valid()
      ensures old(KeySeq()) == [] ==> outcome == Fail(NoSuchElement) && root == old(root)
      ensures old(KeySeq()) != [] ==> outcome == Pass && KeySeq() == old(KeySeq())[1..]
      ensures old(KeySeq()) != [] ==> Contents() == old(Contents()) - {old(KeySeq())[0]}
    {
      var empty := IsEmpty();
      if empty {
        return Fail(NoSuchElement);
      }
      TreeLemmas.EmptyIff(root);
      TreeLemmas.DeleteMinContent(root);
      root := Trees.DeleteMin(root);
      outcome := Pass;
    }

    method DeleteMax() returns (outcome: Outcome)
      requires Valid()
      modifies this
      ensures Valid()
      ensures old(KeySeq()) == [] ==> outcome == Fail(NoSuchElement) && root == old(root)
      ensures old(KeySeq()) != [] ==> outcome == Pass && KeySeq() == old(KeySeq())[..|old(KeySeq())| - 1]
      ensures old(KeySeq()) != [] ==> Contents() == old(Contents()) - {old(KeySeq())[|old(KeySeq())| - 1]}
    {
      var empty := IsEmpty();
      if empty {
        return Fail(NoSuchElement);
      }
      TreeLemmas.EmptyIff(root);
      TreeLemmas.DeleteMaxContent(root);
      root := Trees.DeleteMax(root);
      outcome := Pass;
    }

    /** Hibbard deletion of `key`, if present. */
    method Delete(key: int)
      requires Valid()
      modifies this
      ensures Valid()
      ensures Contents() == old(Contents()) - {key}
      ensures KeySeq() == Remove(old(KeySeq()), key)
      ensures key !in old(Contents()) ==> root == old(root)
    {
      TreeLemmas.DeleteContent(root, key);
      TreeLemmas.DeleteInOrder(root, key);
      Trees.ContentKeys(root);
      root := Trees.Delete(root, key);
    }

    // ----- ordered queries -----

    method Min() returns (r: Result<int>)
      requires Valid()
      ensures KeySeq() == [] ==> r == Err(NoSuchElement)
      ensures KeySeq() != [] ==> r == Ok(KeySeq()[0])
      ensures r.Ok? ==> r.value in Contents() && forall x :: x in Contents() ==> r.value <= x
    {
      var empty := IsEmpty();
      if empty {
        return Err(NoSuchElement);
      }
      TreeLemmas.EmptyIff(root);
      Trees.ContentKeys(root);
      r := Ok(Trees.MinNode(root).key);
    }

    method Max() returns (r: Result<int>)
      requires Valid()
      ensures KeySeq() == [] ==> r == Err(NoSuchElement)
      ensures KeySeq() != [] ==> r == Ok(KeySeq()[|KeySeq()| - 1])
      ensures r.Ok? ==> r.value in Contents() && forall x :: x in Contents() ==> x <= r.value
    {
      var empty := IsEmpty();
      if empty {
        return Err(NoSuchElement);
      }
      TreeLemmas.EmptyIff(root);
      Trees.ContentKeys(root);
      r := Ok(Trees.MaxNode(root).key);
    }

    /** The key with exactly `rank` smaller keys; a rank outside [0, size) is an illegal argument. */
    method Select(rank: int) returns (r: Result<int>)
      requires Valid()
      ensures 0 <= rank < |KeySeq()| ==> r == Ok(KeySeq()[rank])
      ensures !(0 <= rank < |KeySeq()|) ==> r == Err(IllegalArgument)
    {
      var n := Size();
      Trees.SizeCount(root);
      if rank < 0 || rank >= n {
        return Err(IllegalArgument);
      }
      r := Ok(Trees.Select(root, rank));
    }

    /** The number of keys strictly less than `key`. */
    method Rank(key: int) returns (n: nat)
      requires Valid()
      ensures n == CountLess(KeySeq(), key)
      ensures n <= |KeySeq()| && forall i :: 0 <= i < |KeySeq()| ==> (KeySeq()[i] < key <==> i < n)
    {
      n := Trees.Rank(root, key);
      TreeLemmas.RankSplits(root, key);
      Trees.SizeCount(root);
    }

    /** All keys, ascending: keys(min(), max()), or none when the table is empty. */
    method Keys() returns (ks: seq<int>)
      requires Valid()
      ensures ks == KeySeq()
      ensures Sorted(ks) && forall x :: x in ks <==> x in Contents()
    {
      Trees.SearchTreeSorted(root);
      Trees.InOrderKeys(root);
      Trees.ContentKeys(root);
      var empty := IsEmpty();
      if empty {
        return [];
      }
      var lo := Min();
      var hi := Max();
      ks := KeysInRange(lo.value, hi.value);
      TreeLemmas.EmptyIff(root);
      TreeLemmas.RangeMinMax(root);
    }

    /** The keys in [lo, hi], ascending. */
    method KeysInRange(lo: int, hi: int) returns (ks: seq<int>)
      requires Valid()
      ensures ks == Range(KeySeq(), lo, hi)
      ensures Sorted(ks) && forall x :: x in ks <==> x in Contents() && lo <= x <= hi
      ensures lo > hi ==> ks == []
    {
      ks := Trees.CollectKeys(root, [], lo, hi);
      TreeLemmas.RangeKeys(root, lo, hi);
      Trees.ContentKeys(root);
    }

    /** The number of keys in [lo, hi], counted by ranks. */
    method SizeInRange(lo: int, hi: int) returns (n: nat)
      requires Valid()
      ensures n == |Range(KeySeq(), lo, hi)|
      ensures lo > hi ==> n == 0
    {
      if lo > hi {
        TreeLemmas.RangeKeys(root, lo, hi);
        return 0;
      }
      TreeLemmas.SizeRangeByRank(root, lo, hi);
      Trees.ContentKeys(root);
      var present := Contains(hi);
      var rankHi: int := Rank(hi);
      var rankLo: int := Rank(lo);
      assert rankHi == Trees.Rank(root, hi) && rankLo == Trees.Rank(root, lo);
      assert present <==> hi in Trees.Keys(root);
      if present {
        n := rankHi - rankLo + 1;
      } else {
        n := rankHi - rankLo;
      }
    }

    // ----- integrity checks -----

    /** isRankConsistent: every rank selects back to itself and every key ranks back to itself. */
    method IsRankConsistent() returns (ok: bool)
      requires Valid()
      ensures ok <==> TreeLemmas.RankConsistent(root)
    {
      var n := Trees.Size(root);
      for i := 0 to n
        invariant forall j: nat :: j < i ==> Trees.Rank(root, Trees.Select(root, j)) == j
      {
        if i != Trees.Rank(root, Trees.Select(root, i)) {
          return false;
        }
      }
      var ks := Keys();
      for j := 0 to |ks|
        invariant forall m :: 0 <= m < j ==> Trees.Rank(root, ks[m]) < n && Trees.Select(root, Trees.Rank(root, ks[m])) == ks[m]
      {
        var r := Trees.Rank(root, ks[j]);
        // Unreachable on a valid tree; there the source's select would throw instead.
        if r >= n || ks[j] != Trees.Select(root, r) {
          return false;
        }
      }
      ok := true;
    }

    /** check(): symmetric order, then subtree counts, then ranks. */
    method Check() returns (ok: bool)
      ensures ok <==> Valid()
    {
      var ordered := Trees.IsBST(root, None, None);
      Trees.IsBSTCorrect(root, None, None);
      var counted := Trees.IsSizeConsistent(root);
      if !(ordered && counted) {
        return false;
      }
      ok := IsRankConsistent();
      TreeLemmas.ValidRankConsistent(root);
    }
  }
}
