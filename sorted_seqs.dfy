/**
 * Reference definitions over key sequences: what "ascending", "the number of
 * smaller keys", "the keys in [lo, hi]" and "the sequence without k" mean,
 * independently of any tree.
 */
module SortedSeqs {

  /** Strictly ascending, hence free of duplicates. */
  ghost predicate Sorted(s: seq<int>) {
    forall i, j :: 0 <= i < j < |s| ==> s[i] < s[j]
  }

  /** The number of elements of `s` strictly less than `k`. */
  ghost function CountLess(s: seq<int>, k: int): (n: nat)
    ensures n <= |s|
  {
    if s == [] then 0 else (if s[0] < k then 1 else 0) + CountLess(s[1..], k)
  }

  /** The elements `x` of `s` with `lo <= x <= hi`, in the order of `s`. */
  ghost function Range(s: seq<int>, lo: int, hi: int): seq<int> {
    if s == [] then [] else (if lo <= s[0] <= hi then [s[0]] else []) + Range(s[1..], lo, hi)
  }

  /** `s` with every occurrence of `k` taken out. */
  ghost function Remove(s: seq<int>, k: int): seq<int> {
    if s == [] then [] else (if s[0] == k then [] else [s[0]]) + Remove(s[1..], k)
  }

  lemma {:induction false} SortedConcat(a: seq<int>, k: int, b: seq<int>)
    requires Sorted(a) && Sorted(b)
    requires forall x :: x in a ==> x < k
    requires forall x :: x in b ==> k < x
    ensures Sorted(a + [k] + b)
  {
    var s := a + [k] + b;
    forall i, j | 0 <= i < j < |s| ensures s[i] < s[j] {
      if j < |a| {
        assert s[i] == a[i] && s[j] == a[j];
      } else if j == |a| {
        assert s[i] == a[i] && a[i] in a && s[j] == k;
      } else if i < |a| {
        assert s[i] == a[i] && a[i] in a;
        assert s[j] == b[j - |a| - 1] && b[j - |a| - 1] in b;
      } else if i == |a| {
        assert s[i] == k && s[j] == b[j - |a| - 1] && b[j - |a| - 1] in b;
      } else {
        assert s[i] == b[i - |a| - 1] && s[j] == b[j - |a| - 1];
      }
    }
  }

  lemma {:induction false} SortedTail(s: seq<int>)
    requires Sorted(s) && s != []
    ensures Sorted(s[1..]) && forall x :: x in s[1..] ==> s[0] < x
  {
    forall x | x in s[1..] ensures s[0] < x {
      var j :| 0 <= j < |s[1..]| && s[1..][j] == x;
      assert s[j + 1] == x;
    }
  }

  lemma {:induction false} CountLessAppend(a: seq<int>, b: seq<int>, k: int)
    ensures CountLess(a + b, k) == CountLess(a, k) + CountLess(b, k)
  {
    if a == [] {
      assert a + b == b;
    } else {
      assert (a + b)[1..] == a[1..] + b;
      CountLessAppend(a[1..], b, k);
    }
  }

  lemma {:induction false} CountLessAllBelow(s: seq<int>, k: int)
    requires forall x :: x in s ==> x < k
    ensures CountLess(s, k) == |s|
  {
    if s != [] {
      assert s[0] in s && forall x :: x in s[1..] ==> x in s;
      CountLessAllBelow(s[1..], k);
    }
  }

  lemma {:induction false} CountLessNoneBelow(s: seq<int>, k: int)
    requires forall x :: x in s ==> k <= x
    ensures CountLess(s, k) == 0
  {
    if s != [] {
      assert s[0] in s && forall x :: x in s[1..] ==> x in s;
      CountLessNoneBelow(s[1..], k);
    }
  }

  /**
   * In an ascending sequence the elements below `k` are exactly a prefix, and
   * CountLess is its length: position i holds a key below k iff i < CountLess(s, k).
   */
  lemma {:induction false} CountLessSplits(s: seq<int>, k: int)
    requires Sorted(s)
    ensures CountLess(s, k) <= |s|
    ensures forall i :: 0 <= i < |s| ==> (s[i] < k <==> i < CountLess(s, k))
  {
    if s != [] {
      SortedTail(s);
      CountLessSplits(s[1..], k);
      if s[0] < k {
        forall i | 0 < i < |s| ensures s[i] < k <==> i < CountLess(s, k) {
          assert s[i] == s[1..][i - 1];
        }
      } else {
        forall x | x in s[1..] ensures k <= x { }
        CountLessNoneBelow(s[1..], k);
      }
    }
  }

  /** The element at position i of an ascending sequence has exactly i smaller elements. */
  lemma CountLessAt(s: seq<int>, i: nat)
    requires Sorted(s) && i < |s|
    ensures CountLess(s, s[i]) == i
  {
    CountLessSplits(s, s[i]);
    if i > 0 {
      assert s[i - 1] < s[i];
    }
  }

  lemma {:induction false} RangeAppend(a: seq<int>, b: seq<int>, lo: int, hi: int)
    ensures Range(a + b, lo, hi) == Range(a, lo, hi) + Range(b, lo, hi)
  {
    if a == [] {
      assert a + b == b;
    } else {
      assert (a + b)[1..] == a[1..] + b;
      RangeAppend(a[1..], b, lo, hi);
    }
  }

  lemma {:induction false} RangeNone(s: seq<int>, lo: int, hi: int)
    requires forall x :: x in s ==> x < lo || hi < x
    ensures Range(s, lo, hi) == []
  {
    if s != [] {
      assert s[0] in s && forall x :: x in s[1..] ==> x in s;
      RangeNone(s[1..], lo, hi);
    }
  }

  lemma {:induction false} RangeAll(s: seq<int>, lo: int, hi: int)
    requires forall x :: x in s ==> lo <= x <= hi
    ensures Range(s, lo, hi) == s
  {
    if s != [] {
      assert s[0] in s && forall x :: x in s[1..] ==> x in s;
      RangeAll(s[1..], lo, hi);
      assert s == [s[0]] + s[1..];
    }
  }

  /** Range keeps exactly the elements of `s` that lie in [lo, hi]. */
  lemma {:induction false} RangeMembers(s: seq<int>, lo: int, hi: int)
    ensures forall x :: x in Range(s, lo, hi) <==> x in s && lo <= x <= hi
  {
    if s != [] {
      RangeMembers(s[1..], lo, hi);
      assert s == [s[0]] + s[1..];
    }
  }

  /** Range of an ascending sequence is ascending. */
  lemma {:induction false} RangeSorted(s: seq<int>, lo: int, hi: int)
    requires Sorted(s)
    ensures Sorted(Range(s, lo, hi))
  {
    if s != [] {
      SortedTail(s);
      RangeSorted(s[1..], lo, hi);
      RangeMembers(s[1..], lo, hi);
      var rest := Range(s[1..], lo, hi);
      if lo <= s[0] <= hi {
        SortedConcat([], s[0], rest);
        assert [] + [s[0]] + rest == Range(s, lo, hi);
      } else {
        assert Range(s, lo, hi) == rest;
      }
    }
  }

  /**
   * Counting the keys in [lo, hi] by ranks: for lo <= hi the keys below hi,
   * plus hi itself when present, minus the keys below lo.
   */
  lemma {:induction false} RangeCount(s: seq<int>, lo: int, hi: int)
    requires Sorted(s) && lo <= hi
    ensures |Range(s, lo, hi)| + CountLess(s, lo) == CountLess(s, hi) + (if hi in s then 1 else 0)
  {
    if s != [] {
      SortedTail(s);
      RangeCount(s[1..], lo, hi);
      assert s == [s[0]] + s[1..];
      assert hi in s <==> hi == s[0] || hi in s[1..];
    }
  }

  lemma {:induction false} RemoveAppend(a: seq<int>, b: seq<int>, k: int)
    ensures Remove(a + b, k) == Remove(a, k) + Remove(b, k)
  {
    if a == [] {
      assert a + b == b;
    } else {
      assert (a + b)[1..] == a[1..] + b;
      RemoveAppend(a[1..], b, k);
    }
  }

  /** Inserting `x` at position `i` of the left part of `a + [k] + b` is inserting it at position `i` of the whole. */
  lemma InsertLeftOf(a: seq<int>, k: int, b: seq<int>, x: int, i: nat)
    requires i <= |a|
    ensures (a[..i] + [x] + a[i..]) + [k] + b == (a + [k] + b)[..i] + [x] + (a + [k] + b)[i..]
  {
    var s := a + [k] + b;
    assert s[..i] == a[..i];
    assert s[i..] == a[i..] + [k] + b;
  }

  /** Inserting `x` at position `i` of the right part of `a + [k] + b` is inserting it at position `j == |a| + 1 + i` of the whole. */
  lemma InsertRightOf(a: seq<int>, k: int, b: seq<int>, x: int, i: nat, j: nat)
    requires i <= |b| && j == |a| + 1 + i
    ensures a + [k] + (b[..i] + [x] + b[i..]) == (a + [k] + b)[..j] + [x] + (a + [k] + b)[j..]
  {
    var s := a + [k] + b;
    assert s[..j] == a + [k] + b[..i];
    assert s[j..] == b[i..];
  }

  /** Removing from a node's in-order walk works side by side. */
  lemma RemoveAtNode(a: seq<int>, k: int, b: seq<int>, x: int)
    ensures Remove(a + [k] + b, x) == Remove(a, x) + (if k == x then [] else [k]) + Remove(b, x)
  {
    RemoveAppend(a + [k], b, x);
    RemoveAppend(a, [k], x);
    assert [k][1..] == [];
  }

  lemma {:induction false} RemoveAbsent(s: seq<int>, k: int)
    requires k !in s
    ensures Remove(s, k) == s
  {
    if s != [] {
      RemoveAbsent(s[1..], k);
      assert s == [s[0]] + s[1..];
    }
  }
}
