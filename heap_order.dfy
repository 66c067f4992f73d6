/**
 * Heap order over the entry array of the addressable min-heap in min_heap.c.
 * Positions 0 .. n-1 of a sequence form an implicit binary tree: the children
 * of position p are 2p+1 and 2p+2, and the parent of a position k > 0 is
 * (k-1)/2 (C truncation and Dafny's division agree there, since k-1 >= 0).
 */
module HeapOrder {

  /** One cell of MHE_array: the key, the caller's payload and the external id. */
  datatype Entry<D> = Entry(key: int, data: D, id: int)

  function Parent(k: nat): (r: nat)
    requires k > 0
  {
    (k - 1) / 2
  }

  /**
   * The parent/child test Min_HeapExchangeElements makes before it swaps:
   * the two positions differ and the larger one is a child of the smaller.
   */
  predicate ParentChild(i: int, j: int)
  {
    i != j &&
    if i < j then j == 2 * i + 1 || j == 2 * i + 2
    else i == 2 * j + 1 || i == 2 * j + 2
  }

  /** Heap order on [0, n): no entry has a smaller key than its parent. */
  ghost predicate HeapOrdered<D>(s: seq<Entry<D>>, n: nat)
    requires n <= |s|
  {
    forall k :: 0 < k < n ==> s[Parent(k)].key <= s[k].key
  }

  /** Position p is no larger than those of its children that lie in [0, n). */
  ghost predicate OrderedAt<D>(s: seq<Entry<D>>, n: nat, p: nat)
    requires n <= |s|
  {
    (2 * p + 1 < n ==> s[p].key <= s[2 * p + 1].key) &&
    (2 * p + 2 < n ==> s[p].key <= s[2 * p + 2].key)
  }

  /** The parent of cur (if any) is no larger than the children of cur. */
  ghost predicate Bridged<D>(s: seq<Entry<D>>, n: nat, cur: nat)
    requires n <= |s| && cur < n
  {
    cur > 0 ==> forall c :: 0 < c < n && Parent(c) == cur ==> s[Parent(cur)].key <= s[c].key
  }

  /**
   * What sift-up assumes: heap order holds everywhere except possibly
   * between cur and its parent ("everyone below it is ok").
   */
  ghost predicate OrderedExceptAbove<D>(s: seq<Entry<D>>, n: nat, cur: nat)
    requires n <= |s| && cur < n
  {
    (forall k :: 0 < k < n && k != cur ==> s[Parent(k)].key <= s[k].key) &&
    Bridged(s, n, cur)
  }

  /**
   * What sift-down assumes: heap order holds everywhere except possibly
   * between cur and its children ("everyone above it is ok").
   */
  ghost predicate OrderedExceptBelow<D>(s: seq<Entry<D>>, n: nat, cur: nat)
    requires n <= |s| && cur < n
  {
    (forall k :: 0 < k < n && Parent(k) != cur ==> s[Parent(k)].key <= s[k].key) &&
    Bridged(s, n, cur)
  }

  /** The effect of one exchange of positions i and j on the entry array. */
  function Swap<D>(s: seq<Entry<D>>, i: nat, j: nat): (t: seq<Entry<D>>)
    requires i < |s| && j < |s|
    ensures |t| == |s| && t[i] == s[j] && t[j] == s[i]
    ensures forall k :: 0 <= k < |s| && k != i && k != j ==> t[k] == s[k]
  {
    s[i := s[j]][j := s[i]]
  }

  /** An exchange inside [0, n) keeps the multiset of the first n entries. */
  lemma SwapKeepsMultiset<D>(s: seq<Entry<D>>, n: nat, i: nat, j: nat)
    requires n <= |s| && i < n && j < n
    ensures multiset(Swap(s, i, j)[..n]) == multiset(s[..n])
  {
    assert Swap(s, i, j)[..n] == s[..n][i := s[j]][j := s[i]];
  }

  /** The root of a heap-ordered prefix holds its least key. */
  lemma {:induction false} RootIsMin<D>(s: seq<Entry<D>>, n: nat, k: nat)
    requires n <= |s| && HeapOrdered(s, n) && k < n
    ensures s[0].key <= s[k].key
  {
    if k > 0 {
      RootIsMin(s, n, Parent(k));
    }
  }

  /** Sift-up stops correctly: at the root, or below a parent that is not larger. */
  lemma SiftUpDone<D>(s: seq<Entry<D>>, n: nat, cur: nat)
    requires n <= |s| && cur < n && OrderedExceptAbove(s, n, cur)
    requires cur == 0 || s[Parent(cur)].key <= s[cur].key
    ensures HeapOrdered(s, n)
  {
  }

  /** One step of sift-up: swapping cur with a strictly larger parent moves the defect up. */
  lemma SiftUpStep<D>(s: seq<Entry<D>>, n: nat, cur: nat)
    requires n <= |s| && 0 < cur < n && OrderedExceptAbove(s, n, cur)
    requires s[Parent(cur)].key > s[cur].key
    ensures OrderedExceptAbove(Swap(s, Parent(cur), cur), n, Parent(cur))
  {
    var p := Parent(cur);
    var t := Swap(s, p, cur);
    forall k | 0 < k < n && k != p
      ensures t[Parent(k)].key <= t[k].key
    {
      if k == cur {
      } else if Parent(k) == p {
        assert s[p].key <= s[k].key;
      } else if Parent(k) == cur {
        assert s[Parent(cur)].key <= s[k].key;
      } else {
        assert t[Parent(k)] == s[Parent(k)] && t[k] == s[k];
      }
    }
    if p > 0 {
      forall c | 0 < c < n && Parent(c) == p
        ensures t[Parent(p)].key <= t[c].key
      {
        assert s[Parent(p)].key <= s[p].key;
        if c != cur {
          assert s[p].key <= s[c].key;
        }
      }
    }
  }

  /** Sift-down stops correctly: when no child is strictly smaller than cur. */
  lemma SiftDownDone<D>(s: seq<Entry<D>>, n: nat, cur: nat)
    requires n <= |s| && cur < n && OrderedExceptBelow(s, n, cur)
    requires OrderedAt(s, n, cur)
    ensures HeapOrdered(s, n)
  {
    forall k | 0 < k < n && Parent(k) == cur
      ensures s[Parent(k)].key <= s[k].key
    {
      assert k == 2 * cur + 1 || k == 2 * cur + 2;
    }
  }

  /**
   * One step of sift-down: swapping cur with its smallest child m, which is
   * strictly smaller than cur, moves the defect down to m.
   */
  lemma SiftDownStep<D>(s: seq<Entry<D>>, n: nat, cur: nat, m: nat)
    requires n <= |s| && cur < n && OrderedExceptBelow(s, n, cur)
    requires m < n && (m == 2 * cur + 1 || m == 2 * cur + 2) && s[m].key < s[cur].key
    requires 2 * cur + 1 < n ==> s[m].key <= s[2 * cur + 1].key
    requires 2 * cur + 2 < n ==> s[m].key <= s[2 * cur + 2].key
    ensures OrderedExceptBelow(Swap(s, m, cur), n, m)
  {
    assert Parent(m) == cur;
    var t := Swap(s, m, cur);
    forall k | 0 < k < n && Parent(k) != m
      ensures t[Parent(k)].key <= t[k].key
    {
      if k == m {
      } else if Parent(k) == cur {
        assert k == 2 * cur + 1 || k == 2 * cur + 2;
      } else if k == cur {
        assert s[Parent(cur)].key <= s[m].key;
      } else {
        assert t[Parent(k)] == s[Parent(k)] && t[k] == s[k];
      }
    }
    forall c | 0 < c < n && Parent(c) == m
      ensures t[Parent(m)].key <= t[c].key
    {
      assert s[m].key <= s[c].key;
    }
  }

  /** Writing a new entry just past a heap-ordered prefix leaves a defect only above it. */
  lemma AppendGivesOrderedExceptAbove<D>(s: seq<Entry<D>>, n: nat, e: Entry<D>)
    requires n < |s| && HeapOrdered(s, n)
    ensures OrderedExceptAbove(s[n := e], n + 1, n)
  {
    var t := s[n := e];
    forall k | 0 < k < n + 1 && k != n
      ensures t[Parent(k)].key <= t[k].key
    {
      assert t[Parent(k)] == s[Parent(k)] && t[k] == s[k];
    }
  }

  /** Lowering the key at p in a heap leaves a defect only above p. */
  lemma DecreaseGivesOrderedExceptAbove<D>(s: seq<Entry<D>>, n: nat, p: nat, newKey: int)
    requires n <= |s| && p < n && HeapOrdered(s, n) && newKey <= s[p].key
    ensures OrderedExceptAbove(s[p := s[p].(key := newKey)], n, p)
  {
    var t := s[p := s[p].(key := newKey)];
    forall k | 0 < k < n && k != p
      ensures t[Parent(k)].key <= t[k].key
    {
      assert s[Parent(k)].key <= s[k].key;
    }
    if p > 0 {
      forall c | 0 < c < n && Parent(c) == p
        ensures t[Parent(p)].key <= t[c].key
      {
        assert s[Parent(p)].key <= s[p].key <= s[c].key;
      }
    }
  }

  /** Raising the key at p in a heap leaves a defect only below p. */
  lemma IncreaseGivesOrderedExceptBelow<D>(s: seq<Entry<D>>, n: nat, p: nat, newKey: int)
    requires n <= |s| && p < n && HeapOrdered(s, n) && newKey >= s[p].key
    ensures OrderedExceptBelow(s[p := s[p].(key := newKey)], n, p)
  {
    var t := s[p := s[p].(key := newKey)];
    forall k | 0 < k < n && Parent(k) != p
      ensures t[Parent(k)].key <= t[k].key
    {
      assert s[Parent(k)].key <= s[k].key;
    }
    if p > 0 {
      forall c | 0 < c < n && Parent(c) == p
        ensures t[Parent(p)].key <= t[c].key
      {
        assert s[Parent(p)].key <= s[p].key <= s[c].key;
      }
    }
  }

  /** Moving the last entry of a heap to the root leaves a defect only below the root. */
  lemma MoveLastToRootGivesOrderedExceptBelow<D>(s: seq<Entry<D>>, n: nat)
    requires 1 < n <= |s| && HeapOrdered(s, n)
    ensures OrderedExceptBelow(s[0 := s[n - 1]], n - 1, 0)
  {
    var t := s[0 := s[n - 1]];
    forall k | 0 < k < n - 1 && Parent(k) != 0
      ensures t[Parent(k)].key <= t[k].key
    {
      assert t[Parent(k)] == s[Parent(k)] && t[k] == s[k];
    }
  }

  /** Moving the last of n entries to the root leaves the others: all but the old root. */
  lemma MoveLastToRootMultiset<D>(s: seq<Entry<D>>, n: nat)
    requires 0 < n <= |s|
    ensures multiset(s[0 := s[n - 1]][..n - 1]) == multiset(s[..n]) - multiset{s[0]}
  {
    if n > 1 {
      assert s[0 := s[n - 1]][..n - 1] == [s[n - 1]] + s[1..n - 1];
      assert s[..n] == [s[0]] + s[1..n - 1] + [s[n - 1]];
    } else {
      assert s[..n] == [s[0]];
    }
  }

  /** The child-by-child test of the consistency check is heap order. */
  lemma {:induction false} OrderedAtAllIsHeapOrdered<D>(s: seq<Entry<D>>, n: nat)
    requires n <= |s|
    ensures (forall p :: 0 <= p < n ==> OrderedAt(s, n, p)) <==> HeapOrdered(s, n)
  {
    if forall p :: 0 <= p < n ==> OrderedAt(s, n, p) {
      forall k | 0 < k < n
        ensures s[Parent(k)].key <= s[k].key
      {
        assert OrderedAt(s, n, Parent(k));
      }
    }
    if HeapOrdered(s, n) {
      forall p | 0 <= p < n
        ensures OrderedAt(s, n, p)
      {
        if 2 * p + 1 < n {
          assert Parent(2 * p + 1) == p;
        }
        if 2 * p + 2 < n {
          assert Parent(2 * p + 2) == p;
        }
      }
    }
  }
}
