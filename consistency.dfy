/**
 * The id index of the min-heap and the consistency check over it.
 * `ids` is id_array: slot i holds the position of id i in the entry array,
 * or the sentinel -1 when id i is not in the heap.
 */
module Consistency {
  import opened HeapOrder

  /** Every heap position's id is in range and indexes back to that position. */
  ghost predicate PositionsIndexed<D>(e: seq<Entry<D>>, ids: seq<int>, n: nat)
    requires n <= |e|
  {
    forall p :: 0 <= p < n ==> 0 <= e[p].id < |ids| && ids[e[p].id] == p
  }

  /** Every slot holds -1 or a position in [0, n) whose entry carries that id. */
  ghost predicate SlotsPointBack<D>(e: seq<Entry<D>>, ids: seq<int>, n: nat)
    requires n <= |e|
  {
    forall i :: 0 <= i < |ids| && ids[i] != -1 ==> 0 <= ids[i] < n && e[ids[i]].id == i
  }

  /** The id <-> position bijection between id_array and MHE_array[0 .. n-1]. */
  ghost predicate Bijection<D>(e: seq<Entry<D>>, ids: seq<int>, n: nat)
    requires n <= |e|
  {
    PositionsIndexed(e, ids, n) && SlotsPointBack(e, ids, n)
  }

  /**
   * The map m is the content the two arrays represent: exactly the ids with a
   * non-sentinel slot are in m, each mapped to the entry at its position.
   */
  ghost predicate Represents<D>(m: map<int, Entry<D>>, e: seq<Entry<D>>, ids: seq<int>, n: nat)
    requires n <= |e|
  {
    (forall id :: id in m <==> 0 <= id < |ids| && ids[id] != -1) &&
    (forall id :: id in m ==> 0 <= id < |ids| && 0 <= ids[id] < n && m[id] == e[ids[id]])
  }

  /** Writing an absent id's entry at position n and indexing it there keeps the index exact. */
  lemma AppendKeepsIndex<D>(m: map<int, Entry<D>>, e: seq<Entry<D>>, ids: seq<int>, n: nat, x: Entry<D>)
    requires n < |e| && 0 <= x.id < |ids| && ids[x.id] == -1
    requires Bijection(e, ids, n) && Represents(m, e, ids, n)
    ensures Bijection(e[n := x], ids[x.id := n], n + 1)
    ensures Represents(m[x.id := x], e[n := x], ids[x.id := n], n + 1)
  {
    var e2, ids2 := e[n := x], ids[x.id := n];
    forall p | 0 <= p < n
      ensures 0 <= e2[p].id < |ids2| && ids2[e2[p].id] == p
    {
      assert ids[e[p].id] == p;
    }
    forall id | id in m
      ensures ids[id] != n
    {
    }
  }

  /**
   * Exchanging two distinct heap positions and pointing both moved ids at
   * their new positions keeps the index exact and the content unchanged.
   */
  lemma SwapKeepsIndex<D>(m: map<int, Entry<D>>, e: seq<Entry<D>>, ids: seq<int>, n: nat, i: nat, j: nat)
    requires n <= |e| && i < n && j < n && i != j
    requires Bijection(e, ids, n) && Represents(m, e, ids, n)
    ensures var ids' := ids[e[j].id := i][e[i].id := j];
            Bijection(Swap(e, i, j), ids', n) && Represents(m, Swap(e, i, j), ids', n)
  {
    assert e[i].id != e[j].id by {
      assert ids[e[i].id] == i && ids[e[j].id] == j;
    }
    var e2, ids2 := Swap(e, i, j), ids[e[j].id := i][e[i].id := j];
    forall p | 0 <= p < n
      ensures 0 <= e2[p].id < |ids2| && ids2[e2[p].id] == p
    {
      if p != i && p != j {
        assert ids[e[p].id] == p;
      }
    }
    forall k | 0 <= k < |ids2| && ids2[k] != -1
      ensures 0 <= ids2[k] < n && e2[ids2[k]].id == k
    {
      if k != e[i].id && k != e[j].id {
        assert ids[k] != i && ids[k] != j;
      }
    }
    forall id | id in m
      ensures 0 <= ids2[id] < n && m[id] == e2[ids2[id]]
    {
      if id != e[i].id && id != e[j].id {
        assert ids[id] != i && ids[id] != j;
      }
    }
  }

  /** The root's entry is in the content, and its key is the least there. */
  lemma RootIsLeastInContent<D>(m: map<int, Entry<D>>, e: seq<Entry<D>>, ids: seq<int>, n: nat)
    requires 0 < n <= |e| && Bijection(e, ids, n) && Represents(m, e, ids, n) && HeapOrdered(e, n)
    ensures e[0].id in m && m[e[0].id] == e[0]
    ensures forall id :: id in m ==> e[0].key <= m[id].key
  {
    assert ids[e[0].id] == 0;
    forall id | id in m
      ensures e[0].key <= m[id].key
    {
      RootIsMin(e, n, ids[id]);
    }
  }

  /** Removing the root and moving the last entry into its place keeps the index exact. */
  lemma RemoveRootKeepsIndex<D>(m: map<int, Entry<D>>, e: seq<Entry<D>>, ids: seq<int>, n: nat)
    requires 0 < n <= |e| && Bijection(e, ids, n) && Represents(m, e, ids, n)
    ensures var root, last := e[0], e[n - 1];
            var ids' := ids[root.id := -1];
            if n == 1 then
              Bijection(e, ids', 0) && Represents(m - {root.id}, e, ids', 0)
            else
              Bijection(e[0 := last], ids'[last.id := 0], n - 1) &&
              Represents(m - {root.id}, e[0 := last], ids'[last.id := 0], n - 1)
  {
    var root, last := e[0], e[n - 1];
    var ids' := ids[root.id := -1];
    if n > 1 {
      assert root.id != last.id by {
        assert ids[root.id] == 0 && ids[last.id] == n - 1;
      }
      var e2, ids2 := e[0 := last], ids'[last.id := 0];
      forall p | 0 <= p < n - 1
        ensures 0 <= e2[p].id < |ids2| && ids2[e2[p].id] == p
      {
        if p > 0 {
          assert ids[e[p].id] == p;
        }
      }
      forall i | 0 <= i < |ids2| && ids2[i] != -1
        ensures 0 <= ids2[i] < n - 1 && e2[ids2[i]].id == i
      {
        if i != last.id {
          assert i != root.id && ids[i] != -1;
          assert ids[i] != 0 && ids[i] != n - 1;
        }
      }
      forall id | id in m - {root.id}
        ensures 0 <= ids2[id] < n - 1 && (m - {root.id})[id] == e2[ids2[id]]
      {
        if id != last.id {
          assert ids[id] != 0 && ids[id] != n - 1;
        } else {
          assert ids[id] == n - 1;
        }
      }
    } else {
      forall i | 0 <= i < |ids'|
        ensures ids'[i] == -1
      {
      }
    }
  }

  /** Overwriting the key at a heap position keeps the index, with that id's key updated. */
  lemma SetKeyKeepsIndex<D>(m: map<int, Entry<D>>, e: seq<Entry<D>>, ids: seq<int>, n: nat, p: nat, k: int)
    requires n <= |e| && p < n && Bijection(e, ids, n) && Represents(m, e, ids, n)
    ensures e[p].id in m
    ensures Bijection(e[p := e[p].(key := k)], ids, n)
    ensures Represents(m[e[p].id := m[e[p].id].(key := k)], e[p := e[p].(key := k)], ids, n)
  {
    var e2 := e[p := e[p].(key := k)];
    var m2 := m[e[p].id := m[e[p].id].(key := k)];
    forall id | id in m2
      ensures 0 <= ids[id] < n && m2[id] == e2[ids[id]]
    {
      if id != e[p].id {
        assert ids[id] != p;
      }
    }
  }

  /** The number of slots that are not -1: `total` after the check's first loop. */
  function CountPresent(ids: seq<int>): (c: nat)
  {
    if |ids| == 0 then 0
    else CountPresent(ids[..|ids| - 1]) + (if ids[|ids| - 1] != -1 then 1 else 0)
  }

  /** At most every slot is counted. */
  lemma {:induction false} CountPresentAtMost(ids: seq<int>)
    ensures CountPresent(ids) <= |ids|
  {
    if |ids| > 0 {
      CountPresentAtMost(ids[..|ids| - 1]);
    }
  }

  ghost function PresentIds(ids: seq<int>): (s: set<int>)
  {
    set i | 0 <= i < |ids| && ids[i] != -1
  }

  /** The positions 0 .. n-1. */
  ghost function Positions(n: nat): (s: set<int>)
  {
    if n == 0 then {} else Positions(n - 1) + {n - 1}
  }

  lemma {:induction false} PositionsMembers(n: nat)
    ensures forall p :: p in Positions(n) <==> 0 <= p < n
  {
    if n > 0 {
      PositionsMembers(n - 1);
    }
  }

  lemma {:induction false} CountPresentIsCard(ids: seq<int>)
    ensures CountPresent(ids) == |PresentIds(ids)|
  {
    if |ids| > 0 {
      var m := |ids| - 1;
      var front := ids[..m];
      CountPresentIsCard(front);
      assert m !in PresentIds(front);
      if ids[m] != -1 {
        assert PresentIds(ids) == PresentIds(front) + {m};
      } else {
        assert PresentIds(ids) == PresentIds(front);
      }
    }
  }

  lemma {:induction false} PositionsCard(n: nat)
    ensures |Positions(n)| == n
  {
    if n > 0 {
      PositionsCard(n - 1);
      PositionsMembers(n - 1);
    }
  }

  lemma {:induction false} AllAbsentCountsZero(ids: seq<int>)
    requires forall i :: 0 <= i < |ids| ==> ids[i] == -1
    ensures CountPresent(ids) == 0
  {
    if |ids| > 0 {
      AllAbsentCountsZero(ids[..|ids| - 1]);
    }
  }

  /** An injective map preserves the size of a finite set of ints. */
  lemma {:induction false} InjectiveImageCard(s: set<int>, f: int -> int)
    requires forall x, y :: x in s && y in s && f(x) == f(y) ==> x == y
    ensures |set x | x in s :: f(x)| == |s|
  {
    if s != {} {
      assert exists a :: a in s by {
        if forall a :: a !in s { assert false; }
      }
      var a :| a in s;
      var rest := s - {a};
      InjectiveImageCard(rest, f);
      assert (set y | y in s :: f(y)) == (set y | y in rest :: f(y)) + {f(a)};
    }
  }

  lemma SubsetOfSameCard(a: set<int>, b: set<int>)
    requires a <= b && |a| == |b|
    ensures a == b
  {
    assert |b - a| == |b| - |a|;
  }

  /**
   * Given that every non-sentinel slot points back, the positions are all
   * indexed exactly when the count of non-sentinel slots equals n.
   */
  lemma CountMatchesIffPositionsIndexed<D>(e: seq<Entry<D>>, ids: seq<int>, n: nat)
    requires n <= |e| && SlotsPointBack(e, ids, n)
    ensures PositionsIndexed(e, ids, n) <==> CountPresent(ids) == n
  {
    CountPresentIsCard(ids);
    PositionsCard(n);
    PositionsMembers(n);
    var present := PresentIds(ids);
    var slot := (i: int) => if 0 <= i < |ids| then ids[i] else -1;
    forall x, y | x in present && y in present && slot(x) == slot(y)
      ensures x == y
    {
      assert e[ids[x]].id == x && e[ids[y]].id == y;
    }
    InjectiveImageCard(present, slot);
    var image := set i | i in present :: slot(i);
    assert image <= Positions(n);
    if PositionsIndexed(e, ids, n) {
      forall p | p in Positions(n)
        ensures p in image
      {
        assert e[p].id in present && slot(e[p].id) == p;
      }
      assert image == Positions(n);
    }
    if CountPresent(ids) == n {
      SubsetOfSameCard(image, Positions(n));
      forall p | 0 <= p < n
        ensures 0 <= e[p].id < |ids| && ids[e[p].id] == p
      {
        assert p in image;
        var i :| i in present && slot(i) == p;
        assert e[ids[i]].id == i;
      }
    }
  }

  /**
   * The consistency check with its range test against the current heap size:
   * slots point back into [0, n), the non-sentinel count is n, heap order holds.
   */
  ghost predicate Consistent<D>(e: seq<Entry<D>>, ids: seq<int>, n: nat): (ok: bool)
    ensures ok ==> ConsistentAsWritten(e, ids, n)
  {
    CountPresentAtMost(ids);
    n <= |e| && SlotsPointBack(e, ids, n) && CountPresent(ids) == n && HeapOrdered(e, n)
  }

  /** The check accepts exactly the states in which both heap invariants hold. */
  lemma ConsistentIffInvariants<D>(e: seq<Entry<D>>, ids: seq<int>, n: nat)
    requires n <= |e|
    ensures Consistent(e, ids, n) <==> Bijection(e, ids, n) && HeapOrdered(e, n)
  {
    if SlotsPointBack(e, ids, n) {
      CountMatchesIffPositionsIndexed(e, ids, n);
    }
  }

  /**
   * The check as written: a slot's position is range-tested against the size
   * of the id array (not the heap size). A position past the entry array is
   * an out-of-bounds read in the code; here such a slot is taken to fail.
   */
  ghost predicate ConsistentAsWritten<D>(e: seq<Entry<D>>, ids: seq<int>, n: nat): (ok: bool)
    ensures ok ==> n <= |ids|
  {
    CountPresentAtMost(ids);
    n <= |e| &&
    (forall i :: 0 <= i < |ids| && ids[i] != -1 ==>
       0 <= ids[i] < |ids| && ids[i] < |e| && e[ids[i]].id == i) &&
    CountPresent(ids) == n && HeapOrdered(e, n)
  }

  /**
   * A state the as-written check accepts although heap position 0 holds id 5,
   * which the id array marks absent: slot 7 points at position 1, a stale
   * cell past the heap size 1. The corrected check rejects it.
   */
  lemma StaleSlotPassesAsWritten()
    ensures var e := [Entry(0, 0, 5), Entry(0, 0, 7)];
            var ids := [-1, -1, -1, -1, -1, -1, -1, 1];
            ConsistentAsWritten(e, ids, 1) && !Bijection(e, ids, 1) && !Consistent(e, ids, 1)
  {
    var e := [Entry(0, 0, 5), Entry(0, 0, 7)];
    var ids := [-1, -1, -1, -1, -1, -1, -1, 1];
    AllAbsentCountsZero(ids[..7]);
    assert CountPresent(ids) == 1;
    assert ids[e[0].id] != 0;
    assert !(0 <= ids[7] < 1);
  }
}
