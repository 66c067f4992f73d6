/**
 * The addressable binary min-heap of min_heap.c: a fixed-capacity array of
 * entries kept in heap order, and an id array that maps every external id
 * in [0, maxIdArraySize) to that id's position in the entry array, or to -1
 * when the id is not in the heap.
 */
module MinHeaps {
  import opened HeapOrder
  import opened Consistency

  /** The NO_ERROR / ERROR return codes. */
  datatype Status = NoError | Error

  datatype Option<T> = None | Some(value: T)

  class MinHeap<D(0)> {
    /** MaxHeapSize: the capacity of the entry array. */
    const maxHeapSize: nat
    /** max_id_array_size: ids are drawn from [0, maxIdArraySize). */
    const maxIdArraySize: nat
    /** MHE_array */
    const entries: array<Entry<D>>
    /** id_array */
    const idArray: array<int>
    /** CurrHeapSize: the entries in use are entries[0 .. size-1]. */
    var size: nat

    /** The abstract content: each id in the heap mapped to its entry. */
    ghost var model: map<int, Entry<D>>

    ghost predicate Shape()
      reads this
    {
      entries.Length == maxHeapSize && idArray.Length == maxIdArraySize &&
      maxIdArraySize > 0 && size <= maxHeapSize
    }

    /** Both arrays agree with each other and with the abstract content. */
    ghost predicate Indexed()
      reads this, entries, idArray
    {
      Shape() &&
      Bijection(entries[..], idArray[..], size) &&
      Represents(model, entries[..], idArray[..], size)
    }

    /** The object invariant: the index is consistent and the entries are in heap order. */
    ghost predicate Valid()
      reads this, entries, idArray
    {
      Indexed() && HeapOrdered(entries[..], size)
    }

    /** Min_HeapAllocate for a positive id space: every id slot starts at -1. */
    constructor (maxSize: nat, idSpace: nat)
      requires idSpace > 0
      ensures Valid() && fresh(entries) && fresh(idArray)
      ensures maxHeapSize == maxSize && maxIdArraySize == idSpace
      ensures size == 0 && model == map[]
      ensures forall i :: 0 <= i < idArray.Length ==> idArray[i] == -1
    {
      maxHeapSize := maxSize;
      size := 0;
      entries := new Entry<D>[maxSize];
      var ids := new int[idSpace];
      for i := 0 to idSpace
        invariant forall k :: 0 <= k < i ==> ids[k] == -1
      {
        ids[i] := -1;
      }
      idArray := ids;
      maxIdArraySize := idSpace;
      model := map[];
    }

    /** Min_HeapAllocate: fails (null) when the id space is not positive. */
    static method Allocate(maxSize: nat, idSpace: int) returns (h: MinHeap?<D>)
      ensures h == null <==> idSpace <= 0
      ensures h != null ==>
        fresh(h) && fresh(h.entries) && fresh(h.idArray) && h.Valid() &&
        h.maxHeapSize == maxSize && h.maxIdArraySize == idSpace &&
        h.size == 0 && h.model == map[] &&
        forall i :: 0 <= i < h.idArray.Length ==> h.idArray[i] == -1
    {
      if idSpace <= 0 {
        return null;
      }
      h := new MinHeap<D>(maxSize, idSpace);
    }

    /** The number of entries equals the number of ids present. */
    lemma SizeIsModelCard()
      requires Indexed()
      ensures |model| == size
    {
      ConsistentIffInvariants(entries[..], idArray[..], size);
      CountMatchesIffPositionsIndexed(entries[..], idArray[..], size);
      CountPresentIsCard(idArray[..]);
      assert model.Keys == PresentIds(idArray[..]);
    }

    /** Min_HeapGetCurrSize */
    function GetCurrSize(): (n: nat)
      reads this, entries, idArray
      requires Valid()
      ensures n == |model|
    {
      SizeIsModelCard();
      size
    }

    /** Min_HeapIdIsInHeap: out-of-range ids are reported absent. */
    function IdIsInHeap(id: int): (b: bool)
      reads this, entries, idArray
      requires Valid()
      ensures b <==> id in model
      ensures b ==> 0 <= id < maxIdArraySize
    {
      if id < 0 || id >= idArray.Length then false
      else idArray[id] >= 0
    }

    /** Min_HeapQueryKeyIndexID: the key of a present id, None (the -1 return) otherwise. */
    function QueryKeyIndexID(id: int): (r: Option<int>)
      reads this, entries, idArray
      requires Valid()
      ensures r.Some? <==> id in model
      ensures r.Some? ==> r.value == model[id].key
    {
      if IdIsInHeap(id) then Some(entries[idArray[id]].key) else None
    }

    /**
     * Min_HeapExchangeElements: refuses unless i and j are distinct positions
     * in [0, size) in a parent/child relation; otherwise swaps the two entries
     * and points both moved ids at their new positions.
     */
    method ExchangeElements(i: int, j: int) returns (status: Status)
      requires Indexed()
      modifies entries, idArray
      ensures Indexed()
      ensures status == NoError <==> 0 <= i < size && 0 <= j < size && ParentChild(i, j)
      ensures status == Error ==> entries[..] == old(entries[..]) && idArray[..] == old(idArray[..])
      ensures status == NoError ==>
        entries[..] == Swap(old(entries[..]), i, j) &&
        idArray[..] == old(idArray[..])[old(entries[j].id) := i][old(entries[i].id) := j]
    {
      if i < 0 || i >= size {
        return Error;
      }
      if j < 0 || j >= size {
        return Error;
      }
      if i == j {
        return Error;
      } else if i < j {
        if j != 2 * i + 1 && j != 2 * i + 2 {
          return Error;
        }
      } else {
        if i != 2 * j + 1 && i != 2 * j + 2 {
          return Error;
        }
      }
      ghost var e0, ids0 := entries[..], idArray[..];
      SwapKeepsIndex(model, e0, ids0, size, i, j);
      var temp := entries[i];
      entries[i] := entries[j];
      entries[j] := temp;
      idArray[entries[i].id] := i;
      idArray[entries[j].id] := j;
      assert entries[..] == Swap(e0, i, j);
      assert idArray[..] == ids0[e0[j].id := i][e0[i].id := j];
      return NoError;
    }

    /**
     * Min_HeapifyUp: with heap order broken at most between index and its
     * parent, swaps index upward while its parent is strictly larger.
     */
    method HeapifyUp(index: int) returns (status: Status)
      requires Indexed()
      requires 0 <= index < size ==> OrderedExceptAbove(entries[..], size, index)
      modifies entries, idArray
      ensures Indexed()
      ensures status == NoError <==> 0 <= index < size
      ensures status == NoError ==> HeapOrdered(entries[..], size)
      ensures multiset(entries[..size]) == old(multiset(entries[..size]))
      ensures status == Error || index == 0 || old(entries[Parent(index)].key <= entries[index].key) ==>
        entries[..] == old(entries[..]) && idArray[..] == old(idArray[..])
    {
      if index < 0 || index >= size {
        return Error;
      }
      ghost var e0, ids0 := entries[..], idArray[..];
      ghost var inOrder := index == 0 || e0[Parent(index)].key <= e0[index].key;
      var cur := index;
      while true
        invariant 0 <= cur < size
        invariant Indexed()
        invariant OrderedExceptAbove(entries[..], size, cur)
        invariant multiset(entries[..size]) == multiset(e0[..size])
        invariant inOrder ==> cur == index && entries[..] == e0 && idArray[..] == ids0
        decreases cur
      {
        if cur <= 0 {
          break;
        }
        var parent := (cur - 1) / 2;
        if entries[parent].key > entries[cur].key {
          SiftUpStep(entries[..], size, cur);
          SwapKeepsMultiset(entries[..], size, parent, cur);
          var st := ExchangeElements(parent, cur);
          assert st == NoError;
          cur := parent;
        } else {
          break;
        }
      }
      SiftUpDone(entries[..], size, cur);
      return NoError;
    }

    /**
     * The choice of sift-down among cur and its children: the left child if it
     * is strictly smaller than cur, then the right child if it is strictly
     * smaller than that; cur itself when neither is.
     */
    function Smallest(cur: nat): (m: nat)
      reads this, entries
      requires size <= entries.Length && cur < size
      ensures m < size && (m == cur || m == 2 * cur + 1 || m == 2 * cur + 2)
      ensures m == cur <==> OrderedAt(entries[..], size, cur)
      ensures m != cur ==> entries[m].key < entries[cur].key
      ensures 2 * cur + 1 < size ==> entries[m].key <= entries[2 * cur + 1].key
      ensures 2 * cur + 2 < size ==> entries[m].key <= entries[2 * cur + 2].key
      ensures m == 2 * cur + 2 ==> entries[2 * cur + 2].key < entries[2 * cur + 1].key
    {
      var left, right := 2 * cur + 1, 2 * cur + 2;
      if left < size then
        var smallest := if entries[left].key < entries[cur].key then left else cur;
        if right < size && entries[right].key < entries[smallest].key then right else smallest
      else
        cur
    }

    /**
     * Min_HeapifyDown: with heap order broken at most between index and its
     * children, swaps index with its smallest strictly smaller child until
     * no child is strictly smaller.
     */
    method HeapifyDown(index: int) returns (status: Status)
      requires Indexed()
      requires 0 <= index < size ==> OrderedExceptBelow(entries[..], size, index)
      modifies entries, idArray
      ensures Indexed()
      ensures status == NoError <==> 0 <= index < size
      ensures status == NoError ==> HeapOrdered(entries[..], size)
      ensures multiset(entries[..size]) == old(multiset(entries[..size]))
      ensures status == Error || old(OrderedAt(entries[..], size, index)) ==>
        entries[..] == old(entries[..]) && idArray[..] == old(idArray[..])
    {
      if index < 0 || index >= size {
        return Error;
      }
      ghost var e0, ids0 := entries[..], idArray[..];
      ghost var inOrder := OrderedAt(e0, size, index);
      var cur := index;
      while true
        invariant 0 <= cur < size
        invariant Indexed()
        invariant OrderedExceptBelow(entries[..], size, cur)
        invariant multiset(entries[..size]) == multiset(e0[..size])
        invariant inOrder ==> cur == index && entries[..] == e0 && idArray[..] == ids0
        decreases size - cur
      {
        var smallest := Smallest(cur);
        if smallest == cur {
          break;
        }
        SiftDownStep(entries[..], size, cur, smallest);
        SwapKeepsMultiset(entries[..], size, smallest, cur);
        var st := ExchangeElements(smallest, cur);
        assert st == NoError;
        cur := smallest;
      }
      SiftDownDone(entries[..], size, cur);
      return NoError;
    }

    /**
     * Min_HeapInsert: refuses an out-of-range id, an id already present and a
     * full heap, changing nothing; otherwise appends the entry and sifts it up.
     */
    method Insert(key: int, data: D, id: int) returns (status: Status)
      requires Valid()
      modifies this, entries, idArray
      ensures Valid()
      ensures status == Error <==>
        id < 0 || id >= maxIdArraySize || id in old(model) || old(size) == maxHeapSize
      ensures status == Error ==>
        size == old(size) && model == old(model) &&
        entries[..] == old(entries[..]) && idArray[..] == old(idArray[..])
      ensures status == NoError ==>
        size == old(size) + 1 && model == old(model)[id := Entry(key, data, id)] &&
        multiset(entries[..size]) == old(multiset(entries[..size])) + multiset{Entry(key, data, id)}
    {
      if id < 0 || id >= idArray.Length {
        return Error;
      }
      if IdIsInHeap(id) {
        return Error;
      }
      if size == maxHeapSize {
        return Error;
      }
      ghost var e0, ids0 := entries[..], idArray[..];
      AppendKeepsIndex(model, e0, ids0, size, Entry(key, data, id));
      entries[size] := Entry(key, data, id);
      idArray[id] := size;
      size := size + 1;
      model := model[id := Entry(key, data, id)];
      assert entries[..] == e0[size - 1 := Entry(key, data, id)];
      assert idArray[..] == ids0[id := size - 1];
      assert entries[..size] == e0[..size - 1] + [Entry(key, data, id)];
      AppendGivesOrderedExceptAbove(e0, size - 1, Entry(key, data, id));
      var st := HeapifyUp(size - 1);
      return NoError;
    }

    /**
     * Min_HeapExtract: refuses an empty heap, changing nothing; otherwise
     * returns the root, marks its id absent, moves the last entry to the root
     * and sifts it down.
     */
    method Extract() returns (r: Option<Entry<D>>)
      requires Valid()
      modifies this, entries, idArray
      ensures Valid()
      ensures r.None? <==> old(size) == 0
      ensures r.None? ==>
        size == old(size) && model == old(model) &&
        entries[..] == old(entries[..]) && idArray[..] == old(idArray[..])
      ensures r.Some? ==>
        r.value == old(entries[0]) && r.value.id in old(model) && old(model)[r.value.id] == r.value &&
        (forall id :: id in old(model) ==> r.value.key <= old(model)[id].key) &&
        size == old(size) - 1 && model == old(model) - {r.value.id} &&
        multiset(entries[..size]) == old(multiset(entries[..size])) - multiset{r.value}
    {
      if size == 0 {
        return None;
      }
      var root := RemoveRoot();
      return Some(root);
    }

    /** The part of Min_HeapExtract after the emptiness test. */
    method RemoveRoot() returns (root: Entry<D>)
      requires Valid() && size > 0
      modifies this, entries, idArray
      ensures Valid()
      ensures root == old(entries[0]) && root.id in old(model) && old(model)[root.id] == root
      ensures forall id :: id in old(model) ==> root.key <= old(model)[id].key
      ensures size == old(size) - 1 && model == old(model) - {root.id}
      ensures multiset(entries[..size]) == old(multiset(entries[..size])) - multiset{root}
    {
      ghost var e0, ids0, m0 := entries[..], idArray[..], model;
      root := entries[0];
      RootIsLeastInContent(m0, e0, ids0, size);
      RemoveRootKeepsIndex(m0, e0, ids0, size);
      MoveLastToRootMultiset(e0, size);
      idArray[root.id] := -1;
      size := size - 1;
      model := model - {root.id};
      if size != 0 {
        entries[0] := entries[size];
        idArray[entries[size].id] := 0;
        assert entries[..] == e0[0 := e0[size]];
        assert idArray[..] == ids0[root.id := -1][e0[size].id := 0];
        MoveLastToRootGivesOrderedExceptBelow(e0, size + 1);
        var st := HeapifyDown(0);
      } else {
        assert idArray[..] == ids0[root.id := -1];
        assert entries[..size] == e0[0 := e0[0]][..0];
      }
    }

    /**
     * Min_HeapEditKeyIndexID: refuses an out-of-range or absent id, changing
     * nothing; otherwise overwrites the id's key and sifts up on a smaller key,
     * down on a larger one, and does nothing more on an equal one.
     */
    method EditKeyIndexID(id: int, newKey: int) returns (status: Status)
      requires Valid()
      modifies this, entries, idArray
      ensures Valid() && size == old(size)
      ensures status == Error <==> id !in old(model)
      ensures status == Error ==>
        model == old(model) && entries[..] == old(entries[..]) && idArray[..] == old(idArray[..])
      ensures status == NoError ==> model == old(model)[id := old(model)[id].(key := newKey)]
      ensures status == NoError && old(model)[id].key == newKey ==>
        entries[..] == old(entries[..]) && idArray[..] == old(idArray[..])
    {
      if id < 0 || id >= idArray.Length {
        return Error;
      }
      if !IdIsInHeap(id) {
        return Error;
      }
      ghost var e0 := entries[..];
      var pos := idArray[id];
      SetKeyKeepsIndex(model, e0, idArray[..], size, pos, newKey);
      var tempKey := entries[pos].key;
      entries[pos] := entries[pos].(key := newKey);
      model := model[id := model[id].(key := newKey)];
      if tempKey > newKey {
        DecreaseGivesOrderedExceptAbove(e0, size, pos, newKey);
        var st := HeapifyUp(pos);
      } else if tempKey < newKey {
        IncreaseGivesOrderedExceptBelow(e0, size, pos, newKey);
        var st := HeapifyDown(pos);
      } else {
        assert entries[..] == e0;
      }
      return NoError;
    }

    /**
     * Min_HeapInternalCheck without its printing: scans the id array, then
     * the size, then heap order. Slot positions are range-tested against the
     * heap size.
     */
    method InternalCheck() returns (ok: bool)
      requires Shape()
      ensures ok == Consistent(entries[..], idArray[..], size)
    {
      var total := 0;
      var i := 0;
      while i < idArray.Length
        invariant 0 <= i <= idArray.Length
        invariant total == CountPresent(idArray[..i])
        invariant forall k :: 0 <= k < i && idArray[k] != -1 ==>
          0 <= idArray[k] < size && entries[idArray[k]].id == k
      {
        if idArray[i] != -1 {
          total := total + 1;
          if idArray[i] < 0 || idArray[i] >= size {
            return false;
          }
          if entries[idArray[i]].id != i {
            return false;
          }
        }
        assert idArray[..i + 1][..i] == idArray[..i];
        i := i + 1;
      }
      assert idArray[..i] == idArray[..];
      if total != size {
        return false;
      }
      i := 0;
      while i < size
        invariant 0 <= i <= size
        invariant forall p :: 0 <= p < i ==> OrderedAt(entries[..], size, p)
      {
        var child1, child2 := 2 * i + 1, 2 * i + 2;
        if child1 < size && entries[child1].key < entries[i].key {
          assert Parent(child1) == i;
          return false;
        }
        if child2 < size && entries[child2].key < entries[i].key {
          assert Parent(child2) == i;
          return false;
        }
        i := i + 1;
      }
      OrderedAtAllIsHeapOrdered(entries[..], size);
      return true;
    }
  }
}
