/**
 * Client scenarios of the heap, proved from the operations' contracts alone:
 * the round trip of one entry, the rejection of a duplicate id and of an
 * insert past capacity, and reprioritising an entry that is already queued.
 */
module Scenarios {
  import opened HeapOrder
  import opened MinHeaps

  /** One insert into a fresh heap, then one extract: the same entry comes back and the heap is empty. */
  method InsertThenExtract<D(0)>(capacity: nat, idSpace: int, key: int, data: D, id: int)
    returns (inserted: Status, extracted: Option<Entry<D>>, remaining: nat)
    requires capacity > 0 && 0 <= id < idSpace
    ensures inserted == NoError && extracted == Some(Entry(key, data, id)) && remaining == 0
  {
    var h := MinHeap<D>.Allocate(capacity, idSpace);
    inserted := h.Insert(key, data, id);
    h.SizeIsModelCard();
    extracted := h.Extract();
    remaining := h.GetCurrSize();
  }

  /**
   * With capacity 2: a second insert of id 0 fails, a third distinct id fails
   * once the heap is full, and neither failure changes the content.
   */
  method RejectionScenario()
    returns (duplicate: Status, full: Status, keyOfZero: Option<int>, keyOfOne: Option<int>, twoPresent: bool, count: nat)
    ensures duplicate == Error && full == Error
    ensures keyOfZero == Some(10) && keyOfOne == Some(20) && !twoPresent && count == 2
  {
    var h := new MinHeap<int>(2, 3);
    var s := h.Insert(10, 0, 0);
    duplicate := h.Insert(5, 0, 0);
    s := h.Insert(20, 0, 1);
    full := h.Insert(1, 0, 2);
    keyOfZero := h.QueryKeyIndexID(0);
    keyOfOne := h.QueryKeyIndexID(1);
    twoPresent := h.IdIsInHeap(2);
    count := h.GetCurrSize();
  }

  /** A fresh heap holding (5, id 0), (3, id 1) and (8, id 2). */
  method ThreeEntries() returns (h: MinHeap<int>)
    ensures fresh(h) && fresh(h.entries) && fresh(h.idArray) && h.Valid()
    ensures h.model == map[0 := Entry(5, 100, 0), 1 := Entry(3, 101, 1), 2 := Entry(8, 102, 2)]
  {
    h := new MinHeap<int>(3, 3);
    var s := h.Insert(5, 100, 0);
    s := h.Insert(3, 101, 1);
    s := h.Insert(8, 102, 2);
  }

  /**
   * From (5, id 0), (3, id 1), (8, id 2): extract gives id 1; after the key
   * of id 2 is lowered to 1, extract gives id 2, then id 0; id 1 is no longer
   * found.
   */
  method KeyUpdateScenario() returns (first: Entry<int>, second: Entry<int>, third: Entry<int>, stale: Status)
    ensures first == Entry(3, 101, 1)
    ensures second == Entry(1, 102, 2)
    ensures third == Entry(5, 100, 0)
    ensures stale == Error
  {
    var h := ThreeEntries();
    ghost var m := h.model;
    h.SizeIsModelCard();
    var r := h.Extract();
    first := r.value;
    assert first == m[first.id] && first.key <= m[1].key;
    assert first.id == 1 by {
      assert first.id == 0 || first.id == 1 || first.id == 2;
    }
    second, third := LowerThenDrain(h);
    stale := h.EditKeyIndexID(1, 0);
  }

  /** From (5, id 0), (8, id 2): lowering id 2 to key 1 makes it the next extracted. */
  method LowerThenDrain(h: MinHeap<int>) returns (second: Entry<int>, third: Entry<int>)
    requires h.Valid() && h.model == map[0 := Entry(5, 100, 0), 2 := Entry(8, 102, 2)]
    modifies h, h.entries, h.idArray
    ensures h.Valid() && h.model == map[]
    ensures second == Entry(1, 102, 2) && third == Entry(5, 100, 0)
  {
    var s := h.EditKeyIndexID(2, 1);
    ghost var m := h.model;
    assert m == map[0 := Entry(5, 100, 0), 2 := Entry(1, 102, 2)];
    h.SizeIsModelCard();
    var r := h.Extract();
    second := r.value;
    assert second == m[second.id] && second.key <= m[2].key;
    assert second.id == 2 by {
      assert second.id == 0 || second.id == 2;
    }
    m := m - {2};
    assert m == map[0 := Entry(5, 100, 0)];
    h.SizeIsModelCard();
    r := h.Extract();
    third := r.value;
    assert third == m[third.id];
    assert h.model == m - {0};
    assert h.model == map[];
  }
}
