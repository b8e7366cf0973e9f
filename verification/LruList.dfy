/** The intrusive list of cached pages of src/system/cache/cache.c. */
module LruList {
  import opened Sets
  import opened CachePages

  class Chunk {
    var initialSector: nat
    var buffer: seq<Sector>
    var dirty: bool
    var accesses: int
    var firstWriteTime: int
    var lastAccessTime: int
    var next: Chunk?
    var prev: Chunk?
    var index: nat

    constructor (sector: nat, data: seq<Sector>, now: int, slot: nat)
      ensures initialSector == sector && buffer == data && !dirty && firstWriteTime == 0 && lastAccessTime == now
      ensures index == slot
    {
      initialSector, buffer, dirty, accesses := sector, data, false, 0;
      firstWriteTime, lastAccessTime := 0, now;
      next, prev := null, null;
      index := slot;
    }
  }

  ghost function At(items: seq<Chunk>, i: int): Chunk? {
    if 0 <= i < |items| then items[i] else null
  }

  /** Chunk i has chunk i - 1 before it and chunk i + 1 after it. */
  ghost predicate LinkedAt(items: seq<Chunk>, i: int)
    requires 0 <= i < |items|
    reads items`next, items`prev
  {
    items[i].prev == At(items, i - 1) && items[i].next == At(items, i + 1)
  }

  class List {
    var first: Chunk?
    var last: Chunk?
    ghost var items: seq<Chunk>

    ghost predicate Valid()
      reads this, items`next, items`prev
    {
      && Distinct(items)
      && first == At(items, 0) && last == At(items, |items| - 1)
      && forall i {:trigger LinkedAt(items, i)} :: 0 <= i < |items| ==> LinkedAt(items, i)
    }

    constructor ()
      ensures Valid() && items == []
    {
      first, last, items := null, null, [];
    }

    /** cache_list_add: always at the beginning. */
    method Add(chunk: Chunk)
      requires Valid() && chunk !in items
      modifies this, chunk`next, chunk`prev, items`prev
      ensures Valid() && items == [chunk] + old(items)
    {
      var aux := first;
      assert items != [] ==> LinkedAt(items, 0);
      first := chunk;
      chunk.next := aux;
      chunk.prev := null;
      if aux != null {
        aux.prev := first;
      }
      if last == null {
        last := first;
      }
      items := [chunk] + items;
      forall i | 0 <= i < |items| ensures LinkedAt(items, i) {
        if i > 0 {
          assert old(LinkedAt(items, i - 1));
        }
      }
    }

    /** cache_list_remove: the chunk itself is the node. */
    method Remove(chunk: Chunk, ghost k: nat)
      requires Valid() && k < |items| && items[k] == chunk
      modifies this, items`next, items`prev
      ensures Valid() && items == old(items)[..k] + old(items)[k + 1..]
    {
      assert LinkedAt(items, k);
      var next, previous := chunk.next, chunk.prev;
      chunk.prev := null;
      chunk.next := null;
      if previous != null {
        previous.next := next;
      } else {
        first := next;
      }
      if next != null {
        next.prev := previous;
      } else {
        last := previous;
      }
      items := items[..k] + items[k + 1..];
      forall i | 0 <= i < |items| ensures LinkedAt(items, i) {
        assert old(LinkedAt(items, if i < k then i else i + 1));
      }
    }

    /** The two calls of mark_access. */
    method MoveToFront(chunk: Chunk, ghost k: nat)
      requires Valid() && k < |items| && items[k] == chunk
      modifies this, items`next, items`prev
      ensures Valid() && items == [chunk] + (old(items)[..k] + old(items)[k + 1..])
      ensures forall c :: c in old(items) ==> c in items
    {
      Remove(chunk, k);
      Add(chunk);
      assert old(items) == old(items)[..k] + [chunk] + old(items)[k + 1..];
    }
  }
}
