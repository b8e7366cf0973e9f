/**
 The write-back disk cache of src/system/cache/cache.c: eight slots, the list of
 pages by recency, and the disk behind them. Time only moves forward.
 */
module Cache {
  import opened CachePages
  import opened LruList

  const TABLE_ENTRIES := 8

  // What a call does to the pages.

  predicate Evictable(p: Page, now: int, force: bool) {
    !p.dirty && (p.lastAccessTime < now || force)
  }

  function SyncedPage(p: Page, force: bool, now: int): Page {
    if p.dirty && (force || p.firstWriteTime < now) then Cleaned(p) else p
  }

  function Synced(pages: seq<Page>, force: bool, now: int): (r: seq<Page>)
    ensures |r| == |pages| && forall i :: 0 <= i < |r| ==> r[i] == SyncedPage(pages[i], force, now)
  {
    seq(|pages|, i requires 0 <= i < |pages| => SyncedPage(pages[i], force, now))
  }

  /** Page k is the least recently used of the clean ones. */
  ghost predicate LastClean(pages: seq<Page>, k: nat) {
    k < |pages| && !pages[k].dirty && forall j :: k < j < |pages| ==> pages[j].dirty
  }

  ghost predicate Within(items: seq<Chunk>, was: seq<Chunk>) {
    forall i :: 0 <= i < |items| ==> items[i] in was
  }

  /** Slots that were empty are empty. */
  ghost predicate KeepsEmpty(was: seq<Chunk?>, slots: seq<Chunk?>) {
    |was| == |slots| && forall i :: 0 <= i < |was| && was[i] == null ==> slots[i] == null
  }

  ghost function PageView(c: Chunk): Page
    reads c
  {
    Page(c.initialSector / SECTORS_PER_PAGE, c.buffer, c.dirty, c.firstWriteTime, c.lastAccessTime)
  }

  class Cache {
    const table: array<Chunk?>
    const list: List
    var disk: seq<Sector>
    var clock: int
    ghost var pages: seq<Page>
    ghost var logical: seq<Sector>
    /** The sectors written since the clock last moved. */
    ghost var recent: set<nat>

    /** Page i of the view is chunk i of the list, which is the chunk in its slot. */
    ghost predicate Placed(i: int)
      requires 0 <= i < |list.items| && i < |pages|
      reads `pages, list, list.items, table
    {
      var c := list.items[i];
      && pages[i] == PageView(c) && c.initialSector % SECTORS_PER_PAGE == 0
      && c.index < table.Length && table[c.index] == c
    }

    ghost predicate Structure()
      reads `pages, list, list.items, table
    {
      && table.Length == TABLE_ENTRIES && list.Valid() && |pages| == |list.items|
      && (forall i {:trigger Placed(i)} :: 0 <= i < |list.items| ==> Placed(i))
      && (forall j {:trigger table[j]} :: 0 <= j < table.Length && table[j] != null ==>
        table[j] in list.items && table[j].index == j)
    }

    ghost predicate Valid()
      reads this, list, list.items, table
    {
      Structure() && Inv(disk, pages, logical, clock, recent)
    }

    /** cache_init: nothing cached, so the logical disk is the disk. */
    constructor (contents: seq<Sector>)
      ensures Valid() && pages == [] && disk == contents && logical == contents && recent == {}
      ensures fresh(table) && fresh(list)
    {
      table := new Chunk?[TABLE_ENTRIES](i => null);
      list := new List();
      disk, clock, pages, logical, recent := contents, 0, [], contents, {};
    }

    /** _time: never earlier than before. */
    method Time() returns (now: int)
      modifies `clock, `recent
      ensures now == clock && clock >= old(clock) && recent == Since(old(recent), old(clock), clock)
    {
      var later: int := *;
      if later > clock {
        clock, recent := later, {};
      }
      now := clock;
    }

    /** ata_read of one page; what the buffer holds after a refused read is unknown. */
    method AtaRead(n: nat) returns (data: seq<Sector>)
      ensures |data| == SECTORS_PER_PAGE && (OnDisk(n, |disk|) ==> data == PageOf(disk, n))
    {
      if OnDisk(n, |disk|) {
        data := PageOf(disk, n);
      } else {
        var b := *;
        data := seq(SECTORS_PER_PAGE, i => b);
      }
    }

    /** The accessed chunk goes to the front of the list. */
    method Promote(chunk: Chunk, ghost k: nat)
      requires Structure() && k < |pages| && list.items[k] == chunk
      modifies `pages, list, list.items`next, list.items`prev
      ensures Structure() && list.items == [chunk] + (old(list.items)[..k] + old(list.items)[k + 1..])
      ensures pages == [old(pages)[k]] + Without(old(pages), k)
    {
      hide LinkedAt, Sets.Distinct;
      assert Placed(k);
      list.MoveToFront(chunk, k);
      pages := [pages[k]] + Without(pages, k);
      forall i | 0 <= i < |list.items| ensures Placed(i) {
        assert old(Placed(if i == 0 then k else if i - 1 < k then i - 1 else i));
      }
    }

    /** mark_access */
    method MarkAccess(chunk: Chunk, ghost k: nat)
      requires Valid() && k < |pages| && list.items[k] == chunk
      modifies this, list, list.items
      ensures Valid() && list.items == [chunk] + (old(list.items)[..k] + old(list.items)[k + 1..])
      ensures pages[0] == old(pages)[k].(lastAccessTime := clock) && pages[1..] == Without(old(pages), k)
      ensures disk == old(disk) && logical == old(logical) && clock >= old(clock)
      ensures recent == Since(old(recent), old(clock), clock)
    {
      hide Inv;
      assert Placed(k);
      chunk.accesses := chunk.accesses + 1;
      var now := Time();
      chunk.lastAccessTime := now;
      TouchedInv(disk, pages, logical, old(clock), old(recent), k, now);
      pages := pages[k := pages[k].(lastAccessTime := now)];
      forall i | 0 <= i < |list.items| ensures Placed(i) {
        assert old(Placed(i));
      }
      hide Structure;
      Promote(chunk, k);
      assert pages == Touched(old(pages), k, now);
    }

    /** Chunk k leaves the list and its slot. */
    method Drop(entry: Chunk, ghost k: nat)
      requires Structure() && k < |pages| && list.items[k] == entry
      modifies `pages, table, list, list.items`next, list.items`prev
      ensures Structure() && list.items == old(list.items)[..k] + old(list.items)[k + 1..]
      ensures pages == Without(old(pages), k) && entry.index < table.Length
      ensures table[entry.index] == null && KeepsEmpty(old(table[..]), table[..])
    {
      hide LinkedAt;
      assert Placed(k);
      list.Remove(entry, k);
      table[entry.index] := null;
      pages := Without(pages, k);
      forall i | 0 <= i < |list.items| ensures Placed(i) {
        assert old(Placed(if i < k then i else i + 1));
      }
    }

    /** release_chunk: a dirty page is written back first. */
    method Release(tableIndex: nat, ghost k: nat)
      requires Valid() && k < |pages| && list.items[k].index == tableIndex
      modifies this, table, list, list.items
      ensures Valid() && pages == Without(old(pages), k) && tableIndex < table.Length && table[tableIndex] == null
      ensures Within(list.items, old(list.items)) && KeepsEmpty(old(table[..]), table[..])
      ensures !old(pages)[k].dirty ==> disk == old(disk)
      ensures logical == old(logical) && clock == old(clock) && recent == old(recent) && |disk| == |old(disk)|
    {
      hide Inv, LinkedAt;
      assert Placed(k);
      var entry := table[tableIndex];
      ReleasedInv(disk, pages, logical, clock, recent, k);
      if entry.dirty {
        disk := WritePage(disk, entry.initialSector / SECTORS_PER_PAGE, entry.buffer);
      }
      hide Structure;
      Drop(entry, k);
    }

    lemma ListShape()
      requires Structure()
      ensures |list.items| == |pages| && list.last == At(list.items, |list.items| - 1) && table.Length == TABLE_ENTRIES
    {
    }

    /** What evict sees of the chunk it looks at. */
    lemma Looked(i: nat)
      requires Structure() && i < |list.items|
      ensures i < |pages| && pages[i] == PageView(list.items[i]) && list.items[i].prev == At(list.items, i - 1)
    {
      assert Placed(i) && LinkedAt(list.items, i);
    }

    /** The walk of evict from the end of the list to the first page it may release. */
    method FindVictim(force: bool, now: int) returns (entry: Chunk?, ghost i: int)
      requires Structure()
      ensures |pages| == |list.items| && -1 <= i < |pages| && entry == At(list.items, i)
      ensures i >= 0 ==> Evictable(pages[i], now, force)
      ensures forall j :: i < j < |pages| ==> !Evictable(pages[j], now, force)
    {
      ListShape();
      hide Structure;
      entry := list.last;
      i := |list.items| - 1;
      while entry != null
        invariant -1 <= i < |pages| && entry == At(list.items, i)
        invariant forall j :: i < j < |pages| ==> !Evictable(pages[j], now, force)
        decreases i
      {
        Looked(i);
        if !entry.dirty && (entry.lastAccessTime < now || force) {
          break;
        }
        entry := entry.prev;
        i := i - 1;
      }
    }

    /** evict for one page: the last evictable page of the list goes. */
    method Evict(force: bool) returns (evicted: nat, ghost k: nat)
      requires Valid()
      modifies this, table, list, list.items
      ensures Valid() && disk == old(disk) && logical == old(logical) && clock >= old(clock)
      ensures recent == Since(old(recent), old(clock), clock)
      ensures Within(list.items, old(list.items)) && KeepsEmpty(old(table[..]), table[..])
      ensures evicted == if exists j :: 0 <= j < |old(pages)| && Evictable(old(pages)[j], clock, force) then 1 else 0
      ensures evicted == 0 ==> pages == old(pages) && list.items == old(list.items)
      ensures evicted == 0 ==>
        forall j :: 0 <= j < |pages| && !pages[j].dirty ==> !force && pages[j].lastAccessTime >= clock
      ensures evicted == 1 ==>
        k < |old(pages)| && !old(pages)[k].dirty && (force || old(pages)[k].lastAccessTime < clock)
      ensures evicted == 1 ==>
        && k < |old(pages)| && Evictable(old(pages)[k], clock, force) && pages == Without(old(pages), k)
        && (forall j :: k < j < |old(pages)| ==> !Evictable(old(pages)[j], clock, force))
        && (exists j :: 0 <= j < table.Length && table[j] == null)
    {
      hide Inv, Structure, Without;
      var now := Time();
      LaterInv(disk, pages, logical, old(clock), old(recent), now);
      evicted, k := 0, 0;
      var entry, i := FindVictim(force, now);
      if entry != null {
        k := i;
        Release(entry.index, k);
        evicted := 1;
      }
    }

    /** The write-back of one chunk in cache_sync. */
    method Flush(entry: Chunk, ghost k: nat)
      requires Valid() && k < |list.items| && list.items[k] == entry
      modifies `disk, `pages, entry`dirty
      ensures Valid() && |disk| == |old(disk)| && pages == old(pages)[k := Cleaned(old(pages)[k])]
    {
      hide Inv;
      assert Placed(k);
      CleanedInv(disk, pages, logical, clock, recent, k);
      disk := WritePage(disk, entry.initialSector / SECTORS_PER_PAGE, entry.buffer);
      entry.dirty := false;
      pages := pages[k := Cleaned(pages[k])];
      forall j | 0 <= j < |list.items| ensures Placed(j) {
        assert old(Placed(j));
      }
    }

    /** A chunk in the table is on the list. */
    ghost method Position(i: nat) returns (k: nat)
      requires Structure() && i < table.Length && table[i] != null
      ensures k < |list.items| && k < |pages| && list.items[k] == table[i] && pages[k] == PageView(table[i])
    {
      k :| k < |list.items| && list.items[k] == table[i];
      assert Placed(k);
    }

    /** A chunk of the list sits in one slot. */
    lemma SlotOf(i: nat, k: nat)
      requires Structure() && i < table.Length && k < |list.items|
      ensures list.items[k].index < table.Length
      ensures list.items[k].index == i <==> table[i] == list.items[k]
    {
      assert Placed(k);
    }

    /** One round of the loop of cache_sync. */
    method SyncSlot(i: nat, force: bool, now: int)
      requires Valid() && i < table.Length
      modifies `disk, `pages, list.items`dirty
      ensures Valid() && |disk| == |old(disk)| && |pages| == |old(pages)| == |list.items|
      ensures forall j :: 0 <= j < |pages| ==>
        pages[j] == if list.items[j].index == i then SyncedPage(old(pages)[j], force, now) else old(pages)[j]
    {
      ListShape();
      hide Inv, Structure;
      var entry := table[i];
      forall j | 0 <= j < |list.items| ensures list.items[j].index == i <==> entry == list.items[j] {
        SlotOf(i, j);
      }
      if entry != null {
        ghost var k := Position(i);
        if entry.dirty && (force || entry.firstWriteTime < now) {
          Apart(k);
          Flush(entry, k);
        }
      }
    }

    lemma Apart(k: nat)
      requires Structure() && k < |list.items|
      ensures forall j :: 0 <= j < |list.items| && j != k ==> list.items[j] != list.items[k]
    {
    }

    /** cache_sync: everything dirty since an earlier second, or everything, goes to the disk. */
    method Sync(force: bool)
      requires Valid()
      modifies this, list.items`dirty
      ensures Valid() && logical == old(logical) && clock >= old(clock) && |disk| == |old(disk)|
      ensures recent == Since(old(recent), old(clock), clock)
      ensures pages == Synced(old(pages), force, clock)
      ensures forall i :: 0 <= i < |pages| ==>
        && pages[i] == old(pages)[i].(dirty := pages[i].dirty)
        && (pages[i].dirty <==> old(pages)[i].dirty && !force && old(pages)[i].firstWriteTime >= clock)
      ensures force || clock > old(clock) ==> disk == logical
      ensures forall s: nat :: s < |disk| && s !in recent ==> disk[s] == logical[s]
      ensures forall i :: 0 <= i < |pages| && pages[i].dirty ==> pages[i].firstWriteTime == clock
    {
      hide Inv, Structure, SyncedPage;
      ListShape();
      var now := Time();
      LaterInv(disk, pages, logical, old(clock), old(recent), now);
      for i := 0 to TABLE_ENTRIES
        invariant Valid() && clock == now && logical == old(logical) && |disk| == |old(disk)|
        invariant recent == Since(old(recent), old(clock), now)
        invariant |pages| == |old(pages)| == |list.items|
        invariant forall j :: 0 <= j < |pages| ==>
          pages[j] == if list.items[j].index < i then SyncedPage(old(pages)[j], force, now) else old(pages)[j]
      {
        SyncSlot(i, force, now);
      }
      forall j | 0 <= j < |pages| ensures pages[j] == SyncedPage(old(pages)[j], force, now) {
        SlotOf(0, j);
      }
      InvSynced(disk, pages, logical, clock, recent);
      StillDirty(old(pages), force, now);
      SyncedDoes(old(pages), force, now);
    }

    /** The second half of cache_evict: with everything on the disk, the least recently used page goes. */
    method SyncAndEvict() returns (evicted: nat, ghost k: nat)
      requires Valid()
      modifies this, table, list, list.items
      ensures Valid() && logical == old(logical) && clock >= old(clock) && |disk| == |old(disk)|
      ensures recent == Since(old(recent), old(clock), clock)
      ensures Within(list.items, old(list.items)) && KeepsEmpty(old(table[..]), table[..])
      ensures evicted == if old(pages) == [] then 0 else 1
      ensures evicted == 0 ==> pages == old(pages)
      ensures evicted == 1 ==> exists j :: 0 <= j < table.Length && table[j] == null
      ensures evicted == 1 ==> k == |old(pages)| - 1 && pages == Without(AllCleaned(old(pages)), k) && disk == logical
    {
      hide Inv, Structure, ByRecency, Without;
      Sync(true);
      ForcedSync(old(pages), clock);
      ghost var when := clock;
      Recency(disk, pages, logical, clock, recent);
      evicted, k := Evict(false);
      if evicted == 1 {
        VictimIsLastClean(AllCleaned(old(pages)), when, clock, false, k);
        LastOfAll(old(pages), k);
      } else {
        var more;
        more, k := Evict(true);
        evicted := evicted + more;
        assert old(pages) != [] ==> Evictable(AllCleaned(old(pages))[0], clock, true);
        if more == 1 {
          VictimIsLastClean(AllCleaned(old(pages)), when, clock, true, k);
          LastOfAll(old(pages), k);
        }
      }
    }

    /**
     cache_evict for one page. A non-empty cache gives up exactly one, the least
     recently used of its clean pages or, once all are synced, of all.
     */
    method CacheEvict() returns (evicted: nat, ghost k: nat)
      requires Valid()
      modifies this, table, list, list.items
      ensures Valid() && logical == old(logical) && clock >= old(clock) && |disk| == |old(disk)|
      ensures recent == Since(old(recent), old(clock), clock)
      ensures Within(list.items, old(list.items)) && KeepsEmpty(old(table[..]), table[..])
      ensures evicted == if old(pages) == [] then 0 else 1
      ensures evicted == 0 ==> pages == old(pages)
      ensures evicted == 1 ==> exists j :: 0 <= j < table.Length && table[j] == null
      ensures evicted == 1 ==> GivenUp(old(disk), old(pages), old(clock), disk, pages, clock, logical, k)
      ensures forall n: nat :: HasPage(pages, n) ==> HasPage(old(pages), n)
    {
      hide Inv, Structure, ByRecency, Without, HasPage;
      Recency(disk, pages, logical, clock, recent);
      evicted, k := Evict(false);
      if evicted == 1 {
        VictimIsLastClean(old(pages), old(clock), clock, false, k);
      } else {
        var more;
        more, k := SyncAndEvict();
        evicted := evicted + more;
      }
      if evicted == 1 {
        GivenUpPages(old(disk), old(pages), old(clock), disk, pages, clock, logical, k);
      }
    }

    /** The first loop of find_chunk. */
    method Scan(index: nat) returns (found: Chunk?, firstEmpty: int)
      requires table.Length == TABLE_ENTRIES
      ensures found != null ==>
        found.initialSector == SECTORS_PER_PAGE * index && exists i :: 0 <= i < TABLE_ENTRIES && table[i] == found
      ensures found == null ==> forall i :: 0 <= i < TABLE_ENTRIES && table[i] != null ==>
          table[i].initialSector != SECTORS_PER_PAGE * index
      ensures found == null && firstEmpty == -1 ==> forall i :: 0 <= i < TABLE_ENTRIES ==> table[i] != null
      ensures found == null && firstEmpty != -1 ==> 0 <= firstEmpty < TABLE_ENTRIES && table[firstEmpty] == null
    {
      found, firstEmpty := null, -1;
      for i := 0 to TABLE_ENTRIES
        invariant forall j :: 0 <= j < i && table[j] != null ==> table[j].initialSector != SECTORS_PER_PAGE * index
        invariant firstEmpty == -1 ==> forall j :: 0 <= j < i ==> table[j] != null
        invariant firstEmpty != -1 ==> 0 <= firstEmpty < TABLE_ENTRIES && table[firstEmpty] == null
      {
        if table[i] != null {
          if table[i].initialSector == SECTORS_PER_PAGE * index {
            return table[i], firstEmpty;
          }
        } else if firstEmpty == -1 {
          firstEmpty := i;
        }
      }
    }

    /** The second loop of find_chunk. */
    method FirstEmpty() returns (firstEmpty: nat)
      requires exists i :: 0 <= i < table.Length && table[i] == null
      ensures firstEmpty < table.Length && table[firstEmpty] == null
    {
      firstEmpty := 0;
      while table[firstEmpty] != null
        invariant firstEmpty < table.Length
        invariant exists i :: firstEmpty <= i < table.Length && table[i] == null
        decreases table.Length - firstEmpty
      {
        firstEmpty := firstEmpty + 1;
      }
    }

    /** A page that is in no slot is not cached, and one in a slot is. */
    lemma Scanned(index: nat)
      requires Structure()
      requires forall i :: 0 <= i < table.Length && table[i] != null ==>
          table[i].initialSector != SECTORS_PER_PAGE * index
      ensures !HasPage(pages, index)
    {
      forall k | 0 <= k < |pages| ensures pages[k].number != index {
        assert Placed(k);
      }
    }

    /** A new chunk takes its slot and the front of the list. */
    method Insert(entry: Chunk, slot: nat)
      requires Structure() && slot < table.Length && table[slot] == null && entry !in list.items
      requires entry.index == slot && entry.initialSector % SECTORS_PER_PAGE == 0
      modifies `pages, table, list, list.items`prev, entry`prev, entry`next
      ensures Structure() && list.items == [entry] + old(list.items) && pages == [PageView(entry)] + old(pages)
    {
      hide LinkedAt, Sets.Distinct;
      table[slot] := entry;
      list.Add(entry);
      pages := [PageView(entry)] + pages;
      forall i | 0 <= i < |list.items| ensures Placed(i) {
        assert i > 0 ==> old(Placed(i - 1));
      }
    }

    /** The end of find_chunk: reads the page into an empty slot. */
    method Load(index: nat, slot: nat) returns (entry: Chunk)
      requires Valid() && !HasPage(pages, index) && slot < table.Length && table[slot] == null
      modifies this, table, list, list.items`prev
      ensures Valid() && logical == old(logical) && clock >= old(clock) && disk == old(disk)
      ensures recent == Since(old(recent), old(clock), clock)
      ensures fresh(entry) && list.items == [entry] + old(list.items)
      ensures |pages| == 1 + |old(pages)| && pages[1..] == old(pages) && pages[0].number == index && !pages[0].dirty
    {
      hide Inv, HasPage;
      var data := AtaRead(index);
      var now := Time();
      entry := new Chunk(index * SECTORS_PER_PAGE, data, now, slot);
      LoadedInv(disk, pages, logical, old(clock), old(recent), index, data, now);
      hide Structure, OnDisk;
      Insert(entry, slot);
    }

    /** Getting memory for a chunk and its buffer: kalloc and allocPages may evict a page each. */
    method MakeRoom(ghost index: nat)
      requires Valid() && !HasPage(pages, index)
      modifies this, table, list, list.items
      ensures Valid() && logical == old(logical) && clock >= old(clock) && |disk| == |old(disk)|
      ensures recent == Since(old(recent), old(clock), clock)
      ensures Within(list.items, old(list.items)) && KeepsEmpty(old(table[..]), table[..])
      ensures !HasPage(pages, index)
    {
      hide Inv, Structure, HasPage, GivenUp;
      var short := *;
      if short {
        var _, _ := CacheEvict();
      }
      short := *;
      if short {
        var _, _ := CacheEvict();
      }
    }

    /** find_chunk: loads the page unless it is cached; getting memory for it may evict another. */
    method FindChunk(index: nat) returns (chunk: Chunk?, ghost k: nat)
      requires Valid()
      modifies this, table, list, list.items
      ensures Valid() && logical == old(logical) && clock >= old(clock) && |disk| == |old(disk)|
      ensures recent == Since(old(recent), old(clock), clock)
      ensures chunk != null && k < |list.items| && k < |pages| && list.items[k] == chunk && pages[k].number == index
      ensures HasPage(old(pages), index) ==> pages == old(pages) && disk == old(disk) && list.items == old(list.items)
      ensures pages[k].dirty ==> HasDirty(old(pages), index)
      ensures forall i :: 0 <= i < |list.items| ==> list.items[i] in old(list.items) || fresh(list.items[i])
    {
      hide Inv, HasPage;
      var found, firstEmpty := Scan(index);
      if found != null {
        ghost var i :| 0 <= i < TABLE_ENTRIES && table[i] == found;
        k := Position(i);
        return found, k;
      }
      Scanned(index);
      if firstEmpty == -1 {
        assert table[0] in list.items;
        var evicted;
        evicted, k := CacheEvict();
        if evicted < 1 {
          return null, k;
        }
        firstEmpty := FirstEmpty();
      }
      MakeRoom(index);
      chunk := Load(index, firstEmpty);
      k := 0;
    }

    /** The start of each round of cache_read and cache_write: the page is there and at the front. */
    method Access(block: nat) returns (chunk: Chunk?)
      requires Valid()
      modifies this, table, list, list.items
      ensures Valid() && logical == old(logical) && clock >= old(clock) && |disk| == |old(disk)|
      ensures recent == Since(old(recent), old(clock), clock)
      ensures chunk != null && |list.items| == |pages| > 0 && list.items[0] == chunk
      ensures pages[0] == PageView(chunk) && pages[0].number == block && pages[0].lastAccessTime == clock
      ensures pages[0].dirty ==> HasDirty(old(pages), block)
      ensures forall i :: 0 <= i < |list.items| ==> list.items[i] in old(list.items) || fresh(list.items[i])
    {
      hide Inv, Structure, HasPage;
      ghost var k;
      chunk, k := FindChunk(block);
      if chunk == null {
        return;
      }
      MarkAccess(chunk, k);
      Looked(0);
      ListShape();
    }

    /** One round of cache_read. */
    method ReadPiece(block: nat, first: nat, len: nat) returns (piece: seq<Sector>)
      requires Valid() && first + len <= SECTORS_PER_PAGE && (len > 0 ==> OnDisk(block, |disk|))
      modifies this, table, list, list.items
      ensures Valid() && logical == old(logical) && clock >= old(clock) && |disk| == |old(disk)| == |logical|
      ensures recent == Since(old(recent), old(clock), clock)
      ensures |piece| == len
      ensures len > 0 ==> piece == logical[SECTORS_PER_PAGE * block + first..SECTORS_PER_PAGE * block + first + len]
      ensures forall i :: 0 <= i < |list.items| ==> list.items[i] in old(list.items) || fresh(list.items[i])
    {
      hide Inv, Structure;
      var chunk := Access(block);
      PieceOf(disk, pages, logical, clock, recent, 0, first, len);
      piece := chunk.buffer[first..first + len];
    }

    /** cache_read: exactly the requested sectors of the logical disk, which stays as it is. */
    method CacheRead(sector: nat, count: nat) returns (r: int, buff: seq<Sector>)
      requires Valid() && sector + count <= SECTORS_PER_PAGE * (|disk| / SECTORS_PER_PAGE)
      modifies this, table, list, list.items
      ensures Valid() && logical == old(logical) && |disk| == |old(disk)| == |logical|
      ensures r == 0 && buff == logical[sector..sector + count]
      ensures clock >= old(clock) && recent == Since(old(recent), old(clock), clock)
      ensures forall i :: 0 <= i < |list.items| ==> list.items[i] in old(list.items) || fresh(list.items[i])
    {
      hide Inv, Structure, PieceFirst, PieceLen, Before, OnDisk;
      var startBlock, endBlock := sector / SECTORS_PER_PAGE, (sector + count) / SECTORS_PER_PAGE;
      buff := [];
      SameSize(disk, pages, logical, clock, recent);
      Pieces(sector, count, startBlock, |disk|);
      for block := startBlock to endBlock + 1
        invariant Valid() && logical == old(logical) && |disk| == |old(disk)| == |logical|
        invariant clock >= old(clock) && recent == Since(old(recent), old(clock), clock)
        invariant |buff| == Before(sector, count, block) <= count && buff == logical[sector..sector + |buff|]
        invariant block == endBlock + 1 ==> |buff| == count
        invariant forall i :: 0 <= i < |list.items| ==> list.items[i] in old(list.items) || fresh(list.items[i])
      {
        Pieces(sector, count, block, |disk|);
        var piece := ReadPiece(block, PieceFirst(sector, block), PieceLen(sector, count, block));
        buff := buff + piece;
      }
      r := 0;
    }

    /** Copies into the chunk and marks it dirty, from now unless it was. */
    method Soil(chunk: Chunk, first: nat, data: seq<Sector>)
      requires Structure() && |list.items| > 0 && list.items[0] == chunk && first + |data| <= |chunk.buffer|
      modifies `pages, `clock, `recent, chunk`buffer, chunk`dirty, chunk`firstWriteTime
      ensures Structure() && clock >= old(clock)
      ensures recent == Since(old(recent), old(clock), clock)
      ensures old(chunk.dirty) ==> clock == old(clock)
      ensures |pages| == |old(pages)| > 0
      ensures pages == old(pages)[0 := Soiled(old(pages)[0], clock, Replaced(old(chunk.buffer), first, data))]
      ensures pages[1..] == old(pages)[1..] && pages[0].number == old(pages)[0].number && pages[0].dirty
      ensures pages[0].firstWriteTime == if old(pages)[0].dirty then old(pages)[0].firstWriteTime else clock
    {
      assert Placed(0);
      ListShape();
      if !chunk.dirty {
        var now := Time();
        chunk.firstWriteTime := now;
      }
      chunk.dirty := true;
      chunk.buffer := Replaced(chunk.buffer, first, data);
      pages := pages[0 := PageView(chunk)];
      forall i | 0 <= i < |list.items| ensures Placed(i) {
        assert old(Placed(i));
      }
    }

    /** One round of cache_write. */
    method WritePiece(block: nat, first: nat, data: seq<Sector>)
      requires Valid() && first + |data| <= SECTORS_PER_PAGE && (|data| > 0 ==> OnDisk(block, |disk|))
      modifies this, table, list, list.items
      ensures Valid() && |disk| == |old(disk)| == |logical| == |old(logical)|
      ensures logical ==
          if |data| == 0 then old(logical) else Replaced(old(logical), SECTORS_PER_PAGE * block + first, data)
      ensures clock >= old(clock)
      ensures recent == Since(old(recent), old(clock), clock) + Range(SECTORS_PER_PAGE * block + first, |data|)
      ensures |pages| > 0 && pages[0].number == block && pages[0].dirty
      ensures HasDirty(old(pages), block) || pages[0].firstWriteTime == clock
      ensures forall i :: 0 <= i < |list.items| ==> list.items[i] in old(list.items) || fresh(list.items[i])
    {
      hide Inv, Structure, Range;
      var chunk := Access(block);
      ghost var when := clock;
      ghost var was, before := pages, recent;
      WrittenInv(disk, pages, logical, clock, recent, 0, first, data, clock);
      Soil(chunk, first, data);
      WrittenInv(disk, was, logical, when, before, 0, first, data, clock);
      recent := recent + Range(SECTORS_PER_PAGE * block + first, |data|);
      logical := if |data| == 0 then logical else Replaced(logical, SECTORS_PER_PAGE * block + first, data);
    }

    /** cache_write: the requested sectors of the logical disk change, and no others. */
    method CacheWrite(sector: nat, buff: seq<Sector>) returns (r: int)
      requires Valid() && sector + |buff| <= SECTORS_PER_PAGE * (|disk| / SECTORS_PER_PAGE)
      modifies this, table, list, list.items
      ensures Valid() && |disk| == |old(disk)| == |logical| == |old(logical)|
      ensures r == 0 && logical == Replaced(old(logical), sector, buff) && clock >= old(clock)
      ensures forall s :: s in recent ==> sector <= s < sector + |buff| || (clock == old(clock) && s in old(recent))
      ensures forall i :: 0 <= i < |list.items| ==> list.items[i] in old(list.items) || fresh(list.items[i])
    {
      hide Inv, Structure, PieceFirst, PieceLen, Before, OnDisk, Replaced, Range;
      var count := |buff|;
      var startBlock, endBlock := sector / SECTORS_PER_PAGE, (sector + count) / SECTORS_PER_PAGE;
      var counter := 0;
      SameSize(disk, pages, logical, clock, recent);
      Pieces(sector, count, startBlock, |disk|);
      ReplacedNothing(logical, sector);
      for block := startBlock to endBlock + 1
        invariant Valid() && |disk| == |old(disk)| == |logical| == |old(logical)|
        invariant counter == Before(sector, count, block) <= count
        invariant logical == Replaced(old(logical), sector, buff[..counter]) && clock >= old(clock)
        invariant forall s :: s in recent ==>
          sector <= s < sector + counter || (clock == old(clock) && s in old(recent))
        invariant block == endBlock + 1 ==> counter == count
        invariant forall i :: 0 <= i < |list.items| ==> list.items[i] in old(list.items) || fresh(list.items[i])
      {
        Pieces(sector, count, block, |disk|);
        var sectors := PieceLen(sector, count, block);
        var data := buff[counter..counter + sectors];
        WritePiece(block, PieceFirst(sector, block), data);
        ReplacedTwice(old(logical), sector, buff[..counter], data);
        assert buff[..counter] + data == buff[..counter + sectors];
        counter := counter + sectors;
      }
      assert buff[..counter] == buff;
      r := 0;
    }

    /**
     Two writes and the sync of the daemon. What the first wrote is on the disk once the clock has moved
     since, even if the second soils the same page again.
     */
    method WriteWriteSync(sector: nat, data: seq<Sector>, sector': nat, data': seq<Sector>) returns (moved: bool)
      requires Valid() && sector + |data| <= SECTORS_PER_PAGE * (|disk| / SECTORS_PER_PAGE)
      requires sector' + |data'| <= SECTORS_PER_PAGE * (|disk| / SECTORS_PER_PAGE)
      requires sector + |data| <= sector' || sector' + |data'| <= sector
      modifies this, table, list, list.items
      ensures Valid() && |disk| == |old(disk)|
      ensures moved ==> disk[sector..sector + |data|] == data
    {
      hide Inv, Structure, Replaced;
      SameSize(disk, pages, logical, clock, recent);
      var _ := CacheWrite(sector, data);
      var when := clock;
      ghost var first := logical;
      var _ := CacheWrite(sector', data');
      moved := clock > when;
      Sync(false);
      ReplacedAt(old(logical), sector, data);
      ReplacedAt(first, sector', data');
    }

    /**
     What was written is read back, whatever was synced or evicted in between, and sits on the disk
     after a forced sync.
     */
    method WriteSyncReadBack(sector: nat, data: seq<Sector>) returns (buff: seq<Sector>)
      requires Valid() && sector + |data| <= SECTORS_PER_PAGE * (|disk| / SECTORS_PER_PAGE)
      modifies this, table, list, list.items
      ensures Valid() && buff == data && |old(disk)| == |old(logical)|
      ensures logical == Replaced(old(logical), sector, data) && disk == logical
    {
      hide Inv, Structure, GivenUp, HasPage;
      SameSize(disk, pages, logical, clock, recent);
      var r := CacheWrite(sector, data);
      var evicted, _ := CacheEvict();
      Sync(true);
      r, buff := CacheRead(sector, |data|);
      Sync(true);
    }
  }

  function AllCleaned(pages: seq<Page>): (r: seq<Page>)
    ensures |r| == |pages| && forall i :: 0 <= i < |r| ==> r[i] == Cleaned(pages[i])
  {
    seq(|pages|, i requires 0 <= i < |pages| => Cleaned(pages[i]))
  }

  /**
   Page k went: the last clean one, not used in this second, with the disk as it was; or, when every
   clean page was used in this second, the last one of a cache written back whole.
   */
  ghost predicate GivenUp(disk: seq<Sector>, pages: seq<Page>, clock: int,
      disk': seq<Sector>, pages': seq<Page>, clock': int, logical: seq<Sector>, k: nat) {
    || (LastClean(pages, k) && pages[k].lastAccessTime < clock' && pages' == Without(pages, k) && disk' == disk)
    || (k < |pages| && k == |pages| - 1 && pages' == Without(AllCleaned(pages), k) && disk' == logical &&
        forall j :: 0 <= j < |pages| && !pages[j].dirty ==> pages[j].lastAccessTime >= clock)
  }

  /** Nothing comes in when a page goes. */
  lemma GivenUpPages(disk: seq<Sector>, pages: seq<Page>, clock: int,
      disk': seq<Sector>, pages': seq<Page>, clock': int, logical: seq<Sector>, k: nat)
    requires GivenUp(disk, pages, clock, disk', pages', clock', logical, k)
    ensures forall n: nat :: HasPage(pages', n) ==> HasPage(pages, n)
  {
    forall n: nat | HasPage(pages', n) ensures HasPage(pages, n) {
      var i :| 0 <= i < |pages'| && pages'[i].number == n;
      assert pages[if i < k then i else i + 1].number == n;
    }
  }

  lemma ReplacedNothing(disk: seq<Sector>, s: nat)
    requires s <= |disk|
    ensures Replaced(disk, s, []) == disk
  {
  }

  lemma SameSize(disk: seq<Sector>, pages: seq<Page>, logical: seq<Sector>, clock: int, recent: set<nat>)
    requires Inv(disk, pages, logical, clock, recent)
    ensures |disk| == |logical|
  {
  }

  lemma Recency(disk: seq<Sector>, pages: seq<Page>, logical: seq<Sector>, clock: int, recent: set<nat>)
    requires Inv(disk, pages, logical, clock, recent)
    ensures ByRecency(pages, clock)
  {
  }

  /** By recency, the last evictable page is the last clean one. */
  lemma VictimIsLastClean(pages: seq<Page>, clock: int, now: int, force: bool, k: nat)
    requires ByRecency(pages, clock) && k < |pages| && Evictable(pages[k], now, force)
    requires forall j :: k < j < |pages| ==> !Evictable(pages[j], now, force)
    ensures LastClean(pages, k)
  {
  }

  lemma LastOfAll(pages: seq<Page>, k: nat)
    requires LastClean(AllCleaned(pages), k)
    ensures k == |pages| - 1
  {
    assert k + 1 < |pages| ==> !AllCleaned(pages)[k + 1].dirty;
  }

  lemma StillDirty(pages: seq<Page>, force: bool, now: int)
    ensures forall i :: 0 <= i < |pages| && Synced(pages, force, now)[i].dirty ==>
      !force && Synced(pages, force, now)[i].firstWriteTime >= now
  {
  }

  lemma SyncedDoes(pages: seq<Page>, force: bool, now: int)
    ensures var r := Synced(pages, force, now);
            forall i :: 0 <= i < |pages| ==>
              && r[i] == pages[i].(dirty := r[i].dirty)
              && (r[i].dirty <==> pages[i].dirty && !force && pages[i].firstWriteTime >= now)
  {
  }

  lemma ForcedSync(pages: seq<Page>, now: int)
    ensures Synced(pages, true, now) == AllCleaned(pages)
  {
  }

  // A whole run of the cache against a disk without one.

  datatype Request =
    | ReadSectors(sector: nat, count: nat)
    | WriteSectors(sector: nat, data: seq<Sector>)
    | SyncPages(force: bool)
    | EvictPage

  function Extent(r: Request): nat {
    match r
    case ReadSectors(sector, count) => sector + count
    case WriteSectors(sector, data) => sector + |data|
    case _ => 0
  }

  /** The disk after a request, as a disk without a cache would serve it. */
  function Served(disk: seq<Sector>, r: Request): (d: seq<Sector>)
    requires Extent(r) <= |disk|
    ensures |d| == |disk|
  {
    if r.WriteSectors? then Replaced(disk, r.sector, r.data) else disk
  }

  function Answer(disk: seq<Sector>, r: Request): seq<Sector>
    requires Extent(r) <= |disk|
  {
    if r.ReadSectors? then disk[r.sector..r.sector + r.count] else []
  }

  ghost predicate Serves(requests: seq<Request>, sectors: nat) {
    forall i :: 0 <= i < |requests| ==> Extent(requests[i]) <= SECTORS_PER_PAGE * (sectors / SECTORS_PER_PAGE)
  }

  function PlainDisk(disk: seq<Sector>, requests: seq<Request>): (d: seq<Sector>)
    requires forall i :: 0 <= i < |requests| ==> Extent(requests[i]) <= |disk|
    ensures |d| == |disk|
  {
    if requests == [] then disk
    else Served(PlainDisk(disk, requests[..|requests| - 1]), requests[|requests| - 1])
  }

  function PlainAnswers(disk: seq<Sector>, requests: seq<Request>): seq<seq<Sector>>
    requires forall i :: 0 <= i < |requests| ==> Extent(requests[i]) <= |disk|
  {
    if requests == [] then []
    else
      var before := requests[..|requests| - 1];
      PlainAnswers(disk, before) + [Answer(PlainDisk(disk, before), requests[|requests| - 1])]
  }

  /** One request, served through the cache. */
  method ServeOne(cache: Cache, r: Request) returns (answer: seq<Sector>)
    requires cache.Valid() && Extent(r) <= SECTORS_PER_PAGE * (|cache.disk| / SECTORS_PER_PAGE)
    modifies cache, cache.table, cache.list, cache.list.items
    ensures cache.Valid() && |cache.disk| == |old(cache.disk)| == |old(cache.logical)|
    ensures answer == Answer(old(cache.logical), r) && cache.logical == Served(old(cache.logical), r)
    ensures forall i :: 0 <= i < |cache.list.items| ==>
      cache.list.items[i] in old(cache.list.items) || fresh(cache.list.items[i])
  {
    hide Inv, cache.Structure, GivenUp, HasPage, Replaced;
    SameSize(cache.disk, cache.pages, cache.logical, cache.clock, cache.recent);
    answer := [];
    match r {
      case ReadSectors(sector, count) =>
        var _, data := cache.CacheRead(sector, count);
        answer := data;
      case WriteSectors(sector, data) =>
        var _ := cache.CacheWrite(sector, data);
      case SyncPages(force) =>
        cache.Sync(force);
      case EvictPage =>
        var _, _ := cache.CacheEvict();
    }
  }

  /** Over any run the cache answers what the plain disk would, and a forced sync leaves that disk. */
  method Serve(cache: Cache, requests: seq<Request>) returns (answers: seq<seq<Sector>>)
    requires cache.Valid() && Serves(requests, |cache.disk|) && |cache.disk| == |cache.logical|
    modifies cache, cache.table, cache.list, cache.list.items
    ensures cache.Valid() && answers == PlainAnswers(old(cache.logical), requests)
    ensures cache.logical == PlainDisk(old(cache.logical), requests) && cache.disk == cache.logical
  {
    hide Inv, PlainDisk, PlainAnswers;
    ghost var plain := cache.logical;
    answers := [];
    NoRequests(plain);
    for i := 0 to |requests|
      invariant cache.Valid() && |cache.disk| == |plain|
      invariant answers == PlainAnswers(plain, requests[..i]) && cache.logical == PlainDisk(plain, requests[..i])
      invariant forall i :: 0 <= i < |cache.list.items| ==>
        cache.list.items[i] in old(cache.list.items) || fresh(cache.list.items[i])
    {
      NextRequest(plain, requests, i);
      var answer := ServeOne(cache, requests[i]);
      answers := answers + [answer];
    }
    assert requests[..|requests|] == requests;
    cache.Sync(true);
  }

  lemma NoRequests(disk: seq<Sector>)
    ensures PlainDisk(disk, []) == disk && PlainAnswers(disk, []) == []
  {
  }

  lemma NextRequest(disk: seq<Sector>, requests: seq<Request>, i: nat)
    requires i < |requests| && forall j :: 0 <= j < |requests| ==> Extent(requests[j]) <= |disk|
    ensures PlainDisk(disk, requests[..i + 1]) == Served(PlainDisk(disk, requests[..i]), requests[i])
    ensures PlainAnswers(disk, requests[..i + 1]) ==
        PlainAnswers(disk, requests[..i]) + [Answer(PlainDisk(disk, requests[..i]), requests[i])]
  {
    assert requests[..i + 1][..i] == requests[..i];
  }
}
