/**
 The boundary-tag heap of src/system/malloc/malloc.c: init_malloc,
 add_malloc_buffer, malloc and free, working on a byte-addressed memory.

 The ghost fields name what memory encodes: the chunks that tile the arenas,
 the free lists in order, and the arenas themselves.
 */
module Heap {
  import opened HeapMemory
  import opened HeapRings
  import opened HeapTiling
  import opened HeapBins
  import opened HeapCore

  const MAX_SMALL_REQUEST := 256
  const CONTEXT_BYTES := 16 + NODE_BYTES * BIN_NUMBER
  const BOUND_BYTES := MIN_INUSE

  /** What an external allocator may answer. */
  datatype External = Absent | Refuses | Grants(at: int, size: int)

  /** Bytes taken from a chunk to serve a request for n bytes. */
  function Need(n: int): int {
    if n + MIN_INUSE < MIN_FREE then MIN_FREE else n + MIN_INUSE
  }

  ghost predicate Fits(ch: Chunks, a: int, need: int) {
    a in ch && ch[a].kind.Free? && need <= ch[a].size
  }

  ghost predicate BestFit(ch: Chunks, c: int, need: int) {
    Fits(ch, c, need) && forall a :: Fits(ch, a, need) ==> ch[c].size <= ch[a].size
  }

  /** The locality heuristic fires: nothing fits exactly, and the small request fits the remainder of the last split. */
  ghost predicate Local(ch: Chunks, lastSize: int, need: int) {
    && (forall a :: Fits(ch, a, need) ==> need < ch[a].size)
    && need <= lastSize && need <= MAX_SMALL_REQUEST
  }

  /** The chunk malloc takes: the remainder of the last split exactly when the heuristic fires, a best fit otherwise. */
  ghost predicate Chosen(ch: Chunks, last: int, lastSize: int, c: int, need: int) {
    if Local(ch, lastSize, need) then c == last else BestFit(ch, c, need)
  }

  /** Binary search for the last bin whose sizes start at or below size. */
  method FindBin(size: int) returns (bin: int)
    requires MIN_INUSE <= size < MAX_SIZE
    ensures InBin(bin, size) && bin < BIN_NUMBER - 1
  {
    var min, max := 0, BIN_NUMBER;
    while min + 1 != max
      invariant 0 <= min < max <= BIN_NUMBER
      invariant BinSize(min) <= size
      invariant max < BIN_NUMBER ==> size < BinSize(max)
    {
      var curr := (min + max) / 2;
      if BinSize(curr) <= size {
        min := curr;
      } else {
        max := curr;
      }
    }
    bin := min;
  }

  /** Arenas lie at positive addresses and are smaller than 2 GB. */
  ghost predicate SmallArenas(arenas: Arenas) {
    forall lo :: lo in arenas ==> 0 < lo && arenas[lo] - lo < MAX_SIZE
  }

  lemma ChunkBelowLimit(ch: Chunks, arenas: Arenas, a: int)
    requires Bounded(ch, arenas) && SmallArenas(arenas) && a in ch
    ensures 0 < a && ch[a].size < MAX_SIZE
  {
    assert Placed(ch, arenas, a);
    var lo :| Home(ch, arenas, a, lo);
  }

  /** What walking a bin's list reads from memory at its j-th stop. */
  ghost predicate Stop(m: Memory, base: int, bin: int, ch: Chunks, list: seq<int>, j: int) {
    0 <= j <= |list| ==>
      && Holds(m, Ring(base, bin, list)[j] + 4, Link(Ring(base, bin, list)[j + 1]))
      && (j < |list| ==>
            && list[j] in ch && list[j] != BinAt(base, bin)
            && Holds(m, list[j], Header(false, ch[list[j]].size)))
  }

  ghost predicate Walkable(m: Memory, base: int, bin: int, ch: Chunks, list: seq<int>) {
    forall j {:trigger Stop(m, base, bin, ch, list, j)} :: Stop(m, base, bin, ch, list, j)
  }

  lemma BinsWalkable(m: Memory, base: int, s: Shape, lists: Lists, bin: int)
    requires Core(m, base, s, lists) && 0 <= bin < BIN_NUMBER
    ensures |lists| == BIN_NUMBER && Walkable(m, base, bin, s.ch, lists[bin])
  {
    var list := lists[bin];
    var r := Ring(base, bin, list);
    assert RingOk(s.next, s.prev, r) && ListOk(s.ch, bin, list);
    forall j ensures Stop(m, base, bin, s.ch, list, j) {
      if 0 <= j <= |list| {
        assert Linked(s.next, s.prev, r[j], r[j + 1]);
        assert NextHolds(m, s.next, r[j]);
        if j < |list| {
          assert TagsHold(m, s.ch, list[j]);
          assert r[j + 1] == list[j];
        }
      }
    }
  }

  /** First chunk of the bin larger than size, or the bin head; chunks of equal size are passed over. */
  method FindUpperChunk(m: Memory, base: int, bin: int, size: int, ghost ch: Chunks, ghost list: seq<int>)
    returns (chunk: int, ghost j: int)
    requires Walkable(m, base, bin, ch, list)
    ensures 0 <= j <= |list| && chunk == Ring(base, bin, list)[j + 1]
    ensures forall k :: 0 <= k < j ==> list[k] in ch && ch[list[k]].size <= size
    ensures j < |list| ==> list[j] in ch && size < ch[list[j]].size
  {
    ghost var r := Ring(base, bin, list);
    assert Stop(m, base, bin, ch, list, 0);
    chunk := m[BinAt(base, bin) + 4].to;
    j := 0;
    while true
      invariant 0 <= j <= |list| && chunk == r[j + 1]
      invariant forall k :: 0 <= k < j ==> list[k] in ch && ch[list[k]].size <= size
      decreases |list| - j
    {
      assert Stop(m, base, bin, ch, list, j);
      if chunk == BinAt(base, bin) || m[chunk].size > size {
        break;
      }
      assert Stop(m, base, bin, ch, list, j + 1);
      chunk := m[chunk + 4].to;
      j := j + 1;
    }
  }

  /** Chunk h entered its bin behind every chunk that is not larger and before the first that is. */
  ghost predicate QueuedBehind(ch: Chunks, lists: Lists, lists': Lists, h: int, size: int, bin: int, j: int) {
    && 0 <= bin < |lists| && InBin(bin, size) && 0 <= j <= |lists[bin]|
    && lists' == lists[bin := Inserted(lists[bin], j, h)]
    && (forall k :: 0 <= k < j ==> lists[bin][k] in ch && ch[lists[bin][k]].size <= size)
    && (j < |lists[bin]| ==> lists[bin][j] in ch && size < ch[lists[bin][j]].size)
  }

  /** First chunk of the bin of at least the given size, or the bin head. */
  method FindChunk(m: Memory, base: int, bin: int, size: int, ghost ch: Chunks, ghost list: seq<int>)
    returns (chunk: int, ghost j: int)
    requires Walkable(m, base, bin, ch, list)
    ensures 0 <= j <= |list| && chunk == Ring(base, bin, list)[j + 1]
    ensures chunk == BinAt(base, bin) <==> j == |list|
    ensures forall k :: 0 <= k < j ==> list[k] in ch && ch[list[k]].size < size
    ensures j < |list| ==> list[j] in ch && size <= ch[list[j]].size
  {
    ghost var r := Ring(base, bin, list);
    assert Stop(m, base, bin, ch, list, 0);
    chunk := m[BinAt(base, bin) + 4].to;
    j := 0;
    while true
      invariant 0 <= j <= |list| && chunk == r[j + 1]
      invariant forall k :: 0 <= k < j ==> list[k] in ch && ch[list[k]].size < size
      decreases |list| - j
    {
      assert Stop(m, base, bin, ch, list, j);
      if chunk == BinAt(base, bin) || m[chunk].size >= size {
        break;
      }
      assert Stop(m, base, bin, ch, list, j + 1);
      chunk := m[chunk + 4].to;
      j := j + 1;
    }
  }

  ghost predicate AllSmaller(ch: Chunks, list: seq<int>, upTo: int, need: int) {
    forall k :: 0 <= k < upTo && k < |list| && list[k] in ch ==> ch[list[k]].size < need
  }

  lemma NothingFits(base: int, ch: Chunks, lists: Lists, need: int, from: int)
    requires BinsOk(ch, lists) && InBin(from, need)
    requires forall i :: from <= i < BIN_NUMBER ==> AllSmaller(ch, lists[i], |lists[i]|, need)
    ensures forall a :: !Fits(ch, a, need)
  {
    forall a ensures !Fits(ch, a, need) {
      if Fits(ch, a, need) {
        var i, j := Locate(base, ch, lists, a);
        BinOrder(from, i, need, ch[a].size);
      }
    }
  }

  lemma FirstIsBest(base: int, ch: Chunks, lists: Lists, need: int, from: int, bin: int, j: int)
    requires BinsOk(ch, lists) && InBin(from, need) && from <= bin < BIN_NUMBER && 0 <= j < |lists[bin]|
    requires forall i :: from <= i < bin ==> AllSmaller(ch, lists[i], |lists[i]|, need)
    requires AllSmaller(ch, lists[bin], j, need)
    requires lists[bin][j] in ch && need <= ch[lists[bin][j]].size
    ensures BestFit(ch, lists[bin][j], need)
  {
    var c := lists[bin][j];
    assert ListOk(ch, bin, lists[bin]);
    forall a | Fits(ch, a, need) ensures ch[c].size <= ch[a].size {
      var i, k := Locate(base, ch, lists, a);
      BinOrder(from, i, need, ch[a].size);
      if i > bin { BinSizeGrows(bin, i); }
    }
  }

  /** First non-empty bin from a given one on, or BIN_NUMBER if there is none. */
  method FirstNonEmpty(m: Memory, base: int, from: int, ghost ch: Chunks, ghost lists: Lists) returns (bin: int)
    requires |lists| == BIN_NUMBER && 0 <= from < BIN_NUMBER
    requires forall i :: 0 <= i < BIN_NUMBER ==> Walkable(m, base, i, ch, lists[i])
    ensures from <= bin <= BIN_NUMBER
    ensures forall i :: from <= i < bin ==> lists[i] == []
    ensures bin < BIN_NUMBER ==> lists[bin] != []
  {
    bin := from;
    assert Stop(m, base, bin, ch, lists[bin], 0);
    while m[BinAt(base, bin) + 4].to == BinAt(base, bin)
      invariant from <= bin < BIN_NUMBER
      invariant forall i :: from <= i < bin ==> lists[i] == []
      invariant Stop(m, base, bin, ch, lists[bin], 0)
      decreases BIN_NUMBER - bin
    {
      bin := bin + 1;
      if bin >= BIN_NUMBER {
        return;
      }
      assert Stop(m, base, bin, ch, lists[bin], 0);
    }
  }

  /** The search of malloc: the smallest sufficient chunk of the whole heap, if any suffices. */
  method Search(m: Memory, base: int, need: int, ghost ch: Chunks, ghost lists: Lists) returns (found: bool, chunk: int)
    requires BinsOk(ch, lists) && |lists| == BIN_NUMBER && MIN_FREE <= need < MAX_SIZE
    requires forall i :: 0 <= i < BIN_NUMBER ==> Walkable(m, base, i, ch, lists[i])
    requires forall a :: a in ch ==> ch[a].size < MAX_SIZE
    ensures found ==> BestFit(ch, chunk, need)
    ensures !found ==> forall a :: !Fits(ch, a, need)
  {
    hide InBin, BinSize, BinsOk, Walkable;
    LastBinEmpty(ch, lists);
    var from := FindBin(need);
    var bin := FirstNonEmpty(m, base, from, ch, lists);
    if bin >= BIN_NUMBER {
      NothingFits(base, ch, lists, need, from);
      return false, NIL;
    }
    ghost var j;
    chunk, j := FindChunk(m, base, bin, need, ch, lists[bin]);
    if chunk == BinAt(base, bin) {
      var next := FirstNonEmpty(m, base, bin + 1, ch, lists);
      if next >= BIN_NUMBER {
        NothingFits(base, ch, lists, need, from);
        return false, NIL;
      }
      FirstChunk(m, base, need, ch, lists, from, next);
      chunk := m[BinAt(base, next) + 4].to;
      FirstIsBest(base, ch, lists, need, from, next, 0);
    } else {
      FirstIsBest(base, ch, lists, need, from, bin, j);
    }
    found := true;
  }

  lemma FirstChunk(m: Memory, base: int, need: int, ch: Chunks, lists: Lists, from: int, bin: int)
    requires BinsOk(ch, lists) && InBin(from, need) && from < bin < BIN_NUMBER && lists[bin] != []
    requires Walkable(m, base, bin, ch, lists[bin])
    ensures Holds(m, BinAt(base, bin) + 4, Link(lists[bin][0]))
    ensures lists[bin][0] in ch && need <= ch[lists[bin][0]].size
  {
    assert Stop(m, base, bin, ch, lists[bin], 0) && ListOk(ch, bin, lists[bin]);
    BinSizeGrows(from, bin);
  }

  lemma NotInLastBin(ch: Chunks, a: int)
    requires a in ch && forall b :: b in ch ==> ch[b].size < MAX_SIZE
    ensures !InBin(BIN_NUMBER - 1, ch[a].size)
  {
    assert BinSize(BIN_NUMBER - 1) == MAX_SIZE;
  }

  lemma LastBinEmpty(ch: Chunks, lists: Lists)
    requires BinsOk(ch, lists) && forall a :: a in ch ==> ch[a].size < MAX_SIZE
    ensures lists[BIN_NUMBER - 1] == []
  {
    var list := lists[BIN_NUMBER - 1];
    assert ListOk(ch, BIN_NUMBER - 1, list);
    if |list| > 0 {
      NotInLastBin(ch, list[0]);
    }
  }

  lemma TooLittle(base: int, ch: Chunks, size: int)
    requires Geometry(base, ch) && size > FreeTotal(ch)
    ensures forall a :: !Fits(ch, a, size)
  {
    forall a ensures !Fits(ch, a, size) {
      TotalBounds(ch, ch.Keys, a);
    }
  }

  lemma CoreGeometry(m: Memory, base: int, s: Shape, lists: Lists)
    requires Core(m, base, s, lists)
    ensures Geometry(base, s.ch) && BinsOk(s.ch, lists) && |lists| == BIN_NUMBER
  {
  }

  /** Release one step at a time: forget a, absorb q before it and n after it if free, add the merged chunk. */
  lemma ReleaseSteps(base: int, ch: Chunks, a: int, q: int)
    requires Geometry(base, ch) && Joined(ch, a) && a in ch && ch[a].kind.Live?
    requires q in ch && q + ch[q].size == a
    ensures var n := a + ch[a].size;
            && n in ch && n != a && n != q && q != a
            && var ch1 := if ch[q].kind.Free? then ch - {a} - {q} else ch - {a};
            var ch2 := if ch[n].kind.Free? then ch1 - {n} else ch1;
            var lo := if ch[q].kind.Free? then q else a;
            var hi := if ch[n].kind.Free? then n + ch[n].size else n;
            && lo == MergeStart(ch, a) && hi == MergeEnd(ch, a)
            && Release(ch, a) == ch2[lo := Chunk(hi - lo, Free)]
  {
    NextAndLast(base, ch, a, q);
    hide Geometry, MergeStart, HasPred;
    var n := a + ch[a].size;
    var lo := if ch[q].kind.Free? then q else a;
    var rest := ch - {a, lo} - (if FreeAfter(ch, a) then {n} else {});
    var ch1 := if ch[q].kind.Free? then ch - {a} - {q} else ch - {a};
    assert ch1 == ch - {a, lo};
    assert (if ch[n].kind.Free? then ch1 - {n} else ch1) == rest;
  }

  lemma NextAndLast(base: int, ch: Chunks, a: int, q: int)
    requires Geometry(base, ch) && Joined(ch, a) && a in ch && ch[a].kind.Live?
    requires q in ch && q + ch[q].size == a
    ensures var n := a + ch[a].size; n in ch && n != a && n != q && q != a
    ensures MergeStart(ch, a) == if ch[q].kind.Free? then q else a
  {
    assert ch[q].kind.Free? ==> FreeBefore(ch, q, a);
    forall p | FreeBefore(ch, p, a) ensures p == q {
      SameEnd(base, ch, p, q);
    }
  }

  lemma Before(ch: Chunks, a: int) returns (q: int)
    requires Tiling(ch) && a in ch && !ch[a].kind.Edge?
    ensures q in ch && q + ch[q].size == a && Joined(ch, a)
  {
    assert Joined(ch, a);
    q :| q in ch && q + ch[q].size == a;
  }

  lemma ReleaseSize(base: int, ch: Chunks, arenas: Arenas, a: int)
    requires Geometry(base, ch) && Tiling(ch) && Bounded(ch, arenas) && SmallArenas(arenas)
    requires a in ch && ch[a].kind.Live?
    ensures MIN_FREE <= MergeEnd(ch, a) - MergeStart(ch, a) < MAX_SIZE
  {
    ReleaseBounded(base, ch, arenas, a);
    ReleaseGeometry(base, ch, a);
    ChunkBelowLimit(Release(ch, a), arenas, MergeStart(ch, a));
  }

  lemma PayloadChain(m0: Memory, m1: Memory, m2: Memory, m3: Memory, ch: Chunks, ch1: Chunks, ch2: Chunks)
    requires PayloadsKept(m0, m1, ch) && PayloadsKept(m1, m2, ch1) && PayloadsKept(m2, m3, ch2)
    requires forall a :: a in ch && ch[a].kind.Live? ==> a in ch1 && ch1[a] == ch[a]
    requires forall a :: a in ch && ch[a].kind.Live? ==> a in ch2 && ch2[a] == ch[a]
    ensures PayloadsKept(m0, m3, ch)
  {
    FewerPayloads(m1, m2, ch, ch1);
    FewerPayloads(m2, m3, ch, ch2);
    PayloadsKeptTwice(m0, m1, m2, ch);
    PayloadsKeptTwice(m0, m2, m3, ch);
  }

  /** The remembered remainder is still a free chunk at least as large as remembered. */
  ghost predicate LastOk(ch: Chunks, last: int, size: int) {
    size == 0 || (last in ch && ch[last].kind.Free? && size <= ch[last].size)
  }

  lemma LastAfterRelease(base: int, ch: Chunks, a: int, last: int, size: int, size': int)
    requires Geometry(base, ch) && Tiling(ch) && a in ch && ch[a].kind.Live? && LastOk(ch, last, size)
    requires size' == if FreeAfter(ch, a) && last == a + ch[a].size then 0 else size
    ensures LastOk(Release(ch, a), last, size')
  {
    ReleaseMerges(ch, a);
    assert Joined(ch, a);
  }

  lemma FreshIsHole(base: int, ch: Chunks, arenas: Arenas, at: int, size: int)
    requires Geometry(base, ch) && Bounded(ch, arenas) && 0 < size
    requires Apart(at, at + size, base, BinAt(base, BIN_NUMBER))
    requires forall lo :: lo in arenas ==> Apart(lo, arenas[lo], at, at + size)
    ensures Hole(base, ch, at, at + size)
  {
    forall a | a in ch ensures Apart(a, a + ch[a].size, at, at + size) {
      assert Placed(ch, arenas, a);
      var lo :| Home(ch, arenas, a, lo);
    }
  }

  lemma GrowFacts(base: int, ch: Chunks, arenas: Arenas, at: int, size: int, last: int, lastSize: int)
    requires Geometry(base, ch) && Tiling(ch) && Bounded(ch, arenas) && SmallArenas(arenas) &&
        LastOk(ch, last, lastSize)
    requires Hole(base, ch, at, at + size) && 0 < at && 2 * BOUND_BYTES + MIN_FREE <= size < MAX_SIZE
    requires forall lo :: lo in arenas ==> Apart(lo, arenas[lo], at, at + size)
    ensures var ch', arenas' := Grow(ch, at, size), arenas[at := at + size];
            && Tiling(ch') && Bounded(ch', arenas') && SmallArenas(arenas') && LastOk(ch', last, lastSize)
            && FreeTotal(ch') == FreeTotal(ch) + size - 2 * BOUND_BYTES
  {
    GrowTiling(base, ch, at, size);
    GrowBounded(base, ch, arenas, at, size);
    GrowTotal(base, ch, at, size);
  }

  /** Where nothing fits, a new arena's one free chunk is all that can. */
  lemma OnlyTheNewFits(ch: Chunks, at: int, size: int, c: int, need: int)
    requires Fits(Grow(ch, at, size), c, need) && !Fits(ch, c, need)
    ensures c == at + MIN_INUSE
  {
  }

  lemma PayloadsSame(m: Memory, ch: Chunks)
    ensures PayloadsKept(m, m, ch)
  {
  }

  lemma BufferHoles(base: int, ch: Chunks, at: int, size: int)
    requires Hole(base, ch, at, at + size) && size >= 2 * BOUND_BYTES + MIN_FREE
    ensures Hole(base, ch, at, at + BOUND_BYTES)
    ensures var c1 := ch[at := Chunk(MIN_INUSE, Edge)];
            var c2 := c1[at + size - BOUND_BYTES := Chunk(MIN_INUSE, Edge)];
            && Hole(base, c1, at + size - BOUND_BYTES, at + size)
            && Hole(base, c2, at + BOUND_BYTES, at + size - BOUND_BYTES)
  {
  }

  lemma GrowKeepsLive(m: Memory, base: int, s: Shape, lists: Lists, arenas: Arenas, at: int, size: int)
    requires Core(m, base, s, lists) && Bounded(s.ch, arenas) && size > 2 * MIN_INUSE
    requires Apart(at, at + size, base, BinAt(base, BIN_NUMBER))
    requires forall lo :: lo in arenas ==> Apart(lo, arenas[lo], at, at + size)
    ensures forall a :: a in s.ch ==> a in Grow(s.ch, at, size) && Grow(s.ch, at, size)[a] == s.ch[a]
  {
    FreshIsHole(base, s.ch, arenas, at, size);
    HoleIsNoKey(m, base, s, lists, at, size);
  }

  function EmptyShape(base: int): Shape {
    var heads := map i | 0 <= i < BIN_NUMBER :: BinAt(base, i) := BinAt(base, i);
    Shape(map[], heads, heads)
  }

  function EmptyLists(): Lists {
    seq(BIN_NUMBER, _ => [])
  }

  ghost predicate EmptyBin(m: Memory, base: int, i: int) {
    Holds(m, BinAt(base, i) + 4, Link(BinAt(base, i))) && Holds(m, BinAt(base, i) + 8, Link(BinAt(base, i)))
  }

  /** Initialising one bin head disturbs no other. */
  lemma BinStores(m: Memory, base: int, bin: int)
    ensures var at := BinAt(base, bin);
            var m' := Store(Store(Store(m, at, Header(false, NODE_BYTES)), at + 4, Link(at)), at + 8, Link(at));
            EmptyBin(m', base, bin) && forall i :: i != bin && EmptyBin(m, base, i) ==> EmptyBin(m', base, i)
  {
    hide Store;
    var at := BinAt(base, bin);
    var m1 := Store(m, at, Header(false, NODE_BYTES));
    var m2 := Store(m1, at + 4, Link(at));
    StoreHere(m1, at + 4, Link(at));
    StoreHere(m2, at + 8, Link(at));
    StoreElsewhere(m2, at + 8, Link(at), at + 4, Link(at));
    forall i | i != bin && EmptyBin(m, base, i) ensures EmptyBin(Store(m2, at + 8, Link(at)), base, i) {
      var k := BinAt(base, i);
      StoreElsewhere(m, at, Header(false, NODE_BYTES), k + 4, Link(k));
      StoreElsewhere(m, at, Header(false, NODE_BYTES), k + 8, Link(k));
      StoreElsewhere(m1, at + 4, Link(at), k + 4, Link(k));
      StoreElsewhere(m1, at + 4, Link(at), k + 8, Link(k));
      StoreElsewhere(m2, at + 8, Link(at), k + 4, Link(k));
      StoreElsewhere(m2, at + 8, Link(at), k + 8, Link(k));
    }
  }

  lemma EmptyCore(m: Memory, base: int)
    requires forall i :: 0 <= i < BIN_NUMBER ==> EmptyBin(m, base, i)
    ensures Core(m, base, EmptyShape(base), EmptyLists()) && EmptyShape(base).ch == map[]
    ensures Tiling(map[]) && Bounded(map[], map[]) && SmallArenas(map[])
    ensures FreeTotal(map[]) == 0 && LastOk(map[], NIL, 0)
  {
    var s, lists := EmptyShape(base), EmptyLists();
    forall n ensures LinksAt(base, s, n) && NextHolds(m, s.next, n) && PrevHolds(m, s.prev, n) {
      if IsBin(base, n) {
        var i :| 0 <= i < BIN_NUMBER && n == BinAt(base, i);
        assert EmptyBin(m, base, i);
      }
    }
    forall a ensures TagsHold(m, s.ch, a) {}
    forall i | 0 <= i < BIN_NUMBER ensures RingOk(s.next, s.prev, Ring(base, i, lists[i])) {
      assert BinAt(base, i) in s.next;
    }
    forall a ensures Joined(map[], a) && Placed(map[], map[], a) && ArenaOk(map[], map[], a) {}
  }

  /** The loop of init_malloc: every bin head points to itself both ways. */
  method InitBins(m: Memory, base: int) returns (m': Memory)
    ensures forall i :: 0 <= i < BIN_NUMBER ==> EmptyBin(m', base, i)
  {
    hide EmptyBin, Store;
    m' := m;
    for bin := 0 to BIN_NUMBER
      invariant forall i :: 0 <= i < bin ==> EmptyBin(m', base, i)
    {
      BinStores(m', base, bin);
      m' := Store(m', BinAt(base, bin), Header(false, NODE_BYTES));
      m' := Store(m', BinAt(base, bin) + 4, Link(BinAt(base, bin)));
      m' := Store(m', BinAt(base, bin) + 8, Link(BinAt(base, bin)));
    }
  }

  class Heap {
    const base: int
    var mem: Memory
    var freeMemory: int
    var lastChunk: int
    var lastChunkSize: int

    ghost var s: Shape
    ghost var lists: Lists
    ghost var arenas: Arenas

    ghost predicate Valid()
      reads this
    {
      && Core(mem, base, s, lists)
      && Tiling(s.ch) && Bounded(s.ch, arenas) && SmallArenas(arenas)
      && freeMemory == FreeTotal(s.ch)
      && LastOk(s.ch, lastChunk, lastChunkSize)
    }

    /** init_malloc: empty bins at the start of the buffer, and an arena in what is left of it. */
    constructor InitMalloc(memory: int, size: int, contents: Memory)
      requires 0 < memory && CONTEXT_BYTES <= size < MAX_SIZE
      ensures Valid() && base == memory + 16 && lastChunkSize == 0
      ensures size - CONTEXT_BYTES < 2 * BOUND_BYTES + MIN_FREE ==> s.ch == map[] && arenas == map[]
      ensures size - CONTEXT_BYTES >= 2 * BOUND_BYTES + MIN_FREE ==>
                && s.ch == Grow(map[], memory + CONTEXT_BYTES, size - CONTEXT_BYTES)
                && arenas == map[memory + CONTEXT_BYTES := memory + size]
    {
      base := memory + 16;
      mem := contents;
      freeMemory, lastChunk, lastChunkSize := 0, NIL, 0;
      s := EmptyShape(memory + 16);
      lists := EmptyLists();
      arenas := map[];
      new;
      hide Core, Tiling, Bounded, FreeTotal, PayloadsKept, LastOk, SmallArenas, Grow, EmptyBin, EmptyShape, EmptyLists;
      mem := InitBins(mem, base);
      EmptyCore(mem, base);
      AddBuffer(memory + CONTEXT_BYTES, size - CONTEXT_BYTES);
    }

    /** Takes a free chunk out of its bin, leaving its bytes unowned. */
    method Unlink(x: int)
      requires Core(mem, base, s, lists) && x in s.ch && s.ch[x].kind.Free?
      modifies `mem, `s, `lists
      ensures Core(mem, base, s, lists) && s.ch == old(s.ch) - {x}
      ensures Hole(base, s.ch, x, x + old(s.ch[x].size))
      ensures Holds(mem, x, Header(false, old(s.ch[x].size)))
      ensures PayloadsKept(old(mem), mem, s.ch)
    {
      hide HeapCore.Core, HeapMemory.Hole, HeapCore.PayloadsKept, HeapMemory.Store;
      ghost var lists' := UnlinkCore(mem, base, s, lists, x);
      NodeReads(mem, base, s, lists, x);
      var p, n := mem[x + 8].to, mem[x + 4].to;
      mem := Store(mem, p + 4, Link(n));
      mem := Store(mem, n + 8, Link(p));
      s := Unlinked(s, x);
      lists := lists';
    }

    /** Tags a hole as a free chunk and adds it to its bin, after the chunks of equal size. */
    method AddFreeChunk(h: int, size: int)
      requires Core(mem, base, s, lists) && Hole(base, s.ch, h, h + size) && MIN_FREE <= size < MAX_SIZE
      modifies `mem, `s, `lists
      ensures Core(mem, base, s, lists) && s.ch == old(s.ch)[h := Chunk(size, Free)]
      ensures PayloadsKept(old(mem), mem, old(s.ch))
      ensures exists bin, j :: QueuedBehind(old(s.ch), old(lists), lists, h, size, bin, j)
    {
      hide HeapCore.Core, HeapMemory.Hole, HeapCore.PayloadsKept, HeapMemory.Store;
      ghost var m0 := mem;
      var bin := FindBin(size);
      HoleCore(mem, base, s, lists, h, h + size, h, Header(false, size));
      mem := Store(mem, h, Header(false, size));
      BinsWalkable(mem, base, s, lists, bin);
      var n; ghost var j;
      n, j := FindUpperChunk(mem, base, bin, size, s.ch, lists[bin]);
      HoleCore(mem, base, s, lists, h, h + size, h + 4, Link(n));
      mem := Store(mem, h + 4, Link(n));
      RingReads(mem, base, s, lists, bin, j);
      var p := mem[n + 8].to;
      mem := Store(mem, h + 8, Link(p));
      mem := Store(mem, n + 8, Link(h));
      mem := Store(mem, p + 4, Link(h));
      mem := Store(mem, h + size - 4, Footer(size));
      SpliceCore(m0, base, s, lists, bin, j, h, size);
      s := Spliced(s, h, size, p, n);
      lists := lists[bin := Inserted(lists[bin], j, h)];
      assert QueuedBehind(old(s.ch), old(lists), lists, h, size, bin, j);
    }

    /** Tags a hole as a live chunk, clearing the links it may have had. */
    method MakeLive(h: int, size: int)
      requires Core(mem, base, s, lists) && Hole(base, s.ch, h, h + size) && MIN_FREE <= size
      modifies `mem, `s
      ensures Core(mem, base, s, lists) && s.ch == old(s.ch)[h := Chunk(size, Live)]
      ensures PayloadsKept(old(mem), mem, old(s.ch))
    {
      hide HeapCore.Core, HeapMemory.Hole, HeapCore.PayloadsKept, HeapMemory.Store;
      LiveCore(mem, base, s, lists, h, size);
      mem := Store(mem, h, Header(true, size));
      mem := Store(mem, h + 4, Link(NIL));
      mem := Store(mem, h + 8, Link(NIL));
      mem := Store(mem, h + size - 4, Footer(size));
      s := s.(ch := s.ch[h := Chunk(size, Live)]);
    }

    /** Turns an unlinked chunk into a live one of the given size, returning what is left over to the bins. */
    method SplitChunk(c: int, need: int, ghost full: int) returns (p: int)
      requires Core(mem, base, s, lists) && Hole(base, s.ch, c, c + full)
      requires Holds(mem, c, Header(false, full)) && MIN_FREE <= need <= full < MAX_SIZE
      modifies this
      ensures Core(mem, base, s, lists) && PayloadsKept(old(mem), mem, old(s.ch))
      ensures p == c + 4 && arenas == old(arenas)
      ensures full - need < MIN_FREE ==>
                && s.ch == old(s.ch)[c := Chunk(full, Live)]
                && freeMemory == old(freeMemory) - full && lastChunkSize == 0
      ensures full - need >= MIN_FREE ==>
                && s.ch == old(s.ch)[c + need := Chunk(full - need, Free)][c := Chunk(need, Live)]
                && freeMemory == old(freeMemory) - need
                && lastChunk == c + need && lastChunkSize == full - need
    {
      hide HeapCore.Core, HeapMemory.Hole, HeapCore.PayloadsKept, HeapMemory.Store;
      ghost var m0, ch0 := mem, s.ch;
      var size := need;
      var left := mem[c].size - size;
      if left < MIN_FREE {
        size := size + left;
        left := 0;
        MakeLive(c, size);
      } else {
        SplitHole(base, s.ch, c, need, full);
        HoleIsNoKey(mem, base, s, lists, c, full);
        lastChunk := c + size;
        AddFreeChunk(lastChunk, left);
        ghost var m1, ch1 := mem, s.ch;
        MakeLive(c, size);
        FewerPayloads(m1, mem, ch0, ch1);
        PayloadsKeptTwice(m0, m1, mem, ch0);
      }
      freeMemory := freeMemory - size;
      lastChunkSize := left;
      p := c + 4;
    }

    lemma AllBelowLimit()
      requires Bounded(s.ch, arenas) && SmallArenas(arenas)
      ensures forall a :: a in s.ch ==> 0 < a && s.ch[a].size < MAX_SIZE
    {
      forall a | a in s.ch ensures 0 < a && s.ch[a].size < MAX_SIZE {
        ChunkBelowLimit(s.ch, arenas, a);
      }
    }

    /** The invariant after a chunk was split off for a request. */
    lemma TakeValid(c: int, need: int, ch0: Chunks)
      requires Geometry(base, ch0) && Tiling(ch0) && Bounded(ch0, arenas) && SmallArenas(arenas)
      requires c in ch0 && ch0[c].kind.Free? && MIN_FREE <= need <= ch0[c].size
      requires Core(mem, base, s, lists) && s.ch == Take(ch0, c, need)
      requires freeMemory == FreeTotal(ch0) - s.ch[c].size && LastOk(s.ch, lastChunk, lastChunkSize)
      ensures Valid()
    {
      TakeTiling(base, ch0, c, need);
      TakeBounded(base, ch0, arenas, c, need);
      TakeTotal(base, ch0, c, need);
    }

    /**
     malloc up to the point where it would ask for more memory: NIL exactly
     when no free chunk is large enough, and then nothing changes; otherwise
     the remainder of the last split if the request is small and nothing fits
     exactly, and the smallest sufficient chunk of the heap if not.
     */
    method TryMalloc(n: int) returns (p: int)
      requires Valid() && 0 <= n && Need(n) < MAX_SIZE
      modifies this
      ensures Valid() && arenas == old(arenas)
      ensures p == NIL <==> forall a :: !Fits(old(s.ch), a, Need(n))
      ensures p == NIL ==> mem == old(mem) && s == old(s) && freeMemory == old(freeMemory)
      ensures p != NIL ==>
                && Fits(old(s.ch), p - 4, Need(n)) && s.ch == Take(old(s.ch), p - 4, Need(n))
                && PayloadsKept(old(mem), mem, old(s.ch))
      ensures p != NIL ==> Chosen(old(s.ch), old(lastChunk), old(lastChunkSize), p - 4, Need(n))
    {
      hide Core, Tiling, Bounded, SmallArenas, Walkable, PayloadsKept, FreeTotal, Geometry, BinsOk, Take;
      AllBelowLimit();
      CoreGeometry(mem, base, s, lists);
      var size := n + MIN_INUSE;
      if size < MIN_FREE {
        size := MIN_FREE;
      }
      if size > freeMemory {
        TooLittle(base, s.ch, size);
        return NIL;
      }
      forall i | 0 <= i < BIN_NUMBER ensures |lists| == BIN_NUMBER && Walkable(mem, base, i, s.ch, lists[i]) {
        BinsWalkable(mem, base, s, lists, i);
      }
      var found, chunk := Search(mem, base, size, s.ch, lists);
      if !found {
        return NIL;
      }
      TagReads(mem, base, s, lists, chunk);
      if size < mem[chunk].size && size <= lastChunkSize && size <= MAX_SMALL_REQUEST {
        chunk := lastChunk;
      }
      p := TakeChunk(chunk, size);
    }

    method TakeChunk(chunk: int, size: int) returns (p: int)
      requires Valid() && MIN_FREE <= size && Fits(s.ch, chunk, size)
      modifies this
      ensures Valid() && arenas == old(arenas)
      ensures p == chunk + 4 && s.ch == Take(old(s.ch), chunk, size)
      ensures PayloadsKept(old(mem), mem, old(s.ch))
    {
      hide HeapCore.Core, HeapMemory.Hole, HeapCore.PayloadsKept, HeapMemory.Store, Tiling, Bounded, SmallArenas;
      ghost var ch0, m0 := s.ch, mem;
      CoreGeometry(mem, base, s, lists);
      ChunkBelowLimit(ch0, arenas, chunk);
      Unlink(chunk);
      ghost var m1, ch1 := mem, s.ch;
      FewerPayloads(m0, mem, ch1, ch1);
      p := SplitChunk(chunk, size, ch0[chunk].size);
      PayloadsKeptTwice(m0, m1, mem, ch1);
      FewerPayloads(m0, mem, ch0, ch1);
      assert s.ch == Take(ch0, chunk, size);
      TakeValid(chunk, size, ch0);
    }

    /** Unlinks free chunk x, which adjoins the hole [lo, hi), and widens the hole over it. */
    method Absorb(x: int, lo: int, hi: int) returns (lo': int, hi': int)
      requires Core(mem, base, s, lists) && Hole(base, s.ch, lo, hi) && lo < hi
      requires x in s.ch && s.ch[x].kind.Free? && (x + s.ch[x].size == lo || x == hi)
      modifies `mem, `s, `lists
      ensures Core(mem, base, s, lists) && s.ch == old(s.ch) - {x}
      ensures if x < lo then lo' == x && hi' == hi else lo' == lo && hi' == hi + old(s.ch[x].size)
      ensures Hole(base, s.ch, lo', hi') && lo' < hi'
      ensures PayloadsKept(old(mem), mem, old(s.ch))
    {
      hide HeapCore.Core, HeapMemory.Hole, HeapCore.PayloadsKept;
      ghost var ch0, m0 := s.ch, mem;
      TagReads(mem, base, s, lists, x);
      Unlink(x);
      FewerPayloads(m0, mem, ch0, s.ch);
      HoleInFewer(base, ch0, s.ch, lo, hi);
      CoreGeometry(mem, base, s, lists);
      if x < lo {
        lo', hi' := x, hi;
        JoinHoles(base, s.ch, x, lo, hi);
      } else {
        lo', hi' := lo, hi + mem[x].size;
        JoinHoles(base, s.ch, lo, hi, hi');
      }
    }

    /** Tries to join the hole left by a freed chunk with the chunk before it, found through its footer. */
    method JoinBefore(a: int, lo: int, hi: int, ghost q: int) returns (lo': int, hi': int)
      requires Core(mem, base, s, lists) && Hole(base, s.ch, lo, hi) && lo < hi && a == lo
      requires q in s.ch && q + s.ch[q].size == lo
      modifies `mem, `s, `lists
      ensures Core(mem, base, s, lists) && PayloadsKept(old(mem), mem, old(s.ch))
      ensures Hole(base, s.ch, lo', hi') && lo' < hi' && hi' == hi
      ensures lo' == if old(s.ch)[q].kind.Free? then q else lo
      ensures s.ch == if old(s.ch)[q].kind.Free? then old(s.ch) - {q} else old(s.ch)
    {
      hide HeapCore.Core, HeapMemory.Hole;
      TagReads(mem, base, s, lists, q);
      var before := a - mem[a - 4].size;
      if !mem[before].inuse {
        lo', hi' := Absorb(before, lo, hi);
      } else {
        lo', hi' := lo, hi;
      }
    }

    /** Tries to join the hole with the chunk after it, which may be the remembered remainder. */
    method JoinAfter(lo: int, hi: int) returns (lo': int, hi': int)
      requires Core(mem, base, s, lists) && Hole(base, s.ch, lo, hi) && lo < hi && hi in s.ch
      modifies `mem, `s, `lists, `lastChunkSize
      ensures Core(mem, base, s, lists) && PayloadsKept(old(mem), mem, old(s.ch))
      ensures Hole(base, s.ch, lo', hi') && lo' < hi' && lo' == lo
      ensures hi' == if old(s.ch)[hi].kind.Free? then hi + old(s.ch)[hi].size else hi
      ensures s.ch == if old(s.ch)[hi].kind.Free? then old(s.ch) - {hi} else old(s.ch)
      ensures lastChunkSize == if old(s.ch)[hi].kind.Free? && lastChunk == hi then 0 else old(lastChunkSize)
    {
      hide HeapCore.Core, HeapMemory.Hole;
      TagReads(mem, base, s, lists, hi);
      if !mem[hi].inuse {
        lo', hi' := Absorb(hi, lo, hi);
        if lastChunk == hi {
          lastChunkSize := 0;
        }
      } else {
        lo', hi' := lo, hi;
      }
    }

    lemma ReleaseValid(a: int, ch0: Chunks)
      requires Geometry(base, ch0) && Tiling(ch0) && Bounded(ch0, arenas) && SmallArenas(arenas)
      requires a in ch0 && ch0[a].kind.Live?
      requires Core(mem, base, s, lists) && s.ch == Release(ch0, a)
      requires freeMemory == FreeTotal(ch0) + ch0[a].size && LastOk(s.ch, lastChunk, lastChunkSize)
      ensures Valid()
    {
      ReleaseTiling(base, ch0, a);
      ReleaseBounded(base, ch0, arenas, a);
      ReleaseTotal(base, ch0, a);
    }

    /** The body of free: joins a live chunk with its free neighbours. */
    method Coalesce(a: int)
      requires Core(mem, base, s, lists) && Tiling(s.ch) && Bounded(s.ch, arenas) && SmallArenas(arenas)
      requires a in s.ch && s.ch[a].kind.Live?
      modifies this
      ensures Core(mem, base, s, lists) && s.ch == Release(old(s.ch), a)
      ensures PayloadsKept(old(mem), mem, old(s.ch) - {a})
      ensures freeMemory == old(freeMemory) + old(s.ch)[a].size
      ensures arenas == old(arenas) && lastChunk == old(lastChunk)
      ensures lastChunkSize == if FreeAfter(old(s.ch), a) && lastChunk == a + old(s.ch)[a].size then 0
                               else old(lastChunkSize)
    {
      hide HeapCore.Core, HeapMemory.Hole, HeapCore.PayloadsKept, SmallArenas, Bounded, Geometry, Tiling, Release;
      hide MergeStart, MergeEnd, HasPred, BinsOk, RingsOk, FieldsOk, Joined, QueuedBehind;
      ghost var ch0, m0 := s.ch, mem;
      TagReads(mem, base, s, lists, a);
      CoreGeometry(mem, base, s, lists);
      ghost var q := Before(ch0, a);
      ReleaseSteps(base, ch0, a, q);
      ReleaseSize(base, ch0, arenas, a);

      freeMemory := freeMemory + mem[a].size;
      var lo, hi := a, a + mem[a].size;
      ForgetCore(mem, base, s, lists, a);
      s := s.(ch := s.ch - {a});
      ghost var others := s.ch;
      lo, hi := JoinBefore(a, lo, hi, q);
      ghost var m1, ch1 := mem, s.ch;
      lo, hi := JoinAfter(lo, hi);
      ghost var m2, ch2 := mem, s.ch;
      AddFreeChunk(lo, hi - lo);
      PayloadChain(m0, m1, m2, mem, others, ch1, ch2);
    }

    /** free: the chunk and its free neighbours become one free chunk, and no other payload changes. */
    method FreePayload(p: int)
      requires Valid() && (p == NIL || (p - 4 in s.ch && s.ch[p - 4].kind.Live?))
      modifies this
      ensures Valid() && arenas == old(arenas)
      ensures p == NIL ==> mem == old(mem) && s == old(s)
      ensures p != NIL ==> s.ch == Release(old(s.ch), p - 4)
      ensures p != NIL ==> PayloadsKept(old(mem), mem, old(s.ch) - {p - 4})
    {
      if p == NIL {
        return;
      }
      hide HeapCore.Core, HeapCore.PayloadsKept, SmallArenas, Bounded, Geometry, Tiling, Release;
      ghost var ch0 := s.ch;
      CoreGeometry(mem, base, s, lists);
      Coalesce(p - 4);
      LastAfterRelease(base, ch0, p - 4, lastChunk, old(lastChunkSize), lastChunkSize);
      ReleaseValid(p - 4, ch0);
    }

    /** Lays down one edge at the given address of a hole. */
    method AddEdge(at: int)
      requires Core(mem, base, s, lists) && Hole(base, s.ch, at, at + MIN_INUSE)
      modifies `mem, `s
      ensures Core(mem, base, s, lists) && s.ch == old(s.ch)[at := Chunk(MIN_INUSE, Edge)]
      ensures PayloadsKept(old(mem), mem, old(s.ch))
    {
      hide HeapCore.Core, HeapMemory.Hole, HeapCore.PayloadsKept, HeapMemory.Store;
      EdgeCore(mem, base, s, lists, at);
      mem := Store(mem, at, Header(true, BOUND_BYTES));
      mem := Store(mem, at + 4, Footer(BOUND_BYTES));
      s := s.(ch := s.ch[at := Chunk(MIN_INUSE, Edge)]);
    }

    /** The buffer overlaps no arena and not the bins. */
    ghost predicate Fresh(at: int, size: int)
      reads this
    {
      && 0 < at && size < MAX_SIZE
      && Apart(at, at + size, base, BinAt(base, BIN_NUMBER))
      && forall lo :: lo in arenas ==> Apart(lo, arenas[lo], at, at + size)
    }

    /** add_malloc_buffer: too small a buffer is ignored; otherwise it becomes an arena of one free chunk. */
    method AddBuffer(at: int, size: int)
      requires Valid() && Fresh(at, size)
      modifies this
      ensures Valid() && lastChunkSize == old(lastChunkSize)
      ensures size < 2 * BOUND_BYTES + MIN_FREE ==> mem == old(mem) && s == old(s) && arenas == old(arenas)
      ensures size >= 2 * BOUND_BYTES + MIN_FREE ==>
                s.ch == Grow(old(s.ch), at, size) && arenas == old(arenas)[at := at + size]
      ensures PayloadsKept(old(mem), mem, old(s.ch))
    {
      hide HeapCore.Core, HeapMemory.Hole, HeapCore.PayloadsKept, Geometry, Tiling, Bounded, SmallArenas;
      hide LastOk, FreeTotal, BinsOk, RingsOk, FieldsOk;
      PayloadsSame(mem, s.ch);
      if size < 2 * BOUND_BYTES + MIN_FREE {
        return;
      }
      ghost var ch0, m0 := s.ch, mem;
      CoreGeometry(mem, base, s, lists);
      FreshIsHole(base, ch0, arenas, at, size);
      BufferHoles(base, ch0, at, size);
      GrowFacts(base, ch0, arenas, at, size, lastChunk, lastChunkSize);
      HoleIsNoKey(mem, base, s, lists, at, size);
      AddEdge(at);
      ghost var m1, ch1 := mem, s.ch;
      AddEdge(at + size - BOUND_BYTES);
      ghost var m2, ch2 := mem, s.ch;
      AddFreeChunk(at + BOUND_BYTES, size - 2 * BOUND_BYTES);
      PayloadChain(m0, m1, m2, mem, ch0, ch1, ch2);
      freeMemory := freeMemory + size - 2 * BOUND_BYTES;
      arenas := arenas[at := at + size];
    }

    /** out_of_memory: grows through the external allocator, if it grants enough, and retries once. */
    method OutOfMemory(size: int, ext: External) returns (p: int)
      requires Valid() && MIN_FREE <= size && size + 2 * MIN_INUSE < MAX_SIZE
      requires ext.Grants? ==> Fresh(ext.at, ext.size)
      modifies this
      ensures Valid()
      ensures p == NIL <==> !(ext.Grants? && ext.size >= size + 2 * MIN_INUSE)
      ensures p == NIL ==> mem == old(mem) && s == old(s) && arenas == old(arenas)
      ensures p != NIL ==>
                && arenas == old(arenas)[ext.at := ext.at + ext.size]
                && Fits(Grow(old(s.ch), ext.at, ext.size), p - 4, size)
                && s.ch == Take(Grow(old(s.ch), ext.at, ext.size), p - 4, size)
      ensures PayloadsKept(old(mem), mem, old(s.ch))
    {
      hide HeapCore.Core, HeapCore.PayloadsKept, Geometry, Tiling, Bounded, SmallArenas, LastOk, FreeTotal, Take;
      PayloadsSame(mem, s.ch);
      if !ext.Grants? || ext.size < size + 2 * MIN_INUSE {
        return NIL;
      }
      ghost var m0, ch0 := mem, s.ch;
      GrowKeepsLive(mem, base, s, lists, arenas, ext.at, ext.size);
      AddBuffer(ext.at, ext.size);
      ghost var m1, ch1 := mem, s.ch;
      assert Fits(ch1, ext.at + MIN_INUSE, Need(size - MIN_INUSE));
      p := TryMalloc(size - MIN_INUSE);
      FewerPayloads(m1, mem, ch0, ch1);
      PayloadsKeptTwice(m0, m1, mem, ch0);
    }

    /**
     malloc: fails exactly when no free chunk is large enough and the external
     allocator is absent or grants too little; the retry after growing never fails.
     */
    method Malloc(n: int, ext: External) returns (p: int)
      requires Valid() && 0 <= n && Need(n) + 2 * MIN_INUSE < MAX_SIZE
      requires ext.Grants? ==> Fresh(ext.at, ext.size)
      modifies this
      ensures Valid() && PayloadsKept(old(mem), mem, old(s.ch))
      ensures p == NIL <==>
                && (forall a :: !Fits(old(s.ch), a, Need(n)))
                && !(ext.Grants? && ext.size >= Need(n) + 2 * MIN_INUSE)
      ensures p != NIL ==> p - 4 in s.ch && s.ch[p - 4].kind.Live? && n <= s.ch[p - 4].size - MIN_INUSE
      ensures p != NIL ==>
        s.ch[p - 4].size < MIN_FREE + if n + MIN_INUSE < MIN_FREE then MIN_FREE else n + MIN_INUSE
      ensures (exists a :: Fits(old(s.ch), a, Need(n))) ==>
                && arenas == old(arenas)
                && Fits(old(s.ch), p - 4, Need(n)) && s.ch == Take(old(s.ch), p - 4, Need(n))
                && Chosen(old(s.ch), old(lastChunk), old(lastChunkSize), p - 4, Need(n))
      ensures (forall a :: !Fits(old(s.ch), a, Need(n))) && p != NIL ==>
                && ext.Grants? && arenas == old(arenas)[ext.at := ext.at + ext.size] && p - 4 == ext.at + MIN_INUSE
                && Fits(Grow(old(s.ch), ext.at, ext.size), p - 4, Need(n))
                && s.ch == Take(Grow(old(s.ch), ext.at, ext.size), p - 4, Need(n))
      ensures p == NIL ==> s == old(s) && mem == old(mem)
    {
      hide HeapCore.Core, HeapCore.PayloadsKept, Geometry, Tiling, Bounded;
      p := TryMalloc(n);
      if p == NIL {
        p := OutOfMemory(Need(n), ext);
        if p != NIL {
          OnlyTheNewFits(old(s.ch), ext.at, ext.size, p - 4, Need(n));
        }
      }
    }

    /** A user store inside a live payload keeps the invariant. */
    method StorePayload(p: int, offset: int, value: int)
      requires Valid() && p - 4 in s.ch && s.ch[p - 4].kind.Live?
      requires 0 <= offset && offset + 4 <= s.ch[p - 4].size - MIN_INUSE
      modifies `mem
      ensures Valid() && Holds(mem, p + offset, Data(value))
    {
      StoreInPayload(mem, base, s, p - 4, p + offset, Data(value));
      mem := Store(mem, p + offset, Data(value));
    }

    /** Freeing what a request was just given, without growth in between, restores the tiling exactly. */
    method MallocThenFree(n: int)
      requires Valid() && 0 <= n && Need(n) < MAX_SIZE
      modifies this
      ensures Valid() && s.ch == old(s.ch) && arenas == old(arenas)
      ensures freeMemory == old(freeMemory)
    {
      ghost var ch0 := s.ch;
      CoreGeometry(mem, base, s, lists);
      var p := TryMalloc(n);
      if p != NIL {
        ReleaseTake(base, ch0, p - 4, Need(n));
        FreePayload(p);
      }
    }
  }
}
