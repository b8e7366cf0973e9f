/**
 The two memory updates the heap is built from, splicing a free chunk into a
 bin and taking one out, with the invariants that tie memory to the bins.
 */
module HeapCore {
  import opened HeapMemory
  import opened HeapRings
  import opened HeapBins

  /** Memory, chunks, links and bins agree. */
  ghost predicate Core(m: Memory, base: int, s: Shape, lists: Lists) {
    FieldsOk(m, base, s) && BinsOk(s.ch, lists) && RingsOk(base, s, lists)
  }

  /** Every word clear of the list nodes is as it was. */
  ghost predicate KeptForeign(m: Memory, m': Memory, base: int, ch: Chunks) {
    forall k :: Foreign(base, ch, k) ==> Kept(m, m', k)
  }

  /** Every word clear of the list nodes and of [lo, hi) is as it was. */
  ghost predicate KeptOutside(m: Memory, m': Memory, base: int, ch: Chunks, lo: int, hi: int) {
    forall k :: Foreign(base, ch, k) && Apart(k, k + 4, lo, hi) ==> Kept(m, m', k)
  }

  lemma StoreKept(m: Memory, at: int, w: Word, k: int)
    requires Apart(k, k + 4, at, at + 4)
    ensures Kept(m, Store(m, at, w), k)
  {
  }

  function UnlinkStores(m: Memory, p: int, n: int): Memory {
    Store(Store(m, p + 4, Link(n)), n + 8, Link(p))
  }

  lemma UnlinkFields(m: Memory, base: int, s: Shape, x: int)
    requires FieldsOk(m, base, s) && x in s.ch && s.ch[x].kind.Free?
    requires x in s.next && x in s.prev && s.prev[x] in s.next && s.next[x] in s.prev
    requires s.prev[x] != x && s.next[x] != x
    ensures FieldsOk(UnlinkStores(m, s.prev[x], s.next[x]), base, Unlinked(s, x))
    ensures Hole(base, s.ch - {x}, x, x + s.ch[x].size)
  {
    hide FieldsOk, Hole, Store;
    var p, n := s.prev[x], s.next[x];
    StoreNext(m, base, s, p, n);
    var s1 := s.(next := s.next[p := n]);
    StorePrev(Store(m, p + 4, Link(n)), base, s1, n, p);
    var s2 := s1.(prev := s1.prev[n := p]);
    ForgetFree(UnlinkStores(m, p, n), base, s2, x);
  }

  lemma UnlinkKept(m: Memory, base: int, ch: Chunks, p: int, n: int)
    requires IsNode(base, ch, p) && IsNode(base, ch, n)
    ensures KeptForeign(m, UnlinkStores(m, p, n), base, ch)
  {
    hide Store;
    forall k | Foreign(base, ch, k) ensures Kept(m, UnlinkStores(m, p, n), k) {
      StoreKept(m, p + 4, Link(n), k);
      StoreKept(Store(m, p + 4, Link(n)), n + 8, Link(p), k);
    }
  }

  /** Stores of add_free_chunk, in its order: header, links, neighbours' links, footer. */
  function SpliceStores(m: Memory, h: int, size: int, p: int, n: int): Memory {
    var m1 := Store(m, h, Header(false, size));
    var m2 := Store(m1, h + 4, Link(n));
    var m3 := Store(m2, h + 8, Link(p));
    var m4 := Store(m3, n + 8, Link(h));
    var m5 := Store(m4, p + 4, Link(h));
    Store(m5, h + size - 4, Footer(size))
  }

  lemma SpliceTags(m: Memory, base: int, ch: Chunks, h: int, size: int, p: int, n: int)
    requires Geometry(base, ch) && Hole(base, ch, h, h + size) && size >= MIN_FREE
    requires IsNode(base, ch, p) && IsNode(base, ch, n)
    ensures var m' := SpliceStores(m, h, size, p, n);
            Tagged(m', h, Chunk(size, Free)) && Holds(m', h + 4, Link(n)) && Holds(m', h + 8, Link(p))
  {
    assert Apart(n, n + NODE_BYTES, h, h + size) && Apart(p, p + NODE_BYTES, h, h + size);
    var m1 := Store(m, h, Header(false, size));
    var m2 := Store(m1, h + 4, Link(n));
    var m3 := Store(m2, h + 8, Link(p));
    hide Store;
    StoreHere(m, h, Header(false, size));
    StoreHere(m1, h + 4, Link(n));
    StoreHere(m2, h + 8, Link(p));
    StoreHere(Store(Store(m3, n + 8, Link(h)), p + 4, Link(h)), h + size - 4, Footer(size));
    StoreElsewhere(m1, h + 4, Link(n), h, Header(false, size));
    StoreElsewhere(m2, h + 8, Link(p), h, Header(false, size));
    StoreElsewhere(m2, h + 8, Link(p), h + 4, Link(n));
    SpliceHolds(m3, h, size, p, n, h, Header(false, size));
    SpliceHolds(m3, h, size, p, n, h + 4, Link(n));
    SpliceHolds(m3, h, size, p, n, h + 8, Link(p));
  }

  lemma SpliceHolds(m: Memory, h: int, size: int, p: int, n: int, k: int, w: Word)
    requires Holds(m, k, w) && h <= k && k + 4 <= h + size - 4
    requires Apart(n, n + NODE_BYTES, h, h + size) && Apart(p, p + NODE_BYTES, h, h + size)
    ensures Holds(Store(Store(Store(m, n + 8, Link(h)), p + 4, Link(h)), h + size - 4, Footer(size)), k, w)
  {
    hide Store, Holds;
    var m1 := Store(m, n + 8, Link(h));
    StoreElsewhere(m, n + 8, Link(h), k, w);
    StoreElsewhere(m1, p + 4, Link(h), k, w);
    StoreElsewhere(Store(m1, p + 4, Link(h)), h + size - 4, Footer(size), k, w);
  }

  lemma SpliceOwnWords(m: Memory, base: int, s: Shape, h: int, size: int, p: int, n: int)
    requires FieldsOk(m, base, s) && Hole(base, s.ch, h, h + size) && size >= MIN_FREE
    ensures FieldsOk(Store(Store(Store(m, h, Header(false, size)), h + 4, Link(n)), h + 8, Link(p)), base, s)
  {
    hide FieldsOk, Hole, Store;
    StoreInHole(m, base, s, h, h + size, h, Header(false, size));
    var m1 := Store(m, h, Header(false, size));
    StoreInHole(m1, base, s, h, h + size, h + 4, Link(n));
    StoreInHole(Store(m1, h + 4, Link(n)), base, s, h, h + size, h + 8, Link(p));
  }

  lemma SpliceNeighbours(m: Memory, base: int, s: Shape, h: int, p: int, n: int)
    requires FieldsOk(m, base, s) && p in s.next && n in s.prev
    ensures FieldsOk(Store(Store(m, n + 8, Link(h)), p + 4, Link(h)), base,
                     Shape(s.ch, s.next[p := h], s.prev[n := h]))
  {
    hide FieldsOk, Hole, Store;
    StorePrev(m, base, s, n, h);
    StoreNext(Store(m, n + 8, Link(h)), base, s.(prev := s.prev[n := h]), p, h);
  }

  lemma SpliceBesides(m: Memory, base: int, s: Shape, h: int, size: int, p: int, n: int)
    requires FieldsOk(m, base, s) && Hole(base, s.ch, h, h + size) && size >= MIN_FREE
    requires p in s.next && n in s.prev
    ensures FieldsOk(SpliceStores(m, h, size, p, n), base, Shape(s.ch, s.next[p := h], s.prev[n := h]))
  {
    hide FieldsOk, Hole, Store;
    var m3 := Store(Store(Store(m, h, Header(false, size)), h + 4, Link(n)), h + 8, Link(p));
    SpliceOwnWords(m, base, s, h, size, p, n);
    SpliceNeighbours(m3, base, s, h, p, n);
    var s5 := Shape(s.ch, s.next[p := h], s.prev[n := h]);
    var m5 := Store(Store(m3, n + 8, Link(h)), p + 4, Link(h));
    StoreInHole(m5, base, s5, h, h + size, h + size - 4, Footer(size));
  }

  lemma SpliceFields(m: Memory, base: int, s: Shape, h: int, size: int, p: int, n: int)
    requires FieldsOk(m, base, s) && Geometry(base, s.ch) && Hole(base, s.ch, h, h + size) && size >= MIN_FREE
    requires p in s.next && n in s.prev && IsNode(base, s.ch, p) && IsNode(base, s.ch, n) && h != p && h != n
    ensures FieldsOk(SpliceStores(m, h, size, p, n), base, Spliced(s, h, size, p, n))
  {
    hide FieldsOk, Hole, Store, Tagged, Holds;
    SpliceBesides(m, base, s, h, size, p, n);
    SpliceTags(m, base, s.ch, h, size, p, n);
    var s5 := Shape(s.ch, s.next[p := h], s.prev[n := h]);
    AdoptFree(SpliceStores(m, h, size, p, n), base, s5, h, size, n, p);
    assert s5.next[h := n] == s.next[h := n][p := h];
    assert s5.prev[h := p] == s.prev[h := p][n := h];
  }

  lemma SpliceKept(m: Memory, base: int, ch: Chunks, h: int, size: int, p: int, n: int)
    requires IsNode(base, ch, p) && IsNode(base, ch, n) && size >= MIN_FREE
    ensures KeptOutside(m, SpliceStores(m, h, size, p, n), base, ch, h, h + size)
  {
    hide Store;
    forall k | Foreign(base, ch, k) && Apart(k, k + 4, h, h + size)
      ensures Kept(m, SpliceStores(m, h, size, p, n), k)
    {
      var m1 := Store(m, h, Header(false, size));
      var m2 := Store(m1, h + 4, Link(n));
      var m3 := Store(m2, h + 8, Link(p));
      var m4 := Store(m3, n + 8, Link(h));
      var m5 := Store(m4, p + 4, Link(h));
      StoreKept(m, h, Header(false, size), k);
      StoreKept(m1, h + 4, Link(n), k);
      StoreKept(m2, h + 8, Link(p), k);
      StoreKept(m3, n + 8, Link(h), k);
      StoreKept(m4, p + 4, Link(h), k);
      StoreKept(m5, h + size - 4, Footer(size), k);
    }
  }

  /** Stores of split_chunk's tail: header, cleared links, footer. */
  function LiveStores(m: Memory, h: int, size: int): Memory {
    var m1 := Store(m, h, Header(true, size));
    var m2 := Store(m1, h + 4, Link(NIL));
    var m3 := Store(m2, h + 8, Link(NIL));
    Store(m3, h + size - 4, Footer(size))
  }

  lemma LiveFields(m: Memory, base: int, s: Shape, h: int, size: int)
    requires FieldsOk(m, base, s) && Hole(base, s.ch, h, h + size) && size >= MIN_FREE
    ensures FieldsOk(LiveStores(m, h, size), base, s.(ch := s.ch[h := Chunk(size, Live)]))
    ensures forall k :: Apart(k, k + 4, h, h + size) ==> Kept(m, LiveStores(m, h, size), k)
  {
    hide FieldsOk, Hole, Store, Tagged, Kept;
    var m1 := Store(m, h, Header(true, size));
    var m2 := Store(m1, h + 4, Link(NIL));
    var m3 := Store(m2, h + 8, Link(NIL));
    StoreInHole(m, base, s, h, h + size, h, Header(true, size));
    StoreInHole(m1, base, s, h, h + size, h + 4, Link(NIL));
    StoreInHole(m2, base, s, h, h + size, h + 8, Link(NIL));
    StoreInHole(m3, base, s, h, h + size, h + size - 4, Footer(size));
    LiveTagged(m, h, size);
    AdoptLive(LiveStores(m, h, size), base, s, h, Chunk(size, Live));
  }

  lemma LiveTagged(m: Memory, h: int, size: int)
    requires size >= MIN_FREE
    ensures Tagged(LiveStores(m, h, size), h, Chunk(size, Live))
    ensures forall k :: Apart(k, k + 4, h, h + size) ==> Kept(m, LiveStores(m, h, size), k)
  {
    var m1 := Store(m, h, Header(true, size));
    var m2 := Store(m1, h + 4, Link(NIL));
    var m3 := Store(m2, h + 8, Link(NIL));
    hide Store;
    StoreHere(m, h, Header(true, size));
    StoreHere(m3, h + size - 4, Footer(size));
    StoreElsewhere(m1, h + 4, Link(NIL), h, Header(true, size));
    StoreElsewhere(m2, h + 8, Link(NIL), h, Header(true, size));
    StoreElsewhere(m3, h + size - 4, Footer(size), h, Header(true, size));
    forall k | Apart(k, k + 4, h, h + size) ensures Kept(m, LiveStores(m, h, size), k) {
      StoreKept(m, h, Header(true, size), k);
      StoreKept(m1, h + 4, Link(NIL), k);
      StoreKept(m2, h + 8, Link(NIL), k);
      StoreKept(m3, h + size - 4, Footer(size), k);
    }
  }

  /** Taking a free chunk out of its bin keeps everything else in agreement. */
  lemma UnlinkCore(m: Memory, base: int, s: Shape, lists: Lists, x: int) returns (lists': Lists)
    requires Core(m, base, s, lists) && x in s.ch && s.ch[x].kind.Free?
    ensures x in s.next && x in s.prev
    ensures Core(UnlinkStores(m, s.prev[x], s.next[x]), base, Unlinked(s, x), lists')
    ensures Hole(base, s.ch - {x}, x, x + s.ch[x].size)
    ensures PayloadsKept(m, UnlinkStores(m, s.prev[x], s.next[x]), s.ch - {x})
    ensures Holds(UnlinkStores(m, s.prev[x], s.next[x]), x, Header(false, s.ch[x].size))
  {
    hide UnlinkStores, PayloadsKept, Geometry, BinsOk, Removed, RingOk;
    var i, j := Locate(base, s.ch, lists, x);
    lists' := lists[i := Removed(lists[i], j)];
    assert RingOk(s.next, s.prev, Ring(base, i, lists[i]));
    RingElement(base, i, lists[i], j);
    UnlinkRing(s, Ring(base, i, lists[i]), j + 1);
    UnlinkRings(base, s, lists, i, j);
    RingDistinct(s.next, s.prev, base, i, lists[i]);
    UnlinkBins(s.ch, lists, i, j);
    UnlinkNodes(base, s, lists, i, j);
    UnlinkFields(m, base, s, x);
    UnlinkKept(m, base, s.ch - {x}, s.prev[x], s.next[x]);
    ForeignKeepsPayloads(m, UnlinkStores(m, s.prev[x], s.next[x]), base, s.ch - {x});
    HoleIsForeign(base, s.ch - {x}, x, x + s.ch[x].size, x);
    assert TagsHold(m, s.ch, x);
  }

  lemma UnlinkNodes(base: int, s: Shape, lists: Lists, i: int, j: int)
    requires Geometry(base, s.ch) && NodeKeys(base, s) && BinsOk(s.ch, lists) && RingsOk(base, s, lists)
    requires 0 <= i < BIN_NUMBER && 0 <= j < |lists[i]|
    ensures var x := lists[i][j];
            && x in s.next && x in s.prev
            && s.prev[x] != x && s.next[x] != x
            && IsNode(base, s.ch - {x}, s.prev[x]) && IsNode(base, s.ch - {x}, s.next[x])
            && s.prev[x] in s.next && s.next[x] in s.prev
  {
    var r := Ring(base, i, lists[i]);
    assert RingOk(s.next, s.prev, r);
    RingElement(base, i, lists[i], j);
    UnlinkRing(s, r, j + 1);
    RingNodes(base, s.ch, lists, i, r[j]);
    RingNodes(base, s.ch, lists, i, r[j + 2]);
  }

  /** Adding a free chunk over a hole, at its sorted place in its bin, keeps everything in agreement. */
  lemma SpliceCore(m: Memory, base: int, s: Shape, lists: Lists, i: int, j: int, h: int, size: int)
    requires Core(m, base, s, lists) && Hole(base, s.ch, h, h + size) && size >= MIN_FREE && InBin(i, size)
    requires 0 <= j <= |lists[i]|
    requires forall k :: 0 <= k < j ==> lists[i][k] in s.ch && s.ch[lists[i][k]].size <= size
    requires j < |lists[i]| ==> lists[i][j] in s.ch && size < s.ch[lists[i][j]].size
    ensures var r := Ring(base, i, lists[i]); var m' := SpliceStores(m, h, size, r[j], r[j + 1]);
            && Core(m', base, Spliced(s, h, size, r[j], r[j + 1]), lists[i := Inserted(lists[i], j, h)])
            && PayloadsKept(m, m', s.ch)
  {
    assert |lists| == BIN_NUMBER && 0 <= i < BIN_NUMBER;
    hide PayloadsKept, SpliceStores, Hole, Geometry, BinsOk, InBin;
    var r := Ring(base, i, lists[i]);
    assert RingOk(s.next, s.prev, r);
    assert Linked(s.next, s.prev, r[j], r[j + 1]);
    HoleIsNoNode(base, s.ch, h, size);
    RingNodes(base, s.ch, lists, i, r[j]);
    RingNodes(base, s.ch, lists, i, r[j + 1]);
    SpliceRings(base, s, lists, i, j, h, size);
    LinkBins(s.ch, lists, i, j, h, size);
    SpliceFields(m, base, s, h, size, r[j], r[j + 1]);
    SpliceKept(m, base, s.ch, h, size, r[j], r[j + 1]);
    OutsideKeepsPayloads(m, SpliceStores(m, h, size, r[j], r[j + 1]), base, s.ch, h, h + size);
  }

  lemma HoleIsNoNode(base: int, ch: Chunks, h: int, size: int)
    requires Geometry(base, ch) && Hole(base, ch, h, h + size) && size >= MIN_FREE
    ensures h !in ch && !IsNode(base, ch, h)
  {
  }

  /** The contents of every live payload are as they were. */
  ghost predicate PayloadsKept(m: Memory, m': Memory, ch: Chunks) {
    forall a, k :: a in ch && ch[a].kind.Live? && a + 4 <= k && k + 4 <= a + ch[a].size - 4 ==> Kept(m, m', k)
  }

  lemma OutsideKeepsPayloads(m: Memory, m': Memory, base: int, ch: Chunks, lo: int, hi: int)
    requires Geometry(base, ch) && KeptOutside(m, m', base, ch, lo, hi) && Hole(base, ch, lo, hi)
    ensures PayloadsKept(m, m', ch)
  {
    forall a, k | a in ch && ch[a].kind.Live? && a + 4 <= k && k + 4 <= a + ch[a].size - 4
      ensures Kept(m, m', k)
    {
      PayloadIsForeign(base, ch, a, k);
    }
  }

  lemma ForeignKeepsPayloads(m: Memory, m': Memory, base: int, ch: Chunks)
    requires Geometry(base, ch) && KeptForeign(m, m', base, ch)
    ensures PayloadsKept(m, m', ch)
  {
    forall a, k | a in ch && ch[a].kind.Live? && a + 4 <= k && k + 4 <= a + ch[a].size - 4
      ensures Kept(m, m', k)
    {
      PayloadIsForeign(base, ch, a, k);
    }
  }

  lemma LiveBins(ch: Chunks, lists: Lists, h: int, c: Chunk)
    requires BinsOk(ch, lists) && h !in ch && !c.kind.Free?
    ensures BinsOk(ch[h := c], lists)
  {
    forall i | 0 <= i < BIN_NUMBER ensures ListOk(ch[h := c], i, lists[i]) {
      assert ListOk(ch, i, lists[i]);
    }
  }

  lemma ForgetBins(ch: Chunks, lists: Lists, a: int)
    requires BinsOk(ch, lists) && a in ch && !ch[a].kind.Free?
    ensures BinsOk(ch - {a}, lists)
  {
    forall i | 0 <= i < BIN_NUMBER ensures ListOk(ch - {a}, i, lists[i]) {
      assert ListOk(ch, i, lists[i]);
    }
  }

  lemma LiveCore(m: Memory, base: int, s: Shape, lists: Lists, h: int, size: int)
    requires Core(m, base, s, lists) && Hole(base, s.ch, h, h + size) && size >= MIN_FREE
    ensures Core(LiveStores(m, h, size), base, s.(ch := s.ch[h := Chunk(size, Live)]), lists)
    ensures PayloadsKept(m, LiveStores(m, h, size), s.ch)
  {
    HoleIsNoNode(base, s.ch, h, size);
    LiveFields(m, base, s, h, size);
    LiveBins(s.ch, lists, h, Chunk(size, Live));
    OutsideKeepsPayloads(m, LiveStores(m, h, size), base, s.ch, h, h + size);
  }

  lemma ForgetCore(m: Memory, base: int, s: Shape, lists: Lists, a: int)
    requires Core(m, base, s, lists) && a in s.ch && !s.ch[a].kind.Free?
    ensures Core(m, base, s.(ch := s.ch - {a}), lists)
    ensures Hole(base, s.ch - {a}, a, a + s.ch[a].size)
  {
    ForgetLive(m, base, s, a);
    ForgetBins(s.ch, lists, a);
  }

  lemma PayloadsKeptTwice(m: Memory, m': Memory, m'': Memory, ch: Chunks)
    requires PayloadsKept(m, m', ch) && PayloadsKept(m', m'', ch)
    ensures PayloadsKept(m, m'', ch)
  {
    forall a, k | a in ch && ch[a].kind.Live? && a + 4 <= k && k + 4 <= a + ch[a].size - 4
      ensures Kept(m, m'', k)
    {
      assert Kept(m, m', k) && Kept(m', m'', k);
    }
  }

  lemma HoleCore(m: Memory, base: int, s: Shape, lists: Lists, lo: int, hi: int, at: int, w: Word)
    requires Core(m, base, s, lists) && Hole(base, s.ch, lo, hi) && lo <= at && at + 4 <= hi
    ensures Core(Store(m, at, w), base, s, lists)
  {
    StoreInHole(m, base, s, lo, hi, at, w);
  }

  lemma RingReads(m: Memory, base: int, s: Shape, lists: Lists, i: int, j: int)
    requires Core(m, base, s, lists) && 0 <= i < BIN_NUMBER && 0 <= j <= |lists[i]|
    ensures var r := Ring(base, i, lists[i]); Holds(m, r[j + 1] + 8, Link(r[j]))
  {
    var r := Ring(base, i, lists[i]);
    assert RingOk(s.next, s.prev, r);
    assert Linked(s.next, s.prev, r[j], r[j + 1]);
    assert PrevHolds(m, s.prev, r[j + 1]);
  }

  lemma NodeReads(m: Memory, base: int, s: Shape, lists: Lists, n: int)
    requires Core(m, base, s, lists) && (n in s.next || n in s.prev)
    ensures n in s.next && n in s.prev
    ensures Holds(m, n + 4, Link(s.next[n])) && Holds(m, n + 8, Link(s.prev[n]))
  {
    assert LinksAt(base, s, n) && NextHolds(m, s.next, n) && PrevHolds(m, s.prev, n);
  }

  lemma TagReads(m: Memory, base: int, s: Shape, lists: Lists, a: int)
    requires Core(m, base, s, lists) && a in s.ch
    ensures Tagged(m, a, s.ch[a]) && s.ch[a].size >= MIN_INUSE
    ensures !s.ch[a].kind.Edge? ==> s.ch[a].size >= MIN_FREE
  {
    assert TagsHold(m, s.ch, a);
  }

  lemma SplitHole(base: int, ch: Chunks, c: int, need: int, full: int)
    requires Hole(base, ch, c, c + full) && 0 <= need <= full
    ensures Hole(base, ch, c + need, c + full)
    ensures Hole(base, ch[c + need := Chunk(full - need, Free)], c, c + need)
  {
  }

  lemma FewerPayloads(m: Memory, m': Memory, ch: Chunks, ch': Chunks)
    requires PayloadsKept(m, m', ch')
    requires forall a :: a in ch && ch[a].kind.Live? ==> a in ch' && ch'[a] == ch[a]
    ensures PayloadsKept(m, m', ch)
  {
  }

  lemma HoleIsNoKey(m: Memory, base: int, s: Shape, lists: Lists, lo: int, size: int)
    requires Core(m, base, s, lists) && Hole(base, s.ch, lo, lo + size)
    ensures forall a :: lo <= a < lo + size ==> a !in s.ch
  {
  }

  lemma JoinHoles(base: int, ch: Chunks, lo: int, mid: int, hi: int)
    requires Hole(base, ch, lo, mid) && Hole(base, ch, mid, hi) && lo < mid < hi
    requires Geometry(base, ch)
    ensures Hole(base, ch, lo, hi)
  {
  }

  lemma HoleInFewer(base: int, ch: Chunks, ch': Chunks, lo: int, hi: int)
    requires Hole(base, ch, lo, hi) && forall a :: a in ch' ==> a in ch && ch'[a] == ch[a]
    ensures Hole(base, ch', lo, hi)
  {
  }

  /** The stores that lay down one edge. */
  function EdgeStores(m: Memory, at: int): Memory {
    Store(Store(m, at, Header(true, MIN_INUSE)), at + 4, Footer(MIN_INUSE))
  }

  lemma EdgeCore(m: Memory, base: int, s: Shape, lists: Lists, at: int)
    requires Core(m, base, s, lists) && Hole(base, s.ch, at, at + MIN_INUSE)
    ensures Core(EdgeStores(m, at), base, s.(ch := s.ch[at := Chunk(MIN_INUSE, Edge)]), lists)
    ensures PayloadsKept(m, EdgeStores(m, at), s.ch)
  {
    var m1 := Store(m, at, Header(true, MIN_INUSE));
    StoreInHole(m, base, s, at, at + MIN_INUSE, at, Header(true, MIN_INUSE));
    StoreInHole(m1, base, s, at, at + MIN_INUSE, at + 4, Footer(MIN_INUSE));
    StoreElsewhere(m1, at + 4, Footer(MIN_INUSE), at, Header(true, MIN_INUSE));
    AdoptLive(EdgeStores(m, at), base, s, at, Chunk(MIN_INUSE, Edge));
    LiveBins(s.ch, lists, at, Chunk(MIN_INUSE, Edge));
    EdgeKept(m, base, s.ch, at);
  }

  lemma EdgeKept(m: Memory, base: int, ch: Chunks, at: int)
    requires Geometry(base, ch) && Hole(base, ch, at, at + MIN_INUSE)
    ensures PayloadsKept(m, EdgeStores(m, at), ch)
  {
    forall k | Apart(k, k + 4, at, at + MIN_INUSE) ensures Kept(m, EdgeStores(m, at), k) {
      StoreKept(m, at, Header(true, MIN_INUSE), k);
      StoreKept(Store(m, at, Header(true, MIN_INUSE)), at + 4, Footer(MIN_INUSE), k);
    }
    OutsideKeepsPayloads(m, EdgeStores(m, at), base, ch, at, at + MIN_INUSE);
  }
}
