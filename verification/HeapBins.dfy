/**
 The segregated bins: which sizes a bin holds, and the rings of free chunks
 that hang off the bin heads.
 */
module HeapBins {
  import opened Sets
  import opened HeapMemory
  import opened HeapRings

  type Lists = seq<seq<int>>

  /** Smallest chunk size kept in bin i: 8 to 512 by eights, then 576, 640, 768 and powers of two to 2 GB. */
  function BinSize(i: int): int {
    if i < 64 then 8 * (i + 1)
    else if i == 64 then 576
    else if i == 65 then 640
    else if i == 66 then 768
    else if i == 67 then 0x400
    else if i == 68 then 0x800
    else if i == 69 then 0x1000
    else if i == 70 then 0x2000
    else if i == 71 then 0x4000
    else if i == 72 then 0x8000
    else if i == 73 then 0x10000
    else if i == 74 then 0x20000
    else if i == 75 then 0x40000
    else if i == 76 then 0x80000
    else if i == 77 then 0x100000
    else if i == 78 then 0x200000
    else if i == 79 then 0x400000
    else if i == 80 then 0x800000
    else if i == 81 then 0x1000000
    else if i == 82 then 0x2000000
    else if i == 83 then 0x4000000
    else if i == 84 then 0x8000000
    else if i == 85 then 0x10000000
    else if i == 86 then 0x20000000
    else if i == 87 then 0x40000000
    else 0x80000000
  }

  const MAX_SIZE := 0x80000000

  ghost predicate InBin(i: int, size: int) {
    0 <= i < BIN_NUMBER && BinSize(i) <= size && (i + 1 < BIN_NUMBER ==> size < BinSize(i + 1))
  }

  lemma {:induction false} BinSizeGrows(i: int, j: int)
    requires 0 <= i <= j < BIN_NUMBER
    ensures BinSize(i) <= BinSize(j)
    ensures i < j ==> BinSize(i + 1) <= BinSize(j)
    decreases j - i
  {
    if i < j { BinSizeGrows(i + 1, j); }
  }

  /** Larger sizes never go to earlier bins. */
  lemma BinOrder(i: int, j: int, size: int, size': int)
    requires InBin(i, size) && InBin(j, size') && size <= size'
    ensures i <= j
  {
    if j < i { BinSizeGrows(j, i); }
  }

  ghost predicate ListOk(ch: Chunks, i: int, list: seq<int>) {
    && (forall j :: 0 <= j < |list| ==> list[j] in ch && ch[list[j]].kind.Free? && InBin(i, ch[list[j]].size))
    && (forall j, k :: 0 <= j < k < |list| && list[j] in ch && list[k] in ch ==> ch[list[j]].size <= ch[list[k]].size)
  }

  ghost predicate Listed(lists: Lists, a: int) {
    exists i :: 0 <= i < |lists| && a in lists[i]
  }

  /** Each bin is sorted by size and the bins hold exactly the free chunks of their size range. */
  ghost predicate BinsOk(ch: Chunks, lists: Lists) {
    && |lists| == BIN_NUMBER
    && (forall i :: 0 <= i < BIN_NUMBER ==> ListOk(ch, i, lists[i]))
    && (forall a :: a in ch && ch[a].kind.Free? ==> Listed(lists, a))
  }

  function Ring(base: int, i: int, list: seq<int>): seq<int> {
    [BinAt(base, i)] + list + [BinAt(base, i)]
  }

  ghost predicate RingsOk(base: int, s: Shape, lists: Lists) {
    && |lists| == BIN_NUMBER
    && (forall i :: 0 <= i < BIN_NUMBER ==> RingOk(s.next, s.prev, Ring(base, i, lists[i])))
  }

  lemma OneBin(ch: Chunks, lists: Lists, a: int, i: int, j: int)
    requires BinsOk(ch, lists) && 0 <= i < BIN_NUMBER && 0 <= j < BIN_NUMBER
    requires a in lists[i] && a in lists[j]
    ensures i == j
  {
    var size := ch[a].size;
    assert InBin(i, size) && InBin(j, size);
    BinOrder(i, j, size, size);
    BinOrder(j, i, size, size);
  }

  /** A node lies on only one ring. */
  lemma OneRing(base: int, ch: Chunks, lists: Lists, x: int, i: int, j: int)
    requires Geometry(base, ch) && BinsOk(ch, lists) && 0 <= i < BIN_NUMBER && 0 <= j < BIN_NUMBER
    requires x in Ring(base, i, lists[i]) && x in Ring(base, j, lists[j])
    ensures i == j
  {
    if x in lists[i] && x in lists[j] {
      OneBin(ch, lists, x, i, j);
    }
  }

  lemma RingNodes(base: int, ch: Chunks, lists: Lists, i: int, x: int)
    requires BinsOk(ch, lists) && 0 <= i < BIN_NUMBER && x in Ring(base, i, lists[i])
    ensures IsNode(base, ch, x)
  {
  }

  /** The position of a free chunk: its bin and its place in the bin's ring. */
  lemma Locate(base: int, ch: Chunks, lists: Lists, a: int) returns (i: int, j: int)
    requires BinsOk(ch, lists) && a in ch && ch[a].kind.Free?
    ensures 0 <= i < BIN_NUMBER && InBin(i, ch[a].size)
    ensures 0 <= j < |lists[i]| && lists[i][j] == a && Ring(base, i, lists[i])[j + 1] == a
  {
    i :| 0 <= i < |lists| && a in lists[i];
    j :| 0 <= j < |lists[i]| && lists[i][j] == a;
  }

  lemma UnlinkList(ch: Chunks, list: seq<int>, i: int, j: int)
    requires ListOk(ch, i, list) && 0 <= j < |list| && Distinct(list)
    ensures ListOk(ch - {list[j]}, i, Removed(list, j))
  {
    var l' := Removed(list, j);
    forall k | 0 <= k < |l'| ensures l'[k] == list[if k < j then k else k + 1] && l'[k] != list[j] {
    }
  }

  lemma UnlinkBins(ch: Chunks, lists: Lists, i: int, j: int)
    requires BinsOk(ch, lists) && 0 <= i < BIN_NUMBER && 0 <= j < |lists[i]|
    requires Distinct(lists[i])
    ensures BinsOk(ch - {lists[i][j]}, lists[i := Removed(lists[i], j)])
  {
    var x := lists[i][j];
    var ch' := ch - {x};
    var lists' := lists[i := Removed(lists[i], j)];
    UnlinkList(ch, lists[i], i, j);
    forall k | 0 <= k < BIN_NUMBER ensures ListOk(ch', k, lists'[k]) {
      if k != i { UnlinkOthers(ch, lists, i, x, k); }
    }
    forall a | a in ch' && ch'[a].kind.Free? ensures Listed(lists', a) {
      StillListed(lists, i, j, a);
    }
  }

  lemma UnlinkOthers(ch: Chunks, lists: Lists, i: int, x: int, k: int)
    requires BinsOk(ch, lists) && 0 <= i < BIN_NUMBER && x in lists[i] && 0 <= k < BIN_NUMBER && k != i
    ensures ListOk(ch - {x}, k, lists[k])
  {
    assert ListOk(ch, k, lists[k]);
    if x in lists[k] { OneBin(ch, lists, x, i, k); }
  }

  lemma StillListed(lists: Lists, i: int, j: int, a: int)
    requires Listed(lists, a) && 0 <= i < |lists| && 0 <= j < |lists[i]| && a != lists[i][j]
    ensures Listed(lists[i := Removed(lists[i], j)], a)
  {
    var lists' := lists[i := Removed(lists[i], j)];
    var k :| 0 <= k < |lists| && a in lists[k];
    if k == i {
      var p :| 0 <= p < |lists[i]| && lists[i][p] == a;
      assert lists'[i][if p < j then p else p - 1] == a;
    }
    assert a in lists'[k];
  }

  lemma LinkBins(ch: Chunks, lists: Lists, i: int, j: int, h: int, size: int)
    requires BinsOk(ch, lists) && h !in ch && InBin(i, size) && 0 <= j <= |lists[i]|
    requires forall k :: 0 <= k < j ==> lists[i][k] in ch && ch[lists[i][k]].size <= size
    requires j < |lists[i]| ==> lists[i][j] in ch && size < ch[lists[i][j]].size
    ensures BinsOk(ch[h := Chunk(size, Free)], lists[i := Inserted(lists[i], j, h)])
  {
    var ch' := ch[h := Chunk(size, Free)];
    var lists' := lists[i := Inserted(lists[i], j, h)];
    hide InBin, ListOk;
    assert ListOk(ch, i, lists[i]);
    LinkList(ch, lists[i], i, j, h, size);
    forall k | 0 <= k < BIN_NUMBER ensures ListOk(ch', k, lists'[k]) {
      assert ListOk(ch, k, lists[k]);
      OtherList(ch, lists[k], k, h, size);
    }
    forall a | a in ch' && ch'[a].kind.Free? ensures Listed(lists', a) {
      if a == h {
        assert lists'[i][j] == h;
      } else {
        var k :| 0 <= k < |lists| && a in lists[k];
        if k == i {
          var p :| 0 <= p < |lists[i]| && lists[i][p] == a;
          assert lists'[i][if p < j then p else p + 1] == a;
        }
        assert a in lists'[k];
      }
    }
  }

  lemma OtherList(ch: Chunks, list: seq<int>, i: int, h: int, size: int)
    requires ListOk(ch, i, list) && h !in ch
    ensures ListOk(ch[h := Chunk(size, Free)], i, list)
  {
  }

  lemma LinkList(ch: Chunks, list: seq<int>, i: int, j: int, h: int, size: int)
    requires ListOk(ch, i, list) && h !in ch && InBin(i, size) && 0 <= j <= |list|
    requires forall k :: 0 <= k < j ==> list[k] in ch && ch[list[k]].size <= size
    requires j < |list| ==> list[j] in ch && size < ch[list[j]].size
    ensures ListOk(ch[h := Chunk(size, Free)], i, Inserted(list, j, h))
  {
    var ch' := ch[h := Chunk(size, Free)];
    var l' := Inserted(list, j, h);
    forall k | 0 <= k < |l'| ensures l'[k] in ch' && ch'[l'[k]].kind.Free? && InBin(i, ch'[l'[k]].size) {
      if k != j { assert l'[k] == list[if k < j then k else k - 1]; }
    }
    forall k, m | 0 <= k < m < |l'| ensures ch'[l'[k]].size <= ch'[l'[m]].size {
      assert k < j ==> l'[k] == list[k];
      assert k > j ==> l'[k] == list[k - 1];
      assert m < j ==> l'[m] == list[m];
      assert m > j ==> l'[m] == list[m - 1];
    }
  }

  lemma RingElement(base: int, i: int, list: seq<int>, j: int)
    requires 0 <= j < |list|
    ensures Ring(base, i, list)[j + 1] == list[j]
    ensures Ring(base, i, Removed(list, j)) == Removed(Ring(base, i, list), j + 1)
  {
  }

  lemma RingDistinct(next: map<int, int>, prev: map<int, int>, base: int, i: int, list: seq<int>)
    requires RingOk(next, prev, Ring(base, i, list))
    ensures Distinct(list)
  {
    var r := Ring(base, i, list);
    forall j, k | 0 <= j < k < |list| ensures list[j] != list[k] {
      assert r[1..][j] == list[j] && r[1..][k] == list[k];
    }
  }

  /** The shape once the node x has been spliced out of its ring. */
  function Unlinked(s: Shape, x: int): Shape
    requires x in s.next && x in s.prev
  {
    Shape(s.ch - {x}, s.next[s.prev[x] := s.next[x]] - {x}, s.prev[s.next[x] := s.prev[x]] - {x})
  }

  /** The shape once free chunk h has been spliced in between p and n. */
  function Spliced(s: Shape, h: int, size: int, p: int, n: int): Shape {
    Shape(s.ch[h := Chunk(size, Free)], s.next[h := n][p := h], s.prev[h := p][n := h])
  }

  lemma UnlinkRing(s: Shape, r: seq<int>, j: int)
    requires RingOk(s.next, s.prev, r) && 1 <= j < |r| - 1
    ensures r[j] in s.next && r[j] in s.prev
    ensures s.next[r[j]] == r[j + 1] && s.prev[r[j]] == r[j - 1]
    ensures r[j - 1] != r[j] && r[j + 1] != r[j]
    ensures RingOk(Unlinked(s, r[j]).next, Unlinked(s, r[j]).prev, Removed(r, j))
  {
    RingRemove(s.next, s.prev, r, j);
    assert Removed(r, j)[j - 1] == r[j - 1] && Removed(r, j)[j] == r[j + 1];
    RingFrame(s.next[r[j - 1] := r[j + 1]], s.prev[r[j + 1] := r[j - 1]],
              Unlinked(s, r[j]).next, Unlinked(s, r[j]).prev, Removed(r, j));
  }

  lemma KeptLinks(base: int, s: Shape, s': Shape, lists: Lists, i: int, k: int, z: int)
    requires Geometry(base, s.ch) && BinsOk(s.ch, lists)
    requires 0 <= i < BIN_NUMBER && 0 <= k < BIN_NUMBER && i != k && z in Ring(base, k, lists[k])
    requires forall z :: z in s.next && z !in Ring(base, i, lists[i]) && z in Ring(base, k, lists[k])
               ==> z in s'.next && s'.next[z] == s.next[z]
    requires forall z :: z in s.prev && z !in Ring(base, i, lists[i]) && z in Ring(base, k, lists[k])
               ==> z in s'.prev && s'.prev[z] == s.prev[z]
    ensures z in s.next ==> z in s'.next && s'.next[z] == s.next[z]
    ensures z in s.prev ==> z in s'.prev && s'.prev[z] == s.prev[z]
  {
    hide Ring, Geometry, ListOk;
    if z in Ring(base, i, lists[i]) { OneRing(base, s.ch, lists, z, i, k); }
  }

  /** Relinking nodes of ring i, or nodes of no ring, leaves ring k alone. */
  lemma OtherRing(base: int, s: Shape, s': Shape, lists: Lists, i: int, k: int)
    requires Geometry(base, s.ch) && BinsOk(s.ch, lists) && RingsOk(base, s, lists)
    requires 0 <= i < BIN_NUMBER && 0 <= k < BIN_NUMBER && i != k
    requires forall z :: z in s.next && z !in Ring(base, i, lists[i]) && z in Ring(base, k, lists[k])
               ==> z in s'.next && s'.next[z] == s.next[z]
    requires forall z :: z in s.prev && z !in Ring(base, i, lists[i]) && z in Ring(base, k, lists[k])
               ==> z in s'.prev && s'.prev[z] == s.prev[z]
    ensures RingOk(s'.next, s'.prev, Ring(base, k, lists[k]))
  {
    var q := Ring(base, k, lists[k]);
    assert RingOk(s.next, s.prev, q);
    hide Ring, RingOk, RingsOk, BinsOk, Geometry;
    forall j | 0 <= j < |q|
      ensures q[j] in s.next ==> q[j] in s'.next && s'.next[q[j]] == s.next[q[j]]
      ensures q[j] in s.prev ==> q[j] in s'.prev && s'.prev[q[j]] == s.prev[q[j]]
    {
      assert q[j] in Ring(base, k, lists[k]);
      KeptLinks(base, s, s', lists, i, k, q[j]);
    }
    RingFrame(s.next, s.prev, s'.next, s'.prev, q);
  }

  lemma UnlinkRings(base: int, s: Shape, lists: Lists, i: int, j: int)
    requires Geometry(base, s.ch) && BinsOk(s.ch, lists) && RingsOk(base, s, lists)
    requires 0 <= i < BIN_NUMBER && 0 <= j < |lists[i]|
    ensures lists[i][j] in s.next && lists[i][j] in s.prev
    ensures RingsOk(base, Unlinked(s, lists[i][j]), lists[i := Removed(lists[i], j)])
  {
    var x := lists[i][j];
    var r := Ring(base, i, lists[i]);
    RingElement(base, i, lists[i], j);
    UnlinkRing(s, r, j + 1);
    var s' := Unlinked(s, x);
    forall k | 0 <= k < BIN_NUMBER && k != i ensures RingOk(s'.next, s'.prev, Ring(base, k, lists[k])) {
      OtherRing(base, s, s', lists, i, k);
    }
  }

  lemma SpliceRing(base: int, s: Shape, i: int, list: seq<int>, j: int, h: int, size: int)
    requires RingOk(s.next, s.prev, Ring(base, i, list)) && h !in Ring(base, i, list) && 0 <= j <= |list|
    ensures var r := Ring(base, i, list); var s' := Spliced(s, h, size, r[j], r[j + 1]);
            r[j] in r && r[j + 1] in r && RingOk(s'.next, s'.prev, Ring(base, i, Inserted(list, j, h)))
  {
    var r := Ring(base, i, list);
    RingInsert(s.next, s.prev, r, j + 1, h);
    assert Ring(base, i, Inserted(list, j, h)) == Inserted(r, j + 1, h);
  }

  lemma SpliceRings(base: int, s: Shape, lists: Lists, i: int, j: int, h: int, size: int)
    requires Geometry(base, s.ch) && BinsOk(s.ch, lists) && RingsOk(base, s, lists)
    requires 0 <= i < BIN_NUMBER && 0 <= j <= |lists[i]| && !IsNode(base, s.ch, h)
    ensures var r := Ring(base, i, lists[i]);
            RingsOk(base, Spliced(s, h, size, r[j], r[j + 1]), lists[i := Inserted(lists[i], j, h)])
  {
    var r := Ring(base, i, lists[i]);
    var s' := Spliced(s, h, size, r[j], r[j + 1]);
    NotOnRing(base, s.ch, lists, i, h);
    SpliceRing(base, s, i, lists[i], j, h, size);
    forall k | 0 <= k < BIN_NUMBER && k != i ensures RingOk(s'.next, s'.prev, Ring(base, k, lists[k])) {
      NotOnRing(base, s.ch, lists, k, h);
      OtherRing(base, s, s', lists, i, k);
    }
  }

  lemma NotOnRing(base: int, ch: Chunks, lists: Lists, i: int, h: int)
    requires BinsOk(ch, lists) && 0 <= i < BIN_NUMBER && !IsNode(base, ch, h)
    ensures h !in Ring(base, i, lists[i])
  {
    if h in Ring(base, i, lists[i]) { RingNodes(base, ch, lists, i, h); }
  }
}
