/**
 What malloc and free do to the tiling of the arenas by chunks, with the
 contents of memory abstracted away: splitting, two-sided coalescing, and the
 properties the two keep.
 */
module HeapTiling {
  import opened HeapMemory
  import opened Sets

  /** Arenas by start address, each giving its end. */
  type Arenas = map<int, int>

  ghost predicate HasPred(ch: Chunks, a: int) {
    exists p :: p in ch && p + ch[p].size == a
  }

  /** Between the edges, a chunk has a neighbour on both sides, and not both are free. */
  ghost predicate Joined(ch: Chunks, a: int) {
    a in ch && !ch[a].kind.Edge? ==>
      && a + ch[a].size in ch
      && (ch[a].kind.Free? ==> !ch[a + ch[a].size].kind.Free?)
      && HasPred(ch, a)
  }

  ghost predicate Tiling(ch: Chunks) {
    forall a {:trigger Joined(ch, a)} :: Joined(ch, a)
  }

  /** An arena runs from an edge to an edge. */
  ghost predicate ArenaOk(ch: Chunks, arenas: Arenas, s: int) {
    s in arenas ==>
      && s in ch && ch[s] == Chunk(MIN_INUSE, Edge)
      && s + MIN_INUSE in ch && !ch[s + MIN_INUSE].kind.Edge?
      && arenas[s] - MIN_INUSE in ch && ch[arenas[s] - MIN_INUSE] == Chunk(MIN_INUSE, Edge)
      && s + MIN_INUSE < arenas[s] - MIN_INUSE
  }

  /** Chunk a lies in the arena that starts at s; an edge chunk lies at one of its ends. */
  ghost predicate Home(ch: Chunks, arenas: Arenas, a: int, s: int) {
    && a in ch && s in arenas && s <= a && a + ch[a].size <= arenas[s]
    && (ch[a].kind.Edge? ==> a == s || a == arenas[s] - MIN_INUSE)
  }

  ghost predicate Placed(ch: Chunks, arenas: Arenas, a: int) {
    a in ch ==> exists s :: Home(ch, arenas, a, s)
  }

  ghost predicate Bounded(ch: Chunks, arenas: Arenas) {
    && (forall s {:trigger ArenaOk(ch, arenas, s)} :: ArenaOk(ch, arenas, s))
    && (forall a {:trigger Placed(ch, arenas, a)} :: Placed(ch, arenas, a))
    && (forall s, t :: s in arenas && t in arenas && s < t ==> arenas[s] <= t)
  }

  ghost predicate Covers(ch: Chunks, a: int, x: int) {
    a in ch && a <= x < a + ch[a].size
  }

  /** The invariants make each arena exactly tiled: every byte lies in exactly one chunk. */
  lemma ExactlyTiled(base: int, ch: Chunks, arenas: Arenas, s: int, x: int)
    requires Geometry(base, ch) && Tiling(ch) && Bounded(ch, arenas)
    requires s in arenas && s <= x < arenas[s]
    ensures exists a :: Covers(ch, a, x)
    ensures forall a, b :: Covers(ch, a, x) && Covers(ch, b, x) ==> a == b
  {
    assert ArenaOk(ch, arenas, s);
    if x < s + MIN_INUSE {
      assert Covers(ch, s, x);
    } else {
      var a := CoverFrom(base, ch, arenas, s, s + MIN_INUSE, x);
    }
  }

  lemma {:induction false} CoverFrom(base: int, ch: Chunks, arenas: Arenas, s: int, from: int, x: int)
    returns (a: int)
    requires Geometry(base, ch) && Tiling(ch) && Bounded(ch, arenas)
    requires s in arenas && s < from <= x < arenas[s] && from in ch
    ensures Covers(ch, a, x)
    decreases x - from
  {
    if x < from + ch[from].size {
      a := from;
    } else {
      NoInnerEdge(base, ch, arenas, s, from);
      assert Joined(ch, from);
      a := CoverFrom(base, ch, arenas, s, from + ch[from].size, x);
    }
  }

  lemma NoInnerEdge(base: int, ch: Chunks, arenas: Arenas, s: int, a: int)
    requires Geometry(base, ch) && Bounded(ch, arenas)
    requires s in arenas && s < a && a in ch && a + ch[a].size < arenas[s]
    ensures !ch[a].kind.Edge?
  {
    assert ArenaOk(ch, arenas, s) && Placed(ch, arenas, a);
    var t :| Home(ch, arenas, a, t);
  }

  /** malloc's split: the first part goes live, the rest stays free if a free chunk fits in it. */
  function Take(ch: Chunks, c: int, need: int): Chunks
    requires c in ch
  {
    var rest := ch[c].size - need;
    if rest < MIN_FREE then ch[c := Chunk(ch[c].size, Live)]
    else ch[c := Chunk(need, Live)][c + need := Chunk(rest, Free)]
  }

  ghost predicate FreeBefore(ch: Chunks, p: int, a: int) {
    p in ch && ch[p].kind.Free? && p + ch[p].size == a
  }

  ghost predicate FreeAfter(ch: Chunks, a: int) {
    a in ch && a + ch[a].size in ch && ch[a + ch[a].size].kind.Free?
  }

  /** Where the free chunk that replaces live chunk a starts. */
  ghost function MergeStart(ch: Chunks, a: int): int {
    if exists p :: FreeBefore(ch, p, a) then var p :| FreeBefore(ch, p, a); p else a
  }

  ghost function MergeEnd(ch: Chunks, a: int): int
    requires a in ch
  {
    var n := a + ch[a].size;
    if FreeAfter(ch, a) then n + ch[n].size else n
  }

  /** free's effect: the chunk and its free neighbours become one free chunk. */
  ghost function Release(ch: Chunks, a: int): Chunks
    requires a in ch
  {
    Merged(ch, a, MergeStart(ch, a), MergeEnd(ch, a), FreeAfter(ch, a))
  }

  /** Chunk a, the chunk at lo and, if asked for, the one after a, replaced by a free chunk [lo, hi). */
  function Merged(ch: Chunks, a: int, lo: int, hi: int, after: bool): Chunks
    requires a in ch
  {
    var rest := ch - {a, lo} - (if after then {a + ch[a].size} else {});
    rest[lo := Chunk(hi - lo, Free)]
  }

  lemma UniqueBefore(base: int, ch: Chunks, p: int, a: int)
    requires Geometry(base, ch) && a in ch && FreeBefore(ch, p, a)
    ensures MergeStart(ch, a) == p
  {
    var q := MergeStart(ch, a);
    assert FreeBefore(ch, q, a);
  }

  lemma TakeTiling(base: int, ch: Chunks, c: int, need: int)
    requires Geometry(base, ch) && Tiling(ch)
    requires c in ch && ch[c].kind.Free? && MIN_FREE <= need <= ch[c].size
    ensures Tiling(Take(ch, c, need))
  {
    var ch' := Take(ch, c, need);
    assert Joined(ch, c);
    forall a ensures Joined(ch', a) {
      if a in ch' && !ch'[a].kind.Edge? {
        if a == c + need && a !in ch {
          assert c in ch' && c + ch'[c].size == a;
        } else {
          assert Joined(ch, a);
          TakePred(ch, c, need, a);
        }
      }
    }
  }

  lemma TakePred(ch: Chunks, c: int, need: int, a: int)
    requires c in ch && HasPred(ch, a) && 0 < need
    requires ch[c].size - need >= MIN_FREE ==> c + need !in ch
    ensures HasPred(Take(ch, c, need), a)
  {
    var ch' := Take(ch, c, need);
    var p :| p in ch && p + ch[p].size == a;
    if p == c && ch[c].size - need >= MIN_FREE {
      assert c + need in ch' && c + need + ch'[c + need].size == a;
    } else {
      assert p in ch' && p + ch'[p].size == a;
    }
  }

  lemma TakeBounded(base: int, ch: Chunks, arenas: Arenas, c: int, need: int)
    requires Geometry(base, ch) && Bounded(ch, arenas)
    requires c in ch && ch[c].kind.Free? && MIN_FREE <= need <= ch[c].size
    ensures Bounded(Take(ch, c, need), arenas)
  {
    var ch' := Take(ch, c, need);
    assert Placed(ch, arenas, c);
    var s0 :| Home(ch, arenas, c, s0);
    forall a ensures Placed(ch', arenas, a) {
      assert Placed(ch, arenas, a);
      if a in ch && a != c {
        var s :| Home(ch, arenas, a, s);
        assert Home(ch', arenas, a, s);
      } else if a in ch' {
        assert Home(ch', arenas, a, s0);
      }
    }
    forall s ensures ArenaOk(ch', arenas, s) {
      assert ArenaOk(ch, arenas, s);
    }
  }

  ghost predicate Merges(ch: Chunks, a: int, lo: int) {
    && a in ch && ch[a].kind.Live?
    && (lo == a || FreeBefore(ch, lo, a))
    && ((exists p :: FreeBefore(ch, p, a)) ==> lo != a)
  }

  lemma ReleaseMerges(ch: Chunks, a: int)
    requires a in ch && ch[a].kind.Live?
    ensures Merges(ch, a, MergeStart(ch, a))
  {
  }

  lemma ReleaseGeometry(base: int, ch: Chunks, a: int)
    requires Geometry(base, ch) && Tiling(ch) && a in ch && ch[a].kind.Live?
    ensures Geometry(base, Release(ch, a))
  {
    ReleaseMerges(ch, a);
    assert Joined(ch, a);
    hide MergeStart, Tiling, HasPred;
    MergedGeometry(base, ch, a, MergeStart(ch, a), MergeEnd(ch, a), FreeAfter(ch, a));
  }

  /** Joining adjacent chunks overlaps nothing. */
  lemma MergedGeometry(base: int, ch: Chunks, a: int, lo: int, hi: int, after: bool)
    requires Geometry(base, ch) && a in ch && ch[a].kind.Live? && (lo == a || FreeBefore(ch, lo, a))
    requires if after then FreeAfter(ch, a) && hi == a + ch[a].size + ch[a + ch[a].size].size else hi == a + ch[a].size
    ensures Geometry(base, Merged(ch, a, lo, hi, after))
  {
    var ch' := Merged(ch, a, lo, hi, after);
    forall b | b in ch' && b != lo ensures b in ch && ch'[b] == ch[b] && Apart(b, b + ch[b].size, lo, hi) {
      MergedBesides(base, ch, a, lo, hi, after, b);
    }
    BeyondBins(base, ch, a, lo, hi, after);
    assert ch'[lo] == Chunk(hi - lo, Free);
    hide Merged, FreeBefore, FreeAfter;
  }

  lemma MergedBesides(base: int, ch: Chunks, a: int, lo: int, hi: int, after: bool, b: int)
    requires Geometry(base, ch) && a in ch && (lo == a || FreeBefore(ch, lo, a))
    requires if after then FreeAfter(ch, a) && hi == a + ch[a].size + ch[a + ch[a].size].size else hi == a + ch[a].size
    requires b in Merged(ch, a, lo, hi, after) && b != lo
    ensures b in ch && Merged(ch, a, lo, hi, after)[b] == ch[b] && Apart(b, b + ch[b].size, lo, hi)
  {
    var n := a + ch[a].size;
    OrderedChunks(base, ch, b, a);
    OrderedChunks(base, ch, b, lo);
    if after {
      OrderedChunks(base, ch, b, n);
    }
  }

  lemma OrderedChunks(base: int, ch: Chunks, a: int, b: int)
    requires Geometry(base, ch) && a in ch && b in ch && a != b
    ensures a + ch[a].size <= b || b + ch[b].size <= a
    ensures ch[a].size > 0 && ch[b].size > 0
  {
  }

  lemma BeyondBins(base: int, ch: Chunks, a: int, lo: int, hi: int, after: bool)
    requires Geometry(base, ch) && a in ch && ch[a].kind.Live? && (lo == a || FreeBefore(ch, lo, a))
    requires if after then FreeAfter(ch, a) && hi == a + ch[a].size + ch[a + ch[a].size].size else hi == a + ch[a].size
    ensures Apart(lo, hi, base, BinAt(base, BIN_NUMBER)) && hi - lo >= MIN_FREE
  {
  }

  lemma ReleaseTiling(base: int, ch: Chunks, a: int)
    requires Geometry(base, ch) && Tiling(ch) && a in ch && ch[a].kind.Live?
    ensures Tiling(Release(ch, a))
  {
    var ch' := Release(ch, a);
    forall b ensures Joined(ch', b) {
      if b in ch' && !ch'[b].kind.Edge? {
        ReleaseNext(base, ch, a, b);
        ReleasePred(base, ch, a, b);
      }
    }
  }

  lemma ReleaseNext(base: int, ch: Chunks, a: int, b: int)
    requires Geometry(base, ch) && Tiling(ch) && a in ch && ch[a].kind.Live?
    requires b in Release(ch, a) && !Release(ch, a)[b].kind.Edge?
    ensures var ch' := Release(ch, a); var n := b + ch'[b].size;
            n in ch' && (ch'[b].kind.Free? ==> !ch'[n].kind.Free?)
  {
    ReleaseMerges(ch, a);
    assert Joined(ch, a) && Joined(ch, b);
    assert FreeAfter(ch, a) ==> Joined(ch, a + ch[a].size);
    hide Tiling, MergeStart, HasPred;
    var lo, hi := MergeStart(ch, a), MergeEnd(ch, a);
    if b == lo {
      MergedEnd(base, ch, a, lo, hi, FreeAfter(ch, a));
    } else {
      MergedBesides(base, ch, a, lo, hi, FreeAfter(ch, a), b);
      MergedNext(base, ch, a, lo, hi, FreeAfter(ch, a), b);
    }
  }

  lemma SameEnd(base: int, ch: Chunks, p: int, q: int)
    requires Geometry(base, ch) && p in ch && q in ch && p + ch[p].size == q + ch[q].size
    ensures p == q
  {
  }

  /** What follows the joined chunk is there and not free. */
  lemma MergedEnd(base: int, ch: Chunks, a: int, lo: int, hi: int, after: bool)
    requires Geometry(base, ch) && Merges(ch, a, lo) && after == FreeAfter(ch, a) && Joined(ch, a)
    requires after ==> Joined(ch, a + ch[a].size)
    requires if after then hi == a + ch[a].size + ch[a + ch[a].size].size else hi == a + ch[a].size
    ensures var ch' := Merged(ch, a, lo, hi, after); ch'[lo].size == hi - lo && hi in ch' && !ch'[hi].kind.Free?
  {
    hide HasPred;
    assert hi in ch && !ch[hi].kind.Free?;
    if after {
      OrderedChunks(base, ch, a, a + ch[a].size);
    }
    if lo != a {
      OrderedChunks(base, ch, lo, a);
    }
    OrderedChunks(base, ch, a, hi);
  }

  /** What follows another chunk is there, and not free if that one is. */
  lemma MergedNext(base: int, ch: Chunks, a: int, lo: int, hi: int, after: bool, b: int)
    requires Geometry(base, ch) && Merges(ch, a, lo) && after == FreeAfter(ch, a) && Joined(ch, b)
    requires b in ch && b != lo && b in Merged(ch, a, lo, hi, after) && !ch[b].kind.Edge?
    ensures var ch' := Merged(ch, a, lo, hi, after);
            var n := b + ch[b].size; n in ch' && (ch[b].kind.Free? ==> !ch'[n].kind.Free?)
  {
    hide HasPred;
    var n := b + ch[b].size;
    if n == a + ch[a].size {
      SameEnd(base, ch, a, b);
    }
    if lo != a && n == a {
      SameEnd(base, ch, lo, b);
    }
    assert n == a && lo == a && ch[b].kind.Free? ==> FreeBefore(ch, b, a);
  }

  lemma MergedPred(ch: Chunks, a: int, lo: int, hi: int, after: bool, q: int, b: int)
    requires a in ch && lo <= a < a + ch[a].size <= hi
    requires lo != a ==> lo in ch && lo + ch[lo].size == a
    requires if after then a + ch[a].size in ch &&
        hi == a + ch[a].size + ch[a + ch[a].size].size else hi == a + ch[a].size
    requires q in ch && q + ch[q].size == b && b in Merged(ch, a, lo, hi, after)
    ensures HasPred(Merged(ch, a, lo, hi, after), b)
  {
    var ch' := Merged(ch, a, lo, hi, after);
    var n := a + ch[a].size;
    if q == a || (q == n && after) {
      assert lo in ch' && lo + ch'[lo].size == b;
    } else {
      assert q in ch' && q + ch'[q].size == b;
    }
  }

  lemma ReleasePred(base: int, ch: Chunks, a: int, b: int)
    requires Geometry(base, ch) && Tiling(ch) && a in ch && ch[a].kind.Live?
    requires b in Release(ch, a) && !Release(ch, a)[b].kind.Edge?
    ensures HasPred(Release(ch, a), b)
  {
    ReleaseMerges(ch, a);
    assert Joined(ch, a) && Joined(ch, b);
    var q :| q in ch && q + ch[q].size == b;
    hide Tiling, Joined, Merged;
    MergedPred(ch, a, MergeStart(ch, a), MergeEnd(ch, a), FreeAfter(ch, a), q, b);
  }

  lemma ReleaseBounded(base: int, ch: Chunks, arenas: Arenas, a: int)
    requires Geometry(base, ch) && Tiling(ch) && Bounded(ch, arenas) && a in ch && ch[a].kind.Live?
    ensures Bounded(Release(ch, a), arenas)
  {
    var ch' := Release(ch, a);
    var lo := MergeStart(ch, a);
    ReleaseMerges(ch, a);
    assert Joined(ch, a);
    forall b ensures Placed(ch', arenas, b) {
      assert Placed(ch, arenas, b);
      if b == lo {
        ReleasePlaced(base, ch, arenas, a);
      } else if b in ch' {
        var s :| Home(ch, arenas, b, s);
        assert Home(ch', arenas, b, s);
      }
    }
    forall s ensures ArenaOk(ch', arenas, s) {
      assert ArenaOk(ch, arenas, s);
    }
  }

  lemma ReleasePlaced(base: int, ch: Chunks, arenas: Arenas, a: int)
    requires Geometry(base, ch) && Tiling(ch) && Bounded(ch, arenas) && a in ch && ch[a].kind.Live?
    ensures Placed(Release(ch, a), arenas, MergeStart(ch, a))
  {
    var lo := MergeStart(ch, a);
    ReleaseMerges(ch, a);
    assert Joined(ch, a) && Placed(ch, arenas, lo);
    var s :| Home(ch, arenas, lo, s);
    if lo != a { NextInArena(base, ch, arenas, s, lo); }
    if FreeAfter(ch, a) { NextInArena(base, ch, arenas, s, a); }
    assert Home(Release(ch, a), arenas, lo, s);
  }

  lemma NextInArena(base: int, ch: Chunks, arenas: Arenas, s: int, a: int)
    requires Geometry(base, ch) && Bounded(ch, arenas) && a in ch && !ch[a].kind.Edge?
    requires s in arenas && s <= a && a + ch[a].size <= arenas[s] && a + ch[a].size in ch
    ensures var b := a + ch[a].size; b + ch[b].size <= arenas[s]
  {
    assert ArenaOk(ch, arenas, s);
  }

  /** free undoes malloc: the tiling comes back exactly. */
  lemma ReleaseTake(base: int, ch: Chunks, c: int, need: int)
    requires Geometry(base, ch) && Tiling(ch)
    requires c in ch && ch[c].kind.Free? && MIN_FREE <= need <= ch[c].size
    ensures Release(Take(ch, c, need), c) == ch
  {
    var ch' := Take(ch, c, need);
    assert Joined(ch, c);
    forall p ensures !FreeBefore(ch', p, c) {
      assert Joined(ch, p);
    }
    assert MergeStart(ch', c) == c;
  }

  function FreeSize(c: Chunk): int {
    if c.kind.Free? then c.size else 0
  }

  ghost function FreeSum(ch: Chunks, keys: set<int>): int
    requires keys <= ch.Keys
  {
    if keys == {} then 0 else var a := Pick(keys); FreeSize(ch[a]) + FreeSum(ch, keys - {a})
  }

  /** Bytes in free chunks, tags included. */
  ghost function FreeTotal(ch: Chunks): int {
    FreeSum(ch, ch.Keys)
  }

  lemma {:induction false} FreeSumPull(ch: Chunks, keys: set<int>, a: int)
    requires keys <= ch.Keys && a in keys
    ensures FreeSum(ch, keys) == FreeSize(ch[a]) + FreeSum(ch, keys - {a})
    decreases keys
  {
    var b := Pick(keys);
    if b != a {
      FreeSumPull(ch, keys - {b}, a);
      FreeSumPull(ch, keys - {a}, b);
      assert keys - {a} - {b} == keys - {b} - {a};
    }
  }

  lemma {:induction false} FreeSumSame(ch: Chunks, ch': Chunks, keys: set<int>)
    requires keys <= ch.Keys && keys <= ch'.Keys
    requires forall a :: a in keys ==> ch[a] == ch'[a]
    ensures FreeSum(ch, keys) == FreeSum(ch', keys)
    decreases keys
  {
    if keys != {} {
      var a := Pick(keys);
      FreeSumPull(ch, keys, a);
      FreeSumPull(ch', keys, a);
      FreeSumSame(ch, ch', keys - {a});
    }
  }

  lemma DropTotal(ch: Chunks, a: int)
    requires a in ch
    ensures FreeTotal(ch - {a}) == FreeTotal(ch) - FreeSize(ch[a])
  {
    FreeSumPull(ch, ch.Keys, a);
    assert (ch - {a}).Keys == ch.Keys - {a};
    FreeSumSame(ch, ch - {a}, ch.Keys - {a});
  }

  lemma AddTotal(ch: Chunks, a: int, c: Chunk)
    requires a !in ch
    ensures FreeTotal(ch[a := c]) == FreeTotal(ch) + FreeSize(c)
  {
    DropTotal(ch[a := c], a);
    assert ch[a := c] - {a} == ch;
  }

  lemma {:induction false} TotalBounds(ch: Chunks, keys: set<int>, a: int)
    requires keys <= ch.Keys && forall b :: b in ch ==> ch[b].size >= 0
    ensures FreeSum(ch, keys) >= 0
    ensures a in keys ==> FreeSum(ch, keys) >= FreeSize(ch[a])
    decreases keys
  {
    if keys != {} {
      var b := if a in keys then a else Pick(keys);
      FreeSumPull(ch, keys, b);
      TotalBounds(ch, keys - {b}, a);
    }
  }

  lemma TakeTotal(base: int, ch: Chunks, c: int, need: int)
    requires Geometry(base, ch) && c in ch && ch[c].kind.Free? && MIN_FREE <= need <= ch[c].size
    ensures FreeTotal(Take(ch, c, need)) == FreeTotal(ch) - Take(ch, c, need)[c].size
  {
    var rest := ch[c].size - need;
    var hole := ch - {c};
    DropTotal(ch, c);
    if rest < MIN_FREE {
      AddTotal(hole, c, Chunk(ch[c].size, Live));
      assert Take(ch, c, need) == hole[c := Chunk(ch[c].size, Live)];
    } else {
      AddTotal(hole, c, Chunk(need, Live));
      AddTotal(hole[c := Chunk(need, Live)], c + need, Chunk(rest, Free));
      assert Take(ch, c, need) == hole[c := Chunk(need, Live)][c + need := Chunk(rest, Free)];
    }
  }

  lemma ReleaseTotal(base: int, ch: Chunks, a: int)
    requires Geometry(base, ch) && a in ch && ch[a].kind.Live?
    ensures FreeTotal(Release(ch, a)) == FreeTotal(ch) + ch[a].size
  {
    hide FreeTotal, Geometry, MergeStart;
    var lo := MergeStart(ch, a);
    ReleaseMerges(ch, a);
    WithoutTwo(ch, a, lo);
    NextIsThird(base, ch, a, lo);
    MergeTotal(ch - {a, lo}, lo, a + ch[a].size, MergeEnd(ch, a), FreeAfter(ch, a));
  }

  lemma NextIsThird(base: int, ch: Chunks, a: int, lo: int)
    requires Geometry(base, ch) && a in ch && (lo == a || FreeBefore(ch, lo, a))
    ensures a + ch[a].size != a && a + ch[a].size != lo
  {
  }

  /** What the freed chunk and the free chunk before it leave. */
  lemma WithoutTwo(ch: Chunks, a: int, lo: int)
    requires a in ch && ch[a].kind.Live? && (lo == a || FreeBefore(ch, lo, a))
    ensures FreeTotal(ch - {a, lo}) == FreeTotal(ch) + lo - a
  {
    hide FreeTotal;
    DropTotal(ch, a);
    if lo == a {
      assert ch - {a, lo} == ch - {a};
    } else {
      DropTotal(ch - {a}, lo);
      assert ch - {a, lo} == ch - {a} - {lo};
    }
  }

  lemma MergeTotal(ch: Chunks, lo: int, n: int, hi: int, after: bool)
    requires lo !in ch && (after ==> n in ch && ch[n].kind.Free? && hi == n + ch[n].size) && (!after ==> hi == n)
    ensures FreeTotal((ch - (if after then {n} else {}))[lo := Chunk(hi - lo, Free)]) == FreeTotal(ch) + n - lo
  {
    if after {
      DropTotal(ch, n);
      AddTotal(ch - {n}, lo, Chunk(hi - lo, Free));
    } else {
      assert ch - {} == ch;
      AddTotal(ch, lo, Chunk(hi - lo, Free));
    }
  }

  /** add_malloc_buffer's effect: a fresh arena of one free chunk between two edges. */
  function Grow(ch: Chunks, at: int, size: int): Chunks {
    ch[at := Chunk(MIN_INUSE, Edge)][at + size - MIN_INUSE := Chunk(MIN_INUSE, Edge)]
      [at + MIN_INUSE := Chunk(size - 2 * MIN_INUSE, Free)]
  }

  lemma GrowTiling(base: int, ch: Chunks, at: int, size: int)
    requires Geometry(base, ch) && Tiling(ch) && Hole(base, ch, at, at + size) && size >= 2 * MIN_INUSE + MIN_FREE
    ensures Tiling(Grow(ch, at, size))
  {
    var ch' := Grow(ch, at, size);
    forall a ensures Joined(ch', a) {
      assert Joined(ch, a);
      if a == at + MIN_INUSE {
        assert at in ch' && at + ch'[at].size == a;
      } else if a in ch && !ch[a].kind.Edge? {
        var p :| p in ch && p + ch[p].size == a;
        assert p in ch' && p + ch'[p].size == a;
      }
    }
  }

  lemma GrowBounded(base: int, ch: Chunks, arenas: Arenas, at: int, size: int)
    requires Geometry(base, ch) && Bounded(ch, arenas) && Hole(base, ch, at, at + size)
    requires size >= 2 * MIN_INUSE + MIN_FREE
    requires forall s :: s in arenas ==> Apart(s, arenas[s], at, at + size)
    ensures Bounded(Grow(ch, at, size), arenas[at := at + size])
  {
    var ch', arenas' := Grow(ch, at, size), arenas[at := at + size];
    forall s ensures s in arenas ==> s != at && s + MIN_INUSE < arenas[s] {
      assert ArenaOk(ch, arenas, s);
    }
    forall s ensures ArenaOk(ch', arenas', s) {
      assert ArenaOk(ch, arenas, s);
    }
    forall a ensures Placed(ch', arenas', a) {
      assert Placed(ch, arenas, a);
      if a in ch {
        var s :| Home(ch, arenas, a, s);
        assert Home(ch', arenas', a, s);
      } else if a in ch' {
        assert Home(ch', arenas', a, at);
      }
    }
    assert forall s, t :: s in arenas' && t in arenas' && s < t ==> arenas'[s] <= t;
  }

  lemma GrowTotal(base: int, ch: Chunks, at: int, size: int)
    requires Hole(base, ch, at, at + size) && Geometry(base, ch) && size >= 2 * MIN_INUSE + MIN_FREE
    ensures FreeTotal(Grow(ch, at, size)) == FreeTotal(ch) + size - 2 * MIN_INUSE
  {
    var c1 := ch[at := Chunk(MIN_INUSE, Edge)];
    AddTotal(ch, at, Chunk(MIN_INUSE, Edge));
    AddTotal(c1, at + size - MIN_INUSE, Chunk(MIN_INUSE, Edge));
    AddTotal(c1[at + size - MIN_INUSE := Chunk(MIN_INUSE, Edge)], at + MIN_INUSE, Chunk(size - 2 * MIN_INUSE, Free));
  }
}
