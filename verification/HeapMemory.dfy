/**
 Byte-addressed memory as the heap of src/system/malloc/malloc.c sees it, and
 the boundary tags, bin heads and list links stored in it.

 A memory maps the address of each 32-bit word that was stored as a unit to
 its contents.  A store destroys every word it overlaps without covering, so
 proving that a field is still readable proves that nothing was written over
 any of its bytes.
 */
module HeapMemory {

  datatype Word =
    | Header(inuse: bool, size: int)
    | Footer(size: int)
    | Link(to: int)
    | Data(value: int)

  type Memory = map<int, Word>

  function Store(m: Memory, at: int, w: Word): Memory {
    (m - {at - 3, at - 2, at - 1, at + 1, at + 2, at + 3})[at := w]
  }

  ghost predicate Holds(m: Memory, at: int, w: Word) {
    at in m && m[at] == w
  }

  lemma StoreHere(m: Memory, at: int, w: Word)
    ensures Holds(Store(m, at, w), at, w)
  {
  }

  /** A store changes no word it does not overlap. */
  lemma StoreElsewhere(m: Memory, at: int, w: Word, k: int, v: Word)
    requires Holds(m, k, v) && (k + 4 <= at || at + 4 <= k)
    ensures Holds(Store(m, at, w), k, v)
  {
  }

  /** Edge chunks are the two in-use sentinels that bound an arena. */
  datatype Kind = Free | Live | Edge

  datatype Chunk = Chunk(size: int, kind: Kind)

  type Chunks = map<int, Chunk>

  const MIN_FREE := 16
  const MIN_INUSE := 8
  const BIN_NUMBER := 89
  const NODE_BYTES := 12
  const NIL := 0

  /** Address of the i-th bin head; the bins form an array of free headers. */
  function BinAt(base: int, i: int): int {
    base + NODE_BYTES * i
  }

  ghost predicate IsBin(base: int, n: int) {
    exists i :: 0 <= i < BIN_NUMBER && n == BinAt(base, i)
  }

  /** The chunks, and where every list node's links lead. */
  datatype Shape = Shape(ch: Chunks, next: map<int, int>, prev: map<int, int>)

  ghost predicate Apart(lo: int, hi: int, lo': int, hi': int) {
    hi <= lo' || hi' <= lo
  }

  /** Chunks do not overlap each other or the bin heads, and hold their own fields. */
  ghost predicate Geometry(base: int, ch: Chunks) {
    && (forall a :: a in ch ==> ch[a].size >= MIN_FREE || ch[a] == Chunk(MIN_INUSE, Edge))
    && (forall a :: a in ch ==> Apart(a, a + ch[a].size, base, BinAt(base, BIN_NUMBER)))
    && (forall a, b :: a in ch && b in ch && a < b ==> a + ch[a].size <= b)
  }

  ghost predicate IsNode(base: int, ch: Chunks, n: int) {
    (n in ch && ch[n].kind.Free?) || IsBin(base, n)
  }

  /** Exactly the nodes have links. */
  ghost predicate LinksAt(base: int, s: Shape, n: int) {
    (n in s.next <==> IsNode(base, s.ch, n)) && (n in s.prev <==> IsNode(base, s.ch, n))
  }

  ghost predicate NodeKeys(base: int, s: Shape) {
    forall n {:trigger LinksAt(base, s, n)} :: LinksAt(base, s, n)
  }

  ghost predicate Tagged(m: Memory, a: int, c: Chunk) {
    Holds(m, a, Header(!c.kind.Free?, c.size)) && Holds(m, a + c.size - 4, Footer(c.size))
  }

  ghost predicate TagsHold(m: Memory, ch: Chunks, a: int) {
    a in ch ==> Tagged(m, a, ch[a])
  }

  ghost predicate NextHolds(m: Memory, next: map<int, int>, n: int) {
    n in next ==> Holds(m, n + 4, Link(next[n]))
  }

  ghost predicate PrevHolds(m: Memory, prev: map<int, int>, n: int) {
    n in prev ==> Holds(m, n + 8, Link(prev[n]))
  }

  /** Memory holds every chunk's header and footer and every node's links. */
  ghost predicate FieldsOk(m: Memory, base: int, s: Shape) {
    && Geometry(base, s.ch)
    && NodeKeys(base, s)
    && (forall a {:trigger TagsHold(m, s.ch, a)} :: TagsHold(m, s.ch, a))
    && (forall n {:trigger NextHolds(m, s.next, n)} :: NextHolds(m, s.next, n))
    && (forall n {:trigger PrevHolds(m, s.prev, n)} :: PrevHolds(m, s.prev, n))
  }

  /** [lo, hi) belongs to no chunk and no bin head. */
  ghost predicate Hole(base: int, ch: Chunks, lo: int, hi: int) {
    && Apart(lo, hi, base, BinAt(base, BIN_NUMBER))
    && (forall a :: a in ch ==> Apart(a, a + ch[a].size, lo, hi))
  }

  /** The word at k overlaps no list node. */
  ghost predicate Foreign(base: int, ch: Chunks, k: int) {
    forall n :: IsNode(base, ch, n) ==> Apart(k, k + 4, n, n + NODE_BYTES)
  }

  ghost predicate Kept(m: Memory, m': Memory, k: int) {
    k in m ==> k in m' && m'[k] == m[k]
  }

  lemma NodesApart(base: int, ch: Chunks, n: int, n': int)
    requires Geometry(base, ch)
    requires IsNode(base, ch, n) && IsNode(base, ch, n') && n != n'
    ensures Apart(n, n + NODE_BYTES, n', n' + NODE_BYTES)
  {
  }

  lemma NodeInChunk(base: int, ch: Chunks, n: int, a: int)
    requires Geometry(base, ch)
    requires IsNode(base, ch, n) && a in ch
    ensures (n == a && ch[a].size >= MIN_FREE) || Apart(n, n + NODE_BYTES, a, a + ch[a].size)
  {
  }

  lemma TagsElsewhere(m: Memory, at: int, w: Word, a: int, c: Chunk)
    requires Tagged(m, a, c)
    requires at + 4 <= a || (a + 4 <= at && at + 4 <= a + c.size - 4) || a + c.size <= at
    requires c.size >= MIN_INUSE
    ensures Tagged(Store(m, at, w), a, c)
  {
    StoreElsewhere(m, at, w, a, Header(!c.kind.Free?, c.size));
    StoreElsewhere(m, at, w, a + c.size - 4, Footer(c.size));
  }

  lemma LinkMissesTags(m: Memory, base: int, ch: Chunks, n: int, at: int, w: Word, a: int)
    requires Geometry(base, ch) && IsNode(base, ch, n) && TagsHold(m, ch, a)
    requires n + 4 <= at <= n + 8
    ensures TagsHold(Store(m, at, w), ch, a)
  {
    if a in ch {
      NodeInChunk(base, ch, n, a);
      TagsElsewhere(m, at, w, a, ch[a]);
    }
  }

  lemma LinkMissesNode(m: Memory, base: int, ch: Chunks, n: int, at: int, w: Word, k: int, off: int, v: Word)
    requires Geometry(base, ch) && IsNode(base, ch, n) && IsNode(base, ch, k)
    requires n + 4 <= at <= n + 8 && 4 <= off <= 8
    requires n != k || at + 4 <= k + off || k + off + 4 <= at
    requires Holds(m, k + off, v)
    ensures Holds(Store(m, at, w), k + off, v)
  {
    if n != k { NodesApart(base, ch, n, k); }
    StoreElsewhere(m, at, w, k + off, v);
  }

  lemma StoreNext(m: Memory, base: int, s: Shape, n: int, v: int)
    requires FieldsOk(m, base, s) && n in s.next
    ensures FieldsOk(Store(m, n + 4, Link(v)), base, s.(next := s.next[n := v]))
  {
    var m', w := Store(m, n + 4, Link(v)), Link(v);
    var s' := s.(next := s.next[n := v]);
    assert LinksAt(base, s, n);
    forall k ensures LinksAt(base, s', k) { assert LinksAt(base, s, k); }
    forall a ensures TagsHold(m', s.ch, a) {
      assert TagsHold(m, s.ch, a);
      LinkMissesTags(m, base, s.ch, n, n + 4, w, a);
    }
    forall k ensures NextHolds(m', s'.next, k) {
      assert LinksAt(base, s, k) && NextHolds(m, s.next, k);
      if k in s.next && k != n { LinkMissesNode(m, base, s.ch, n, n + 4, w, k, 4, Link(s.next[k])); }
    }
    forall k ensures PrevHolds(m', s.prev, k) {
      assert LinksAt(base, s, k) && PrevHolds(m, s.prev, k);
      if k in s.prev { LinkMissesNode(m, base, s.ch, n, n + 4, w, k, 8, Link(s.prev[k])); }
    }
  }

  lemma StorePrev(m: Memory, base: int, s: Shape, n: int, v: int)
    requires FieldsOk(m, base, s) && n in s.prev
    ensures FieldsOk(Store(m, n + 8, Link(v)), base, s.(prev := s.prev[n := v]))
  {
    var m', w := Store(m, n + 8, Link(v)), Link(v);
    var s' := s.(prev := s.prev[n := v]);
    assert LinksAt(base, s, n);
    forall k ensures LinksAt(base, s', k) { assert LinksAt(base, s, k); }
    forall a ensures TagsHold(m', s.ch, a) {
      assert TagsHold(m, s.ch, a);
      LinkMissesTags(m, base, s.ch, n, n + 8, w, a);
    }
    forall k ensures NextHolds(m', s.next, k) {
      assert LinksAt(base, s, k) && NextHolds(m, s.next, k);
      if k in s.next { LinkMissesNode(m, base, s.ch, n, n + 8, w, k, 4, Link(s.next[k])); }
    }
    forall k ensures PrevHolds(m', s'.prev, k) {
      assert LinksAt(base, s, k) && PrevHolds(m, s.prev, k);
      if k in s.prev && k != n { LinkMissesNode(m, base, s.ch, n, n + 8, w, k, 8, Link(s.prev[k])); }
    }
  }

  /** A store that overlaps no field disturbs no field. */
  lemma StoreApart(m: Memory, base: int, s: Shape, at: int, w: Word)
    requires FieldsOk(m, base, s) && Foreign(base, s.ch, at)
    requires forall a :: a in s.ch ==>
               at + 4 <= a || (a + 4 <= at && at + 4 <= a + s.ch[a].size - 4) || a + s.ch[a].size <= at
    ensures FieldsOk(Store(m, at, w), base, s)
  {
    var m' := Store(m, at, w);
    forall a ensures TagsHold(m', s.ch, a) {
      assert TagsHold(m, s.ch, a);
      if a in s.ch { TagsElsewhere(m, at, w, a, s.ch[a]); }
    }
    forall k ensures NextHolds(m', s.next, k) {
      assert LinksAt(base, s, k) && NextHolds(m, s.next, k);
      if k in s.next { StoreElsewhere(m, at, w, k + 4, Link(s.next[k])); }
    }
    forall k ensures PrevHolds(m', s.prev, k) {
      assert LinksAt(base, s, k) && PrevHolds(m, s.prev, k);
      if k in s.prev { StoreElsewhere(m, at, w, k + 8, Link(s.prev[k])); }
    }
  }

  lemma HoleIsForeign(base: int, ch: Chunks, lo: int, hi: int, at: int)
    requires Geometry(base, ch) && Hole(base, ch, lo, hi) && lo <= at && at + 4 <= hi
    ensures Foreign(base, ch, at)
  {
  }

  /** A store inside a hole disturbs no field. */
  lemma StoreInHole(m: Memory, base: int, s: Shape, lo: int, hi: int, at: int, w: Word)
    requires FieldsOk(m, base, s)
    requires Hole(base, s.ch, lo, hi) && lo <= at && at + 4 <= hi
    ensures FieldsOk(Store(m, at, w), base, s)
  {
    HoleIsForeign(base, s.ch, lo, hi, at);
    StoreApart(m, base, s, at, w);
  }

  lemma PayloadIsForeign(base: int, ch: Chunks, a: int, at: int)
    requires Geometry(base, ch) && a in ch && ch[a].kind.Live?
    requires a <= at && at + 4 <= a + ch[a].size
    ensures Foreign(base, ch, at)
  {
    forall n | IsNode(base, ch, n) ensures Apart(at, at + 4, n, n + NODE_BYTES) {
      NodeInChunk(base, ch, n, a);
    }
  }

  /** A user's store into its own payload disturbs no field of the heap. */
  lemma StoreInPayload(m: Memory, base: int, s: Shape, a: int, at: int, w: Word)
    requires FieldsOk(m, base, s)
    requires a in s.ch && s.ch[a].kind.Live?
    requires a + 4 <= at && at + 4 <= a + s.ch[a].size - 4
    ensures FieldsOk(Store(m, at, w), base, s)
  {
    PayloadIsForeign(base, s.ch, a, at);
    StoreApart(m, base, s, at, w);
  }

  lemma SameFields(m: Memory, base: int, s: Shape, s': Shape)
    requires FieldsOk(m, base, s) && Geometry(base, s'.ch)
    requires forall n :: LinksAt(base, s, n) ==> LinksAt(base, s', n)
    requires forall a :: a in s'.ch ==> Tagged(m, a, s'.ch[a]) || (a in s.ch && s.ch[a] == s'.ch[a])
    requires forall n :: n in s'.next ==> Holds(m, n + 4, Link(s'.next[n])) || (n in s.next && s.next[n] == s'.next[n])
    requires forall n :: n in s'.prev ==> Holds(m, n + 8, Link(s'.prev[n])) || (n in s.prev && s.prev[n] == s'.prev[n])
    ensures FieldsOk(m, base, s')
  {
    forall n ensures LinksAt(base, s', n) { assert LinksAt(base, s, n); }
    forall a ensures TagsHold(m, s'.ch, a) { assert TagsHold(m, s.ch, a); }
    forall n ensures NextHolds(m, s'.next, n) { assert NextHolds(m, s.next, n); }
    forall n ensures PrevHolds(m, s'.prev, n) { assert PrevHolds(m, s.prev, n); }
  }

  /** Forgetting a live chunk leaves its bytes as a hole. */
  lemma ForgetLive(m: Memory, base: int, s: Shape, a: int)
    requires FieldsOk(m, base, s) && a in s.ch && !s.ch[a].kind.Free?
    ensures FieldsOk(m, base, s.(ch := s.ch - {a}))
    ensures Hole(base, s.ch - {a}, a, a + s.ch[a].size)
  {
    SameFields(m, base, s, s.(ch := s.ch - {a}));
  }

  /** A live chunk may be laid over a hole once its tags are in place. */
  lemma AdoptLive(m: Memory, base: int, s: Shape, a: int, c: Chunk)
    requires FieldsOk(m, base, s) && Hole(base, s.ch, a, a + c.size)
    requires !c.kind.Free? && (c.size >= MIN_FREE || c == Chunk(MIN_INUSE, Edge))
    requires Tagged(m, a, c)
    ensures FieldsOk(m, base, s.(ch := s.ch[a := c]))
  {
    assert a !in s.ch;
    SameFields(m, base, s, s.(ch := s.ch[a := c]));
  }

  /** A free chunk may be laid over a hole once its tags and links are in place. */
  lemma AdoptFree(m: Memory, base: int, s: Shape, a: int, size: int, next: int, prev: int)
    requires FieldsOk(m, base, s) && Hole(base, s.ch, a, a + size) && size >= MIN_FREE
    requires Tagged(m, a, Chunk(size, Free)) && Holds(m, a + 4, Link(next)) && Holds(m, a + 8, Link(prev))
    ensures FieldsOk(m, base, Shape(s.ch[a := Chunk(size, Free)], s.next[a := next], s.prev[a := prev]))
  {
    assert a !in s.ch && !IsBin(base, a);
    SameFields(m, base, s, Shape(s.ch[a := Chunk(size, Free)], s.next[a := next], s.prev[a := prev]));
  }

  /** Forgetting a free chunk, links and all, leaves its bytes as a hole. */
  lemma ForgetFree(m: Memory, base: int, s: Shape, a: int)
    requires FieldsOk(m, base, s) && a in s.ch && s.ch[a].kind.Free?
    ensures FieldsOk(m, base, Shape(s.ch - {a}, s.next - {a}, s.prev - {a}))
    ensures Hole(base, s.ch - {a}, a, a + s.ch[a].size)
  {
    assert !IsBin(base, a);
    SameFields(m, base, s, Shape(s.ch - {a}, s.next - {a}, s.prev - {a}));
  }
}
