/**
 Block lookup and growth of ext2 files, src/drivers/ext2/inode.c: index blocks
 are read and written through three one-block caches, one per level.
 */
module BlockIndex {
  import opened Arith
  import opened Sets
  import opened BlockTree

  const LEVELS := 3

  /** The cache of one level is empty or mirrors an index block that belongs to that level. */
  ghost predicate CacheOk(fs: Fs, address: seq<int>, buffer: seq<seq<int>>, l: int) {
    0 <= l < LEVELS && |address| == LEVELS && |buffer| == LEVELS ==>
      && |buffer[l]| == fs.p
      && (address[l] != 0 ==>
            && address[l] in fs.role && !fs.role[address[l]].Data() && fs.role[address[l]].Level() == l
            && address[l] in fs.disk && buffer[l] == fs.disk[address[l]])
  }

  ghost predicate Cached(fs: Fs, address: seq<int>, buffer: seq<seq<int>>) {
    && |address| == LEVELS && |buffer| == LEVELS
    && forall l {:trigger CacheOk(fs, address, buffer, l)} :: CacheOk(fs, address, buffer, l)
  }

  /** countDiskSectors counts every data and index block of the inode. */
  ghost predicate Counted(fs: Fs, perBlock: int) {
    forall n :: n in fs.inodes ==> fs.inodes[n].sectors == |BlocksOf(fs.role, n)| * perBlock
  }

  /** Every block of every file is where it was. */
  ghost predicate SameFiles(fs: Fs, fs': Fs) {
    && fs'.p == fs.p && fs'.inodes.Keys == fs.inodes.Keys
    && Sizes(fs) && Sizes(fs')
    && forall q: Role :: q.Data() && Legal(fs, q) ==> Legal(fs', q) && Resolve(fs', q) == Resolve(fs, q)
  }

  /** Every place of every tree, index blocks included, holds what it held. */
  ghost predicate SamePlaces(fs: Fs, fs': Fs) {
    && fs'.p == fs.p && fs'.inodes.Keys == fs.inodes.Keys
    && Sizes(fs) && Sizes(fs')
    && forall q: Role :: Legal(fs, q) ==> Legal(fs', q) && Resolve(fs', q) == Resolve(fs, q)
  }

  /** Block v is held by a call in progress: neither free nor in use yet. */
  ghost predicate Pending(fs: Fs, v: int) {
    v != 0 && v in fs.disk && v !in fs.role && v !in fs.free && fs.p >= 0 && fs.disk[v] == Zeros(fs.p)
  }

  lemma SameFilesTwice(fs: Fs, fs': Fs, fs'': Fs)
    requires SameFiles(fs, fs') && SameFiles(fs', fs'')
    ensures SameFiles(fs, fs'')
  {
    forall q: Role | q.Data() && Legal(fs, q) ensures Legal(fs'', q) && Resolve(fs'', q) == Resolve(fs, q) {
      assert Resolve(fs', q) == Resolve(fs, q);
    }
  }

  /** The file system after index or data block v went to place r and was counted. */
  ghost function Grown(fs: Fs, r: Role, at: int, v: int, perBlock: int): Fs
    requires Sizes(fs) && Legal(fs, r) && (r.Top() || at in fs.disk)
  {
    var fs' := Attach(fs, r, at, v);
    fs'.(inodes := fs'.inodes[r.ino := fs'.inodes[r.ino].(sectors := fs'.inodes[r.ino].sectors + perBlock)])
  }

  lemma GrownConsistent(fs: Fs, r: Role, at: int, v: int, perBlock: int)
    requires Attachable(fs, r, at, v)
    ensures Consistent(Grown(fs, r, at, v, perBlock))
    ensures forall q :: Legal(fs, q) ==>
              && Legal(Grown(fs, r, at, v, perBlock), q)
              && Resolve(Grown(fs, r, at, v, perBlock), q) == if q == r then v else Resolve(fs, q)
  {
    var fs' := Attach(fs, r, at, v);
    AttachSizes(fs, r, at, v);
    AttachConsistent(fs, r, at, v);
    RecountConsistent(fs', r.ino, fs'.inodes[r.ino].sectors + perBlock);
    forall q: Role | Legal(fs, q)
      ensures Legal(fs', q) && Resolve(fs', q) == if q == r then v else Resolve(fs, q)
    {
      AttachResolve(fs, r, at, v, q);
    }
  }

  lemma GrownCounted(fs: Fs, r: Role, at: int, v: int, perBlock: int)
    requires Attachable(fs, r, at, v) && Counted(fs, perBlock)
    ensures Counted(Grown(fs, r, at, v, perBlock), perBlock)
  {
    var fs' := Grown(fs, r, at, v, perBlock);
    forall n | n in fs'.inodes ensures fs'.inodes[n].sectors == |BlocksOf(fs'.role, n)| * perBlock {
      AttachBlocks(fs.role, v, r, n);
      MulSucc(|BlocksOf(fs.role, n)|, perBlock);
    }
  }

  /** Growing a place leaves the caches good, the written block's own cache apart. */
  lemma GrownCached(fs: Fs, r: Role, at: int, v: int, perBlock: int, address: seq<int>, buffer: seq<seq<int>>)
    requires Attachable(fs, r, at, v) && Cached(fs, address, buffer)
    ensures r.Top() ==> Cached(Grown(fs, r, at, v, perBlock), address, buffer)
    ensures !r.Top() ==>
              var l := r.Parent().Level();
              && 0 <= l < LEVELS && 0 <= r.Slot() < |buffer[l]|
              && (address[l] == at ==>
                    Cached(Grown(fs, r, at, v, perBlock), address, buffer[l := buffer[l][r.Slot() := v]]))
  {
    var fs' := Grown(fs, r, at, v, perBlock);
    forall l ensures CacheOk(fs, address, buffer, l) {}
    if r.Top() {
      forall l ensures CacheOk(fs', address, buffer, l) { assert CacheOk(fs, address, buffer, l); }
    } else {
      var k := r.Parent().Level();
      assert CacheOk(fs, address, buffer, k) && PlaceOk(fs, r.Parent());
      var buffer' := buffer[k := buffer[k][r.Slot() := v]];
      if address[k] == at {
        forall l ensures CacheOk(fs', address, buffer', l) { assert CacheOk(fs, address, buffer, l); }
      }
    }
  }

  lemma CachedBesides(fs: Fs, fs': Fs, address: seq<int>, buffer: seq<seq<int>>)
    requires Cached(fs, address, buffer) && fs'.p == fs.p && fs'.role == fs.role && fs'.disk == fs.disk
    ensures Cached(fs', address, buffer)
  {
    forall l ensures CacheOk(fs', address, buffer, l) { assert CacheOk(fs, address, buffer, l); }
  }

  /** Block r of one file is now at b, and every other block of every file is where it was. */
  ghost predicate OneMore(fs: Fs, fs': Fs, r: Role, b: int) {
    && fs'.p == fs.p && fs'.inodes.Keys == fs.inodes.Keys
    && Sizes(fs) && Sizes(fs')
    && forall q: Role :: q.Data() && Legal(fs, q) ==>
         Legal(fs', q) && Resolve(fs', q) == if q == r then b else Resolve(fs, q)
  }

  /** Place r now holds b, and every other place, index blocks included, what it held. */
  ghost predicate OnePlace(fs: Fs, fs': Fs, r: Role, b: int) {
    && fs'.p == fs.p && fs'.inodes.Keys == fs.inodes.Keys
    && Sizes(fs) && Sizes(fs')
    && forall q: Role :: Legal(fs, q) ==> Legal(fs', q) && Resolve(fs', q) == if q == r then b else Resolve(fs, q)
  }

  lemma OnePlaceFiles(fs: Fs, fs': Fs, r: Role, b: int)
    requires OnePlace(fs, fs', r, b) && !r.Data()
    ensures SameFiles(fs, fs')
  {
  }

  lemma OnePlaceItself(fs: Fs, r: Role)
    requires Sizes(fs) && Legal(fs, r)
    ensures OnePlace(fs, fs, r, Resolve(fs, r))
  {
  }

  lemma SameThenOnePlace(fs: Fs, fs': Fs, fs'': Fs, r: Role, b: int)
    requires SamePlaces(fs, fs') && OnePlace(fs', fs'', r, b)
    ensures OnePlace(fs, fs'', r, b)
  {
  }

  /** Block b is free or has its place. */
  ghost predicate Known(fs: Fs, b: int) {
    b in fs.role || b in fs.free
  }

  /** Every block in use stays where it is. */
  ghost predicate Stays(fs: Fs, fs': Fs, b: int) {
    b in fs.role ==> b in fs'.role && fs'.role[b] == fs.role[b]
  }

  /** n free blocks have come into use, and no block is lost. */
  ghost predicate Spent(fs: Fs, fs': Fs, n: int) {
    && |fs'.free| == |fs.free| - n
    && (forall b {:trigger Known(fs', b)} :: Known(fs', b) <==> Known(fs, b))
    && (forall b {:trigger Stays(fs, fs', b)} :: Stays(fs, fs', b))
  }

  /** The same, and block v with them. */
  ghost predicate Placed(fs: Fs, fs': Fs, n: int, v: int) {
    && |fs'.free| == |fs.free| - n
    && (forall b {:trigger Known(fs', b)} :: Known(fs', b) <==> Known(fs, b) || b == v)
    && (forall b {:trigger Stays(fs, fs', b)} :: Stays(fs, fs', b))
  }

  lemma SpentNone(fs: Fs, fs': Fs)
    requires fs'.free == fs.free && fs'.role == fs.role
    ensures Spent(fs, fs', 0)
  {
  }

  lemma SpentOne(fs: Fs, fs': Fs, b: int, r: Role)
    requires b in fs.free && b !in fs.role && fs'.free == fs.free - {b} && fs'.role == fs.role[b := r]
    ensures Spent(fs, fs', 1)
  {
  }

  lemma SpentPlaced(fs: Fs, fs': Fs, fs'': Fs, n: int, v: int, r: Role)
    requires Spent(fs, fs', n) && fs''.free == fs'.free && fs''.role == fs'.role[v := r] && v !in fs'.role
    ensures Placed(fs, fs'', n, v)
  {
    forall b ensures Known(fs'', b) <==> Known(fs, b) || b == v {
      assert Known(fs', b) <==> Known(fs, b);
    }
    forall b ensures Stays(fs, fs'', b) {
      assert Stays(fs, fs', b);
    }
  }

  lemma SpentLeft(fs: Fs, fs': Fs, n: int)
    requires Spent(fs, fs', n)
    ensures |fs'.free| == |fs.free| - n
  {
  }

  /** 1 if there is no block at a place. */
  ghost function Lacks(fs: Fs, q: Role): (n: nat)
    requires Sizes(fs) && Legal(fs, q)
    ensures n <= 1
  {
    if Resolve(fs, q) == 0 then 1 else 0
  }

  lemma MissingSingle(fs: Fs, ino: int, j: int)
    requires Sizes(fs) && Legal(fs, InSingle(ino, j))
    ensures Missing(fs, InSingle(ino, j)) == Lacks(fs, Single(ino))
  {
    hide Resolve;
  }

  lemma MissingDouble(fs: Fs, ino: int, f: int, j: int)
    requires Sizes(fs) && Legal(fs, InDouble(ino, f, j))
    ensures Missing(fs, InDouble(ino, f, j)) == Lacks(fs, Double(ino)) + Lacks(fs, Middle2(ino, f))
  {
    hide Resolve;
    assert Missing(fs, Middle2(ino, f)) == Lacks(fs, Double(ino));
  }

  /** The index blocks missing on the way to data in the triply indirect tree. */
  ghost function Way3(fs: Fs, ino: int, f: int, s: int): nat
    requires Sizes(fs) && Legal(fs, Leaf3(ino, f, s))
  {
    Lacks(fs, Triple(ino)) + Lacks(fs, Middle3(ino, f)) + Lacks(fs, Leaf3(ino, f, s))
  }

  lemma MissingTriple(fs: Fs, ino: int, f: int, s: int, j: int)
    requires Sizes(fs) && Legal(fs, InTriple(ino, f, s, j))
    ensures Missing(fs, InTriple(ino, f, s, j)) == Way3(fs, ino, f, s)
  {
    hide Resolve;
    assert Missing(fs, Middle3(ino, f)) == Lacks(fs, Triple(ino));
    assert Missing(fs, Leaf3(ino, f, s)) == Lacks(fs, Triple(ino)) + Lacks(fs, Middle3(ino, f));
  }

  /** One step further down: files stand, and the blocks spent add up. */
  lemma Deeper(fs: Fs, fs1: Fs, fs2: Fs, n: int, r: Role, b: int, m: int)
    requires SameFiles(fs, fs1) && Spent(fs, fs1, n) && OnePlace(fs1, fs2, r, b) && !r.Data() && Spent(fs1, fs2, m)
    ensures SameFiles(fs, fs2) && Spent(fs, fs2, n + m) && |fs1.free| == |fs.free| - n && |fs2.free| == |fs1.free| - m
  {
    OnePlaceFiles(fs1, fs2, r, b);
    SameFilesTwice(fs, fs1, fs2);
    SpentTwice(fs, fs1, fs2, n, m);
  }

  /** Nothing spent yet. */
  lemma Above(fs: Fs)
    requires Consistent(fs)
    ensures SameFiles(fs, fs) && Spent(fs, fs, 0)
  {
    SameFilesItself(fs);
    SpentNone(fs, fs);
  }

  lemma SameFilesAt(fs: Fs, fs': Fs, q: Role)
    requires SameFiles(fs, fs') && Sizes(fs) && Legal(fs, q) && q.Data()
    ensures Sizes(fs') && Legal(fs', q) && Resolve(fs', q) == Resolve(fs, q)
  {
  }

  lemma OnePlaceAt(fs: Fs, fs': Fs, r: Role, b: int, q: Role)
    requires OnePlace(fs, fs', r, b) && Sizes(fs) && Legal(fs, q)
    ensures Sizes(fs') && Legal(fs', q) && (q != r ==> Lacks(fs', q) == Lacks(fs, q))
  {
  }

  lemma SpentTwice(fs: Fs, fs': Fs, fs'': Fs, n: int, n': int)
    requires Spent(fs, fs', n) && Spent(fs', fs'', n')
    ensures Spent(fs, fs'', n + n')
  {
    forall b ensures Known(fs'', b) <==> Known(fs, b) {
      assert Known(fs', b) <==> Known(fs, b);
    }
    forall b ensures Stays(fs, fs'', b) {
      assert Stays(fs, fs', b) && Stays(fs', fs'', b);
    }
  }

  lemma GrownFiles(fs: Fs, r: Role, at: int, v: int, perBlock: int)
    requires Attachable(fs, r, at, v)
    ensures !r.Data() ==> SameFiles(fs, Grown(fs, r, at, v, perBlock))
    ensures r.Data() ==> OneMore(fs, Grown(fs, r, at, v, perBlock), r, v)
    ensures OnePlace(fs, Grown(fs, r, at, v, perBlock), r, v)
    ensures Resolve(Grown(fs, r, at, v, perBlock), r) == v
  {
    AttachSizes(fs, r, at, v);
    GrownConsistent(fs, r, at, v, perBlock);
  }

  lemma GrownPending(fs: Fs, r: Role, at: int, v: int, perBlock: int, w: int)
    requires Attachable(fs, r, at, v) && Pending(fs, w) && w != v
    ensures Pending(Grown(fs, r, at, v, perBlock), w)
  {
    if !r.Top() { assert PlaceOk(fs, r.Parent()) && BlockOk(fs, at); }
  }

  lemma GrownZero(fs: Fs, r: Role, at: int, v: int, perBlock: int)
    requires Attachable(fs, r, at, v) && fs.disk[v] == Zeros(fs.p)
    ensures Grown(fs, r, at, v, perBlock).disk[v] == Zeros(fs.p)
  {
    if !r.Top() { assert PlaceOk(fs, r.Parent()) && BlockOk(fs, at); }
  }

  lemma CacheReads(fs: Fs, address: seq<int>, buffer: seq<seq<int>>, level: int)
    requires Cached(fs, address, buffer) && 0 <= level < LEVELS && address[level] != 0
    ensures |address| == LEVELS && |buffer| == LEVELS && address[level] in fs.disk &&
        buffer[level] == fs.disk[address[level]]
    ensures |buffer[level]| == fs.p
  {
    assert CacheOk(fs, address, buffer, level);
  }

  lemma SameFilesItself(fs: Fs)
    requires Consistent(fs)
    ensures SameFiles(fs, fs)
  {
  }

  lemma SizesOf(fs: Fs)
    requires Consistent(fs)
    ensures Sizes(fs)
  {
  }

  lemma TripleOffset(o: int, p: int, i: int)
    requires p > 0 && 0 <= i < MaxBlocks(p) && o == i - DIRECT - p - p * p >= 0
    ensures p * p > 0 && 0 <= o / (p * p) < p && 0 <= o / p % p < p && 0 <= o % p < p
  {
    TripleBounds(o, p);
  }

  lemma PlacesAreFiles(fs: Fs, fs': Fs)
    requires SamePlaces(fs, fs')
    ensures SameFiles(fs, fs')
  {
  }

  lemma SamePlacesAt(fs: Fs, fs': Fs, q: Role)
    requires SamePlaces(fs, fs') && Sizes(fs) && Legal(fs, q)
    ensures Sizes(fs') && Legal(fs', q) && Resolve(fs', q) == Resolve(fs, q)
  {
  }

  lemma SameThenOneMore(fs: Fs, fs': Fs, fs'': Fs, r: Role, b: int)
    requires SameFiles(fs, fs') && OneMore(fs', fs'', r, b)
    ensures OneMore(fs, fs'', r, b)
  {
    forall q: Role | q.Data() && Legal(fs, q)
      ensures Legal(fs'', q) && Resolve(fs'', q) == if q == r then b else Resolve(fs, q)
    {
      assert Resolve(fs', q) == Resolve(fs, q);
    }
  }

  lemma HeldBlock(fs: Fs, r: Role, b: int)
    requires Consistent(fs) && Legal(fs, r) && Resolve(fs, r) == b && b != 0
    ensures b in fs.role && fs.role[b] == r && b in fs.disk
  {
    assert PlaceOk(fs, r) && BlockOk(fs, b);
  }

  /** The loop of clear_block_index, whatever the words were. */
  method ClearWords(words: seq<int>) returns (r: seq<int>)
    ensures r == Zeros(|words|)
  {
    r := words;
    for i := 0 to |words|
      invariant |r| == |words| && forall j :: 0 <= j < i ==> r[j] == 0
    {
      r := r[i := 0];
    }
  }

  function EmptyInode(): (n: Inode)
    ensures |n.direct| == DIRECT
  {
    Inode(Zeros(DIRECT), 0, 0, 0, 0)
  }

  lemma EmptyConsistent(fs: Fs)
    requires Sizes(fs) && fs.role == map[] && (forall n :: n in fs.inodes ==> fs.inodes[n] == EmptyInode())
    requires forall b :: b in fs.free ==> b != 0 && b in fs.disk && fs.disk[b] == Zeros(fs.p)
    ensures Consistent(fs)
  {
    forall r ensures PlaceOk(fs, r) {
      if Legal(fs, r) {
        EmptyResolve(fs, r);
      }
    }
  }

  lemma {:induction false} EmptyResolve(fs: Fs, r: Role)
    requires Sizes(fs) && Legal(fs, r) && forall n :: n in fs.inodes ==> fs.inodes[n] == EmptyInode()
    ensures Resolve(fs, r) == 0
    decreases r.Depth()
  {
    if !r.Top() {
      EmptyResolve(fs, r.Parent());
    }
  }

  lemma EmptyCounted(fs: Fs, perBlock: int)
    requires fs.role == map[] && forall n :: n in fs.inodes ==> fs.inodes[n].sectors == 0
    ensures Counted(fs, perBlock)
  {
    forall n | n in fs.inodes ensures |BlocksOf(fs.role, n)| == 0 {
      assert BlocksOf(fs.role, n) == {};
    }
  }

  class Files {
    const p: int
    const perBlock: int
    var inodes: map<int, Inode>
    var disk: map<int, seq<int>>
    var free: set<int>
    var address: seq<int>
    var buffer: seq<seq<int>>
    ghost var role: map<int, Role>

    ghost function View(): Fs
      reads this
    {
      Fs(p, inodes, disk, role, free)
    }

    ghost predicate Valid()
      reads this
    {
      Consistent(View()) && Cached(View(), address, buffer) && Counted(View(), perBlock)
    }

    /** Empty files on a disk whose blocks are all free and zero, with nothing cached. */
    constructor (p: nat, perBlock: int, numbers: set<int>, blocks: set<int>)
      requires p > 0 && 0 !in blocks
      ensures Valid() && free == blocks && inodes.Keys == numbers && this.p == p
    {
      this.p, this.perBlock := p, perBlock;
      inodes := map n | n in numbers :: EmptyInode();
      disk := map b | b in blocks :: Zeros(p);
      free, role := blocks, map[];
      address, buffer := [0, 0, 0], [Zeros(p), Zeros(p), Zeros(p)];
      new;
      EmptyConsistent(View());
      forall l ensures CacheOk(View(), address, buffer, l) { }
      EmptyCounted(View(), perBlock);
    }

    /** read_block_index: loads an index block into the cache of its level unless it is there already. */
    method ReadIndex(level: int, block: int)
      requires Valid() && block in role && block in disk && !role[block].Data() && role[block].Level() == level
      modifies `address, `buffer
      ensures Valid() && address[level] == block && buffer[level] == disk[block]
    {
      assert BlockOk(View(), block) && CacheOk(View(), address, buffer, level);
      if address[level] != block {
        ghost var address0, buffer0 := address, buffer;
        address := address[level := block];
        buffer := buffer[level := disk[block]];
        forall l ensures CacheOk(View(), address, buffer, l) { assert CacheOk(View(), address0, buffer0, l); }
      }
    }

    /** allocate_block: some free block, or 0 when none is left. */
    method AllocateBlock() returns (b: int)
      requires Valid()
      modifies `free
      ensures Valid() && SamePlaces(old(View()), View())
      ensures b == 0 <==> old(free) == {}
      ensures if b == 0 then free == old(free) else b in old(free) && free == old(free) - {b}
      ensures b != 0 ==> Pending(View(), b)
      ensures forall v :: Pending(old(View()), v) ==> Pending(View(), v) && v != b
    {
      if free == {} {
        return 0;
      }
      b := PickOne(free);
      ghost var fs := View();
      ReserveConsistent(fs, b);
      free := free - {b};
      CachedBesides(fs, View(), address, buffer);
    }

    /** deallocate_block, for a block that was never put to use. */
    method DeallocateBlock(b: int)
      requires Valid() && Pending(View(), b)
      modifies `free
      ensures Valid() && SamePlaces(old(View()), View()) && free == old(free) + {b}
    {
      ghost var fs := View();
      ReturnConsistent(fs, b);
      free := free + {b};
      CachedBesides(fs, View(), address, buffer);
    }

    /** Writes a pointer into the inode itself, and counts the block. */
    method PutTop(r: Role, v: int)
      requires Valid() && r.Top() && Attachable(View(), r, 0, v)
      modifies `inodes, `role
      ensures Valid() && View() == Grown(old(View()), r, 0, v, perBlock)
    {
      ghost var fs := View();
      GrownConsistent(fs, r, 0, v, perBlock);
      GrownCounted(fs, r, 0, v, perBlock);
      GrownCached(fs, r, 0, v, perBlock, address, buffer);
      hide Consistent, Cached, Counted, Attachable;
      inodes := inodes[r.ino := SetTop(inodes[r.ino], r, v)];
      inodes := inodes[r.ino := inodes[r.ino].(sectors := inodes[r.ino].sectors + perBlock)];
      role := role[v := r];
      assert View() == Grown(fs, r, 0, v, perBlock);
    }

    /** Writes a pointer into the index block cached at a level, through to disk, and counts the block. */
    method PutPointer(level: int, slot: int, v: int, ino: int, ghost r: Role)
      requires Valid() && !r.Top() && r.ino == ino && r.Parent().Level() == level && r.Slot() == slot
      requires Attachable(View(), r, address[level], v)
      modifies `inodes, `disk, `buffer, `role
      ensures Valid() && View() == Grown(old(View()), r, address[level], v, perBlock)
      ensures buffer[level] == disk[address[level]]
    {
      ghost var fs := View();
      var at := address[level];
      assert CacheOk(fs, address, buffer, level);
      GrownConsistent(fs, r, at, v, perBlock);
      GrownCounted(fs, r, at, v, perBlock);
      GrownCached(fs, r, at, v, perBlock, address, buffer);
      buffer := buffer[level := buffer[level][slot := v]];
      disk := disk[at := buffer[level]];
      inodes := inodes[ino := inodes[ino].(sectors := inodes[ino].sectors + perBlock)];
      role := role[v := r];
      assert View() == Grown(fs, r, at, v, perBlock);
    }

    /** The root index block of one of the indirect trees, allocated if missing; 0 if it cannot be. */
    method EnsureTop(ino: int, r: Role, ghost held: int) returns (b: int)
      requires Valid() && Legal(View(), r) && r.ino == ino && r.Top() && !r.Data() && Pending(View(), held)
      modifies `inodes, `role, `free
      ensures Valid() && OnePlace(old(View()), View(), r, b) && Pending(View(), held)
      ensures b == 0 <==> Lacks(old(View()), r) == 1 && old(free) == {}
      ensures Spent(old(View()), View(), if b == 0 then 0 else Lacks(old(View()), r))
      ensures b != 0 ==> Resolve(View(), r) == b && b in role && role[b] == r && b in disk
    {
      hide Consistent, Cached, Counted, Spent, OnePlace;
      ghost var fs := View();
      SizesOf(fs);
      OnePlaceItself(fs, r);
      b := TopPointer(inodes[ino], r);
      if b != 0 {
        HeldBlock(fs, r, b);
        SpentNone(fs, fs);
        return;
      }
      b := AllocateBlock();
      ghost var fs1 := View();
      SamePlacesAt(fs, fs1, r);
      SpentNone(fs, fs);
      if b != 0 {
        assert Attachable(fs1, r, 0, b);
        GrownFiles(fs1, r, 0, b, perBlock);
        GrownPending(fs1, r, 0, b, perBlock, held);
        PutTop(r, b);
        SameThenOnePlace(fs, fs1, View(), r, b);
        SpentOne(fs, View(), b, r);
        HeldBlock(View(), r, b);
      }
    }

    /** clear_block_index: zeroes an index block through the cache of its level. */
    method ClearIndex(level: int, block: int)
      requires Valid() && block in role && block in disk && !role[block].Data() && role[block].Level() == level
      requires disk[block] == Zeros(p)
      modifies `address, `buffer, `disk
      ensures Valid() && disk == old(disk)
    {
      ReadIndex(level, block);
      assert CacheOk(View(), address, buffer, level);
      ghost var buffer0 := buffer;
      var zeroed := ClearWords(buffer[level]);
      buffer := buffer[level := zeroed];
      assert buffer == buffer0;
      disk := disk[address[level] := buffer[level]];
      assert disk == old(disk);
    }

    /** The next index block on the way down, allocated, linked and cleared if missing; 0 if it cannot be. */
    method EnsureMiddle(level: int, slot: int, ino: int, r: Role, ghost held: int) returns (b: int)
      requires Valid() && Legal(View(), r) && r.ino == ino && !r.Top() && !r.Data() && Pending(View(), held)
      requires r.Parent().Level() == level && r.Level() == level + 1 && r.Slot() == slot
      requires address[level] != 0 && Resolve(View(), r.Parent()) == address[level]
      modifies `inodes, `role, `free, `disk, `address, `buffer
      ensures Valid() && OnePlace(old(View()), View(), r, b) && Pending(View(), held)
      ensures b == 0 <==> Lacks(old(View()), r) == 1 && old(free) == {}
      ensures Spent(old(View()), View(), if b == 0 then 0 else Lacks(old(View()), r))
      ensures b != 0 ==> Resolve(View(), r) == b && b in role && role[b] == r && b in disk
    {
      hide Consistent, Cached, Counted, Spent, OnePlace;
      ghost var fs := View();
      SizesOf(fs);
      OnePlaceItself(fs, r);
      CacheReads(fs, address, buffer, level);
      HeldBlock(fs, r.Parent(), address[level]);
      b := buffer[level][slot];
      if b != 0 {
        HeldBlock(fs, r, b);
        SpentNone(fs, fs);
        return;
      }
      b := AllocateBlock();
      ghost var fs1 := View();
      SamePlacesAt(fs, fs1, r);
      SpentNone(fs, fs);
      if b != 0 {
        assert Attachable(fs1, r, address[level], b);
        GrownFiles(fs1, r, address[level], b, perBlock);
        GrownPending(fs1, r, address[level], b, perBlock, held);
        GrownZero(fs1, r, address[level], b, perBlock);
        PutPointer(level, slot, b, ino, r);
        SameThenOnePlace(fs, fs1, View(), r, b);
        SpentOne(fs, View(), b, r);
        HeldBlock(View(), r, b);
        ClearIndex(level + 1, b);
      }
    }

    /** block_index_to_block: the block of a file, found through the caches. */
    method BlockIndexToBlock(ino: int, i: int) returns (b: int)
      requires Valid() && ino in inodes && 0 <= i < MaxBlocks(p)
      modifies `address, `buffer
      ensures Valid()
      ensures Legal(View(), Place(p, ino, i)) && b == Resolve(View(), Place(p, ino, i))
      ensures b == BlockAt(View(), ino, i)
    {
      hide Consistent, Cached, Counted;
      ghost var fs := View();
      SizesOf(fs);
      PlaceInRange(p, ino, i);
      PlaceIsBlock(fs, ino, i);
      if i < DIRECT {
        b := inodes[ino].direct[i];
      } else if i - DIRECT < p {
        b := Follow(0, inodes[ino].single, i - DIRECT, InSingle(ino, i - DIRECT));
      } else if i - DIRECT - p < p * p {
        var o := i - DIRECT - p;
        b := Follow(0, inodes[ino].double, o / p, Middle2(ino, o / p));
        b := Follow(1, b, o % p, InDouble(ino, o / p, o % p));
      } else {
        var o := i - DIRECT - p - p * p;
        TripleOffset(o, p, i);
        var f, m, j := o / (p * p), o / p % p, o % p;
        b := Follow(0, inodes[ino].triple, f, Middle3(ino, f));
        b := Follow(1, b, m, Leaf3(ino, f, m));
        b := Follow(2, b, j, InTriple(ino, f, m, j));
      }
    }

    /** One step down: the pointer in a slot of an index block, or 0 if there is no such block. */
    method Follow(level: int, at: int, slot: int, ghost r: Role) returns (b: int)
      requires Valid() && Legal(View(), r) && !r.Top() && r.Parent().Level() == level && r.Slot() == slot
      requires Resolve(View(), r.Parent()) == at
      modifies `address, `buffer
      ensures Valid() && b == Resolve(View(), r)
    {
      hide Consistent, Cached, Counted;
      if at == 0 {
        return 0;
      }
      HeldBlock(View(), r.Parent(), at);
      ReadIndex(level, at);
      CacheReads(View(), address, buffer, level);
      SizesOf(View());
      b := buffer[level][slot];
    }

    /** Puts a data block into a slot of the index block at the given address. */
    method PutData(level: int, at: int, slot: int, v: int, ino: int, ghost r: Role)
      requires Valid() && Legal(View(), r) && r.ino == ino && !r.Top() && r.Data() && Pending(View(), v)
      requires r.Parent().Level() == level && r.Slot() == slot
      requires at != 0 && Resolve(View(), r.Parent()) == at && at in role && role[at] == r.Parent() && at in disk
      requires Resolve(View(), r) == 0
      modifies `inodes, `role, `disk, `address, `buffer
      ensures Valid() && OneMore(old(View()), View(), r, v)
      ensures v !in old(role) && free == old(free) && role == old(role)[v := r]
    {
      hide Consistent, Cached, Counted;
      ReadIndex(level, at);
      CacheReads(View(), address, buffer, level);
      assert Attachable(View(), r, at, v);
      GrownFiles(View(), r, at, v, perBlock);
      PutPointer(level, slot, v, ino, r);
    }

    /** The branches of allocate_data_block: links a held block into the file, with any index blocks it needs. */
    method LinkBlock(ino: int, i: int, v: int) returns (ok: bool)
      requires Valid() && ino in inodes && 0 <= i < MaxBlocks(p) && Pending(View(), v)
      requires Legal(View(), Place(p, ino, i)) && Resolve(View(), Place(p, ino, i)) == 0
      modifies this
      ensures Valid()
      ensures ok <==> |old(free)| >= Missing(old(View()), Place(p, ino, i))
      ensures ok ==> OneMore(old(View()), View(), Place(p, ino, i), v)
      ensures ok ==> Placed(old(View()), View(), Missing(old(View()), Place(p, ino, i)), v)
      ensures !ok ==> SameFiles(old(View()), View()) && Pending(View(), v) && free == {}
      ensures !ok ==> Spent(old(View()), View(), |old(free)|)
    {
      hide Consistent, Cached, Counted;
      ghost var fs := View();
      SizesOf(fs);
      if i < DIRECT {
        assert Attachable(fs, Direct(ino, i), 0, v);
        GrownFiles(fs, Direct(ino, i), 0, v, perBlock);
        PutTop(Direct(ino, i), v);
        ok := true;
      } else if i < DIRECT + p {
        ok := LinkSingle(ino, i - DIRECT, v);
      } else if i < DIRECT + p + p * p {
        var o := i - DIRECT - p;
        ok := LinkDouble(ino, o / p, o % p, v);
      } else {
        var o := i - DIRECT - p - p * p;
        TripleOffset(o, p, i);
        ok := LinkTriple(ino, o / (p * p), o / p % p, o % p, v);
      }
    }

    method LinkSingle(ino: int, j: int, v: int) returns (ok: bool)
      requires Valid() && Pending(View(), v)
      requires Legal(View(), InSingle(ino, j)) && Resolve(View(), InSingle(ino, j)) == 0
      modifies this
      ensures Valid()
      ensures ok <==> |old(free)| >= Missing(old(View()), InSingle(ino, j))
      ensures ok ==> OneMore(old(View()), View(), InSingle(ino, j), v)
      ensures ok ==> Placed(old(View()), View(), Missing(old(View()), InSingle(ino, j)), v)
      ensures !ok ==> SameFiles(old(View()), View()) && Pending(View(), v) && free == {}
      ensures !ok ==> Spent(old(View()), View(), |old(free)|)
    {
      hide Consistent, Cached, Counted, Missing, Spent, Placed, OnePlace, SameFiles, OneMore, Resolve, Lacks, Pending;
      ghost var fs := View();
      SizesOf(fs);
      Above(fs);
      MissingSingle(fs, ino, j);
      var root := EnsureTop(ino, Single(ino), v);
      ghost var fs1 := View();
      Deeper(fs, fs, fs1, 0, Single(ino), root, if root == 0 then 0 else Lacks(fs, Single(ino)));
      if root == 0 {
        return false;
      }
      SameFilesAt(fs, fs1, InSingle(ino, j));
      PutData(0, root, j, v, ino, InSingle(ino, j));
      SameThenOneMore(fs, fs1, View(), InSingle(ino, j), v);
      SpentPlaced(fs, fs1, View(), Missing(fs, InSingle(ino, j)), v, InSingle(ino, j));
      ok := true;
    }

    method LinkDouble(ino: int, f: int, j: int, v: int) returns (ok: bool)
      requires Valid() && Pending(View(), v)
      requires Legal(View(), InDouble(ino, f, j)) && Resolve(View(), InDouble(ino, f, j)) == 0
      modifies this
      ensures Valid()
      ensures ok <==> |old(free)| >= Missing(old(View()), InDouble(ino, f, j))
      ensures ok ==> OneMore(old(View()), View(), InDouble(ino, f, j), v)
      ensures ok ==> Placed(old(View()), View(), Missing(old(View()), InDouble(ino, f, j)), v)
      ensures !ok ==> SameFiles(old(View()), View()) && Pending(View(), v) && free == {}
      ensures !ok ==> Spent(old(View()), View(), |old(free)|)
    {
      hide Consistent, Cached, Counted, Missing, Spent, Placed, OnePlace, SameFiles, OneMore, Resolve, Lacks, Pending;
      ghost var fs := View();
      SizesOf(fs);
      Above(fs);
      MissingDouble(fs, ino, f, j);
      var root := EnsureTop(ino, Double(ino), v);
      ghost var fs1, a := View(), Lacks(fs, Double(ino));
      Deeper(fs, fs, fs1, 0, Double(ino), root, if root == 0 then 0 else a);
      if root == 0 {
        return false;
      }
      OnePlaceAt(fs, fs1, Double(ino), root, Middle2(ino, f));
      ReadIndex(0, root);
      var middle := EnsureMiddle(0, f, ino, Middle2(ino, f), v);
      ghost var fs2 := View();
      Deeper(fs, fs1, fs2, a, Middle2(ino, f), middle, if middle == 0 then 0 else Lacks(fs, Middle2(ino, f)));
      if middle == 0 {
        return false;
      }
      SameFilesAt(fs, fs2, InDouble(ino, f, j));
      PutData(1, middle, j, v, ino, InDouble(ino, f, j));
      SameThenOneMore(fs, fs2, View(), InDouble(ino, f, j), v);
      SpentPlaced(fs, fs2, View(), Missing(fs, InDouble(ino, f, j)), v, InDouble(ino, f, j));
      ok := true;
    }

    /** The index block of the last level of a triply indirect tree, with those above it; 0 if one cannot be had. */
    method ReachLeaf(ino: int, f: int, m: int, ghost held: int) returns (leaf: int)
      requires Valid() && Legal(View(), Leaf3(ino, f, m)) && Pending(View(), held)
      modifies `inodes, `role, `free, `disk, `address, `buffer
      ensures Valid() && SameFiles(old(View()), View()) && Pending(View(), held)
      ensures leaf != 0 <==> |old(free)| >= Way3(old(View()), ino, f, m)
      ensures leaf != 0 ==> Spent(old(View()), View(), Way3(old(View()), ino, f, m))
      ensures leaf != 0 ==> Resolve(View(), Leaf3(ino, f, m)) == leaf && leaf in role && role[leaf] == Leaf3(ino, f, m)
      ensures leaf != 0 ==> leaf in disk
      ensures leaf == 0 ==> free == {} && Spent(old(View()), View(), |old(free)|)
    {
      hide Consistent, Cached, Counted, Missing, Spent, Placed, OnePlace, SameFiles, OneMore, Resolve, Lacks, Pending;
      ghost var fs := View();
      SizesOf(fs);
      Above(fs);
      var root := EnsureTop(ino, Triple(ino), held);
      ghost var fs1, a := View(), Lacks(fs, Triple(ino));
      Deeper(fs, fs, fs1, 0, Triple(ino), root, if root == 0 then 0 else a);
      if root == 0 {
        return 0;
      }
      OnePlaceAt(fs, fs1, Triple(ino), root, Middle3(ino, f));
      OnePlaceAt(fs, fs1, Triple(ino), root, Leaf3(ino, f, m));
      ReadIndex(0, root);
      var middle := EnsureMiddle(0, f, ino, Middle3(ino, f), held);
      ghost var fs2, c := View(), Lacks(fs, Middle3(ino, f));
      Deeper(fs, fs1, fs2, a, Middle3(ino, f), middle, if middle == 0 then 0 else c);
      if middle == 0 {
        return 0;
      }
      OnePlaceAt(fs1, fs2, Middle3(ino, f), middle, Leaf3(ino, f, m));
      ReadIndex(1, middle);
      leaf := EnsureMiddle(1, m, ino, Leaf3(ino, f, m), held);
      Deeper(fs, fs2, View(), a + c, Leaf3(ino, f, m), leaf, if leaf == 0 then 0 else Lacks(fs, Leaf3(ino, f, m)));
    }

    method LinkTriple(ino: int, f: int, m: int, j: int, v: int) returns (ok: bool)
      requires Valid() && Pending(View(), v)
      requires Legal(View(), InTriple(ino, f, m, j)) && Resolve(View(), InTriple(ino, f, m, j)) == 0
      modifies this
      ensures Valid()
      ensures ok <==> |old(free)| >= Missing(old(View()), InTriple(ino, f, m, j))
      ensures ok ==> OneMore(old(View()), View(), InTriple(ino, f, m, j), v)
      ensures ok ==> Placed(old(View()), View(), Missing(old(View()), InTriple(ino, f, m, j)), v)
      ensures !ok ==> SameFiles(old(View()), View()) && Pending(View(), v) && free == {}
      ensures !ok ==> Spent(old(View()), View(), |old(free)|)
    {
      hide Consistent, Cached, Counted, Missing, Spent, Placed, OnePlace, SameFiles, OneMore, Resolve, Lacks, Pending;
      ghost var fs := View();
      SizesOf(fs);
      MissingTriple(fs, ino, f, m, j);
      var leaf := ReachLeaf(ino, f, m, v);
      ghost var fs1 := View();
      if leaf == 0 {
        return false;
      }
      SameFilesAt(fs, fs1, InTriple(ino, f, m, j));
      PutData(2, leaf, j, v, ino, InTriple(ino, f, m, j));
      SameThenOneMore(fs, fs1, View(), InTriple(ino, f, m, j), v);
      SpentPlaced(fs, fs1, View(), Missing(fs, InTriple(ino, f, m, j)), v, InTriple(ino, f, m, j));
      ok := true;
    }

    /**
     allocate_data_block: block i of the file gets a block that was free, every
     other block of every file stays where it was, and the sector count follows;
     or, with no block left for it or for an index block on the way, no block moves.
     */
    method AllocateDataBlock(ino: int, i: int) returns (b: int)
      requires Valid() && ino in inodes && 0 <= i < MaxBlocks(p)
      requires Legal(View(), Place(p, ino, i)) && Resolve(View(), Place(p, ino, i)) == 0
      modifies this
      ensures Valid()
      ensures b != 0 <==> |old(free)| > Missing(old(View()), Place(p, ino, i))
      ensures b != 0 ==> b in old(free) && OneMore(old(View()), View(), Place(p, ino, i), b)
      ensures b != 0 ==> Spent(old(View()), View(), 1 + Missing(old(View()), Place(p, ino, i)))
      ensures b != 0 ==>
        forall n, k :: n in inodes && 0 <= k < MaxBlocks(p) ==>
          BlockAt(View(), n, k) == if n == ino && k == i then b else BlockAt(old(View()), n, k)
      ensures b == 0 ==> SameFiles(old(View()), View()) && |free| <= 1
      ensures b == 0 ==> Spent(old(View()), View(), |old(free)| - |free|)
    {
      hide Consistent, Cached, Counted, Place, Missing, Spent, Placed, SamePlaces, SameFiles, OneMore, Resolve, BlockAt;
      ghost var fs := View();
      SizesOf(fs);
      ghost var place := Place(p, ino, i);
      var v := AllocateBlock();
      ghost var fs1 := View();
      PlacesAreFiles(fs, fs1);
      if v == 0 {
        SpentNone(fs, fs1);
        return 0;
      }
      SameMissing(fs, fs1, place);
      SamePlacesAt(fs, fs1, place);
      var ok := LinkBlock(ino, i, v);
      ghost var fs2 := View();
      if !ok {
        DeallocateBlock(v);
        PlacesAreFiles(fs2, View());
        SameFilesTwice(fs, fs1, fs2);
        SameFilesTwice(fs, fs2, View());
        TakenAndReturned(fs, fs1, fs2, View(), |fs1.free|, v);
        return 0;
      }
      SameThenOneMore(fs, fs1, fs2, place, v);
      TakenAndPlaced(fs, fs1, fs2, Missing(fs, place), v);
      OneMoreBlocks(fs, fs2, ino, i, v);
      b := v;
    }
  }

  lemma {:induction false} SameMissing(fs: Fs, fs': Fs, r: Role)
    requires SamePlaces(fs, fs') && Legal(fs, r)
    ensures Legal(fs', r) && Missing(fs', r) == Missing(fs, r)
    decreases r.Depth()
  {
    hide Resolve;
    if !r.Top() { SameMissing(fs, fs', r.Parent()); }
  }

  /** The data block and n index blocks were free and are in use. */
  lemma TakenAndPlaced(fs: Fs, fs1: Fs, fs2: Fs, n: int, v: int)
    requires v in fs.free && fs1.free == fs.free - {v} && fs1.role == fs.role && Placed(fs1, fs2, n, v)
    ensures Spent(fs, fs2, 1 + n)
  {
    forall b ensures Known(fs2, b) <==> Known(fs, b) {
      assert Known(fs2, b) <==> Known(fs1, b) || b == v;
    }
    forall b ensures Stays(fs, fs2, b) {
      assert Stays(fs1, fs2, b);
    }
  }

  /** The data block was free and is again. */
  lemma TakenAndReturned(fs: Fs, fs1: Fs, fs2: Fs, fs3: Fs, n: int, v: int)
    requires v in fs.free && fs1.free == fs.free - {v} && fs1.role == fs.role && Spent(fs1, fs2, n)
    requires v !in fs2.free && fs3.free == fs2.free + {v} && fs3.role == fs2.role
    ensures Spent(fs, fs3, n)
  {
    forall b ensures Known(fs3, b) <==> Known(fs, b) {
      assert Known(fs2, b) <==> Known(fs1, b);
    }
    forall b ensures Stays(fs, fs3, b) {
      assert Stays(fs1, fs2, b);
    }
  }

  lemma OneMoreBlock(fs: Fs, fs': Fs, ino: int, i: int, b: int, n: int, k: int)
    requires fs.p > 0 && OneMore(fs, fs', Place(fs.p, ino, i), b) && 0 <= i
    requires n in fs.inodes && 0 <= k < MaxBlocks(fs.p)
    ensures BlockAt(fs', n, k) == if n == ino && k == i then b else BlockAt(fs, n, k)
  {
    PlaceIsBlock(fs, n, k);
    PlaceIsBlock(fs', n, k);
    PlaceIndex(fs.p, n, k);
    PlaceIndex(fs.p, ino, i);
    hide BlockAt, Resolve;
    if n == ino && Place(fs.p, n, k) == Place(fs.p, ino, i) { PlaceInjective(fs.p, ino, i, k); }
  }

  lemma OneMoreBlocks(fs: Fs, fs': Fs, ino: int, i: int, b: int)
    requires fs.p > 0 && OneMore(fs, fs', Place(fs.p, ino, i), b) && 0 <= i
    ensures forall n, k :: n in fs.inodes && 0 <= k < MaxBlocks(fs.p) ==>
      BlockAt(fs', n, k) == if n == ino && k == i then b else BlockAt(fs, n, k)
  {
    forall n, k | n in fs.inodes && 0 <= k < MaxBlocks(fs.p)
      ensures BlockAt(fs', n, k) == if n == ino && k == i then b else BlockAt(fs, n, k)
    {
      OneMoreBlock(fs, fs', ino, i, b, n, k);
    }
  }

  /** No block serves two places, of one file or of two. */
  lemma NoSharing(fs: Fs, r: Role, r': Role)
    requires Consistent(fs) && Legal(fs, r) && Legal(fs, r') && Resolve(fs, r) == Resolve(fs, r') != 0
    ensures r == r'
  {
    assert PlaceOk(fs, r) && PlaceOk(fs, r');
  }

  /** So no two indices of a file, in any of the four ranges, share a block. */
  lemma IndicesShareNoBlock(fs: Fs, ino: int, i: int, i': int)
    requires Consistent(fs) && ino in fs.inodes && 0 <= i < MaxBlocks(fs.p) && 0 <= i' < MaxBlocks(fs.p)
    requires Legal(fs, Place(fs.p, ino, i)) && Legal(fs, Place(fs.p, ino, i'))
    requires Resolve(fs, Place(fs.p, ino, i)) == Resolve(fs, Place(fs.p, ino, i')) != 0
    ensures i == i'
  {
    NoSharing(fs, Place(fs.p, ino, i), Place(fs.p, ino, i'));
    hide Consistent;
    PlaceInjective(fs.p, ino, i, i');
  }
}
