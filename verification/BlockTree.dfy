/**
 The block tree of an ext2 inode, as section "Inode Table" of "The Second
 Extended File System" lays it out: twelve direct pointers and one singly, one
 doubly and one triply indirect tree of index blocks.

 A role names a place in the tree.  The role map says which place every block
 in use occupies, so two places can never share a block.
 */
module BlockTree {
  import opened Arith

  const DIRECT := 12

  datatype Inode = Inode(direct: seq<int>, single: int, double: int, triple: int, sectors: int)

  datatype Role =
    | Direct(ino: int, i: int)
    | Single(ino: int)
    | InSingle(ino: int, j: int)
    | Double(ino: int)
    | Middle2(ino: int, f: int)
    | InDouble(ino: int, f: int, j: int)
    | Triple(ino: int)
    | Middle3(ino: int, f: int)
    | Leaf3(ino: int, f: int, s: int)
    | InTriple(ino: int, f: int, s: int, j: int)
  {
    predicate Top() {
      Direct? || Single? || Double? || Triple?
    }

    predicate Data() {
      Direct? || InSingle? || InDouble? || InTriple?
    }

    /** The index cache level the block at this place is read through. */
    function Level(): int {
      if Middle2? || Middle3? then 1 else if Leaf3? then 2 else 0
    }

    function Parent(): Role
      requires !Top()
    {
      match this
      case InSingle(ino, _) => Single(ino)
      case Middle2(ino, _) => Double(ino)
      case InDouble(ino, f, _) => Middle2(ino, f)
      case Middle3(ino, _) => Triple(ino)
      case Leaf3(ino, f, _) => Middle3(ino, f)
      case InTriple(ino, f, s, _) => Leaf3(ino, f, s)
    }

    function Slot(): int
      requires !Top()
    {
      match this
      case InSingle(_, j) => j
      case Middle2(_, f) => f
      case InDouble(_, _, j) => j
      case Middle3(_, f) => f
      case Leaf3(_, _, s) => s
      case InTriple(_, _, _, j) => j
    }

    function Depth(): nat {
      if Top() then 0
      else if InSingle? || Middle2? || Middle3? then 1
      else if InDouble? || Leaf3? then 2
      else 3
    }

    /** Every index on the way to this place is within its block. */
    predicate InRange(p: int) {
      match this
      case Direct(_, i) => 0 <= i < DIRECT
      case Single(_) => true
      case InSingle(_, j) => 0 <= j < p
      case Double(_) => true
      case Middle2(_, f) => 0 <= f < p
      case InDouble(_, f, j) => 0 <= f < p && 0 <= j < p
      case Triple(_) => true
      case Middle3(_, f) => 0 <= f < p
      case Leaf3(_, f, s) => 0 <= f < p && 0 <= s < p
      case InTriple(_, f, s, j) => 0 <= f < p && 0 <= s < p && 0 <= j < p
    }
  }

  /** p pointers per block; disk holds the pointers of every block. */
  datatype Fs = Fs(p: int, inodes: map<int, Inode>, disk: map<int, seq<int>>, role: map<int, Role>, free: set<int>)

  ghost predicate Legal(fs: Fs, r: Role) {
    r.ino in fs.inodes && r.InRange(fs.p)
  }

  function TopPointer(n: Inode, r: Role): int
    requires r.Top() && (r.Direct? ==> 0 <= r.i < |n.direct|)
  {
    match r
    case Direct(_, i) => n.direct[i]
    case Single(_) => n.single
    case Double(_) => n.double
    case Triple(_) => n.triple
  }

  ghost predicate Sizes(fs: Fs) {
    && fs.p > 0
    && (forall n :: n in fs.inodes ==> |fs.inodes[n].direct| == DIRECT)
    && (forall b :: b in fs.disk ==> |fs.disk[b]| == fs.p)
  }

  /** The block at a place, found by following pointers from the inode; 0 if there is none. */
  ghost function Resolve(fs: Fs, r: Role): int
    requires Sizes(fs) && Legal(fs, r)
    decreases r.Depth()
  {
    if r.Top() then TopPointer(fs.inodes[r.ino], r)
    else
      var b := Resolve(fs, r.Parent());
      if b == 0 || b !in fs.disk then 0 else fs.disk[b][r.Slot()]
  }

  function Zeros(p: nat): (z: seq<int>)
    ensures |z| == p && forall j :: 0 <= j < p ==> z[j] == 0
  {
    seq(p, _ => 0)
  }

  /** A place resolves to nothing or to the block that has its role. */
  ghost predicate PlaceOk(fs: Fs, r: Role)
    requires Sizes(fs)
  {
    Legal(fs, r) ==>
      var b := Resolve(fs, r);
      b != 0 ==> b in fs.role && fs.role[b] == r
  }

  /** A block in use sits at the place of its role. */
  ghost predicate BlockOk(fs: Fs, b: int)
    requires Sizes(fs)
  {
    b in fs.role ==>
      b != 0 && b in fs.disk && b !in fs.free && Legal(fs, fs.role[b]) && Resolve(fs, fs.role[b]) == b
  }

  ghost predicate FreeOk(fs: Fs, b: int)
    requires Sizes(fs)
  {
    b in fs.free ==> b != 0 && b in fs.disk && fs.disk[b] == Zeros(fs.p)
  }

  ghost predicate Consistent(fs: Fs) {
    && Sizes(fs)
    && (forall r {:trigger PlaceOk(fs, r)} :: PlaceOk(fs, r))
    && (forall b {:trigger BlockOk(fs, b)} :: BlockOk(fs, b))
    && (forall b {:trigger FreeOk(fs, b)} :: FreeOk(fs, b))
  }

  function SetTop(n: Inode, r: Role, v: int): Inode
    requires r.Top() && (r.Direct? ==> 0 <= r.i < |n.direct|)
  {
    match r
    case Direct(_, i) => n.(direct := n.direct[i := v])
    case Single(_) => n.(single := v)
    case Double(_) => n.(double := v)
    case Triple(_) => n.(triple := v)
  }

  /** The file system once block v has been put at place r, whose parent block is at. */
  ghost function Attach(fs: Fs, r: Role, at: int, v: int): Fs
    requires Sizes(fs) && Legal(fs, r) && (r.Top() || at in fs.disk)
  {
    if r.Top() then
      fs.(inodes := fs.inodes[r.ino := SetTop(fs.inodes[r.ino], r, v)], role := fs.role[v := r])
    else
      fs.(disk := fs.disk[at := fs.disk[at][r.Slot() := v]], role := fs.role[v := r])
  }

  /** What Attach needs: an unused, zeroed block and a place that is empty and reachable. */
  ghost predicate Attachable(fs: Fs, r: Role, at: int, v: int) {
    && Consistent(fs) && Legal(fs, r) && Resolve(fs, r) == 0
    && (!r.Top() ==> at != 0 && Resolve(fs, r.Parent()) == at && at in fs.disk)
    && v != 0 && v in fs.disk && v !in fs.role && v !in fs.free
    && (r.Data() || fs.disk[v] == Zeros(fs.p))
  }

  lemma AttachSizes(fs: Fs, r: Role, at: int, v: int)
    requires Attachable(fs, r, at, v)
    ensures Sizes(Attach(fs, r, at, v))
  {
  }

  /** Attaching a block changes what one place resolves to, and no other. */
  lemma {:induction false} AttachResolve(fs: Fs, r: Role, at: int, v: int, q: Role)
    requires Attachable(fs, r, at, v) && Legal(fs, q)
    requires Sizes(Attach(fs, r, at, v)) && Legal(Attach(fs, r, at, v), q)
    ensures Resolve(Attach(fs, r, at, v), q) == if q == r then v else Resolve(fs, q)
    decreases q.Depth()
  {
    var fs' := Attach(fs, r, at, v);
    if !q.Top() {
      AttachResolve(fs, r, at, v, q.Parent());
      var b := Resolve(fs, q.Parent());
      assert PlaceOk(fs, q.Parent());
      if !r.Top() {
        assert PlaceOk(fs, r.Parent());
        if b == at {
          assert q.Parent() == r.Parent();
        }
      }
    }
  }

  lemma AttachConsistent(fs: Fs, r: Role, at: int, v: int)
    requires Attachable(fs, r, at, v)
    ensures Consistent(Attach(fs, r, at, v))
  {
    var fs' := Attach(fs, r, at, v);
    AttachSizes(fs, r, at, v);
    forall q ensures PlaceOk(fs', q) {
      if Legal(fs', q) {
        AttachResolve(fs, r, at, v, q);
        assert PlaceOk(fs, q);
      }
    }
    forall b ensures BlockOk(fs', b) {
      assert BlockOk(fs, b);
      if b in fs'.role {
        AttachResolve(fs, r, at, v, fs'.role[b]);
      }
    }
    forall b ensures FreeOk(fs', b) {
      assert FreeOk(fs, b);
      if !r.Top() {
        assert PlaceOk(fs, r.Parent()) && BlockOk(fs, at);
      }
    }
  }

  /** Taking a block out of the free set keeps everything in place. */
  lemma ReserveConsistent(fs: Fs, v: int)
    requires Consistent(fs) && v in fs.free
    ensures Consistent(fs.(free := fs.free - {v}))
    ensures forall r :: Legal(fs, r) ==> Resolve(fs.(free := fs.free - {v}), r) == Resolve(fs, r)
    ensures v != 0 && v in fs.disk && v !in fs.role && fs.disk[v] == Zeros(fs.p)
  {
    var fs' := fs.(free := fs.free - {v});
    assert FreeOk(fs, v) && BlockOk(fs, v);
    forall r: Role | Sizes(fs) && Legal(fs, r) ensures Resolve(fs', r) == Resolve(fs, r) { SameResolve(fs, fs', r); }
    forall r ensures PlaceOk(fs', r) { assert PlaceOk(fs, r); }
    forall b ensures BlockOk(fs', b) { assert BlockOk(fs, b); }
    forall b ensures FreeOk(fs', b) { assert FreeOk(fs, b); }
  }

  lemma ReturnConsistent(fs: Fs, v: int)
    requires Consistent(fs) && v != 0 && v in fs.disk && v !in fs.role && fs.disk[v] == Zeros(fs.p)
    ensures Consistent(fs.(free := fs.free + {v}))
    ensures forall r :: Legal(fs, r) ==> Resolve(fs.(free := fs.free + {v}), r) == Resolve(fs, r)
  {
    var fs' := fs.(free := fs.free + {v});
    forall r: Role | Sizes(fs) && Legal(fs, r) ensures Resolve(fs', r) == Resolve(fs, r) { SameResolve(fs, fs', r); }
    forall r ensures PlaceOk(fs', r) { assert PlaceOk(fs, r); }
    forall b ensures BlockOk(fs', b) { assert BlockOk(fs, b); }
    forall b ensures FreeOk(fs', b) { assert FreeOk(fs, b); }
  }

  ghost predicate SamePointers(n: Inode, n': Inode) {
    n.direct == n'.direct && n.single == n'.single && n.double == n'.double && n.triple == n'.triple
  }

  lemma {:induction false} SameResolve(fs: Fs, fs': Fs, r: Role)
    requires Sizes(fs) && Sizes(fs') && Legal(fs, r) && fs'.p == fs.p && fs'.disk == fs.disk
    requires fs'.inodes.Keys == fs.inodes.Keys
    requires forall n :: n in fs.inodes ==> SamePointers(fs.inodes[n], fs'.inodes[n])
    ensures Legal(fs', r) && Resolve(fs', r) == Resolve(fs, r)
    decreases r.Depth()
  {
    assert SamePointers(fs.inodes[r.ino], fs'.inodes[r.ino]);
    if !r.Top() { SameResolve(fs, fs', r.Parent()); }
  }

  /** Sector accounting changes no pointer. */
  lemma RecountConsistent(fs: Fs, ino: int, sectors: int)
    requires Consistent(fs) && ino in fs.inodes
    ensures var fs' := fs.(inodes := fs.inodes[ino := fs.inodes[ino].(sectors := sectors)]);
            Consistent(fs') && forall r :: Legal(fs, r) ==> Legal(fs', r) && Resolve(fs', r) == Resolve(fs, r)
  {
    var fs' := fs.(inodes := fs.inodes[ino := fs.inodes[ino].(sectors := sectors)]);
    forall r: Role | Legal(fs, r) ensures Legal(fs', r) && Resolve(fs', r) == Resolve(fs, r) {
      SameResolve(fs, fs', r);
    }
    forall r ensures PlaceOk(fs', r) { assert PlaceOk(fs, r); }
    forall b ensures BlockOk(fs', b) { assert BlockOk(fs, b); }
    forall b ensures FreeOk(fs', b) { assert FreeOk(fs, b); }
  }

  /** Every data and index block of an inode. */
  ghost function BlocksOf(role: map<int, Role>, ino: int): set<int> {
    set b | b in role && role[b].ino == ino
  }

  lemma AttachBlocks(role: map<int, Role>, v: int, r: Role, ino: int)
    requires v !in role
    ensures |BlocksOf(role[v := r], ino)| == |BlocksOf(role, ino)| + (if ino == r.ino then 1 else 0)
  {
    if ino == r.ino {
      assert BlocksOf(role[v := r], ino) == BlocksOf(role, ino) + {v};
    } else {
      assert BlocksOf(role[v := r], ino) == BlocksOf(role, ino);
    }
  }

  /** Blocks a file of four index ranges can have. */
  function MaxBlocks(p: int): int {
    DIRECT + p + p * p + p * p * p
  }

  /** Where block_index_to_block looks for block i of a file. */
  function Place(p: int, ino: int, i: int): Role
    requires p > 0
  {
    if i < DIRECT then Direct(ino, i)
    else if i < DIRECT + p then InSingle(ino, i - DIRECT)
    else if i < DIRECT + p + p * p then
      var o := i - DIRECT - p;
      InDouble(ino, o / p, o % p)
    else
      var o := i - DIRECT - p - p * p;
      InTriple(ino, o / (p * p), o / p % p, o % p)
  }

  lemma TripleBounds(o: int, p: int)
    requires p > 0 && 0 <= o < p * p * p
    ensures p * p > 0 && 0 <= o / (p * p) < p && 0 <= o / p % p < p && 0 <= o % p < p
  {
    MulAssoc(p, p, p);
    MulAtLeast(p, p);
    DivBounds(o, p * p, p);
    Divides(o, p);
    Divides(o / p, p);
  }

  lemma PlaceInRange(p: int, ino: int, i: int)
    requires p > 0 && 0 <= i < MaxBlocks(p)
    ensures Place(p, ino, i).InRange(p)
  {
    if DIRECT + p <= i < DIRECT + p + p * p {
      DivBounds(i - DIRECT - p, p, p);
    } else if i >= DIRECT + p + p * p {
      TripleBounds(i - DIRECT - p - p * p, p);
    }
  }

  /** Different blocks of a file are looked for in different places. */
  lemma PlaceInjective(p: int, ino: int, i: int, i': int)
    requires p > 0 && 0 <= i && 0 <= i' && Place(p, ino, i) == Place(p, ino, i')
    ensures i == i'
  {
    if i >= DIRECT + p + p * p && i' >= DIRECT + p + p * p {
      var o, o' := i - DIRECT - p - p * p, i' - DIRECT - p - p * p;
      DivDiv(o, p);
      DivDiv(o', p);
      SameParts(o / p, o' / p, p);
      SameParts(o, o', p);
    } else if i >= DIRECT + p && i' >= DIRECT + p && i < DIRECT + p + p * p && i' < DIRECT + p + p * p {
      SameParts(i - DIRECT - p, i' - DIRECT - p, p);
    }
  }

  /** The place says which block it is for: inner slots count blocks one by one, outer ones whole index blocks. */
  lemma PlaceIndex(p: int, ino: int, i: int)
    requires p > 0 && 0 <= i
    ensures match Place(p, ino, i)
            case Direct(n, j) => n == ino && i == j
            case InSingle(n, j) => n == ino && i == DIRECT + j
            case InDouble(n, f, j) => n == ino && i == DIRECT + p + f * p + j
            case InTriple(n, f, s, j) => n == ino && i == DIRECT + p + p * p + (f * p + s) * p + j
            case _ => false
  {
    if i >= DIRECT + p + p * p {
      var o := i - DIRECT - p - p * p;
      DivDiv(o, p);
      Divides(o, p);
      Divides(o / p, p);
    } else if i >= DIRECT + p {
      Divides(i - DIRECT - p, p);
    }
  }

  // The layout of the tree, without places.

  function Power(p: int, n: nat): (r: int)
    requires p > 0
    ensures r > 0
  {
    if n == 0 then 1 else MulAtLeast(p, Power(p, n - 1)); p * Power(p, n - 1)
  }

  lemma Powers(p: int)
    requires p > 0
    ensures Power(p, 0) == 1 && Power(p, 1) == p && Power(p, 2) == p * p && Power(p, 3) == p * p * p
  {
    assert Power(p, 1) == p * Power(p, 0);
    assert Power(p, 2) == p * Power(p, 1);
    assert Power(p, 3) == p * Power(p, 2);
    MulAssoc(p, p, p);
  }

  /** Leaf o, counted from the left, of the tree of index blocks of that depth with its root in block b. */
  ghost function LeafAt(disk: map<int, seq<int>>, p: int, b: int, depth: nat, o: int): int
    requires p > 0 && 0 <= o < Power(p, depth) && forall x :: x in disk ==> |disk[x]| == p
    decreases depth
  {
    if depth == 0 then b
    else if b == 0 || b !in disk then 0
    else
      var span := Power(p, depth - 1);
      DivBounds(o, span, p);
      LeafAt(disk, p, disk[b][o / span], depth - 1, o % span)
  }

  /** Block i of a file: the direct blocks, then the leaves of the three trees. */
  ghost function BlockAt(fs: Fs, ino: int, i: int): int
    requires Sizes(fs) && ino in fs.inodes && 0 <= i < MaxBlocks(fs.p)
  {
    Powers(fs.p);
    var n, p := fs.inodes[ino], fs.p;
    if i < DIRECT then n.direct[i]
    else if i < DIRECT + p then LeafAt(fs.disk, p, n.single, 1, i - DIRECT)
    else if i < DIRECT + p + p * p then LeafAt(fs.disk, p, n.double, 2, i - DIRECT - p)
    else LeafAt(fs.disk, p, n.triple, 3, i - DIRECT - p - p * p)
  }

  /** The pointer in a slot of an index block, or 0 if there is no such block. */
  ghost function Pointer(disk: map<int, seq<int>>, b: int, slot: int): int
    requires b in disk ==> 0 <= slot < |disk[b]|
  {
    if b == 0 || b !in disk then 0 else disk[b][slot]
  }

  lemma LeafOne(disk: map<int, seq<int>>, p: int, b: int, o: int)
    requires p > 0 && 0 <= o < p && forall x :: x in disk ==> |disk[x]| == p
    ensures o < Power(p, 1) && LeafAt(disk, p, b, 1, o) == Pointer(disk, b, o)
  {
    Powers(p);
  }

  lemma LeafTwo(disk: map<int, seq<int>>, p: int, b: int, o: int)
    requires p > 0 && 0 <= o < p * p && forall x :: x in disk ==> |disk[x]| == p
    ensures 0 <= o / p < p && o < Power(p, 2)
    ensures LeafAt(disk, p, b, 2, o) == Pointer(disk, Pointer(disk, b, o / p), o % p)
  {
    Powers(p);
    DivBounds(o, p, p);
    if b != 0 && b in disk { LeafOne(disk, p, disk[b][o / p], o % p); }
  }

  lemma LeafThree(disk: map<int, seq<int>>, p: int, b: int, o: int)
    requires p > 0 && 0 <= o < p * p * p && forall x :: x in disk ==> |disk[x]| == p
    ensures p * p > 0 && 0 <= o / (p * p) < p && o < Power(p, 3)
    ensures LeafAt(disk, p, b, 3, o) ==
      Pointer(disk, Pointer(disk, Pointer(disk, b, o / (p * p)), o / p % p), o % p)
  {
    Powers(p);
    TripleBounds(o, p);
    DivMod(o, p);
    Divides(o, p * p);
    if b != 0 && b in disk { LeafTwo(disk, p, disk[b][o / (p * p)], o % (p * p)); }
  }

  /** Following the pointers to the place of a block finds the block of the layout. */
  lemma PlaceIsBlock(fs: Fs, ino: int, i: int)
    requires Sizes(fs) && ino in fs.inodes && 0 <= i < MaxBlocks(fs.p)
    ensures Legal(fs, Place(fs.p, ino, i)) && Resolve(fs, Place(fs.p, ino, i)) == BlockAt(fs, ino, i)
  {
    var p, n := fs.p, fs.inodes[ino];
    PlaceInRange(p, ino, i);
    if DIRECT <= i < DIRECT + p {
      LeafOne(fs.disk, p, n.single, i - DIRECT);
      assert Resolve(fs, Single(ino)) == n.single;
    } else if DIRECT + p <= i < DIRECT + p + p * p {
      var o := i - DIRECT - p;
      LeafTwo(fs.disk, p, n.double, o);
      DoublePointer(fs, ino, o / p, o % p);
    } else if i >= DIRECT + p + p * p {
      var o := i - DIRECT - p - p * p;
      LeafThree(fs.disk, p, n.triple, o);
      TriplePointer(fs, ino, o / (p * p), o / p % p, o % p);
    }
  }

  lemma DoublePointer(fs: Fs, ino: int, f: int, j: int)
    requires Sizes(fs) && Legal(fs, InDouble(ino, f, j))
    ensures Resolve(fs, InDouble(ino, f, j)) == Pointer(fs.disk, Pointer(fs.disk, fs.inodes[ino].double, f), j)
  {
    assert Resolve(fs, Double(ino)) == fs.inodes[ino].double;
    assert Resolve(fs, Middle2(ino, f)) == Pointer(fs.disk, fs.inodes[ino].double, f);
  }

  lemma TriplePointer(fs: Fs, ino: int, f: int, s: int, j: int)
    requires Sizes(fs) && Legal(fs, InTriple(ino, f, s, j))
    ensures Resolve(fs, InTriple(ino, f, s, j)) ==
      Pointer(fs.disk, Pointer(fs.disk, Pointer(fs.disk, fs.inodes[ino].triple, f), s), j)
  {
    assert Resolve(fs, Triple(ino)) == fs.inodes[ino].triple;
    assert Resolve(fs, Middle3(ino, f)) == Pointer(fs.disk, fs.inodes[ino].triple, f);
    assert Resolve(fs, Leaf3(ino, f, s)) == Pointer(fs.disk, Resolve(fs, Middle3(ino, f)), s);
  }

  /** The index blocks on the way to a place that are not there. */
  ghost function Missing(fs: Fs, r: Role): nat
    requires Sizes(fs) && Legal(fs, r)
    decreases r.Depth()
  {
    if r.Top() then 0 else Missing(fs, r.Parent()) + if Resolve(fs, r.Parent()) == 0 then 1 else 0
  }
}
