/**
 The block bitmaps of src/drivers/ext2/allocator.c: one bitmap block per group,
 read and written through one shared buffer, and the free counts beside them.
 Block numbers start at 1 when blocks have 1024 bytes and at 0 otherwise.
 */
module BlockAllocator {
  import opened Options
  import opened Arith
  import opened Bitmap

  const TWO32 := 0x1_0000_0000
  const TWO16 := 0x1_0000

  type Disk = map<nat, seq<Word>>

  /** The bitmaps of the groups, the group free counts and the superblock's. */
  datatype Space = Space(used: seq<seq<bool>>, groupFree: seq<nat>, free: nat)

  /** The groups' bitmap blocks are there, as large as a block and apart. */
  ghost predicate Groups(disk: Disk, addresses: seq<nat>, words: nat) {
    && (forall g :: 0 <= g < |addresses| ==> addresses[g] != 0 && addresses[g] in disk && |disk[addresses[g]]| == words)
    && (forall g, h :: 0 <= g < h < |addresses| ==> addresses[g] != addresses[h])
  }

  ghost function Bitmaps(disk: Disk, addresses: seq<nat>): (used: seq<seq<bool>>)
    requires forall g :: 0 <= g < |addresses| ==> addresses[g] in disk
    ensures |used| == |addresses| && forall g :: 0 <= g < |used| ==> used[g] == Bits(disk[addresses[g]])
  {
    seq(|addresses|, g requires 0 <= g < |addresses| => Bits(disk[addresses[g]]))
  }

  lemma WriteOneBitmap(disk: Disk, addresses: seq<nat>, words: nat, g: nat, data: seq<Word>)
    requires Groups(disk, addresses, words) && g < |addresses| && |data| == words
    ensures Groups(disk[addresses[g] := data], addresses, words)
    ensures Bitmaps(disk[addresses[g] := data], addresses) == Bitmaps(disk, addresses)[g := Bits(data)]
  {
    hide Bits;
    var disk' := disk[addresses[g] := data];
    forall h | 0 <= h < |addresses| ensures Bitmaps(disk', addresses)[h] ==
        Bitmaps(disk, addresses)[g := Bits(data)][h] {
    }
  }

  // What one call does to the space.

  /** The first perGroup bits of group g are all set. */
  ghost predicate Full(s: Space, perGroup: nat, g: nat) {
    g < |s.used| && perGroup <= |s.used[g]| && forall b :: 0 <= b < perGroup ==> s.used[g][b]
  }

  /** Block b of group g is its first clear one. */
  ghost predicate FirstFree(s: Space, perGroup: nat, g: nat, b: nat) {
    && g < |s.used| && b < perGroup <= |s.used[g]|
    && !s.used[g][b] && forall c :: 0 <= c < b ==> s.used[g][c]
  }

  ghost predicate InSpace(s: Space, g: nat, b: nat) {
    g < |s.used| && g < |s.groupFree| && b < |s.used[g]|
  }

  function Reserved(s: Space, g: nat, b: nat): Space
    requires g < |s.used| && g < |s.groupFree| && b < |s.used[g]|
  {
    s.(used := s.used[g := s.used[g][b := true]],
       groupFree := s.groupFree[g := (s.groupFree[g] + TWO16 - 1) % TWO16],
       free := (s.free + TWO32 - 1) % TWO32)
  }

  function Released(s: Space, g: nat, b: nat): Space
    requires g < |s.used| && g < |s.groupFree| && b < |s.used[g]|
  {
    s.(used := s.used[g := s.used[g][b := false]],
       groupFree := s.groupFree[g := (s.groupFree[g] + 1) % TWO16],
       free := (s.free + 1) % TWO32)
  }

  /** Deallocating a block just allocated restores every bitmap and count. */
  lemma ReleaseUndoesReserve(s: Space, g: nat, b: nat)
    requires InSpace(s, g, b) && !s.used[g][b] && s.free < TWO32 && s.groupFree[g] < TWO16
    ensures InSpace(Reserved(s, g, b), g, b) && Released(Reserved(s, g, b), g, b) == s
  {
    var s' := Released(Reserved(s, g, b), g, b);
    assert s'.used[g] == s.used[g];
    assert s'.used == s.used;
    assert s'.groupFree == s.groupFree;
  }

  // Free counts against clear bits.

  function Clear(bits: seq<bool>): nat {
    if bits == [] then 0 else (if bits[0] then 0 else 1) + Clear(bits[1..])
  }

  lemma {:induction false} ClearUpdate(bits: seq<bool>, b: nat, value: bool)
    requires b < |bits|
    ensures Clear(bits[b := value]) == Clear(bits) - (if bits[b] then 0 else 1) + (if value then 0 else 1)
  {
    if b > 0 {
      ClearUpdate(bits[1..], b - 1, value);
      assert bits[b := value][1..] == bits[1..][b - 1 := value];
    } else {
      assert bits[b := value][1..] == bits[1..];
    }
  }

  function AllClear(used: seq<seq<bool>>): nat {
    if used == [] then 0 else Clear(used[0]) + AllClear(used[1..])
  }

  lemma {:induction false} AllClearUpdate(used: seq<seq<bool>>, g: nat, bits: seq<bool>)
    requires g < |used|
    ensures AllClear(used[g := bits]) == AllClear(used) - Clear(used[g]) + Clear(bits)
  {
    if g > 0 {
      AllClearUpdate(used[1..], g - 1, bits);
      assert used[g := bits][1..] == used[1..][g - 1 := bits];
    } else {
      assert used[g := bits][1..] == used[1..];
    }
  }

  /** How far a count of free blocks is from the clear bits. */
  function GroupDrift(s: Space, g: nat): int
    requires g < |s.used| && g < |s.groupFree|
  {
    (s.groupFree[g] - Clear(s.used[g])) % TWO16
  }

  function Drift(s: Space): int {
    (s.free - AllClear(s.used)) % TWO32
  }

  lemma ModShift(x: int, n: int, k: int)
    requires n > 0
    ensures (x % n + k) % n == (x + k) % n
  {
    var q, r := x / n, x % n;
    Divides(x, n);
    Divides(r + k, n);
    MulPlus(q, (r + k) / n, n);
    SplitsUnique(x + k, n, q + (r + k) / n, (r + k) % n);
  }

  lemma ReserveKeepsDrift(s: Space, g: nat, b: nat, h: nat)
    requires InSpace(s, g, b) && !s.used[g][b] && h < |s.used| && h < |s.groupFree|
    ensures Drift(Reserved(s, g, b)) == Drift(s) && GroupDrift(Reserved(s, g, b), h) == GroupDrift(s, h)
  {
    hide Clear, AllClear;
    ClearUpdate(s.used[g], b, true);
    AllClearUpdate(s.used, g, s.used[g][b := true]);
    ModShift(s.free + TWO32 - 1, TWO32, -(AllClear(s.used) - 1));
    ModShift(s.groupFree[g] + TWO16 - 1, TWO16, -(Clear(s.used[g]) - 1));
  }

  /** A deallocation keeps the drift exactly when the block was in use; of a clear block it counts one too many. */
  lemma ReleaseDrift(s: Space, g: nat, b: nat, h: nat)
    requires InSpace(s, g, b) && h < |s.used| && h < |s.groupFree|
    ensures Drift(Released(s, g, b)) == if s.used[g][b] then Drift(s) else (Drift(s) + 1) % TWO32
    ensures GroupDrift(Released(s, g, b), h) == if s.used[g][b] ||
        h != g then GroupDrift(s, h) else (GroupDrift(s, h) + 1) % TWO16
    ensures Drift(Released(s, g, b)) == Drift(s) <==> s.used[g][b]
    ensures GroupDrift(Released(s, g, b), g) == GroupDrift(s, g) <==> s.used[g][b]
  {
    hide Clear, AllClear;
    ClearUpdate(s.used[g], b, false);
    AllClearUpdate(s.used, g, s.used[g][b := false]);
    var extra := if s.used[g][b] then 1 else 0;
    ModShift(s.free + 1, TWO32, -(AllClear(s.used) + extra));
    ModShift(s.groupFree[g] + 1, TWO16, -(Clear(s.used[g]) + extra));
    ModShift(s.free - AllClear(s.used), TWO32, 1);
    ModShift(s.groupFree[g] - Clear(s.used[g]), TWO16, 1);
    NextDiffers(Drift(s), TWO32);
    NextDiffers(GroupDrift(s, g), TWO16);
  }

  lemma NextDiffers(x: int, n: int)
    requires 0 <= x < n && n > 1
    ensures (x + 1) % n != x
  {
    if x + 1 < n {
      SplitsUnique(x + 1, n, 0, x + 1);
    }
  }

  datatype Change = Allocate(g: nat, b: nat) | Deallocate(g: nat, b: nat)

  /** An allocation takes a free block; a deallocation is not checked beyond its range. */
  ghost predicate Possible(s: Space, c: Change) {
    InSpace(s, c.g, c.b) && (c.Allocate? ==> !s.used[c.g][c.b])
  }

  ghost function Changed(s: Space, c: Change): Space
    requires Possible(s, c)
  {
    if c.Allocate? then Reserved(s, c.g, c.b) else Released(s, c.g, c.b)
  }

  /** The space after a run; a change that is not possible does not happen. */
  ghost function After(s: Space, changes: seq<Change>): Space {
    if changes == [] then s
    else
      var t, c := After(s, changes[..|changes| - 1]), changes[|changes| - 1];
      if Possible(t, c) then Changed(t, c) else t
  }

  lemma AfterNothing(s: Space)
    ensures After(s, []) == s
  {
  }

  /** The block given back was not in use. */
  ghost predicate Stray(s: Space, c: Change) {
    c.Deallocate? && InSpace(s, c.g, c.b) && !s.used[c.g][c.b]
  }

  /** How many deallocations of a run hit a clear block, in one group and in all. */
  ghost function StraysIn(s: Space, changes: seq<Change>, h: nat): nat {
    if changes == [] then 0
    else
      var before, c := changes[..|changes| - 1], changes[|changes| - 1];
      StraysIn(s, before, h) + if Stray(After(s, before), c) && c.g == h then 1 else 0
  }

  ghost function Strays(s: Space, changes: seq<Change>): nat {
    if changes == [] then 0
    else
      var before, c := changes[..|changes| - 1], changes[|changes| - 1];
      Strays(s, before) + if Stray(After(s, before), c) then 1 else 0
  }

  /**
   Over any run the free counts drift from the clear bits by the deallocations of clear blocks, and
   by nothing else.
   */
  lemma {:induction false} DriftIsStrays(s: Space, changes: seq<Change>, h: nat)
    requires h < |s.used| && |s.used| == |s.groupFree|
    ensures var t := After(s, changes);
            && |t.used| == |s.used| && |t.groupFree| == |s.groupFree|
            && Drift(t) == (Drift(s) + Strays(s, changes)) % TWO32
            && GroupDrift(t, h) == (GroupDrift(s, h) + StraysIn(s, changes, h)) % TWO16
    decreases |changes|
  {
    if changes == [] {
      ModShift(s.free - AllClear(s.used), TWO32, 0);
      ModShift(s.groupFree[h] - Clear(s.used[h]), TWO16, 0);
    } else {
      hide Drift, GroupDrift;
      var before := changes[..|changes| - 1];
      var t, c := After(s, before), changes[|changes| - 1];
      DriftIsStrays(s, before, h);
      ModShift(Drift(s) + Strays(s, before), TWO32, 1);
      ModShift(GroupDrift(s, h) + StraysIn(s, before, h), TWO16, 1);
      if Possible(t, c) && c.Allocate? {
        ReserveKeepsDrift(t, c.g, c.b, h);
      } else if Possible(t, c) {
        ReleaseDrift(t, c.g, c.b, h);
      }
    }
  }

  /**
   So the superblock's count keeps its distance over a run exactly when those deallocations are a
   multiple of 2^32, none above all.
   */
  lemma DriftIsConstant(s: Space, changes: seq<Change>, h: nat)
    requires h < |s.used| && |s.used| == |s.groupFree|
    ensures Drift(After(s, changes)) == Drift(s) <==> Strays(s, changes) % TWO32 == 0
    ensures var t := After(s, changes);
            && |t.used| == |s.used| && |t.groupFree| == |s.groupFree|
            && (GroupDrift(t, h) == GroupDrift(s, h) <==> StraysIn(s, changes, h) % TWO16 == 0)
  {
    DriftIsStrays(s, changes, h);
    hide After, Strays, StraysIn, Clear, AllClear;
    SameRemainder(Drift(s), Strays(s, changes), TWO32);
    SameRemainder(GroupDrift(s, h), StraysIn(s, changes, h), TWO16);
  }

  lemma SameRemainder(x: int, n: nat, m: int)
    requires 0 <= x < m
    ensures (x + n) % m == x <==> n % m == 0
  {
    ModShift(n, m, x);
    Divides(n, m);
    var r := n % m;
    if x + r < m {
      SplitsUnique(x + r, m, 0, x + r);
    } else {
      SplitsUnique(x + r, m, 1, x + r - m);
    }
  }

  /** One block, allocated and then deallocated twice, as free_index does with nested index blocks. */
  lemma FreedTwice()
    ensures var s := Space([[false]], [1], 1);
            var t := After(s, [Allocate(0, 0), Deallocate(0, 0), Deallocate(0, 0)]);
            && t.used == s.used && AllClear(t.used) == 1
            && t.free == 2 && t.groupFree == [2] && Drift(s) == 0 && Drift(t) == 1
  {
    var s, s1, s2 := Space([[false]], [1], 1), Space([[true]], [0], 0), Space([[false]], [2], 2);
    var c := [Allocate(0, 0), Deallocate(0, 0), Deallocate(0, 0)];
    assert s.used[0][0 := true] == s1.used[0] && s1.used[0][0 := false] == s.used[0] &&
        s.used[0][0 := false] == s2.used[0];
    assert Reserved(s, 0, 0) == s1 && Released(s1, 0, 0) == s && Released(s, 0, 0) == s2;
    assert c[..0] == [] && c[..3] == c;
    AfterNext(s, c, 0);
    AfterNext(s, c, 1);
    AfterNext(s, c, 2);
    assert Clear([false]) == 1 + Clear([]);
    assert AllClear(s.used) == Clear([false]) + AllClear([]);
  }

  lemma AfterNext(s: Space, changes: seq<Change>, k: nat)
    requires k < |changes|
    ensures var t, c := After(s, changes[..k]), changes[k];
            After(s, changes[..k + 1]) == if Possible(t, c) then Changed(t, c) else t
  {
    assert changes[..k + 1][..k] == changes[..k];
  }

  /** The counts are as far from the clear bits as they were. */
  ghost predicate SameDrift(s: Space, t: Space) {
    && Drift(t) == Drift(s) && |t.used| == |s.used| && |t.groupFree| == |s.groupFree|
    && forall h :: 0 <= h < |s.used| && h < |s.groupFree| ==> GroupDrift(t, h) == GroupDrift(s, h)
  }

  lemma SameDriftItself(s: Space)
    ensures SameDrift(s, s)
  {
  }

  lemma ReserveSame(s: Space, g: nat, b: nat)
    requires InSpace(s, g, b) && !s.used[g][b]
    ensures SameDrift(s, Reserved(s, g, b))
  {
    hide Drift, GroupDrift;
    forall h: nat | h < |s.used| && h < |s.groupFree| ensures GroupDrift(Reserved(s, g, b), h) == GroupDrift(s, h) {
      ReserveKeepsDrift(s, g, b, h);
    }
    ReserveKeepsDrift(s, g, b, g);
  }

  lemma ReleaseSame(s: Space, g: nat, b: nat)
    requires InSpace(s, g, b)
    ensures SameDrift(s, Released(s, g, b)) <==> s.used[g][b]
  {
    hide Drift, GroupDrift;
    forall h: nat | h < |s.used| && h < |s.groupFree| &&
        s.used[g][b] ensures GroupDrift(Released(s, g, b), h) == GroupDrift(s, h) {
      ReleaseDrift(s, g, b, h);
    }
    ReleaseDrift(s, g, b, g);
  }

  /** Where a block number lies. */
  ghost predicate IsBlock(block: nat, offset: nat, perGroup: nat, g: nat, b: nat) {
    b < perGroup && block == offset + g * perGroup + b
  }

  class Allocator {
    const perGroup: nat
    const offset: nat
    const words: nat
    const addresses: seq<nat>
    const bitmapBuffer: array<Word>
    var bitmapBlock: nat
    var disk: Disk
    var groupFree: seq<nat>
    var free: nat

    ghost predicate Valid()
      reads this, bitmapBuffer
    {
      && 0 < perGroup <= ENTRIES_PER_SLOT * words && perGroup % ENTRIES_PER_SLOT == 0 && offset <= 1
      && Groups(disk, addresses, words) && |groupFree| == |addresses| && bitmapBuffer.Length == words
      && (bitmapBlock != 0 ==> bitmapBlock in disk && disk[bitmapBlock] == bitmapBuffer[..])
      && offset + |addresses| * perGroup <= TWO32
      && free < TWO32 && (forall g :: 0 <= g < |groupFree| ==> groupFree[g] < TWO16)
      && (offset == 0 && |addresses| > 0 ==> Bits(disk[addresses[0]])[0])
    }

    ghost function View(): Space
      reads this
      requires Groups(disk, addresses, words)
    {
      Space(Bitmaps(disk, addresses), groupFree, free)
    }

    /** The state ext2_init leaves: nothing in the buffer. */
    constructor (perGroup: nat, offset: nat, words: nat, addresses: seq<nat>, disk: Disk, groupFree: seq<nat>,
        free: nat)
      requires 0 < perGroup <= ENTRIES_PER_SLOT * words && perGroup % ENTRIES_PER_SLOT == 0 && offset <= 1
      requires offset + |addresses| * perGroup <= TWO32
      requires Groups(disk, addresses, words) && |groupFree| == |addresses|
      requires free < TWO32 && forall g :: 0 <= g < |groupFree| ==> groupFree[g] < TWO16
      requires offset == 0 && |addresses| > 0 ==> Bits(disk[addresses[0]])[0]
      ensures Valid() && View() == Space(Bitmaps(disk, addresses), groupFree, free)
      ensures this.perGroup == perGroup && this.offset == offset && fresh(bitmapBuffer)
    {
      this.perGroup, this.offset, this.words, this.addresses := perGroup, offset, words, addresses;
      this.disk, this.groupFree, this.free := disk, groupFree, free;
      bitmapBlock := 0;
      bitmapBuffer := new Word[words](i => seq(32, j => false));
    }

    /** read_block_bitmap: nothing to read when the buffer already holds it. */
    method ReadBlockBitmap(group: nat)
      requires Valid() && group < |addresses|
      modifies `bitmapBlock, bitmapBuffer
      ensures Valid() && bitmapBlock == addresses[group] && bitmapBuffer[..] == disk[addresses[group]]
    {
      hide Bits;
      if bitmapBlock == addresses[group] {
        return;
      }
      bitmapBlock := addresses[group];
      ReadBlock(bitmapBlock);
    }

    /** read_block into the shared buffer. */
    method ReadBlock(block: nat)
      requires block in disk && |disk[block]| == bitmapBuffer.Length
      modifies bitmapBuffer
      ensures bitmapBuffer[..] == disk[block]
    {
      for i := 0 to bitmapBuffer.Length
        invariant bitmapBuffer[..i] == disk[block][..i]
      {
        bitmapBuffer[i] := disk[block][i];
      }
    }

    /**
     write_block_bitmap: the group's bitmap, and no other, becomes what the buffer holds; a group
     the buffer does not hold is refused.
     */
    method WriteBlockBitmap(group: nat) returns (r: int)
      requires Groups(disk, addresses, words) && bitmapBuffer.Length == words && group < |addresses|
      modifies `disk
      ensures Groups(disk, addresses, words) && (r == 0 || r == -1)
      ensures r == 0 <==> bitmapBlock == addresses[group]
      ensures r == 0 ==>
        && disk[bitmapBlock] == bitmapBuffer[..]
        && Bitmaps(disk, addresses) == old(Bitmaps(disk, addresses))[group := Bits(bitmapBuffer[..])]
      ensures r == -1 ==> disk == old(disk)
    {
      if bitmapBlock != addresses[group] {
        return -1;
      }
      WriteOneBitmap(disk, addresses, words, group, bitmapBuffer[..]);
      disk := disk[bitmapBlock := bitmapBuffer[..]];
      return 0;
    }

    /** reserve_block */
    method ReserveBlock(group: nat, block: nat)
      requires Valid() && group < |addresses| && block < perGroup && bitmapBlock == addresses[group]
      modifies `disk, `groupFree, `free, bitmapBuffer
      ensures Valid() && View() == Reserved(old(View()), group, block)
    {
      hide Bits;
      BitmapSet(bitmapBuffer, block);
      var _ := WriteBlockBitmap(group);
      free := (free + TWO32 - 1) % TWO32;
      groupFree := groupFree[group := (groupFree[group] + TWO16 - 1) % TWO16];
    }

    /** allocate_in_group: the first clear block of the group, 0 exactly when the group is full. */
    method AllocateInGroup(group: nat) returns (r: nat, ghost b: nat)
      requires Valid() && group < |addresses|
      modifies `bitmapBlock, `disk, `groupFree, `free, bitmapBuffer
      ensures Valid()
      ensures r == 0 <==> Full(old(View()), perGroup, group)
      ensures r == 0 ==> View() == old(View())
      ensures r != 0 ==>
        && FirstFree(old(View()), perGroup, group, b) && IsBlock(r, offset, perGroup, group, b)
        && InSpace(old(View()), group, b) && View() == Reserved(old(View()), group, b) && SameDrift(old(View()), View())
        && View().used == old(View()).used[group := old(View()).used[group][b := true]]
    {
      hide Bits, SameDrift;
      ghost var before := View();
      b := 0;
      ReadBlockBitmap(group);
      var block := FirstClear(bitmapBuffer, perGroup);
      if block == -1 {
        return 0, 0;
      }
      b := block;
      NonZero(group, b);
      ReserveBlock(group, block);
      ReserveSame(before, group, block);
      r := offset + group * perGroup + block;
    }

    /** Block 0, where there is one, is in use, so it is never the one found. */
    lemma NonZero(group: nat, b: nat)
      requires Valid() && group < |addresses| && b < perGroup && !Bits(disk[addresses[group]])[b]
      ensures offset + group * perGroup + b > 0
    {
      if group > 0 {
        MulAtLeast(group, perGroup);
      }
    }

    /**
     allocate_block: a block that was not in use, in the hinted group if it has
     one and in the first group that has one otherwise; 0 exactly when every
     bitmap is full.
     */
    method AllocateBlock(groupHint: nat) returns (r: nat, ghost g: nat, ghost b: nat)
      requires Valid() && groupHint < |addresses|
      modifies `bitmapBlock, `disk, `groupFree, `free, bitmapBuffer
      ensures Valid()
      ensures r == 0 <==> forall h :: 0 <= h < |addresses| ==> Full(old(View()), perGroup, h)
      ensures r == 0 ==> View() == old(View())
      ensures r != 0 ==>
        && FirstFree(old(View()), perGroup, g, b) && IsBlock(r, offset, perGroup, g, b)
        && InSpace(old(View()), g, b) && View() == Reserved(old(View()), g, b)
        && View().used == old(View()).used[g := old(View()).used[g][b := true]]
        && (g == groupHint || (Full(old(View()), perGroup, groupHint) && forall h :: 0 <= h < g ==>
            Full(old(View()), perGroup, h)))
      ensures SameDrift(old(View()), View())
    {
      ghost var before := View();
      GroupsHold();
      SameDriftItself(before);
      hide Bits, Bitmaps, Full, FirstFree, InSpace, Reserved, IsBlock, Groups, SameDrift;
      r, b := AllocateInGroup(groupHint);
      g := groupHint;
      if r != 0 {
        return;
      }
      for i := 0 to |addresses|
        invariant Valid() && Groups(disk, addresses, words) && View() == before && r == 0
        invariant forall h :: 0 <= h < i ==> Full(before, perGroup, h)
      {
        g := i;
        r, b := AllocateInGroup(i);
        if r != 0 {
          return;
        }
      }
    }

    lemma GroupsHold()
      requires Valid()
      ensures Groups(disk, addresses, words)
    {
    }

    /** deallocate_block of a block of some group other than block 0. */
    method DeallocateBlock(block: nat, ghost g: nat, ghost b: nat) returns (r: int)
      requires Valid() && g < |addresses| && IsBlock(block, offset, perGroup, g, b) && block != 0
      modifies `bitmapBlock, `disk, `groupFree, `free, bitmapBuffer
      ensures Valid() && r == 0 && InSpace(old(View()), g, b) && View() == Released(old(View()), g, b)
      ensures View().used == old(View()).used[g := old(View()).used[g][b := false]]
      ensures SameDrift(old(View()), View()) <==> old(View()).used[g][b]
      ensures !old(View()).used[g][b] ==> Drift(View()) == (Drift(old(View())) + 1) % TWO32
    {
      hide Bits, SameDrift, Drift;
      ghost var before := View();
      SplitsUnique(block - offset, perGroup, g, b);
      var blockGroup, blockIndex := (block - offset) / perGroup, (block - offset) % perGroup;
      ReadBlockBitmap(blockGroup);
      ReleaseBlock(blockGroup, blockIndex);
      ReleaseSame(before, g, b);
      ReleaseDrift(before, g, b, g);
      r := 0;
    }

    /** The rest of deallocate_block. */
    method ReleaseBlock(group: nat, block: nat)
      requires Valid() && group < |addresses| && block < perGroup && bitmapBlock == addresses[group]
      requires offset == 0 && group == 0 ==> block != 0
      modifies `disk, `groupFree, `free, bitmapBuffer
      ensures Valid() && View() == Released(old(View()), group, block)
    {
      hide Bits;
      BitmapClear(bitmapBuffer, block);
      var _ := WriteBlockBitmap(group);
      free := (free + 1) % TWO32;
      groupFree := groupFree[group := (groupFree[group] + 1) % TWO16];
    }

    /** Allocating a block and deallocating it restores every bitmap and every count. */
    method AllocateThenDeallocate(groupHint: nat)
      requires Valid() && groupHint < |addresses|
      modifies `bitmapBlock, `disk, `groupFree, `free, bitmapBuffer
      ensures Valid() && View() == old(View())
    {
      ghost var before := View();
      CountsFit();
      hide Bits, Full, Reserved, Released, IsBlock, Groups;
      var block, g, b := AllocateBlock(groupHint);
      if block != 0 {
        ReleaseUndoesReserve(before, g, b);
        var _ := DeallocateBlock(block, g, b);
      }
    }

    lemma CountsFit()
      requires Valid()
      ensures Groups(disk, addresses, words) && free < TWO32 && |groupFree| == |addresses|
      ensures forall g :: 0 <= g < |groupFree| ==> groupFree[g] < TWO16
    {
    }

    /** One request; a block number outside the groups is not given back. */
    method ServeOne(q: Request) returns (ghost change: Option<Change>)
      requires Valid()
      modifies `bitmapBlock, `disk, `groupFree, `free, bitmapBuffer
      ensures Valid()
      ensures change.None? ==> View() == old(View())
      ensures change.Some? ==> Possible(old(View()), change.value) && View() == Changed(old(View()), change.value)
    {
      hide Bits, Bitmaps, Full, Reserved, Released, SameDrift, Drift;
      change := None;
      match q {
        case Get(hint) =>
          if hint < |addresses| {
            var r, g, b := AllocateBlock(hint);
            change := if r != 0 then Some(Allocate(g, b)) else None;
          }
        case Give(block) =>
          if offset <= block && block != 0 && block - offset < |addresses| * perGroup {
            var g, b := (block - offset) / perGroup, (block - offset) % perGroup;
            DivBounds(block - offset, perGroup, |addresses|);
            Divides(block - offset, perGroup);
            var _ := DeallocateBlock(block, g, b);
            change := Some(Deallocate(g, b));
          }
      }
    }

    /** A run of requests is a run of changes, so the counts drift by the deallocations of clear blocks in it. */
    method Serve(requests: seq<Request>) returns (ghost changes: seq<Change>)
      requires Valid()
      modifies `bitmapBlock, `disk, `groupFree, `free, bitmapBuffer
      ensures Valid() && |changes| <= |requests| && View() == After(old(View()), changes)
      ensures |addresses| > 0 ==> Drift(View()) == (Drift(old(View())) + Strays(old(View()), changes)) % TWO32
    {
      ghost var before := View();
      ViewSizes();
      hide Bits, Bitmaps, Drift, After, Changed, Possible, Strays;
      changes := [];
      AfterNothing(before);
      for i := 0 to |requests|
        invariant Valid() && |changes| <= i && View() == After(before, changes)
      {
        ghost var change := ServeOne(requests[i]);
        if change.Some? {
          AfterNext(before, changes + [change.value], |changes|);
          assert (changes + [change.value])[..|changes|] == changes;
          assert (changes + [change.value])[..|changes| + 1] == changes + [change.value];
          changes := changes + [change.value];
        }
      }
      if |addresses| > 0 {
        DriftIsStrays(before, changes, 0);
      }
    }

    lemma ViewSizes()
      requires Valid()
      ensures |View().used| == |View().groupFree| == |addresses|
    {
    }
  }

  datatype Request = Get(hint: nat) | Give(block: nat)
}
