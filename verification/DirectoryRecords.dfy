/**
 Linked-list directories, as in src/drivers/ext2/directory.c: records that tile
 the blocks of a file, each with a name and an inode, or with neither.
 */
module DirectoryRecords {
  import opened Arith

  const ENTRY_HEADER_LEN := 8
  const NAME_MAX_LEN := 256

  /** A record and where it is. The name is empty exactly in a record that stands for no file. */
  datatype Rec = Rec(at: nat, len: nat, name: string, inode: nat)

  /** pad */
  function Pad(value: nat, align: nat): nat
    requires align > 0
  {
    var padding := align - value % align;
    if padding == align then value else value + padding
  }

  /** The least multiple of the alignment that is not less than the value. */
  lemma PadIsLeast(value: nat, align: nat)
    requires align > 0
    ensures Pad(value, align) % align == 0 && value <= Pad(value, align) < value + align
  {
    Divides(value, align);
    var q := value / align;
    if value % align != 0 {
      MulSucc(q, align);
      SplitsUnique(Pad(value, align), align, q + 1, 0);
    }
  }

  /** The space a record with this name cannot do without. */
  function RealLen(name: string): (n: nat)
    ensures Aligned(n) && ENTRY_HEADER_LEN + |name| <= n < ENTRY_HEADER_LEN + |name| + 4
  {
    PadIsLeast(ENTRY_HEADER_LEN + |name|, 4);
    Pad(ENTRY_HEADER_LEN + |name|, 4)
  }

  ghost predicate BlockSize(bs: nat) {
    1024 <= bs < 0x1_0000 && bs % 4 == 0
  }

  ghost predicate Aligned(x: int) {
    x % 4 == 0
  }

  lemma AlignedParts(x: int, y: int)
    requires Aligned(x) && Aligned(y)
    ensures Aligned(x + y) && Aligned(x - y)
  {
  }

  ghost predicate InOneBlock(at: nat, len: nat, bs: nat) {
    bs > 0 && at % bs + len <= bs
  }

  /** A record is aligned, holds its name and lies in one block. */
  ghost predicate RecOk(r: Rec, bs: nat) {
    && Aligned(r.at) && Aligned(r.len) && |r.name| <= NAME_MAX_LEN
    && ENTRY_HEADER_LEN + |r.name| <= r.len && InOneBlock(r.at, r.len, bs)
  }

  ghost predicate AllOk(recs: seq<Rec>, bs: nat) {
    forall i {:trigger recs[i]} :: 0 <= i < |recs| ==> RecOk(recs[i], bs)
  }

  /** Each record starts where the one before it ends, the first one at 0 and the last one ends at size. */
  ghost predicate Adjacent(recs: seq<Rec>, size: nat) {
    && (forall i :: 0 < i < |recs| ==> recs[i - 1].at + recs[i - 1].len == recs[i].at)
    && (if recs == [] then size == 0 else recs[0].at == 0 && recs[|recs| - 1].at + recs[|recs| - 1].len == size)
  }

  ghost predicate Ordered(recs: seq<Rec>) {
    forall i, j :: 0 <= i < j < |recs| ==> recs[i].at + recs[i].len <= recs[j].at
  }

  /** The records cover the file from its start to its end, which is the end of a block. */
  ghost predicate Tiled(recs: seq<Rec>, bs: nat, size: nat) {
    bs > 0 && size % bs == 0 && AllOk(recs, bs) && Adjacent(recs, size) && Ordered(recs)
  }

  /** The records with a name are the entries of a map. */
  ghost predicate Stands(recs: seq<Rec>, entries: map<string, nat>) {
    && "" !in entries
    && (forall i :: 0 <= i < |recs| && recs[i].name == "" ==> recs[i].inode == 0)
    && (forall i :: 0 <= i < |recs| && recs[i].name != "" ==>
      recs[i].name in entries && entries[recs[i].name] == recs[i].inode)
    && (forall n {:trigger HasName(recs, n)} :: n in entries ==> HasName(recs, n))
    && (forall i, j :: 0 <= i < j < |recs| && recs[i].name != "" ==> recs[i].name != recs[j].name)
  }

  ghost predicate HasName(recs: seq<Rec>, n: string) {
    exists i :: 0 <= i < |recs| && recs[i].name == n
  }

  lemma ModAdd(at: nat, n: nat, bs: nat)
    requires bs > 0 && at % bs + n <= bs
    ensures (at + n) % bs == if at % bs + n == bs then 0 else at % bs + n
  {
    Divides(at, bs);
    var q := at / bs;
    if at % bs + n == bs {
      MulSucc(q, bs);
      SplitsUnique(at + n, bs, q + 1, 0);
    } else {
      SplitsUnique(at + n, bs, q, at % bs + n);
    }
  }

  /** fs_rmdir's test on the records: every inode number is one of the two. */
  ghost predicate OnlyNumbers(recs: seq<Rec>, a: nat, b: nat) {
    forall i :: 0 <= i < |recs| ==> recs[i].inode == a || recs[i].inode == b
  }

  /** It passes exactly when all entries have one of the numbers and no emptied record is left anywhere. */
  lemma EmptiedCounts(recs: seq<Rec>, entries: map<string, nat>, a: nat, b: nat)
    requires Stands(recs, entries) && a != 0 && b != 0
    ensures OnlyNumbers(recs, a, b) <==>
            (forall n :: n in entries ==> entries[n] == a || entries[n] == b) &&
                (forall i :: 0 <= i < |recs| ==> recs[i].name != "")
  {
    if OnlyNumbers(recs, a, b) {
      forall n | n in entries ensures entries[n] == a || entries[n] == b {
        assert HasName(recs, n);
        var i :| 0 <= i < |recs| && recs[i].name == n;
      }
    }
  }

  // A record in the space another one does not need.

  function Split(recs: seq<Rec>, k: nat, name: string, inode: nat): (r: seq<Rec>)
    requires k < |recs| && RealLen(recs[k].name) <= recs[k].len
    ensures |r| == |recs| + 1
  {
    var needed := RealLen(recs[k].name);
    recs[..k] + [recs[k].(len := needed), Rec(recs[k].at + needed, recs[k].len - needed, name, inode)] + recs[k + 1..]
  }

  lemma SplitAdjacent(recs: seq<Rec>, size: nat, k: nat, name: string, inode: nat)
    requires Adjacent(recs, size) && k < |recs| && RealLen(recs[k].name) <= recs[k].len
    ensures Adjacent(Split(recs, k, name, inode), size)
  {
    hide Split, RealLen;
    SplitAt(recs, k, name, inode);
  }

  lemma SplitOrdered(recs: seq<Rec>, k: nat, name: string, inode: nat)
    requires Ordered(recs) && k < |recs| && RealLen(recs[k].name) <= recs[k].len
    ensures Ordered(Split(recs, k, name, inode))
  {
    hide Split, RealLen;
    SplitAt(recs, k, name, inode);
  }

  lemma SplitAt(recs: seq<Rec>, k: nat, name: string, inode: nat)
    requires k < |recs| && RealLen(recs[k].name) <= recs[k].len
    ensures var r, needed := Split(recs, k, name, inode), RealLen(recs[k].name);
            && r[k] == recs[k].(len := needed) &&
                r[k + 1] == Rec(recs[k].at + needed, recs[k].len - needed, name, inode)
            && (forall i :: 0 <= i < k ==> r[i] == recs[i]) && (forall i :: k + 1 < i < |r| ==> r[i] == recs[i - 1])
  {
  }

  lemma SplitOk(r: Rec, bs: nat, name: string, inode: nat)
    requires RecOk(r, bs) && |name| <= NAME_MAX_LEN && RealLen(r.name) + ENTRY_HEADER_LEN + |name| <= r.len
    ensures RecOk(r.(len := RealLen(r.name)), bs)
    ensures RecOk(Rec(r.at + RealLen(r.name), r.len - RealLen(r.name), name, inode), bs)
  {
    hide RealLen, InOneBlock, Aligned;
    AlignedParts(r.at, RealLen(r.name));
    AlignedParts(r.len, RealLen(r.name));
    InBlock(r.at, r.len, RealLen(r.name), bs);
  }

  /** The two parts of a stretch within a block. */
  lemma InBlock(at: nat, len: nat, n: nat, bs: nat)
    requires InOneBlock(at, len, bs) && 0 < n < len
    ensures InOneBlock(at, n, bs) && InOneBlock(at + n, len - n, bs)
  {
    ModAdd(at, n, bs);
  }

  lemma SplitTiled(recs: seq<Rec>, bs: nat, size: nat, k: nat, name: string, inode: nat)
    requires Tiled(recs, bs, size) && k < |recs| && |name| <= NAME_MAX_LEN
    requires RealLen(recs[k].name) + ENTRY_HEADER_LEN + |name| <= recs[k].len
    ensures Tiled(Split(recs, k, name, inode), bs, size)
  {
    hide RecOk, Adjacent, Ordered, Split, RealLen;
    SplitAdjacent(recs, size, k, name, inode);
    SplitOrdered(recs, k, name, inode);
    SplitOk(recs[k], bs, name, inode);
    SplitAt(recs, k, name, inode);
  }

  lemma SplitStands(recs: seq<Rec>, entries: map<string, nat>, k: nat, name: string, inode: nat)
    requires Stands(recs, entries) && k < |recs| && RealLen(recs[k].name) <= recs[k].len
    requires name != "" && name !in entries
    ensures Stands(Split(recs, k, name, inode), entries[name := inode])
  {
    var r := Split(recs, k, name, inode);
    assert r[k + 1].name == name;
    forall n | n in entries[name := inode] ensures HasName(r, n) {
      if n != name {
        assert HasName(recs, n);
        var i :| 0 <= i < |recs| && recs[i].name == n;
        assert r[if i <= k then i else i + 1].name == n;
      }
    }
    assert forall i :: 0 <= i < |recs| ==> recs[i].name != name;
  }

  // A record in a block of its own at the end.

  function Extended(recs: seq<Rec>, bs: nat, size: nat, name: string, inode: nat): seq<Rec> {
    recs + [Rec(size, bs, name, inode)]
  }

  lemma ExtendedTiled(recs: seq<Rec>, bs: nat, size: nat, name: string, inode: nat)
    requires Tiled(recs, bs, size) && BlockSize(bs) && |name| <= NAME_MAX_LEN
    ensures Tiled(Extended(recs, bs, size, name, inode), bs, size + bs)
  {
    var last := Rec(size, bs, name, inode);
    assert RecOk(last, bs) by { BlockAligned(size, bs); }
    ModAdd(size, bs, bs);
    hide RecOk;
  }

  lemma BlockAligned(size: nat, bs: nat)
    requires BlockSize(bs) && size % bs == 0
    ensures size % 4 == 0
  {
    Divides(size, bs);
    var q, m := size / bs, bs / 4;
    MulAssoc(q, m, 4);
    assert bs == m * 4;
  }

  lemma ExtendedStands(recs: seq<Rec>, entries: map<string, nat>, bs: nat, size: nat, name: string, inode: nat)
    requires Stands(recs, entries) && name != "" && name !in entries
    ensures Stands(Extended(recs, bs, size, name, inode), entries[name := inode])
  {
    var r := Extended(recs, bs, size, name, inode);
    assert r[|recs|].name == name;
    forall n | n in entries[name := inode] ensures HasName(r, n) {
      if n != name {
        assert HasName(recs, n);
        var i :| 0 <= i < |recs| && recs[i].name == n;
        assert r[i].name == n;
      }
    }
  }

  // A record that goes.

  function Blanked(recs: seq<Rec>, k: nat): (r: seq<Rec>)
    requires k < |recs|
  {
    recs[k := recs[k].(name := "", inode := 0)]
  }

  function Merged(recs: seq<Rec>, k: nat): (r: seq<Rec>)
    requires 0 < k < |recs|
    ensures |r| == |recs| - 1
  {
    recs[..k - 1] + [recs[k - 1].(len := recs[k - 1].len + recs[k].len)] + recs[k + 1..]
  }

  /** The records once record k is removed: emptied if it starts a block, joined to the one before it otherwise. */
  function Without(recs: seq<Rec>, bs: nat, k: nat): (r: seq<Rec>)
    requires bs > 0 && k < |recs|
  {
    if recs[k].at % bs == 0 || k == 0 then Blanked(recs, k) else Merged(recs, k)
  }

  lemma BlankedTiled(recs: seq<Rec>, bs: nat, size: nat, k: nat)
    requires Tiled(recs, bs, size) && k < |recs|
    ensures Tiled(Blanked(recs, k), bs, size)
  {
    hide InOneBlock, Aligned;
  }

  lemma MergedAdjacent(recs: seq<Rec>, size: nat, k: nat)
    requires Adjacent(recs, size) && Ordered(recs) && 0 < k < |recs|
    ensures Adjacent(Merged(recs, k), size) && Ordered(Merged(recs, k))
  {
    hide Merged;
    MergedAt(recs, k);
  }

  lemma MergedAt(recs: seq<Rec>, k: nat)
    requires 0 < k < |recs|
    ensures var r := Merged(recs, k);
            && r[k - 1] == recs[k - 1].(len := recs[k - 1].len + recs[k].len)
            && (forall i :: 0 <= i < k - 1 ==> r[i] == recs[i]) && (forall i :: k <= i < |r| ==> r[i] == recs[i + 1])
  {
  }

  /** A record that does not start a block lies in the block of the one before it. */
  lemma MergedOk(p: Rec, r: Rec, bs: nat)
    requires RecOk(p, bs) && RecOk(r, bs) && r.at == p.at + p.len && r.at % bs != 0
    ensures RecOk(p.(len := p.len + r.len), bs)
  {
    hide Aligned;
    AlignedParts(p.len, r.len);
    ModAdd(p.at, p.len, bs);
  }

  lemma MergedTiled(recs: seq<Rec>, bs: nat, size: nat, k: nat)
    requires Tiled(recs, bs, size) && 0 < k < |recs| && recs[k].at % bs != 0
    ensures Tiled(Merged(recs, k), bs, size)
  {
    assert recs[k - 1].at + recs[k - 1].len == recs[k].at;
    hide RecOk, Adjacent, Ordered, Merged;
    MergedAdjacent(recs, size, k);
    MergedOk(recs[k - 1], recs[k], bs);
    MergedAt(recs, k);
  }

  lemma BlankedStands(recs: seq<Rec>, entries: map<string, nat>, k: nat)
    requires Stands(recs, entries) && k < |recs| && recs[k].name != ""
    ensures Stands(Blanked(recs, k), entries - {recs[k].name})
  {
    var r := Blanked(recs, k);
    forall n | n in entries - {recs[k].name} ensures HasName(r, n) {
      assert HasName(recs, n);
      var i :| 0 <= i < |recs| && recs[i].name == n;
      assert r[i].name == n;
    }
  }

  lemma MergedStands(recs: seq<Rec>, entries: map<string, nat>, k: nat)
    requires Stands(recs, entries) && 0 < k < |recs| && recs[k].name != ""
    ensures Stands(Merged(recs, k), entries - {recs[k].name})
  {
    var r := Merged(recs, k);
    forall n | n in entries - {recs[k].name} ensures HasName(r, n) {
      assert HasName(recs, n);
      var i :| 0 <= i < |recs| && recs[i].name == n;
      assert r[if i < k then i else i - 1].name == n;
    }
  }
}
