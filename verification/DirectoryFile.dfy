/**
 Directory files of src/drivers/ext2/directory.c, known by the records written
 into them: a write of n bytes destroys every record it overlaps and puts a new
 one in place. Records that were removed stay in the file until something is
 written over them.
 */
module DirectoryFile {
  import opened Arith
  import opened DirectoryRecords

  /** A record as it is read: its length, the name of the given length and the inode. */
  datatype Entry = Entry(entryLength: nat, name: string, inode: nat)

  type File = map<nat, Entry>

  function EntryOf(r: Rec): Entry {
    Entry(r.len, r.name, r.inode)
  }

  /** ext2_write_inode_content of n bytes that start with a record. */
  function Written(file: File, at: nat, n: nat, e: Entry): File {
    (map a | a in file && (a + ENTRY_HEADER_LEN + |file[a].name| <= at || at + n <= a) :: file[a])[at := e]
  }

  ghost predicate Holds(file: File, recs: seq<Rec>) {
    forall i :: 0 <= i < |recs| ==> HoldsOne(file, recs[i])
  }

  ghost predicate HoldsOne(file: File, r: Rec) {
    r.at in file && file[r.at] == EntryOf(r)
  }

  /** A record elsewhere survives a write. */
  lemma WrittenKeeps(file: File, at: nat, n: nat, e: Entry, r: Rec)
    requires HoldsOne(file, r) && ENTRY_HEADER_LEN + |r.name| <= r.len && n > 0
    requires r.at + r.len <= at || at + n <= r.at
    ensures HoldsOne(Written(file, at, n, e), r)
  {
  }

  ghost predicate Fits(r: Rec, len: nat) {
    RealLen(r.name) + len <= r.len
  }

  /** Record k is the first with room to spare, or there is none and k is past the end. */
  ghost predicate IsSlot(recs: seq<Rec>, len: nat, k: nat) {
    k <= |recs| && (k < |recs| ==> Fits(recs[k], len)) && forall j :: 0 <= j < k ==> !Fits(recs[j], len)
  }

  /** The new record would end with the block, which the code takes for crossing it. */
  ghost predicate Misplaced(recs: seq<Rec>, bs: nat, len: nat, k: nat) {
    bs > 0 && k < |recs| && (recs[k].at + RealLen(recs[k].name)) % bs + len >= bs
  }

  /** The records once a name is added at record k, or at the end. */
  ghost function With(recs: seq<Rec>, bs: nat, size: nat, k: nat, name: string, inode: nat): seq<Rec> {
    if k < |recs| && RealLen(recs[k].name) <= recs[k].len then Split(recs, k, name, inode)
    else Extended(recs, bs, size, name, inode)
  }

  lemma OneSlot(recs: seq<Rec>, len: nat, k: nat, k': nat)
    requires IsSlot(recs, len, k) && IsSlot(recs, len, k')
    ensures k == k'
  {
  }

  /** The name as it is stored. */
  function Stored(name: string): (s: string)
    ensures |s| <= NAME_MAX_LEN
  {
    if |name| > NAME_MAX_LEN then name[..NAME_MAX_LEN] else name
  }

  /** A name of this length would get a misplaced record. */
  ghost predicate EndsWithBlock(recs: seq<Rec>, bs: nat, len: nat) {
    exists k: nat :: IsSlot(recs, len, k) && Misplaced(recs, bs, len, k)
  }

  /** What ext2_dir_add writes when record p has room. */
  function SlotFile(file: File, p: Rec, bs: nat, name: string, inode: nat): File
    requires bs > 0 && RealLen(p.name) <= p.len
  {
    var needed := RealLen(p.name);
    var at := PlaceOf(p.at + needed, name, bs);
    Written(Written(file, p.at, needed, Entry(needed, p.name, p.inode)), at, ENTRY_HEADER_LEN + |name|,
            Entry(if at == p.at + needed then p.len - needed else bs, name, inode))
  }

  /** The dot entries of a directory whose second block has been emptied. */
  function LeftOver(): seq<Rec> {
    [Rec(0, 12, ".", 11), Rec(12, 1012, "..", 2), Rec(1024, 1024, "", 0)]
  }

  /** It holds only its two dot entries and still does not pass for empty. */
  lemma EmptiedExample()
    ensures Tiled(LeftOver(), 1024, 2048) && Stands(LeftOver(), map["." := 11, ".." := 2])
    ensures !OnlyNumbers(LeftOver(), 2, 11)
  {
    assert LeftOver()[2].inode == 0;
    hide Tiled, Stands;
    LeftOverTiled();
    LeftOverStands();
  }

  lemma LeftOverTiled()
    ensures Tiled(LeftOver(), 1024, 2048)
  {
  }

  lemma LeftOverStands()
    ensures Stands(LeftOver(), map["." := 11, ".." := 2])
  {
    var recs, entries := LeftOver(), map["." := 11, ".." := 2];
    assert |recs[0].name| == 1 && |recs[1].name| == 2 && |recs[2].name| == 0;
    assert recs[0].name == "." && recs[1].name == "..";
    forall n | n in entries ensures HasName(recs, n) { }
  }

  lemma Stays(at: nat, name: string, bs: nat)
    requires bs > 0
    ensures PlaceOf(at, name, bs) == at <==> at % bs + ENTRY_HEADER_LEN + |name| < bs
  {
    Moves(at, bs);
  }

  lemma WholeBlocks(recs: seq<Rec>, bs: nat, size: nat)
    requires Tiled(recs, bs, size)
    ensures bs > 0 && size % bs == 0 && Pad(size, bs) == size
  {
  }

  lemma AtEnd(size: nat, len: nat, bs: nat)
    requires bs > 0 && size % bs == 0 && 0 < len <= bs
    ensures Pad(size + len, bs) == size + bs
  {
    ModAdd(size, len, bs);
  }

  /** Where ext2_dir_add puts a record meant for an offset. */
  function PlaceOf(at: nat, name: string, bs: nat): nat
    requires bs > 0
  {
    if at % bs + ENTRY_HEADER_LEN + |name| >= bs then bs * (1 + at / bs) else at
  }

  lemma Moves(at: nat, bs: nat)
    requires bs > 0
    ensures bs * (1 + at / bs) > at
  {
    Divides(at, bs);
    MulSucc(at / bs, bs);
  }

  lemma Absent(recs: seq<Rec>, entries: map<string, nat>, name: string)
    requires Stands(recs, entries) && forall j :: 0 <= j < |recs| ==> recs[j].name != name
    ensures name !in entries && entries - {name} == entries
  {
    assert name in entries ==> HasName(recs, name);
  }

  lemma Fill(recs: seq<Rec>, bs: nat, size: nat, k: nat)
    requires Tiled(recs, bs, size) && k < |recs|
    ensures recs[k].at + RealLen("") <= size && recs[k].at + RealLen(recs[k].name) <= size
    ensures k > 0 ==> recs[k - 1].at + RealLen(recs[k - 1].name) <= size
    ensures bs > 0 && (recs[k].at % bs != 0 ==> k > 0)
  {
    hide Tiled, RealLen, Pad;
    WholeBlocks(recs, bs, size);
    RecFits(recs, bs, size, k);
    Below(recs, bs, size, k);
    if k > 0 {
      RecFits(recs, bs, size, k - 1);
      Below(recs, bs, size, k - 1);
    } else {
      Start(recs, bs, size);
    }
  }

  lemma NothingTiled(bs: nat)
    requires BlockSize(bs)
    ensures Tiled([], bs, 0) && Stands([], map[])
  {
  }

  lemma Start(recs: seq<Rec>, bs: nat, size: nat)
    requires Tiled(recs, bs, size)
    ensures recs == [] <==> size == 0
    ensures recs != [] ==> recs[0].at == 0
  {
    assert recs != [] ==> RecOk(recs[|recs| - 1], bs);
  }

  /** From a record to the next. */
  lemma Walk(recs: seq<Rec>, bs: nat, size: nat, i: nat)
    requires Tiled(recs, bs, size)
    ensures i < |recs| ==> recs[i].at < size && recs[i].len > 0
    ensures i < |recs| ==> recs[i].at + recs[i].len == if i + 1 < |recs| then recs[i + 1].at else size
  {
    if i < |recs| {
      var last := |recs| - 1;
      assert RecOk(recs[i], bs) && RecOk(recs[last], bs);
      assert i < last ==> recs[i].at + recs[i].len <= recs[last].at;
    }
  }

  // What the writes of each call leave in the file.

  /** A write within record k leaves the other records. */
  lemma WrittenOthers(file: File, recs: seq<Rec>, bs: nat, size: nat, k: nat, at: nat, n: nat, e: Entry, i: nat)
    requires Tiled(recs, bs, size) && Holds(file, recs) && k < |recs| && i < |recs| && i != k
    requires recs[k].at <= at && at + n <= recs[k].at + recs[k].len && n > 0
    ensures HoldsOne(Written(file, at, n, e), recs[i])
  {
    assert HoldsOne(file, recs[i]) && RecOk(recs[i], bs);
    WrittenKeeps(file, at, n, e, recs[i]);
  }

  lemma BlankedHolds(file: File, recs: seq<Rec>, bs: nat, size: nat, k: nat)
    requires Tiled(recs, bs, size) && Holds(file, recs) && k < |recs|
    ensures Holds(Written(file, recs[k].at, RealLen(""), Entry(recs[k].len, "", 0)), Blanked(recs, k))
  {
    var r := Blanked(recs, k);
    RecFits(recs, bs, size, k);
    hide Tiled, Holds, Written;
    forall i | 0 <= i < |r| ensures HoldsOne(Written(file, recs[k].at, RealLen(""), Entry(recs[k].len, "", 0)), r[i]) {
      if i != k {
        WrittenOthers(file, recs, bs, size, k, recs[k].at, RealLen(""), Entry(recs[k].len, "", 0), i);
      } else {
        WrittenHere(file, recs[k].at, RealLen(""), Entry(recs[k].len, "", 0));
      }
    }
    HoldsAll(Written(file, recs[k].at, RealLen(""), Entry(recs[k].len, "", 0)), r);
  }

  lemma HoldsAll(file: File, recs: seq<Rec>)
    requires forall i :: 0 <= i < |recs| ==> HoldsOne(file, recs[i])
    ensures Holds(file, recs)
  {
  }

  lemma WrittenHere(file: File, at: nat, n: nat, e: Entry)
    ensures at in Written(file, at, n, e) && Written(file, at, n, e)[at] == e
  {
  }

  lemma RecFits(recs: seq<Rec>, bs: nat, size: nat, k: nat)
    requires Tiled(recs, bs, size) && k < |recs|
    ensures RealLen("") == ENTRY_HEADER_LEN && RealLen(recs[k].name) <= recs[k].len
  {
    hide InOneBlock, Adjacent, Ordered;
    RoundedUp(recs[k]);
    assert RecOk(recs[k], bs);
  }

  lemma RoundedUp(r: Rec)
    ensures Aligned(r.len) && ENTRY_HEADER_LEN + |r.name| <= r.len ==> RealLen(r.name) <= r.len
  {
  }

  lemma MergedHolds(file: File, recs: seq<Rec>, bs: nat, size: nat, k: nat)
    requires Tiled(recs, bs, size) && Holds(file, recs) && 0 < k < |recs|
    ensures var p := recs[k - 1];
            Holds(Written(file, p.at, RealLen(p.name), Entry(p.len + recs[k].len, p.name, p.inode)), Merged(recs, k))
  {
    var r, p := Merged(recs, k), recs[k - 1];
    var e := Entry(p.len + recs[k].len, p.name, p.inode);
    var file' := Written(file, p.at, RealLen(p.name), e);
    MergedAt(recs, k);
    RecFits(recs, bs, size, k - 1);
    hide Tiled, Holds, Written, Merged, RealLen;
    forall i | 0 <= i < |r| ensures HoldsOne(file', r[i]) {
      if i != k - 1 {
        WrittenOthers(file, recs, bs, size, k - 1, p.at, RealLen(p.name), e, if i < k then i else i + 1);
      } else {
        WrittenHere(file, p.at, RealLen(p.name), e);
      }
    }
    HoldsAll(file', r);
  }

  lemma SplitHolds(file: File, recs: seq<Rec>, bs: nat, size: nat, k: nat, name: string, inode: nat)
    requires Tiled(recs, bs, size) && Holds(file, recs) && k < |recs|
    requires RealLen(recs[k].name) + ENTRY_HEADER_LEN + |name| <= recs[k].len
    ensures var p, needed := recs[k], RealLen(recs[k].name);
            var file' := Written(file, p.at, needed, Entry(needed, p.name, p.inode));
            Holds(Written(file', p.at + needed, ENTRY_HEADER_LEN + |name|, Entry(p.len - needed, name, inode)),
                Split(recs, k, name, inode))
  {
    hide Tiled, Holds, Written, HoldsOne, Split, RealLen;
    var r, p, needed, n := Split(recs, k, name, inode), recs[k], RealLen(recs[k].name), ENTRY_HEADER_LEN + |name|;
    var e, e' := Entry(needed, p.name, p.inode), Entry(p.len - needed, name, inode);
    var file' := Written(file, p.at, needed, e);
    var file'' := Written(file', p.at + needed, n, e');
    SplitAt(recs, k, name, inode);
    HoldsNew(file, needed, r[k]);
    HoldsNew(file', n, r[k + 1]);
    WrittenKeeps(file', p.at + needed, n, e', r[k]);
    forall j: nat | j < |recs| && j != k ensures HoldsOne(file'', recs[j]) {
      TwoWrites(file, recs, bs, size, k, needed, n, e, e', j);
    }
    forall i | 0 <= i < |r| ensures HoldsOne(file'', r[i]) {
      assert i < k ==> r[i] == recs[i];
      assert i > k + 1 ==> r[i] == recs[i - 1];
    }
    HoldsAll(file'', r);
  }

  lemma HoldsNew(file: File, n: nat, r: Rec)
    ensures HoldsOne(Written(file, r.at, n, EntryOf(r)), r)
  {
  }

  /** Two writes within record k, one after the other, leave record j. */
  lemma TwoWrites(file: File, recs: seq<Rec>, bs: nat, size: nat, k: nat, needed: nat, n: nat, e: Entry,
      e': Entry, j: nat)
    requires Tiled(recs, bs, size) && Holds(file, recs) && k < |recs| && j < |recs| && j != k
    requires 0 < needed && 0 < n && needed + n <= recs[k].len
    ensures HoldsOne(Written(Written(file, recs[k].at, needed, e), recs[k].at + needed, n, e'), recs[j])
  {
    hide Tiled, Holds, Written, HoldsOne;
    WrittenOthers(file, recs, bs, size, k, recs[k].at, needed, e, j);
    Elsewhere(recs, bs, size, k, j);
    WrittenKeeps(Written(file, recs[k].at, needed, e), recs[k].at + needed, n, e', recs[j]);
  }

  lemma Elsewhere(recs: seq<Rec>, bs: nat, size: nat, k: nat, j: nat)
    requires Tiled(recs, bs, size) && k < |recs| && j < |recs| && j != k
    ensures ENTRY_HEADER_LEN + |recs[j].name| <= recs[j].len
    ensures recs[j].at + recs[j].len <= recs[k].at || recs[k].at + recs[k].len <= recs[j].at
  {
    assert RecOk(recs[j], bs);
  }

  lemma ExtendedHolds(file: File, recs: seq<Rec>, bs: nat, size: nat, name: string, inode: nat)
    requires Tiled(recs, bs, size) && Holds(file, recs)
    ensures Holds(Written(file, size, ENTRY_HEADER_LEN + |name|, Entry(bs, name, inode)),
        Extended(recs, bs, size, name, inode))
  {
    var r, n, e := Extended(recs, bs, size, name, inode), ENTRY_HEADER_LEN + |name|, Entry(bs, name, inode);
    WrittenHere(file, size, n, e);
    forall i: nat | i < |recs| ensures HoldsOne(Written(file, size, n, e), recs[i]) {
      assert HoldsOne(file, recs[i]);
      Below(recs, bs, size, i);
      WrittenKeeps(file, size, n, e, recs[i]);
    }
    hide Tiled, Written, HoldsOne;
    assert HoldsOne(Written(file, size, n, e), r[|recs|]) by { NewHolds(file, size, n, bs, name, inode); }
    HoldsAll(Written(file, size, n, e), r);
  }

  lemma NewHolds(file: File, size: nat, n: nat, bs: nat, name: string, inode: nat)
    ensures HoldsOne(Written(file, size, n, Entry(bs, name, inode)), Rec(size, bs, name, inode))
  {
  }

  lemma Below(recs: seq<Rec>, bs: nat, size: nat, i: nat)
    requires Tiled(recs, bs, size) && i < |recs|
    ensures ENTRY_HEADER_LEN + |recs[i].name| <= recs[i].len && recs[i].at + recs[i].len <= size
  {
    assert RecOk(recs[i], bs);
    assert i < |recs| - 1 ==> recs[i].at + recs[i].len <= recs[|recs| - 1].at;
  }
}
