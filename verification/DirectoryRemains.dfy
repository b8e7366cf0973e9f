/**
 What removed records leave behind in a directory file, and what becomes of it
 when ext2_dir_add shrinks a record and then puts the new one elsewhere.
 */
module DirectoryRemains {
  import opened Arith
  import opened DirectoryRecords
  import opened DirectoryFile

  /** The file stands for a map of names: its records tile it and are the entries. */
  ghost predicate Refines(file: File, size: nat, bs: nat, entries: map<string, nat>) {
    exists recs :: Tiled(recs, bs, size) && Holds(file, recs) && Stands(recs, entries)
  }

  ghost predicate AtRecord(recs: seq<Rec>, a: nat) {
    exists i :: 0 <= i < |recs| && recs[i].at == a
  }

  /**
   A removed record e at a lies in the room record p does not need, and its name, if in use again,
   is in use no later.
   */
  ghost predicate Spare(recs: seq<Rec>, e: Entry, a: nat, p: int) {
    && 0 <= p < |recs| && Aligned(a) && e.name != ""
    && recs[p].at + RealLen(recs[p].name) <= a && a + ENTRY_HEADER_LEN + |e.name| <= recs[p].at + recs[p].len
    && (forall j :: p < j < |recs| ==> recs[j].name != e.name)
  }

  /** What the file has at a is a record or what a removed one left. */
  ghost predicate Explained(file: File, recs: seq<Rec>, a: nat) {
    a in file ==> AtRecord(recs, a) || exists p :: Spare(recs, file[a], a, p)
  }

  ghost predicate Remains(file: File, recs: seq<Rec>) {
    forall a: nat {:trigger Explained(file, recs, a)} :: Explained(file, recs, a)
  }

  // Every call keeps it so.

  lemma AlignedLeast(name: string, d: int)
    requires Aligned(d) && ENTRY_HEADER_LEN + |name| <= d
    ensures RealLen(name) <= d
  {
  }

  /** A name that some removed record had fits where it was, so that the first fit is not later. */
  lemma FitsAgain(recs: seq<Rec>, e: Entry, a: nat, p: int)
    requires Spare(recs, e, a, p)
    ensures Fits(recs[p], ENTRY_HEADER_LEN + |e.name|)
  {
  }

  lemma SplitSpare(recs: seq<Rec>, k: nat, name: string, inode: nat, e: Entry, a: nat, p: int)
    requires Spare(recs, e, a, p) && IsSlot(recs, ENTRY_HEADER_LEN + |name|, k) && k < |recs| && Aligned(recs[k].at)
    requires p == k ==> recs[k].at + RealLen(recs[k].name) + ENTRY_HEADER_LEN + |name| <= a
    ensures RealLen(recs[k].name) <= recs[k].len
    ensures Spare(Split(recs, k, name, inode), e, a, if p < k then p else p + 1)
  {
    hide Split, RealLen, Aligned;
    var r := Split(recs, k, name, inode);
    SplitAt(recs, k, name, inode);
    FitsAgain(recs, e, a, p);
    if p == k {
      AlignedParts(a, recs[k].at);
      AlignedParts(a - recs[k].at, RealLen(recs[k].name));
      AlignedLeast(name, a - recs[k].at - RealLen(recs[k].name));
    }
    var q := if p < k then p else p + 1;
    forall j | q < j < |r| ensures r[j].name != e.name {
      assert j > k + 1 ==> r[j] == recs[j - 1];
      assert j < k ==> r[j] == recs[j];
    }
  }

  lemma MergedSpare(recs: seq<Rec>, k: nat, e: Entry, a: nat, p: int)
    requires Spare(recs, e, a, p) && 0 < k < |recs|
    requires recs[k - 1].at + recs[k - 1].len == recs[k].at && RealLen(recs[k - 1].name) <= recs[k - 1].len
    ensures Spare(Merged(recs, k), e, a, if p < k then p else p - 1)
  {
    hide Merged, RealLen, Aligned;
    var r := Merged(recs, k);
    MergedAt(recs, k);
    var q := if p < k then p else p - 1;
    forall j | q < j < |r| ensures r[j].name != e.name {
      assert j >= k ==> r[j] == recs[j + 1];
      assert j < k - 1 ==> r[j] == recs[j];
    }
  }

  /** The removed record itself is in the room of the one it joined. */
  lemma MergedAway(recs: seq<Rec>, entries: map<string, nat>, k: nat)
    requires Stands(recs, entries) && 0 < k < |recs| && recs[k].name != "" && Aligned(recs[k].at)
    requires recs[k - 1].at + recs[k - 1].len == recs[k].at && RealLen(recs[k - 1].name) <= recs[k - 1].len
    requires ENTRY_HEADER_LEN + |recs[k].name| <= recs[k].len
    ensures Spare(Merged(recs, k), EntryOf(recs[k]), recs[k].at, k - 1)
  {
    hide Merged, RealLen, Aligned;
    var r := Merged(recs, k);
    MergedAt(recs, k);
    forall j | k - 1 < j < |r| ensures r[j].name != recs[k].name {
      assert r[j] == recs[j + 1];
    }
  }

  lemma BlankedSpare(recs: seq<Rec>, k: nat, e: Entry, a: nat, p: int)
    requires Spare(recs, e, a, p) && k < |recs|
    ensures Spare(Blanked(recs, k), e, a, p)
  {
    EmptyNeedsLeast(recs[k].name);
    hide RealLen, Aligned;
  }

  lemma EmptyNeedsLeast(name: string)
    ensures RealLen("") <= RealLen(name)
  {
  }

  /** What a write leaves is its own record and what it does not overlap. */
  lemma WrittenSurvives(file: File, at: nat, n: nat, e: Entry, a: nat)
    requires a in Written(file, at, n, e) && a != at
    ensures a in file && Written(file, at, n, e)[a] == file[a]
    ensures a + ENTRY_HEADER_LEN + |file[a].name| <= at || at + n <= a
  {
  }

  lemma SplitRemains(file: File, recs: seq<Rec>, bs: nat, size: nat, k: nat, name: string, inode: nat)
    requires Tiled(recs, bs, size) && Remains(file, recs) && k < |recs| && IsSlot(recs, ENTRY_HEADER_LEN + |name|, k)
    ensures RealLen(recs[k].name) <= recs[k].len
    ensures var p, needed := recs[k], RealLen(recs[k].name);
            var file' := Written(file, p.at, needed, Entry(needed, p.name, p.inode));
            Remains(Written(file', p.at + needed, ENTRY_HEADER_LEN + |name|, Entry(p.len - needed, name, inode)),
                Split(recs, k, name, inode))
  {
    hide Split, RealLen, Aligned, Written;
    var r, p, needed, n := Split(recs, k, name, inode), recs[k], RealLen(recs[k].name), ENTRY_HEADER_LEN + |name|;
    var e, e' := Entry(needed, p.name, p.inode), Entry(p.len - needed, name, inode);
    var file' := Written(file, p.at, needed, e);
    var file'' := Written(file', p.at + needed, n, e');
    assert RecOk(p, bs);
    SplitAt(recs, k, name, inode);
    forall a: nat ensures Explained(file'', r, a) {
      if a in file'' {
        if a == p.at + needed {
          assert r[k + 1].at == a;
        } else if a == p.at {
          assert r[k].at == a;
        } else {
          WrittenSurvives(file', p.at + needed, n, e', a);
          WrittenSurvives(file, p.at, needed, e, a);
          assert Explained(file, recs, a);
          SplitExplained(recs, k, name, inode, file[a], a);
        }
      }
    }
  }

  lemma SplitExplained(recs: seq<Rec>, k: nat, name: string, inode: nat, e: Entry, a: nat)
    requires AtRecord(recs, a) || exists p :: Spare(recs, e, a, p)
    requires IsSlot(recs, ENTRY_HEADER_LEN + |name|, k) && k < |recs| && Aligned(recs[k].at)
    requires var place := recs[k].at + RealLen(recs[k].name);
             a + ENTRY_HEADER_LEN + |e.name| <= place || place + ENTRY_HEADER_LEN + |name| <= a
    ensures RealLen(recs[k].name) <= recs[k].len
    ensures var r := Split(recs, k, name, inode); AtRecord(r, a) || exists p :: Spare(r, e, a, p)
  {
    hide Split, RealLen, Aligned;
    var r := Split(recs, k, name, inode);
    SplitAt(recs, k, name, inode);
    if AtRecord(recs, a) {
      var i :| 0 <= i < |recs| && recs[i].at == a;
      assert r[if i <= k then i else i + 1].at == a;
    } else {
      var p :| Spare(recs, e, a, p);
      SplitSpare(recs, k, name, inode, e, a, p);
    }
  }

  lemma ExtendedRemains(file: File, recs: seq<Rec>, bs: nat, size: nat, name: string, inode: nat)
    requires Remains(file, recs) && IsSlot(recs, ENTRY_HEADER_LEN + |name|, |recs|)
    ensures Remains(Written(file, size, ENTRY_HEADER_LEN + |name|, Entry(bs, name, inode)),
        Extended(recs, bs, size, name, inode))
  {
    hide RealLen, Aligned, Written;
    var r, n, e := Extended(recs, bs, size, name, inode), ENTRY_HEADER_LEN + |name|, Entry(bs, name, inode);
    var file' := Written(file, size, n, e);
    forall a: nat ensures Explained(file', r, a) {
      if a in file' {
        if a == size {
          assert r[|recs|].at == a;
        } else {
          WrittenSurvives(file, size, n, e, a);
          assert Explained(file, recs, a);
          if AtRecord(recs, a) {
            var i :| 0 <= i < |recs| && recs[i].at == a;
            assert r[i].at == a;
          } else {
            var p :| Spare(recs, file[a], a, p);
            FitsAgain(recs, file[a], a, p);
            assert Spare(r, file[a], a, p);
          }
        }
      }
    }
  }

  lemma MergedRemains(file: File, recs: seq<Rec>, entries: map<string, nat>, bs: nat, size: nat, k: nat)
    requires Tiled(recs, bs, size) && Holds(file, recs) && Stands(recs, entries) && Remains(file, recs)
    requires 0 < k < |recs| && recs[k].name != ""
    ensures var p := recs[k - 1];
            Remains(Written(file, p.at, RealLen(p.name), Entry(p.len + recs[k].len, p.name, p.inode)), Merged(recs, k))
  {
    var r, p := Merged(recs, k), recs[k - 1];
    var e := Entry(p.len + recs[k].len, p.name, p.inode);
    var file' := Written(file, p.at, RealLen(p.name), e);
    assert RecOk(recs[k], bs) && HoldsOne(file, recs[k]);
    RecFits(recs, bs, size, k - 1);
    Walk(recs, bs, size, k - 1);
    hide Merged, RealLen, Aligned, Written, Tiled, Stands, Holds;
    MergedAt(recs, k);
    MergedAway(recs, entries, k);
    forall a: nat ensures Explained(file', r, a) {
      if a in file' {
        if a == p.at {
          assert r[k - 1].at == a;
        } else {
          WrittenSurvives(file, p.at, RealLen(p.name), e, a);
          assert Explained(file, recs, a);
          if AtRecord(recs, a) {
            var i :| 0 <= i < |recs| && recs[i].at == a;
            if i != k {
              assert r[if i < k then i else i - 1].at == a;
            }
          } else {
            var q :| Spare(recs, file[a], a, q);
            MergedSpare(recs, k, file[a], a, q);
          }
        }
      }
    }
  }

  lemma BlankedRemains(file: File, recs: seq<Rec>, k: nat)
    requires Remains(file, recs) && k < |recs|
    ensures Remains(Written(file, recs[k].at, RealLen(""), Entry(recs[k].len, "", 0)), Blanked(recs, k))
  {
    hide RealLen, Aligned, Written;
    var r, e := Blanked(recs, k), Entry(recs[k].len, "", 0);
    var file' := Written(file, recs[k].at, RealLen(""), e);
    forall a: nat ensures Explained(file', r, a) {
      if a in file' {
        if a == recs[k].at {
          assert r[k].at == a;
        } else {
          WrittenSurvives(file, recs[k].at, RealLen(""), e, a);
          assert Explained(file, recs, a);
          if AtRecord(recs, a) {
            var i :| 0 <= i < |recs| && recs[i].at == a;
            assert r[i].at == a;
          } else {
            var q :| Spare(recs, file[a], a, q);
            BlankedSpare(recs, k, file[a], a, q);
          }
        }
      }
    }
  }

  // What can be read from a file.

  /** Whatever tiles a file starts with the records known to be in it. */
  lemma {:induction false} SamePrefix(file: File, bs: nat, recs: seq<Rec>, size: nat, recs': seq<Rec>,
      size': nat, i: nat)
    requires Tiled(recs, bs, size) && Tiled(recs', bs, size') && size <= size' && Holds(file, recs')
    requires i < |recs| && forall j :: 0 <= j < i ==> HoldsOne(file, recs[j])
    ensures i < |recs'| && recs'[i].at == recs[i].at
    ensures forall j :: 0 <= j < i ==> recs'[j] == recs[j]
  {
    hide Tiled, Holds, HoldsOne;
    if i == 0 {
      Start(recs, bs, size);
      Start(recs', bs, size');
    } else {
      SamePrefix(file, bs, recs, size, recs', size', i - 1);
      SameRecord(file, recs[i - 1], recs'[i - 1], recs', i - 1);
      Walk(recs, bs, size, i - 1);
      Walk(recs, bs, size, i);
      Walk(recs', bs, size', i - 1);
    }
  }

  lemma SameRecord(file: File, r: Rec, r': Rec, recs': seq<Rec>, i: nat)
    requires HoldsOne(file, r) && Holds(file, recs') && i < |recs'| && recs'[i] == r' && r.at == r'.at
    ensures r == r'
  {
    assert HoldsOne(file, recs'[i]);
  }

  /** A file of a given size has at most one tiling. */
  lemma OneTiling(file: File, bs: nat, size: nat, recs: seq<Rec>, recs': seq<Rec>)
    requires Tiled(recs, bs, size) && Tiled(recs', bs, size) && Holds(file, recs) && Holds(file, recs')
    ensures recs == recs'
  {
    Start(recs, bs, size);
    Start(recs', bs, size);
    if recs != [] {
      var last := |recs| - 1;
      SamePrefix(file, bs, recs, size, recs', size, last);
      SameRecord(file, recs[last], recs'[last], recs', last);
      Walk(recs, bs, size, last);
      Walk(recs', bs, size, last);
      Walk(recs', bs, size, last + 1);
    }
  }

  /** Records lie within blocks, so every block starts with one. */
  lemma {:induction false} BlockStart(recs: seq<Rec>, bs: nat, size: nat, b: nat, i: nat) returns (j: nat)
    requires Tiled(recs, bs, size) && b % bs == 0 && b < size && i < |recs| && recs[i].at <= b
    ensures j < |recs| && recs[j].at == b
    decreases |recs| - i
  {
    Walk(recs, bs, size, i);
    assert RecOk(recs[i], bs);
    if recs[i].at == b {
      j := i;
    } else if recs[i].at + recs[i].len <= b {
      j := BlockStart(recs, bs, size, b, i + 1);
    } else {
      NotInside(recs[i].at, recs[i].len, b, bs);
      assert false;
    }
  }

  lemma NotInside(at: nat, len: nat, b: nat, bs: nat)
    requires InOneBlock(at, len, bs) && b % bs == 0 && at < b
    ensures at + len <= b
  {
    if b < at + len {
      ModAdd(at, b - at, bs);
    }
  }

  // A record moved to the next block.

  /** A record that fits and is moved all the same ends with the block, and goes to where the block ends. */
  lemma MovedTo(recs: seq<Rec>, bs: nat, size: nat, k: nat, name: string)
    requires Tiled(recs, bs, size) && k < |recs| && Fits(recs[k], ENTRY_HEADER_LEN + |name|)
    requires Misplaced(recs, bs, ENTRY_HEADER_LEN + |name|, k)
    ensures var p, gap := recs[k], recs[k].at + RealLen(recs[k].name);
            && PlaceOf(gap, name, bs) == p.at + p.len == gap + ENTRY_HEADER_LEN + |name| <= size
            && (p.at + p.len) % bs == 0
  {
    hide RealLen, Aligned;
    var p, needed, n := recs[k], RealLen(recs[k].name), ENTRY_HEADER_LEN + |name|;
    assert RecOk(p, bs);
    Below(recs, bs, size, k);
    EndOfBlock(p.at, p.len, needed, n, bs);
  }

  lemma EndOfBlock(at: nat, len: nat, needed: nat, n: nat, bs: nat)
    requires InOneBlock(at, len, bs) && needed + n <= len && n > 0 && (at + needed) % bs + n >= bs
    ensures bs * (1 + (at + needed) / bs) == at + len == at + needed + n && (at + len) % bs == 0
  {
    ModAdd(at, needed, bs);
    ModAdd(at, len, bs);
    Divides(at + needed, bs);
    var q := (at + needed) / bs;
    MulSucc(q, bs);
  }

  /** The offset behind the shrunk record is no record's. */
  lemma GapIsNoRecord(recs: seq<Rec>, bs: nat, size: nat, k: nat)
    requires Tiled(recs, bs, size) && k < |recs| && RealLen(recs[k].name) < recs[k].len
    ensures !AtRecord(recs, recs[k].at + RealLen(recs[k].name))
  {
    hide RealLen;
    var gap := recs[k].at + RealLen(recs[k].name);
    forall i | 0 <= i < |recs| ensures recs[i].at != gap {
      assert RecOk(recs[i], bs) && RecOk(recs[k], bs);
      assert i < k ==> recs[i].at + recs[i].len <= recs[k].at;
      assert i > k ==> recs[k].at + recs[k].len <= recs[i].at;
    }
  }

  /**
   However the file left by a misplaced addition is read, the reader comes upon
   the offset behind the shrunk record, which is neither a record's nor the new
   one's: what it finds there is what a removed record left.
   */
  lemma MisplacedReads(file: File, recs: seq<Rec>, bs: nat, size: nat, k: nat, name: string, inode: nat,
      recs': seq<Rec>, size': nat)
    requires Tiled(recs, bs, size) && Holds(file, recs) && k < |recs| && Fits(recs[k], ENTRY_HEADER_LEN + |name|)
    requires Misplaced(recs, bs, ENTRY_HEADER_LEN + |name|, k)
    requires Tiled(recs', bs, size') && size <= size' && Holds(SlotFile(file, recs[k], bs, name, inode), recs')
    ensures var gap := recs[k].at + RealLen(recs[k].name);
            && k + 1 < |recs'| && recs'[k + 1].at == gap && !AtRecord(recs, gap) && gap != PlaceOf(gap, name, bs)
            && recs'[k] == recs[k].(len := RealLen(recs[k].name)) && (forall j :: 0 <= j < k ==> recs'[j] == recs[j])
            && gap in file && file[gap] == EntryOf(recs'[k + 1])
  {
    hide Tiled, Holds, HoldsOne, Written, RealLen, PlaceOf, Aligned;
    var p, needed, n := recs[k], RealLen(recs[k].name), ENTRY_HEADER_LEN + |name|;
    var gap, place := p.at + needed, PlaceOf(p.at + needed, name, bs);
    var e, e' := Entry(needed, p.name, p.inode), Entry(bs, name, inode);
    var file1 := Written(file, p.at, needed, e);
    var file2 := SlotFile(file, p, bs, name, inode);
    MovedTo(recs, bs, size, k, name);
    GapIsNoRecord(recs, bs, size, k);
    Below(recs, bs, size, k);
    assert file2 == Written(file1, place, n, e');
    var shrunk := p.(len := needed);
    HoldsNew(file, needed, shrunk);
    WrittenKeeps(file1, place, n, e', shrunk);
    forall j | 0 <= j < k ensures HoldsOne(file2, recs[j]) {
      WrittenOthers(file, recs, bs, size, k, p.at, needed, e, j);
      Elsewhere(recs, bs, size, k, j);
      Before(recs, bs, size, j, k);
      WrittenKeeps(file1, place, n, e', recs[j]);
    }
    SamePrefix(file2, bs, recs, size, recs', size', k);
    SameRecord(file2, shrunk, recs'[k], recs', k);
    Walk(recs', bs, size', k);
    assert HoldsOne(file2, recs'[k + 1]) by { HoldsAt(file2, recs', k + 1); }
    ReadsOld(file, p.at, needed, e, place, n, e', recs'[k + 1]);
  }

  lemma HoldsAt(file: File, recs: seq<Rec>, i: nat)
    requires Holds(file, recs) && i < |recs|
    ensures HoldsOne(file, recs[i])
  {
  }

  lemma Before(recs: seq<Rec>, bs: nat, size: nat, j: nat, k: nat)
    requires Tiled(recs, bs, size) && j < k < |recs|
    ensures recs[j].at + recs[j].len <= recs[k].at
  {
  }

  lemma ReadsOld(file: File, at: nat, n: nat, e: Entry, at': nat, n': nat, e': Entry, r: Rec)
    requires HoldsOne(Written(Written(file, at, n, e), at', n', e'), r) && r.at != at && r.at != at'
    ensures HoldsOne(file, r)
  {
    WrittenSurvives(Written(file, at, n, e), at', n', e', r.at);
    WrittenSurvives(file, at, n, e, r.at);
  }

  /** So the file does not stand for the map with the new name: a removed name is back, or a name is there twice. */
  lemma MisplacedBreaks(file: File, recs: seq<Rec>, entries: map<string, nat>, bs: nat, size: nat, k: nat,
      name: string, inode: nat, size': nat)
    requires Tiled(recs, bs, size) && Holds(file, recs) && Stands(recs, entries) && Remains(file, recs)
    requires k < |recs| && Fits(recs[k], ENTRY_HEADER_LEN + |name|) && Misplaced(recs, bs, ENTRY_HEADER_LEN + |name|, k)
    requires size <= size' && recs[k].at + recs[k].len < size' && name != ""
    ensures !Refines(SlotFile(file, recs[k], bs, name, inode), size', bs, entries[name := inode])
  {
    var file' := SlotFile(file, recs[k], bs, name, inode);
    forall recs' | Tiled(recs', bs, size') && Holds(file', recs') ensures !Stands(recs', entries[name := inode]) {
      MisplacedNames(file, recs, entries, bs, size, k, name, inode, recs', size');
    }
  }

  lemma MisplacedNames(file: File, recs: seq<Rec>, entries: map<string, nat>, bs: nat, size: nat, k: nat,
      name: string, inode: nat, recs': seq<Rec>, size': nat)
    requires Tiled(recs, bs, size) && Holds(file, recs) && Stands(recs, entries) && Remains(file, recs)
    requires k < |recs| && Fits(recs[k], ENTRY_HEADER_LEN + |name|) && Misplaced(recs, bs, ENTRY_HEADER_LEN + |name|, k)
    requires size <= size' && recs[k].at + recs[k].len < size' && name != ""
    requires Tiled(recs', bs, size') && Holds(SlotFile(file, recs[k], bs, name, inode), recs')
    ensures !Stands(recs', entries[name := inode])
  {
    hide Tiled, Holds, RealLen, PlaceOf, Aligned, Written;
    var p, gap := recs[k], recs[k].at + RealLen(recs[k].name);
    MisplacedReads(file, recs, bs, size, k, name, inode, recs', size');
    MovedTo(recs, bs, size, k, name);
    var j := BlockStart(recs', bs, size', p.at + p.len, k + 1);
    HoldsAt(SlotFile(file, p, bs, name, inode), recs', j);
    NewRead(file, p, bs, name, inode, recs'[j]);
    assert Explained(file, recs, gap);
    var q :| Spare(recs, file[gap], gap, q);
    Later(recs, bs, size, k, q);
    var was := recs'[k + 1].name;
    if was == name {
      Twice(recs', k + 1, j, entries[name := inode]);
    } else if was in entries {
      assert HasName(recs, was);
      var i :| 0 <= i < |recs| && recs[i].name == was;
      Twice(recs', i, k + 1, entries[name := inode]);
    }
  }

  /** The room behind record k starts no later than the record after it. */
  lemma Later(recs: seq<Rec>, bs: nat, size: nat, k: nat, q: nat)
    requires Tiled(recs, bs, size) && k < |recs| && q < |recs|
    requires recs[q].at <= recs[k].at + RealLen(recs[k].name) < recs[k].at + recs[k].len
    ensures q <= k
  {
    if q > k {
      Before(recs, bs, size, k, q);
    }
  }

  lemma NewRead(file: File, p: Rec, bs: nat, name: string, inode: nat, r: Rec)
    requires bs > 0 && RealLen(p.name) <= p.len && r.at == PlaceOf(p.at + RealLen(p.name), name, bs)
    requires HoldsOne(SlotFile(file, p, bs, name, inode), r)
    ensures r.name == name
  {
  }

  /** A name that is there twice stands for no map. */
  lemma Twice(recs: seq<Rec>, i: nat, j: nat, entries: map<string, nat>)
    requires i < |recs| && j < |recs| && i != j && recs[i].name == recs[j].name != ""
    ensures !Stands(recs, entries)
  {
  }

  /** So a file that has a name twice stands for none. */
  lemma TwiceRefines(file: File, size: nat, bs: nat, recs: seq<Rec>, i: nat, j: nat)
    requires Tiled(recs, bs, size) && Holds(file, recs)
    requires i < |recs| && j < |recs| && i != j && recs[i].name == recs[j].name != ""
    ensures forall entries {:trigger Refines(file, size, bs, entries)} :: !Refines(file, size, bs, entries)
  {
    forall entries ensures !Refines(file, size, bs, entries) {
      forall recs' | Tiled(recs', bs, size) && Holds(file, recs') ensures !Stands(recs', entries) {
        OneTiling(file, bs, size, recs, recs');
        Twice(recs, i, j, entries);
      }
    }
  }

  /**
   An addition into spare room makes the file stand for the map with the name exactly when the name
   is new and the record stays where it fits.
   */
  lemma SlotOutcome(file: File, recs: seq<Rec>, entries: map<string, nat>, bs: nat, size: nat, k: nat,
      name: string, inode: nat, file': File, size': nat)
    requires Tiled(recs, bs, size) && Holds(file, recs) && Stands(recs, entries) && Remains(file, recs)
    requires k < |recs| && Fits(recs[k], ENTRY_HEADER_LEN + |name|) && name != ""
    requires Misplaced(recs, bs, ENTRY_HEADER_LEN + |name|, k) ==>
      file' == SlotFile(file, recs[k], bs, name, inode) && size <= size' && recs[k].at + recs[k].len < size'
    requires !Misplaced(recs, bs, ENTRY_HEADER_LEN + |name|, k) ==>
      Tiled(Split(recs, k, name, inode), bs, size') && Holds(file', Split(recs, k, name, inode))
    ensures Refines(file', size', bs, entries[name := inode]) <==>
      name !in entries && !Misplaced(recs, bs, ENTRY_HEADER_LEN + |name|, k)
    ensures name in entries && !Misplaced(recs, bs, ENTRY_HEADER_LEN + |name|, k) ==>
      forall m {:trigger Refines(file', size', bs, m)} :: !Refines(file', size', bs, m)
  {
    hide Tiled, Holds, Remains, RealLen, Misplaced;
    if Misplaced(recs, bs, ENTRY_HEADER_LEN + |name|, k) {
      MisplacedBreaks(file, recs, entries, bs, size, k, name, inode, size');
    } else if name in entries {
      assert HasName(recs, name);
      var i :| 0 <= i < |recs| && recs[i].name == name;
      SplitAt(recs, k, name, inode);
      TwiceRefines(file', size', bs, Split(recs, k, name, inode), if i <= k then i else i + 1, k + 1);
    } else {
      SplitStands(recs, entries, k, name, inode);
    }
  }

  lemma EndOutcome(file: File, recs: seq<Rec>, entries: map<string, nat>, bs: nat, size: nat, name: string,
      inode: nat, file': File, size': nat)
    requires Stands(recs, entries) && name != ""
    requires Tiled(Extended(recs, bs, size, name, inode), bs, size') &&
        Holds(file', Extended(recs, bs, size, name, inode))
    ensures Refines(file', size', bs, entries[name := inode]) <==> name !in entries
    ensures name in entries ==> forall m {:trigger Refines(file', size', bs, m)} :: !Refines(file', size', bs, m)
  {
    hide Tiled, Holds;
    if name in entries {
      assert HasName(recs, name);
      var i :| 0 <= i < |recs| && recs[i].name == name;
      TwiceRefines(file', size', bs, Extended(recs, bs, size, name, inode), i, |recs|);
    } else {
      ExtendedStands(recs, entries, bs, size, name, inode);
    }
  }

  // The failure at an input.

  /** Three names of 256 letters and one of 200. */
  ghost predicate LongNames(a: string, b: string, c: string, d: string) {
    |a| == |b| == |c| == 256 && |d| == 200 && a != b && a != c && b != c
  }

  /** A block filled by those names, but for the last record, which has exactly the room for a name of four letters. */
  function FullBlock(a: string, b: string, c: string, d: string): seq<Rec> {
    [Rec(0, 264, a, 11), Rec(264, 264, b, 12), Rec(528, 264, c, 13), Rec(792, 208, d, 14), Rec(1000, 24, "e", 15)]
  }

  function FullEntries(a: string, b: string, c: string, d: string): map<string, nat> {
    map[][a := 11][b := 12][c := 13][d := 14]["e" := 15]
  }

  function FullFile(a: string, b: string, c: string, d: string): File {
    map[0 := Entry(264, a, 11), 264 := Entry(264, b, 12), 528 := Entry(264, c, 13), 792 := Entry(208, d, 14),
        1000 := Entry(24, "e", 15)]
  }

  lemma FullTiled(a: string, b: string, c: string, d: string)
    requires LongNames(a, b, c, d)
    ensures Tiled(FullBlock(a, b, c, d), 1024, 1024)
  {
  }

  lemma FullStands(a: string, b: string, c: string, d: string)
    requires LongNames(a, b, c, d)
    ensures Stands(FullBlock(a, b, c, d), FullEntries(a, b, c, d))
  {
    hide Stands;
    NothingTiled(1024);
    var r1 := [Rec(0, 264, a, 11)];
    var r2 := r1 + [Rec(264, 264, b, 12)];
    var r3 := r2 + [Rec(528, 264, c, 13)];
    var r4 := r3 + [Rec(792, 208, d, 14)];
    ExtendedStands([], map[], 264, 0, a, 11);
    assert r1 == Extended([], 264, 0, a, 11);
    ExtendedStands(r1, map[][a := 11], 264, 264, b, 12);
    ExtendedStands(r2, map[][a := 11][b := 12], 264, 528, c, 13);
    ExtendedStands(r3, map[][a := 11][b := 12][c := 13], 208, 792, d, 14);
    ExtendedStands(r4, map[][a := 11][b := 12][c := 13][d := 14], 24, 1000, "e", 15);
    assert FullBlock(a, b, c, d) == Extended(r4, 24, 1000, "e", 15);
  }

  lemma FullHolds(a: string, b: string, c: string, d: string, file: File)
    requires file == FullFile(a, b, c, d) || file == FullFile(a, b, c, d)[1012 := Entry(12, "b", 16)]
    ensures Holds(file, FullBlock(a, b, c, d))
  {
  }

  lemma FullRemains(a: string, b: string, c: string, d: string, file: File)
    requires LongNames(a, b, c, d)
    requires file == FullFile(a, b, c, d) || file == FullFile(a, b, c, d)[1012 := Entry(12, "b", 16)]
    ensures Remains(file, FullBlock(a, b, c, d))
  {
    var r := FullBlock(a, b, c, d);
    assert r[0].at == 0 && r[1].at == 264 && r[2].at == 528 && r[3].at == 792 && r[4].at == 1000;
    assert RealLen("e") == 12 && Aligned(1012);
    assert Spare(r, Entry(12, "b", 16), 1012, 4);
  }

  lemma FullMisplaced(a: string, b: string, c: string, d: string)
    requires LongNames(a, b, c, d)
    ensures IsSlot(FullBlock(a, b, c, d), 12, 4) && Misplaced(FullBlock(a, b, c, d), 1024, 12, 4)
  {
    assert RealLen("e") == 12;
  }

  lemma SomeNames() returns (a: string, b: string, c: string, d: string)
    ensures LongNames(a, b, c, d)
  {
    a, b, c, d := seq(256, i => 'a'), seq(256, i => 'b'), seq(256, i => 'c'), seq(200, i => 'd');
    assert a[0] != b[0] && a[0] != c[0] && b[0] != c[0];
  }

  /**
   Such names exist, and adding "wxyz" to the block they fill leaves a file that does not stand for
   the map with it.
   */
  lemma MisplacedExample() returns (a: string, b: string, c: string, d: string)
    ensures LongNames(a, b, c, d)
    ensures var recs, entries, file := FullBlock(a, b, c, d), FullEntries(a, b, c, d), FullFile(a, b, c, d);
            && Tiled(recs, 1024, 1024) && Stands(recs, entries) && Holds(file, recs) && "wxyz" !in entries
            && !Refines(SlotFile(file, recs[4], 1024, "wxyz", 17), 2048, 1024, entries["wxyz" := 17])
  {
    hide Tiled, Stands, Holds, Remains, Refines, SlotFile, Misplaced, FullFile;
    a, b, c, d := SomeNames();
    var recs, entries, file := FullBlock(a, b, c, d), FullEntries(a, b, c, d), FullFile(a, b, c, d);
    FullTiled(a, b, c, d);
    FullStands(a, b, c, d);
    FullHolds(a, b, c, d, file);
    FullRemains(a, b, c, d, file);
    FullMisplaced(a, b, c, d);
    MisplacedBreaks(file, recs, entries, 1024, 1024, 4, "wxyz", 17, 2048);
  }

  /**
   A longer name with a stored one as its prefix is no entry, gets a record of its own at the end,
   and leaves no map.
   */
  lemma PrefixExample(a: string, b: string, c: string, d: string)
    requires LongNames(a, b, c, d)
    ensures a + "x" !in FullEntries(a, b, c, d) && Stored(a + "x") == a &&
        IsSlot(FullBlock(a, b, c, d), ENTRY_HEADER_LEN + |a|, 5)
    ensures forall m {:trigger Refines(Written(FullFile(a, b, c, d), 1024, 264, Entry(1024, a, 18)), 2048, 1024, m)} ::
              !Refines(Written(FullFile(a, b, c, d), 1024, 264, Entry(1024, a, 18)), 2048, 1024, m)
  {
    assert |a + "x"| == 257 && Stored(a + "x") == a;
    var recs, entries, file := FullBlock(a, b, c, d), FullEntries(a, b, c, d), FullFile(a, b, c, d);
    hide Tiled, Stands, Holds, Refines, Written, FullFile;
    FullTiled(a, b, c, d);
    FullStands(a, b, c, d);
    FullHolds(a, b, c, d, file);
    ExtendedTiled(recs, 1024, 1024, a, 18);
    ExtendedHolds(file, recs, 1024, 1024, a, 18);
    EndOutcome(file, recs, entries, 1024, 1024, a, 18, Written(file, 1024, 264, Entry(1024, a, 18)), 2048);
  }

  /** Nothing else in the file overlaps n bytes at an offset. */
  ghost predicate Clear(file: File, at: nat, n: nat) {
    forall x :: x in file && x != at ==> x + ENTRY_HEADER_LEN + |file[x].name| <= at || at + n <= x
  }

  lemma WrittenClear(file: File, at: nat, n: nat, e: Entry)
    requires Clear(file, at, n)
    ensures Written(file, at, n, e) == file[at := e]
  {
  }

  lemma FullClear(a: string, b: string, c: string, d: string, file: File, len: nat, file': File)
    requires LongNames(a, b, c, d)
    requires file == FullFile(a, b, c, d)[1000 := Entry(len, "e", 15)] && file' == file[1012 := Entry(12, "b", 16)]
    ensures Clear(file, 1000, 12) && Clear(file, 1012, 9) && Clear(file', 1000, 12) && Clear(file', 1024, 12)
  {
  }

  lemma FullPlaces()
    ensures RealLen("e") == 12 && PlaceOf(1012, "b", 1024) == 1012 && PlaceOf(1012, "wxyz", 1024) == 1024
  {
  }

  /** What ext2_dir_add of "b" and then ext2_dir_remove of it write into that block. */
  lemma AddedAndRemoved(a: string, b: string, c: string, d: string)
    requires LongNames(a, b, c, d)
    ensures RealLen("e") == 12
    ensures Written(SlotFile(FullFile(a, b, c, d), FullBlock(a, b, c, d)[4], 1024, "b", 16), 1000, 12,
        Entry(24, "e", 15)) ==
            FullFile(a, b, c, d)[1012 := Entry(12, "b", 16)]
  {
    hide Written, RealLen, PlaceOf, Clear, FullFile;
    FullPlaces();
    var f := FullFile(a, b, c, d);
    var f1 := f[1000 := Entry(12, "e", 15)];
    var f2 := f1[1012 := Entry(12, "b", 16)];
    FullAt(a, b, c, d);
    FullClear(a, b, c, d, f, 24, f[1012 := Entry(12, "b", 16)]);
    FullClear(a, b, c, d, f1, 12, f2);
    WrittenClear(f, 1000, 12, Entry(12, "e", 15));
    WrittenClear(f1, 1012, 9, Entry(12, "b", 16));
    WrittenClear(f2, 1000, 12, Entry(24, "e", 15));
    assert f2[1000 := Entry(24, "e", 15)] == f[1012 := Entry(12, "b", 16)];
  }

  lemma FullAt(a: string, b: string, c: string, d: string)
    ensures FullFile(a, b, c, d)[1000 := Entry(24, "e", 15)] == FullFile(a, b, c, d)
    ensures 1000 in FullFile(a, b, c, d) && FullFile(a, b, c, d)[1000] == Entry(24, "e", 15)
  {
  }

  /** Adding "wxyz" after that brings "b" back, with the inode it had. */
  lemma RevivedExample(a: string, b: string, c: string, d: string)
    requires LongNames(a, b, c, d)
    ensures "b" !in FullEntries(a, b, c, d) && RealLen("e") == 12
    ensures Refines(SlotFile(FullFile(a, b, c, d)[1012 := Entry(12, "b", 16)], FullBlock(a, b, c, d)[4], 1024, "wxyz", 17),
                    2048, 1024, FullEntries(a, b, c, d)["b" := 16]["wxyz" := 17])
  {
    assert RealLen("e") == 12 && "e"[0] != "b"[0];
    hide Tiled, Stands, Holds, SlotFile;
    RevivedTiled(a, b, c, d);
    RevivedStands(a, b, c, d);
    RevivedHolds(a, b, c, d);
  }

  ghost function Revived(a: string, b: string, c: string, d: string): seq<Rec> {
    FullBlock(a, b, c, d)[4 := Rec(1000, 12, "e", 15)] + [Rec(1012, 12, "b", 16)] + [Rec(1024, 1024, "wxyz", 17)]
  }

  lemma RevivedHolds(a: string, b: string, c: string, d: string)
    requires LongNames(a, b, c, d)
    ensures RealLen("e") == 12
    ensures Holds(SlotFile(FullFile(a, b, c, d)[1012 := Entry(12, "b", 16)], FullBlock(a, b, c, d)[4], 1024,
        "wxyz", 17), Revived(a, b, c, d))
  {
    hide Written, RealLen, PlaceOf, Clear, FullFile, Holds;
    FullPlaces();
    RevivedPlain(a, b, c, d);
    var f := FullFile(a, b, c, d)[1012 := Entry(12, "b", 16)];
    var f1 := FullFile(a, b, c, d)[1000 := Entry(12, "e", 15)][1012 := Entry(12, "b", 16)];
    FullAt(a, b, c, d);
    FullClear(a, b, c, d, FullFile(a, b, c, d), 24, f);
    FullClear(a, b, c, d, FullFile(a, b, c, d)[1000 := Entry(12, "e", 15)], 12, f1);
    WrittenClear(f, 1000, 12, Entry(12, "e", 15));
    assert f[1000 := Entry(12, "e", 15)] == f1;
    WrittenClear(f1, 1024, 12, Entry(1024, "wxyz", 17));
  }

  lemma RevivedPlain(a: string, b: string, c: string, d: string)
    ensures var file := FullFile(a, b, c, d)[1000 := Entry(12, "e", 15)][1012 := Entry(12, "b", 16)];
            Holds(file[1024 := Entry(1024, "wxyz", 17)], Revived(a, b, c, d))
  {
  }

  lemma RevivedTiled(a: string, b: string, c: string, d: string)
    requires LongNames(a, b, c, d)
    ensures Tiled(Revived(a, b, c, d), 1024, 2048)
  {
    hide Tiled, RealLen;
    FullPlaces();
    FullTiled(a, b, c, d);
    SplitTiled(FullBlock(a, b, c, d), 1024, 1024, 4, "b", 16);
    ExtendedTiled(Split(FullBlock(a, b, c, d), 4, "b", 16), 1024, 1024, "wxyz", 17);
    assert Revived(a, b, c, d) == Extended(Split(FullBlock(a, b, c, d), 4, "b", 16), 1024, 1024, "wxyz", 17);
  }

  lemma RevivedStands(a: string, b: string, c: string, d: string)
    requires LongNames(a, b, c, d)
    ensures Stands(Revived(a, b, c, d), FullEntries(a, b, c, d)["b" := 16]["wxyz" := 17])
  {
    var recs, entries := FullBlock(a, b, c, d), FullEntries(a, b, c, d);
    FullStands(a, b, c, d);
    assert "e"[0] != "b"[0] && |"wxyz"| == 4;
    ShorterStands(recs, entries, 4, Rec(1000, 12, "e", 15));
    var r1 := recs[4 := Rec(1000, 12, "e", 15)];
    hide Stands;
    ExtendedStands(r1, entries, 12, 1012, "b", 16);
    ExtendedStands(r1 + [Rec(1012, 12, "b", 16)], entries["b" := 16], 1024, 1024, "wxyz", 17);
  }

  lemma ShorterStands(recs: seq<Rec>, entries: map<string, nat>, k: nat, r: Rec)
    requires Stands(recs, entries) && k < |recs| && r.name == recs[k].name && r.inode == recs[k].inode
    ensures Stands(recs[k := r], entries)
  {
    forall n | n in entries ensures HasName(recs[k := r], n) {
      assert HasName(recs, n);
      var i :| 0 <= i < |recs| && recs[i].name == n;
      assert recs[k := r][i].name == n;
    }
  }
}
