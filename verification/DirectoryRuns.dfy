/** Directories that ext2_dir_add and ext2_dir_remove lead to, from an empty one. */
module DirectoryRuns {
  import opened DirectoryRecords
  import opened DirectoryFile
  import opened DirectoryRemains
  import opened Directory

  /** An addition whose place is known. */
  method AddTo(dir: Directory, name: string, inode: nat, ghost k: nat)
    requires dir.Valid() && name != "" && |name| <= NAME_MAX_LEN && name !in dir.entries
    requires IsSlot(dir.recs, ENTRY_HEADER_LEN + |name|, k) &&
        !Misplaced(dir.recs, dir.blockSize, ENTRY_HEADER_LEN + |name|, k)
    modifies dir
    ensures dir.Valid() && dir.entries == old(dir.entries)[name := inode]
    ensures dir.recs == With(old(dir.recs), dir.blockSize, old(dir.size), k, name, inode)
  {
    hide Tiled, Stands, Holds, Remains, Refines, RealLen, With, Misplaced, SlotFile;
    var r, k' := dir.Add(name, inode);
    OneSlot(old(dir.recs), ENTRY_HEADER_LEN + |name|, k, k');
  }

  /** A removal of a name whose record is known. */
  method RemoveFrom(dir: Directory, name: string, ghost i: nat)
    requires dir.Valid() && name != "" && i < |dir.recs| && dir.recs[i].name == name
    modifies dir
    ensures dir.Valid() && dir.entries == old(dir.entries) - {name}
    ensures dir.blockSize > 0 && dir.recs == Without(old(dir.recs), dir.blockSize, i)
  {
    assert name in dir.entries;
    ghost var recs, entries := dir.recs, dir.entries;
    assert Stands(recs, entries);
    var r, i' := dir.Remove(name);
    if i' != i {
      Twice(recs, i, i', entries);
    }
  }

  /** What names of these lengths need. */
  lemma Needs(name: string)
    ensures |name| == 1 || |name| == 2 ==> RealLen(name) == 12
    ensures |name| == 200 ==> RealLen(name) == 208
    ensures |name| == 256 ==> RealLen(name) == 264
  {
  }

  /** The records of the full block, name by name. */
  ghost function Filled(a: string, b: string, c: string, d: string, n: nat): seq<Rec> {
    if n == 0 then []
    else if n == 1 then [Rec(0, 1024, a, 11)]
    else if n == 2 then [Rec(0, 264, a, 11), Rec(264, 760, b, 12)]
    else if n == 3 then [Rec(0, 264, a, 11), Rec(264, 264, b, 12), Rec(528, 496, c, 13)]
    else if n == 4 then [Rec(0, 264, a, 11), Rec(264, 264, b, 12), Rec(528, 264, c, 13), Rec(792, 232, d, 14)]
    else FullBlock(a, b, c, d)
  }

  /** The next name goes to record k and leads from one stage to the next. */
  ghost predicate Goes(recs: seq<Rec>, size: nat, k: nat, name: string, inode: nat, recs': seq<Rec>) {
    && IsSlot(recs, ENTRY_HEADER_LEN + |name|, k) && !Misplaced(recs, 1024, ENTRY_HEADER_LEN + |name|, k)
    && With(recs, 1024, size, k, name, inode) == recs'
  }

  lemma FirstGoes(name: string, inode: nat)
    ensures Goes([], 0, 0, name, inode, [Rec(0, 1024, name, inode)])
  {
  }

  /** A name that fits only the last record goes there. */
  lemma LastGoes(recs: seq<Rec>, last: Rec, size: nat, name: string, inode: nat, recs': seq<Rec>)
    requires recs != [] && recs[|recs| - 1] == last && RealLen(last.name) + ENTRY_HEADER_LEN + |name| <= last.len
    requires forall j :: 0 <= j < |recs| - 1 ==> RealLen(recs[j].name) == recs[j].len
    requires (last.at + RealLen(last.name)) % 1024 + ENTRY_HEADER_LEN + |name| < 1024
    requires var needed := RealLen(last.name);
             recs' == recs[..|recs| - 1] + [last.(len := needed), Rec(last.at + needed, last.len - needed, name, inode)]
    ensures Goes(recs, size, |recs| - 1, name, inode, recs')
  {
    hide RealLen;
    assert recs[|recs|..] == [];
  }

  lemma FillGoes(a: string, b: string, c: string, d: string, size: nat)
    requires LongNames(a, b, c, d)
    ensures Goes(Filled(a, b, c, d, 1), size, 0, b, 12, Filled(a, b, c, d, 2))
    ensures Goes(Filled(a, b, c, d, 2), size, 1, c, 13, Filled(a, b, c, d, 3))
  {
    hide RealLen, Goes;
    Needs(a);
    Needs(b);
    LastGoes(Filled(a, b, c, d, 1), Rec(0, 1024, a, 11), size, b, 12, Filled(a, b, c, d, 2));
    LastGoes(Filled(a, b, c, d, 2), Rec(264, 760, b, 12), size, c, 13, Filled(a, b, c, d, 3));
  }

  lemma FillGoesOn(a: string, b: string, c: string, d: string, size: nat)
    requires LongNames(a, b, c, d)
    ensures Goes(Filled(a, b, c, d, 3), size, 2, d, 14, Filled(a, b, c, d, 4))
    ensures Goes(Filled(a, b, c, d, 4), size, 3, "e", 15, Filled(a, b, c, d, 5))
  {
    hide RealLen, Goes;
    Needs(a);
    Needs(b);
    Needs(c);
    Needs(d);
    LastGoes(Filled(a, b, c, d, 3), Rec(528, 496, c, 13), size, d, 14, Filled(a, b, c, d, 4));
    LastGoes(Filled(a, b, c, d, 4), Rec(792, 232, d, 14), size, "e", 15, Filled(a, b, c, d, 5));
  }

  /** The next name, at its place. */
  method AddNext(dir: Directory, name: string, inode: nat, ghost k: nat, ghost recs: seq<Rec>)
    requires dir.Valid() && dir.blockSize == 1024 && name != "" && |name| <= NAME_MAX_LEN && name !in dir.entries
    requires Goes(dir.recs, dir.size, k, name, inode, recs)
    modifies dir
    ensures dir.Valid() && dir.entries == old(dir.entries)[name := inode] && dir.recs == recs
  {
    hide Tiled, Stands, Holds, Remains, RealLen, IsSlot, With, Misplaced;
    AddTo(dir, name, inode, k);
  }

  /** The entries so far. */
  ghost function Named(a: string, b: string, c: string, d: string, n: nat): map<string, nat> {
    if n == 0 then map[]
    else if n == 1 then map[][a := 11]
    else if n == 2 then map[][a := 11][b := 12]
    else if n == 3 then map[][a := 11][b := 12][c := 13]
    else if n == 4 then map[][a := 11][b := 12][c := 13][d := 14]
    else FullEntries(a, b, c, d)
  }

  lemma NewNames(a: string, b: string, c: string, d: string)
    requires LongNames(a, b, c, d)
    ensures a !in Named(a, b, c, d, 0) && b !in Named(a, b, c, d, 1) && c !in Named(a, b, c, d, 2)
    ensures d !in Named(a, b, c, d, 3) && "e" !in Named(a, b, c, d, 4)
    ensures Named(a, b, c, d, 0) == map[] && Named(a, b, c, d, 1) == Named(a, b, c, d, 0)[a := 11]
    ensures Named(a, b, c, d, 2) == Named(a, b, c, d, 1)[b := 12] &&
        Named(a, b, c, d, 3) == Named(a, b, c, d, 2)[c := 13]
    ensures Named(a, b, c, d, 4) == Named(a, b, c, d, 3)[d := 14] &&
        Named(a, b, c, d, 5) == Named(a, b, c, d, 4)["e" := 15]
    ensures Named(a, b, c, d, 5) == FullEntries(a, b, c, d)
  {
  }

  /** The full block is reached: five names added to an empty directory. */
  method FillBlock(a: string, b: string, c: string, d: string) returns (dir: Directory)
    requires LongNames(a, b, c, d)
    ensures fresh(dir) && dir.Valid() && dir.blockSize == 1024
    ensures dir.recs == FullBlock(a, b, c, d) && dir.entries == FullEntries(a, b, c, d)
  {
    hide Tiled, Stands, Holds, Remains, Goes, Filled, FullBlock, Named, FullEntries;
    dir := new Directory(1024);
    Stages(a, b, c, d);
    NewNames(a, b, c, d);
    Start(dir.recs, 1024, dir.size);
    FirstGoes(a, 11);
    AddNext(dir, a, 11, 0, Filled(a, b, c, d, 1));
    FillGoes(a, b, c, d, dir.size);
    AddNext(dir, b, 12, 0, Filled(a, b, c, d, 2));
    FillGoes(a, b, c, d, dir.size);
    AddNext(dir, c, 13, 1, Filled(a, b, c, d, 3));
    FillGoesOn(a, b, c, d, dir.size);
    AddNext(dir, d, 14, 2, Filled(a, b, c, d, 4));
    FillGoesOn(a, b, c, d, dir.size);
    AddNext(dir, "e", 15, 3, Filled(a, b, c, d, 5));
  }

  lemma Stages(a: string, b: string, c: string, d: string)
    ensures Filled(a, b, c, d, 1) == [Rec(0, 1024, a, 11)] && Filled(a, b, c, d, 5) == FullBlock(a, b, c, d)
  {
  }

  /**
   Six additions to an empty directory, the last of which leaves a file that does not stand for the
   map with its name.
   */
  method MisplacedRun(a: string, b: string, c: string, d: string) returns (dir: Directory)
    requires LongNames(a, b, c, d)
    ensures !Refines(dir.file, dir.size, 1024, FullEntries(a, b, c, d)["wxyz" := 17])
  {
    dir := FillBlock(a, b, c, d);
    FullMisplaced(a, b, c, d);
    assert "wxyz" !in FullEntries(a, b, c, d) by { assert |"wxyz"| == 4; }
    assert Stored("wxyz") == "wxyz" && |"wxyz"| == 4;
    hide Tiled, Stands, Holds, Remains, Refines, IsSlot, Misplaced, With, FullBlock, FullEntries;
    var r, k := dir.Add("wxyz", 17);
    OneSlot(FullBlock(a, b, c, d), 12, 4, k);
  }

  // A directory that grows into a second block and is emptied again.

  ghost predicate FourNames(p: string, q: string, r: string, s: string) {
    |p| == |q| == |r| == |s| == 256 && p != q && p != r && p != s && q != r && q != s && r != s
  }

  ghost function Crowded(p: string, q: string, r: string, s: string, n: nat): seq<Rec> {
    var dot, dots := Rec(0, 12, ".", 11), Rec(12, 12, "..", 2);
    if n == 1 then [Rec(0, 1024, ".", 11)]
    else if n == 2 then [dot, Rec(12, 1012, "..", 2)]
    else if n == 3 then [dot, dots, Rec(24, 1000, p, 21)]
    else if n == 4 then [dot, dots, Rec(24, 264, p, 21), Rec(288, 736, q, 22)]
    else if n == 5 then [dot, dots, Rec(24, 264, p, 21), Rec(288, 264, q, 22), Rec(552, 472, r, 23)]
    else [dot, dots, Rec(24, 264, p, 21), Rec(288, 264, q, 22), Rec(552, 472, r, 23), Rec(1024, 1024, s, 24)]
  }

  /** And as the names go, last one first. */
  ghost function Thinned(p: string, q: string, r: string, n: nat): seq<Rec> {
    var dot, dots, blank := Rec(0, 12, ".", 11), Rec(12, 12, "..", 2), Rec(1024, 1024, "", 0);
    if n == 3 then [dot, dots, Rec(24, 264, p, 21), Rec(288, 264, q, 22), Rec(552, 472, r, 23), blank]
    else if n == 2 then [dot, dots, Rec(24, 264, p, 21), Rec(288, 736, q, 22), blank]
    else if n == 1 then [dot, dots, Rec(24, 1000, p, 21), blank]
    else LeftOver()
  }

  /** A name that fits nowhere gets a block of its own. */
  lemma EndGoes(recs: seq<Rec>, size: nat, name: string, inode: nat)
    requires forall j :: 0 <= j < |recs| ==> !Fits(recs[j], ENTRY_HEADER_LEN + |name|)
    ensures Goes(recs, size, |recs|, name, inode, recs + [Rec(size, 1024, name, inode)])
  {
  }

  lemma DotsGo(p: string, q: string, r: string, s: string, size: nat)
    requires FourNames(p, q, r, s)
    ensures Goes(Crowded(p, q, r, s, 1), size, 0, "..", 2, Crowded(p, q, r, s, 2))
    ensures Goes(Crowded(p, q, r, s, 2), size, 1, p, 21, Crowded(p, q, r, s, 3))
  {
    hide RealLen, Goes;
    Needs(".");
    Needs("..");
    LastGoes(Crowded(p, q, r, s, 1), Rec(0, 1024, ".", 11), size, "..", 2, Crowded(p, q, r, s, 2));
    LastGoes(Crowded(p, q, r, s, 2), Rec(12, 1012, "..", 2), size, p, 21, Crowded(p, q, r, s, 3));
  }

  lemma NamesGo(p: string, q: string, r: string, s: string, size: nat)
    requires FourNames(p, q, r, s)
    ensures Goes(Crowded(p, q, r, s, 3), size, 2, q, 22, Crowded(p, q, r, s, 4))
    ensures Goes(Crowded(p, q, r, s, 4), size, 3, r, 23, Crowded(p, q, r, s, 5))
  {
    hide RealLen, Goes;
    Needs(".");
    Needs("..");
    Needs(p);
    Needs(q);
    LastGoes(Crowded(p, q, r, s, 3), Rec(24, 1000, p, 21), size, q, 22, Crowded(p, q, r, s, 4));
    LastGoes(Crowded(p, q, r, s, 4), Rec(288, 736, q, 22), size, r, 23, Crowded(p, q, r, s, 5));
  }

  lemma LastNameGoes(p: string, q: string, r: string, s: string)
    requires FourNames(p, q, r, s)
    ensures Goes(Crowded(p, q, r, s, 5), 1024, 5, s, 24, Crowded(p, q, r, s, 6))
  {
    hide RealLen, Goes;
    Needs(".");
    Needs("..");
    Needs(p);
    Needs(q);
    Needs(r);
    EndGoes(Crowded(p, q, r, s, 5), 1024, s, 24);
    assert Crowded(p, q, r, s, 6) == Crowded(p, q, r, s, 5) + [Rec(1024, 1024, s, 24)];
  }

  lemma NamesLeave(p: string, q: string, r: string, s: string)
    ensures Without(Crowded(p, q, r, s, 6), 1024, 5) == Thinned(p, q, r, 3)
    ensures Without(Thinned(p, q, r, 3), 1024, 4) == Thinned(p, q, r, 2)
    ensures Without(Thinned(p, q, r, 2), 1024, 3) == Thinned(p, q, r, 1)
    ensures Without(Thinned(p, q, r, 1), 1024, 2) == Thinned(p, q, r, 0)
  {
  }

  ghost function Dots(): map<string, nat> {
    map["." := 11, ".." := 2]
  }

  lemma NewInCrowd(p: string, q: string, r: string, s: string)
    requires FourNames(p, q, r, s)
    ensures ".." !in map[]["." := 11] && map[]["." := 11][".." := 2] == Dots()
    ensures p !in Dots() && q !in Dots()[p := 21] && r !in Dots()[p := 21][q := 22] &&
        s !in Dots()[p := 21][q := 22][r := 23]
    ensures Dots()[p := 21][q := 22][r := 23][s := 24] - {s} - {r} - {q} - {p} == Dots()
  {
    assert |"."| == 1 && |".."| == 2;
  }

  /** The dot entries and four long names, the last of them in a second block. */
  method Crowd(p: string, q: string, r: string, s: string) returns (dir: Directory)
    requires FourNames(p, q, r, s)
    ensures fresh(dir) && dir.Valid() && dir.blockSize == 1024
    ensures dir.recs == Crowded(p, q, r, s, 6) && dir.entries == Dots()[p := 21][q := 22][r := 23][s := 24]
  {
    hide Tiled, Stands, Holds, Remains, Goes, Dots;
    dir := new Directory(1024);
    NewInCrowd(p, q, r, s);
    Start(dir.recs, 1024, dir.size);
    FirstGoes(".", 11);
    AddNext(dir, ".", 11, 0, Crowded(p, q, r, s, 1));
    DotsGo(p, q, r, s, dir.size);
    AddNext(dir, "..", 2, 0, Crowded(p, q, r, s, 2));
    DotsGo(p, q, r, s, dir.size);
    AddNext(dir, p, 21, 1, Crowded(p, q, r, s, 3));
    NamesGo(p, q, r, s, dir.size);
    AddNext(dir, q, 22, 2, Crowded(p, q, r, s, 4));
    NamesGo(p, q, r, s, dir.size);
    AddNext(dir, r, 23, 3, Crowded(p, q, r, s, 5));
    Walk(dir.recs, 1024, dir.size, 4);
    LastNameGoes(p, q, r, s);
    AddNext(dir, s, 24, 5, Crowded(p, q, r, s, 6));
  }

  /** With the four names removed again it holds only its dot entries, and rmdir's scan still refuses it. */
  method EmptiedRun(p: string, q: string, r: string, s: string) returns (dir: Directory, empty: bool)
    requires FourNames(p, q, r, s)
    ensures dir.Valid() && dir.entries == Dots() && !empty
  {
    dir := Crowd(p, q, r, s);
    NewInCrowd(p, q, r, s);
    NamesLeave(p, q, r, s);
    hide Tiled, Stands, Holds, Remains, Without, Dots;
    RemoveFrom(dir, s, 5);
    RemoveFrom(dir, r, 4);
    RemoveFrom(dir, q, 3);
    RemoveFrom(dir, p, 2);
    assert dir.recs[2].name == "";
    empty := dir.HoldsOnly(2, 11);
  }
}
