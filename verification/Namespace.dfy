/**
 The directory tree of src/system/fs/fs.c as a value: directories map names to
 inode numbers, every inode counts the entries that name it, and the effect of
 each operation is a function on trees.
 */
module Namespace {

  const ROOT := 2
  const DOT := "."
  const DOTDOT := ".."

  type Name = string

  datatype Inode = Inode(dir: bool, links: int, entries: map<Name, int>)

  /** The live inodes. */
  type Tree = map<int, Inode>

  predicate Plain(n: Name) {
    n != DOT && n != DOTDOT
  }

  /** (d, n) is an entry naming i. */
  ghost predicate Names(t: Tree, d: int, n: Name, i: int) {
    d in t && n in t[d].entries && t[d].entries[n] == i
  }

  /** Every entry that names i. */
  ghost function Refs(t: Tree, i: int): set<(int, Name)> {
    set d, n | d in t && n in t[d].entries && t[d].entries[n] == i :: (d, n)
  }

  ghost predicate HasName(t: Tree, p: int, d: int) {
    exists n :: Plain(n) && Names(t, p, n, d)
  }

  /** Entries live in directories and name live inodes; a named directory has the entry's owner as parent. */
  ghost predicate EntryOk(t: Tree, d: int, n: Name) {
    d in t && n in t[d].entries ==>
      var i := t[d].entries[n];
      && t[d].dir && i in t
      && (Plain(n) && t[i].dir ==> i != ROOT && Names(t, i, DOTDOT, d))
  }

  ghost predicate DirOk(t: Tree, d: int) {
    d in t && t[d].dir ==>
      && Names(t, d, DOT, d)
      && DOTDOT in t[d].entries
      && var p := t[d].entries[DOTDOT];
      && p in t && t[p].dir
      && (if d == ROOT then p == ROOT else HasName(t, p, d))
  }

  /** A directory has one name only. */
  ghost predicate NamedOnce(t: Tree, d: int, n: Name, n': Name) {
    forall i :: Plain(n) && Plain(n') && Names(t, d, n, i) && Names(t, d, n', i) && i in t && t[i].dir ==> n == n'
  }

  ghost predicate LinksOk(t: Tree, i: int) {
    i in t ==> t[i].links == |Refs(t, i)|
  }

  function Parent(t: Tree, d: int): int {
    if d in t && DOTDOT in t[d].entries then t[d].entries[DOTDOT] else d
  }

  /** The directory k steps up from d. */
  function Up(t: Tree, d: int, k: nat): int
    decreases k
  {
    if k == 0 then d else Up(t, Parent(t, d), k - 1)
  }

  ghost predicate ReachesRoot(t: Tree, d: int, k: nat) {
    Up(t, d, k) == ROOT
  }

  ghost predicate Rooted(t: Tree, d: int) {
    d in t && t[d].dir ==> exists k :: ReachesRoot(t, d, k)
  }

  ghost predicate WellFormed(t: Tree) {
    && ROOT in t && t[ROOT].dir
    && (forall d, n {:trigger EntryOk(t, d, n)} :: EntryOk(t, d, n))
    && (forall d {:trigger DirOk(t, d)} :: DirOk(t, d))
    && (forall d, n, n' {:trigger NamedOnce(t, d, n, n')} :: NamedOnce(t, d, n, n'))
    && (forall i {:trigger LinksOk(t, i)} :: LinksOk(t, i))
    && (forall d {:trigger Rooted(t, d)} :: Rooted(t, d))
  }

  /** An empty file system: the root, which is its own parent. */
  function Empty(): Tree {
    map[ROOT := Inode(true, 2, map[DOT := ROOT, DOTDOT := ROOT])]
  }

  // The effect of the operations.

  /** A new file, device or pipe i named n in d. */
  function Mknod(t: Tree, d: int, n: Name, i: int): Tree
    requires d in t
  {
    t[d := t[d].(entries := t[d].entries[n := i])][i := Inode(false, 1, map[])]
  }

  /** A new directory i named n in d, with its two dot entries. */
  function Mkdir(t: Tree, d: int, n: Name, i: int): Tree
    requires d in t
  {
    t[d := Inode(t[d].dir, t[d].links + 1, t[d].entries[n := i])]
      [i := Inode(true, 2, map[DOT := i, DOTDOT := d])]
  }

  /** The entry n of d is gone, and with it the file if that was its last name. */
  function Unlink(t: Tree, d: int, n: Name): Tree
    requires d in t && n in t[d].entries && t[d].entries[n] in t && t[d].entries[n] != d
  {
    var i := t[d].entries[n];
    var t' := t[d := t[d].(entries := t[d].entries - {n})];
    if t[i].links == 1 then t' - {i} else t'[i := t[i].(links := t[i].links - 1)]
  }

  /** The directory named n in d is gone. */
  function Rmdir(t: Tree, d: int, n: Name): Tree
    requires d in t && n in t[d].entries
  {
    t[d := Inode(t[d].dir, t[d].links - 1, t[d].entries - {n})] - {t[d].entries[n]}
  }

  /** The inode named n in d is now named n' in d', and if it is a directory has d' as its parent. */
  function Move(t: Tree, d: int, n: Name, d': int, n': Name): Tree
    requires d in t && n in t[d].entries && d' in t && t[d].entries[n] in t
  {
    var i := t[d].entries[n];
    var t1 := if t[i].dir then Reparented(t, i, d, d') else t;
    var t2 := t1[d' := t1[d'].(entries := t1[d'].entries[n' := i])];
    t2[d := t2[d].(entries := t2[d].entries - {n})]
  }

  /** Directory i hangs below d' instead of d. */
  function Reparented(t: Tree, i: int, d: int, d': int): (r: Tree)
    requires i in t && d in t && d' in t
    ensures r.Keys == t.Keys
  {
    var t1 := t[i := t[i].(entries := t[i].entries[DOTDOT := d'])];
    var t2 := t1[d := t1[d].(links := t1[d].links - 1)];
    t2[d' := t2[d'].(links := t2[d'].links + 1)]
  }

  lemma EmptyWellFormed()
    ensures WellFormed(Empty())
  {
    var t := Empty();
    assert Refs(t, ROOT) == {(ROOT, DOT), (ROOT, DOTDOT)};
    forall d ensures Rooted(t, d) {
      if d == ROOT { assert ReachesRoot(t, d, 0); }
    }
  }

  lemma NoRefsToDead(t: Tree, i: int)
    requires WellFormed(t) && i !in t
    ensures Refs(t, i) == {}
  {
    forall d, n | d in t && n in t[d].entries ensures t[d].entries[n] != i {
      assert EntryOk(t, d, n);
    }
  }

  // Climbing towards the root.

  lemma {:induction false} UpInTree(t: Tree, d: int, k: nat)
    requires WellFormed(t) && d in t && t[d].dir
    ensures var u := Up(t, d, k); u in t && t[u].dir
    decreases k
  {
    assert DirOk(t, d);
    if k > 0 { UpInTree(t, Parent(t, d), k - 1); }
  }

  lemma {:induction false} UpSplit(t: Tree, d: int, j: nat, k: nat)
    ensures Up(t, d, j + k) == Up(t, Up(t, d, j), k)
    decreases j
  {
    if j > 0 { UpSplit(t, Parent(t, d), j - 1, k); }
  }

  ghost predicate SameParent(t: Tree, t': Tree, d: int) {
    Parent(t', d) == Parent(t, d)
  }

  /** As long as parents on the way are the same, so is the way. */
  lemma {:induction false} UpSame(t: Tree, t': Tree, d: int, k: nat)
    requires forall j: nat :: j < k ==> SameParent(t, t', Up(t, d, j))
    ensures Up(t', d, k) == Up(t, d, k)
    decreases k
  {
    if k > 0 {
      assert SameParent(t, t', Up(t, d, 0));
      forall j: nat | j < k - 1 ensures SameParent(t, t', Up(t, Parent(t, d), j)) {
        assert Up(t, d, j + 1) == Up(t, Parent(t, d), j);
        assert SameParent(t, t', Up(t, d, j + 1));
      }
      UpSame(t, t', Parent(t, d), k - 1);
    }
  }

  lemma RootedSame(t: Tree, t': Tree, d: int)
    requires WellFormed(t) && d in t && t[d].dir
    requires forall x :: x in t && t[x].dir ==> SameParent(t, t', x)
    ensures exists k :: ReachesRoot(t', d, k)
  {
    assert Rooted(t, d);
    var k :| ReachesRoot(t, d, k);
    forall j: nat | j < k ensures SameParent(t, t', Up(t, d, j)) {
      UpInTree(t, d, j);
    }
    UpSame(t, t', d, k);
    assert ReachesRoot(t', d, k);
  }

  // mknod

  lemma MknodRefs(t: Tree, d: int, n: Name, i: int, j: int)
    requires d in t && i !in t && n !in t[d].entries
    ensures Refs(Mknod(t, d, n, i), j) == if j == i then Refs(t, j) + {(d, n)} else Refs(t, j)
  {
  }

  /** One entry and one file more, and nothing else different. */
  lemma MknodShape(t: Tree, d: int, n: Name, i: int)
    requires d in t && i !in t
    ensures var t' := Mknod(t, d, n, i);
            && t'.Keys == t.Keys + {i} && !t'[i].dir && (forall e :: e in t ==> t'[e].dir == t[e].dir)
            && forall e, m, x :: Names(t', e, m, x) <==> if (e, m) == (d, n) then x == i else Names(t, e, m, x)
  {
  }

  lemma MknodWellFormed(t: Tree, d: int, n: Name, i: int)
    requires WellFormed(t) && d in t && t[d].dir && n !in t[d].entries && Plain(n) && i !in t
    ensures WellFormed(Mknod(t, d, n, i))
  {
    var t' := Mknod(t, d, n, i);
    forall e, m ensures EntryOk(t', e, m) { assert EntryOk(t, e, m); }
    forall e ensures DirOk(t', e) { KeptName(t, t', e); }
    forall e, m, m' ensures NamedOnce(t', e, m, m') { assert NamedOnce(t, e, m, m'); }
    forall j ensures LinksOk(t', j) {
      assert LinksOk(t, j);
      NoRefsToDead(t, i);
      MknodRefs(t, d, n, i, j);
    }
    forall e ensures Rooted(t', e) {
      if e in t' && t'[e].dir { RootedSame(t, t', e); }
    }
  }

  /** A directory keeps its dot entries and its name as long as its own and its parent's entries stay. */
  lemma KeptName(t: Tree, t': Tree, e: int)
    requires DirOk(t, e)
    requires e in t' && t'[e].dir ==> e in t && t[e].dir && Extends(t, t', e) && Extends(t, t', Parent(t, e))
    ensures DirOk(t', e)
  {
    if e in t' && t'[e].dir && e != ROOT {
      var n :| Plain(n) && Names(t, Parent(t, e), n, e);
      assert Names(t', Parent(t, e), n, e);
    }
  }

  /** Directory d has at least the entries it had. */
  ghost predicate Extends(t: Tree, t': Tree, d: int) {
    d in t ==> d in t' && t'[d].dir == t[d].dir && forall n :: n in t[d].entries ==> Names(t', d, n, t[d].entries[n])
  }

  // mkdir

  lemma MkdirRefs(t: Tree, d: int, n: Name, i: int, j: int)
    requires d in t && i !in t && n !in t[d].entries && Refs(t, i) == {}
    ensures Refs(Mkdir(t, d, n, i), j) ==
            if j == i then {(d, n), (i, DOT)} else if j == d then Refs(t, j) + {(i, DOTDOT)} else Refs(t, j)
  {
    var t' := Mkdir(t, d, n, i);
    forall e, m ensures !Names(t, e, m, i) {
      assert Names(t, e, m, i) ==> (e, m) in Refs(t, i);
    }
  }

  /** One name and a directory with its two dot entries more, and nothing else different. */
  lemma MkdirShape(t: Tree, d: int, n: Name, i: int)
    requires d in t && i !in t
    ensures var t' := Mkdir(t, d, n, i);
            && t'.Keys == t.Keys + {i} && t'[i].dir && (forall e :: e in t ==> t'[e].dir == t[e].dir)
            && forall e, m, x :: Names(t', e, m, x) <==>
                 if (e, m) == (d, n) || (e, m) == (i, DOT) then x == i
                 else if (e, m) == (i, DOTDOT) then x == d
                 else Names(t, e, m, x)
  {
  }

  lemma MkdirWellFormed(t: Tree, d: int, n: Name, i: int)
    requires WellFormed(t) && d in t && t[d].dir && n !in t[d].entries && Plain(n) && i !in t
    ensures WellFormed(Mkdir(t, d, n, i))
  {
    var t' := Mkdir(t, d, n, i);
    NoRefsToDead(t, i);
    forall e, m ensures EntryOk(t', e, m) { assert EntryOk(t, e, m); }
    forall e ensures DirOk(t', e) {
      assert DirOk(t, e);
      if e == i { assert Names(t', d, n, i); } else { KeptName(t, t', e); }
    }
    MkdirOnce(t, d, n, i);
    forall j ensures LinksOk(t', j) {
      assert LinksOk(t, j);
      MkdirRefs(t, d, n, i, j);
      if j == d { assert (i, DOTDOT) !in Refs(t, d); }
    }
    MkdirRooted(t, d, n, i);
  }

  lemma MkdirOnce(t: Tree, d: int, n: Name, i: int)
    requires WellFormed(t) && d in t && t[d].dir && n !in t[d].entries && Plain(n) && i !in t
    ensures forall e, m, m' :: NamedOnce(Mkdir(t, d, n, i), e, m, m')
  {
    forall e, m, m' ensures NamedOnce(Mkdir(t, d, n, i), e, m, m') {
      assert NamedOnce(t, e, m, m') && EntryOk(t, e, m) && EntryOk(t, e, m');
    }
  }

  lemma MkdirRooted(t: Tree, d: int, n: Name, i: int)
    requires WellFormed(t) && d in t && t[d].dir && n !in t[d].entries && Plain(n) && i !in t
    ensures forall e :: Rooted(Mkdir(t, d, n, i), e)
  {
    var t' := Mkdir(t, d, n, i);
    RootedSame(t, t', d);
    var k: nat :| ReachesRoot(t', d, k);
    forall e ensures Rooted(t', e) {
      if e == i {
        assert ReachesRoot(t', i, k + 1);
      } else if e in t && t[e].dir {
        RootedSame(t, t', e);
      }
    }
  }

  // unlink

  lemma UnlinkRefs(t: Tree, d: int, n: Name, j: int)
    requires d in t && n in t[d].entries && t[d].entries[n] in t && t[d].entries[n] != d
    requires t[t[d].entries[n]].entries == map[]
    ensures Refs(Unlink(t, d, n), j) == if j == t[d].entries[n] then Refs(t, j) - {(d, n)} else Refs(t, j)
  {
  }

  /** A file with one link has no entry but the one that names it. */
  lemma OneRef(t: Tree, i: int, d: int, n: Name, e: int, m: Name)
    requires LinksOk(t, i) && i in t && t[i].links == 1 && Names(t, d, n, i) && Names(t, e, m, i)
    ensures e == d && m == n
  {
    assert (d, n) in Refs(t, i) && (e, m) in Refs(t, i);
    var rest := Refs(t, i) - {(d, n)};
    assert |rest| == 0;
    assert (e, m) == (d, n) || (e, m) in rest;
  }

  ghost predicate IsFile(t: Tree, d: int, n: Name) {
    d in t && n in t[d].entries && t[d].entries[n] in t && !t[t[d].entries[n]].dir
  }

  lemma FileHasNoEntries(t: Tree, d: int, n: Name)
    requires WellFormed(t) && IsFile(t, d, n)
    ensures t[d].dir && Plain(n) && t[d].entries[n] != d && t[t[d].entries[n]].entries == map[]
  {
    assert EntryOk(t, d, n) && DirOk(t, d);
    var i := t[d].entries[n];
    forall m ensures m !in t[i].entries { assert EntryOk(t, i, m); }
  }

  /** One entry less; the file goes with its last name and nothing else does. */
  lemma UnlinkShape(t: Tree, d: int, n: Name)
    requires WellFormed(t) && IsFile(t, d, n) && t[d].entries[n] != d
    ensures var t' := Unlink(t, d, n); var i := t[d].entries[n];
            && (forall e :: e in t' <==> e in t && !(e == i && t[i].links == 1))
            && (forall e :: e in t' ==> t'[e].dir == t[e].dir)
            && forall e, m, x :: Names(t', e, m, x) <==> (e, m) != (d, n) && Names(t, e, m, x)
  {
    FileHasNoEntries(t, d, n);
  }

  lemma UnlinkEntries(t: Tree, d: int, n: Name)
    requires WellFormed(t) && IsFile(t, d, n) && t[d].entries[n] != d
    ensures forall e, m :: EntryOk(Unlink(t, d, n), e, m)
  {
    var t', i := Unlink(t, d, n), t[d].entries[n];
    assert LinksOk(t, i);
    forall e, m ensures EntryOk(t', e, m) {
      assert EntryOk(t, e, m);
      if t[i].links == 1 && Names(t, e, m, i) { OneRef(t, i, d, n, e, m); }
    }
  }

  lemma UnlinkLinks(t: Tree, d: int, n: Name)
    requires WellFormed(t) && IsFile(t, d, n) && t[d].entries[n] != d
    ensures forall j :: LinksOk(Unlink(t, d, n), j)
  {
    FileHasNoEntries(t, d, n);
    forall j ensures LinksOk(Unlink(t, d, n), j) {
      assert LinksOk(t, j);
      UnlinkRefs(t, d, n, j);
      assert (d, n) in Refs(t, t[d].entries[n]);
    }
  }

  lemma UnlinkWellFormed(t: Tree, d: int, n: Name)
    requires WellFormed(t) && IsFile(t, d, n) && t[d].entries[n] != d
    ensures WellFormed(Unlink(t, d, n))
  {
    var t', i := Unlink(t, d, n), t[d].entries[n];
    FileHasNoEntries(t, d, n);
    UnlinkEntries(t, d, n);
    forall e ensures DirOk(t', e) {
      assert DirOk(t, e);
      if e in t' && t'[e].dir && e != ROOT {
        var m :| Plain(m) && Names(t, Parent(t, e), m, e);
        assert Names(t', Parent(t, e), m, e);
      }
    }
    forall e, m, m' ensures NamedOnce(t', e, m, m') { assert NamedOnce(t, e, m, m'); }
    UnlinkLinks(t, d, n);
    forall e ensures Rooted(t', e) {
      if e in t' && t'[e].dir { RootedSame(t, t', e); }
    }
  }

  // rmdir

  ghost predicate IsDir(t: Tree, d: int, n: Name) {
    d in t && n in t[d].entries && t[d].entries[n] in t && t[t[d].entries[n]].dir
  }

  /** fs_rmdir's test: every entry of the directory named n in d has the number of d or of the directory. */
  ghost predicate LooksEmpty(t: Tree, d: int, n: Name)
    requires IsDir(t, d, n)
  {
    var x := t[d].entries[n];
    forall m :: m in t[x].entries ==> t[x].entries[m] == d || t[x].entries[m] == x
  }

  /** A directory that is its own parent, or its parent's parent, is the root. */
  lemma {:induction false} NoCycle(t: Tree, x: int, d: int, k: nat)
    requires Parent(t, x) == d && Parent(t, d) == x && (ReachesRoot(t, x, k) || ReachesRoot(t, d, k))
    ensures x == ROOT || d == ROOT
    decreases k
  {
    if k > 0 { NoCycle(t, d, x, k - 1); }
  }

  /** The number test is an emptiness test: only the two dot entries can pass it. */
  lemma EmptinessTest(t: Tree, d: int, n: Name)
    requires WellFormed(t) && IsDir(t, d, n) && Plain(n)
    ensures LooksEmpty(t, d, n) <==> t[t[d].entries[n]].entries.Keys == {DOT, DOTDOT}
  {
    var x := t[d].entries[n];
    assert EntryOk(t, d, n) && DirOk(t, x) && Rooted(t, x) && DirOk(t, d);
    if LooksEmpty(t, d, n) {
      var k: nat :| ReachesRoot(t, x, k);
      forall m | m in t[x].entries ensures !Plain(m) {
        assert EntryOk(t, x, m);
        if Plain(m) { NoCycle(t, x, t[x].entries[m], k); }
      }
    }
  }

  lemma RmdirTarget(t: Tree, d: int, n: Name)
    requires WellFormed(t) && IsDir(t, d, n) && Plain(n)
    ensures var x := t[d].entries[n]; x != d && x != ROOT && t[d].dir && Names(t, x, DOT, x) && Names(t, x, DOTDOT, d)
  {
    var x := t[d].entries[n];
    assert EntryOk(t, d, n) && DirOk(t, x) && Rooted(t, x);
    if x == d {
      var k: nat :| ReachesRoot(t, x, k);
      NoCycle(t, x, d, k);
    }
  }

  /** An empty directory is named by its own dot and by its name, and by nothing else. */
  lemma EmptyDirRefs(t: Tree, d: int, n: Name, e: int, m: Name)
    requires WellFormed(t) && IsDir(t, d, n) && Plain(n) && t[t[d].entries[n]].entries.Keys == {DOT, DOTDOT}
    requires Names(t, e, m, t[d].entries[n])
    ensures (e, m) == (d, n) || (e, m) == (t[d].entries[n], DOT)
  {
    var x := t[d].entries[n];
    RmdirTarget(t, d, n);
    assert EntryOk(t, e, m) && EntryOk(t, d, n) && DirOk(t, e);
    if Plain(m) { assert NamedOnce(t, d, n, m); }
  }

  /** The directory, its entries and its name go, and nothing else does. */
  lemma RmdirShape(t: Tree, d: int, n: Name)
    requires WellFormed(t) && IsDir(t, d, n) && Plain(n)
    ensures var t' := Rmdir(t, d, n); var i := t[d].entries[n];
            && t'.Keys == t.Keys - {i} && (forall e :: e in t' ==> t'[e].dir == t[e].dir)
            && forall e, m, x :: Names(t', e, m, x) <==> (e, m) != (d, n) && e != i && Names(t, e, m, x)
  {
    RmdirTarget(t, d, n);
  }

  lemma RmdirLinks(t: Tree, d: int, n: Name)
    requires WellFormed(t) && IsDir(t, d, n) && Plain(n) && t[t[d].entries[n]].entries.Keys == {DOT, DOTDOT}
    ensures t[t[d].entries[n]].links == 2
  {
    var x := t[d].entries[n];
    RmdirTarget(t, d, n);
    assert LinksOk(t, x);
    forall p | p in Refs(t, x) ensures p == (d, n) || p == (x, DOT) {
      EmptyDirRefs(t, d, n, p.0, p.1);
    }
    assert Refs(t, x) == {(d, n), (x, DOT)};
  }

  lemma RmdirRefs(t: Tree, d: int, n: Name, j: int)
    requires WellFormed(t) && IsDir(t, d, n) && Plain(n) && t[t[d].entries[n]].entries.Keys == {DOT, DOTDOT}
    requires j != t[d].entries[n]
    ensures Refs(Rmdir(t, d, n), j) == if j == d then Refs(t, j) - {(t[d].entries[n], DOTDOT)} else Refs(t, j)
  {
    RmdirTarget(t, d, n);
  }

  lemma RmdirEntries(t: Tree, d: int, n: Name)
    requires WellFormed(t) && IsDir(t, d, n) && Plain(n) && t[t[d].entries[n]].entries.Keys == {DOT, DOTDOT}
    ensures forall e, m :: EntryOk(Rmdir(t, d, n), e, m)
  {
    var t', x := Rmdir(t, d, n), t[d].entries[n];
    RmdirTarget(t, d, n);
    forall e, m ensures EntryOk(t', e, m) {
      assert EntryOk(t, e, m);
      if Names(t, e, m, x) { EmptyDirRefs(t, d, n, e, m); }
    }
  }

  lemma RmdirDirs(t: Tree, d: int, n: Name)
    requires WellFormed(t) && IsDir(t, d, n) && Plain(n) && t[t[d].entries[n]].entries.Keys == {DOT, DOTDOT}
    ensures forall e :: DirOk(Rmdir(t, d, n), e)
    ensures forall e :: e in Rmdir(t, d, n) && t[e].dir ==>
      SameParent(t, Rmdir(t, d, n), e) && Parent(t, e) in Rmdir(t, d, n)
  {
    var t', x := Rmdir(t, d, n), t[d].entries[n];
    RmdirTarget(t, d, n);
    forall e ensures DirOk(t', e) && (e in t' && t[e].dir ==> SameParent(t, t', e) && Parent(t, e) in t') {
      assert DirOk(t, e);
      if e in t' && t[e].dir {
        assert Names(t, e, DOTDOT, Parent(t, e));
        if Parent(t, e) == x { EmptyDirRefs(t, d, n, e, DOTDOT); }
        if e != ROOT {
          var m :| Plain(m) && Names(t, Parent(t, e), m, e);
          assert Names(t', Parent(t, e), m, e);
        }
      }
    }
  }

  lemma {:induction false} RmdirUp(t: Tree, t': Tree, e: int, k: nat)
    requires e in t' && t'[e].dir && ReachesRoot(t, e, k)
    requires forall x :: x in t' && t'[x].dir ==> SameParent(t, t', x) && Parent(t, x) in t' && t'[Parent(t, x)].dir
    ensures ReachesRoot(t', e, k)
    decreases k
  {
    if k > 0 {
      assert SameParent(t, t', e);
      assert ReachesRoot(t, Parent(t, e), k - 1);
      RmdirUp(t, t', Parent(t, e), k - 1);
    }
  }

  lemma RmdirWellFormed(t: Tree, d: int, n: Name)
    requires WellFormed(t) && IsDir(t, d, n) && Plain(n) && t[t[d].entries[n]].entries.Keys == {DOT, DOTDOT}
    ensures WellFormed(Rmdir(t, d, n))
  {
    var t', x := Rmdir(t, d, n), t[d].entries[n];
    RmdirTarget(t, d, n);
    RmdirEntries(t, d, n);
    RmdirDirs(t, d, n);
    forall e, m, m' ensures NamedOnce(t', e, m, m') { assert NamedOnce(t, e, m, m'); }
    forall j ensures LinksOk(t', j) {
      assert LinksOk(t, j);
      if j in t' { RmdirRefs(t, d, n, j); }
      assert (x, DOTDOT) in Refs(t, d);
    }
    forall e ensures Rooted(t', e) {
      assert Rooted(t, e);
      if e in t' && t'[e].dir {
        var k: nat :| ReachesRoot(t, e, k);
        forall y | y in t' && t'[y].dir
          ensures SameParent(t, t', y) && Parent(t, y) in t' && t'[Parent(t, y)].dir
        {
          assert DirOk(t', y);
        }
        RmdirUp(t, t', e, k);
      }
    }
  }

  // rename

  ghost predicate Ancestor(t: Tree, a: int, d: int) {
    exists k: nat :: Up(t, d, k) == a
  }

  /** The move is one that rename makes: to a free name, and of a directory to no place below itself. */
  ghost predicate Movable(t: Tree, d: int, n: Name, d': int, n': Name) {
    && d in t && n in t[d].entries && t[d].entries[n] in t && Plain(n)
    && d' in t && t[d'].dir && Plain(n') && n' !in t[d'].entries
    && (t[t[d].entries[n]].dir ==> !Ancestor(t, t[d].entries[n], d'))
  }

  /** A moved directory's parent entry counts for its new parent instead of its old one. */
  function MoveGain(t: Tree, d: int, n: Name, d': int, e: int): int
    requires d in t && n in t[d].entries && t[d].entries[n] in t
  {
    if !t[t[d].entries[n]].dir then 0
    else (if e == d' then 1 else 0) - (if e == d then 1 else 0)
  }

  /** The entry (d, n) of inode i has become (d', n'), with the dot-dot entry of a directory behind it. */
  ghost predicate Relocated(t: Tree, t': Tree, i: int, d: int, n: Name, d': int, n': Name) {
    forall e, m, x :: Names(t', e, m, x) <==>
      if (e, m) == (d, n) then false
      else if (e, m) == (d', n') then x == i
      else if i in t && t[i].dir && (e, m) == (i, DOTDOT) then x == d'
      else Names(t, e, m, x)
  }

  /** What Move does to each inode, without the order of its steps. */
  lemma MoveShape(t: Tree, d: int, n: Name, d': int, n': Name)
    requires WellFormed(t) && Movable(t, d, n, d', n')
    ensures var i := t[d].entries[n]; var t' := Move(t, d, n, d', n');
            && t'.Keys == t.Keys && t[d].dir && i != d && i != d'
            && (forall e :: e in t ==> t'[e].dir == t[e].dir)
            && (forall e, m, x :: Names(t', e, m, x) <==>
                  if (e, m) == (d, n) then false
                  else if (e, m) == (d', n') then x == i
                  else if t[i].dir && (e, m) == (i, DOTDOT) then x == d'
                  else Names(t, e, m, x))
            && (forall e :: e in t ==> t'[e].links == t[e].links + MoveGain(t, d, n, d', e))
  {
    var i := t[d].entries[n];
    assert EntryOk(t, d, n);
    if t[i].dir {
      RmdirTarget(t, d, n);
      assert Up(t, d', 0) == d';
    } else {
      FileHasNoEntries(t, d, n);
    }
  }

  lemma MoveEntries(t: Tree, d: int, n: Name, d': int, n': Name)
    requires WellFormed(t) && Movable(t, d, n, d', n')
    ensures forall e, m :: EntryOk(Move(t, d, n, d', n'), e, m)
  {
    var t', i := Move(t, d, n, d', n'), t[d].entries[n];
    MoveShape(t, d, n, d', n');
    hide Move;
    assert EntryOk(t, d, n);
    forall e, m ensures EntryOk(t', e, m) {
      assert EntryOk(t, e, m);
      if e in t' && m in t'[e].entries {
        assert Names(t', e, m, t'[e].entries[m]);
        if (e, m) == (d', n') && t[i].dir {
          assert Names(t', i, DOTDOT, d');
        } else if Names(t, e, m, t'[e].entries[m]) && Plain(m) && t[t'[e].entries[m]].dir {
          MoveOther(t, d, n, d', n', e, m);
        }
      }
    }
  }

  /** Any other named directory keeps its parent. */
  lemma MoveOther(t: Tree, d: int, n: Name, d': int, n': Name, e: int, m: Name)
    requires WellFormed(t) && Movable(t, d, n, d', n') && IsDir(t, e, m) && Plain(m) && (e, m) != (d, n)
    ensures var x := t[e].entries[m]; x != t[d].entries[n] && Names(Move(t, d, n, d', n'), x, DOTDOT, e)
  {
    var x := t[e].entries[m];
    MoveShape(t, d, n, d', n');
    hide Move;
    assert EntryOk(t, e, m) && EntryOk(t, d, n);
    assert NamedOnce(t, d, n, m);
  }

  lemma MoveDirs(t: Tree, d: int, n: Name, d': int, n': Name)
    requires WellFormed(t) && Movable(t, d, n, d', n')
    ensures forall e :: DirOk(Move(t, d, n, d', n'), e)
  {
    var t', i := Move(t, d, n, d', n'), t[d].entries[n];
    MoveShape(t, d, n, d', n');
    hide Move;
    assert EntryOk(t, d, n);
    forall e ensures DirOk(t', e) {
      assert DirOk(t, e);
      if e in t && t[e].dir {
        assert Names(t, e, DOT, e) && Names(t', e, DOT, e);
        if e == i {
          assert Names(t', i, DOTDOT, d') && Names(t', d', n', i);
        } else {
          assert Names(t', e, DOTDOT, t[e].entries[DOTDOT]);
          if e != ROOT {
            var m :| Plain(m) && Names(t, Parent(t, e), m, e);
            assert Names(t', Parent(t, e), m, e);
          }
        }
      }
    }
  }

  lemma MoveOnce(t: Tree, d: int, n: Name, d': int, n': Name)
    requires WellFormed(t) && Movable(t, d, n, d', n')
    ensures forall e, m, m' :: NamedOnce(Move(t, d, n, d', n'), e, m, m')
  {
    var t', i := Move(t, d, n, d', n'), t[d].entries[n];
    MoveShape(t, d, n, d', n');
    hide Move;
    forall e, m, m' ensures NamedOnce(t', e, m, m') {
      assert NamedOnce(t, e, m, m');
      forall x | Plain(m) && Plain(m') && Names(t', e, m, x) && Names(t', e, m', x) && x in t' && t'[x].dir
        ensures m == m'
      {
        if e == d' && x == i {
          OnlyNewName(t, d, n, d', n', m);
          OnlyNewName(t, d, n, d', n', m');
        }
      }
    }
  }

  lemma OnlyNewName(t: Tree, d: int, n: Name, d': int, n': Name, m: Name)
    requires WellFormed(t) && Movable(t, d, n, d', n') && Plain(m)
    requires t[t[d].entries[n]].dir && Names(Move(t, d, n, d', n'), d', m, t[d].entries[n])
    ensures m == n'
  {
    MoveShape(t, d, n, d', n');
    hide Move;
    assert EntryOk(t, d, n) && EntryOk(t, d', m) && NamedOnce(t, d, n, m);
  }

  lemma SetSwap<T>(s: set<T>, s': set<T>, gone: set<T>, come: set<T>)
    requires gone <= s && forall p :: p in come ==> p !in s || p in gone
    requires forall p :: p in s' <==> (p in s && p !in gone) || p in come
    ensures |s'| == |s| - |gone| + |come|
  {
    assert s' == (s - gone) + come;
  }

  lemma InRefs(t: Tree, i: int, p: (int, Name))
    ensures p in Refs(t, i) <==> Names(t, p.0, p.1, i)
  {
    assert p == (p.0, p.1);
  }

  lemma MoveRefs(t: Tree, d: int, n: Name, d': int, n': Name, j: int)
    requires WellFormed(t) && Movable(t, d, n, d', n') && j in t
    ensures |Refs(Move(t, d, n, d', n'), j)| == |Refs(t, j)| + MoveGain(t, d, n, d', j)
  {
    var t', i := Move(t, d, n, d', n'), t[d].entries[n];
    MoveShape(t, d, n, d', n');
    hide Move, Refs;
    assert EntryOk(t, d, n);
    var up := {(i, DOTDOT)};
    var gone := if j == i then {(d, n)} else if t[i].dir && j == d then up else {};
    var come := if j == i then {(d', n')} else if t[i].dir && j == d' then up else {};
    forall p: (int, Name) ensures (p in Refs(t', j) <==> Names(t', p.0, p.1, j)) &&
        (p in Refs(t, j) <==> Names(t, p.0, p.1, j)) {
      InRefs(t, j, p);
      InRefs(t', j, p);
    }
    MovedRefs(t, t', i, d, n, d', n', j, gone, come);
    SetSwap(Refs(t, j), Refs(t', j), gone, come);
  }

  lemma MovedRefs(t: Tree, t': Tree, i: int, d: int, n: Name, d': int, n': Name, j: int,
                  gone: set<(int, Name)>, come: set<(int, Name)>)
    requires i in t && i != d && i != d' && Names(t, d, n, i) && d' in t && n' !in t[d'].entries && n' != DOTDOT
    requires t[i].dir ==> Names(t, i, DOTDOT, d)
    requires forall e, m, x :: Names(t', e, m, x) <==>
               if (e, m) == (d, n) then false
               else if (e, m) == (d', n') then x == i
               else if t[i].dir && (e, m) == (i, DOTDOT) then x == d'
               else Names(t, e, m, x)
    requires gone == if j == i then {(d, n)} else if t[i].dir && j == d then {(i, DOTDOT)} else {}
    requires come == if j == i then {(d', n')} else if t[i].dir && j == d' then {(i, DOTDOT)} else {}
    requires forall p: (int, Name) :: (p in Refs(t', j) <==> Names(t', p.0, p.1, j))
    requires forall p: (int, Name) :: (p in Refs(t, j) <==> Names(t, p.0, p.1, j))
    ensures gone <= Refs(t, j) && forall p :: p in come ==> p !in Refs(t, j) || p in gone
    ensures forall p :: p in Refs(t', j) <==> (p in Refs(t, j) && p !in gone) || p in come
  {
    hide Refs;
    forall p: (int, Name) ensures p in Refs(t', j) <==> (p in Refs(t, j) && p !in gone) || p in come {
      assert p == (p.0, p.1);
    }
  }

  /** The way up from the new parent does not pass through the moved directory. */
  lemma MoveClear(t: Tree, t': Tree, i: int, d': int) returns (k: nat)
    requires WellFormed(t) && d' in t && t[d'].dir && !Ancestor(t, i, d')
    requires forall x :: x != i ==> SameParent(t, t', x)
    ensures ReachesRoot(t', d', k)
  {
    assert Rooted(t, d');
    k :| ReachesRoot(t, d', k);
    UpSame(t, t', d', k);
  }

  lemma {:induction false} MoveUp(t: Tree, t': Tree, i: int, d': int, x: int, k: nat, k': nat)
    requires ReachesRoot(t, x, k) && ReachesRoot(t', d', k')
    requires forall y :: y != i ==> SameParent(t, t', y)
    requires Parent(t', i) == d'
    ensures exists l: nat :: ReachesRoot(t', x, l)
    decreases k
  {
    if x == i {
      assert ReachesRoot(t', x, k' + 1);
    } else if k == 0 {
      assert ReachesRoot(t', x, 0);
    } else {
      assert SameParent(t, t', x);
      assert ReachesRoot(t, Parent(t, x), k - 1);
      MoveUp(t, t', i, d', Parent(t, x), k - 1, k');
      var l: nat :| ReachesRoot(t', Parent(t, x), l);
      assert ReachesRoot(t', x, l + 1);
    }
  }

  lemma MoveParents(t: Tree, d: int, n: Name, d': int, n': Name)
    requires WellFormed(t) && Movable(t, d, n, d', n')
    ensures var i := t[d].entries[n]; var t' := Move(t, d, n, d', n');
            && (t[i].dir ==> Parent(t', i) == d')
            && forall x :: x != i || !t[i].dir ==> SameParent(t, t', x)
  {
    var t', i := Move(t, d, n, d', n'), t[d].entries[n];
    MoveShape(t, d, n, d', n');
    hide Move;
    forall x | x != i || !t[i].dir ensures SameParent(t, t', x) {
      if x in t && DOTDOT in t[x].entries {
        assert Names(t', x, DOTDOT, t[x].entries[DOTDOT]);
      }
    }
    if t[i].dir { assert Names(t', i, DOTDOT, d'); }
  }

  lemma MoveRooted(t: Tree, d: int, n: Name, d': int, n': Name)
    requires WellFormed(t) && Movable(t, d, n, d', n')
    ensures forall e :: Rooted(Move(t, d, n, d', n'), e)
  {
    var t', i := Move(t, d, n, d', n'), t[d].entries[n];
    MoveShape(t, d, n, d', n');
    MoveParents(t, d, n, d', n');
    hide Move;
    forall e ensures Rooted(t', e) {
      assert Rooted(t, e);
      if e in t && t[e].dir {
        if t[i].dir {
          var k: nat :| ReachesRoot(t, e, k);
          var k' := MoveClear(t, t', i, d');
          MoveUp(t, t', i, d', e, k, k');
        } else {
          RootedSame(t, t', e);
        }
      }
    }
  }

  lemma MoveWellFormed(t: Tree, d: int, n: Name, d': int, n': Name)
    requires WellFormed(t) && Movable(t, d, n, d', n')
    ensures WellFormed(Move(t, d, n, d', n'))
  {
    MoveShape(t, d, n, d', n');
    MoveEntries(t, d, n, d', n');
    MoveDirs(t, d, n, d', n');
    MoveOnce(t, d, n, d', n');
    MoveRooted(t, d, n, d', n');
    hide Move;
    forall j ensures LinksOk(Move(t, d, n, d', n'), j) {
      assert LinksOk(t, j);
      if j in t { MoveRefs(t, d, n, d', n', j); }
    }
  }
}
