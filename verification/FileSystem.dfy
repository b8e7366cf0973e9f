/**
 The namespace operations of src/system/fs/fs.c and the rename system call of
 src/system/call/io.c, step by step on the inode table.
 */
module FileSystem {
  import opened Namespace
  import opened Sets

  /** How rename ends: the source moved, a refusal, or the use of the inode of a source that does not exist. */
  datatype Renaming = Moved | Refused | NullAccess

  datatype Code = Success | ENOENT | ENOTDIR | EEXIST | ENOTEMPTY | EISDIR | Failed

  /** fs_rmdir's scan: is every entry's number one of the two? */
  method HoldsOnly(entries: map<Name, int>, a: int, b: int) returns (ok: bool)
    ensures ok <==> forall m :: m in entries ==> entries[m] == a || entries[m] == b
  {
    var rest := entries.Keys;
    while rest != {}
      invariant rest <= entries.Keys
      invariant forall m :: m in entries && m !in rest ==> entries[m] == a || entries[m] == b
      decreases rest
    {
      var m := PickOne(rest);
      if entries[m] != a && entries[m] != b {
        return false;
      }
      rest := rest - {m};
    }
    ok := true;
  }

  /**
   rename's check before moving directory src below d: it is refused exactly
   when src is d, the root, or any other ancestor of d.  The climb over the
   dot-dot entries ends at the root.
   */
  method MoveRefused(t: Tree, src: int, d: int) returns (refused: bool)
    requires WellFormed(t) && d in t && t[d].dir
    ensures refused <==> Ancestor(t, src, d)
  {
    if d == src {
      assert Up(t, d, 0) == src;
      return true;
    }
    assert Rooted(t, d);
    ghost var k: nat :| ReachesRoot(t, d, k);
    if src == ROOT {
      return true;
    }
    assert DirOk(t, d);
    var sub := t[d].entries[DOTDOT];
    ghost var j := 1;
    ghost var steps := RootFrom(t, sub);
    while sub != ROOT
      invariant sub in t && t[sub].dir && sub == Up(t, d, j) && ReachesRoot(t, sub, steps)
      invariant forall i: nat :: i < j ==> Up(t, d, i) != src
      decreases steps
    {
      if sub == src {
        return true;
      }
      assert DirOk(t, sub);
      UpSplit(t, d, j, 1);
      assert Up(t, sub, 1) == Parent(t, sub);
      sub := t[sub].entries[DOTDOT];
      j := j + 1;
      steps := steps - 1;
    }
    forall i: nat ensures Up(t, d, i) != src {
      if i >= j {
        UpSplit(t, d, j, i - j);
        RootStays(t, i - j);
      }
    }
    refused := false;
  }

  lemma RootFrom(t: Tree, d: int) returns (k: nat)
    requires WellFormed(t) && d in t && t[d].dir
    ensures ReachesRoot(t, d, k)
  {
    assert Rooted(t, d);
    k :| ReachesRoot(t, d, k);
  }

  lemma {:induction false} RootStays(t: Tree, k: nat)
    requires WellFormed(t)
    ensures Up(t, ROOT, k) == ROOT
    decreases k
  {
    assert DirOk(t, ROOT);
    if k > 0 { RootStays(t, k - 1); }
  }

  class FileSystem {
    var inodes: Tree

    constructor ()
      ensures WellFormed(inodes) && inodes == Empty()
    {
      inodes := Empty();
      EmptyWellFormed();
    }

    /** remove_link: takes entry n out of d if d still exists, and deletes inode i with its last link. */
    method RemoveLink(d: int, n: Name, i: int)
      requires i in inodes
      modifies this
      ensures inodes == RemovedLink(old(inodes), d, n, i)
    {
      if d in inodes {
        inodes := inodes[d := inodes[d].(entries := inodes[d].entries - {n})];
      }
      inodes := inodes[i := inodes[i].(links := inodes[i].links - 1)];
      if inodes[i].links == 0 {
        inodes := inodes - {i};
      }
    }

    /** add_link: refuses a taken name, otherwise adds the entry and counts it. */
    method AddLink(d: int, n: Name, i: int) returns (res: Code)
      requires d in inodes && i in inodes
      modifies this
      ensures res == if n in old(inodes)[d].entries then EEXIST else Success
      ensures inodes == if res.Success? then AddedLink(old(inodes), d, n, i) else old(inodes)
    {
      if n in inodes[d].entries {
        return EEXIST;
      }
      inodes := inodes[d := inodes[d].(entries := inodes[d].entries[n := i])];
      inodes := inodes[i := inodes[i].(links := inodes[i].links + 1)];
      res := Success;
    }

    /** fs_mknod, for a type other than directory; number is the inode the allocator hands out. */
    method FsMknod(d: int, n: Name, number: int) returns (res: Code)
      requires WellFormed(inodes) && d in inodes && inodes[d].dir && Plain(n) && number !in inodes
      modifies this
      ensures WellFormed(inodes)
      ensures res == if n in old(inodes)[d].entries then EEXIST else Success
      ensures inodes == if res.Success? then Mknod(old(inodes), d, n, number) else old(inodes)
      ensures res.Success? ==>
        inodes.Keys == old(inodes).Keys + {number} && !inodes[number].dir && forall e, m, x ::
          Names(inodes, e, m, x) <==> if (e, m) == (d, n) then x == number else Names(old(inodes), e, m, x)
    {
      if n in inodes[d].entries {
        return EEXIST;
      }
      MknodWellFormed(inodes, d, n, number);
      MknodShape(inodes, d, n, number);
      hide WellFormed;
      inodes := inodes[number := Inode(false, 0, map[])];
      res := AddLink(d, n, number);
      assert inodes == Mknod(old(inodes), d, n, number);
    }

    /** fs_mkdir. */
    method FsMkdir(d: int, n: Name, number: int) returns (res: Code)
      requires WellFormed(inodes) && d in inodes && inodes[d].dir && Plain(n) && number !in inodes
      modifies this
      ensures WellFormed(inodes)
      ensures res == if n in old(inodes)[d].entries then EEXIST else Success
      ensures inodes == if res.Success? then Mkdir(old(inodes), d, n, number) else old(inodes)
      ensures res.Success? ==>
        inodes.Keys == old(inodes).Keys + {number} && inodes[number].dir && forall e, m, x ::
          Names(inodes, e, m, x) <==>
            if (e, m) == (d, n) || (e, m) == (number, DOT) then x == number
            else if (e, m) == (number, DOTDOT) then x == d
            else Names(old(inodes), e, m, x)
    {
      if n in inodes[d].entries {
        return EEXIST;
      }
      MkdirWellFormed(inodes, d, n, number);
      MkdirShape(inodes, d, n, number);
      hide WellFormed;
      inodes := inodes[number := Inode(true, 0, map[])];
      res := AddLink(d, n, number);
      if res == Success {
        var ignored := AddLink(number, DOT, number);
        ignored := AddLink(number, DOTDOT, d);
      }
      assert inodes == Mkdir(old(inodes), d, n, number);
    }

    /** fs_unlink. */
    method FsUnlink(d: int, n: Name) returns (res: Code)
      requires WellFormed(inodes) && d in inodes
      modifies this
      ensures WellFormed(inodes)
      ensures n !in old(inodes)[d].entries ==> res == ENOENT
      ensures IsDir(old(inodes), d, n) ==> res == EISDIR
      ensures res.Success? <==> IsFile(old(inodes), d, n)
      ensures if res.Success? then old(inodes)[d].entries[n] != d && inodes == Unlink(old(inodes), d, n)
              else inodes == old(inodes)
      ensures res.Success? ==>
        forall e, m, x :: Names(inodes, e, m, x) <==> (e, m) != (d, n) && Names(old(inodes), e, m, x)
    {
      if n !in inodes[d].entries {
        return ENOENT;
      }
      assert EntryOk(inodes, d, n);
      var i := inodes[d].entries[n];
      if inodes[i].dir {
        return EISDIR;
      }
      FileHasNoEntries(inodes, d, n);
      UnlinkWellFormed(inodes, d, n);
      UnlinkShape(inodes, d, n);
      hide WellFormed;
      RemoveLink(d, n, i);
      assert inodes == Unlink(old(inodes), d, n);
      res := Success;
    }

    /** fs_rmdir: removes exactly directories that hold only their dot entries. */
    method FsRmdir(d: int, n: Name) returns (res: Code)
      requires WellFormed(inodes) && d in inodes && Plain(n)
      modifies this
      ensures WellFormed(inodes)
      ensures n !in old(inodes)[d].entries ==> res == ENOENT
      ensures IsFile(old(inodes), d, n) ==> res == ENOTDIR
      ensures IsDir(old(inodes), d, n) ==>
                var dir := old(inodes)[old(inodes)[d].entries[n]];
                res == if dir.entries.Keys == {DOT, DOTDOT} then Success else ENOTEMPTY
      ensures inodes == if res.Success? then Rmdir(old(inodes), d, n) else old(inodes)
      ensures res.Success? ==>
        IsDir(old(inodes), d, n) && var i := old(inodes)[d].entries[n];
        inodes.Keys == old(inodes).Keys - {i} && forall e, m, x ::
          Names(inodes, e, m, x) <==> (e, m) != (d, n) && e != i && Names(old(inodes), e, m, x)
    {
      if n !in inodes[d].entries {
        return ENOENT;
      }
      assert EntryOk(inodes, d, n);
      var x := inodes[d].entries[n];
      if !inodes[x].dir {
        return ENOTDIR;
      }
      EmptinessTest(inodes, d, n);
      var empty := HoldsOnly(inodes[x].entries, d, x);
      if !empty {
        return ENOTEMPTY;
      }
      RmdirTarget(inodes, d, n);
      RmdirLinks(inodes, d, n);
      RmdirParent(inodes, d, n);
      RmdirWellFormed(inodes, d, n);
      RmdirShape(inodes, d, n);
      hide WellFormed;
      RemoveLink(d, n, x);
      if inodes[x].links == 1 {
        RemoveLink(x, DOT, x);
        RemoveLink(x, DOTDOT, d);
      }
      assert inodes == Rmdir(old(inodes), d, n);
      res := Success;
    }

    /** fs_rename: gives the inode named n in d the free name n' in d'. */
    method FsRename(d: int, n: Name, d': int, n': Name) returns (res: Code)
      requires WellFormed(inodes) && d in inodes && d' in inodes
      requires n in inodes[d].entries ==> inodes[d].entries[n] in inodes && Movable(inodes, d, n, d', n')
      modifies this
      ensures WellFormed(inodes)
      ensures res == if n in old(inodes)[d].entries then Success else ENOENT
      ensures inodes == if res.Success? then Move(old(inodes), d, n, d', n') else old(inodes)
      ensures res.Success? ==>
        inodes.Keys == old(inodes).Keys && Relocated(old(inodes), inodes, old(inodes)[d].entries[n], d, n, d', n')
    {
      if n !in inodes[d].entries {
        return ENOENT;
      }
      var i := inodes[d].entries[n];
      MoveShape(inodes, d, n, d', n');
      MoveWellFormed(inodes, d, n, d', n');
      if inodes[i].dir {
        RmdirTarget(inodes, d, n);
        RmdirParent(inodes, d, n);
        hide WellFormed;
        ghost var entries := inodes[i].entries;
        RemoveLink(i, DOTDOT, d);
        var ignored := AddLink(i, DOTDOT, d');
        assert (entries - {DOTDOT})[DOTDOT := d'] == entries[DOTDOT := d'];
        assert inodes == Reparented(old(inodes), i, d, d');
      }
      hide WellFormed;
      inodes := inodes[d' := inodes[d'].(entries := inodes[d'].entries[n' := i])];
      inodes := inodes[d := inodes[d].(entries := inodes[d].entries - {n})];
      assert inodes == Move(old(inodes), d, n, d', n');
      res := Success;
    }

    /** The unlink system call inside rename: needs write access to the directory and the file. */
    method UnlinkCall(d: int, n: Name, writable: set<int>) returns (ok: bool)
      requires WellFormed(inodes) && IsFile(inodes, d, n) && inodes[d].entries[n] != d
      modifies this
      ensures WellFormed(inodes)
      ensures ok <==> d in writable && old(inodes)[d].entries[n] in writable
      ensures inodes == if ok then Unlink(old(inodes), d, n) else old(inodes)
    {
      if d !in writable || inodes[d].entries[n] !in writable {
        return false;
      }
      var res := FsUnlink(d, n);
      ok := true;
    }

    /**
     The rename system call, from resolved parent directories on.  writable
     holds the inodes the caller may write to.  It succeeds exactly when
     Renamable says so; a file in the way is replaced; and moving a file into
     the directory it is in, under its own name, unlinks it.  The inode of a
     source that does not exist is used before anything is checked.
     */
    method Rename(cwd: int, d: int, n: Name, e: int, m: Name, writable: set<int>) returns (res: Renaming)
      requires WellFormed(inodes) && d in inodes && inodes[d].dir && e in inodes && inodes[e].dir
      requires Plain(n) && Plain(m)
      modifies this
      ensures WellFormed(inodes)
      ensures res == NullAccess <==> n !in old(inodes)[d].entries
      ensures res == Moved <==>
        Renamable(old(inodes), cwd, d, n, e, m, writable) && !OntoItself(old(inodes), d, n, e, m)
      ensures inodes == Renamed(old(inodes), cwd, d, n, e, m, writable)
      ensures res == Moved ==>
        var t := old(inodes);
        if IsDir(t, e, m) then Relocated(t, inodes, t[d].entries[n], d, n, t[e].entries[m], n)
        else Relocated(t, inodes, t[d].entries[n], d, n, e, m)
      ensures res == Refused ==>
        if Renamable(old(inodes), cwd, d, n, e, m, writable)
        then forall x, k, i :: Names(inodes, x, k, i) <==> (x, k) != (d, n) && Names(old(inodes), x, k, i)
        else inodes == old(inodes)
    {
      if n !in inodes[d].entries {
        return NullAccess;
      }
      var src := inodes[d].entries[n];
      assert EntryOk(inodes, d, n) && EntryOk(inodes, e, m);
      if src == cwd || src !in writable || (n == m && d == e) {
        return Refused;
      }
      var isDir := inodes[src].dir;
      var to, name := e, m;
      if m in inodes[e].entries && inodes[inodes[e].entries[m]].dir {
        to, name := inodes[e].entries[m], n;
      }
      assert EntryOk(inodes, to, name);
      if name in inodes[to].entries {
        if inodes[inodes[to].entries[name]].dir || isDir {
          return Refused;
        }
        FileHasNoEntries(inodes, to, name);
        var unlinked := UnlinkCall(to, name, writable);
        if !unlinked {
          return Refused;
        }
        AfterUnlink(old(inodes), d, n, to, name);
      }
      if to !in writable {
        return Refused;
      }
      if isDir {
        var refused := MoveRefused(inodes, src, to);
        if refused {
          return Refused;
        }
      }
      var code := FsRename(d, n, to, name);
      RenamedNames(old(inodes), cwd, d, n, e, m, writable);
      res := if code.Success? then Moved else Refused;
    }

    /** One call, with arguments any caller may give; calls on what is no directory do not get here. */
    method Execute(op: Op)
      requires WellFormed(inodes)
      modifies this
      ensures inodes == Apply(old(inodes), op)
    {
      assert EntryOk(inodes, op.d, op.n);
      hide WellFormed;
      if !Callable(inodes, op) {
        return;
      }
      match op {
        case MknodOp(d, n, number) => var _ := FsMknod(d, n, number);
        case MkdirOp(d, n, number) => var _ := FsMkdir(d, n, number);
        case UnlinkOp(d, n) => var _ := FsUnlink(d, n);
        case RmdirOp(d, n) => var _ := FsRmdir(d, n);
        case RenameOp(cwd, d, n, e, m, writable) => var _ := Rename(cwd, d, n, e, m, writable);
      }
    }
  }

  /** Where rename puts the inode: in directory e under name m, or inside that if it is a directory. */
  function Landing(t: Tree, n: Name, e: int, m: Name): (int, Name)
    requires e in t && (m in t[e].entries ==> t[e].entries[m] in t)
  {
    if m in t[e].entries && t[t[e].entries[m]].dir then (t[e].entries[m], n) else (e, m)
  }

  /** Every check of rename passes. */
  ghost predicate Renamable(t: Tree, cwd: int, d: int, n: Name, e: int, m: Name, writable: set<int>)
    requires WellFormed(t) && d in t && e in t
  {
    && n in t[d].entries
    && assert EntryOk(t, d, n) && EntryOk(t, e, m);
    var src := t[d].entries[n];
    && src != cwd && src in writable && !(n == m && d == e)
    && var (to, name) := Landing(t, n, e, m);
    && to in t && to in writable
    && (name in t[to].entries ==> IsFile(t, to, name) && !t[src].dir && t[to].entries[name] in writable)
    && (t[src].dir ==> !Ancestor(t, src, to))
  }

  /** The place rename would move the file to is the place it has. */
  ghost predicate OntoItself(t: Tree, d: int, n: Name, e: int, m: Name)
    requires WellFormed(t) && e in t
  {
    assert EntryOk(t, e, m);
    Landing(t, n, e, m) == (d, n)
  }

  ghost function Renamed(t: Tree, cwd: int, d: int, n: Name, e: int, m: Name, writable: set<int>): Tree
    requires WellFormed(t) && d in t && t[d].dir && e in t && t[e].dir && Plain(n) && Plain(m)
  {
    if !Renamable(t, cwd, d, n, e, m, writable) then t
    else
      assert EntryOk(t, d, n) && EntryOk(t, e, m);
      var (to, name) := Landing(t, n, e, m);
      if name in t[to].entries then
        FileHasNoEntries(t, to, name);
        if (to, name) == (d, n) then Unlink(t, to, name)
        else
          AfterUnlink(t, d, n, to, name);
          Move(Unlink(t, to, name), d, n, to, name)
      else Move(t, d, n, to, name)
  }

  /** Replacing another file leaves the moved one in place, with its landing place free. */
  lemma AfterUnlink(t: Tree, d: int, n: Name, to: int, name: Name)
    requires WellFormed(t) && IsFile(t, to, name) && t[to].entries[name] != to && IsFile(t, d, n)
    ensures var t' := Unlink(t, to, name);
            && to in t' && name !in t'[to].entries && t'[to].dir && d in t'
            && ((to, name) != (d, n) ==> IsFile(t', d, n) && t'[d].entries[n] == t[d].entries[n])
  {
    FileHasNoEntries(t, to, name);
    FileHasNoEntries(t, d, n);
    var i := t[to].entries[name];
    assert LinksOk(t, i);
    if t[d].entries[n] == i && t[i].links == 1 {
      OneRef(t, i, to, name, d, n);
    }
  }

  function RemovedLink(t: Tree, d: int, n: Name, i: int): Tree
    requires i in t
  {
    var t1 := if d in t then t[d := t[d].(entries := t[d].entries - {n})] else t;
    var t2 := t1[i := t1[i].(links := t1[i].links - 1)];
    if t2[i].links == 0 then t2 - {i} else t2
  }

  function AddedLink(t: Tree, d: int, n: Name, i: int): Tree
    requires d in t && i in t
  {
    var t1 := t[d := t[d].(entries := t[d].entries[n := i])];
    t1[i := t1[i].(links := t1[i].links + 1)]
  }

  /** How far an inode's link count is from the number of entries that name it. */
  ghost function Surplus(t: Tree, x: int): int
    requires x in t
  {
    t[x].links - |Refs(t, x)|
  }

  lemma AddedLinkRefs(t: Tree, d: int, n: Name, i: int, x: int)
    requires d in t && i in t && n !in t[d].entries
    ensures Refs(AddedLink(t, d, n, i), x) == if x == i then Refs(t, x) + {(d, n)} else Refs(t, x)
    ensures (d, n) !in Refs(t, x)
  {
  }

  /** The entry and the count go together: the surplus of every inode is kept. */
  lemma AddedLinkCounts(t: Tree, d: int, n: Name, i: int)
    requires d in t && i in t && n !in t[d].entries
    ensures var t' := AddedLink(t, d, n, i);
            && t'.Keys == t.Keys && Refs(t', i) == Refs(t, i) + {(d, n)}
            && forall x :: x in t' ==> Surplus(t', x) == Surplus(t, x)
  {
    hide Refs;
    var t' := AddedLink(t, d, n, i);
    AddedLinkRefs(t, d, n, i, i);
    forall x | x in t' ensures Surplus(t', x) == Surplus(t, x) {
      AddedLinkRefs(t, d, n, i, x);
    }
  }

  /** Exactly that entry goes, and with a deleted inode its own entries. */
  lemma RemovedLinkRefs(t: Tree, d: int, n: Name, i: int)
    requires i in t
    ensures var t' := RemovedLink(t, d, n, i);
            && (i in t' <==> t[i].links != 1)
            && (Names(t, d, n, i) ==> forall x, r :: r in Refs(t', x) <==> r in Refs(t, x) && r != (d, n) && r.0 in t')
  {
  }

  /** The entry and the count go together here too, while the inode lives on. */
  lemma RemovedLinkCounts(t: Tree, d: int, n: Name, i: int)
    requires i in t && t[i].links != 1 && Names(t, d, n, i)
    ensures var t' := RemovedLink(t, d, n, i);
            t'.Keys == t.Keys && forall x :: x in t' ==> Surplus(t', x) == Surplus(t, x)
  {
    var t' := RemovedLink(t, d, n, i);
    RemovedLinkRefs(t, d, n, i);
    hide Refs;
    forall x | x in t' ensures Surplus(t', x) == Surplus(t, x) {
      OneRefLess(t, d, n, i, x);
    }
  }

  lemma OneRefLess(t: Tree, d: int, n: Name, i: int, x: int)
    requires i in t && t[i].links != 1 && Names(t, d, n, i)
    ensures Refs(RemovedLink(t, d, n, i), x) == Refs(t, x) - {(d, n)}
    ensures (d, n) in Refs(t, x) <==> x == i
  {
    var t' := RemovedLink(t, d, n, i);
    RemovedLinkRefs(t, d, n, i);
    forall r ensures r in Refs(t', x) <==> r in Refs(t, x) - {(d, n)} {
      assert r in Refs(t, x) ==> r.0 in t';
    }
  }

  /** A directory with a subdirectory has more than one link left once that is gone. */
  lemma RmdirParent(t: Tree, d: int, n: Name)
    requires WellFormed(t) && IsDir(t, d, n) && Plain(n)
    ensures t[d].links >= 2
  {
    RmdirTarget(t, d, n);
    assert LinksOk(t, d) && DirOk(t, d);
    var x := t[d].entries[n];
    assert {(d, DOT), (x, DOTDOT)} <= Refs(t, d);
    assert (d, DOT) != (x, DOTDOT);
    var two := {(d, DOT), (x, DOTDOT)};
    assert |two| == 2;
    assert Refs(t, d) == two + (Refs(t, d) - two);
  }

  // Whole runs.

  datatype Op =
    | MknodOp(d: int, n: Name, number: int)
    | MkdirOp(d: int, n: Name, number: int)
    | UnlinkOp(d: int, n: Name)
    | RmdirOp(d: int, n: Name)
    | RenameOp(cwd: int, d: int, n: Name, e: int, m: Name, writable: set<int>)

  predicate Callable(t: Tree, op: Op) {
    && op.d in t && t[op.d].dir && Plain(op.n)
    && (op.MknodOp? || op.MkdirOp? ==> op.number !in t)
    && (op.RenameOp? ==> op.e in t && t[op.e].dir && Plain(op.m))
  }

  /** The tree after a call, as the methods of FileSystem compute it. */
  ghost function Apply(t: Tree, op: Op): Tree
    requires WellFormed(t)
  {
    if !Callable(t, op) then t
    else match op
      case MknodOp(d, n, i) => if n in t[d].entries then t else Mknod(t, d, n, i)
      case MkdirOp(d, n, i) => if n in t[d].entries then t else Mkdir(t, d, n, i)
      case UnlinkOp(d, n) => if IsFile(t, d, n) && t[d].entries[n] != d then Unlink(t, d, n) else t
      case RmdirOp(d, n) =>
        if IsDir(t, d, n) && t[t[d].entries[n]].entries.Keys == {DOT, DOTDOT} then Rmdir(t, d, n) else t
      case RenameOp(cwd, d, n, e, m, writable) => Renamed(t, cwd, d, n, e, m, writable)
  }

  lemma RenamedWellFormed(t: Tree, cwd: int, d: int, n: Name, e: int, m: Name, writable: set<int>)
    requires WellFormed(t) && d in t && t[d].dir && e in t && t[e].dir && Plain(n) && Plain(m)
    ensures WellFormed(Renamed(t, cwd, d, n, e, m, writable))
  {
    if Renamable(t, cwd, d, n, e, m, writable) {
      assert EntryOk(t, d, n) && EntryOk(t, e, m);
      var (to, name) := Landing(t, n, e, m);
      if name in t[to].entries {
        FileHasNoEntries(t, to, name);
        UnlinkWellFormed(t, to, name);
        AfterUnlink(t, d, n, to, name);
        if (to, name) != (d, n) { MoveWellFormed(Unlink(t, to, name), d, n, to, name); }
      } else {
        MoveWellFormed(t, d, n, to, name);
      }
    }
  }

  /**
   When a rename moves: the inode is not the current directory, it and the directory it lands in are
   writable, it does not land where it is, a directory lands on a free name and not below itself, and
   a file lands on a free name or on a file that is writable.
   */
  lemma RenameMoves(t: Tree, cwd: int, d: int, n: Name, e: int, m: Name, writable: set<int>)
    requires WellFormed(t) && d in t && e in t && n in t[d].entries && t[d].entries[n] in t
    ensures var src := t[d].entries[n]; var inside := IsDir(t, e, m);
            var to, name := if inside then t[e].entries[m] else e, if inside then n else m;
            Renamable(t, cwd, d, n, e, m, writable) && !OntoItself(t, d, n, e, m) <==>
              && src != cwd && {src, to} <= writable && (e, m) != (d, n) && (to, name) != (d, n)
              && (t[src].dir ==> !Ancestor(t, src, to) && name !in t[to].entries)
              && (name in t[to].entries ==> t[to].entries[name] in writable && !IsDir(t, to, name))
  {
    assert EntryOk(t, e, m);
    var inside := IsDir(t, e, m);
    var to, name := if inside then t[e].entries[m] else e, if inside then n else m;
    assert EntryOk(t, to, name);
  }

  /**
   Where everything is after a rename: its old name is gone, its landing place names it, a moved directory
   has the directory it landed in as its parent, and every other entry stands. A file found in its own
   way only loses that name.
   */
  lemma RenamedNames(t: Tree, cwd: int, d: int, n: Name, e: int, m: Name, writable: set<int>)
    requires WellFormed(t) && d in t && t[d].dir && e in t && t[e].dir && Plain(n) && Plain(m)
    requires Renamable(t, cwd, d, n, e, m, writable)
    ensures var t' := Renamed(t, cwd, d, n, e, m, writable);
            if OntoItself(t, d, n, e, m)
            then forall x, k, i :: Names(t', x, k, i) <==> (x, k) != (d, n) && Names(t, x, k, i)
            else if IsDir(t, e, m) then Relocated(t, t', t[d].entries[n], d, n, t[e].entries[m], n)
            else Relocated(t, t', t[d].entries[n], d, n, e, m)
  {
    assert EntryOk(t, d, n) && EntryOk(t, e, m);
    var (to, name) := Landing(t, n, e, m);
    assert to in t && t[to].dir && Plain(name);
    if name in t[to].entries {
      FileHasNoEntries(t, to, name);
      UnlinkShape(t, to, name);
      UnlinkWellFormed(t, to, name);
      AfterUnlink(t, d, n, to, name);
      if (to, name) != (d, n) { MoveShape(Unlink(t, to, name), d, n, to, name); }
    } else {
      MoveShape(t, d, n, to, name);
    }
  }

  lemma ApplyWellFormed(t: Tree, op: Op)
    requires WellFormed(t)
    ensures WellFormed(Apply(t, op))
  {
    if Callable(t, op) {
      match op
      case MknodOp(d, n, i) => if n !in t[d].entries { MknodWellFormed(t, d, n, i); }
      case MkdirOp(d, n, i) => if n !in t[d].entries { MkdirWellFormed(t, d, n, i); }
      case UnlinkOp(d, n) => if IsFile(t, d, n) && t[d].entries[n] != d { UnlinkWellFormed(t, d, n); }
      case RmdirOp(d, n) =>
        if IsDir(t, d, n) && t[t[d].entries[n]].entries.Keys == {DOT, DOTDOT} { RmdirWellFormed(t, d, n); }
      case RenameOp(cwd, d, n, e, m, writable) => RenamedWellFormed(t, cwd, d, n, e, m, writable);
    }
  }

  ghost function Run(ops: seq<Op>): (t: Tree)
    ensures WellFormed(t)
  {
    if ops == [] then EmptyWellFormed(); Empty()
    else
      var t := Run(ops[..|ops| - 1]);
      ApplyWellFormed(t, ops[|ops| - 1]);
      Apply(t, ops[|ops| - 1])
  }

  /** Run is what the methods do, call after call, to an empty file system. */
  method Play(ops: seq<Op>) returns (fs: FileSystem)
    ensures fresh(fs) && fs.inodes == Run(ops)
  {
    fs := new FileSystem();
    hide Apply, WellFormed;
    for i := 0 to |ops|
      invariant fresh(fs) && fs.inodes == Run(ops[..i])
    {
      assert ops[..i + 1][..i] == ops[..i];
      fs.Execute(ops[i]);
    }
    assert ops[..|ops|] == ops;
  }

  /** After every run: link counts are entry counts, and no entry names a deleted inode. */
  lemma RunCountsLinks(ops: seq<Op>, i: int)
    ensures var t := Run(ops); if i in t then t[i].links == |Refs(t, i)| else Refs(t, i) == {}
  {
    var t := Run(ops);
    assert LinksOk(t, i);
    if i !in t { NoRefsToDead(t, i); }
  }

  /**
   After every run the directories are a tree rooted at inode 2: climbing ends
   there, and every other directory has exactly one name, in the directory its
   dot-dot entry names.
   */
  lemma RunIsTree(ops: seq<Op>, x: int)
    requires x in Run(ops) && Run(ops)[x].dir
    ensures var t := Run(ops);
            && (exists k: nat :: Up(t, x, k) == ROOT)
            && (x != ROOT ==> exists n :: Plain(n) && Names(t, Parent(t, x), n, x))
            && (forall d, n, d', n' :: Plain(n) && Plain(n') && Names(t, d, n, x) && Names(t, d', n', x) ==>
                  x != ROOT && d == d' == Parent(t, x) && n == n')
  {
    var t := Run(ops);
    assert Rooted(t, x) && DirOk(t, x);
    var k: nat :| ReachesRoot(t, x, k);
    forall d, n, d', n' | Plain(n) && Plain(n') && Names(t, d, n, x) && Names(t, d', n', x)
      ensures x != ROOT && d == d' == Parent(t, x) && n == n'
    {
      assert EntryOk(t, d, n) && EntryOk(t, d', n');
      assert NamedOnce(t, d, n, n');
    }
  }

  // What becomes of the file that rename is called for.

  /** It lives on unless rename finds it in its own way and it has no other name. */
  lemma RenameKeepsFile(t: Tree, cwd: int, d: int, n: Name, e: int, m: Name, writable: set<int>)
    requires WellFormed(t) && d in t && t[d].dir && e in t && t[e].dir && Plain(n) && Plain(m) && n in t[d].entries
    ensures var src := t[d].entries[n];
            && src in t
            && (src in Renamed(t, cwd, d, n, e, m, writable) <==>
                !(Renamable(t, cwd, d, n, e, m, writable) && OntoItself(t, d, n, e, m) && t[src].links == 1))
  {
    assert EntryOk(t, d, n) && EntryOk(t, e, m);
    var src := t[d].entries[n];
    if Renamable(t, cwd, d, n, e, m, writable) {
      var (to, name) := Landing(t, n, e, m);
      assert EntryOk(t, to, name);
      if name in t[to].entries {
        FileHasNoEntries(t, to, name);
        AfterUnlink(t, d, n, to, name);
      }
    }
  }

  /** A directory d, a file x in it, and d/x renamed to d. */
  function OntoItsDirectory(): seq<Op> {
    [MkdirOp(ROOT, "d", 11), MknodOp(11, "x", 12), RenameOp(ROOT, 11, "x", ROOT, "d", {11, 12})]
  }

  /** The file is there before that call and gone after it. */
  lemma RenameLosesFile()
    ensures var ops := OntoItsDirectory(); 12 in Run(ops[..2]) && 12 !in Run(ops)
  {
    var ops := OntoItsDirectory();
    assert ops[..3] == ops && ops[..0] == [];
    assert ops[..1][..0] == [] && ops[..2][..1] == ops[..1] && ops[..3][..2] == ops[..2];
    var t0, t1, t2 := Run([]), Run(ops[..1]), Run(ops[..2]);
    assert t1 == Apply(t0, ops[0]) && t2 == Apply(t1, ops[1]) && Run(ops) == Apply(t2, ops[2]);
    PlainLetters();
    hide Run, WellFormed;
    assert t2 == Mknod(Mkdir(Empty(), ROOT, "d", 11), 11, "x", 12);
    RenameKeepsFile(t2, ROOT, 11, "x", ROOT, "d", {11, 12});
  }

  lemma PlainLetters()
    ensures Plain("d") && Plain("x")
  {
  }
}
