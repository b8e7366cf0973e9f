/** The calls of src/drivers/ext2/directory.c on a directory file. */
module Directory {
  import opened Options
  import opened DirectoryRecords
  import opened DirectoryFile
  import opened DirectoryRemains

  class Directory {
    const blockSize: nat
    var size: nat
    var file: File
    ghost var recs: seq<Rec>
    ghost var entries: map<string, nat>

    ghost predicate Valid()
      reads this
    {
      BlockSize(blockSize) && Tiled(recs, blockSize, size) && Stands(recs, entries) && Holds(file, recs) &&
          Remains(file, recs)
    }

    constructor (blockSize: nat)
      requires BlockSize(blockSize)
      ensures Valid() && entries == map[] && recs == [] && this.blockSize == blockSize
    {
      this.blockSize, size, file, recs, entries := blockSize, 0, map[], [], map[];
      new;
      NothingTiled(blockSize);
    }

    /** Where record i starts; past the last one, where the file ends. */
    ghost function OffsetOf(i: nat): nat
      reads this
    {
      if i < |recs| then recs[i].at else size
    }

    /** ext2_dir_read at a record or at the end. */
    method Read(offset: nat, ghost i: nat) returns (r: Option<Entry>)
      requires Valid() && i <= |recs| && offset == OffsetOf(i)
      ensures r == if i < |recs| then Some(EntryOf(recs[i])) else None
      ensures i < |recs| ==> recs[i].len > 0 && offset + recs[i].len == OffsetOf(i + 1)
    {
      Walk(recs, blockSize, size, i);
      hide Tiled, Stands, Remains;
      if offset >= size {
        return None;
      }
      assert HoldsOne(file, recs[i]);
      return Some(file[offset]);
    }

    /** The loop that ext2_dir_find and ext2_dir_remove share. */
    method Search(name: string) returns (entry: Option<Entry>, offset: nat, lastOffset: nat, ghost i: nat)
      requires Valid()
      ensures i <= |recs| && offset == OffsetOf(i) && (i > 0 ==> lastOffset == recs[i - 1].at)
      ensures entry == if i < |recs| then Some(EntryOf(recs[i])) else None
      ensures i < |recs| ==> recs[i].name == name
      ensures forall j :: 0 <= j < i ==> recs[j].name != name
    {
      hide Tiled, Stands, Holds, Remains;
      offset, lastOffset, i := 0, 0, 0;
      Start(recs, blockSize, size);
      entry := Read(offset, 0);
      while entry.Some?
        invariant i <= |recs| && offset == OffsetOf(i) && (i > 0 ==> lastOffset == recs[i - 1].at)
        invariant entry == if i < |recs| then Some(EntryOf(recs[i])) else None
        invariant i < |recs| ==> recs[i].len > 0 && offset + recs[i].len == OffsetOf(i + 1)
        invariant forall j :: 0 <= j < i ==> recs[j].name != name
        decreases |recs| - i
      {
        if entry.value.name == name {
          break;
        }
        lastOffset := offset;
        offset := offset + entry.value.entryLength;
        i := i + 1;
        entry := Read(offset, i);
      }
    }

    /** ext2_dir_find: finds an entry exactly when the directory has the name. */
    method Find(name: string) returns (r: Option<Entry>)
      requires Valid() && name != ""
      ensures r.None? <==> name !in entries
      ensures r.Some? ==> r.value.name == name && r.value.inode == entries[name]
    {
      hide Tiled, Holds, Remains;
      var entry, offset, lastOffset, i := Search(name);
      r := entry;
      if r.None? {
        Absent(recs, entries, name);
      }
    }

    /** The scan of fs_rmdir over the records of a directory. */
    method HoldsOnly(path: nat, number: nat) returns (empty: bool)
      requires Valid() && path != 0 && number != 0
      ensures empty <==>
        && (forall n :: n in entries ==> entries[n] == path || entries[n] == number)
        && (forall i :: 0 <= i < |recs| ==> recs[i].name != "")
    {
      hide Tiled, Stands, Holds, Remains;
      EmptiedCounts(recs, entries, path, number);
      var offset := 0;
      ghost var i := 0;
      Start(recs, blockSize, size);
      var child := Read(offset, 0);
      while child.Some?
        invariant i <= |recs| && offset == OffsetOf(i)
        invariant child == if i < |recs| then Some(EntryOf(recs[i])) else None
        invariant i < |recs| ==> recs[i].len > 0 && offset + recs[i].len == OffsetOf(i + 1)
        invariant forall j :: 0 <= j < i ==> recs[j].inode == path || recs[j].inode == number
        decreases |recs| - i
      {
        if child.value.inode != path && child.value.inode != number {
          return false;
        }
        offset := offset + child.value.entryLength;
        i := i + 1;
        child := Read(offset, i);
      }
      empty := true;
    }

    /** The first record of a block is only emptied; any other joins the one before it. */
    method RemoveAt(offset: nat, lastOffset: nat, entry: Entry, ghost k: nat)
      requires Valid() && k < |recs| && offset == recs[k].at && entry == EntryOf(recs[k]) && entry.name != ""
      requires k > 0 ==> lastOffset == recs[k - 1].at
      modifies this
      ensures Valid() && entries == old(entries) - {entry.name} && recs == Without(old(recs), blockSize, k)
    {
      hide Tiled, Stands, Holds, Remains, Written, RealLen;
      Fill(recs, blockSize, size, k);
      Start(recs, blockSize, size);
      if offset % blockSize == 0 {
        BlankedTiled(recs, blockSize, size, k);
        BlankedStands(recs, entries, k);
        BlankedHolds(file, recs, blockSize, size, k);
        BlankedRemains(file, recs, k);
        Write(offset, RealLen(""), Entry(entry.entryLength, "", 0));
        recs := Blanked(recs, k);
      } else {
        ghost var p := recs[k - 1];
        MergedTiled(recs, blockSize, size, k);
        MergedStands(recs, entries, k);
        MergedHolds(file, recs, blockSize, size, k);
        MergedRemains(file, recs, entries, blockSize, size, k);
        var last := Read(lastOffset, k - 1);
        var e := last.value;
        Write(lastOffset, RealLen(e.name), Entry(e.entryLength + entry.entryLength, e.name, e.inode));
        recs := Merged(recs, k);
      }
      entries := entries - {entry.name};
    }

    /** ext2_write_inode_content within the file or past its end. */
    method Write(at: nat, n: nat, e: Entry)
      modifies `file, `size
      ensures file == Written(old(file), at, n, e)
      ensures size == if at + n > old(size) then at + n else old(size)
    {
      file := Written(file, at, n, e);
      if at + n > size {
        size := at + n;
      }
    }

    /** ext2_dir_remove: the name goes, if it is there, and nothing else does. */
    method Remove(name: string) returns (r: int, ghost i: nat)
      requires Valid() && name != ""
      modifies this
      ensures Valid() && r == 0 && entries == old(entries) - {name}
      ensures name in old(entries) ==>
        i < |old(recs)| && old(recs)[i].name == name && recs == Without(old(recs), blockSize, i)
    {
      hide Tiled, Stands, Holds, Remains;
      var entry, offset, lastOffset;
      entry, offset, lastOffset, i := Search(name);
      if entry.Some? {
        RemoveAt(offset, lastOffset, entry.value, i);
      } else {
        Absent(recs, entries, name);
      }
      r := 0;
    }

    /** The loop of ext2_dir_add over the records. */
    method FindSlot(len: nat) returns (cur: Option<Entry>, dirOffset: nat, ghost k: nat)
      requires Valid()
      ensures IsSlot(recs, len, k) && dirOffset == OffsetOf(k)
      ensures cur == if k < |recs| then Some(EntryOf(recs[k])) else None
    {
      hide Tiled, Stands, Holds, Remains, RealLen;
      dirOffset, k := 0, 0;
      Start(recs, blockSize, size);
      cur := Read(dirOffset, 0);
      while cur.Some?
        invariant k <= |recs| && dirOffset == OffsetOf(k)
        invariant cur == if k < |recs| then Some(EntryOf(recs[k])) else None
        invariant k < |recs| ==> recs[k].len > 0 && dirOffset + recs[k].len == OffsetOf(k + 1)
        invariant forall j :: 0 <= j < k ==> !Fits(recs[j], len)
        decreases |recs| - k
      {
        if RealLen(cur.value.name) + len <= cur.value.entryLength {
          break;
        }
        dirOffset := dirOffset + cur.value.entryLength;
        k := k + 1;
        cur := Read(dirOffset, k);
      }
    }

    /**
     The end of ext2_dir_add: moves a record that reaches the end of its block to the next one,
     writes it and rounds the size up.
     */
    method Place(at: nat, length: nat, name: string, inode: nat)
      requires blockSize > 0
      modifies `file, `size
      ensures file == Written(old(file), PlaceOf(at, name, blockSize), ENTRY_HEADER_LEN + |name|,
                              Entry(if PlaceOf(at, name, blockSize) == at then length else blockSize, name, inode))
      ensures var end := PlaceOf(at, name, blockSize) + ENTRY_HEADER_LEN + |name|;
              size == Pad(if end > old(size) then end else old(size), blockSize)
    {
      var offset, entryLength, len := at, length, ENTRY_HEADER_LEN + |name|;
      Moves(at, blockSize);
      if offset % blockSize + len >= blockSize {
        offset := blockSize * (1 + offset / blockSize);
        entryLength := blockSize;
      }
      Write(offset, len, Entry(entryLength, name, inode));
      size := Pad(size, blockSize);
    }

    /** ext2_dir_add into the spare room of record k. */
    method AddInSlot(dirOffset: nat, cur: Entry, name: string, inode: nat, ghost k: nat)
      requires Valid() && |name| <= NAME_MAX_LEN && k < |recs| && IsSlot(recs, ENTRY_HEADER_LEN + |name|, k)
      requires dirOffset == recs[k].at && cur == EntryOf(recs[k])
      modifies this
      ensures file == SlotFile(old(file), old(recs)[k], blockSize, name, inode)
      ensures !Misplaced(old(recs), blockSize, ENTRY_HEADER_LEN + |name|, k) ==>
        recs == Split(old(recs), k, name, inode) && Tiled(recs, blockSize, size) && Holds(file, recs) &&
            Remains(file, recs)
      ensures Misplaced(old(recs), blockSize, ENTRY_HEADER_LEN + |name|, k) ==>
        old(size) <= size && old(recs)[k].at + old(recs)[k].len < size
      ensures entries == old(entries)
    {
      hide Tiled, Stands, Holds, Remains, Written, RealLen, Pad, PlaceOf;
      Fill(recs, blockSize, size, k);
      Below(recs, blockSize, size, k);
      var realLen := RealLen(cur.name);
      Write(dirOffset, realLen, Entry(realLen, cur.name, cur.inode));
      Place(dirOffset + realLen, cur.entryLength - realLen, name, inode);
      if !Misplaced(recs, blockSize, ENTRY_HEADER_LEN + |name|, k) {
        Stays(recs[k].at + realLen, name, blockSize);
        WholeBlocks(recs, blockSize, old(size));
        SplitTiled(recs, blockSize, old(size), k, name, inode);
        SplitHolds(old(file), recs, blockSize, old(size), k, name, inode);
        SplitRemains(old(file), recs, blockSize, old(size), k, name, inode);
        recs := Split(recs, k, name, inode);
      } else {
        MovedTo(recs, blockSize, old(size), k, name);
        ghost var end := dirOffset + cur.entryLength + ENTRY_HEADER_LEN + |name|;
        PadIsLeast(if end > old(size) then end else old(size), blockSize);
      }
    }

    /** ext2_dir_add in a new block, or in the first one. */
    method AddAtEnd(name: string, inode: nat)
      requires Valid() && |name| <= NAME_MAX_LEN && IsSlot(recs, ENTRY_HEADER_LEN + |name|, |recs|)
      modifies this
      ensures recs == Extended(old(recs), blockSize, old(size), name, inode) && Tiled(recs, blockSize, size) &&
          Holds(file, recs)
      ensures Remains(file, recs)
      ensures entries == old(entries)
    {
      hide Tiled, Stands, Holds, Remains, Written, Pad, PlaceOf;
      WholeBlocks(recs, blockSize, size);
      AtEnd(size, ENTRY_HEADER_LEN + |name|, blockSize);
      Stays(size, name, blockSize);
      Place(size, blockSize, name, inode);
      ExtendedTiled(recs, blockSize, old(size), name, inode);
      ExtendedHolds(old(file), recs, blockSize, old(size), name, inode);
      ExtendedRemains(old(file), recs, blockSize, old(size), name, inode);
      recs := Extended(recs, blockSize, old(size), name, inode);
    }

    /** The stored name would get a misplaced record. */
    ghost predicate Misplaces(recs: seq<Rec>, name: string, k: nat) {
      Misplaced(recs, blockSize, ENTRY_HEADER_LEN + |Stored(name)|, k)
    }

    /**
     ext2_dir_add: -1 and no change if the name is there. Otherwise the file
     stands for the map with the stored name added exactly when that name is
     new and its record is not misplaced; a name that is stored twice leaves a
     file that is tiled and stands for no map.
     */
    method Add(name: string, inode: nat) returns (r: int, ghost k: nat)
      requires Valid() && name != ""
      modifies this
      ensures r == if name in old(entries) then -1 else 0
      ensures r == -1 ==> Valid() && entries == old(entries) && file == old(file) && size == old(size)
      ensures r == 0 ==> IsSlot(old(recs), ENTRY_HEADER_LEN + |Stored(name)|, k)
      ensures r == 0 ==>
        (Refines(file, size, blockSize, old(entries)[Stored(name) := inode]) <==>
         Stored(name) !in old(entries) && !Misplaces(old(recs), name, k))
      ensures r == 0 && Stored(name) !in old(entries) && !Misplaces(old(recs), name, k) ==>
        && Valid() && entries == old(entries)[Stored(name) := inode]
        && recs == With(old(recs), blockSize, old(size), k, Stored(name), inode)
      ensures r == 0 && Stored(name) in old(entries) && !Misplaces(old(recs), name, k) ==>
        && Tiled(recs, blockSize, size) && Holds(file, recs)
        && forall m {:trigger Refines(file, size, blockSize, m)} :: !Refines(file, size, blockSize, m)
      ensures r == 0 && Misplaces(old(recs), name, k) ==>
        k < |old(recs)| && file == SlotFile(old(file), old(recs)[k], blockSize, Stored(name), inode)
    {
      hide Tiled, Stands, Holds, Remains, Refines, SlotFile, RealLen;
      k := 0;
      var found := Find(name);
      if found.Some? {
        return -1, 0;
      }
      var stored := Stored(name);
      Start(recs, blockSize, size);
      if stored !in entries {
        ExtendedStands(recs, entries, blockSize, size, stored, inode);
      }
      if size == 0 {
        k := 0;
        AddAtEnd(stored, inode);
        EndOutcome(old(file), old(recs), entries, blockSize, old(size), stored, inode, file, size);
      } else {
        var cur, dirOffset;
        cur, dirOffset, k := FindSlot(ENTRY_HEADER_LEN + |stored|);
        if cur.Some? {
          if stored !in entries {
            SplitStands(recs, entries, k, stored, inode);
          }
          AddInSlot(dirOffset, cur.value, stored, inode, k);
          SlotOutcome(old(file), old(recs), entries, blockSize, old(size), k, stored, inode, file, size);
        } else {
          AddAtEnd(stored, inode);
          EndOutcome(old(file), old(recs), entries, blockSize, old(size), stored, inode, file, size);
        }
      }
      entries := entries[stored := inode];
      r := 0;
    }
  }

  /** A name added is found, and gone again once removed, with every other entry as it was. */
  method AddFindRemove(dir: Directory, name: string, inode: nat) returns (found: Option<Entry>)
    requires dir.Valid() && name != "" && |name| <= NAME_MAX_LEN && name !in dir.entries
    requires !EndsWithBlock(dir.recs, dir.blockSize, ENTRY_HEADER_LEN + |name|)
    modifies dir
    ensures found.Some? && found.value.inode == inode && dir.Valid() && dir.entries == old(dir.entries)
  {
    hide Tiled, Stands, Holds, Remains, SlotFile, Misplaced, RealLen, IsSlot;
    var r, k := dir.Add(name, inode);
    found := dir.Find(name);
    r, k := dir.Remove(name);
  }
}
