/**
 Two-level page tables, as src/system/mm/pagination.c builds and reads them:
 1024 directory entries, each naming a table of 1024 pages. Addresses have
 32 bits and wrap.
 */
module Paging {

  const TWO32 := 0x1_0000_0000
  const PAGE_SIZE := 4096
  const PAGES := 0x10_0000
  const ENTRIES := 1024

  datatype DirectoryEntry = DirectoryEntry(present: bool, tableAddress: nat)
  datatype TableEntry = TableEntry(present: bool, pageAddress: nat, user: bool, rw: bool)

  /** What a virtual page stands for. */
  datatype Frame = Frame(number: nat, user: bool, rw: bool)

  type Table = seq<TableEntry>

  /** Present directory entries have tables, and no two share one. */
  ghost predicate WellFormed(dir: seq<DirectoryEntry>, tables: map<nat, Table>) {
    && |dir| == ENTRIES
    && (forall d :: 0 <= d < |dir| && dir[d].present ==>
      dir[d].tableAddress in tables && |tables[dir[d].tableAddress]| == ENTRIES)
    && (forall d, e :: 0 <= d < |dir| && 0 <= e < |dir| && d != e && dir[d].present && dir[e].present ==>
        dir[d].tableAddress != dir[e].tableAddress)
  }

  ghost predicate Mapped(dir: seq<DirectoryEntry>, tables: map<nat, Table>, d: nat, t: nat)
    requires WellFormed(dir, tables) && d < ENTRIES && t < ENTRIES
  {
    dir[d].present && tables[dir[d].tableAddress][t].present
  }

  ghost function FrameAt(dir: seq<DirectoryEntry>, tables: map<nat, Table>, d: nat, t: nat): Frame
    requires WellFormed(dir, tables) && d < ENTRIES && t < ENTRIES && Mapped(dir, tables, d, t)
  {
    var e := tables[dir[d].tableAddress][t];
    Frame(e.pageAddress, e.user, e.rw)
  }

  /** The partial map from virtual pages to frames that the tables stand for. */
  ghost function View(dir: seq<DirectoryEntry>, tables: map<nat, Table>): map<nat, Frame>
    requires WellFormed(dir, tables)
  {
    map p | 0 <= p < PAGES && Mapped(dir, tables, p / ENTRIES, p % ENTRIES) :: FrameAt(dir, tables, p / ENTRIES,
        p % ENTRIES)
  }

  /** mm_pagination_map of one page: only an absent page is added. */
  function Added(view: map<nat, Frame>, p: nat, f: Frame): map<nat, Frame> {
    if p in view then view else view[p := f]
  }

  /** The virtual page and the frame of round i of mm_pagination_map. */
  function PageAt(address: nat, i: nat): (p: nat)
    ensures p < PAGES
  {
    (address + i * PAGE_SIZE) % TWO32 / PAGE_SIZE
  }

  /** mm_pagination_map */
  function MapPages(view: map<nat, Frame>, start: nat, to: nat, pages: nat, user: bool, rw: bool): map<nat, Frame> {
    if pages == 0 then view
    else Added(MapPages(view, start, to, pages - 1, user, rw), PageAt(to, pages - 1),
        Frame(PageAt(start, pages - 1), user, rw))
  }

  /** Mapping changes no translation there was. */
  lemma {:induction false} MapKeeps(view: map<nat, Frame>, start: nat, to: nat, pages: nat, user: bool, rw: bool,
      p: nat)
    requires p in view
    ensures var v := MapPages(view, start, to, pages, user, rw); p in v && v[p] == view[p]
  {
    if pages > 0 {
      MapKeeps(view, start, to, pages - 1, user, rw, p);
    }
  }

  /** It makes exactly the requested pages translate. */
  lemma {:induction false} MapDomain(view: map<nat, Frame>, start: nat, to: nat, pages: nat, user: bool,
      rw: bool, p: nat)
    ensures p in MapPages(view, start, to, pages, user, rw) <==> p in view || Requested(to, pages, p)
  {
    if pages > 0 {
      MapDomain(view, start, to, pages - 1, user, rw, p);
      if Requested(to, pages - 1, p) {
        var i: nat :| i < pages - 1 && PageAt(to, i) == p;
        assert i < pages;
      }
    }
  }

  ghost predicate Requested(to: nat, pages: nat, p: nat) {
    exists i: nat :: i < pages && PageAt(to, i) == p
  }

  /** The rounds of one call reach different pages. */
  lemma PagesApart(to: nat, i: nat, j: nat)
    requires to < TWO32 && i < j < PAGES
    ensures PageAt(to, i) != PageAt(to, j)
  {
    hide PageAt;
    PageSum(to, i);
    PageSum(to, j);
  }

  lemma PageSum(to: nat, i: nat)
    ensures PageAt(to, i) == (to / PAGE_SIZE + i) % PAGES
  {
    var x := to + i * PAGE_SIZE;
    assert x / PAGE_SIZE == to / PAGE_SIZE + i;
    assert x % TWO32 / PAGE_SIZE == x / PAGE_SIZE % PAGES;
  }

  /** A page that was absent gets the frame of its round. */
  lemma {:induction false} MapAdds(view: map<nat, Frame>, start: nat, to: nat, pages: nat, user: bool, rw: bool, i: nat)
    requires to < TWO32 && i < pages <= PAGES && PageAt(to, i) !in view
    ensures var v := MapPages(view, start, to, pages, user, rw);
            PageAt(to, i) in v && v[PageAt(to, i)] == Frame(PageAt(start, i), user, rw)
  {
    if i < pages - 1 {
      MapAdds(view, start, to, pages - 1, user, rw, i);
    } else {
      MapDomain(view, start, to, pages - 1, user, rw, PageAt(to, i));
      forall j: nat | j < pages - 1 ensures PageAt(to, j) != PageAt(to, i) {
        PagesApart(to, j, i);
      }
    }
  }

  // The tables behind the view.

  function EmptyTable(): (t: Table)
    ensures |t| == ENTRIES && forall j :: 0 <= j < |t| ==> !t[j].present
  {
    seq(ENTRIES, j => TableEntry(false, 0, false, false))
  }

  lemma SplitPage(p: nat, d: nat, t: nat)
    requires d < ENTRIES && t < ENTRIES
    ensures p == d * ENTRIES + t <==> p / ENTRIES == d && p % ENTRIES == t
    ensures d * ENTRIES + t < PAGES
  {
  }

  /** A new table is empty, so it changes no translation. */
  lemma NewTable(dir: seq<DirectoryEntry>, tables: map<nat, Table>, d: nat, frame: nat)
    requires WellFormed(dir, tables) && d < ENTRIES && !dir[d].present
    requires forall e :: 0 <= e < |dir| && dir[e].present ==> dir[e].tableAddress != frame
    ensures var dir', tables' := dir[d := DirectoryEntry(true, frame)], tables[frame := EmptyTable()];
            WellFormed(dir', tables') && View(dir', tables') == View(dir, tables)
  {
    var dir', tables' := dir[d := DirectoryEntry(true, frame)], tables[frame := EmptyTable()];
    assert View(dir', tables') == View(dir, tables);
  }

  /** One entry written is one page of the view. */
  lemma SetEntry(dir: seq<DirectoryEntry>, tables: map<nat, Table>, d: nat, t: nat, e: TableEntry)
    requires WellFormed(dir, tables) && d < ENTRIES && t < ENTRIES && dir[d].present && e.present
    ensures var a := dir[d].tableAddress;
            var tables' := tables[a := tables[a][t := e]];
            WellFormed(dir, tables')
            && View(dir, tables') == View(dir, tables)[d * ENTRIES + t := Frame(e.pageAddress, e.user, e.rw)]
  {
    var a := dir[d].tableAddress;
    var tables' := tables[a := tables[a][t := e]];
    assert WellFormed(dir, tables');
    var v, v' := View(dir, tables)[d * ENTRIES + t := Frame(e.pageAddress, e.user, e.rw)], View(dir, tables');
    forall p: nat | p < PAGES ensures p in v <==> p in v' {
      SplitPage(p, d, t);
    }
    forall p: nat | p in v ensures p in v' && v[p] == v'[p] {
      SplitPage(p, d, t);
    }
  }

  /** Entry d got a table if it had none, from the first free frame if there was one. */
  ghost predicate Tabled(dir: seq<DirectoryEntry>, frames: seq<nat>,
      dir': seq<DirectoryEntry>, frames': seq<nat>, d: nat, ok: bool) {
    && |dir| == |dir'| == ENTRIES && d < ENTRIES
    && (ok <==> dir[d].present || frames != [])
    && (forall e :: 0 <= e < ENTRIES ==> (dir'[e].present <==> dir[e].present || (e == d && ok)))
    && frames' == if ok && !dir[d].present then frames[1..] else frames
  }

  /** The directory entry of round i. */
  function EntryAt(to: nat, i: nat): (d: nat)
    ensures d < ENTRIES
  {
    PageAt(to, i) / ENTRIES
  }

  /** The directory entries without a table that the pages of a request fall under. */
  ghost function Lacking(dir: seq<DirectoryEntry>, to: nat, pages: nat): set<nat>
    requires |dir| == ENTRIES
  {
    if pages == 0 then {}
    else WithEntry(Lacking(dir, to, pages - 1), EntryAt(to, pages - 1), dir[EntryAt(to, pages - 1)].present)
  }

  ghost function WithEntry(s: set<nat>, d: nat, present: bool): (r: set<nat>)
    ensures s <= r && |r| == if present || d in s then |s| else |s| + 1
    ensures forall e :: e in r <==> e in s || (e == d && !present)
  {
    if present || d in s then s else s + {d}
  }

  /** They are exactly those entries. */
  lemma {:induction false} LackingAre(dir: seq<DirectoryEntry>, to: nat, pages: nat, d: nat)
    requires |dir| == ENTRIES
    ensures d in Lacking(dir, to, pages) <==>
      d < ENTRIES && !dir[d].present && exists i: nat :: i < pages && EntryAt(to, i) == d
  {
    hide EntryAt;
    if pages > 0 {
      LackingAre(dir, to, pages - 1, d);
      if i: nat :| i < pages - 1 && EntryAt(to, i) == d {
        assert i < pages;
      }
    }
  }

  /** No more of them than pages, nor than for a longer request. */
  lemma {:induction false} LackingSize(dir: seq<DirectoryEntry>, to: nat, pages: nat, more: nat)
    requires |dir| == ENTRIES && pages <= more
    ensures |Lacking(dir, to, pages)| <= pages
    ensures |Lacking(dir, to, pages)| <= |Lacking(dir, to, more)|
    decreases more
  {
    hide EntryAt, WithEntry;
    if pages < more {
      LackingSize(dir, to, pages, more - 1);
    } else if pages > 0 {
      LackingSize(dir, to, pages - 1, pages - 1);
    }
  }

  /** The first rounds have given a frame to every entry that lacked a table, in the order of the frames. */
  ghost predicate Supplied(dir: seq<DirectoryEntry>, frames: seq<nat>,
      dir': seq<DirectoryEntry>, frames': seq<nat>, to: nat, rounds: nat) {
    && |dir| == |dir'| == ENTRIES
    && (forall d :: 0 <= d < ENTRIES ==> (dir'[d].present <==> dir[d].present || d in Lacking(dir, to, rounds)))
    && |Lacking(dir, to, rounds)| <= |frames| && frames' == frames[|Lacking(dir, to, rounds)|..]
  }

  lemma SuppliedNone(dir: seq<DirectoryEntry>, frames: seq<nat>, to: nat)
    requires |dir| == ENTRIES
    ensures Supplied(dir, frames, dir, frames, to, 0)
  {
  }

  lemma SuppliedEnd(dir: seq<DirectoryEntry>, frames: seq<nat>, dir': seq<DirectoryEntry>, frames': seq<nat>,
      to: nat, pages: nat)
    requires Supplied(dir, frames, dir', frames', to, pages)
    ensures |dir| == ENTRIES && |Lacking(dir, to, pages)| <= |frames|
    ensures frames' == frames[|Lacking(dir, to, pages)|..]
  {
  }

  lemma RoundEntry(to: nat, i: nat)
    ensures (to + i * PAGE_SIZE) % TWO32 / 0x40_0000 == EntryAt(to, i)
  {
  }

  lemma SuppliedNext(dir: seq<DirectoryEntry>, frames: seq<nat>, dir1: seq<DirectoryEntry>, frames1: seq<nat>,
      dir2: seq<DirectoryEntry>, frames2: seq<nat>, to: nat, i: nat, ok: bool)
    requires Supplied(dir, frames, dir1, frames1, to, i)
    requires Tabled(dir1, frames1, dir2, frames2, EntryAt(to, i), ok)
    ensures ok ==> Supplied(dir, frames, dir2, frames2, to, i + 1)
    ensures !ok ==>
      && frames2 == [] && |Lacking(dir, to, i + 1)| > |frames|
      && !dir2[EntryAt(to, i)].present && !dir[EntryAt(to, i)].present
  {
    hide EntryAt, WithEntry;
  }

  /** The paging side of a process, and the frames reserve_pages would hand out for tables. */
  class AddressSpace {
    const directory: array<DirectoryEntry>
    var tables: map<nat, Table>
    var freeFrames: seq<nat>

    ghost predicate Valid()
      reads this, directory
    {
      && directory.Length == ENTRIES && WellFormed(directory[..], tables)
      && (forall i :: 0 <= i < |freeFrames| ==> freeFrames[i] < PAGES && freeFrames[i] !in tables)
      && (forall i, j :: 0 <= i < j < |freeFrames| ==> freeFrames[i] != freeFrames[j])
    }

    ghost function Pages(): map<nat, Frame>
      reads this, directory
      requires WellFormed(directory[..], tables)
    {
      View(directory[..], tables)
    }

    /** mm_pagination_clear_directory: nothing translates. */
    constructor (frames: seq<nat>)
      requires forall i :: 0 <= i < |frames| ==> frames[i] < PAGES
      requires forall i, j :: 0 <= i < j < |frames| ==> frames[i] != frames[j]
      ensures Valid() && Pages() == map[] && freeFrames == frames && fresh(directory)
    {
      directory := new DirectoryEntry[ENTRIES](i => DirectoryEntry(false, 0));
      tables, freeFrames := map[], frames;
    }

    /** The part of mm_pagination_map that makes a table where there is none; false when no frame is left. */
    method EnsureTable(d: nat) returns (ok: bool)
      requires Valid() && d < ENTRIES
      modifies this, directory
      ensures Valid() && Pages() == old(Pages()) && (ok ==> directory[d].present)
      ensures Tabled(old(directory[..]), old(freeFrames), directory[..], freeFrames, d, ok)
    {
      if directory[d].present {
        return true;
      }
      if freeFrames == [] {
        return false;
      }
      var frame := freeFrames[0];
      NewTable(directory[..], tables, d, frame);
      hide WellFormed, View;
      ghost var dir := directory[..];
      directory[d] := DirectoryEntry(true, frame);
      assert directory[..] == dir[d := DirectoryEntry(true, frame)];
      tables := tables[frame := EmptyTable()];
      freeFrames := freeFrames[1..];
      ok := true;
    }

    /** One round of mm_pagination_map; false is the kernel panic of a missing frame. */
    method MapOne(address: nat, destination: nat, user: bool, rw: bool) returns (ok: bool)
      requires Valid() && address < TWO32 && destination < TWO32
      modifies this, directory
      ensures Valid() && Pages() == if ok then Added(old(Pages()), destination / PAGE_SIZE,
          Frame(address / PAGE_SIZE, user, rw)) else old(Pages())
      ensures Tabled(old(directory[..]), old(freeFrames), directory[..], freeFrames, destination / 0x40_0000, ok)
    {
      var directoryIndex, tableIndex := destination / 0x40_0000, destination / PAGE_SIZE % ENTRIES;
      SplitPage(destination / PAGE_SIZE, directoryIndex, tableIndex);
      ok := EnsureTable(directoryIndex);
      if !ok {
        return;
      }
      var tableAddress := directory[directoryIndex].tableAddress;
      var table := tables[tableAddress];
      if table[tableIndex].present {
        return;
      }
      var e := TableEntry(true, address / PAGE_SIZE, user, rw);
      SetEntry(directory[..], tables, directoryIndex, tableIndex, e);
      tables := tables[tableAddress := table[tableIndex := e]];
    }

    /** mm_pagination_map */
    method Map(start: nat, to: nat, pages: nat, user: bool, rw: bool) returns (ok: bool)
      requires Valid()
      modifies this, directory
      ensures Valid()
      ensures ok ==> Pages() == MapPages(old(Pages()), start, to, pages, user, rw)
      ensures !ok ==> exists n: nat :: n < pages && Pages() == MapPages(old(Pages()), start, to, n, user, rw)
      ensures ok <==> |Lacking(old(directory[..]), to, pages)| <= |old(freeFrames)|
      ensures ok ==> freeFrames == old(freeFrames)[|Lacking(old(directory[..]), to, pages)|..]
      ensures !ok ==> freeFrames == [] && exists i: nat ::
        i < pages && !directory[EntryAt(to, i)].present && !old(directory[..])[EntryAt(to, i)].present
      ensures |old(freeFrames)| >= pages ==> ok
    {
      ghost var before, dir, frames := Pages(), directory[..], freeFrames;
      ok := true;
      hide View, WellFormed, Lacking, Supplied, Tabled;
      SuppliedNone(dir, frames, to);
      LackingSize(dir, to, pages, pages);
      for i := 0 to pages
        invariant Valid() && Pages() == MapPages(before, start, to, i, user, rw) && ok
        invariant Supplied(dir, frames, directory[..], freeFrames, to, i)
      {
        var destination := (to + i * PAGE_SIZE) % TWO32;
        ghost var dir1, frames1 := directory[..], freeFrames;
        ok := MapOne((start + i * PAGE_SIZE) % TWO32, destination, user, rw);
        RoundEntry(to, i);
        SuppliedNext(dir, frames, dir1, frames1, directory[..], freeFrames, to, i, ok);
        if !ok {
          LackingSize(dir, to, i + 1, pages);
          assert !directory[EntryAt(to, i)].present;
          return;
        }
      }
      SuppliedEnd(dir, frames, directory[..], freeFrames, to, pages);
    }

    /** mm_translate_address of a process with a directory; 0 is NULL. */
    method Translate(address: nat) returns (r: nat)
      requires Valid() && address < TWO32
      ensures var p := address / PAGE_SIZE;
              r == if p in Pages() then Pages()[p].number * PAGE_SIZE + address % PAGE_SIZE else 0
    {
      var directoryIndex, tableIndex := address / 0x40_0000, address / PAGE_SIZE % ENTRIES;
      SplitPage(address / PAGE_SIZE, directoryIndex, tableIndex);
      if directory[directoryIndex].present {
        var table := tables[directory[directoryIndex].tableAddress];
        if table[tableIndex].present {
          return table[tableIndex].pageAddress * PAGE_SIZE + address % PAGE_SIZE;
        }
      }
      return 0;
    }
  }

  /** mm_translate_address: without a directory an address is its own translation. */
  method TranslateAddress(space: AddressSpace?, address: nat) returns (r: nat)
    requires address < TWO32 && (space != null ==> space.Valid())
    ensures space == null ==> r == address
    ensures space != null ==>
      var p := address / PAGE_SIZE;
      r == if p in space.Pages() then space.Pages()[p].number * PAGE_SIZE + address % PAGE_SIZE else 0
  {
    if space == null {
      return address;
    }
    r := space.Translate(address);
  }
}
