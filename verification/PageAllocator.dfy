/**
 Physical pages, as src/system/mm/allocator.c hands them out. A set bit of the
 page map is a free page, and bit 0 is page UNUSABLE_PAGES.
 */
module PageAllocator {
  import opened Bitmap

  const PAGE_SIZE := 4096
  const MAPPABLE_PAGES := 1048576
  const UNUSABLE_PAGES := 1024
  const USABLE_PAGES := MAPPABLE_PAGES - UNUSABLE_PAGES
  const ENTRIES_IN_MAP := USABLE_PAGES / ENTRIES_PER_SLOT + 1

  /** Pages s to s + n - 1 are free. */
  ghost predicate FreeRun(bits: seq<bool>, s: int, n: nat) {
    0 <= s && s + n <= |bits| && forall b :: s <= b < s + n ==> bits[b]
  }

  /** No run of n free pages ends at or before a position. */
  ghost predicate NoRunTo(bits: seq<bool>, n: nat, to: int) {
    forall s {:trigger FreeRun(bits, s, n)} :: s + n <= to ==> !FreeRun(bits, s, n)
  }

  /** The last free pages before a position: c of them, and then none. */
  ghost predicate Streak(bits: seq<bool>, pos: int, c: nat) {
    && c <= pos <= |bits|
    && (forall b :: pos - c <= b < pos ==> bits[b])
    && (pos - c > 0 ==> !bits[pos - c - 1])
  }

  /** The map with n pages from s on marked. */
  ghost function Marked(bits: seq<bool>, s: nat, n: nat, free: bool): (r: seq<bool>)
    requires s + n <= |bits|
    ensures |r| == |bits|
    ensures forall b :: 0 <= b < |r| ==> r[b] == if s <= b < s + n then free else bits[b]
  {
    bits[..s] + seq(n, i => free) + bits[s + n..]
  }

  // The scan.

  lemma RunHas(bits: seq<bool>, s: int, n: nat, b: int)
    ensures FreeRun(bits, s, n) && s <= b < s + n ==> 0 <= b < |bits| && bits[b]
  {
  }

  lemma StepTaken(bits: seq<bool>, n: nat, pos: nat)
    requires pos < |bits| && n > 0 && NoRunTo(bits, n, pos) && !bits[pos]
    ensures NoRunTo(bits, n, pos + 1) && Streak(bits, pos + 1, 0)
  {
    forall s | s + n <= pos + 1 ensures !FreeRun(bits, s, n) {
      RunHas(bits, s, n, pos);
    }
  }

  lemma StepFree(bits: seq<bool>, n: nat, pos: nat, c: nat)
    requires pos < |bits| && NoRunTo(bits, n, pos) && Streak(bits, pos, c) && bits[pos] && c < n
    ensures Streak(bits, pos + 1, c + 1)
    ensures c + 1 < n ==> NoRunTo(bits, n, pos + 1)
    ensures c + 1 == n ==> FreeRun(bits, pos + 1 - n, n)
  {
    if c + 1 < n {
      forall s | s + n <= pos + 1 ensures !FreeRun(bits, s, n) {
        RunHas(bits, s, n, pos - c - 1);
      }
    }
  }

  lemma StepWord(bits: seq<bool>, n: nat, pos: nat, end: nat)
    requires pos < end <= |bits| && n > 0 && NoRunTo(bits, n, pos)
    requires forall b :: pos <= b < end ==> !bits[b]
    ensures NoRunTo(bits, n, end) && Streak(bits, end, 0)
  {
    forall s | s + n <= end ensures !FreeRun(bits, s, n) {
      RunHas(bits, s, n, s + n - 1);
    }
  }

  /** The first run found is the lowest: none ends before it does. */
  lemma FirstFound(bits: seq<bool>, n: nat, pos: int)
    requires NoRunTo(bits, n, pos - 1)
    ensures forall s {:trigger FreeRun(bits, s, n)} :: s < pos - n ==> !FreeRun(bits, s, n)
  {
  }

  /** No run ends before word i, and one that starts there starts afresh unless the word has no free page. */
  ghost predicate At(bits: seq<bool>, pageMap: seq<Word>, pages: nat, i: nat) {
    && NoRunTo(bits, pages, ENTRIES_PER_SLOT * i)
    && (i < |pageMap| && !AllSame(pageMap[i], false) ==> Streak(bits, ENTRIES_PER_SLOT * i, 0))
  }

  lemma WordEnd(q: nat, j: nat)
    requires j < ENTRIES_PER_SLOT
    ensures (ENTRIES_PER_SLOT * q + j + 1) % ENTRIES_PER_SLOT == 0 <==> j == ENTRIES_PER_SLOT - 1
  {
  }

  /** One page of the scan: the run so far goes on or starts again. */
  method CountPage(pageMap: array<Word>, pos: nat, consecutive: nat, pages: nat) returns (count: nat)
    requires pos < ENTRIES_PER_SLOT * pageMap.Length && consecutive < pages
    requires NoRunTo(Bits(pageMap[..]), pages, pos) && Streak(Bits(pageMap[..]), pos, consecutive)
    ensures count <= pages && Streak(Bits(pageMap[..]), pos + 1, count)
    ensures count < pages ==> NoRunTo(Bits(pageMap[..]), pages, pos + 1)
    ensures count == pages ==> FreeRun(Bits(pageMap[..]), pos + 1 - pages, pages)
  {
    hide Bits, FreeRun, NoRunTo, Streak;
    var free := BitmapTest(pageMap, pos);
    if !free {
      StepTaken(Bits(pageMap[..]), pages, pos);
      count := 0;
    } else {
      StepFree(Bits(pageMap[..]), pages, pos, consecutive);
      count := consecutive + 1;
    }
  }

  /** The inner loop of find_pages: from word i on, for as long as a run goes on into the next word. */
  method ScanRun(pageMap: array<Word>, i: nat, pages: nat) returns (start: int, last: nat)
    requires pages > 0 && i < pageMap.Length && !AllSame(pageMap[i], false)
    requires At(Bits(pageMap[..]), pageMap[..], pages, i)
    ensures start != -1 ==>
      FreeRun(Bits(pageMap[..]), start, pages) && NoRunTo(Bits(pageMap[..]), pages, start + pages - 1)
    ensures start == -1 ==> i <= last < pageMap.Length && At(Bits(pageMap[..]), pageMap[..], pages, last + 1)
  {
    ghost var bits := Bits(pageMap[..]);
    hide Bits, FreeRun, NoRunTo, Streak, AllSame;
    ghost var j := 0;
    last := i;
    start := i * ENTRIES_PER_SLOT;
    var consecutive := 0;
    var offset := 0;
    while true
      invariant i <= last < pageMap.Length && 0 <= j < ENTRIES_PER_SLOT && 0 <= consecutive < pages
      invariant start == ENTRIES_PER_SLOT * i && offset == ENTRIES_PER_SLOT * (last - i) + j
      invariant NoRunTo(bits, pages, start + offset) && Streak(bits, start + offset, consecutive)
      decreases pageMap.Length - last, ENTRIES_PER_SLOT - j
    {
      WordEnd(last - i, j);
      consecutive := CountPage(pageMap, start + offset, consecutive, pages);
      if consecutive == pages {
        return start + offset - pages + 1, last;
      }
      if (offset + 1) % ENTRIES_PER_SLOT == 0 {
        if consecutive != 0 && last + 1 < pageMap.Length && !AllSame(pageMap[last + 1], false) {
          last := last + 1;
          j := -1;
        } else {
          return -1, last;
        }
      }
      offset := offset + 1;
      j := j + 1;
    }
  }

  /** The scan of find_pages; -1 stands for none. */
  method FindRun(pageMap: array<Word>, pages: nat) returns (start: int)
    requires pages > 0
    ensures start == -1 ==> forall s {:trigger FreeRun(Bits(pageMap[..]), s, pages)} ::
        !FreeRun(Bits(pageMap[..]), s, pages)
    ensures start != -1 ==> FreeRun(Bits(pageMap[..]), start, pages)
    ensures start != -1 ==> forall s {:trigger FreeRun(Bits(pageMap[..]), s, pages)} :: s < start ==>
        !FreeRun(Bits(pageMap[..]), s, pages)
  {
    ghost var bits := Bits(pageMap[..]);
    hide Bits, FreeRun, NoRunTo, Streak;
    var i := 0;
    NoRunAtStart(bits, pages);
    while i < pageMap.Length
      invariant 0 <= i <= pageMap.Length && At(bits, pageMap[..], pages, i)
    {
      WordBits(pageMap[..], i, false);
      if !AllSame(pageMap[i], false) {
        start, i := ScanRun(pageMap, i, pages);
        if start != -1 {
          FirstFound(bits, pages, start + pages);
          return;
        }
      } else {
        StepWord(bits, pages, ENTRIES_PER_SLOT * i, ENTRIES_PER_SLOT * i + ENTRIES_PER_SLOT);
      }
      i := i + 1;
    }
    NoneFound(bits, pages);
    return -1;
  }

  lemma NoneFound(bits: seq<bool>, n: nat)
    requires NoRunTo(bits, n, |bits|)
    ensures forall s {:trigger FreeRun(bits, s, n)} :: !FreeRun(bits, s, n)
  {
  }

  lemma NoRunAtStart(bits: seq<bool>, n: nat)
    requires n > 0
    ensures NoRunTo(bits, n, 0) && Streak(bits, 0, 0)
  {
  }

  /** Freeing what was taken gives the map back. */
  lemma FreeUndoesTake(bits: seq<bool>, s: nat, n: nat)
    requires FreeRun(bits, s, n)
    ensures Marked(Marked(bits, s, n, false), s, n, true) == bits
  {
  }

  /** A block of pages somebody holds, by its first page. */
  datatype Pages = Pages(start: nat, count: nat)

  ghost predicate Apart(a: Pages, b: Pages) {
    a.start + a.count <= b.start || b.start + b.count <= a.start
  }

  /** The pages of a block lie in the map and none is free. */
  ghost predicate Taken(bits: seq<bool>, a: Pages) {
    var s := a.start - UNUSABLE_PAGES;
    0 <= s && s + a.count <= |bits| && forall i :: s <= i < s + a.count ==> !bits[i]
  }

  class Allocator {
    const pageMap: array<Word>
    ghost var held: set<Pages>

    ghost predicate Valid()
      reads this, pageMap
    {
      && pageMap.Length == ENTRIES_IN_MAP
      && (forall b :: USABLE_PAGES <= b < |Bits(pageMap[..])| ==> !Bits(pageMap[..])[b])
      && HeldApart(held) && HeldTaken(Bits(pageMap[..]), held)
    }

    /** The map of reservePageMap: nothing is free until initPages finds memory. */
    constructor ()
      ensures Valid() && held == {} && fresh(pageMap)
      ensures forall b :: 0 <= b < |Bits(pageMap[..])| ==> !Bits(pageMap[..])[b]
    {
      pageMap := new Word[ENTRIES_IN_MAP](i => seq(32, j => false));
      held := {};
    }

    /** find_pages: the lowest run of free pages, which is then taken, or 0 exactly when there is none. */
    method FindPages(pages: nat) returns (address: nat)
      requires Valid()
      modifies this, pageMap
      ensures Valid()
      ensures address == 0 <==>
        || pages == 0
        || forall s {:trigger FreeRun(old(Bits(pageMap[..])), s, pages)} :: !FreeRun(old(Bits(pageMap[..])), s, pages)
      ensures address == 0 ==> Bits(pageMap[..]) == old(Bits(pageMap[..])) && held == old(held)
      ensures address != 0 ==>
        var p := address / PAGE_SIZE; var s := p - UNUSABLE_PAGES;
        && address == p * PAGE_SIZE && 0 <= s && p + pages <= MAPPABLE_PAGES
        && FreeRun(old(Bits(pageMap[..])), s, pages)
        && (forall s' {:trigger FreeRun(old(Bits(pageMap[..])), s', pages)} :: s' < s ==>
            !FreeRun(old(Bits(pageMap[..])), s', pages))
        && Bits(pageMap[..]) == Marked(old(Bits(pageMap[..])), s, pages, false)
        && Pages(p, pages) !in old(held) && held == old(held) + {Pages(p, pages)}
    {
      if pages == 0 {
        return 0;
      }
      hide Bits, FreeRun, HeldApart, HeldTaken;
      var found := FindRun(pageMap, pages);
      if found == -1 {
        return 0;
      }
      var start := found + UNUSABLE_PAGES;
      RunUsable(Bits(pageMap[..]), found, pages);
      TakeHeld(Bits(pageMap[..]), held, found, pages);
      MarkPages(start, pages, false);
      held := held + {Pages(start, pages)};
      return start * PAGE_SIZE;
    }

    /** The loops of setPage and unsetPage over a block. */
    method MarkPages(start: nat, pages: nat, free: bool)
      requires UNUSABLE_PAGES <= start && start - UNUSABLE_PAGES + pages <= ENTRIES_PER_SLOT * pageMap.Length
      modifies pageMap
      ensures Bits(pageMap[..]) == Marked(old(Bits(pageMap[..])), start - UNUSABLE_PAGES, pages, free)
    {
      hide Bits;
      for i := 0 to pages
        invariant Bits(pageMap[..]) == Marked(old(Bits(pageMap[..])), start - UNUSABLE_PAGES, i, free)
      {
        BitmapPut(pageMap, start + i - UNUSABLE_PAGES, free);
      }
    }

    /** freePages of a block somebody holds. */
    method FreePages(address: nat, pages: nat)
      requires Valid() && Pages(address / PAGE_SIZE, pages) in held
      modifies this, pageMap
      ensures Valid() && held == old(held) - {Pages(address / PAGE_SIZE, pages)}
      ensures var s := address / PAGE_SIZE - UNUSABLE_PAGES;
              0 <= s && s + pages <= |old(Bits(pageMap[..]))| &&
                  Bits(pageMap[..]) == Marked(old(Bits(pageMap[..])), s, pages, true)
    {
      hide Bits, HeldApart, HeldTaken;
      var start := address / PAGE_SIZE;
      FreeHeld(Bits(pageMap[..]), held, Pages(start, pages));
      MarkPages(start, pages, true);
      held := held - {Pages(start, pages)};
    }

    /** The loop of initPages over one stretch of usable memory. */
    method Provide(firstPage: nat, pages: nat)
      requires Valid() && held == {} && UNUSABLE_PAGES <= firstPage
      modifies pageMap
      ensures Valid()
      ensures forall b :: 0 <= b < |Bits(pageMap[..])| ==>
        Bits(pageMap[..])[b] == (old(Bits(pageMap[..]))[b] ||
            (firstPage <= b + UNUSABLE_PAGES < firstPage + pages && b < USABLE_PAGES))
    {
      hide Bits;
      var page := firstPage;
      while page < firstPage + pages
        invariant firstPage <= page <= firstPage + pages
        invariant forall b :: 0 <= b < |Bits(pageMap[..])| ==>
          Bits(pageMap[..])[b] == (old(Bits(pageMap[..]))[b] ||
              (firstPage <= b + UNUSABLE_PAGES < page && b < USABLE_PAGES))
      {
        if page < MAPPABLE_PAGES {
          BitmapSet(pageMap, page - UNUSABLE_PAGES);
        }
        page := page + 1;
      }
    }

    /** Allocating and freeing again leaves the map and what is held as they were. */
    method FindThenFree(pages: nat)
      requires Valid()
      modifies this, pageMap
      ensures Valid() && Bits(pageMap[..]) == old(Bits(pageMap[..])) && held == old(held)
    {
      hide Bits, HeldApart, HeldTaken;
      var address := FindPages(pages);
      if address != 0 {
        FreeUndoesTake(old(Bits(pageMap[..])), address / PAGE_SIZE - UNUSABLE_PAGES, pages);
        FreePages(address, pages);
      }
    }

    /** free_pages: gives back a whole list of reservations. */
    method FreeReserved(list: seq<Pages>)
      requires Valid() && (forall i :: 0 <= i < |list| ==> list[i] in held)
      requires forall i, j :: 0 <= i < j < |list| ==> list[i] != list[j]
      modifies this, pageMap
      ensures Valid() && held == old(held) - (set a | a in list)
      ensures forall b :: 0 <= b < |Bits(pageMap[..])| ==>
        Bits(pageMap[..])[b] == (old(Bits(pageMap[..]))[b] || InList(b + UNUSABLE_PAGES, list))
    {
      hide Bits, HeldApart, HeldTaken;
      for i := 0 to |list|
        invariant Valid() && held == old(held) - (set a | a in list[..i])
        invariant forall b :: 0 <= b < |Bits(pageMap[..])| ==>
          Bits(pageMap[..])[b] == (old(Bits(pageMap[..]))[b] || InList(b + UNUSABLE_PAGES, list[..i]))
      {
        assert list[..i + 1] == list[..i] + [list[i]];
        assert list[i].start * PAGE_SIZE / PAGE_SIZE == list[i].start;
        FreePages(list[i].start * PAGE_SIZE, list[i].count);
      }
      assert list[..|list|] == list;
    }
  }

  /** Page p belongs to a block of the list. */
  ghost predicate InList(p: nat, list: seq<Pages>) {
    exists i :: 0 <= i < |list| && list[i].start <= p < list[i].start + list[i].count
  }

  /** No two blocks share a page. */
  ghost predicate HeldApart(held: set<Pages>) {
    forall a, b :: a in held && b in held && a != b ==> Apart(a, b)
  }

  ghost predicate HeldTaken(bits: seq<bool>, held: set<Pages>) {
    forall a :: a in held ==> a.count > 0 && a.start + a.count <= MAPPABLE_PAGES && Taken(bits, a)
  }

  lemma TakenApart(bits: seq<bool>, b: Pages, s: nat, n: nat)
    requires Taken(bits, b) && b.count > 0 && FreeRun(bits, s, n) && n > 0
    ensures Apart(Pages(s + UNUSABLE_PAGES, n), b)
  {
    var t := b.start - UNUSABLE_PAGES;
    var p := if s < t then t else s;
    RunHas(bits, s, n, p);
  }

  /** A block of pages that were free overlaps nothing that is held. */
  lemma TakeHeld(bits: seq<bool>, held: set<Pages>, s: nat, n: nat)
    requires HeldApart(held) && HeldTaken(bits, held) && FreeRun(bits, s, n) && n > 0 && s + n <= USABLE_PAGES
    ensures var a := Pages(s + UNUSABLE_PAGES, n);
            a !in held && HeldApart(held + {a}) && HeldTaken(Marked(bits, s, n, false), held + {a})
  {
    forall b | b in held ensures Apart(Pages(s + UNUSABLE_PAGES, n), b) {
      TakenApart(bits, b, s, n);
    }
  }

  /** Freeing a held block frees no page of another. */
  lemma FreeHeld(bits: seq<bool>, held: set<Pages>, a: Pages)
    requires HeldApart(held) && HeldTaken(bits, held) && a in held
    ensures UNUSABLE_PAGES <= a.start && a.start + a.count <= UNUSABLE_PAGES + |bits| &&
        a.start + a.count <= MAPPABLE_PAGES
    ensures HeldApart(held - {a}) && HeldTaken(Marked(bits, a.start - UNUSABLE_PAGES, a.count, true), held - {a})
  {
    assert Taken(bits, a);
    var bits' := Marked(bits, a.start - UNUSABLE_PAGES, a.count, true);
    forall b | b in held - {a} ensures b.count > 0 && b.start + b.count <= MAPPABLE_PAGES && Taken(bits', b) {
      assert Taken(bits, b) && Apart(a, b);
    }
  }

  /** Memory ends where the map says: a free run lies below the last mappable page. */
  lemma RunUsable(bits: seq<bool>, s: nat, n: nat)
    requires FreeRun(bits, s, n) && n > 0 && forall b :: USABLE_PAGES <= b < |bits| ==> !bits[b]
    ensures s + n <= USABLE_PAGES && s + n <= |bits|
  {
    RunHas(bits, s, n, s + n - 1);
  }
}
