/** User stacks that grow on page faults, as in src/system/mm/stack.c. */
module Stack {
  import opened Paging

  const PAGES_PER_INCREMENT := 4
  const MAX_PAGES_IN_STACK := 256
  const STACK_TOP_MAPPING := 3 * 1024 * 1024 * 1024
  const TOP_PAGE := STACK_TOP_MAPPING / PAGE_SIZE

  datatype Outcome = ProtectionFault | NotPresent | TooBig | NoMemory | NoTable | Grown

  /** The n pages below the top are all mapped. */
  ghost predicate Contiguous(pages: map<nat, Frame>, n: int) {
    forall p :: TOP_PAGE - n <= p < TOP_PAGE ==> p in pages
  }

  /** The fault is at most one increment below the stack. */
  predicate Near(to: nat, n: nat) {
    var last := STACK_TOP_MAPPING - n * PAGE_SIZE;
    to <= last <= to + PAGES_PER_INCREMENT * PAGE_SIZE
  }

  /** The pages below the stack once it has grown. */
  ghost function GrownPages(pages: map<nat, Frame>, n: nat, start: nat): map<nat, Frame>
    requires n + PAGES_PER_INCREMENT <= MAX_PAGES_IN_STACK
  {
    MapPages(pages, start, STACK_TOP_MAPPING - n * PAGE_SIZE - PAGES_PER_INCREMENT * PAGE_SIZE,
        PAGES_PER_INCREMENT, true, true)
  }

  lemma RoundPage(n: nat, i: nat)
    requires n + PAGES_PER_INCREMENT <= MAX_PAGES_IN_STACK && i < PAGES_PER_INCREMENT
    ensures PageAt(STACK_TOP_MAPPING - n * PAGE_SIZE - PAGES_PER_INCREMENT * PAGE_SIZE, i) ==
        TOP_PAGE - n - PAGES_PER_INCREMENT + i
  {
  }

  /** A grown stack reaches four pages further without a gap, and no translation changes. */
  lemma GrowthIsContiguous(pages: map<nat, Frame>, n: nat, start: nat)
    requires Contiguous(pages, n) && n + PAGES_PER_INCREMENT <= MAX_PAGES_IN_STACK
    ensures Contiguous(GrownPages(pages, n, start), n + PAGES_PER_INCREMENT)
    ensures forall p :: p in pages ==> p in GrownPages(pages, n, start) && GrownPages(pages, n, start)[p] == pages[p]
  {
    hide MapPages, PageAt;
    var to := STACK_TOP_MAPPING - n * PAGE_SIZE - PAGES_PER_INCREMENT * PAGE_SIZE;
    forall p: nat | p in pages ensures p in GrownPages(pages, n, start) && GrownPages(pages, n, start)[p] == pages[p] {
      MapKeeps(pages, start, to, PAGES_PER_INCREMENT, true, true, p);
    }
    forall p | TOP_PAGE - n - PAGES_PER_INCREMENT <= p < TOP_PAGE ensures p in GrownPages(pages, n, start) {
      if p < TOP_PAGE - n {
        var i := p - (TOP_PAGE - n - PAGES_PER_INCREMENT);
        RoundPage(n, i);
        assert Requested(to, PAGES_PER_INCREMENT, p);
        MapDomain(pages, start, to, PAGES_PER_INCREMENT, true, true, p);
      }
    }
  }

  /** A page below the stack that was not mapped gets its own part of the new memory. */
  lemma GrowthIsNew(pages: map<nat, Frame>, n: nat, start: nat, i: nat)
    requires n + PAGES_PER_INCREMENT <= MAX_PAGES_IN_STACK && i < PAGES_PER_INCREMENT
    requires TOP_PAGE - n - PAGES_PER_INCREMENT + i !in pages
    ensures var p := TOP_PAGE - n - PAGES_PER_INCREMENT + i;
            && p in GrownPages(pages, n, start)
            && GrownPages(pages, n, start)[p] == Frame(PageAt(start, i), true, true)
  {
    hide MapPages, PageAt;
    RoundPage(n, i);
    MapAdds(pages, start, STACK_TOP_MAPPING - n * PAGE_SIZE - PAGES_PER_INCREMENT * PAGE_SIZE,
        PAGES_PER_INCREMENT, true, true, i);
  }

  /** The page of a fault the handler accepts is the one just below the top of the stack, or one of the new ones. */
  lemma FaultPage(to: nat, n: nat)
    requires n <= MAX_PAGES_IN_STACK && Near(to, n)
    ensures TOP_PAGE - n - PAGES_PER_INCREMENT <= to / PAGE_SIZE <= TOP_PAGE - n
  {
  }

  lemma MapContiguous(pages: map<nat, Frame>, n: nat, start: nat, to: nat, rounds: nat)
    requires Contiguous(pages, n) && n <= MAX_PAGES_IN_STACK
    ensures Contiguous(MapPages(pages, start, to, rounds, true, true), n)
  {
    hide MapPages;
    forall p: nat | TOP_PAGE - n <= p < TOP_PAGE ensures p in MapPages(pages, start, to, rounds, true, true) {
      MapKeeps(pages, start, to, rounds, true, true, p);
    }
  }

  class Process {
    const space: AddressSpace
    var pagesInStack: nat
    var killed: bool

    ghost predicate Valid()
      reads this, space, space.directory
    {
      space.Valid() && pagesInStack <= MAX_PAGES_IN_STACK && Contiguous(space.Pages(), pagesInStack)
    }

    constructor (space: AddressSpace, pages: nat)
      requires space.Valid() && pages <= MAX_PAGES_IN_STACK && Contiguous(space.Pages(), pages)
      ensures Valid() && this.space == space && pagesInStack == pages && !killed
    {
      this.space, pagesInStack, killed := space, pages, false;
    }

    /** page_fault_handler for a fault at address to; newPages is what reserve_pages gives, 0 for nothing. */
    method PageFault(errCode: nat, to: nat, newPages: nat) returns (outcome: Outcome)
      requires Valid() && to < TWO32 && newPages < TWO32
      modifies this, space, space.directory
      ensures Valid()
      ensures killed == (old(killed) || outcome !in {Grown, NoTable})
      ensures outcome == ProtectionFault <==> errCode % 2 == 1
      ensures outcome == NotPresent <==> errCode % 2 == 0 && !Near(to, old(pagesInStack))
      ensures outcome == TooBig <==>
        errCode % 2 == 0 && Near(to, old(pagesInStack)) && old(pagesInStack) + PAGES_PER_INCREMENT > MAX_PAGES_IN_STACK
      ensures outcome == NoMemory <==>
        && errCode % 2 == 0 && Near(to, old(pagesInStack)) && newPages == 0
        && old(pagesInStack) + PAGES_PER_INCREMENT <= MAX_PAGES_IN_STACK
      ensures outcome in {Grown, NoTable} <==>
        var last := STACK_TOP_MAPPING - old(pagesInStack) * PAGE_SIZE;
        && errCode % 2 == 0 && to <= last <= to + PAGES_PER_INCREMENT * PAGE_SIZE && newPages != 0
        && old(pagesInStack) + PAGES_PER_INCREMENT <= MAX_PAGES_IN_STACK
      ensures |old(space.freeFrames)| >= PAGES_PER_INCREMENT ==> outcome != NoTable
      ensures outcome in {Grown, NoTable} ==>
        var from := STACK_TOP_MAPPING - (old(pagesInStack) + PAGES_PER_INCREMENT) * PAGE_SIZE;
        outcome == Grown <==> |Lacking(old(space.directory[..]), from, PAGES_PER_INCREMENT)| <= |old(space.freeFrames)|
      ensures outcome != Grown ==> pagesInStack == old(pagesInStack)
      ensures outcome !in {Grown, NoTable} ==> space.Pages() == old(space.Pages())
      ensures outcome == Grown ==>
        && pagesInStack == old(pagesInStack) + PAGES_PER_INCREMENT <= MAX_PAGES_IN_STACK
        && space.Pages() == GrownPages(old(space.Pages()), old(pagesInStack), newPages)
        && (to / PAGE_SIZE !in old(space.Pages()) && (old(pagesInStack) > 0 || TOP_PAGE in old(space.Pages())) ==>
              to / PAGE_SIZE in space.Pages())
    {
      hide View, WellFormed, MapPages, PageAt, Lacking;
      if errCode % 2 == 1 {
        killed := true;
        return ProtectionFault;
      }
      var last := STACK_TOP_MAPPING - pagesInStack * PAGE_SIZE;
      if last < to || last > to + PAGES_PER_INCREMENT * PAGE_SIZE {
        killed := true;
        return NotPresent;
      }
      if pagesInStack + PAGES_PER_INCREMENT > MAX_PAGES_IN_STACK {
        killed := true;
        return TooBig;
      }
      if newPages == 0 {
        killed := true;
        return NoMemory;
      }
      ghost var before := space.Pages();
      GrowthIsContiguous(before, pagesInStack, newPages);
      FaultPage(to, pagesInStack);
      var ok := space.Map(newPages, last - PAGES_PER_INCREMENT * PAGE_SIZE, PAGES_PER_INCREMENT, true, true);
      if !ok {
        ghost var n: nat :| n < PAGES_PER_INCREMENT &&
            space.Pages() == MapPages(before, newPages, last - PAGES_PER_INCREMENT * PAGE_SIZE, n, true, true);
        MapContiguous(before, pagesInStack, newPages, last - PAGES_PER_INCREMENT * PAGE_SIZE, n);
        return NoTable;
      }
      pagesInStack := pagesInStack + PAGES_PER_INCREMENT;
      return Grown;
    }
  }
}
