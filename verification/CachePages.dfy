/**
 What the disk cache of src/system/cache/cache.c means, on values: the cached
 pages from the most to the least recently used, the disk under them, and the
 logical disk the two make up together.
 */
module CachePages {

  const SECTORS_PER_PAGE := 8

  datatype Sector = Sector(bytes: seq<int>)

  /** A cached page, numbered as find_chunk numbers it. */
  datatype Page = Page(
    number: nat,
    buffer: seq<Sector>,
    dirty: bool,
    firstWriteTime: int,
    lastAccessTime: int)

  /** The whole page is on the disk; ata_read and ata_write refuse any other. */
  predicate OnDisk(n: nat, sectors: nat) {
    SECTORS_PER_PAGE * n + SECTORS_PER_PAGE <= sectors
  }

  function PageOf(disk: seq<Sector>, n: nat): (page: seq<Sector>)
    requires OnDisk(n, |disk|)
    ensures |page| == SECTORS_PER_PAGE
  {
    disk[SECTORS_PER_PAGE * n..SECTORS_PER_PAGE * n + SECTORS_PER_PAGE]
  }

  /** The disk with sectors s onwards replaced. */
  function Replaced(disk: seq<Sector>, s: nat, data: seq<Sector>): (r: seq<Sector>)
    requires s + |data| <= |disk|
    ensures |r| == |disk|
  {
    disk[..s] + data + disk[s + |data|..]
  }

  /** ata_write of one page: a page past the end of the disk is refused. */
  function WritePage(disk: seq<Sector>, n: nat, data: seq<Sector>): (r: seq<Sector>)
    requires |data| == SECTORS_PER_PAGE
    ensures |r| == |disk|
  {
    if OnDisk(n, |disk|) then Replaced(disk, SECTORS_PER_PAGE * n, data) else disk
  }

  /** The logical disk: the cached page if there is one, the raw disk otherwise. */
  function LogicalAt(disk: seq<Sector>, pages: seq<Page>, s: nat): Sector
    requires s < |disk|
  {
    if pages == [] then disk[s]
    else
      var p := pages[0];
      if s / SECTORS_PER_PAGE == p.number && OnDisk(p.number, |disk|) && |p.buffer| == SECTORS_PER_PAGE
      then p.buffer[s % SECTORS_PER_PAGE]
      else LogicalAt(disk, pages[1..], s)
  }

  predicate PageAgrees(p: Page, logical: seq<Sector>) {
    |p.buffer| == SECTORS_PER_PAGE && (OnDisk(p.number, |logical|) ==> p.buffer == PageOf(logical, p.number))
  }

  predicate PageSame(disk: seq<Sector>, logical: seq<Sector>, n: nat) {
    |disk| == |logical| && (OnDisk(n, |disk|) ==> PageOf(disk, n) == PageOf(logical, n))
  }

  /** The sectors past the last whole page, which are never cached. */
  function Tail(disk: seq<Sector>): seq<Sector> {
    disk[SECTORS_PER_PAGE * (|disk| / SECTORS_PER_PAGE)..]
  }

  ghost predicate HasDirty(pages: seq<Page>, n: nat) {
    exists i :: 0 <= i < |pages| && pages[i].dirty && pages[i].number == n
  }

  ghost predicate HasPage(pages: seq<Page>, n: nat) {
    exists i :: 0 <= i < |pages| && pages[i].number == n
  }

  /** Every cached page holds its part of the logical disk, and so does the disk wherever no dirty page covers it. */
  ghost predicate Agrees(disk: seq<Sector>, pages: seq<Page>, logical: seq<Sector>) {
    && |disk| == |logical| && Tail(disk) == Tail(logical)
    && (forall i :: 0 <= i < |pages| ==> PageAgrees(pages[i], logical))
    && (forall n: nat {:trigger PageSame(disk, logical, n)} :: HasDirty(pages, n) || PageSame(disk, logical, n))
  }

  ghost predicate CachedOnce(pages: seq<Page>) {
    forall i, j :: 0 <= i < j < |pages| ==> pages[i].number != pages[j].number
  }

  ghost predicate PageTimes(p: Page, clock: int) {
    p.lastAccessTime <= clock && (p.dirty ==> p.firstWriteTime <= clock)
  }

  /** Most recently used first. */
  ghost predicate ByRecency(pages: seq<Page>, clock: int) {
    && (forall i :: 0 <= i < |pages| ==> PageTimes(pages[i], clock))
    && (forall i, j :: 0 <= i < j < |pages| ==> pages[i].lastAccessTime >= pages[j].lastAccessTime)
  }

  /** Page n has been dirty since an earlier second. */
  ghost predicate HasEarlier(pages: seq<Page>, n: nat, clock: int) {
    exists i :: 0 <= i < |pages| && pages[i].dirty && pages[i].number == n && pages[i].firstWriteTime < clock
  }

  /** The disk has page n of the logical disk but for the recent sectors. */
  ghost predicate PageFresh(disk: seq<Sector>, logical: seq<Sector>, n: nat, recent: set<nat>) {
    |disk| == |logical| && (OnDisk(n, |disk|) ==>
      forall s: nat :: SECTORS_PER_PAGE * n <= s < SECTORS_PER_PAGE * n + SECTORS_PER_PAGE ==>
        s in recent || disk[s] == logical[s])
  }

  /** A sector written in an earlier second and not on the disk is under a page that has been dirty since one. */
  ghost predicate Timely(disk: seq<Sector>, pages: seq<Page>, logical: seq<Sector>, clock: int, recent: set<nat>) {
    forall n: nat {:trigger PageFresh(disk, logical, n, recent)} ::
      HasEarlier(pages, n, clock) || PageFresh(disk, logical, n, recent)
  }

  /** The sectors written since the clock last moved, once it is now. */
  ghost function Since(recent: set<nat>, clock: int, now: int): set<nat> {
    if now > clock then {} else recent
  }

  ghost function Range(s: nat, n: nat): (r: set<nat>)
    ensures forall x: nat :: x in r <==> s <= x < s + n
  {
    if n == 0 then {} else Range(s, n - 1) + {s + n - 1}
  }

  ghost predicate Inv(disk: seq<Sector>, pages: seq<Page>, logical: seq<Sector>, clock: int, recent: set<nat>) {
    Agrees(disk, pages, logical) && CachedOnce(pages) && ByRecency(pages, clock) &&
    Timely(disk, pages, logical, clock, recent)
  }

  /** There is only one logical disk a cache can agree with: the one read through it. */
  lemma AgreesWithLogical(disk: seq<Sector>, pages: seq<Page>, logical: seq<Sector>, s: nat)
    requires Agrees(disk, pages, logical) && s < |disk|
    ensures logical[s] == LogicalAt(disk, pages, s)
  {
    if !HasPage(pages, s / SECTORS_PER_PAGE) {
      SameSector(disk, logical, s);
    }
    if !OnDisk(s / SECTORS_PER_PAGE, |disk|) {
      TailSector(disk, s);
      TailSector(logical, s);
    }
    ReadThrough(disk, pages, logical, s);
  }

  lemma SameSector(disk: seq<Sector>, logical: seq<Sector>, s: nat)
    requires s < |disk| && PageSame(disk, logical, s / SECTORS_PER_PAGE) && Tail(disk) == Tail(logical)
    ensures disk[s] == logical[s]
  {
    var n := s / SECTORS_PER_PAGE;
    if OnDisk(n, |disk|) {
      assert PageOf(disk, n)[s % SECTORS_PER_PAGE] == disk[s];
      assert PageOf(logical, n)[s % SECTORS_PER_PAGE] == logical[s];
    } else {
      TailSector(disk, s);
      TailSector(logical, s);
    }
  }

  lemma TailSector(disk: seq<Sector>, s: nat)
    requires s < |disk| && !OnDisk(s / SECTORS_PER_PAGE, |disk|)
    ensures var t := SECTORS_PER_PAGE * (|disk| / SECTORS_PER_PAGE);
            t <= s && Tail(disk)[s - t] == disk[s]
  {
  }

  lemma {:induction false} ReadThrough(disk: seq<Sector>, pages: seq<Page>, logical: seq<Sector>, s: nat)
    requires |disk| == |logical| && s < |disk|
    requires forall i :: 0 <= i < |pages| ==> PageAgrees(pages[i], logical)
    requires !HasPage(pages, s / SECTORS_PER_PAGE) || !OnDisk(s / SECTORS_PER_PAGE, |disk|) ==> disk[s] == logical[s]
    ensures logical[s] == LogicalAt(disk, pages, s)
    decreases |pages|
  {
    if pages != [] {
      var n, p := s / SECTORS_PER_PAGE, pages[0];
      if p.number == n && OnDisk(n, |disk|) {
        assert PageAgrees(p, logical);
        assert PageOf(logical, n)[s % SECTORS_PER_PAGE] == logical[s];
      } else {
        var rest := pages[1..];
        if HasPage(pages, n) && OnDisk(n, |disk|) {
          var i :| 0 <= i < |pages| && pages[i].number == n;
          assert rest[i - 1].number == n;
        }
        ReadThrough(disk, rest, logical, s);
      }
    }
  }

  /** With nothing dirty the disk is the logical disk. */
  lemma CleanIsSynced(disk: seq<Sector>, pages: seq<Page>, logical: seq<Sector>)
    requires Agrees(disk, pages, logical) && forall i :: 0 <= i < |pages| ==> !pages[i].dirty
    ensures disk == logical
  {
    forall s | 0 <= s < |disk| ensures disk[s] == logical[s] {
      assert !HasDirty(pages, s / SECTORS_PER_PAGE);
      SameSector(disk, logical, s);
    }
  }

  // The changes the cache makes to its pages.

  function Without(pages: seq<Page>, k: nat): (r: seq<Page>)
    requires k < |pages|
    ensures |r| == |pages| - 1
    ensures forall i :: 0 <= i < |r| ==> r[i] == pages[if i < k then i else i + 1]
  {
    pages[..k] + pages[k + 1..]
  }

  /** mark_access: page k, read or written now, goes to the front. */
  function Touched(pages: seq<Page>, k: nat, now: int): (r: seq<Page>)
    requires k < |pages|
    ensures |r| == |pages|
  {
    [pages[k].(lastAccessTime := now)] + Without(pages, k)
  }

  function Loaded(pages: seq<Page>, n: nat, buffer: seq<Sector>, now: int): (r: seq<Page>) {
    [Page(n, buffer, false, 0, now)] + pages
  }

  function Soiled(p: Page, now: int, buffer: seq<Sector>): Page {
    p.(dirty := true, buffer := buffer, firstWriteTime := if p.dirty then p.firstWriteTime else now)
  }

  function Cleaned(p: Page): Page {
    p.(dirty := false)
  }

  // What keeps the disk timely.

  lemma LaterTimely(disk: seq<Sector>, pages: seq<Page>, logical: seq<Sector>, clock: int, recent: set<nat>, now: int)
    requires Agrees(disk, pages, logical) && ByRecency(pages, clock) && clock <= now
    requires Timely(disk, pages, logical, clock, recent)
    ensures Timely(disk, pages, logical, now, Since(recent, clock, now))
  {
    if now > clock {
      forall n: nat ensures HasEarlier(pages, n, now) || PageFresh(disk, logical, n, {}) {
        assert HasDirty(pages, n) || PageSame(disk, logical, n);
        if HasDirty(pages, n) {
          var i :| 0 <= i < |pages| && pages[i].dirty && pages[i].number == n;
          assert PageTimes(pages[i], clock);
        } else {
          SameFresh(disk, logical, n, {});
        }
      }
    }
  }

  lemma SameFresh(disk: seq<Sector>, logical: seq<Sector>, n: nat, recent: set<nat>)
    requires PageSame(disk, logical, n)
    ensures PageFresh(disk, logical, n, recent)
  {
    if OnDisk(n, |disk|) {
      forall s: nat | SECTORS_PER_PAGE * n <= s < SECTORS_PER_PAGE * n + SECTORS_PER_PAGE
        ensures disk[s] == logical[s]
      {
        assert disk[s] == PageOf(disk, n)[s - SECTORS_PER_PAGE * n];
        assert logical[s] == PageOf(logical, n)[s - SECTORS_PER_PAGE * n];
      }
    }
  }

  lemma TouchedTimely(disk: seq<Sector>, pages: seq<Page>, logical: seq<Sector>, clock: int, recent: set<nat>,
      k: nat, now: int)
    requires Timely(disk, pages, logical, clock, recent) && k < |pages|
    ensures Timely(disk, Touched(pages, k, now), logical, clock, recent)
  {
    hide PageFresh;
    var r := Touched(pages, k, now);
    forall n: nat ensures HasEarlier(r, n, clock) || PageFresh(disk, logical, n, recent) {
      assert HasEarlier(pages, n, clock) || PageFresh(disk, logical, n, recent);
      if HasEarlier(pages, n, clock) {
        var i :| 0 <= i < |pages| && pages[i].dirty && pages[i].number == n && pages[i].firstWriteTime < clock;
        var j := if i == k then 0 else if i < k then i + 1 else i;
        assert r[j].dirty && r[j].number == n && r[j].firstWriteTime < clock;
      }
    }
  }

  lemma LoadedTimely(disk: seq<Sector>, pages: seq<Page>, logical: seq<Sector>, clock: int, recent: set<nat>,
      n: nat, buffer: seq<Sector>, now: int)
    requires Timely(disk, pages, logical, clock, recent)
    ensures Timely(disk, Loaded(pages, n, buffer, now), logical, clock, recent)
  {
    hide PageFresh;
    var r := Loaded(pages, n, buffer, now);
    forall m: nat ensures HasEarlier(r, m, clock) || PageFresh(disk, logical, m, recent) {
      assert HasEarlier(pages, m, clock) || PageFresh(disk, logical, m, recent);
      if HasEarlier(pages, m, clock) {
        var i :| 0 <= i < |pages| && pages[i].dirty && pages[i].number == m && pages[i].firstWriteTime < clock;
        assert r[i + 1].dirty && r[i + 1].number == m && r[i + 1].firstWriteTime < clock;
      }
    }
  }

  lemma WithoutTimely(disk: seq<Sector>, pages: seq<Page>, logical: seq<Sector>, clock: int, recent: set<nat>, k: nat)
    requires Timely(disk, pages, logical, clock, recent) && k < |pages| && !pages[k].dirty
    ensures Timely(disk, Without(pages, k), logical, clock, recent)
  {
    hide PageFresh;
    var r := Without(pages, k);
    forall m: nat ensures HasEarlier(r, m, clock) || PageFresh(disk, logical, m, recent) {
      assert HasEarlier(pages, m, clock) || PageFresh(disk, logical, m, recent);
      if HasEarlier(pages, m, clock) {
        var i :| 0 <= i < |pages| && pages[i].dirty && pages[i].number == m && pages[i].firstWriteTime < clock;
        var j := if i < k then i else i - 1;
        assert r[j].dirty && r[j].number == m && r[j].firstWriteTime < clock;
      }
    }
  }

  /** A page whose time and dirt do not get lost. */
  lemma KeptEarlier(pages: seq<Page>, clock: int, k: nat, p: Page, m: nat)
    requires k < |pages| && p.number == pages[k].number
    requires pages[k].dirty ==> p.dirty && p.firstWriteTime == pages[k].firstWriteTime
    ensures HasEarlier(pages, m, clock) ==> HasEarlier(pages[k := p], m, clock)
  {
    if HasEarlier(pages, m, clock) {
      var i :| 0 <= i < |pages| && pages[i].dirty && pages[i].number == m && pages[i].firstWriteTime < clock;
      var r := pages[k := p];
      assert r[i].dirty && r[i].number == m && r[i].firstWriteTime < clock;
    }
  }

  lemma KeptTimely(disk: seq<Sector>, pages: seq<Page>, logical: seq<Sector>, clock: int, recent: set<nat>,
      k: nat, p: Page)
    requires Timely(disk, pages, logical, clock, recent) && k < |pages| && p.number == pages[k].number
    requires pages[k].dirty ==> p.dirty && p.firstWriteTime == pages[k].firstWriteTime
    ensures Timely(disk, pages[k := p], logical, clock, recent)
  {
    hide PageFresh, HasEarlier;
    forall m: nat ensures HasEarlier(pages[k := p], m, clock) || PageFresh(disk, logical, m, recent) {
      assert HasEarlier(pages, m, clock) || PageFresh(disk, logical, m, recent);
      KeptEarlier(pages, clock, k, p, m);
    }
  }

  /** What is written now is recent, and a page that was dirty keeps its time. */
  lemma SoiledTimely(disk: seq<Sector>, pages: seq<Page>, logical: seq<Sector>, clock: int, recent: set<nat>,
      k: nat, first: nat, data: seq<Sector>)
    requires Timely(disk, pages, logical, clock, recent) && k < |pages| && |disk| == |logical|
    requires first + |data| <= SECTORS_PER_PAGE == |pages[k].buffer| && OnDisk(pages[k].number, |disk|)
    ensures var s := SECTORS_PER_PAGE * pages[k].number + first;
            Timely(disk, pages[k := Soiled(pages[k], clock, Replaced(pages[k].buffer, first, data))],
                   Replaced(logical, s, data), clock, recent + Range(s, |data|))
  {
    var s := SECTORS_PER_PAGE * pages[k].number + first;
    var p := Soiled(pages[k], clock, Replaced(pages[k].buffer, first, data));
    var l, now := Replaced(logical, s, data), recent + Range(s, |data|);
    hide PageFresh, HasEarlier, Replaced, Range;
    forall m: nat ensures HasEarlier(pages[k := p], m, clock) || PageFresh(disk, l, m, now) {
      assert HasEarlier(pages, m, clock) || PageFresh(disk, logical, m, recent);
      KeptEarlier(pages, clock, k, p, m);
      if PageFresh(disk, logical, m, recent) {
        RecentFresh(disk, logical, m, recent, s, data);
      }
    }
  }

  lemma RecentFresh(disk: seq<Sector>, logical: seq<Sector>, m: nat, recent: set<nat>, s: nat, data: seq<Sector>)
    requires PageFresh(disk, logical, m, recent) && s + |data| <= |logical|
    ensures PageFresh(disk, Replaced(logical, s, data), m, recent + Range(s, |data|))
  {
    ReplacedAt(logical, s, data);
    hide Replaced;
  }

  lemma CleanedTimely(disk: seq<Sector>, pages: seq<Page>, logical: seq<Sector>, clock: int, recent: set<nat>, k: nat)
    requires Timely(disk, pages, logical, clock, recent) && k < |pages| && PageAgrees(pages[k], logical)
    requires |disk| == |logical|
    ensures |pages[k].buffer| == SECTORS_PER_PAGE
    ensures Timely(WritePage(disk, pages[k].number, pages[k].buffer),
        pages[k := Cleaned(pages[k])], logical, clock, recent)
  {
    hide PageFresh, WritePage;
    var r, d := pages[k := Cleaned(pages[k])], WritePage(disk, pages[k].number, pages[k].buffer);
    forall m: nat ensures HasEarlier(r, m, clock) || PageFresh(d, logical, m, recent) {
      assert HasEarlier(pages, m, clock) || PageFresh(disk, logical, m, recent);
      if m == pages[k].number {
        FlushedFresh(disk, logical, pages[k], recent);
      } else if HasEarlier(pages, m, clock) {
        var i :| 0 <= i < |pages| && pages[i].dirty && pages[i].number == m && pages[i].firstWriteTime < clock;
        assert r[i].dirty && r[i].number == m && r[i].firstWriteTime < clock;
      } else {
        OtherFresh(disk, logical, pages[k], recent, m);
      }
    }
  }

  lemma FlushedFresh(disk: seq<Sector>, logical: seq<Sector>, p: Page, recent: set<nat>)
    requires PageAgrees(p, logical) && |disk| == |logical|
    ensures PageFresh(WritePage(disk, p.number, p.buffer), logical, p.number, recent)
  {
    if OnDisk(p.number, |disk|) {
      ReplacedPages(disk, p.number, 0, p.buffer, p.number);
    }
    SameFresh(WritePage(disk, p.number, p.buffer), logical, p.number, recent);
  }

  lemma OtherFresh(disk: seq<Sector>, logical: seq<Sector>, p: Page, recent: set<nat>, m: nat)
    requires PageAgrees(p, logical) && PageFresh(disk, logical, m, recent) && m != p.number
    ensures PageFresh(WritePage(disk, p.number, p.buffer), logical, m, recent)
  {
    if OnDisk(p.number, |disk|) {
      ReplacedAt(disk, SECTORS_PER_PAGE * p.number, p.buffer);
    }
    hide Replaced;
  }

  /** With no page dirty since an earlier second, what was written before this one is on the disk. */
  lemma EarlierWritten(disk: seq<Sector>, pages: seq<Page>, logical: seq<Sector>, clock: int, recent: set<nat>,
      s: nat)
    requires Agrees(disk, pages, logical) && Timely(disk, pages, logical, clock, recent) && s < |disk| && s !in recent
    requires forall i :: 0 <= i < |pages| && pages[i].dirty ==> pages[i].firstWriteTime >= clock
    ensures disk[s] == logical[s]
  {
    var n := s / SECTORS_PER_PAGE;
    assert !HasEarlier(pages, n, clock);
    assert PageFresh(disk, logical, n, recent);
    if !OnDisk(n, |disk|) {
      TailSector(disk, s);
      TailSector(logical, s);
    }
  }

  /** A page moved around leaves the same pages. */
  lemma TouchedHas(pages: seq<Page>, k: nat, now: int, n: nat)
    requires k < |pages|
    ensures HasDirty(pages, n) ==> HasDirty(Touched(pages, k, now), n)
  {
    if HasDirty(pages, n) {
      var i :| 0 <= i < |pages| && pages[i].dirty && pages[i].number == n;
      var r := Touched(pages, k, now);
      var j := if i == k then 0 else if i < k then i + 1 else i;
      assert r[j].dirty && r[j].number == n;
    }
  }

  lemma TouchedInv(disk: seq<Sector>, pages: seq<Page>, logical: seq<Sector>, clock: int, recent: set<nat>,
      k: nat, now: int)
    requires Inv(disk, pages, logical, clock, recent) && k < |pages| && clock <= now
    ensures Inv(disk, Touched(pages, k, now), logical, now, Since(recent, clock, now))
  {
    var r := Touched(pages, k, now);
    LaterTimely(disk, pages, logical, clock, recent, now);
    TouchedTimely(disk, pages, logical, now, Since(recent, clock, now), k, now);
    hide Timely;
    forall n: nat ensures HasDirty(r, n) || PageSame(disk, logical, n) {
      TouchedHas(pages, k, now, n);
      assert HasDirty(pages, n) || PageSame(disk, logical, n);
    }
    assert PageAgrees(pages[k], logical);
    forall i | 0 <= i < |r| ensures PageAgrees(r[i], logical) && PageTimes(r[i], now) {
      var j := if i == 0 then k else if i - 1 < k then i - 1 else i;
      assert PageAgrees(pages[j], logical) && PageTimes(pages[j], clock);
    }
  }

  lemma LoadedInv(disk: seq<Sector>, pages: seq<Page>, logical: seq<Sector>, clock: int, recent: set<nat>, n: nat,
      buffer: seq<Sector>, now: int)
    requires Inv(disk, pages, logical, clock, recent) && clock <= now && !HasPage(pages, n)
    requires |buffer| == SECTORS_PER_PAGE && (OnDisk(n, |disk|) ==> buffer == PageOf(disk, n))
    ensures Inv(disk, Loaded(pages, n, buffer, now), logical, now, Since(recent, clock, now))
  {
    var r := Loaded(pages, n, buffer, now);
    LaterTimely(disk, pages, logical, clock, recent, now);
    LoadedTimely(disk, pages, logical, now, Since(recent, clock, now), n, buffer, now);
    hide Timely;
    assert HasDirty(pages, n) || PageSame(disk, logical, n);
    forall m: nat ensures HasDirty(r, m) || PageSame(disk, logical, m) {
      assert HasDirty(pages, m) || PageSame(disk, logical, m);
      if HasDirty(pages, m) {
        var i :| 0 <= i < |pages| && pages[i].dirty && pages[i].number == m;
        assert r[i + 1].dirty && r[i + 1].number == m;
      }
    }
    forall i | 0 <= i < |r| ensures PageAgrees(r[i], logical) && PageTimes(r[i], now) {
      if i > 0 {
        assert PageAgrees(pages[i - 1], logical) && PageTimes(pages[i - 1], clock);
      }
    }
  }

  /** Replacing part of one page leaves every other page and the tail alone. */
  lemma ReplacedPages(disk: seq<Sector>, n: nat, first: nat, data: seq<Sector>, m: nat)
    requires OnDisk(n, |disk|) && first + |data| <= SECTORS_PER_PAGE
    ensures var r := Replaced(disk, SECTORS_PER_PAGE * n + first, data);
            && (m != n && OnDisk(m, |disk|) ==> PageOf(r, m) == PageOf(disk, m))
            && PageOf(r, n) == PageOf(disk, n)[..first] + data + PageOf(disk, n)[first + |data|..]
            && Tail(r) == Tail(disk)
  {
    var r := Replaced(disk, SECTORS_PER_PAGE * n + first, data);
    ReplacedAt(disk, SECTORS_PER_PAGE * n + first, data);
    hide Replaced;
    var page := PageOf(disk, n)[..first] + data + PageOf(disk, n)[first + |data|..];
    forall i | 0 <= i < SECTORS_PER_PAGE ensures PageOf(r, n)[i] == page[i] {
      assert PageOf(r, n)[i] == r[SECTORS_PER_PAGE * n + i];
      assert PageOf(disk, n)[i] == disk[SECTORS_PER_PAGE * n + i];
    }
  }

  lemma ReplacedAt(disk: seq<Sector>, s: nat, data: seq<Sector>)
    requires s + |data| <= |disk|
    ensures forall i :: 0 <= i < |disk| ==>
      Replaced(disk, s, data)[i] == if s <= i < s + |data| then data[i - s] else disk[i]
  {
  }

  /** A write into a cached page changes the logical disk there and nowhere else. */
  lemma SoiledInv(disk: seq<Sector>, pages: seq<Page>, logical: seq<Sector>, clock: int, recent: set<nat>,
                  k: nat, first: nat, data: seq<Sector>, now: int)
    requires Inv(disk, pages, logical, clock, recent) && k < |pages| && clock <= now
    requires first + |data| <= SECTORS_PER_PAGE && OnDisk(pages[k].number, |disk|)
    ensures var p := pages[k];
            && |p.buffer| == SECTORS_PER_PAGE
            && Inv(disk, pages[k := Soiled(p, now, Replaced(p.buffer, first, data))],
                   Replaced(logical, SECTORS_PER_PAGE * p.number + first, data), now,
                   Since(recent, clock, now) + Range(SECTORS_PER_PAGE * p.number + first, |data|))
  {
    hide HasDirty, PageSame, Replaced, PageOf, Tail, Timely;
    var p := pages[k];
    assert PageAgrees(p, logical);
    LaterTimely(disk, pages, logical, clock, recent, now);
    SoiledTimely(disk, pages, logical, now, Since(recent, clock, now), k, first, data);
    var p' := Soiled(p, now, Replaced(p.buffer, first, data));
    var r := pages[k := p'];
    var l := Replaced(logical, SECTORS_PER_PAGE * p.number + first, data);
    forall i | 0 <= i < |r| ensures PageAgrees(r[i], l) && PageTimes(r[i], now) {
      assert PageAgrees(pages[i], logical) && PageTimes(pages[i], clock);
      SoiledAgrees(logical, p, first, data, now, pages[i]);
    }
    SoiledTail(logical, p.number, first, data);
    forall m: nat ensures HasDirty(r, m) || PageSame(disk, l, m) {
      SoiledSame(disk, pages, logical, k, first, data, p', m);
    }
  }

  lemma SoiledTail(logical: seq<Sector>, n: nat, first: nat, data: seq<Sector>)
    requires OnDisk(n, |logical|) && first + |data| <= SECTORS_PER_PAGE
    ensures Tail(Replaced(logical, SECTORS_PER_PAGE * n + first, data)) == Tail(logical)
  {
    ReplacedPages(logical, n, first, data, n);
  }

  /** Another page q agrees with the logical disk as before, and the soiled page p with what was written. */
  lemma SoiledAgrees(logical: seq<Sector>, p: Page, first: nat, data: seq<Sector>, now: int, q: Page)
    requires PageAgrees(p, logical) && PageAgrees(q, logical)
    requires first + |data| <= SECTORS_PER_PAGE && OnDisk(p.number, |logical|)
    ensures var l := Replaced(logical, SECTORS_PER_PAGE * p.number + first, data);
            && PageAgrees(Soiled(p, now, Replaced(p.buffer, first, data)), l)
            && (q.number != p.number ==> PageAgrees(q, l))
  {
    ReplacedPages(logical, p.number, first, data, p.number);
    ReplacedPages(logical, p.number, first, data, q.number);
  }

  lemma SoiledSame(disk: seq<Sector>, pages: seq<Page>, logical: seq<Sector>, k: nat, first: nat,
      data: seq<Sector>, p': Page, m: nat)
    requires |disk| == |logical| && k < |pages| && first + |data| <= SECTORS_PER_PAGE
    requires OnDisk(pages[k].number, |disk|)
    requires HasDirty(pages, m) || PageSame(disk, logical, m)
    requires p'.dirty && p'.number == pages[k].number
    ensures HasDirty(pages[k := p'], m) ||
        PageSame(disk, Replaced(logical, SECTORS_PER_PAGE * p'.number + first, data), m)
  {
    ReplacedPages(logical, p'.number, first, data, m);
    var r := pages[k := p'];
    if HasDirty(pages, m) {
      var i :| 0 <= i < |pages| && pages[i].dirty && pages[i].number == m;
      assert r[i].dirty && r[i].number == m;
    } else {
      assert r[k].dirty;
    }
  }

  /** A write of no sectors still soils the page, even one past the end of the disk. */
  lemma SoiledNothing(disk: seq<Sector>, pages: seq<Page>, logical: seq<Sector>, clock: int, recent: set<nat>,
      k: nat, now: int)
    requires Inv(disk, pages, logical, clock, recent) && k < |pages| && clock <= now
    ensures Inv(disk, pages[k := Soiled(pages[k], now, pages[k].buffer)], logical, now, Since(recent, clock, now))
  {
    var r := pages[k := Soiled(pages[k], now, pages[k].buffer)];
    LaterTimely(disk, pages, logical, clock, recent, now);
    KeptTimely(disk, pages, logical, now, Since(recent, clock, now), k, Soiled(pages[k], now, pages[k].buffer));
    hide Timely;
    forall i | 0 <= i < |r| ensures PageAgrees(r[i], logical) && PageTimes(r[i], now) {
      assert PageAgrees(pages[i], logical) && PageTimes(pages[i], clock);
    }
    forall m: nat ensures HasDirty(r, m) || PageSame(disk, logical, m) {
      assert HasDirty(pages, m) || PageSame(disk, logical, m);
      if HasDirty(pages, m) {
        var i :| 0 <= i < |pages| && pages[i].dirty && pages[i].number == m;
        assert r[i].dirty && r[i].number == m;
      }
    }
  }

  /** Writing a page back changes the disk, not the logical disk. */
  lemma CleanedInv(disk: seq<Sector>, pages: seq<Page>, logical: seq<Sector>, clock: int, recent: set<nat>, k: nat)
    requires Inv(disk, pages, logical, clock, recent) && k < |pages|
    ensures |pages[k].buffer| == SECTORS_PER_PAGE
    ensures Inv(WritePage(disk, pages[k].number, pages[k].buffer), pages[k := Cleaned(pages[k])],
        logical, clock, recent)
  {
    assert PageAgrees(pages[k], logical);
    var r, d := pages[k := Cleaned(pages[k])], WritePage(disk, pages[k].number, pages[k].buffer);
    CleanedTimely(disk, pages, logical, clock, recent, k);
    hide Timely;
    forall i | 0 <= i < |r| ensures PageAgrees(r[i], logical) && PageTimes(r[i], clock) {
      assert PageAgrees(pages[i], logical) && PageTimes(pages[i], clock);
    }
    if OnDisk(pages[k].number, |disk|) {
      ReplacedPages(disk, pages[k].number, 0, pages[k].buffer, 0);
    }
    forall m: nat ensures HasDirty(r, m) || PageSame(d, logical, m) {
      CleanedSame(disk, pages, logical, k, m);
    }
  }

  lemma CleanedSame(disk: seq<Sector>, pages: seq<Page>, logical: seq<Sector>, k: nat, m: nat)
    requires k < |pages| && PageAgrees(pages[k], logical) && |disk| == |logical|
    requires HasDirty(pages, m) || PageSame(disk, logical, m)
    ensures HasDirty(pages[k := Cleaned(pages[k])], m) ||
        PageSame(WritePage(disk, pages[k].number, pages[k].buffer), logical, m)
  {
    var r, p := pages[k := Cleaned(pages[k])], pages[k];
    if OnDisk(p.number, |disk|) {
      ReplacedPages(disk, p.number, 0, p.buffer, m);
    }
    if HasDirty(pages, m) && p.number != m {
      var i :| 0 <= i < |pages| && pages[i].dirty && pages[i].number == m;
      assert r[i].dirty && r[i].number == m;
    }
  }

  /** A clean page may go. */
  lemma WithoutInv(disk: seq<Sector>, pages: seq<Page>, logical: seq<Sector>, clock: int, recent: set<nat>, k: nat)
    requires Inv(disk, pages, logical, clock, recent) && k < |pages| && !pages[k].dirty
    ensures Inv(disk, Without(pages, k), logical, clock, recent)
  {
    var r := Without(pages, k);
    WithoutTimely(disk, pages, logical, clock, recent, k);
    hide Timely;
    forall m: nat ensures HasDirty(r, m) || PageSame(disk, logical, m) {
      assert HasDirty(pages, m) || PageSame(disk, logical, m);
      if HasDirty(pages, m) {
        var i :| 0 <= i < |pages| && pages[i].dirty && pages[i].number == m;
        var j := if i < k then i else i - 1;
        assert r[j].dirty && r[j].number == m;
      }
    }
  }

  /** A page may go once it is on the disk. */
  lemma ReleasedInv(disk: seq<Sector>, pages: seq<Page>, logical: seq<Sector>, clock: int, recent: set<nat>, k: nat)
    requires Inv(disk, pages, logical, clock, recent) && k < |pages|
    ensures |pages[k].buffer| == SECTORS_PER_PAGE
    ensures Inv(if pages[k].dirty then WritePage(disk, pages[k].number, pages[k].buffer) else disk,
                Without(pages, k), logical, clock, recent)
  {
    if pages[k].dirty {
      CleanedInv(disk, pages, logical, clock, recent, k);
      var cleaned := pages[k := Cleaned(pages[k])];
      WithoutInv(WritePage(disk, pages[k].number, pages[k].buffer), cleaned, logical, clock, recent, k);
      assert Without(cleaned, k) == Without(pages, k);
    } else {
      WithoutInv(disk, pages, logical, clock, recent, k);
      assert PageAgrees(pages[k], logical);
    }
  }

  lemma InvSynced(disk: seq<Sector>, pages: seq<Page>, logical: seq<Sector>, clock: int, recent: set<nat>)
    requires Inv(disk, pages, logical, clock, recent)
    ensures (forall i :: 0 <= i < |pages| ==> !pages[i].dirty) ==> disk == logical
    ensures forall i :: 0 <= i < |pages| && pages[i].dirty ==> pages[i].firstWriteTime <= clock
    ensures |disk| == |logical|
    ensures (forall i :: 0 <= i < |pages| && pages[i].dirty ==> pages[i].firstWriteTime >= clock) ==>
      forall s: nat :: s < |disk| && s !in recent ==> disk[s] == logical[s]
  {
    if forall i :: 0 <= i < |pages| && pages[i].dirty ==> pages[i].firstWriteTime >= clock {
      forall s: nat | s < |disk| && s !in recent ensures disk[s] == logical[s] {
        EarlierWritten(disk, pages, logical, clock, recent, s);
      }
    }
    if forall i :: 0 <= i < |pages| ==> !pages[i].dirty {
      CleanIsSynced(disk, pages, logical);
    }
    forall i | 0 <= i < |pages| && pages[i].dirty ensures pages[i].firstWriteTime <= clock {
      assert PageTimes(pages[i], clock);
    }
  }

  lemma LaterInv(disk: seq<Sector>, pages: seq<Page>, logical: seq<Sector>, clock: int, recent: set<nat>, now: int)
    requires Inv(disk, pages, logical, clock, recent) && clock <= now
    ensures Inv(disk, pages, logical, now, Since(recent, clock, now))
  {
    LaterTimely(disk, pages, logical, clock, recent, now);
    hide Timely;
  }

  /** Both cases of a write into page k. */
  lemma WrittenInv(disk: seq<Sector>, pages: seq<Page>, logical: seq<Sector>, clock: int, recent: set<nat>,
                   k: nat, first: nat, data: seq<Sector>, now: int)
    requires Inv(disk, pages, logical, clock, recent) && k < |pages| && clock <= now
    requires first + |data| <= SECTORS_PER_PAGE && (|data| > 0 ==> OnDisk(pages[k].number, |disk|))
    ensures |pages[k].buffer| == SECTORS_PER_PAGE && |disk| == |logical|
    ensures Inv(disk, pages[k := Soiled(pages[k], now, Replaced(pages[k].buffer, first, data))],
                if |data| == 0 then logical else Replaced(logical, SECTORS_PER_PAGE * pages[k].number + first, data),
                now, Since(recent, clock, now) + Range(SECTORS_PER_PAGE * pages[k].number + first, |data|))
  {
    assert PageAgrees(pages[k], logical);
    if |data| == 0 {
      SoiledNothing(disk, pages, logical, clock, recent, k, now);
      assert Replaced(pages[k].buffer, first, data) == pages[k].buffer;
    } else {
      SoiledInv(disk, pages, logical, clock, recent, k, first, data, now);
    }
  }

  // How cache_read and cache_write cut a request into pages.

  /** Where in the page the copy starts. */
  function PieceFirst(sector: nat, block: nat): nat {
    if block == sector / SECTORS_PER_PAGE then sector % SECTORS_PER_PAGE else 0
  }

  /** How many sectors of the page are copied: the three branches of the loops. */
  function PieceLen(sector: nat, count: nat, block: nat): nat {
    if block == sector / SECTORS_PER_PAGE then
      if count + sector % SECTORS_PER_PAGE > SECTORS_PER_PAGE then SECTORS_PER_PAGE - sector % SECTORS_PER_PAGE else count
    else if block == (sector + count) / SECTORS_PER_PAGE then (sector + count) % SECTORS_PER_PAGE
    else SECTORS_PER_PAGE
  }

  /** The sectors of the request that lie before a page. */
  ghost function Before(sector: nat, count: nat, block: nat): nat {
    if SECTORS_PER_PAGE * block <= sector then 0
    else if SECTORS_PER_PAGE * block >= sector + count then count
    else SECTORS_PER_PAGE * block - sector
  }

  /** The pieces follow one another, cover the request and stay in their pages. */
  lemma Pieces(sector: nat, count: nat, block: nat, sectors: nat)
    requires sector / SECTORS_PER_PAGE <= block <= (sector + count) / SECTORS_PER_PAGE
    requires sector + count <= SECTORS_PER_PAGE * (sectors / SECTORS_PER_PAGE)
    ensures PieceFirst(sector, block) + PieceLen(sector, count, block) <= SECTORS_PER_PAGE
    ensures PieceLen(sector, count, block) > 0 ==>
      SECTORS_PER_PAGE * block + PieceFirst(sector, block) == sector + Before(sector, count, block)
    ensures Before(sector, count, block + 1) == Before(sector, count, block) + PieceLen(sector, count, block) <= count
    ensures PieceLen(sector, count, block) > 0 ==> OnDisk(block, sectors)
    ensures block == sector / SECTORS_PER_PAGE ==> Before(sector, count, block) == 0
    ensures block == (sector + count) / SECTORS_PER_PAGE ==> Before(sector, count, block + 1) == count
  {
  }

  lemma ReplacedTwice(disk: seq<Sector>, s: nat, a: seq<Sector>, b: seq<Sector>)
    requires s + |a| + |b| <= |disk|
    ensures Replaced(Replaced(disk, s, a), s + |a|, b) == Replaced(disk, s, a + b)
  {
  }

  lemma SubSlice(s: seq<Sector>, lo: nat, hi: nat, first: nat, len: nat)
    requires lo <= hi <= |s| && first + len <= hi - lo
    ensures s[lo..hi][first..first + len] == s[lo + first..lo + first + len]
  {
    var a := s[lo..hi];
    var b := a[first..first + len];
    forall i | 0 <= i < len ensures b[i] == s[lo + first..lo + first + len][i] {
      assert b[i] == a[first + i] == s[lo + first + i];
    }
  }

  /** What a cached page says of the logical disk. */
  lemma PieceOf(disk: seq<Sector>, pages: seq<Page>, logical: seq<Sector>, clock: int, recent: set<nat>,
      k: nat, first: nat, len: nat)
    requires Inv(disk, pages, logical, clock, recent) && k < |pages| && first + len <= SECTORS_PER_PAGE
    requires len > 0 ==> OnDisk(pages[k].number, |disk|)
    ensures |pages[k].buffer| == SECTORS_PER_PAGE && |disk| == |logical|
    ensures var s := SECTORS_PER_PAGE * pages[k].number + first;
            len > 0 ==> pages[k].buffer[first..first + len] == logical[s..s + len]
  {
    assert PageAgrees(pages[k], logical);
    var n := pages[k].number;
    if len > 0 {
      SubSlice(logical, SECTORS_PER_PAGE * n, SECTORS_PER_PAGE * n + SECTORS_PER_PAGE, first, len);
    }
  }
}
