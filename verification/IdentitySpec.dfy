/** What identity paging of a list of regions amounts to. */
module IdentitySpec {
  import opened Machine
  import opened PageSpec

  datatype Region = Region(addr: nat, bytes: nat)

  /** How many pages the kernel maps for a region of `n` bytes. */
  function PagesMapped(n: nat): nat {
    n / (4096 + 1) + 1
  }

  /** Page numbers wrap round at the end of the 48-bit space. */
  function NthPage(first: nat, i: nat): nat {
    (first + i) % PAGES
  }

  /** Map `count` pages from page `first` on, each to the frame of its own
      number, cut to the 32 bits of the address field. */
  ghost function MapPages(m: map<nat, nat>, first: nat, count: nat): map<nat, nat> {
    if count == 0 then m
    else
      MapOne(MapPages(m, first, count - 1), NthPage(first, count - 1))
  }

  /** Map one page to the frame of its own number, cut to 32 bits. */
  ghost function MapOne(m: map<nat, nat>, page: nat): map<nat, nat> {
    m[page := page % U32]
  }

  ghost function MapRegion(m: map<nat, nat>, r: Region): map<nat, nat> {
    MapPages(m, PtrToFrame(r.addr), PagesMapped(r.bytes))
  }

  ghost function MapRegions(m: map<nat, nat>, rs: seq<Region>): map<nat, nat> {
    if rs == [] then m else MapRegion(MapRegions(m, rs[..|rs| - 1]), rs[|rs| - 1])
  }

  lemma MapRegionsStep(m: map<nat, nat>, rs: seq<Region>, k: nat)
    requires k < |rs|
    ensures MapRegions(m, rs[..k + 1]) == MapRegion(MapRegions(m, rs[..k]), rs[k])
  {
    assert rs[..k + 1][..k] == rs[..k];
  }

  /** The places of the tables a run of pages, or a list of regions, needs. */
  ghost function PlacesOfRun(first: nat, count: nat): set<Place> {
    if count == 0 then {} else PlacesOfRun(first, count - 1) + PlacesOf(NthPage(first, count - 1))
  }

  ghost function PlacesOfRegion(r: Region): set<Place> {
    PlacesOfRun(PtrToFrame(r.addr), PagesMapped(r.bytes))
  }

  ghost function PlacesOfRegions(rs: seq<Region>): set<Place> {
    if rs == [] then {} else PlacesOfRegions(rs[..|rs| - 1]) + PlacesOfRegion(rs[|rs| - 1])
  }

  lemma {:induction false} PlacesOfRunGrow(first: nat, i: nat, count: nat)
    requires i <= count
    ensures PlacesOfRun(first, i) <= PlacesOfRun(first, count)
    decreases count
  {
    if i < count {
      PlacesOfRunGrow(first, i, count - 1);
    }
  }

  lemma {:induction false} PlacesOfRegionsGrow(rs: seq<Region>, k: nat)
    requires k <= |rs|
    ensures PlacesOfRegions(rs[..k]) <= PlacesOfRegions(rs)
    decreases |rs|
  {
    if k < |rs| {
      var front := rs[..|rs| - 1];
      assert front[..k] == rs[..k];
      PlacesOfRegionsGrow(front, k);
    } else {
      assert rs[..k] == rs;
    }
  }

  ghost predicate InRun(first: nat, count: nat, page: nat) {
    exists i: nat :: i < count && page == NthPage(first, i)
  }

  ghost predicate InRegion(r: Region, page: nat) {
    InRun(PtrToFrame(r.addr), PagesMapped(r.bytes), page)
  }

  ghost predicate InRegions(rs: seq<Region>, page: nat) {
    exists k :: 0 <= k < |rs| && InRegion(rs[k], page)
  }

  /** Every page that is mapped is mapped to the frame of its own number, cut to
      32 bits. */
  ghost predicate TruncatedIdentity(m: map<nat, nat>) {
    forall page :: page in m ==> m[page] == page % U32
  }

  /** Every page that is mapped is mapped to itself. */
  ghost predicate TrueIdentity(m: map<nat, nat>) {
    forall page :: page in m ==> m[page] == page
  }

  /** Each page of the run is mapped to the frame of its own number, cut to 32
      bits; other pages are left alone. */
  lemma {:induction false} MapPagesAt(m: map<nat, nat>, first: nat, count: nat, page: nat)
    ensures var m' := MapPages(m, first, count);
            && (InRun(first, count, page) ==> page in m' && m'[page] == page % U32)
            && (!InRun(first, count, page) ==> (page in m' <==> page in m) && (page in m ==> m'[page] == m[page]))
  {
    if count > 0 {
      MapPagesAt(m, first, count - 1, page);
      RunStep(first, count - 1, page);
    }
  }

  lemma MapPagesMeaning(m: map<nat, nat>, first: nat, count: nat, page: nat)
    requires TruncatedIdentity(m)
    ensures TruncatedIdentity(MapPages(m, first, count))
    ensures page in MapPages(m, first, count) <==> page in m || InRun(first, count, page)
  {
  }

  lemma RunStep(first: nat, count: nat, page: nat)
    ensures InRun(first, count + 1, page) <==> InRun(first, count, page) || page == NthPage(first, count)
  {
  }

  /** Identity paging of any regions, in any order and with any overlap, maps
      exactly the pages of the regions, each to the frame of its own number cut
      to 32 bits. */
  lemma {:induction false} MapRegionsMeaning(m: map<nat, nat>, rs: seq<Region>, page: nat)
    requires TruncatedIdentity(m)
    ensures TruncatedIdentity(MapRegions(m, rs))
    ensures page in MapRegions(m, rs) <==> page in m || InRegions(rs, page)
  {
    if rs != [] {
      var front, last := rs[..|rs| - 1], rs[|rs| - 1];
      MapRegionsMeaning(m, front, page);
      MapPagesMeaning(MapRegions(m, front), PtrToFrame(last.addr), PagesMapped(last.bytes), page);
      if InRegions(front, page) {
        var k :| 0 <= k < |front| && InRegion(front[k], page);
        assert InRegion(rs[k], page);
      }
    }
  }

  lemma MapOfRegions(rs: seq<Region>)
    ensures TruncatedIdentity(MapRegions(map[], rs))
    ensures forall page :: page in MapRegions(map[], rs) <==> InRegions(rs, page)
  {
    MapRegionsMeaning(map[], rs, 0);
    forall page: nat
      ensures page in MapRegions(map[], rs) <==> InRegions(rs, page)
    {
      MapRegionsMeaning(map[], rs, page);
    }
  }

  lemma NthBeforeWrap(first: nat, i: nat)
    requires first % PAGES + i < PAGES
    ensures NthPage(first, i) == first % PAGES + i
  {
  }

  /** All pages of a run lie below page 2^32 exactly when the run, counted from
      its first page in the 48-bit space, ends there. */
  lemma RunBelow(first: nat, count: nat)
    requires count > 0
    ensures (forall page: nat :: InRun(first, count, page) ==> page < U32) <==> first % PAGES + count <= U32
  {
    var f := first % PAGES;
    if f + count <= U32 {
      forall i: nat | i < count
        ensures NthPage(first, i) < U32
      {
        NthBeforeWrap(first, i);
      }
    } else {
      var i: nat := if f < U32 then U32 - f else 0;
      NthBeforeWrap(first, i);
      assert InRun(first, count, NthPage(first, i));
    }
  }

  /** Identity paging really maps every page of a region to itself exactly when
      the region ends at or below page 2^32. */
  lemma RegionIdentity(m: map<nat, nat>, r: Region)
    requires TruncatedIdentity(m) && forall page: nat :: InRegion(r, page) ==> page in m
    ensures (forall page: nat :: InRegion(r, page) ==> m[page] == page) <==>
            PageOf(r.addr) + PagesMapped(r.bytes) <= U32
  {
    var first, count := PtrToFrame(r.addr), PagesMapped(r.bytes);
    RunBelow(first, count);
    forall page: nat
      ensures InRegion(r, page) <==> InRun(first, count, page)
      ensures InRun(first, count, page) ==> (m[page] == page <==> page < U32)
    {
    }
    if first % PAGES + count > U32 {
      var page: nat :| InRun(first, count, page) && page >= U32;
      assert InRegion(r, page);
    }
  }

  /** The same for a list of regions. */
  lemma TrueIdentityCondition(rs: seq<Region>)
    ensures TrueIdentity(MapRegions(map[], rs)) <==>
            forall k :: 0 <= k < |rs| ==> PageOf(rs[k].addr) + PagesMapped(rs[k].bytes) <= U32
  {
    var m := MapRegions(map[], rs);
    MapOfRegions(rs);
    forall k | 0 <= k < |rs|
      ensures (forall page: nat :: InRegion(rs[k], page) ==> page in m && m[page] == page) <==>
              PageOf(rs[k].addr) + PagesMapped(rs[k].bytes) <= U32
    {
      assert forall page: nat :: InRegion(rs[k], page) ==> InRegions(rs, page);
      RegionIdentity(m, rs[k]);
    }
  }

  /** The order of the regions makes no difference. */
  lemma OrderIrrelevant(rs: seq<Region>, rs': seq<Region>)
    requires forall r :: r in rs <==> r in rs'
    ensures MapRegions(map[], rs) == MapRegions(map[], rs')
  {
    var a, b := MapRegions(map[], rs), MapRegions(map[], rs');
    forall page: nat
      ensures page in a <==> page in b
    {
      MapRegionsMeaning(map[], rs, page);
      MapRegionsMeaning(map[], rs', page);
      SameRegions(rs, rs', page);
      SameRegions(rs', rs, page);
    }
    MapRegionsMeaning(map[], rs, 0);
    MapRegionsMeaning(map[], rs', 0);
  }

  lemma SameRegions(rs: seq<Region>, rs': seq<Region>, page: nat)
    requires forall r :: r in rs ==> r in rs'
    ensures InRegions(rs, page) ==> InRegions(rs', page)
  {
    if InRegions(rs, page) {
      var k :| 0 <= k < |rs| && InRegion(rs[k], page);
      assert rs[k] in rs';
    }
  }

  /** Every byte of the region lies in a page that identity paging maps. */
  ghost predicate FullyMapped(r: Region) {
    forall x: nat :: r.addr <= x < r.addr + r.bytes ==> InRegion(r, PageOf(x))
  }

  /** The number of pages the loop maps reaches the region's last byte exactly
      under this condition on the two numbers. */
  lemma LastPageReached(off: nat, n: nat)
    requires off < 4096 && n > 0
    ensures (off + n - 1) / 4096 >= n / 4097
    ensures (off + n - 1) / 4096 <= n / 4097 <==> off + n / 4097 + n % 4097 <= 4096
  {
  }

  /** A region is fully mapped exactly when its offset in its first page and the
      quotient and remainder of its size by 4097 sum to at most 4096. */
  lemma CoverageCondition(r: Region)
    requires r.bytes > 0 && r.addr + r.bytes <= PAGES * 4096
    ensures FullyMapped(r) <==> r.addr % 4096 + r.bytes / 4097 + r.bytes % 4097 <= 4096
  {
    var off, first, a := r.addr % 4096, PtrToFrame(r.addr), r.bytes / 4097;
    LastPageReached(off, r.bytes);
    if off + a + r.bytes % 4097 <= 4096 {
      forall x: nat | r.addr <= x < r.addr + r.bytes
        ensures InRegion(r, PageOf(x))
      {
        PageIs(x);
        assert PageOf(x) == NthPage(first, x / 4096 - first);
      }
    } else {
      var lastByte := r.addr + r.bytes - 1;
      PageIs(lastByte);
      assert PageOf(lastByte) == first + (off + r.bytes - 1) / 4096;
      assert forall i: nat :: i < PagesMapped(r.bytes) ==> NthPage(first, i) == first + i;
      assert !InRegion(r, PageOf(lastByte));
    }
  }

  lemma PageIs(x: nat)
    requires x < PAGES * 4096
    ensures PageOf(x) == x / 4096
  {
  }

  /** Page-aligned regions of whole pages are fully mapped up to 4097 pages and
      no further. */
  lemma WholePagesCoverage(addr: nat, k: nat)
    requires k > 0 && Aligned(addr) && addr + 4096 * k <= PAGES * 4096
    ensures FullyMapped(Region(addr, 4096 * k)) <==> k <= 4097
  {
    CoverageCondition(Region(addr, 4096 * k));
    var n := 4096 * k;
    if k <= 4097 {
      assert n == 4097 * (k - 1) + (4097 - k);
      assert n / 4097 + n % 4097 == 4096;
    } else {
      assert n >= 4097 * 4096 + 4096 - 4097 + 1;
    }
  }
}
