/** Where the heap's pages lie: locked, apart from the page tables and mapped to
    themselves, also when a grant is cut short by the end of memory. */
module HeapPlacement {
  import opened Machine
  import opened FrameSpec
  import opened Pager
  import opened TableSpec
  import opened IdentitySpec
  import opened HeapSpec
  import opened HeapLaws
  import opened HeapLinks
  import opened HeapWrites

  lemma CarveCovered(bs: seq<Block>, i: nat, n: nat, x: nat)
    requires i < |bs| && bs[i].bytes >= n && Covered(bs, x)
    ensures Covered(Carve(bs, i, n), x)
  {
    CarveExtents(bs, i, n);
    if bs[i].bytes - n <= 32 {
      SameCovered(bs, Carve(bs, i, n), x);
    } else {
      SplitCovered(bs, i, Carve(bs, i, n), x);
    }
  }

  /** When fewer frames were granted than asked for, the new block reaches past
      the frames the heap owns. */
  lemma ShortGrantBreaks(bs: seq<Block>, pages: set<nat>, s: nat, e: nat, n: nat)
    requires |bs| > 0 && FirstFit(bs, n) == |bs| && n % 4096 <= 4064
    requires s <= e < s + PagesFor(n)
    requires forall f :: f in pages ==> f < e
    ensures !Tiled(Grown(bs, n, FrameToPtr(s)), pages + Range(s, e))
  {
    var x, base := FrameToPtr(e), FrameToPtr(s);
    GrowthChoice(bs, n, base);
    GrowCovers(bs, base, PagesFor(n), x);
    CarveCovered(Grow(bs, base, PagesFor(n)), InsertAfter(bs, base) + 1, n, x);
    NotOwned(pages, s, e);
  }

  /** A valid heap of one page can meet such a grant and return from it: the last
      two frames of seven are free, 8192 bytes are asked for, which takes three,
      and no page table is missing. */
  lemma ShortGrantReachable()
    ensures var bits, bs, n := [true, true, true, true, true, false, false], [Block(4096, 4064, true)], 8192;
            && Inv(bs, {1}) && FirstFit(bs, n) == |bs| && n % 4096 <= 4064
            && RunAnswer(bits, 4, PagesFor(n)) == Some((5, 7))
            && Lacking(PlacesOfRun(5, PagesFor(n)), PageSpec.PlacesOf(1)) == 0
            && !Tiled(Grown(bs, n, FrameToPtr(5)), {1} + Range(5, 7))
  {
    InitialInv(4096);
    ShortGrantOfSeven();
    OnePageShort();
    SamePlaces();
  }

  lemma OnePageShort()
    ensures var bs, n := [Block(4096, 4064, true)], 8192;
            FirstFit(bs, n) == |bs| && !Tiled(Grown(bs, n, FrameToPtr(5)), {1} + Range(5, 7))
  {
    ShortGrantBreaks([Block(4096, 4064, true)], {1}, 5, 7, 8192);
  }

  /** Pages 1, 5, 6 and 7 share their tables. */
  lemma SamePlaces()
    ensures Lacking(PlacesOfRun(5, 3), PageSpec.PlacesOf(1)) == 0
  {
    var places := PageSpec.PlacesOf(1);
    assert NthPage(5, 0) == 5 && NthPage(5, 1) == 6 && NthPage(5, 2) == 7;
    assert PlacesOfRun(5, 1) <= places && PlacesOfRun(5, 2) <= places && PlacesOfRun(5, 3) <= places;
    assert PlacesOfRun(5, 3) - places == {};
  }

  lemma GrowCovers(bs: seq<Block>, base: nat, count: nat, x: nat)
    requires |bs| > 0 && base <= x < base + count * 4096
    ensures Covered(Grow(bs, base, count), x)
  {
    var b := Block(base, count * 4096 - 32, true);
    assert Inside(b, x);
    InsertCovered(bs, InsertAfter(bs, base) + 1, b, Grow(bs, base, count), x);
  }

  lemma NotOwned(pages: set<nat>, s: nat, e: nat)
    requires forall f :: f in pages ==> f < e
    ensures !Owned(pages + Range(s, e), FrameToPtr(e))
  {
  }

  /** The pages [s, s + count) that a run asked for, of which memory granted the
      frames [s, e): all of them, or those up to the end of memory. */
  ghost predicate Reaches(s: nat, e: nat, count: nat, frames: nat) {
    s < e <= frames && e <= s + count && (e == s + count || e == frames)
  }

  lemma AnswerReaches(bits: seq<bool>, from: nat, n: nat)
    requires from <= |bits| && RunAnswer(bits, from, n).Some?
    ensures var a := RunAnswer(bits, from, n).value;
            Reaches(a.0, a.1, n, |bits|)
  {
    RunAnswerLength(bits, from, n);
  }

  /** The pages past the end of memory, if any, are there because a grant reached
      the last frame. */
  ghost predicate Overhang(pages: set<nat>, frames: nat) {
    frames > 0 && (frames - 1 in pages || forall f :: f in pages ==> f < frames)
  }

  lemma RunPagesAt(s: nat, count: nat)
    ensures RunPages(FrameToPtr(s), count) == Span(s, count)
  {
    assert PtrToFrame(FrameToPtr(s)) == s;
  }

  lemma GrowthFacts(bs: seq<Block>, pages: set<nat>, n: nat, s: nat)
    requires Inv(bs, pages) && n > 0 && FirstFit(bs, n) == |bs| && n % 4096 <= 4064
    requires FreshRun(pages, FrameToPtr(s), PagesFor(n))
    ensures var base, pages' := FrameToPtr(s), pages + Span(s, PagesFor(n));
            var bs' := Grown(bs, n, base);
            && pages' == pages + RunPages(base, PagesFor(n))
            && Inv(bs', pages') && Gives(bs, bs', base + 32, n) && AllClear(bs', pages')
  {
    var base := FrameToPtr(s);
    RunPagesAt(s, PagesFor(n));
    MallocGrowInv(bs, pages, n, base);
    GrownUsed(bs, pages, n, base);
    ClearEverywhere(Grown(bs, n, base), pages + RunPages(base, PagesFor(n)));
  }

  /** Growth leaves the blocks tiling the frames that memory has exactly when
      they did so before and the grant was not cut short. */
  lemma GrowthBacked(bs: seq<Block>, pages: set<nat>, n: nat, s: nat, e: nat, frames: nat)
    requires Inv(bs, pages) && n > 0 && FirstFit(bs, n) == |bs| && n % 4096 <= 4064
    requires Reaches(s, e, PagesFor(n), frames) && FreshRun(pages, FrameToPtr(s), PagesFor(n))
    ensures var pages' := pages + Span(s, PagesFor(n));
            Tiled(Grown(bs, n, FrameToPtr(s)), Backed(pages', frames)) <==>
            Tiled(bs, Backed(pages, frames)) && e - s == PagesFor(n)
  {
    var pages' := pages + Span(s, PagesFor(n));
    RunPagesAt(s, PagesFor(n));
    MallocGrowInv(bs, pages, n, FrameToPtr(s));
    TiledBacked(bs, pages, frames);
    TiledBacked(Grown(bs, n, FrameToPtr(s)), pages', frames);
    BackedMore(pages, frames, s, PagesFor(n));
  }

  lemma BackedMore(pages: set<nat>, frames: nat, s: nat, count: nat)
    requires count > 0
    ensures var more := pages + Span(s, count);
            Backed(more, frames) == more <==> Backed(pages, frames) == pages && s + count <= frames
  {
    var more := pages + Span(s, count);
    assert InSpan(s, count, s + count - 1);
    assert s + count - 1 in Span(s, count);
    if Backed(more, frames) == more {
      assert forall f :: f in pages ==> f in more;
    }
  }

  /** The run for which frames are granted is fresh, also when it is cut short by
      the end of memory. */
  lemma RunFresh(pages: set<nat>, bits: seq<bool>, tables: set<nat>, s: nat, e: nat, count: nat)
    requires Reaches(s, e, count, |bits|) && FreeRun(bits, s, e - s) && s > 0
    requires Overhang(pages, |bits|) && InUse(pages, bits, tables)
    ensures FreshRun(pages, FrameToPtr(s), count)
  {
    RunPagesAt(s, count);
    forall f | f in Span(s, count)
      ensures f !in pages
    {
      assert !bits[e - 1];
      assert f in pages ==> SetAside(f, bits, tables);
      assert e - 1 in pages ==> SetAside(e - 1, bits, tables);
    }
  }

  /** A block of fresh pages overlaps none of the list's. */
  lemma RunApart(bs: seq<Block>, pages: set<nat>, base: nat, count: nat)
    requires |bs| > 0 && Tiled(bs, pages) && count > 0 && FreshRun(pages, base, count)
    ensures Apart(Grow(bs, base, count)) && !Owned(pages, base)
  {
    GrowTiled(bs, pages, base, count);
    assert InSpan(PtrToFrame(base), count, PtrToFrame(base));
    assert PtrToFrame(base) in RunPages(base, count);
  }

  lemma NotInChain(mem: Memory, first: nat, chain: seq<nat>, pages: set<nat>, x: nat)
    requires Linked(mem, first, chain) && Tiled(Blocks(mem, first, chain), pages) && !Owned(pages, x)
    ensures x !in chain
  {
  }

  /** What the frame allocator grants is the start of a fresh run and can be
      linked into the list. */
  lemma GrantUsable(
    mem: Memory, first: nat, chain: seq<nat>, pages: set<nat>, bits: seq<bool>, tables: set<nat>, from: nat, count: nat
  )
    requires Linked(mem, first, chain) && Tiled(Blocks(mem, first, chain), pages)
    requires Overhang(pages, |bits|) && InUse(pages, bits, tables)
    requires |bits| > 0 && bits[0] && from < |bits| && count > 0 && RunAnswer(bits, from, count).Some?
    ensures var a := RunAnswer(bits, from, count).value;
            var base := FrameToPtr(a.0);
            && base != 0 && base !in chain && Apart(Grow(Blocks(mem, first, chain), base, count))
            && FreshRun(pages, base, count)
  {
    var a := RunAnswer(bits, from, count).value;
    AnswerReaches(bits, from, count);
    RunFresh(pages, bits, tables, a.0, a.1, count);
    RunApart(Blocks(mem, first, chain), pages, FrameToPtr(a.0), count);
    NotInChain(mem, first, chain, pages, FrameToPtr(a.0));
  }

  /** The frames of `g`, and those of new tables, were free and became locked;
      no others did. */
  ghost predicate Took(s: Snapshot, s': Snapshot, g: set<nat>) {
    s.tables <= s'.tables && Grants(s.bits, s'.bits, g + (s'.tables - s.tables))
  }

  lemma TookBoth(s0: Snapshot, s: Snapshot, s': Snapshot, g: set<nat>, need: set<PageSpec.Place>)
    requires Grants(s0.bits, s.bits, g) && s.tables == s0.tables && Advance(s, s', need)
    ensures Took(s0, s', g)
  {
    GrantsCompose(s0.bits, s.bits, s'.bits, g, s'.tables - s.tables);
  }

  /** A frame, and then frames for tables, that were taken had been free. */
  lemma TakenWereFree(b0: seq<bool>, b1: seq<bool>, f: nat, t1: set<nat>, b2: seq<bool>, t2: set<nat>)
    requires Grants(b0, b1, {f}) && Grants(b1, b2, t2 - t1)
    ensures f in FreeFrames(b0) && t2 - t1 <= FreeFrames(b0)
  {
  }

  lemma SmallPage(f: nat)
    requires f < U32
    ensures PtrToFrame(FrameToPtr(f)) == f && NthPage(f, 0) == f && f % U32 == f
    ensures NthAddress(FrameToPtr(f), 0) == FrameToPtr(f) < U64
  {
  }

  /** Page `f` holds no table and, if memory has it, is locked. */
  ghost predicate SetAside(f: nat, bits: seq<bool>, tables: set<nat>) {
    f !in tables && (f < |bits| ==> bits[f])
  }

  ghost predicate InUse(own: set<nat>, bits: seq<bool>, tables: set<nat>) {
    forall f {:trigger SetAside(f, bits, tables)} :: f in own ==> SetAside(f, bits, tables)
  }

  /** Frames that are locked are not taken for new tables. */
  lemma StillInUse(own: set<nat>, bits: seq<bool>, tables: set<nat>, bits': seq<bool>, tables': set<nat>)
    requires InUse(own, bits, tables) && tables <= tables' && Grants(bits, bits', tables' - tables)
    ensures InUse(own, bits', tables')
  {
    forall f | f in own
      ensures SetAside(f, bits', tables')
    {
      assert SetAside(f, bits, tables);
      assert f in tables' ==> f in tables || f in tables' - tables;
    }
  }

  lemma HeldMore(tab: map<PageSpec.Place, nat>, tables: set<nat>, bits: seq<bool>, bits': seq<bool>, g: set<nat>)
    requires Held(tab, tables, bits) && Grants(bits, bits', g)
    ensures Held(tab, tables, bits') && tables !! g && forall f :: f in tables ==> f < |bits|
  {
    forall f | f in tables
      ensures f !in g && LockedAt(bits', f) && f < |bits|
    {
      assert LockedAt(bits, f);
    }
  }

  /** What was to be findable once the lowest free frame is taken is, when it has
      been. */
  lemma TakenFindable(s: Snapshot, s': Snapshot, f: nat)
    requires Grants(s.bits, s'.bits, {f}) && s'.tables == s.tables && s'.places == s.places
    requires Counted(s') && s'.free == s.free - 1 && LowTables(s.tables)
    requires FirstPageLow(s) && LowestFree(s.bits, 0, f)
    ensures Findable(s', PageSpec.PlacesOf(f))
  {
    assert LowOnceTaken(s, f, f + 1, PageSpec.PlacesOf(f));
    assert s'.bits == LockRange(s.bits, f, f + 1);
  }

  lemma ApartFromTables(own: set<nat>, bits: seq<bool>, tables: set<nat>)
    requires InUse(own, bits, tables)
    ensures own !! tables
  {
    forall f | f in own
      ensures f !in tables
    {
      assert SetAside(f, bits, tables);
    }
  }

  lemma OwnInUse(pages: set<nat>, bits: seq<bool>, tables: set<nat>, bits': seq<bool>, s: nat, e: nat, count: nat)
    requires InUse(pages, bits, tables) && Grants(bits, bits', Range(s, e)) && tables !! Range(s, e)
    requires Reaches(s, e, count, |bits|) && forall f :: f in tables ==> f < |bits|
    ensures InUse(pages + Span(s, count), bits', tables)
  {
    forall f | f in pages + Span(s, count)
      ensures SetAside(f, bits', tables)
    {
      if f in pages {
        assert SetAside(f, bits, tables);
      } else {
        assert f < |bits| ==> Within(s, f, e) && f in Range(s, e);
      }
    }
  }

  lemma RunCount(bits: seq<bool>, bits': seq<bool>, s: nat, e: nat)
    requires s <= e && Grants(bits, bits', Range(s, e))
    ensures |FreeFrames(bits')| == |FreeFrames(bits)| - (e - s)
  {
    GrantsCount(bits, bits', Range(s, e));
    RangeSize(s, e);
  }

  /** Once the run is mapped, the old pages and the new ones are in place. */
  lemma RunPlaced(
    pages: set<nat>, s: nat, e: nat, count: nat, bits: seq<bool>, tables: set<nat>, m: map<nat, nat>, m': map<nat, nat>
  )
    requires Reaches(s, e, count, |bits|) && |bits| <= U32 && m' == MapPages(m, s, count)
    requires InUse(pages + Span(s, count), bits, tables)
    requires MappedToSelf(pages, |bits|, m) && Overhang(pages, |bits|)
    ensures PlacedIn(pages + Span(s, count), bits, tables, m')
  {
    forall f | f in pages + Span(s, count)
      ensures ToSelf(f, |bits|, m')
    {
      assert f in pages ==> ToSelf(f, |bits|, m);
      assert f in pages || InSpan(s, count, f);
      if f < |bits| {
        SelfMapped(m, s, count, f);
      }
    }
    assert InSpan(s, count, e - 1);
    assert e - 1 in Span(s, count);
  }

  /** What mapping the run adds up to, when the frames [s, e) were granted
      between `s0` and `mid`, and tables were made between `mid` and `s1`. */
  lemma RunSettled(
    pages: set<nat>, s: nat, e: nat, count: nat, s0: Snapshot, mid: Snapshot, s1: Snapshot, m: map<nat, nat>
  )
    requires Reaches(s, e, count, |mid.bits|) && |mid.bits| <= U32
    requires InUse(pages + Span(s, count), mid.bits, mid.tables)
    requires MappedToSelf(pages, |mid.bits|, m) && Overhang(pages, |mid.bits|)
    requires Grants(s0.bits, mid.bits, Range(s, e)) && s0.tables == mid.tables
    requires Advance(mid, s1, PlacesOfRun(s, count))
    ensures PlacedIn(pages + Span(s, count), s1.bits, s1.tables, MapPages(m, s, count))
    ensures Took(s0, s1, Range(s, e))
  {
    StillInUse(pages + Span(s, count), mid.bits, mid.tables, s1.bits, s1.tables);
    TookBoth(s0, mid, s1, Range(s, e), PlacesOfRun(s, count));
    RunPlaced(pages, s, e, count, s1.bits, s1.tables, m, MapPages(m, s, count));
  }

  /** The same for a single page. */
  lemma PageSettled(f: nat, s: Snapshot, s1: Snapshot, m: map<nat, nat>)
    requires f < |s.bits| <= U32 && InUse({f}, s.bits, s.tables) && Advance(s, s1, PageSpec.PlacesOf(f))
    ensures PlacedIn({f}, s1.bits, s1.tables, MapOne(m, f))
  {
    StillInUse({f}, s.bits, s.tables, s1.bits, s1.tables);
    assert ToSelf(f, |s.bits|, MapOne(m, f));
  }

  ghost predicate ToSelf(f: nat, frames: nat, m: map<nat, nat>) {
    f < frames ==> f in m && m[f] == f
  }

  lemma SelfMapped(m: map<nat, nat>, s: nat, count: nat, f: nat)
    requires f < U32 && ((f in m && m[f] == f) || s <= f < s + count)
    ensures f in MapPages(m, s, count) && MapPages(m, s, count)[f] == f
  {
    MapPagesAt(m, s, count, f);
    assert s <= f ==> NthPage(s, f - s) == f;
  }

  ghost predicate MappedToSelf(pages: set<nat>, frames: nat, m: map<nat, nat>) {
    forall f {:trigger ToSelf(f, frames, m)} :: f in pages ==> ToSelf(f, frames, m)
  }

  ghost predicate PlacedIn(pages: set<nat>, bits: seq<bool>, tables: set<nat>, m: map<nat, nat>) {
    InUse(pages, bits, tables) && MappedToSelf(pages, |bits|, m) && Overhang(pages, |bits|)
  }
}
