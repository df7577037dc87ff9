/** The pager: page tables written in place in frames taken from the frame
    allocator. */
module Pager {
  import opened Machine
  import opened FrameSpec
  import opened IdentitySpec
  import opened MemoryMaps
  import opened PageSpec
  import opened PhysicalMemory
  import opened TableSpec

  /** The table of place `p` is in one of the frames of `tables`. */
  ghost predicate HeldAt(tab: map<Place, nat>, tables: set<nat>, p: Place) {
    p in tab ==> PtrToFrame(tab[p]) in tables
  }

  ghost predicate LockedAt(bits: seq<bool>, f: nat) {
    f < |bits| && bits[f]
  }

  /** Every table is in one of the frames of `tables`, and these are locked. */
  ghost predicate Held(tab: map<Place, nat>, tables: set<nat>, bits: seq<bool>) {
    && (forall p {:trigger HeldAt(tab, tables, p)} :: HeldAt(tab, tables, p))
    && (forall f {:trigger LockedAt(bits, f)} :: f in tables ==> LockedAt(bits, f))
  }

  /** A frame that was free holds no table; taking it for place `c` keeps every
      table in a locked frame. */
  lemma HoldNew(tab: map<Place, nat>, tables: set<nat>, before: seq<bool>, after: seq<bool>, c: Place, a: nat)
    requires Held(tab, tables, before) && Grants(before, after, {PtrToFrame(a)})
    ensures a !in tab.Values && PtrToFrame(a) !in tables
    ensures Held(tab[c := a], tables + {PtrToFrame(a)}, after)
  {
    assert !LockedAt(before, PtrToFrame(a));
    forall p | p in tab
      ensures tab[p] != a
    {
      assert HeldAt(tab, tables, p);
    }
    var tab', tables' := tab[c := a], tables + {PtrToFrame(a)};
    forall p: Place
      ensures HeldAt(tab', tables', p)
    {
      assert HeldAt(tab, tables, p);
    }
    forall f | f in tables + {PtrToFrame(a)}
      ensures LockedAt(after, f)
    {
      assert f in tables ==> LockedAt(before, f);
    }
  }

  /** The tree and the table places after a new table at `a` was hung below
      entry `i` of the table at `p`. */
  lemma NewTableLinked(
    t: Tree, tab: map<Place, nat>, tables: set<nat>, p: Place, i: nat, a: nat, before: seq<bool>, after: seq<bool>
  )
    requires WellFormed(t, tab) && Reached(tab, p) && p.level >= 2 && i < ENTRIES && Child(p, i) !in tab
    requires Held(tab, tables, before) && Grants(before, after, {PtrToFrame(a)}) && Aligned(a) && a < FrameToPtr(U32)
    ensures var tab' := tab[Child(p, i) := a];
            var t' := SetEntry(Tree(t.pml4, t.mem[a := ZeroTable()]), tab, p, i, Entry(true, true, FrameField(a)));
            && WellFormed(t', tab') && Translations(t') == Translations(t)
            && Held(tab', tables + {PtrToFrame(a)}, after) && PtrToFrame(a) !in tables
  {
    HoldNew(tab, tables, before, after, Child(p, i), a);
    var tab' := tab[Child(p, i) := a];
    var t' := SetEntry(Tree(t.pml4, t.mem[a := ZeroTable()]), tab, p, i, Entry(true, true, FrameField(a)));
    LinkTable(t, tab, p, i, a, t', tab');
  }

  /** The page of address 0x99999999999. */
  const PROBE_PAGE: nat := 0x9999_9999

  /** The devices whose registers are mapped, as the firmware reports them. */
  datatype Devices = Devices(fbAddr: nat, fbBytes: nat, lapic: nat, ioapic: nat, hpet: nat, comparators: nat)
  {
    predicate Valid() {
      && fbAddr < U64 && fbBytes < U64 && lapic < U64 && ioapic < U64 && hpet < U64
      && 1 <= comparators <= 32
    }
  }

  /** Size of the HPET register space: eight general registers and four for each
      comparator, eight bytes each. */
  function HpetMmioSize(comparators: nat): nat {
    8 * 8 + comparators * (4 * 8)
  }

  function DescriptorRegions(mmap: seq<Descriptor>): (rs: seq<Region>)
    ensures |rs| == |mmap|
    ensures forall k :: 0 <= k < |rs| ==> rs[k] == Region(mmap[k].paddr, FrameToPtr(mmap[k].pages) % U64)
  {
    seq(|mmap|, k requires 0 <= k < |mmap| => Region(mmap[k].paddr, FrameToPtr(mmap[k].pages) % U64))
  }

  function BootRegions(mmap: MemoryMap, d: Devices): seq<Region> {
    DescriptorRegions(mmap) + [
      Region(d.fbAddr, d.fbBytes),
      Region(d.lapic, 4096),
      Region(d.ioapic, 8),
      Region(d.hpet, HpetMmioSize(d.comparators))]
  }

  lemma BootRegionsInRange(mmap: MemoryMap, d: Devices)
    requires d.Valid()
    ensures InRange(BootRegions(mmap, d))
  {
  }

  /** Addresses and sizes are 64-bit numbers. */
  ghost predicate InRange(rs: seq<Region>) {
    forall k :: 0 <= k < |rs| ==> rs[k].addr < U64 && rs[k].bytes < U64
  }

  /** The pages that start-up maps to themselves, from what the firmware reports:
      those of every descriptor and of the framebuffer, as many as identity
      paging maps for their size, and the page of each APIC and of the HPET. */
  ghost predicate Installed(mmap: MemoryMap, d: Devices, page: nat) {
    || (exists k, i: nat :: 0 <= k < |mmap| && i < mmap[k].pages * 4096 % U64 / 4097 + 1
                            && page == NthPage(mmap[k].paddr / 4096, i))
    || (exists i: nat :: i < d.fbBytes / 4097 + 1 && page == NthPage(d.fbAddr / 4096, i))
    || page == PageOf(d.lapic) || page == PageOf(d.ioapic) || page == PageOf(d.hpet)
  }

  /** They are the pages of the regions. */
  lemma InstalledIs(mmap: MemoryMap, d: Devices, page: nat)
    requires d.Valid()
    ensures InRegions(BootRegions(mmap, d), page) <==> Installed(mmap, d, page)
  {
    var rs, n := BootRegions(mmap, d), |mmap|;
    assert rs[n] == Region(d.fbAddr, d.fbBytes) && rs[n + 1] == Region(d.lapic, 4096);
    assert rs[n + 2] == Region(d.ioapic, 8) && rs[n + 3] == Region(d.hpet, HpetMmioSize(d.comparators));
    OnePage(d.lapic, 4096, page);
    OnePage(d.ioapic, 8, page);
    OnePage(d.hpet, HpetMmioSize(d.comparators), page);
    if InRegions(rs, page) {
      var k :| 0 <= k < |rs| && InRegion(rs[k], page);
      if k < n {
        DescriptorPages(mmap, k, page);
      } else {
        assert k == n || k == n + 1 || k == n + 2 || k == n + 3;
      }
    }
    if k, i: nat :| 0 <= k < |mmap| && i < mmap[k].pages * 4096 % U64 / 4097 + 1
                    && page == NthPage(mmap[k].paddr / 4096, i) {
      DescriptorPages(mmap, k, page);
      assert rs[k] == DescriptorRegions(mmap)[k];
      assert InRegion(rs[k], page);
    }
    assert InRegion(rs[n], page) ==> InRegions(rs, page);
    assert InRegion(rs[n + 1], page) ==> InRegions(rs, page);
    assert InRegion(rs[n + 2], page) ==> InRegions(rs, page);
    assert InRegion(rs[n + 3], page) ==> InRegions(rs, page);
  }

  lemma DescriptorPages(mmap: MemoryMap, k: nat, page: nat)
    requires k < |mmap|
    ensures InRegion(DescriptorRegions(mmap)[k], page) <==>
            exists i: nat :: i < mmap[k].pages * 4096 % U64 / 4097 + 1 && page == NthPage(mmap[k].paddr / 4096, i)
  {
  }

  lemma InstalledMap(mmap: MemoryMap, d: Devices)
    requires d.Valid()
    ensures var m := MapRegions(map[], BootRegions(mmap, d));
            TruncatedIdentity(m) && forall page :: page in m <==> Installed(mmap, d, page)
  {
    var m := MapRegions(map[], BootRegions(mmap, d));
    MapOfRegions(BootRegions(mmap, d));
    forall page: nat
      ensures page in m <==> Installed(mmap, d, page)
    {
      InstalledIs(mmap, d, page);
    }
  }

  /** A region of at most 4096 bytes is given one page. */
  lemma OnePage(addr: nat, n: nat, page: nat)
    requires n <= 4096
    ensures InRegion(Region(addr, n), page) <==> page == PageOf(addr)
  {
    assert NthPage(PtrToFrame(addr), 0) == PageOf(addr);
  }

  /** A framebuffer at 16 TiB lies in page 2^32, which start-up maps to frame 0. */
  lemma HighFramebuffer(mmap: MemoryMap, d: Devices)
    requires d.fbAddr == 0x1000_0000_0000
    ensures var m := MapRegions(map[], BootRegions(mmap, d));
            0x1_0000_0000 in m && m[0x1_0000_0000] == 0
  {
    var rs := BootRegions(mmap, d);
    assert rs[|mmap|] == Region(d.fbAddr, d.fbBytes);
    assert NthPage(PtrToFrame(d.fbAddr), 0) == 0x1_0000_0000;
    assert InRegion(rs[|mmap|], 0x1_0000_0000);
    MapRegionsMeaning(map[], rs, 0x1_0000_0000);
  }

  /** What the constructor of the pager leaves mapped: exactly the pages of the
      regions and the probe page; the probe page to frame 0, every other page to
      the frame of its own number cut to 32 bits. */
  ghost predicate AddressSpace(m: map<nat, nat>, mmap: MemoryMap, d: Devices) {
    && (forall page :: page in m <==> page == 0x9999_9999 || Installed(mmap, d, page))
    && (forall page :: page in m ==> m[page] == if page == 0x9999_9999 then 0 else page % U32)
  }

  /** The places of the tables that start-up needs. */
  ghost function BootPlaces(mmap: MemoryMap, d: Devices): set<Place> {
    PlacesOfRegions(BootRegions(mmap, d)) + PlacesOf(PROBE_PAGE)
  }

  lemma RegionsFirst(s: Snapshot, mmap: MemoryMap, d: Devices)
    ensures var places := PlacesOfRegions(BootRegions(mmap, d));
            && (Short(s, places) ==> Short(s, BootPlaces(mmap, d)))
            && (Findable(s, BootPlaces(mmap, d)) ==> Findable(s, places))
  {
    var places := PlacesOfRegions(BootRegions(mmap, d));
    ShortGrows(s, places, BootPlaces(mmap, d));
    if Findable(s, BootPlaces(mmap, d)) {
      StaysLowPart(s, places, BootPlaces(mmap, d));
    }
  }

  lemma ProbeNext(s0: Snapshot, s: Snapshot, s': Snapshot, mmap: MemoryMap, d: Devices)
    requires Advance(s0, s, PlacesOfRegions(BootRegions(mmap, d)))
    requires Findable(s0, BootPlaces(mmap, d))
    ensures Short(s, PlacesOf(PROBE_PAGE)) <==> Short(s0, BootPlaces(mmap, d))
    ensures Advance(s, s', PlacesOf(PROBE_PAGE)) ==> Advance(s0, s', BootPlaces(mmap, d))
    ensures Advance(s, s', PlacesOf(PROBE_PAGE)) && Counted(s') ==> LowTables(s'.tables)
  {
    AdvanceTwice(s0, s, s', PlacesOfRegions(BootRegions(mmap, d)), PlacesOf(PROBE_PAGE));
    if Advance(s, s', PlacesOf(PROBE_PAGE)) && Counted(s') {
      StillLow(s0, s', BootPlaces(mmap, d), BootPlaces(mmap, d));
    }
  }

  lemma ProbeAdded(m: map<nat, nat>, mmap: MemoryMap, d: Devices)
    requires TruncatedIdentity(m) && forall page :: page in m <==> Installed(mmap, d, page)
    ensures AddressSpace(m[PROBE_PAGE := 0], mmap, d)
  {
  }

  /** The i-th page address of a region, in 64-bit arithmetic. */
  function NthAddress(addr: nat, i: nat): nat {
    (addr + FrameToPtr(i)) % U64
  }

  lemma FirstAddress(addr: nat)
    requires addr < U64
    ensures NthAddress(addr, 0) == addr
  {
  }

  /** The page that the loop of identity paging maps in its i-th turn. */
  lemma PageAtStep(addr: nat, i: nat)
    requires addr < U64
    ensures var at := NthAddress(addr, i);
            && PageOf(at) == NthPage(PtrToFrame(addr), i)
            && FrameField(at) == NthPage(PtrToFrame(addr), i) % U32
            && (at + 4096) % U64 == NthAddress(addr, i + 1)
  {
    var x := addr + FrameToPtr(i);
    assert PtrToFrame(x) == PtrToFrame(addr) + i;
    FrameOfWrapped(x);
    WrapTwice(PtrToFrame(x), PtrToFrame(x % U64));
    AddressStep(x);
  }

  lemma AddressStep(x: nat)
    ensures (x % U64 + 4096) % U64 == (x + 4096) % U64
  {
  }

  /** Cutting an address to 64 bits cuts its frame number to 52. */
  lemma FrameOfWrapped(x: nat)
    ensures PtrToFrame(x % U64) == PtrToFrame(x) % 0x10_0000_0000_0000
  {
  }

  lemma WrapTwice(f: nat, g: nat)
    requires g == f % 0x10_0000_0000_0000
    ensures g % PAGES == f % PAGES && g % U32 == f % PAGES % U32
  {
    ModTwice(f, PAGES, 0x1_0000);
    ModTwice(f, U32, 0x10_0000);
    ModTwice(f, U32, 0x10);
  }

  class Paging {
    const pmem: PMem
    var pml4: Table
    var mem: map<nat, Table>
    /** Where the table of each place is. */
    ghost var tab: map<Place, nat>
    /** The frames that hold page tables. */
    ghost var tables: set<nat>

    ghost predicate Valid()
      reads this, pmem, pmem.bitmap.buf
    {
      && pmem.Ready() && pmem.frames <= U32
      && WellFormed(Tree(pml4, mem), tab) && WritableTree(Tree(pml4, mem))
      && Held(tab, tables, pmem.bits)
    }

    /** The hardware lets the kernel write to the page. */
    ghost predicate Writable(page: nat)
      reads this
    {
      page < PAGES && MayWrite(Tree(pml4, mem), page)
    }

    /** Every page that is mapped may be written. */
    lemma MappedWritable(page: nat)
      requires Valid() && page in Map()
      ensures Writable(page)
    {
      TranslatedWritable(Tree(pml4, mem), page);
    }

    /** The kernel can find every table again. */
    ghost predicate Low()
      reads this`tables
    {
      LowTables(tables)
    }

    ghost function Map(): map<nat, nat>
      reads this
    {
      Translations(Tree(pml4, mem))
    }

    /** An empty address space. */
    constructor (pmem: PMem)
      requires pmem.Ready() && pmem.frames <= U32
      ensures Valid() && this.pmem == pmem
      ensures Map() == map[] && tables == {} && tab == map[]
    {
      this.pmem := pmem;
      pml4 := ZeroTable();
      mem := map[];
      tab := map[];
      tables := {};
    }

    /** With at most 4 GiB of memory every table can always be found again. */
    lemma SmallMachineLow(need: set<Place>)
      requires Valid() && pmem.frames <= FRAMES_4_GIB
      ensures Findable(Snap(), need)
    {
      forall f | f in tables
        ensures f < FRAMES_4_GIB
      {
        assert LockedAt(pmem.bits, f);
      }
      SmallMachine(Snap(), need);
    }

    lemma LowPath(page: nat)
      requires Valid() && Low()
      ensures PathLow(tab, page)
    {
      forall p | p in tab
        ensures tab[p] < U32
      {
        assert HeldAt(tab, tables, p);
      }
    }

    /** A software walk, of a page whose tables lie below 4 GiB. */
    method IsPageAllocated(vaddr: nat) returns (present: bool)
      requires Valid() && vaddr < U64 && PathLow(tab, PageOf(vaddr))
      ensures present <==> PageOf(vaddr) in Map()
    {
      var x := PageIndexer(vaddr);
      ghost var t := Tree(pml4, mem);
      PathOf(vaddr);
      PresentLeaf(t, tab, vaddr);
      PathConnected(tab, PdPlace(x), x.pd);
      PathConnected(tab, PdptPlace(x), x.pdpt);
      SoftStep(t, tab, ROOT, x.pml4);
      var e := pml4[x.pml4];
      if !e.present {
        return false;
      }
      SoftStep(t, tab, PdptPlace(x), x.pdpt);
      e := mem[SoftPointer(e)][x.pdpt];
      if !e.present {
        return false;
      }
      SoftStep(t, tab, PdPlace(x), x.pd);
      e := mem[SoftPointer(e)][x.pd];
      if !e.present {
        return false;
      }
      e := mem[SoftPointer(e)][x.pt];
      return e.present;
    }

    /** Take a frame for a new table and clear it. */
    method NewTable() returns (r: Outcome<nat>)
      requires pmem.Ready() && pmem.frames <= U32
      modifies this`mem, pmem, pmem.bitmap.buf
      ensures pmem.Ready()
      ensures r.Halted? <==> old(pmem.free) == 0
      ensures r.Halted? ==> mem == old(mem) && pmem.bits == old(pmem.bits) && pmem.free == old(pmem.free)
      ensures r.Returned? ==>
                && Aligned(r.value) && r.value < FrameToPtr(U32)
                && mem == old(mem)[r.value := ZeroTable()]
                && TakesLowest(old(pmem.bits), pmem.bits, {PtrToFrame(r.value)})
                && pmem.free == old(pmem.free) - 1
    {
      var frame := pmem.RequestFrame();
      if frame.Halted? || frame.value == 0 {
        return Halted;
      }
      GrantsCount(old(pmem.bits), pmem.bits, {pmem.lastFree});
      TakeOne(old(pmem.bits), pmem.bits, pmem.lastFree);
      mem := mem[frame.value := ZeroTable()];
      return frame;
    }

    /** Replace entry `i` of the table at `p`. */
    method WriteEntry(ghost p: Place, table: Option<nat>, i: nat, e: Entry)
      requires Reached(tab, p) && (p in tab ==> tab[p] in mem) && i < ENTRIES
      requires table == if p == ROOT then None else Some(tab[p])
      modifies this`pml4, this`mem
      ensures Tree(pml4, mem) == SetEntry(old(Tree(pml4, mem)), tab, p, i, e)
    {
      if table.None? {
        pml4 := pml4[i := e];
      } else {
        mem := mem[table.value := mem[table.value][i := e]];
      }
    }

    ghost function Snap(): Snapshot
      reads this, pmem
    {
      Snapshot(pmem.bits, tables, tab.Keys, pmem.free)
    }

    /** Hang a new table below entry `i` of the table at `p`. */
    method AddTable(ghost p: Place, table: Option<nat>, i: nat) returns (r: Outcome<nat>)
      requires Valid() && Reached(tab, p) && p.level >= 2 && i < ENTRIES && Child(p, i) !in tab
      requires table == if p == ROOT then None else Some(tab[p])
      modifies this, pmem, pmem.bitmap.buf
      ensures Valid() && Map() == old(Map())
      ensures r.Halted? <==> old(pmem.free) == 0
      ensures r.Returned? ==>
                var f := PtrToFrame(r.value);
                && tab == old(tab)[Child(p, i) := r.value]
                && f !in old(tables) && tables == old(tables) + {f}
                && TakesLowest(old(pmem.bits), pmem.bits, {f}) && pmem.free == old(pmem.free) - 1
    {
      ghost var t := Tree(pml4, mem);
      r := NewTable();
      if r.Returned? {
        LinkNew(p, table, i, r.value, t, old(pmem.bits));
      }
    }

    /** Link a cleared table at `a`, taken since the tree was `t` and the lock bits
        were `before`. */
    method LinkNew(ghost p: Place, table: Option<nat>, i: nat, a: nat, ghost t: Tree, ghost before: seq<bool>)
      requires pmem.Ready() && pmem.frames <= U32 && Held(tab, tables, before)
      requires WellFormed(t, tab) && WritableTree(t)
      requires Reached(tab, p) && p.level >= 2 && i < ENTRIES && Child(p, i) !in tab
      requires table == if p == ROOT then None else Some(tab[p])
      requires pml4 == t.pml4 && mem == t.mem[a := ZeroTable()]
      requires Grants(before, pmem.bits, {PtrToFrame(a)}) && Aligned(a) && a < FrameToPtr(U32)
      modifies this
      ensures Valid() && Map() == Translations(t)
      ensures tab == old(tab)[Child(p, i) := a]
      ensures PtrToFrame(a) !in old(tables) && tables == old(tables) + {PtrToFrame(a)}
    {
      NewTableLinked(t, tab, tables, p, i, a, before, pmem.bits);
      ClearedWritable(t, a);
      EntryWritable(Tree(pml4, mem), tab, p, i, Entry(true, true, FrameField(a)));
      WriteEntry(p, table, i, Entry(true, true, FrameField(a)));
      tab := tab[Child(p, i) := a];
      tables := tables + {PtrToFrame(a)};
    }

    /** The same, told by what it takes from the frame allocator. */
    method HangTable(ghost p: Place, table: Option<nat>, i: nat) returns (r: Outcome<nat>)
      requires Valid() && Reached(tab, p) && p.level >= 2 && i < ENTRIES && Child(p, i) !in tab
      requires table == if p == ROOT then None else Some(tab[p])
      modifies this, pmem, pmem.bitmap.buf
      ensures Valid() && Map() == old(Map())
      ensures r.Halted? <==> old(pmem.free) == 0
      ensures r.Returned? ==> tab == old(tab)[Child(p, i) := r.value]
      ensures r.Returned? ==> Advance(old(Snap()), Snap(), {Child(p, i)})
    {
      r := AddTable(p, table, i);
      if r.Returned? {
        OneTable(old(Snap()), PtrToFrame(r.value), pmem.bits, Child(p, i));
        assert tab.Keys == old(tab.Keys) + {Child(p, i)};
      }
    }

    /** Follow entry `i` of the table at `p`, which is the PML4 or lies at
        `table`; when the entry is absent, hang a new table below it first. */
    method Descend(ghost p: Place, table: Option<nat>, i: nat) returns (r: Outcome<nat>)
      requires Valid() && Reached(tab, p) && p.level >= 2 && i < ENTRIES
      requires Child(p, i) in tab ==> tab[Child(p, i)] < U32
      requires table == if p == ROOT then None else Some(tab[p])
      modifies this, pmem, pmem.bitmap.buf
      ensures Valid() && Map() == old(Map())
      ensures r.Halted? <==> Short(old(Snap()), {Child(p, i)})
      ensures r.Returned? ==> Advance(old(Snap()), Snap(), {Child(p, i)})
      ensures r.Returned? ==> tab == old(tab)[Child(p, i) := r.value]
    {
      SoftStep(Tree(pml4, mem), tab, p, i);
      LackingOne(Snap(), Child(p, i));
      var e := if table.None? then pml4[i] else mem[table.value][i];
      if e.present {
        return Returned(SoftPointer(e));
      }
      r := HangTable(p, table, i);
    }

    /** Walk down to the page table of an address, making the tables that are
        missing on the way. */
    method Reach(x: Indices, ghost vaddr: nat) returns (r: Outcome<nat>)
      requires Valid() && x == PageIndexer(vaddr) && PathLow(tab, PageOf(vaddr))
      modifies this, pmem, pmem.bitmap.buf
      ensures Valid() && Map() == old(Map())
      ensures r.Halted? <==> Short(old(Snap()), PlacesOf(PageOf(vaddr)))
      ensures r.Returned? ==> Advance(old(Snap()), Snap(), PlacesOf(PageOf(vaddr)))
      ensures r.Returned? ==> PtPlace(x) in tab && r.value == tab[PtPlace(x)]
    {
      ghost var s0, p3, p2, p1 := Snap(), PdptPlace(x), PdPlace(x), PtPlace(x);
      PathOf(vaddr);
      assert PlacesOf(PageOf(vaddr)) == {p3} + {p2} + {p1};
      ShortGrows(s0, {p3}, {p3} + {p2} + {p1});
      ShortGrows(s0, {p3} + {p2}, {p3} + {p2} + {p1});
      r := Descend(ROOT, None, x.pml4);
      if r.Halted? {
        return;
      }
      ghost var s1 := Snap();
      r := Descend(p3, Some(r.value), x.pdpt);
      AdvanceTwice(s0, s1, Snap(), {p3}, {p2});
      if r.Halted? {
        return;
      }
      ghost var s2 := Snap();
      r := Descend(p2, Some(r.value), x.pd);
      AdvanceTwice(s0, s2, Snap(), {p3} + {p2}, {p1});
    }

    ghost function Missing(page: nat): nat
      requires page < PAGES
      reads this
    {
      MissingTables(Tree(pml4, mem), page)
    }

    lemma MissingLacking(page: nat)
      requires Valid() && page < PAGES
      ensures Missing(page) == Lacking(PlacesOf(page), tab.Keys)
    {
      MissingByPlaces(Tree(pml4, mem), tab, page);
      SizeIs(PlacesOf(page) - tab.Keys);
    }

    /** Map the page of `vaddr` to the frame of `paddr`: that page's translation
        is set and no other changes. Halts exactly when there are fewer free
        frames than missing tables, and takes exactly that many frames. If all
        tables could be found again before, they can be afterwards exactly when
        no more were missing than frames were free below 4 GiB. */
    method AllocatePage(vaddr: nat, paddr: nat) returns (halted: bool)
      requires Valid() && vaddr < U64 && paddr < U64 && PathLow(tab, PageOf(vaddr))
      modifies this, pmem, pmem.bitmap.buf
      ensures halted <==> old(Missing(PageOf(vaddr))) > old(pmem.free)
      ensures halted <==> Short(old(Snap()), PlacesOf(PageOf(vaddr)))
      ensures !halted ==> Valid() && Map() == old(Map())[PageOf(vaddr) := FrameField(paddr)]
      ensures !halted ==> Writable(PageOf(vaddr))
      ensures !halted ==> Advance(old(Snap()), Snap(), PlacesOf(PageOf(vaddr)))
      ensures !halted ==> pmem.free == old(pmem.free) - old(Missing(PageOf(vaddr)))
      ensures !halted && old(Low()) ==>
                (Low() <==> old(Missing(PageOf(vaddr))) <= LowFree(old(pmem.bits)))
    {
      MissingLacking(PageOf(vaddr));
      var x := PageIndexer(vaddr);
      var pt := Reach(x, vaddr);
      if pt.Halted? {
        return true;
      }
      if old(Low()) {
        LowAfter(old(Snap()), Snap(), PlacesOf(PageOf(vaddr)));
      }
      WriteLeaf(x, vaddr, pt.value, paddr);
      MappedWritable(PageOf(vaddr));
      return false;
    }

    /** Write the leaf of an address into its page table, which lies at `pt`. */
    method WriteLeaf(x: Indices, ghost vaddr: nat, pt: nat, paddr: nat)
      requires Valid() && x == PageIndexer(vaddr) && PtPlace(x) in tab && pt == tab[PtPlace(x)]
      modifies this`mem
      ensures Valid() && Map() == old(Map())[PageOf(vaddr) := FrameField(paddr)]
    {
      var e := Entry(true, true, FrameField(paddr));
      PathOf(vaddr);
      SetLeaf(Tree(pml4, mem), tab, PageOf(vaddr), e, SetEntry(Tree(pml4, mem), tab, PtPlace(x), x.pt, e));
      EntryWritable(Tree(pml4, mem), tab, PtPlace(x), x.pt, e);
      mem := mem[pt := mem[pt][x.pt := e]];
    }

    /** Map the i-th page of a region, which starts at `at`, to itself. */
    method MapNth(ghost addr: nat, ghost i: nat, at: nat) returns (halted: bool)
      requires Valid() && Low() && addr < U64 && at == NthAddress(addr, i)
      modifies this, pmem, pmem.bitmap.buf
      ensures var page := NthPage(PtrToFrame(addr), i);
              && (halted <==> Short(old(Snap()), PlacesOf(page)))
              && (!halted ==> Valid() && Map() == MapOne(old(Map()), page))
              && (!halted ==> Advance(old(Snap()), Snap(), PlacesOf(page)))
      ensures (at + 4096) % U64 == NthAddress(addr, i + 1)
    {
      PageAtStep(addr, i);
      LowPath(PageOf(at));
      halted := AllocatePage(at, at);
    }

    /** The next turn of a loop that has mapped `i` of `count` pages since `s0`. */
    method MapNext(ghost s0: Snapshot, ghost addr: nat, ghost i: nat, ghost count: nat, at: nat)
      returns (halted: bool)
      requires Valid() && addr < U64 && at == NthAddress(addr, i) && i < count
      requires Advance(s0, Snap(), PlacesOfRun(PtrToFrame(addr), i))
      requires Findable(s0, PlacesOfRun(PtrToFrame(addr), count))
      modifies this, pmem, pmem.bitmap.buf
      ensures halted ==> Short(s0, PlacesOfRun(PtrToFrame(addr), count))
      ensures !halted ==> Valid() && Advance(s0, Snap(), PlacesOfRun(PtrToFrame(addr), i + 1))
      ensures !halted ==> Map() == MapOne(old(Map()), NthPage(PtrToFrame(addr), i))
      ensures (at + 4096) % U64 == NthAddress(addr, i + 1)
    {
      ghost var s, first := Snap(), PtrToFrame(addr);
      RunFindable(s0, s, first, i, count);
      halted := MapNth(addr, i, at);
      RunAdvance(s0, s, Snap(), first, i, count);
    }

    /** Map `count` pages from the page of an address on, each to the frame of its
        own number. Halts exactly when they lack more tables than frames are
        free. */
    method MapRun(addr: nat, count: nat) returns (halted: bool)
      requires Valid() && addr < U64 && Findable(Snap(), PlacesOfRun(PtrToFrame(addr), count))
      modifies this, pmem, pmem.bitmap.buf
      ensures halted <==> Short(old(Snap()), PlacesOfRun(PtrToFrame(addr), count))
      ensures !halted ==> Valid() && Low() && Map() == MapPages(old(Map()), PtrToFrame(addr), count)
      ensures !halted ==> Advance(old(Snap()), Snap(), PlacesOfRun(PtrToFrame(addr), count))
    {
      ghost var s0, first := Snap(), PtrToFrame(addr);
      var at := addr;
      AdvanceNone(s0);
      FirstAddress(addr);
      for i := 0 to count
        invariant Valid()
        invariant at == NthAddress(addr, i)
        invariant Map() == MapPages(old(Map()), first, i)
        invariant Advance(s0, Snap(), PlacesOfRun(first, i))
      {
        halted := MapNext(s0, addr, i, count, at);
        if halted {
          return;
        }
        at := (at + 4096) % U64;
      }
      RunFindable(s0, Snap(), first, count, count);
      AdvanceNotShort(s0, Snap(), PlacesOfRun(first, count));
      return false;
    }

    /** Identity paging of one region. Halts exactly when the region's pages lack
        more tables than frames are free. */
    method IdentityPaging(addr: nat, n: nat) returns (halted: bool)
      requires Valid() && addr < U64 && n < U64 && Findable(Snap(), PlacesOfRegion(Region(addr, n)))
      modifies this, pmem, pmem.bitmap.buf
      ensures halted <==> Short(old(Snap()), PlacesOfRegion(Region(addr, n)))
      ensures !halted ==> Valid() && Low() && Map() == MapRegion(old(Map()), Region(addr, n))
      ensures !halted ==> Advance(old(Snap()), Snap(), PlacesOfRegion(Region(addr, n)))
    {
      halted := MapRun(addr, PagesMapped(n));
    }

    /** Identity paging of every region of a list, in order. */
    method IdentityPagingAll(rs: seq<Region>) returns (halted: bool)
      requires Valid() && Findable(Snap(), PlacesOfRegions(rs)) && InRange(rs)
      modifies this, pmem, pmem.bitmap.buf
      ensures halted <==> Short(old(Snap()), PlacesOfRegions(rs))
      ensures !halted ==> Valid() && Low() && Map() == MapRegions(old(Map()), rs)
      ensures !halted ==> Advance(old(Snap()), Snap(), PlacesOfRegions(rs))
    {
      ghost var s0 := Snap();
      AdvanceNone(s0);
      for k := 0 to |rs|
        invariant Valid()
        invariant Map() == MapRegions(old(Map()), rs[..k])
        invariant Advance(s0, Snap(), PlacesOfRegions(rs[..k]))
      {
        MapRegionsStep(old(Map()), rs, k);
        ghost var s := Snap();
        RegionsFindable(s0, s, rs, k);
        halted := IdentityPaging(rs[k].addr, rs[k].bytes);
        RegionAdvance(s0, s, Snap(), rs, k);
        if halted {
          return;
        }
      }
      assert rs[..|rs|] == rs;
      RegionsFindable(s0, Snap(), rs, |rs|);
      AdvanceNotShort(s0, Snap(), PlacesOfRegions(rs));
      return false;
    }

    /** Identity paging of all that is installed: the memory map, and the
        regions of the framebuffer, the two APICs and the HPET. */
    method Init(mmap: MemoryMap, devices: Devices) returns (halted: bool)
      requires Valid() && devices.Valid() && Map() == map[]
      requires Findable(Snap(), PlacesOfRegions(BootRegions(mmap, devices)))
      modifies this, pmem, pmem.bitmap.buf
      ensures halted <==> Short(old(Snap()), PlacesOfRegions(BootRegions(mmap, devices)))
      ensures !halted ==> Valid() && Low() && TruncatedIdentity(Map())
      ensures !halted ==> forall page :: page in Map() <==> Installed(mmap, devices, page)
      ensures !halted ==> Advance(old(Snap()), Snap(), PlacesOfRegions(BootRegions(mmap, devices)))
    {
      var rs := BootRegions(mmap, devices);
      BootRegionsInRange(mmap, devices);
      halted := IdentityPagingAll(rs);
      InstalledMap(mmap, devices);
    }

    /** Build the address space the kernel runs in. Besides the identity map it
        holds the probe page, which the constructor maps to frame 0. Halts
        exactly when all these pages need more tables than frames are free. */
    static method Boot(pmem: PMem, mmap: MemoryMap, devices: Devices) returns (r: Outcome<Paging>)
      requires pmem.Ready() && pmem.frames <= U32 && devices.Valid()
      requires StaysLow(Snapshot(pmem.bits, {}, {}, pmem.free), BootPlaces(mmap, devices))
      modifies pmem, pmem.bitmap.buf
      ensures r.Halted? <==> |BootPlaces(mmap, devices)| > old(pmem.free)
      ensures r.Returned? ==>
                var p := r.value;
                && fresh(p) && p.Valid() && p.Low() && p.pmem == pmem
                && Advance(old(Snapshot(pmem.bits, {}, {}, pmem.free)), p.Snap(), BootPlaces(mmap, devices))
                && TakesLowest(old(pmem.bits), pmem.bits, p.tables)
                && AddressSpace(p.Map(), mmap, devices)
                && (forall page :: page in p.Map() ==> p.Writable(page))
    {
      var p := new Paging(pmem);
      assert p.Snap() == Snapshot(pmem.bits, {}, {}, pmem.free);
      LackingAll(BootPlaces(mmap, devices));
      var halted := p.Start(mmap, devices);
      if halted {
        return Halted;
      }
      NothingTaken(BootPlaces(mmap, devices), old(pmem.bits), old(pmem.free), p.Snap());
      forall page | page in p.Map()
        ensures p.Writable(page)
      {
        p.MappedWritable(page);
      }
      return Returned(p);
    }

    /** The part of the constructor that maps pages. */
    method Start(mmap: MemoryMap, devices: Devices) returns (halted: bool)
      requires Valid() && devices.Valid() && Map() == map[]
      requires Findable(Snap(), BootPlaces(mmap, devices))
      modifies this, pmem, pmem.bitmap.buf
      ensures halted <==> Short(old(Snap()), BootPlaces(mmap, devices))
      ensures !halted ==> Valid() && Low() && Advance(old(Snap()), Snap(), BootPlaces(mmap, devices))
      ensures !halted ==> AddressSpace(Map(), mmap, devices)
    {
      ghost var s0 := Snap();
      RegionsFirst(s0, mmap, devices);
      halted := Init(mmap, devices);
      if halted {
        return;
      }
      ghost var s, m := Snap(), Map();
      halted := MapProbePage();
      ProbeNext(s0, s, Snap(), mmap, devices);
      ProbeAdded(m, mmap, devices);
    }

    /** Map the probe page of the constructor. */
    method MapProbePage() returns (halted: bool)
      requires Valid() && Low()
      modifies this, pmem, pmem.bitmap.buf
      ensures halted <==> Short(old(Snap()), PlacesOf(PROBE_PAGE))
      ensures !halted ==> Valid() && Advance(old(Snap()), Snap(), PlacesOf(PROBE_PAGE))
      ensures !halted ==> Map() == old(Map())[PROBE_PAGE := 0]
    {
      assert PageOf(0x999_9999_9999) == PROBE_PAGE && FrameField(0) == 0;
      LowPath(PROBE_PAGE);
      halted := AllocatePage(0x999_9999_9999, 0);
    }
  }
}
