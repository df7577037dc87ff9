/** The memory layers started one on top of the other. */
module Kernel {
  import opened Machine
  import opened FrameSpec
  import opened PageSpec
  import opened TableSpec
  import opened MemoryMaps
  import opened PhysicalMemory
  import opened Pager
  import opened HeapPlacement
  import opened KernelHeap

  /** Every frame of the set is one the constructor of the frame allocator left
      free. */
  ghost predicate LeftFree(mmap: MemoryMap, stack: nat, window: nat, s: set<nat>) {
    forall f :: f in s ==> InitiallyFree(mmap, stack, window, f)
  }

  /** The lock bits when the frame allocator has been built. */
  ghost function InitialBits(mmap: MemoryMap, stack: nat, window: nat): seq<bool> {
    seq(PageFramesNumber(mmap), f requires f >= 0 => !InitiallyFree(mmap, stack, window, f))
  }

  ghost function Initial(mmap: MemoryMap, stack: nat, window: nat): Snapshot {
    var bits := InitialBits(mmap, stack, window);
    Snapshot(bits, {}, {}, |FreeFrames(bits)|)
  }

  /** Start the frame allocator and the pager. Halts exactly when the frame
      allocator does or leaves fewer frames than the pager needs for tables,
      which take the lowest frames that were left free. */
  method BootPaging(mmap: MemoryMap, stack: nat, window: nat, devices: Devices) returns (r: Outcome<Paging>)
    requires FramesInRange(mmap, stack, window) && devices.Valid() && PageFramesNumber(mmap) <= U32
    requires StaysLow(Initial(mmap, stack, window), BootPlaces(mmap, devices))
    ensures r.Halted? <==>
            || AllocatorHalts(mmap, stack, window)
            || Short(Initial(mmap, stack, window), BootPlaces(mmap, devices))
    ensures r.Returned? ==>
              var p := r.value;
              && p.Valid() && p.Low() && fresh(p) && fresh(p.pmem) && fresh(p.pmem.bitmap.buf)
              && Advance(Initial(mmap, stack, window), p.Snap(), BootPlaces(mmap, devices))
              && AddressSpace(p.Map(), mmap, devices)
  {
    LackingAll(BootPlaces(mmap, devices));
    var pmem := PMem.Boot(mmap, stack, window);
    if pmem.Halted? {
      return Halted;
    }
    assert pmem.value.bits == InitialBits(mmap, stack, window);
    r := Paging.Boot(pmem.value, mmap, devices);
  }

  /** All tables of start-up lie below 4 GiB: so many frames are free there, for
      the pager's tables, the heap's page and at most three tables for it; or no
      frame is free elsewhere. */
  ghost predicate EnoughLow(s: Snapshot, need: set<Place>) {
    var low := |FreeBelow(s.bits, FRAMES_4_GIB)|;
    |need| + 4 <= low || s.free == low
  }

  /** With at most 4 GiB of memory that is always so. */
  lemma SmallMachineStart(mmap: MemoryMap, stack: nat, window: nat, need: set<Place>)
    requires PageFramesNumber(mmap) <= FRAMES_4_GIB
    ensures EnoughLow(Initial(mmap, stack, window), need)
  {
    var bits := InitialBits(mmap, stack, window);
    assert FreeBelow(bits, FRAMES_4_GIB) == FreeFrames(bits);
  }

  /** The heap cannot be started: the pager took every frame, or the frame that
      has just the pager's tables below it needs more tables than are left. */
  ghost predicate HeapHalts(s: Snapshot, need: set<Place>) {
    || s.free <= |need|
    || exists k :: NthFree(s.bits, |need|, k) && |PlacesOf(k) - need| > s.free - |need| - 1
  }

  /** Start the frame allocator, the pager and the heap, and tell exactly when
      that halts. Otherwise the heap is valid and its page is the frame that had
      just the pager's tables below it; this page and every page table lie in
      different frames that the memory map declares usable and that are none of
      frame 0, the stack frame and the bitmap window. */
  method BootMemory(mmap: MemoryMap, stack: nat, window: nat, devices: Devices) returns (r: Outcome<Heap>)
    requires FramesInRange(mmap, stack, window) && devices.Valid() && PageFramesNumber(mmap) <= U32
    requires EnoughLow(Initial(mmap, stack, window), BootPlaces(mmap, devices))
    ensures r.Halted? <==>
            || AllocatorHalts(mmap, stack, window)
            || HeapHalts(Initial(mmap, stack, window), BootPlaces(mmap, devices))
    ensures r.Returned? ==>
              var h := r.value;
              && h.Valid() && h.pages == {PtrToFrame(h.first)} && h.pages !! h.paging.tables
              && NthFree(InitialBits(mmap, stack, window), |BootPlaces(mmap, devices)|, PtrToFrame(h.first))
              && LeftFree(mmap, stack, window, h.pages)
              && LeftFree(mmap, stack, window, h.paging.tables)
  {
    ghost var s0, need := Initial(mmap, stack, window), BootPlaces(mmap, devices);
    ShortHalts(s0, need);
    var paging := BootPaging(mmap, stack, window, devices);
    if paging.Halted? {
      return Halted;
    }
    r := BootHeap(paging.value, s0, need);
    if r.Returned? {
      FreeAtFirst(mmap, stack, window, r.value.pages);
      FreeAtFirst(mmap, stack, window, r.value.paging.tables);
    }
  }

  lemma FreeAtFirst(mmap: MemoryMap, stack: nat, window: nat, s: set<nat>)
    requires s <= FreeFrames(InitialBits(mmap, stack, window))
    ensures LeftFree(mmap, stack, window, s)
  {
  }

  lemma ShortHalts(s: Snapshot, need: set<Place>)
    requires s.places == {}
    ensures Short(s, need) ==> HeapHalts(s, need)
    ensures EnoughLow(s, need) ==> StaysLow(s, need)
  {
    LackingAll(need);
    SizeIs(FreeBelow(s.bits, FRAMES_4_GIB));
  }

  /** Start the heap when the pager has made the tables of `need` since `s0`. */
  method BootHeap(paging: Paging, ghost s0: Snapshot, ghost need: set<Place>) returns (r: Outcome<Heap>)
    requires paging.Valid() && paging.Low() && Advance(s0, paging.Snap(), need)
    requires Counted(s0) && s0.tables == {} && s0.places == {} && EnoughLow(s0, need)
    modifies paging, paging.pmem, paging.pmem.bitmap.buf
    ensures r.Halted? <==> HeapHalts(s0, need)
    ensures r.Returned? ==>
              var h := r.value;
              && h.Valid() && h.pages == {PtrToFrame(h.first)} && h.pages !! h.paging.tables
              && NthFree(s0.bits, |need|, PtrToFrame(h.first))
              && h.pages <= FreeFrames(s0.bits) && h.paging.tables <= FreeFrames(s0.bits)
  {
    ghost var s := paging.Snap();
    PagesLow(s0, s, need);
    r := Heap.Boot(paging);
    HeapHaltsWhen(s0, s, need, r.Halted?);
    if r.Returned? {
      HeapTaken(s0, s, need, r.value.paging.tables, PtrToFrame(r.value.first));
      ApartFromTables(r.value.pages, paging.pmem.bits, paging.tables);
      NthIsFree(s0.bits, |need|, PtrToFrame(r.value.first));
    }
  }

  lemma NthIsFree(bits: seq<bool>, n: nat, k: nat)
    requires NthFree(bits, n, k)
    ensures {k} <= FreeFrames(bits)
  {
  }

  /** The tables and the heap's page are in frames that were free at first. */
  lemma HeapTaken(s0: Snapshot, s: Snapshot, need: set<Place>, tables: set<nat>, k: nat)
    requires Advance(s0, s, need) && Counted(s0) && Counted(s) && s0.tables == {} && s0.places == {}
    requires tables - s.tables <= FreeFrames(s.bits) && LowestFree(s.bits, 0, k)
    ensures tables <= FreeFrames(s0.bits) && NthFree(s0.bits, |need|, k)
  {
    LackingAll(need);
    assert s.tables - s0.tables == s.tables;
    GrantsCount(s0.bits, s.bits, s.tables);
    LowestAfter(s0.bits, s.bits, s.tables, k);
    TablesWereFree(s0, s, tables);
  }

  lemma TablesWereFree(s0: Snapshot, s: Snapshot, tables: set<nat>)
    requires Grants(s0.bits, s.bits, s.tables) && tables - s.tables <= FreeFrames(s.bits)
    ensures tables <= FreeFrames(s0.bits)
  {
    forall f | f in tables
      ensures f in FreeFrames(s0.bits)
    {
      assert f in s.tables || f in tables - s.tables;
    }
  }

  /** The heap's start halts exactly when `HeapHalts` said so before the pager's. */
  lemma HeapHaltsWhen(s0: Snapshot, s: Snapshot, need: set<Place>, halted: bool)
    requires Advance(s0, s, need) && Counted(s0) && Counted(s) && s0.tables == {} && s0.places == {}
    requires s.free == 0 ==> halted
    requires forall k: nat :: LowestFree(s.bits, 0, k) ==> (halted <==> Lacking(PlacesOf(k), s.places) > s.free - 1)
    ensures halted <==> HeapHalts(s0, need)
  {
    LackingAll(need);
    assert s.tables - s0.tables == s.tables && s.places == need;
    GrantsCount(s0.bits, s.bits, s.tables);
    forall k: nat
      ensures LowestFree(s.bits, 0, k) <==> NthFree(s0.bits, |need|, k)
      ensures Lacking(PlacesOf(k), s.places) == |PlacesOf(k) - need|
    {
      LowestAfter(s0.bits, s.bits, s.tables, k);
      SizeIs(PlacesOf(k) - need);
    }
    if s.free > 0 {
      LowestExists(s.bits);
    }
  }

  lemma LowestExists(bits: seq<bool>)
    requires |FreeFrames(bits)| > 0
    ensures exists k :: LowestFree(bits, 0, k)
  {
    var f :| f in FreeFrames(bits);
    assert FreeRun(bits, f, 1);
    var s := RunStart(bits, 0, 1);
    forall j | 0 <= j < s.value
      ensures bits[j]
    {
      assert !FreeRun(bits, j, 1);
    }
    assert LowestFree(bits, 0, s.value);
  }

  lemma AtMostThree(page: nat, places: set<Place>)
    ensures Lacking(PlacesOf(page), places) <= 3
  {
    SizeIs(PlacesOf(page) - places);
    PlacesSize(PlacesOf(page) - places, PlacesOf(page));
  }

  /** The tables for the heap's page lie below 4 GiB. */
  lemma PagesLow(s0: Snapshot, s: Snapshot, need: set<Place>)
    requires Advance(s0, s, need) && Counted(s0) && Counted(s) && s0.tables == {} && s0.places == {}
    requires EnoughLow(s0, need)
    ensures FirstPageLow(s)
  {
    assert s.tables - s0.tables == s.tables;
    LackingAll(need);
    SizeIs(FreeBelow(s0.bits, FRAMES_4_GIB));
    GrantsCount(s0.bits, s.bits, s.tables);
    LowAfter(s0, s, need);
    LowGrants(s0.bits, s.bits, s.tables);
    forall k: nat | LowestFree(s.bits, 0, k)
      ensures LowOnceTaken(s, k, k + 1, PlacesOf(k))
    {
      FirstIsLow(s.bits, k);
      AtMostThree(k, s.places);
    }
  }

  /** The lowest free frame lies below 4 GiB when any free frame does. */
  lemma FirstIsLow(bits: seq<bool>, k: nat)
    requires LowestFree(bits, 0, k) && LowFree(bits) > 0
    ensures LowFree(LockRange(bits, k, k + 1)) == LowFree(bits) - 1
  {
    var low := FreeBelow(bits, FRAMES_4_GIB);
    SizeIs(low);
    var j :| j in low;
    assert k <= j;
    LowGrants(bits, LockRange(bits, k, k + 1), {k});
  }
}
