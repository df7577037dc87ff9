/** The physical frame allocator: a bitmap, two running counters and a cached
    index from which every search starts. */
module PhysicalMemory {
  import opened Machine
  import opened Bitmaps
  import opened FrameSpec
  import opened MemoryMaps

  /** Every frame the constructor touches is one the bitmap has a bit for: the
      usable descriptors, the stack frame and the window of the bitmap itself. */
  ghost predicate FramesInRange(mmap: MemoryMap, stack: nat, window: nat) {
    var frames := PageFramesNumber(mmap);
    frames > 0 ==>
    && (forall i :: 0 <= i < |mmap| && Usable(mmap[i]) && mmap[i].pages > 0 ==>
          PtrToFrame(mmap[i].paddr) + mmap[i].pages <= frames)
    && PtrToFrame(stack) < frames
    && PtrToFrame(window) + PtrToFrame((frames + 7) / 8) <= frames
  }

  /** That is so when no descriptor ends behind the last one, nothing wraps, and
      the stack and the bitmap window lie below the end. */
  lemma InRangeWhen(mmap: MemoryMap, stack: nat, window: nat)
    requires var end := EndOf(mmap[|mmap| - 1]);
             && end + 4096 < U64 && stack < end
             && window + (PageFramesNumber(mmap) + 7) / 8 <= end
             && forall i :: 0 <= i < |mmap| ==> EndOf(mmap[i]) <= end
    ensures FramesInRange(mmap, stack, window)
  {
    var last := |mmap| - 1;
    FramesCounted(mmap, last);
    forall i | 0 <= i < |mmap| && mmap[i].pages > 0
      ensures PtrToFrame(mmap[i].paddr) + mmap[i].pages <= PageFramesNumber(mmap)
    {
      FramesCounted(mmap, i);
      assert Covers(mmap[i], PtrToFrame(mmap[i].paddr) + mmap[i].pages - 1);
    }
  }

  /** What the scan for `n` frames knows when it has looked at [from, i): it is
      inside a block of free frames that began at `start`, or, when `start` is 0,
      not inside one; and no long-enough run began earlier. */
  ghost predicate ScanState(bits: seq<bool>, from: nat, n: nat, start: nat, i: nat) {
    && from <= i <= |bits| && n > 0
    && (forall t: nat :: from <= t < (if start != 0 then start else i) ==> !FreeRun(bits, t, n))
    && if start == 0 then i == from || bits[i - 1]
       else
         && from <= start < i && i - start <= n
         && (forall k :: start <= k < i ==> !bits[k])
         && (start == from || bits[start - 1])
  }

  lemma ScanStep(bits: seq<bool>, from: nat, n: nat, start: nat, i: nat)
    requires |bits| > 0 && bits[0]
    requires ScanState(bits, from, n, start, i) && i < |bits|
    requires start == 0 || i - start < n
    ensures bits[i] ==> ScanState(bits, from, n, 0, i + 1)
    ensures !bits[i] ==> i > 0 && ScanState(bits, from, n, if start == 0 then i else start, i + 1)
  {
  }

  /** The asserts after the scan pass exactly when `RunAnswer` grants something,
      and the scan then holds its bounds. */
  lemma ScanAnswer(bits: seq<bool>, from: nat, n: nat, start: nat, i: nat)
    requires ScanState(bits, from, n, start, i)
    requires FrameToPtr(|bits|) <= U64 && n < U64
    requires i == |bits| || (start != 0 && i - start == n)
    ensures start == 0 ==> RunAnswer(bits, from, n).None?
    ensures start != 0 ==> RunAnswer(bits, from, n) ==
                           if Sub64(start, i - 1) < n then None else Some((start, i))
  {
    var s := RunStart(bits, from, n);
    if start == 0 {
      TrailStartIs(bits, from, |bits|, |bits|);
    } else if i - start == n {
      assert FreeRun(bits, start, n);
      assert s == Some(start);
    } else {
      assert forall t: nat :: start <= t ==> !FreeRun(bits, t, n);
      TrailStartIs(bits, from, |bits|, start);
    }
  }

  /** Frame `f` is free when construction is over: it is usable, and none of frame
      0, the stack frame and the window of whole frames that starts at the bitmap
      address and is as long as the bitmap. */
  ghost predicate InitiallyFree(mmap: MemoryMap, stack: nat, window: nat, f: nat) {
    && UsableFrame(mmap, f) && f != 0 && f != stack / 4096
    && !(window / 4096 <= f < window / 4096 + (PageFramesNumber(mmap) + 7) / 8 / 4096)
  }

  /** Some conventional segment passes the size check of the bitmap. */
  ghost predicate BitmapFits(mmap: MemoryMap) {
    exists i :: 0 <= i < |mmap| && mmap[i].kind == 7 && mmap[i].pages * 4096 % U64 > PageFramesNumber(mmap) / 8
  }

  /** The frame allocator cannot be built: there are no frames, no conventional
      segment is large enough for the bitmap, or nothing would be left free. */
  ghost predicate AllocatorHalts(mmap: MemoryMap, stack: nat, window: nat) {
    || PageFramesNumber(mmap) == 0
    || !BitmapFits(mmap)
    || forall f: nat :: f < PageFramesNumber(mmap) ==> !InitiallyFree(mmap, stack, window, f)
  }

  lemma FrameAt(paddr: nat, n: nat, frames: nat)
    requires PtrToFrame(paddr) + n < frames && FrameToPtr(frames) <= U64
    ensures PtrToFrame((paddr + FrameToPtr(n)) % U64) == PtrToFrame(paddr) + n
  {
  }

  lemma UsableFrameStep(mmap: seq<Descriptor>, i: nat, k: nat)
    requires i < |mmap|
    ensures UsableFrame(mmap[..i + 1], k) <==>
            UsableFrame(mmap[..i], k) || (Usable(mmap[i]) && Covers(mmap[i], k))
  {
  }

  class PMem {
    var lastFree: nat
    var free: nat
    var locked: nat
    const frames: nat
    const bitmap: Bitmap
    /** One lock bit for each frame. */
    ghost var bits: seq<bool>

    /** The counters agree with the set of free frames. */
    ghost predicate Valid()
      reads this, bitmap.buf
    {
      && bitmap.Valid()
      && bitmap.size == (frames + 7) / 8
      && |bits| == frames && bits == bitmap.Bits()[..frames]
      && FrameToPtr(frames) <= U64
      && lastFree < frames
      && free == |FreeFrames(bits)|
      && free + locked == frames
    }

    /** Nothing below the cached index is free. */
    ghost predicate CacheSound()
      requires Valid()
      reads this, bitmap.buf
    {
      forall k :: 0 <= k < lastFree ==> bits[k]
    }

    /** The state every request after construction starts from and leaves. */
    ghost predicate Ready()
      reads this, bitmap.buf
    {
      Valid() && bits[0] && CacheSound()
    }

    constructor (count: nat)
      requires 0 < count && FrameToPtr(count) <= U64
      ensures Valid() && fresh(bitmap.buf) && fresh(bitmap)
      ensures frames == count && lastFree == 0
      ensures forall k :: 0 <= k < frames ==> !bits[k]
    {
      bitmap := new Bitmap(count);
      frames := count;
      lastFree := 0;
      free := count;
      locked := 0;
      new;
      bits := bitmap.Bits()[..count];
      FreePlusLocked(bits);
      assert LockedFrames(bits) == {};
    }

    method FreeFrame(idx: nat)
      requires Valid() && idx < frames
      modifies this`free, this`locked, this`bits, bitmap.buf
      ensures Valid() && bits == old(bits)[idx := false]
      ensures old(CacheSound()) ==> (CacheSound() <==> lastFree <= idx)
    {
      LockOne(bits, idx);
      FreePlusLocked(bits);
      var isLocked := bitmap.Get(idx);
      if isLocked {
        assert idx in LockedFrames(bits);
        bitmap.Unset(idx);
        bits := bits[idx := false];
        free := free + 1;
        locked := locked - 1;
        assert bits == old(bits)[idx := false];
      } else {
        assert bits == old(bits)[idx := false];
      }
      assert !bits[idx];
    }

    method LockFrame(idx: nat)
      requires Valid() && idx < frames
      modifies this`free, this`locked, this`bits, bitmap.buf
      ensures Valid() && bits == old(bits)[idx := true]
    {
      LockOne(bits, idx);
      var isLocked := bitmap.Get(idx);
      if !isLocked {
        assert idx in FreeFrames(bits);
        bitmap.Set(idx);
        bits := bits[idx := true];
        free := free - 1;
        locked := locked + 1;
      }
      assert bits == old(bits)[idx := true];
    }

    /** Halts exactly when no frame is free. Otherwise the lowest free frame at
        or above the cached index becomes locked, or null is returned when there
        is none. Once construction is over the cache is sound, so the answer is
        the lowest free frame of all and never null. */
    method RequestFrame() returns (r: Outcome<nat>)
      requires Valid()
      modifies this, bitmap.buf
      ensures Valid()
      ensures r.Halted? <==> old(free) == 0
      ensures r.Halted? ==> bits == old(bits)
      ensures r.Returned? && (forall k :: old(lastFree) <= k < frames ==> old(bits)[k]) ==>
                r.value == 0 && bits == old(bits)
      ensures r.Returned? && !(forall k :: old(lastFree) <= k < frames ==> old(bits)[k]) ==>
                LowestFree(old(bits), old(lastFree), lastFree) && r.value == FrameToPtr(lastFree)
                && bits == old(bits)[lastFree := true]
      ensures old(Ready()) ==> Ready()
      ensures old(Ready()) && r.Returned? ==>
                LowestFree(old(bits), 0, lastFree) && r.value == FrameToPtr(lastFree) && r.value != 0
                && Grants(old(bits), bits, {lastFree})
    {
      if free == 0 {
        return Halted;
      }
      AllLockedCount(bits);
      var i := FindFree();
      if i == frames {
        return Returned(0);
      }
      LockFrame(i);
      lastFree := i;
      return Returned(FrameToPtr(i));
    }

    /** The scanning loop of a single-frame request. */
    method FindFree() returns (i: nat)
      requires Valid()
      ensures lastFree <= i <= frames && (forall k :: lastFree <= k < i ==> bits[k])
      ensures i < frames ==> !bits[i]
    {
      i := lastFree;
      while i < frames
        invariant lastFree <= i <= frames
        invariant forall k :: lastFree <= k < i ==> bits[k]
      {
        var isLocked := bitmap.Get(i);
        if !isLocked {
          return;
        }
        i := i + 1;
      }
    }

    /** Exactly the answer of `RunAnswer`: the lowest long-enough run when there
        is one, a shorter run at the end of memory when there is not. */
    method RequestFrames(number: nat) returns (r: Outcome<nat>)
      requires Ready() && number < U64
      modifies this`free, this`locked, this`bits, bitmap.buf
      ensures Ready()
      ensures var a := RunAnswer(old(bits), lastFree, number);
              if a.None? then r.Halted? && bits == old(bits)
              else r == Returned(FrameToPtr(a.value.0))
                   && bits == LockRange(old(bits), a.value.0, a.value.1)
                   && Grants(old(bits), bits, Range(a.value.0, a.value.1))
    {
      if number == 0 {
        return Halted;
      }
      var found, start, end := SearchRun(number);
      if !found {
        return Halted;
      }
      LockRun(start, end);
      return Returned(FrameToPtr(start));
    }

    /** The scan and the asserts behind it. */
    method SearchRun(number: nat) returns (found: bool, start: nat, end: nat)
      requires Ready() && 0 < number < U64
      ensures start < frames && end < frames
      ensures found <==> RunAnswer(bits, lastFree, number).Some?
      ensures found ==> start <= end && RunAnswer(bits, lastFree, number).value == (start, end + 1)
    {
      ghost var stop: nat;
      start, end, stop := FindRun(number);
      ScanAnswer(bits, lastFree, number, start, stop);
      found := !(start == 0 || end == 0 || Sub64(start, end) < number);
    }

    /** Lock the frames from `start` to `end`, both included. */
    method LockRun(start: nat, end: nat)
      requires Ready() && start <= end < frames
      modifies this`free, this`locked, this`bits, bitmap.buf
      ensures Ready() && bits == LockRange(old(bits), start, end + 1)
      ensures FreeRun(old(bits), start, end + 1 - start) ==> Grants(old(bits), bits, Range(start, end + 1))
    {
      assert LockRange(bits, start, start) == bits;
      var i := start;
      while i <= end
        invariant start <= i <= end + 1
        invariant Ready() && bits == LockRange(old(bits), start, i)
      {
        LockFrame(i);
        assert bits == LockRange(old(bits), start, i + 1);
        i := i + 1;
      }
    }

    /** The scanning loop of the request. A start of 0 means that no free frame
        was met since the last locked one. */
    method FindRun(number: nat) returns (start: nat, end: nat, ghost stop: nat)
      requires Ready() && 0 < number < U64
      ensures start < frames && end < frames
      ensures ScanState(bits, lastFree, number, start, stop)
      ensures stop == frames || (start != 0 && stop - start == number)
      ensures start != 0 ==> end == stop - 1
    {
      start, end := 0, 0;
      var i := lastFree;
      while i < frames
        invariant i <= frames && end < frames
        invariant ScanState(bits, lastFree, number, start, i)
        invariant start != 0 ==> end == i - 1
      {
        if start > 0 && i - start == number {
          end := i - 1;
          break;
        }
        var isLocked := bitmap.Get(i);
        ScanStep(bits, lastFree, number, start, i);
        if start > 0 && !isLocked {
          end := i;
        } else if isLocked {
          start := 0;
        } else {
          start, end := i, i;
        }
        i := i + 1;
      }
      stop := i;
    }

    // ---- Construction ----

    method LockAll()
      requires Valid()
      modifies this`free, this`locked, this`bits, bitmap.buf
      ensures Valid() && forall k :: 0 <= k < frames ==> bits[k]
    {
      var i := 0;
      while i < frames
        invariant 0 <= i <= frames && Valid()
        invariant forall k :: 0 <= k < i ==> bits[k]
      {
        LockFrame(i);
        i := i + 1;
      }
    }

    /** Free the frames of one usable descriptor. */
    method FreeDescriptor(d: Descriptor)
      requires Valid() && d.paddr < U64 && d.pages < U64
      requires d.pages > 0 ==> PtrToFrame(d.paddr) + d.pages <= frames
      modifies this`free, this`locked, this`bits, bitmap.buf
      ensures Valid()
      ensures forall k: nat :: k < frames ==> bits[k] == (old(bits)[k] && !Covers(d, k))
    {
      var n := 0;
      while n < d.pages
        invariant 0 <= n <= d.pages && Valid()
        invariant forall k: nat :: k < frames ==>
                    bits[k] == (old(bits)[k] && !(PtrToFrame(d.paddr) <= k < PtrToFrame(d.paddr) + n))
      {
        var idx := PtrToFrame((d.paddr + FrameToPtr(n)) % U64);
        FrameAt(d.paddr, n, frames);
        FreeFrame(idx);
        n := n + 1;
      }
    }

    method FreeUsable(mmap: MemoryMap)
      requires Valid()
      requires forall i :: 0 <= i < |mmap| && Usable(mmap[i]) && mmap[i].pages > 0 ==>
                             PtrToFrame(mmap[i].paddr) + mmap[i].pages <= frames
      modifies this`free, this`locked, this`bits, bitmap.buf
      ensures Valid()
      ensures forall k: nat :: k < frames ==> bits[k] == (old(bits)[k] && !UsableFrame(mmap, k))
    {
      var i := 0;
      while i < |mmap|
        invariant 0 <= i <= |mmap| && Valid()
        invariant forall k: nat :: k < frames ==> bits[k] == (old(bits)[k] && !UsableFrame(mmap[..i], k))
      {
        forall k: nat
          ensures UsableFrame(mmap[..i + 1], k) <==>
                  UsableFrame(mmap[..i], k) || (Usable(mmap[i]) && Covers(mmap[i], k))
        {
          UsableFrameStep(mmap, i, k);
        }
        if Usable(mmap[i]) {
          FreeDescriptor(mmap[i]);
        }
        i := i + 1;
      }
      assert mmap[..i] == mmap;
    }

    method LockWindow(start: nat, count: nat)
      requires Valid() && start + count <= frames
      modifies this`free, this`locked, this`bits, bitmap.buf
      ensures Valid() && bits == LockRange(old(bits), start, start + count)
    {
      assert LockRange(bits, start, start) == bits;
      var i := 0;
      while i < count
        invariant 0 <= i <= count && Valid()
        invariant bits == LockRange(old(bits), start, start + i)
      {
        LockFrame(start + i);
        assert bits == LockRange(old(bits), start, start + i + 1);
        i := i + 1;
      }
    }

    /** Set the lock bits from the memory map. */
    method Populate(mmap: MemoryMap, stack: nat, window: nat)
      requires Valid() && frames == PageFramesNumber(mmap) && FramesInRange(mmap, stack, window)
      modifies this`free, this`locked, this`bits, bitmap.buf
      ensures Valid() && bits[0]
      ensures forall f: nat :: f < frames ==> (!bits[f] <==> InitiallyFree(mmap, stack, window, f))
    {
      LockAll();
      FreeUsable(mmap);
      LockFrame(0);
      LockFrame(PtrToFrame(stack));
      var bytes := bitmap.MemSize();
      LockWindow(PtrToFrame(window), PtrToFrame(bytes));
    }

    /** Build the allocator from a memory map. Unless that halts, a frame is free exactly
        when a usable descriptor covers it and it is not reserved. The bitmap
        fits in the segment it is placed in. */
    static method Boot(mmap: MemoryMap, stack: nat, window: nat) returns (r: Outcome<PMem>)
      requires FramesInRange(mmap, stack, window)
      ensures r.Halted? <==> AllocatorHalts(mmap, stack, window)
      ensures r.Returned? ==>
                var p := r.value;
                && fresh(p) && fresh(p.bitmap) && fresh(p.bitmap.buf) && p.Ready()
                && p.frames == PageFramesNumber(mmap)
                && forall f: nat :: f < p.frames ==> (!p.bits[f] <==> InitiallyFree(mmap, stack, window, f))
      ensures r.Returned? ==>
                exists i :: 0 <= i < |mmap| && mmap[i].kind == 7
                            && r.value.bitmap.buf.Length <= mmap[i].pages * 4096 % U64
    {
      var freeMemSz, freeMem := LargestFreeSeg(mmap);
      var count := PageFramesNumber(mmap);
      if freeMemSz == 0 || count == 0 || freeMemSz <= count / 8 {
        return Halted;
      }
      var p := new PMem(count);
      p.Populate(mmap, stack, window);
      AllLockedCount(p.bits);
      if p.locked == 0 || p.free == 0 {
        FreePlusLocked(p.bits);
        assert 0 in LockedFrames(p.bits);
        return Halted;
      }
      return Returned(p);
    }
  }
}
