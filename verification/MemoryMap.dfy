/** The memory map handed over by the firmware. */
module MemoryMaps {
  import opened Machine

  /** One descriptor; addresses and page counts are 64-bit. */
  datatype Descriptor = Descriptor(kind: nat, paddr: nat, pages: nat)

  const EFI_BOOT_SERVICES_CODE: nat := 3
  const EFI_BOOT_SERVICES_DATA: nat := 4
  const EFI_CONVENTIONAL_MEMORY: nat := 7

  type MemoryMap = m: seq<Descriptor> |
      |m| > 0 && forall i :: 0 <= i < |m| ==> m[i].paddr < U64 && m[i].pages < U64
    witness [Descriptor(0, 0, 0)]

  predicate Usable(d: Descriptor) {
    || d.kind == EFI_CONVENTIONAL_MEMORY
    || d.kind == EFI_BOOT_SERVICES_CODE
    || d.kind == EFI_BOOT_SERVICES_DATA
  }

  /** End of the last descriptor plus one frame, in 64-bit arithmetic. */
  function EntireMemorySize(mmap: MemoryMap): nat {
    var last := mmap[|mmap| - 1];
    (last.paddr + FrameToPtr(last.pages) + 4096) % U64
  }

  function PageFramesNumber(mmap: MemoryMap): (n: nat)
    ensures FrameToPtr(n) <= EntireMemorySize(mmap) < U64
  {
    PtrToFrame(EntireMemorySize(mmap))
  }

  function EndOf(d: Descriptor): nat {
    d.paddr + FrameToPtr(d.pages)
  }

  /** When no descriptor ends behind the last one, and the sum does not wrap,
      the frames are counted up to one past the last descriptor, so every frame
      of every descriptor has an index below the count. */
  lemma FramesCounted(mmap: MemoryMap, i: nat)
    requires i < |mmap| && EndOf(mmap[i]) <= EndOf(mmap[|mmap| - 1])
    requires EndOf(mmap[|mmap| - 1]) + 4096 < U64
    ensures PageFramesNumber(mmap) == PtrToFrame(EndOf(mmap[|mmap| - 1])) + 1
    ensures forall f: nat :: Covers(mmap[i], f) ==> f < PageFramesNumber(mmap)
  {
    var last := mmap[|mmap| - 1];
    assert EntireMemorySize(mmap) == EndOf(last) + 4096;
    assert PtrToFrame(EndOf(mmap[i])) == PtrToFrame(mmap[i].paddr) + mmap[i].pages;
  }

  /** The count is the sum cut to 64 bits, in whole frames. */
  lemma FramesModulo(mmap: MemoryMap)
    ensures var n, last := PageFramesNumber(mmap), mmap[|mmap| - 1];
            var sum := last.paddr + last.pages * 4096 + 4096;
            exists w: nat :: w * U64 + n * 4096 <= sum < w * U64 + n * 4096 + 4096 <= w * U64 + U64
  {
    var n, sum := PageFramesNumber(mmap), EndOf(mmap[|mmap| - 1]) + 4096;
    var w := sum / U64;
    assert w * U64 + n * 4096 <= sum < w * U64 + n * 4096 + 4096 <= w * U64 + U64;
  }

  function SegmentSize(d: Descriptor): nat {
    FrameToPtr(d.pages) % U64
  }

  predicate Conventional(d: Descriptor) {
    d.kind == EFI_CONVENTIONAL_MEMORY
  }

  /** Frame `f` lies in the descriptor. */
  predicate Covers(d: Descriptor, f: nat) {
    PtrToFrame(d.paddr) <= f < PtrToFrame(d.paddr) + d.pages
  }

  /** Frame `f` lies in conventional memory (kind 7) or in the boot services' code
      or data (kinds 3 and 4). */
  ghost predicate UsableFrame(mmap: seq<Descriptor>, f: nat) {
    exists i :: 0 <= i < |mmap| && (mmap[i].kind == 3 || mmap[i].kind == 4 || mmap[i].kind == 7)
                && mmap[i].paddr / 4096 <= f < mmap[i].paddr / 4096 + mmap[i].pages
  }

  /** The largest conventional segment: its size, and the address of the first
      descriptor of that size; size 0 and no address when there is none. */
  method LargestFreeSeg(mmap: MemoryMap) returns (maxSz: nat, seg: Option<nat>)
    ensures forall i :: 0 <= i < |mmap| && mmap[i].kind == 7 ==> mmap[i].pages * 4096 % U64 <= maxSz
    ensures seg.None? <==> maxSz == 0
    ensures seg.Some? ==>
              exists i :: 0 <= i < |mmap| && mmap[i].kind == 7 && mmap[i].pages * 4096 % U64 == maxSz
                          && mmap[i].paddr == seg.value
                          && forall j :: 0 <= j < i && mmap[j].kind == 7 ==> mmap[j].pages * 4096 % U64 < maxSz
  {
    maxSz, seg := 0, None;
    ghost var at := 0;
    var i := 0;
    while i < |mmap|
      invariant 0 <= i <= |mmap|
      invariant forall j :: 0 <= j < i && Conventional(mmap[j]) ==> SegmentSize(mmap[j]) <= maxSz
      invariant seg.None? <==> maxSz == 0
      invariant seg.Some? ==>
                  0 <= at < i && Conventional(mmap[at]) && SegmentSize(mmap[at]) == maxSz
                  && mmap[at].paddr == seg.value
                  && forall j :: 0 <= j < at && Conventional(mmap[j]) ==> SegmentSize(mmap[j]) < maxSz
    {
      var desc := mmap[i];
      if Conventional(desc) {
        var segSz := SegmentSize(desc);
        if segSz > maxSz {
          maxSz, seg, at := segSz, Some(desc.paddr), i;
        }
      }
      i := i + 1;
    }
  }
}
