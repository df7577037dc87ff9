/** The kernel heap: block headers written in place in pages obtained from the
    frame allocator and mapped by the pager. */
module KernelHeap {
  import opened Machine
  import opened FrameSpec
  import opened Pager
  import opened TableSpec
  import opened IdentitySpec
  import opened HeapSpec
  import opened HeapLaws
  import opened HeapLinks
  import opened HeapWrites
  import opened HeapPlacement

  class Heap {
    const paging: Paging
    var first: nat
    var mem: Memory
    /** The addresses of the headers of the list, in order. */
    ghost var chain: seq<nat>
    /** The pages the list stands for: frames the heap has obtained and, when a
        grant was cut short by the end of memory, those past the end. */
    ghost var pages: set<nat>
    /** The addresses of the headers written by the current call. */
    ghost var written: set<nat>

    ghost predicate IsList()
      reads this`mem, this`first, this`chain
    {
      Linked(mem, first, chain)
    }

    ghost function List(): (bs: seq<Block>)
      requires IsList()
      reads this`mem, this`first, this`chain
      ensures |bs| == |chain| > 0
    {
      Blocks(mem, first, chain)
    }

    /** A heap of one free block that fills the page at `frame`. */
    constructor (paging: Paging, frame: nat)
      requires frame != 0
      ensures this.paging == paging && IsList()
      ensures List() == [Block(frame, 4064, true)] && pages == {PtrToFrame(frame)}
    {
      this.paging := paging;
      first := frame;
      mem := map[frame := Header(0, 0, true, 4096 - 32)];
      chain := [frame];
      pages := {PtrToFrame(frame)};
      written := {frame};
    }

    /** The first free block that is large enough, or null. */
    method FindFreeBlock(bytes: nat) returns (block: nat)
      requires IsList()
      ensures block == At(chain, FirstFit(List(), bytes))
      ensures block == 0 <==> FirstFit(List(), bytes) == |chain|
      ensures block == 0 <==> forall j :: 0 <= j < |chain| && List()[j].free ==> List()[j].bytes < bytes
    {
      block := first;
      ghost var i := 0;
      PlaceInChain(mem, first, chain, 0);
      while block != 0
        invariant 0 <= i <= |chain| && block == At(chain, i)
        invariant block == 0 <==> i == |chain|
        invariant forall j :: 0 <= j < i ==> !Fits(List()[j], bytes)
        decreases |chain| - i
      {
        PlaceInChain(mem, first, chain, i);
        if mem[block].free && mem[block].bytes >= bytes {
          assert Fits(List()[i], bytes);
          return;
        }
        block := mem[block].next;
        i := i + 1;
      }
    }

    /** The block behind which growth links a block at `addr`. */
    method FindBlockCloseBefore(addr: nat) returns (block: nat)
      requires IsList()
      ensures block == chain[InsertAfter(List(), addr)]
    {
      block := first;
      ghost var i := 0;
      PlaceInChain(mem, first, chain, 0);
      while mem[block].next != 0 && !(block < addr && mem[block].next < addr)
        invariant 0 <= i < |chain| && block == chain[i] && NodeOk(mem, chain, i)
        invariant forall j :: 0 <= j < i ==> !(List()[j].addr < addr && List()[j + 1].addr < addr)
        decreases |chain| - i
      {
        PlaceInChain(mem, first, chain, i);
        assert !(List()[i].addr < addr && List()[i + 1].addr < addr);
        block := mem[block].next;
        i := i + 1;
      }
      PlaceInChain(mem, first, chain, i);
      InsertAfterIs(List(), addr, i);
    }

    /** Take `bytes` bytes of block `i`. */
    method CarveBlock(block: nat, bytes: nat, ghost i: nat) returns (ptr: nat)
      requires IsList() && i < |chain| && chain[i] == block
      requires Fits(List()[i], bytes) && Apart(List())
      modifies this`mem, this`chain, this`written
      ensures IsList() && List() == Carve(old(List()), i, bytes)
      ensures ptr == block + 32
      ensures written <= old(written) + Addresses(List())
      ensures Kept(old(mem), mem, old(written), written)
    {
      PlaceInChain(mem, first, chain, i);
      if mem[block].bytes == bytes || mem[block].bytes - bytes <= 32 {
        TakeWhole(block, i);
      } else {
        SplitBlock(block, bytes, i);
      }
      return block + 32;
    }

    /** Mark block `i` as used. */
    method TakeWhole(block: nat, ghost i: nat)
      requires IsList() && i < |chain| && chain[i] == block
      modifies this`mem, this`written
      ensures IsList() && List() == old(List())[i := Block(block, old(List())[i].bytes, false)]
      ensures written <= old(written) + Addresses(List())
      ensures Kept(old(mem), mem, old(written), written)
    {
      mem := mem[block := mem[block].(free := false)];
      written := written + {block};
      FlagLinks(old(mem), mem, first, chain, i, false);
      AddressInList(mem, first, chain, i);
    }

    /** Cut block `i` behind `bytes` bytes and mark the front as used. */
    method SplitBlock(block: nat, bytes: nat, ghost i: nat)
      requires IsList() && i < |chain| && chain[i] == block
      requires List()[i].bytes > bytes + 32 && Apart(List())
      modifies this`mem, this`chain, this`written
      ensures IsList() && List() == Carve(old(List()), i, bytes)
      ensures written <= old(written) + Addresses(List())
      ensures Kept(old(mem), mem, old(written), written)
    {
      PlaceInChain(mem, first, chain, i);
      var newBlock := block + 32 + bytes;
      NotAHeader(mem, first, chain, i, newBlock);
      SplitHeader(block, bytes, newBlock);
      SplitLinks(old(mem), mem, first, chain, i, bytes);
      chain := Insert(chain, i, newBlock);
      InsertedInList(mem, first, old(chain), i, newBlock);
    }

    /** The header writes of a split. */
    method SplitHeader(block: nat, bytes: nat, newBlock: nat)
      requires block in mem && mem[block].bytes > bytes + 32 && newBlock != 0
      requires mem[block].next != 0 ==> mem[block].next in mem
      requires block != newBlock && mem[block].next != block && mem[block].next != newBlock
      modifies this`mem, this`written
      ensures SplitWrites(old(mem), mem, block, bytes, newBlock)
      ensures written == old(written) + {block, newBlock} + ({old(mem)[block].next} - {0})
      ensures Kept(old(mem), mem, old(written), written)
    {
      var next := mem[block].next;
      mem := mem[block := mem[block].(free := false)];
      mem := mem[newBlock := Header(block, next, true, mem[block].bytes - bytes - 32)];
      if next != 0 {
        mem := mem[next := mem[next].(prev := newBlock)];
        written := written + {next};
      }
      mem := mem[block := mem[block].(bytes := bytes, next := newBlock)];
      written := written + {block, newBlock};
    }

    /** The header writes of linking a block behind `prevBlock`. */
    method LinkHeader(prevBlock: nat, block: nat, bytes: nat)
      requires prevBlock in mem && block != 0 && block != prevBlock
      requires mem[prevBlock].next != 0 ==> mem[prevBlock].next in mem
      requires mem[prevBlock].next != block && mem[prevBlock].next != prevBlock
      modifies this`mem, this`written
      ensures GrowWrites(old(mem), mem, prevBlock, block, bytes)
      ensures written == old(written) + {block, prevBlock} + ({old(mem)[prevBlock].next} - {0})
      ensures Kept(old(mem), mem, old(written), written)
    {
      var next := mem[prevBlock].next;
      mem := mem[block := Header(prevBlock, next, true, bytes)];
      mem := mem[prevBlock := mem[prevBlock].(next := block)];
      written := written + {block, prevBlock};
      if next != 0 {
        mem := mem[next := mem[next].(prev := block)];
        written := written + {next};
      }
    }

    method LinkBehind(prevBlock: nat, block: nat, bytes: nat, ghost i: nat)
      requires IsList() && block != 0 && block !in chain && i < |chain| && chain[i] == prevBlock
      modifies this`mem, this`chain, this`written
      ensures IsList()
      ensures List() == old(List())[..i + 1] + [Block(block, bytes, true)] + old(List())[i + 1..]
      ensures written <= old(written) + Addresses(List())
      ensures Kept(old(mem), mem, old(written), written)
    {
      PlaceInChain(mem, first, chain, i);
      LinkHeader(prevBlock, block, bytes);
      GrowLinks(old(mem), mem, first, chain, i, block, bytes);
      chain := Insert(chain, i, block);
      InsertedInList(mem, first, old(chain), i, block);
    }

    /** Link a run of `count` pages at `block` into the list as a free block. */
    method LinkRun(block: nat, count: nat)
      requires IsList() && block != 0 && block !in chain && count > 0 && count * 4096 < U64
      modifies this`mem, this`chain, this`written
      ensures IsList() && List() == Grow(old(List()), block, count)
      ensures written <= old(written) + Addresses(List())
      ensures Kept(old(mem), mem, old(written), written)
    {
      var prevBlock := FindBlockCloseBefore(block);
      LinkBehind(prevBlock, block, count * 4096 - 32, InsertAfter(List(), block));
    }

    /** The header writes of a forward merge. */
    method MergeHeader(block: nat, gone: nat)
      requires block in mem && mem[block].next == gone && gone in mem && gone != block
      requires mem[gone].next != 0 ==> mem[gone].next in mem
      requires mem[gone].next != block
      modifies this`mem, this`written
      ensures MergeWrites(old(mem), mem, block)
      ensures written == old(written) + {block} + ({old(mem)[gone].next} - {0})
      ensures Kept(old(mem), mem, old(written), written)
    {
      var next := mem[gone].next;
      mem := mem[block := mem[block].(bytes := mem[block].bytes + (32 + mem[gone].bytes), next := next)];
      written := written + {block};
      if next != 0 {
        mem := mem[next := mem[next].(prev := block)];
        written := written + {next};
      }
    }

    /** Merge the block behind `block` into it when that block is free and
        touches it. */
    method MergeWithNext(block: nat, ghost i: nat)
      requires IsList() && i < |chain| && chain[i] == block
      modifies this`mem, this`chain, this`written
      ensures IsList() && List() == MergeForward(old(List()), i)
      ensures i < |chain| && chain[..i + 1] == old(chain)[..i + 1]
      ensures written <= old(written) + Addresses(old(List()))
      ensures Kept(old(mem), mem, old(written), written)
    {
      PlaceInChain(mem, first, chain, i);
      AddressInList(mem, first, chain, i);
      AddressInList(mem, first, chain, i + 2);
      var gone := mem[block].next;
      if gone != 0 && mem[gone].free && block + 32 + mem[block].bytes == gone {
        Absorb(block, gone, i);
      }
    }

    /** Merge block `i + 1` into block `i`. */
    method Absorb(block: nat, gone: nat, ghost i: nat)
      requires IsList() && i + 1 < |chain| && chain[i] == block && chain[i + 1] == gone
      modifies this`mem, this`chain, this`written
      ensures IsList() && List() == MergeNext(old(List()), i)
      ensures chain == Remove(old(chain), i + 1)
      ensures written == old(written) + {block} + ({At(old(chain), i + 2)} - {0})
      ensures Kept(old(mem), mem, old(written), written)
    {
      PlaceInChain(mem, first, chain, i);
      PlaceInChain(mem, first, chain, i + 1);
      MergeHeader(block, gone);
      MergeLinks(old(mem), mem, first, chain, i);
      chain := Remove(chain, i + 1);
    }

    /** Merge `block` into the block before it when that block is free and
        touches it. The back link of the successor is written without a check,
        so at the end of the list the write goes to the null page. */
    method MergeWithPrev(block: nat, ghost i: nat)
      requires IsList() && i < |chain| && chain[i] == block
      modifies this`mem, this`chain, this`written
      ensures IsList() && List() == MergeBackward(old(List()), i)
      ensures written <= old(written) + Addresses(old(List())) + {0}
      ensures 0 in written <==>
              0 in old(written) || (i + 1 == |old(chain)| && MergeBackward(old(List()), i) != old(List()))
      ensures Kept(old(mem), mem, old(written), written)
    {
      PlaceInChain(mem, first, chain, i);
      AddressInList(mem, first, chain, i - 1);
      AddressInList(mem, first, chain, i + 1);
      var prevBlock := mem[block].prev;
      if prevBlock != 0 && mem[prevBlock].free && prevBlock + 32 + mem[prevBlock].bytes == block {
        JoinPrev(prevBlock, block, i);
      }
    }

    /** Merge block `i` into block `i - 1`. */
    method JoinPrev(prevBlock: nat, block: nat, ghost i: nat)
      requires IsList() && 0 < i < |chain| && chain[i - 1] == prevBlock && chain[i] == block
      modifies this`mem, this`chain, this`written
      ensures IsList() && List() == MergeNext(old(List()), i - 1)
      ensures written == old(written) + {prevBlock, At(old(chain), i + 1)}
      ensures Kept(old(mem), mem, old(written), written)
    {
      PlaceInChain(mem, first, chain, i - 1);
      PlaceInChain(mem, first, chain, i);
      JoinHeader(prevBlock, block);
      MergeLinks(old(mem), mem, first, chain, i - 1);
      chain := Remove(chain, i);
    }

    /** The header writes of a backward merge. */
    method JoinHeader(prevBlock: nat, block: nat)
      requires prevBlock in mem && block in mem && mem[prevBlock].next == block && prevBlock != block
      requires mem[block].next != prevBlock
      modifies this`mem, this`written
      ensures MergeWrites(old(mem), mem, prevBlock)
      ensures written == old(written) + {prevBlock, old(mem)[block].next}
      ensures Kept(old(mem), mem, old(written), written)
    {
      var next := mem[block].next;
      mem := mem[prevBlock := mem[prevBlock].(bytes := mem[prevBlock].bytes + (32 + mem[block].bytes), next := next)];
      var h := if next in mem then mem[next] else Header(0, 0, false, 0);
      mem := mem[next := h.(prev := prevBlock)];
      written := written + {prevBlock, next};
    }

    // ---- Validity ----

    /** The heap's frames are locked, hold no page table, and are mapped to
        themselves; all page tables can be found again. */
    ghost predicate Placed()
      reads this`pages, paging, paging.pmem, paging.pmem.bitmap.buf
    {
      paging.Valid() && paging.Low() && PlacedIn(pages, paging.pmem.bits, paging.tables, paging.Map())
    }

    ghost predicate Valid()
      reads this`mem, this`first, this`chain, this`pages
      reads paging, paging.pmem, paging.pmem.bitmap.buf
    {
      IsList() && Inv(List(), pages) && Placed()
    }

    ghost function Current(): State
      requires IsList()
      reads this`mem, this`first, this`chain, this`pages
    {
      State(List(), pages)
    }

    /** Those of the heap's pages that memory has. */
    ghost function Granted(): set<nat>
      reads this`pages, paging
    {
      Backed(pages, paging.pmem.frames)
    }

    /** Every header the call wrote lies outside every payload that is live
        when the call returns and, unless it went to the null page, inside the
        heap's own pages, which hold no page table below the PML4. `Kept` ties
        `written` to the memory: what is not in it was not changed. */
    ghost predicate WritesClear()
      requires IsList()
      reads this
    {
      && (forall w, b :: w in written && b in Used(List()) ==> ClearOf(w, b))
      && (forall w :: w in written ==> w == 0 || HeaderOwned(pages, w))
    }

    /** Release the block of a live pointer. Nothing happens for null. The null
        page is written exactly in the case of `WritesNull`. */
    method Free(ptr: nat)
      requires Valid()
      requires ptr == 0 || exists i: nat :: LiveAt(List(), i, ptr)
      modifies this`mem, this`chain, this`written
      ensures Valid() && Step(old(Current()), Call.Free(ptr), Current())
      ensures WritesClear()
      ensures 0 in written <==>
              exists i: nat :: LiveAt(old(List()), i, ptr) && WritesNull(old(List()), i)
      ensures Kept(old(mem), mem, {}, written)
    {
      written := {};
      if ptr == 0 {
        return;
      }
      ghost var i: nat :| LiveAt(List(), i, ptr);
      LiveOnce(mem, first, chain, i, ptr);
      FreeLive(ptr, i);
    }

    method FreeLive(ptr: nat, ghost i: nat)
      requires Valid() && LiveAt(List(), i, ptr) && written == {}
      modifies this`mem, this`chain, this`written
      ensures Valid() && List() == Release(old(List()), i)
      ensures WritesClear()
      ensures 0 in written <==> WritesNull(old(List()), i)
      ensures Kept(old(mem), mem, old(written), written)
    {
      assert List()[i].addr == chain[i];
      ReleaseInv(List(), pages, i);
      ReleaseBlock(ptr - 32, i);
      ReleaseWritesClear(old(List()), pages, i, written);
    }

    /** Mark block `i` free and merge it both ways. */
    method ReleaseBlock(block: nat, ghost i: nat)
      requires IsList() && i < |chain| && chain[i] == block && written == {}
      modifies this`mem, this`chain, this`written
      ensures IsList() && List() == Release(old(List()), i)
      ensures written <= Addresses(old(List())) + {0}
      ensures 0 in written <==> WritesNull(old(List()), i)
      ensures Kept(old(mem), mem, old(written), written)
    {
      ghost var bs := List();
      ReleaseAddresses(bs, i);
      ReleaseWritesNull(bs, i);
      AddressInList(mem, first, chain, i);
      NullNotInList(mem, first, chain);
      mem := mem[block := mem[block].(free := true)];
      written := {block};
      FlagLinks(old(mem), mem, first, chain, i, true);
      ghost var mem1 := mem;
      MergeWithNext(block, i);
      ghost var mem2, written2 := mem, written;
      MergeWithPrev(block, i);
      KeptTwice(mem1, mem2, mem, {block}, written2, written);
      KeptTwice(old(mem), mem1, mem, {}, {block}, written);
    }

    // ---- Allocation ----

    /** Obtain a run of frames. */
    method RequestRun(count: nat) returns (r: Outcome<nat>)
      requires Placed() && 0 < count < U64
      modifies paging.pmem, paging.pmem.bitmap.buf
      ensures paging.Valid() && paging.pmem.lastFree == old(paging.pmem.lastFree)
      ensures var a := RunAnswer(old(paging.pmem.bits), paging.pmem.lastFree, count);
              if a.None? then r.Halted?
              else r == Returned(FrameToPtr(a.value.0))
                   && InUse(pages + Span(a.value.0, count), paging.pmem.bits, paging.tables)
                   && Grants(old(paging.pmem.bits), paging.pmem.bits, Range(a.value.0, a.value.1))
                   && paging.pmem.free == old(paging.pmem.free) - (a.value.1 - a.value.0)
                   && paging.pmem.bits == LockRange(old(paging.pmem.bits), a.value.0, a.value.1)
    {
      ghost var bits := paging.pmem.bits;
      ghost var a := RunAnswer(bits, paging.pmem.lastFree, count);
      r := paging.pmem.RequestFrames(count);
      if a.Some? {
        HeldMore(paging.tab, paging.tables, bits, paging.pmem.bits, Range(a.value.0, a.value.1));
        AnswerReaches(bits, paging.pmem.lastFree, count);
        OwnInUse(pages, bits, paging.tables, paging.pmem.bits, a.value.0, a.value.1, count);
        RunCount(bits, paging.pmem.bits, a.value.0, a.value.1);
      }
    }

    /** Once the frames [s, e) are taken, too few are left for the tables that
        mapping `count` pages from `s` on would need. */
    ghost predicate TablesShort(s: nat, e: nat, count: nat)
      reads paging, paging.pmem
    {
      Lacking(PlacesOfRun(s, count), paging.tab.Keys) > paging.pmem.free - (e - s)
    }

    /** No split header would have an address past 2^64. */
    ghost predicate Sized(bytes: nat)
      reads paging
    {
      bytes + FrameToPtr(paging.pmem.frames) + 32 <= U64
    }

    /** If the frame allocator grants a run of `count` frames, the tables it needs
        lie below 4 GiB. */
    ghost predicate GrantLow(count: nat)
      requires paging.pmem.Ready()
      reads paging, paging.pmem, paging.pmem.bitmap.buf
    {
      var a := RunAnswer(paging.pmem.bits, paging.pmem.lastFree, count);
      a.Some? ==> LowOnceTaken(paging.Snap(), a.value.0, a.value.1, PlacesOfRun(a.value.0, count))
    }

    /** With at most 4 GiB of memory that is always so. */
    lemma SmallMachineGrants(count: nat)
      requires paging.Valid() && paging.pmem.frames <= FRAMES_4_GIB
      ensures GrantLow(count)
    {
      var bits := paging.pmem.bits;
      var a := RunAnswer(bits, paging.pmem.lastFree, count);
      if a.Some? {
        var after := LockRange(bits, a.value.0, a.value.1);
        RangeGrants(bits, a.value.0, a.value.1);
        RunCount(bits, after, a.value.0, a.value.1);
        SmallCount(after);
      }
    }

    /** Obtain a run of frames and map it. */
    method ObtainRun(count: nat) returns (r: Outcome<nat>)
      requires Placed() && 0 < count < U64 && GrantLow(count)
      modifies this`pages, paging, paging.pmem, paging.pmem.bitmap.buf
      ensures var a := RunAnswer(old(paging.pmem.bits), old(paging.pmem.lastFree), count);
              && (r.Halted? <==> a.None? || old(TablesShort(a.value.0, a.value.1, count)))
              && (r.Returned? ==>
                    && r.value == FrameToPtr(a.value.0) && pages == old(pages) + Span(a.value.0, count) && Placed()
                    && paging.Map() == MapPages(old(paging.Map()), a.value.0, count)
                    && Took(old(paging.Snap()), paging.Snap(), Range(a.value.0, a.value.1)))
    {
      ghost var a := RunAnswer(paging.pmem.bits, paging.pmem.lastFree, count);
      ghost var s0 := paging.Snap();
      r := RequestRun(count);
      if r.Halted? {
        return;
      }
      AnswerReaches(s0.bits, paging.pmem.lastFree, count);
      var halted := MapObtained(r.value, count, a.value.0, a.value.1, s0);
      if halted {
        return Halted;
      }
      pages := pages + Span(a.value.0, count);
    }

    /** Map an obtained run of which the frames [s, e) were granted since `s0`. */
    method MapObtained(base: nat, count: nat, ghost s: nat, ghost e: nat, ghost s0: Snapshot) returns (halted: bool)
      requires paging.Valid() && base == FrameToPtr(s) && Reaches(s, e, count, paging.pmem.frames)
      requires Findable(paging.Snap(), PlacesOfRun(s, count))
      requires Grants(s0.bits, paging.pmem.bits, Range(s, e)) && s0.tables == paging.tables
      requires InUse(pages + Span(s, count), paging.pmem.bits, paging.tables)
      requires MappedToSelf(pages, paging.pmem.frames, paging.Map()) && Overhang(pages, paging.pmem.frames)
      modifies paging, paging.pmem, paging.pmem.bitmap.buf
      ensures halted <==> Short(old(paging.Snap()), PlacesOfRun(s, count))
      ensures !halted ==>
                && paging.Valid() && paging.Low()
                && PlacedIn(pages + Span(s, count), paging.pmem.bits, paging.tables, paging.Map())
                && paging.Map() == MapPages(old(paging.Map()), s, count)
                && Took(s0, paging.Snap(), Range(s, e))
    {
      assert PtrToFrame(base) == s;
      ghost var mid := paging.Snap();
      halted := paging.MapRun(base, count);
      if !halted {
        RunSettled(pages, s, e, count, s0, mid, paging.Snap(), old(paging.Map()));
      }
    }

    /** Obtain `count` pages, map them and link them into the list as one free
        block. */
    method GrowHeap(count: nat) returns (r: Outcome<nat>)
      requires IsList() && Placed() && 0 < count && count * 4096 < U64 && Linkable(count) && GrantLow(count)
      modifies this`mem, this`chain, this`pages, this`written, paging, paging.pmem, paging.pmem.bitmap.buf
      ensures var a := RunAnswer(old(paging.pmem.bits), old(paging.pmem.lastFree), count);
              && (r.Halted? <==> a.None? || old(TablesShort(a.value.0, a.value.1, count)))
              && (r.Returned? ==>
                    && r.value == FrameToPtr(a.value.0) && pages == old(pages) + Span(a.value.0, count)
                    && IsList() && List() == Grow(old(List()), r.value, count)
                    && Apart(List()) && Placed() && written <= old(written) + Addresses(List())
                    && paging.Map() == MapPages(old(paging.Map()), a.value.0, count)
                    && Took(old(paging.Snap()), paging.Snap(), Range(a.value.0, a.value.1)))
      ensures Kept(old(mem), mem, old(written), written)
    {
      r := ObtainRun(count);
      if r.Returned? {
        label obtained:
        LinkRun(r.value, count);
        BelowSame@obtained();
      }
    }

    /** The run that the frame allocator would grant can be linked in. */
    ghost predicate Linkable(count: nat)
      requires IsList() && count > 0 && paging.pmem.Ready()
      reads this`mem, this`first, this`chain, paging, paging.pmem, paging.pmem.bitmap.buf
    {
      var a := RunAnswer(paging.pmem.bits, paging.pmem.lastFree, count);
      a.Some? ==>
        var base := FrameToPtr(a.value.0);
        base != 0 && base !in chain && Apart(Grow(List(), base, count))
    }

    lemma CanLink(count: nat)
      requires Valid() && count > 0
      ensures Linkable(count)
    {
      if RunAnswer(paging.pmem.bits, paging.pmem.lastFree, count).Some? {
        GrantUsable(mem, first, chain, pages, paging.pmem.bits, paging.tables, paging.pmem.lastFree, count);
      }
    }

    /** Growth for `bytes` bytes stops the machine: nothing is granted, as is
        always so below a page; or too few frames are left for page tables; or
        the request leaves no room for the header. */
    ghost predicate GrowthHalts(bytes: nat)
      requires paging.pmem.Ready()
      reads paging, paging.pmem, paging.pmem.bitmap.buf
    {
      var a := RunAnswer(paging.pmem.bits, paging.pmem.lastFree, PagesFor(bytes));
      a.None? || TablesShort(a.value.0, a.value.1, PagesFor(bytes)) || bytes % 4096 > 4064
    }

    /** Grow by `count` pages and take the block that growth made, if the second
        search finds it. */
    method MallocGrown(bytes: nat, count: nat) returns (r: Outcome<nat>)
      requires IsList() && Placed() && count == PagesFor(bytes) && count * 4096 < U64
      requires Linkable(count) && GrantLow(count) && FirstFit(List(), bytes) == |List()| && written == {}
      modifies this`mem, this`chain, this`pages, this`written, paging, paging.pmem, paging.pmem.bitmap.buf
      ensures var a := RunAnswer(old(paging.pmem.bits), old(paging.pmem.lastFree), count);
              && (r.Halted? <==> a.None? || old(TablesShort(a.value.0, a.value.1, count)) || bytes % 4096 > 4064)
              && (r.Returned? ==>
                    && r.value == FrameToPtr(a.value.0) + 32 && pages == old(pages) + Span(a.value.0, count)
                    && IsList() && List() == Grown(old(List()), bytes, FrameToPtr(a.value.0))
                    && Placed() && written <= Addresses(List())
                    && paging.Map() == MapPages(old(paging.Map()), a.value.0, count)
                    && Took(old(paging.Snap()), paging.Snap(), Range(a.value.0, a.value.1)))
      ensures Kept(old(mem), mem, old(written), written)
    {
      var base := GrowHeap(count);
      if base.Halted? {
        return Halted;
      }
      ghost var mem1, written1 := mem, written;
      label grown:
      r := TakeGrown(bytes, count, base.value, old(List()));
      BelowSame@grown();
      KeptTwice(old(mem), mem1, mem, {}, written1, written);
    }

    /** Work on the list alone changes nothing below the heap. */
    twostate lemma BelowSame()
      requires unchanged(paging) && unchanged(paging.pmem) && unchanged(paging.pmem.bitmap.buf)
      requires pages == old(pages)
      ensures paging.Map() == old(paging.Map()) && paging.Snap() == old(paging.Snap())
      ensures Placed() <==> old(Placed())
    {
    }

    /** The second search, in the list `bs` grown by a block at `base`. */
    method TakeGrown(bytes: nat, ghost count: nat, ghost base: nat, ghost bs: seq<Block>) returns (r: Outcome<nat>)
      requires |bs| > 0 && FirstFit(bs, bytes) == |bs| && count == PagesFor(bytes)
      requires IsList() && List() == Grow(bs, base, count) && Apart(List()) && written <= Addresses(List())
      modifies this`mem, this`chain, this`written
      ensures r.Halted? <==> bytes % 4096 > 4064
      ensures r.Returned? ==>
                && r.value == base + 32 && IsList() && List() == Grown(bs, bytes, base)
                && written <= Addresses(List())
      ensures Kept(old(mem), mem, old(written), written)
    {
      GrownTaken(bs, bytes, base);
      r := TakeFirstFit(bytes);
    }

    /** Search the list and carve the block that is found. */
    method TakeFirstFit(bytes: nat) returns (r: Outcome<nat>)
      requires IsList() && Apart(List()) && written <= Addresses(List())
      modifies this`mem, this`chain, this`written
      ensures var i := FirstFit(old(List()), bytes);
              if i == |old(List())| then r.Halted?
              else r == Returned(Payload(old(List())[i]))
                   && IsList() && List() == Carve(old(List()), i, bytes) && written <= Addresses(List())
      ensures Kept(old(mem), mem, old(written), written)
    {
      var block := FindFreeBlock(bytes);
      if block == 0 {
        return Halted;
      }
      ghost var i := FirstFit(List(), bytes);
      assert List()[i].addr == chain[i];
      var ptr := CarveBlock(block, bytes, i);
      WrittenCarved(old(List()), i, bytes, old(written), written);
      return Returned(ptr);
    }

    /** Allocate. From a block that fits, the call returns and the heap is as
        the specification says. When it must grow, it halts exactly in the cases
        of `GrowthHalts`, among them every request below a page; if it returns,
        the heap is as specified, the pages of the run and no others have new
        translations, and exactly the granted frames and those of new tables
        became locked. The blocks then tile the granted frames exactly when they
        did before and the run granted is as long as was asked for. The tables
        that growth needs are to lie below 4 GiB. */
    method Malloc(bytes: nat) returns (r: Outcome<nat>)
      requires Valid() && Sized(bytes)
      requires FirstFit(List(), bytes) == |List()| ==> GrantLow(PagesFor(bytes))
      modifies this`mem, this`chain, this`pages, this`written, paging, paging.pmem, paging.pmem.bitmap.buf
      ensures bytes == 0 ==> r.Halted?
      ensures bytes > 0 && FirstFit(old(List()), bytes) < |old(List())| ==>
                r.Returned? && MallocDone(old(Current()), bytes, 0, r.value)
                && unchanged(paging) && unchanged(paging.pmem) && unchanged(paging.pmem.bitmap.buf)
      ensures bytes > 0 && HasRoom(old(List()), bytes) ==>
                r.Returned? && pages == old(pages) && unchanged(paging) && unchanged(paging.pmem)
      ensures bytes > 0 && FirstFit(old(List()), bytes) == |old(List())| ==>
                var a := RunAnswer(old(paging.pmem.bits), old(paging.pmem.lastFree), PagesFor(bytes));
                && (r.Halted? <==> old(GrowthHalts(bytes)))
                && (bytes < 4096 ==> r.Halted?)
                && (r.Returned? ==>
                      && MallocDone(old(Current()), bytes, FrameToPtr(a.value.0), r.value)
                      && paging.Map() == MapPages(old(paging.Map()), a.value.0, PagesFor(bytes))
                      && Took(old(paging.Snap()), paging.Snap(), Range(a.value.0, a.value.1))
                      && (Tiled(List(), Granted()) <==>
                          old(Tiled(List(), Granted())) && a.value.1 - a.value.0 == PagesFor(bytes)))
      ensures Kept(old(mem), mem, {}, written)
    {
      if bytes == 0 {
        return Halted;
      }
      written := {};
      var block := FindFreeBlock(bytes);
      if block == 0 {
        r := MallocByGrowth(bytes);
      } else {
        var ptr := MallocFromFit(block, bytes);
        r := Returned(ptr);
      }
    }

    method MallocFromFit(block: nat, bytes: nat) returns (ptr: nat)
      requires Valid() && bytes > 0 && written == {}
      requires FirstFit(List(), bytes) < |chain| && block == chain[FirstFit(List(), bytes)]
      modifies this`mem, this`chain, this`written
      ensures MallocDone(old(Current()), bytes, 0, ptr)
      ensures Kept(old(mem), mem, old(written), written)
    {
      FitFacts(bytes);
      ptr := CarveBlock(block, bytes, FirstFit(List(), bytes));
    }

    method MallocByGrowth(bytes: nat) returns (r: Outcome<nat>)
      requires Valid() && bytes > 0 && Sized(bytes) && GrantLow(PagesFor(bytes)) && written == {}
      requires FirstFit(List(), bytes) == |List()|
      modifies this`mem, this`chain, this`pages, this`written, paging, paging.pmem, paging.pmem.bitmap.buf
      ensures var a := RunAnswer(old(paging.pmem.bits), old(paging.pmem.lastFree), PagesFor(bytes));
              && (r.Halted? <==> old(GrowthHalts(bytes)))
              && (r.Returned? ==>
                    && MallocDone(old(Current()), bytes, FrameToPtr(a.value.0), r.value)
                    && paging.Map() == MapPages(old(paging.Map()), a.value.0, PagesFor(bytes))
                    && Took(old(paging.Snap()), paging.Snap(), Range(a.value.0, a.value.1))
                    && (Tiled(List(), Granted()) <==>
                        old(Tiled(List(), Granted())) && a.value.1 - a.value.0 == PagesFor(bytes)))
      ensures Kept(old(mem), mem, old(written), written)
    {
      GrownTiling(bytes);
      r := MallocGrowing(bytes);
    }

    method MallocGrowing(bytes: nat) returns (r: Outcome<nat>)
      requires Valid() && bytes > 0 && Sized(bytes) && GrantLow(PagesFor(bytes)) && written == {}
      requires FirstFit(List(), bytes) == |List()|
      modifies this`mem, this`chain, this`pages, this`written, paging, paging.pmem, paging.pmem.bitmap.buf
      ensures var a := RunAnswer(old(paging.pmem.bits), old(paging.pmem.lastFree), PagesFor(bytes));
              && (r.Halted? <==> old(GrowthHalts(bytes)))
              && (r.Returned? ==>
                    && MallocDone(old(Current()), bytes, FrameToPtr(a.value.0), r.value)
                    && paging.Map() == MapPages(old(paging.Map()), a.value.0, PagesFor(bytes))
                    && Took(old(paging.Snap()), paging.Snap(), Range(a.value.0, a.value.1))
                    && pages == old(pages) + Span(a.value.0, PagesFor(bytes))
                    && List() == Grown(old(List()), bytes, FrameToPtr(a.value.0)))
      ensures Kept(old(mem), mem, old(written), written)
    {
      CanLink(PagesFor(bytes));
      GrownFacts(bytes);
      r := MallocGrown(bytes, bytes / 4096 + 1);
    }

    /** A completed allocation: the heap is valid, has taken the step, holds a
        new live block at `ptr`, and no header write hit a live payload. */
    ghost predicate MallocDone(before: State, bytes: nat, base: nat, ptr: nat)
      requires |before.blocks| > 0
      reads this, paging, paging.pmem, paging.pmem.bitmap.buf
    {
      && Valid() && Step(before, Call.Malloc(bytes, base), Current())
      && Gives(before.blocks, List(), ptr, bytes)
      && WritesClear()
    }

    lemma FitFacts(bytes: nat)
      requires Valid() && bytes > 0 && FirstFit(List(), bytes) < |List()|
      ensures var bs := List();
              var i := FirstFit(bs, bytes);
              var bs' := Carve(bs, i, bytes);
              && Apart(bs) && bs[i].addr == chain[i]
              && Inv(bs', pages) && Gives(bs, bs', Payload(bs[i]), bytes) && AllClear(bs', pages)
    {
      var bs := List();
      var i := FirstFit(bs, bytes);
      MallocFitInv(bs, pages, bytes);
      CarveUsed(bs, i, bytes);
      ClearEverywhere(Carve(bs, i, bytes), pages);
    }

    lemma GrownFacts(bytes: nat)
      requires Valid() && bytes > 0 && FirstFit(List(), bytes) == |List()|
      ensures var a := RunAnswer(paging.pmem.bits, paging.pmem.lastFree, PagesFor(bytes));
              a.Some? && bytes % 4096 <= 4064 ==>
                var base := FrameToPtr(a.value.0);
                var bs' := Grown(List(), bytes, base);
                var pages' := pages + Span(a.value.0, PagesFor(bytes));
                && FreshRun(pages, base, PagesFor(bytes)) && pages' == pages + RunPages(base, PagesFor(bytes))
                && Inv(bs', pages') && Gives(List(), bs', base + 32, bytes) && AllClear(bs', pages')
    {
      var bits, count := paging.pmem.bits, PagesFor(bytes);
      var a := RunAnswer(bits, paging.pmem.lastFree, count);
      if a.Some? && bytes % 4096 <= 4064 {
        GrantUsable(mem, first, chain, pages, bits, paging.tables, paging.pmem.lastFree, count);
        GrowthFacts(List(), pages, bytes, a.value.0);
      }
    }

    lemma GrownTiling(bytes: nat)
      requires Valid() && bytes > 0 && FirstFit(List(), bytes) == |List()|
      ensures var a := RunAnswer(paging.pmem.bits, paging.pmem.lastFree, PagesFor(bytes));
              a.Some? && bytes % 4096 <= 4064 ==>
                var pages' := pages + Span(a.value.0, PagesFor(bytes));
                Tiled(Grown(List(), bytes, FrameToPtr(a.value.0)), Backed(pages', paging.pmem.frames)) <==>
                Tiled(List(), Granted()) && a.value.1 - a.value.0 == PagesFor(bytes)
    {
      var bits, count := paging.pmem.bits, PagesFor(bytes);
      var a := RunAnswer(bits, paging.pmem.lastFree, count);
      if a.Some? && bytes % 4096 <= 4064 {
        AnswerReaches(bits, paging.pmem.lastFree, count);
        GrantUsable(mem, first, chain, pages, bits, paging.tables, paging.pmem.lastFree, count);
        GrowthBacked(List(), pages, bytes, a.value.0, a.value.1, |bits|);
      }
    }

    /** Start the heap with one page. Halts exactly when no frame is free, or
        the others are too few for the tables that mapping the page needs. */
    static method Boot(paging: Paging) returns (r: Outcome<Heap>)
      requires paging.Valid() && paging.Low() && FirstPageLow(paging.Snap())
      modifies paging, paging.pmem, paging.pmem.bitmap.buf
      ensures old(paging.pmem.free) == 0 ==> r.Halted?
      ensures forall k: nat :: LowestFree(old(paging.pmem.bits), 0, k) ==>
                (r.Halted? <==> Lacking(PageSpec.PlacesOf(k), old(paging.tab.Keys)) > old(paging.pmem.free) - 1)
      ensures r.Returned? ==>
                var h := r.value;
                && fresh(h) && h.paging == paging && h.Valid()
                && h.List() == [Block(h.first, 4064, true)] && h.pages == {PtrToFrame(h.first)}
                && LowestFree(old(paging.pmem.bits), 0, PtrToFrame(h.first))
                && paging.tables - old(paging.tables) <= FreeFrames(old(paging.pmem.bits))
    {
      var frame, f := ObtainPage(paging);
      if frame.Halted? {
        return Halted;
      }
      assert PtrToFrame(frame.value) == f;
      InitialInv(frame.value);
      var h := new Heap(paging, frame.value);
      return Returned(h);
    }

    /** With at most 4 GiB of memory the tables for the first page always lie
        there. */
    static lemma SmallMachineFirstPage(paging: Paging)
      requires paging.Valid() && paging.pmem.frames <= FRAMES_4_GIB
      ensures FirstPageLow(paging.Snap())
    {
      var bits := paging.pmem.bits;
      forall k: nat | LowestFree(bits, 0, k)
        ensures LowOnceTaken(paging.Snap(), k, k + 1, PageSpec.PlacesOf(k))
      {
        RangeGrants(bits, k, k + 1);
        RunCount(bits, LockRange(bits, k, k + 1), k, k + 1);
        SmallCount(LockRange(bits, k, k + 1));
      }
    }

    /** Obtain one frame, which is `f`, and map it to itself. */
    static method ObtainPage(paging: Paging) returns (r: Outcome<nat>, ghost f: nat)
      requires paging.Valid() && paging.Low() && FirstPageLow(paging.Snap())
      modifies paging, paging.pmem, paging.pmem.bitmap.buf
      ensures old(paging.pmem.free) == 0 ==> r.Halted?
      ensures forall k: nat :: LowestFree(old(paging.pmem.bits), 0, k) ==>
                (r.Halted? <==> Lacking(PageSpec.PlacesOf(k), old(paging.tab.Keys)) > old(paging.pmem.free) - 1)
      ensures r.Returned? ==>
                && r.value == FrameToPtr(f) && f != 0 && paging.Valid() && paging.Low()
                && PlacedIn({f}, paging.pmem.bits, paging.tables, paging.Map())
                && LowestFree(old(paging.pmem.bits), 0, f)
                && paging.tables - old(paging.tables) <= FreeFrames(old(paging.pmem.bits))
    {
      AllLockedCount(paging.pmem.bits);
      r, f := RequestPage(paging);
      if r.Halted? {
        return;
      }
      ghost var bits, tables := paging.pmem.bits, paging.tables;
      var halted := MapOwnPage(paging, r.value, f);
      if halted {
        return Halted, f;
      }
      TakenWereFree(old(paging.pmem.bits), bits, f, tables, paging.pmem.bits, paging.tables);
    }

    /** Map frame `f`, which is in use, to itself. */
    static method MapOwnPage(paging: Paging, frame: nat, ghost f: nat) returns (halted: bool)
      requires paging.Valid() && frame == FrameToPtr(f) && f < paging.pmem.frames
      requires Findable(paging.Snap(), PageSpec.PlacesOf(f)) && InUse({f}, paging.pmem.bits, paging.tables)
      modifies paging, paging.pmem, paging.pmem.bitmap.buf
      ensures halted <==> Short(old(paging.Snap()), PageSpec.PlacesOf(f))
      ensures !halted ==>
                && paging.Valid() && paging.Low() && PlacedIn({f}, paging.pmem.bits, paging.tables, paging.Map())
                && Grants(old(paging.pmem.bits), paging.pmem.bits, paging.tables - old(paging.tables))
    {
      ghost var s := paging.Snap();
      SmallPage(f);
      halted := paging.MapNth(frame, 0, frame);
      if !halted {
        StillLow(s, paging.Snap(), PageSpec.PlacesOf(f), PageSpec.PlacesOf(f));
        PageSettled(f, s, paging.Snap(), old(paging.Map()));
      }
    }

    static method RequestPage(paging: Paging) returns (r: Outcome<nat>, ghost f: nat)
      requires paging.Valid() && paging.Low() && FirstPageLow(paging.Snap())
      modifies paging.pmem, paging.pmem.bitmap.buf
      ensures paging.Valid()
      ensures r.Halted? <==> old(paging.pmem.free) == 0
      ensures r.Returned? ==>
                && r.value == FrameToPtr(f) && 0 < f < paging.pmem.frames && LowestFree(old(paging.pmem.bits), 0, f)
                && paging.pmem.free == old(paging.pmem.free) - 1
                && Findable(paging.Snap(), PageSpec.PlacesOf(f))
                && InUse({f}, paging.pmem.bits, paging.tables)
                && Grants(old(paging.pmem.bits), paging.pmem.bits, {f})
    {
      ghost var bits, s0 := paging.pmem.bits, paging.Snap();
      r := paging.pmem.RequestFrame();
      f := paging.pmem.lastFree;
      if r.Returned? {
        HeldMore(paging.tab, paging.tables, bits, paging.pmem.bits, {f});
        GrantsCount(bits, paging.pmem.bits, {f});
        TakenFindable(s0, paging.Snap(), f);
      }
    }

    /** The counts of the list's blocks, of the free ones and of the live ones. */
    method HeapStats() returns (blocks: nat, free: nat, used: nat)
      requires IsList()
      ensures blocks == |List()| && free + used == blocks
      ensures used == |Used(List())|
    {
      var block := first;
      blocks, free, used := 0, 0, 0;
      PlaceInChain(mem, first, chain, 0);
      while block != 0
        invariant blocks <= |chain| && block == At(chain, blocks)
        invariant block == 0 <==> blocks == |chain|
        invariant free + used == blocks && used == |Used(List()[..blocks])|
        decreases |chain| - blocks
      {
        PlaceInChain(mem, first, chain, blocks);
        UsedStep(mem, first, chain, blocks);
        blocks := blocks + 1;
        if mem[block].free {
          free := free + 1;
        } else {
          used := used + 1;
        }
        block := mem[block].next;
      }
      assert List()[..blocks] == List();
    }
  }

  /** Allocating from a block that fits and freeing the pointer leaves the list,
      its links and everything below the heap as they were. */
  method AllocateAndRelease(h: Heap, bytes: nat)
    requires h.Valid() && 0 < bytes && h.Sized(bytes) && FirstFit(h.List(), bytes) < |h.List()|
    modifies h`mem, h`chain, h`pages, h`written, h.paging, h.paging.pmem, h.paging.pmem.bitmap.buf
    ensures h.Valid() && h.Current() == old(h.Current())
    ensures h.chain == old(h.chain) && forall a :: a in h.chain ==> h.mem[a] == old(h.mem)[a]
    ensures unchanged(h.paging) && unchanged(h.paging.pmem) && unchanged(h.paging.pmem.bitmap.buf)
  {
    ghost var s := h.Current();
    var r := h.Malloc(bytes);
    AllocatedLive(s, bytes, r.value, h.Current());
    ghost var s' := h.Current();
    h.Free(r.value);
    ReleasedSame(s, bytes, r.value, s', h.Current());
    SameHeaders(old(h.mem), h.mem, h.first, old(h.chain), h.chain);
  }
}
