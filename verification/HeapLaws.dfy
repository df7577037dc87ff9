/** The laws of the heap: every operation keeps the invariant, release undoes
    allocation, and what holds over whole runs. */
module HeapLaws {
  import opened Machine
  import opened FrameSpec
  import opened HeapSpec

  // ---- Release ----

  ghost predicate SameTiling(bs: seq<Block>, bs': seq<Block>, pages: set<nat>) {
    (Tiled(bs, pages) ==> Tiled(bs', pages)) && TotalSize(bs') == TotalSize(bs)
  }

  lemma MarkTiled(bs: seq<Block>, i: nat, pages: set<nat>)
    requires i < |bs|
    ensures SameTiling(bs, MarkFree(bs, i), pages)
  {
    SameTotalSize(bs, MarkFree(bs, i));
    if Tiled(bs, pages) {
      SameTiled(bs, MarkFree(bs, i), pages);
    }
  }

  lemma MergeNextSame(bs: seq<Block>, i: nat, pages: set<nat>)
    requires i + 1 < |bs| && Contiguous(bs[i], bs[i + 1])
    ensures SameTiling(bs, MergeNext(bs, i), pages)
  {
    SplitTiled(MergeNext(bs, i), i, bs, pages);
  }

  lemma ForwardTiled(bs: seq<Block>, i: nat, pages: set<nat>)
    requires i < |bs|
    ensures i < |MergeForward(bs, i)| && SameTiling(bs, MergeForward(bs, i), pages)
  {
    if i + 1 < |bs| && Mergeable(bs, i) {
      MergeNextSame(bs, i, pages);
    }
  }

  lemma BackwardTiled(bs: seq<Block>, i: nat, pages: set<nat>)
    requires i < |bs|
    ensures SameTiling(bs, MergeBackward(bs, i), pages)
  {
    if i > 0 && bs[i - 1].free && Contiguous(bs[i - 1], bs[i]) {
      MergeNextSame(bs, i - 1, pages);
    }
  }

  lemma ReleaseTiled(bs: seq<Block>, i: nat, pages: set<nat>)
    requires i < |bs| && Tiled(bs, pages)
    ensures Tiled(Release(bs, i), pages)
    ensures TotalSize(Release(bs, i)) == TotalSize(bs)
  {
    var m := MarkFree(bs, i);
    MarkTiled(bs, i, pages);
    ForwardTiled(m, i, pages);
    BackwardTiled(MergeForward(m, i), i, pages);
  }

  /** After the forward merge only the pair before block `i` may still be free
      and touching. */
  lemma ForwardCoalesced(bs: seq<Block>, i: nat)
    requires i < |bs| && Coalesced(bs)
    ensures var f := MergeForward(MarkFree(bs, i), i);
            && i < |f| && f[i].free
            && forall j: nat :: j + 1 < |f| && j + 1 != i ==> CoalescedAt(f, j)
  {
    var m := MarkFree(bs, i);
    var f := MergeForward(m, i);
    forall j: nat | j + 1 < |f| && j + 1 != i
      ensures CoalescedAt(f, j)
    {
      if |f| == |bs| {
        assert CoalescedAt(bs, j);
      } else if j < i {
        assert CoalescedAt(bs, j);
      } else {
        assert CoalescedAt(bs, j + 1);
      }
    }
  }

  lemma ReleaseCoalesced(bs: seq<Block>, i: nat)
    requires i < |bs| && Coalesced(bs)
    ensures Coalesced(Release(bs, i))
  {
    ForwardCoalesced(bs, i);
    var f := MergeForward(MarkFree(bs, i), i);
    var r := Release(bs, i);
    forall j: nat | j + 1 < |r|
      ensures CoalescedAt(r, j)
    {
      if |r| == |f| {
        assert j + 1 != i ==> CoalescedAt(f, j);
      } else if j + 1 < i {
        assert CoalescedAt(f, j);
      } else {
        assert CoalescedAt(f, j + 1);
      }
    }
  }

  lemma MergeNextUsed(bs: seq<Block>, i: nat)
    requires i + 1 < |bs| && bs[i].free && bs[i + 1].free
    ensures Used(MergeNext(bs, i)) == Used(bs)
  {
  }

  lemma MarkFreeUsed(bs: seq<Block>, i: nat)
    requires i < |bs| && !bs[i].free && Apart(bs)
    ensures Used(MarkFree(bs, i)) == Used(bs) - {bs[i]}
  {
    var m := MarkFree(bs, i);
    forall c | c in Used(m)
      ensures c in Used(bs) && c != bs[i]
    {
      var p :| 0 <= p < |m| && m[p] == c;
      assert bs[p] == c;
      assert p < i ==> Disjoint(bs[p], bs[i]);
      assert p > i ==> Disjoint(bs[i], bs[p]);
    }
    forall c | c in Used(bs) && c != bs[i]
      ensures c in Used(m)
    {
      var p :| 0 <= p < |bs| && bs[p] == c;
      assert m[p] == c;
    }
  }

  /** Release takes exactly that block out of the live ones. */
  lemma ReleaseUsed(bs: seq<Block>, i: nat)
    requires i < |bs| && !bs[i].free && Apart(bs)
    ensures Used(Release(bs, i)) == Used(bs) - {bs[i]}
  {
    MarkFreeUsed(bs, i);
    var m := MarkFree(bs, i);
    if i + 1 < |m| && Mergeable(m, i) {
      MergeNextUsed(m, i);
    }
    var f := MergeForward(m, i);
    if i > 0 && f[i - 1].free && Contiguous(f[i - 1], f[i]) {
      MergeNextUsed(f, i - 1);
    }
  }

  // ---- The invariant ----

  /** The heap that starts as one page. */
  lemma InitialInv(base: nat)
    requires Aligned(base) && base > 0
    ensures Inv([Block(base, 4064, true)], {PtrToFrame(base)})
  {
    var b, pages := Block(base, 4064, true), {PtrToFrame(base)};
    forall x: nat
      ensures Covered([b], x) <==> Owned(pages, x)
    {
      if Inside(b, x) {
        assert Inside([b][0], x);
      }
      assert Inside(b, x) <==> PtrToFrame(x) == PtrToFrame(base);
    }
    assert TotalSize([b]) == 4096 by {
      assert [b][..0] == [];
    }
  }

  /** Allocation from a block that fits keeps the invariant. */
  lemma MallocFitInv(bs: seq<Block>, pages: set<nat>, n: nat)
    requires Inv(bs, pages) && n > 0 && FirstFit(bs, n) < |bs|
    ensures Inv(Carve(bs, FirstFit(bs, n), n), pages)
  {
    var i := FirstFit(bs, n);
    CarveTiled(bs, i, n, pages);
    CarveCoalesced(bs, i, n);
    CarveNonEmpty(bs, i, n);
  }

  /** After growth the second search chooses the new block exactly when the
      request leaves room for the header in its last page; otherwise it finds
      nothing. It never chooses another block. */
  lemma GrowthChoice(bs: seq<Block>, n: nat, base: nat)
    requires |bs| > 0 && FirstFit(bs, n) == |bs|
    ensures var g := Grow(bs, base, PagesFor(n));
            FirstFit(g, n) == if n % 4096 <= 4064 then InsertAfter(bs, base) + 1 else |g|
  {
    var g := Grow(bs, base, PagesFor(n));
    var k := InsertAfter(bs, base) + 1;
    assert forall j :: 0 <= j < |g| && j != k ==> !Fits(g[j], n) by {
      forall j | 0 <= j < |g| && j != k
        ensures !Fits(g[j], n)
      {
        assert g[j] == bs[if j < k then j else j - 1];
      }
    }
    assert Fits(g[k], n) <==> n % 4096 <= 4064;
  }

  ghost predicate FreshRun(pages: set<nat>, base: nat, count: nat) {
    Aligned(base) && base > 0 && RunPages(base, count) !! pages
  }

  /** The list after growth and allocation. */
  ghost function Grown(bs: seq<Block>, n: nat, base: nat): seq<Block>
    requires |bs| > 0 && FirstFit(bs, n) == |bs| && n % 4096 <= 4064
  {
    GrowthChoice(bs, n, base);
    Carve(Grow(bs, base, PagesFor(n)), InsertAfter(bs, base) + 1, n)
  }

  lemma GrownTiled(bs: seq<Block>, pages: set<nat>, n: nat, base: nat)
    requires |bs| > 0 && FirstFit(bs, n) == |bs| && n % 4096 <= 4064
    requires Tiled(bs, pages) && FreshRun(pages, base, PagesFor(n))
    ensures Tiled(Grown(bs, n, base), pages + RunPages(base, PagesFor(n)))
    ensures TotalSize(Grown(bs, n, base)) == TotalSize(bs) + 4096 * PagesFor(n)
  {
    GrowthChoice(bs, n, base);
    GrowTiled(bs, pages, base, PagesFor(n));
    CarveTiled(Grow(bs, base, PagesFor(n)), InsertAfter(bs, base) + 1, n, pages + RunPages(base, PagesFor(n)));
  }

  /** The new block is not merged with a free predecessor it touches, but it is
      the block that is allocated; and its successor is never above it. */
  lemma GrownCoalesced(bs: seq<Block>, n: nat, base: nat)
    requires |bs| > 0 && FirstFit(bs, n) == |bs| && n % 4096 <= 4064
    requires Coalesced(bs)
    ensures Coalesced(Grown(bs, n, base))
  {
    GrowthChoice(bs, n, base);
    GrowCoalesced(bs, base, PagesFor(n));
    CarveCoalesced(Grow(bs, base, PagesFor(n)), InsertAfter(bs, base) + 1, n);
  }

  lemma GrownNonEmpty(bs: seq<Block>, n: nat, base: nat)
    requires |bs| > 0 && FirstFit(bs, n) == |bs| && n % 4096 <= 4064
    requires NonEmptyBlocks(bs) && n > 0
    ensures |Grown(bs, n, base)| > 0 && NonEmptyBlocks(Grown(bs, n, base))
  {
    GrowthChoice(bs, n, base);
    InsertNonEmpty(bs, InsertAfter(bs, base) + 1, Block(base, PagesFor(n) * 4096 - 32, true));
    CarveNonEmpty(Grow(bs, base, PagesFor(n)), InsertAfter(bs, base) + 1, n);
  }

  lemma InsertNonEmpty(bs: seq<Block>, k: nat, b: Block)
    requires NonEmptyBlocks(bs) && k <= |bs| && b.bytes > 0
    ensures NonEmptyBlocks(bs[..k] + [b] + bs[k..])
  {
  }

  lemma CarveNonEmpty(bs: seq<Block>, i: nat, n: nat)
    requires NonEmptyBlocks(bs) && i < |bs| && 0 < n <= bs[i].bytes
    ensures |Carve(bs, i, n)| > 0 && NonEmptyBlocks(Carve(bs, i, n))
  {
  }

  lemma RunPagesCount(pages: set<nat>, base: nat, count: nat)
    requires FreshRun(pages, base, count) && 0 !in pages
    ensures |pages + RunPages(base, count)| == |pages| + count
    ensures 0 !in pages + RunPages(base, count)
  {
    SpanSize(PtrToFrame(base), count);
  }

  /** Growth followed by allocation keeps the invariant. */
  lemma MallocGrowInv(bs: seq<Block>, pages: set<nat>, n: nat, base: nat)
    requires Inv(bs, pages) && n > 0 && FirstFit(bs, n) == |bs| && n % 4096 <= 4064
    requires FreshRun(pages, base, PagesFor(n))
    ensures Inv(Grown(bs, n, base), pages + RunPages(base, PagesFor(n)))
  {
    GrownTiled(bs, pages, n, base);
    GrownCoalesced(bs, n, base);
    GrownNonEmpty(bs, n, base);
    RunPagesCount(pages, base, PagesFor(n));
  }

  lemma GrowCoalesced(bs: seq<Block>, base: nat, count: nat)
    requires |bs| > 0 && count > 0 && Coalesced(bs)
    ensures var g := Grow(bs, base, count);
            forall j: nat :: j + 1 < |g| && j != InsertAfter(bs, base) ==> CoalescedAt(g, j)
  {
    var g := Grow(bs, base, count);
    var k := InsertAfter(bs, base) + 1;
    forall j: nat | j + 1 < |g| && j + 1 != k
      ensures CoalescedAt(g, j)
    {
      if j + 1 < k {
        assert CoalescedAt(bs, j);
      } else if j > k {
        assert CoalescedAt(bs, j - 1);
      }
    }
  }

  lemma ReleaseNonEmpty(bs: seq<Block>, i: nat)
    requires i < |bs| && NonEmptyBlocks(bs)
    ensures |Release(bs, i)| > 0 && NonEmptyBlocks(Release(bs, i))
  {
    var m := MarkFree(bs, i);
    assert NonEmptyBlocks(m);
    var f := MergeForward(m, i);
    assert i < |f| && NonEmptyBlocks(f);
  }

  lemma ReleaseInv(bs: seq<Block>, pages: set<nat>, i: nat)
    requires Inv(bs, pages) && i < |bs|
    ensures Inv(Release(bs, i), pages)
  {
    ReleaseTiled(bs, i, pages);
    ReleaseCoalesced(bs, i);
    ReleaseNonEmpty(bs, i);
  }

  // ---- Release undoes allocation ----

  /** Releasing what was just carved out of a free block restores the list
      exactly; that neither merge goes too far needs the list to be coalesced. */
  lemma ReleaseAfterCarve(bs: seq<Block>, i: nat, n: nat)
    requires i < |bs| && Fits(bs[i], n) && Coalesced(bs)
    ensures Release(Carve(bs, i, n), i) == bs
  {
    assert i + 1 < |bs| ==> CoalescedAt(bs, i);
    assert i > 0 ==> CoalescedAt(bs, i - 1);
    MarkThenMerge(bs, i, n);
  }

  /** When the allocation had to grow the heap, releasing it leaves the new
      pages in the list as one free block, joined to its predecessor when that
      is free and touches it. */
  lemma ReleaseAfterGrowth(bs: seq<Block>, n: nat, base: nat)
    requires |bs| > 0 && FirstFit(bs, n) == |bs| && n % 4096 <= 4064
    ensures var g, k := Grow(bs, base, PagesFor(n)), InsertAfter(bs, base) + 1;
            Release(Grown(bs, n, base), k) == MergeBackward(g, k)
  {
    GrowthChoice(bs, n, base);
    var g, k := Grow(bs, base, PagesFor(n)), InsertAfter(bs, base) + 1;
    assert k + 1 < |g| ==> g[k + 1].addr < g[k].addr;
    MarkThenMerge(g, k, n);
  }

  /** Marking what was carved as free and merging it forward restores the list,
      when the block does not touch a free successor. */
  lemma MarkThenMerge(bs: seq<Block>, i: nat, n: nat)
    requires i < |bs| && Fits(bs[i], n)
    requires i + 1 < |bs| ==> !Mergeable(bs, i)
    ensures MergeForward(MarkFree(Carve(bs, i, n), i), i) == bs
  {
  }

  // ---- Payloads and headers ----

  /** The 32 bytes of a header at `w` lie outside the payload of `b`. */
  ghost predicate ClearOf(w: nat, b: Block) {
    w + 32 <= Payload(b) || Payload(b) + b.bytes <= w
  }

  /** No header lies in the payload of any block, and two payloads never
      overlap; the null page lies outside every block. */
  lemma HeadersClear(bs: seq<Block>, pages: set<nat>, w: nat, b: Block)
    requires Tiled(bs, pages) && 0 !in pages && b in bs
    requires w == 0 || exists h :: h in bs && h.addr == w
    ensures ClearOf(w, b)
  {
    var j :| 0 <= j < |bs| && bs[j] == b;
    if w == 0 {
      assert Inside(bs[j], b.addr);
      assert Covered(bs, b.addr);
      assert Owned(pages, b.addr);
    } else {
      var h :| h in bs && h.addr == w;
      var i :| 0 <= i < |bs| && bs[i] == h;
      assert i < j ==> Disjoint(bs[i], bs[j]);
      assert j < i ==> Disjoint(bs[j], bs[i]);
    }
  }

  /** Two different live blocks are disjoint. */
  lemma LiveDisjoint(bs: seq<Block>, a: Block, b: Block)
    requires Apart(bs) && a in bs && b in bs && a != b
    ensures Disjoint(a, b)
  {
    var i :| 0 <= i < |bs| && bs[i] == a;
    var j :| 0 <= j < |bs| && bs[j] == b;
    assert i < j ==> Disjoint(bs[i], bs[j]);
    assert j < i ==> Disjoint(bs[j], bs[i]);
  }

  // ---- The unguarded write of the backward merge ----

  /** When releasing block `i` makes the kernel write through a null successor:
      the block joins its predecessor and ends the list, or would end it once
      joined to the free block that follows. */
  ghost predicate WritesNull(bs: seq<Block>, i: nat)
    requires i < |bs|
  {
    && i > 0 && bs[i - 1].free && Contiguous(bs[i - 1], bs[i])
    && (i + 1 == |bs| || (i + 2 == |bs| && Mergeable(bs, i)))
  }

  /** An ordinary run reaches it: fill the first page with two allocations and
      free them in order. */
  lemma WritesNullReachable(base: nat)
    requires Aligned(base) && base > 0
    ensures var s0 := [Block(base, 4064, true)];
            var s1 := Carve(s0, 0, 100);
            FirstFit(s0, 100) == 0 && FirstFit(s1, 3932) == 1 &&
            var s2 := Carve(s1, 1, 3932);
            var s3 := Release(s2, 0);
            !s2[0].free && |s3| == 2 && !s3[1].free && WritesNull(s3, 1)
  {
  }

  // ---- Whole runs ----

  /** The list of blocks and the pages it stands for. These are frames that were
      granted and, when a grant was cut short by the end of memory, the ones
      past the end that were asked for; see `RunBacked`. */
  datatype State = State(blocks: seq<Block>, pages: set<nat>)

  /** A call that returns: an allocation, with the address growth would get, or
      the release of a pointer. */
  datatype Call = Malloc(n: nat, base: nat) | Free(ptr: nat)

  ghost predicate LiveAt(bs: seq<Block>, i: nat, ptr: nat) {
    i < |bs| && !bs[i].free && Payload(bs[i]) == ptr
  }

  ghost predicate Step(s: State, c: Call, s': State)
    requires |s.blocks| > 0
  {
    match c
    case Malloc(n, base) =>
      n > 0 &&
      if FirstFit(s.blocks, n) < |s.blocks|
      then s' == State(Carve(s.blocks, FirstFit(s.blocks, n), n), s.pages)
      else
        && n % 4096 <= 4064 && FreshRun(s.pages, base, PagesFor(n))
        && s' == State(Grown(s.blocks, n, base), s.pages + RunPages(base, PagesFor(n)))
    case Free(ptr) =>
      if ptr == 0 then s' == s
      else exists i: nat :: LiveAt(s.blocks, i, ptr) && s' == State(Release(s.blocks, i), s.pages)
  }

  lemma StepInv(s: State, c: Call, s': State)
    requires Inv(s.blocks, s.pages) && Step(s, c, s')
    ensures Inv(s'.blocks, s'.pages) && s.pages <= s'.pages
  {
    match c
    case Malloc(n, base) =>
      if FirstFit(s.blocks, n) < |s.blocks| {
        MallocFitInv(s.blocks, s.pages, n);
      } else {
        MallocGrowInv(s.blocks, s.pages, n, base);
      }
    case Free(ptr) =>
      if ptr != 0 {
        var i: nat :| LiveAt(s.blocks, i, ptr) && s' == State(Release(s.blocks, i), s.pages);
        ReleaseInv(s.blocks, s.pages, i);
      }
  }

  /** An allocation adds one live block of at least the requested size; a release
      removes the block of its pointer; no other live block moves or changes. */
  lemma StepUsed(s: State, c: Call, s': State)
    requires Inv(s.blocks, s.pages) && Step(s, c, s')
    ensures c.Malloc? ==>
              exists b :: b !in Used(s.blocks) && c.n <= b.bytes <= c.n + 32 && Used(s'.blocks) == Used(s.blocks) + {b}
    ensures c.Free? && c.ptr != 0 ==>
              exists b :: b in Used(s.blocks) && Payload(b) == c.ptr && Used(s'.blocks) == Used(s.blocks) - {b}
    ensures c.Free? && c.ptr == 0 ==> s' == s
  {
    match c
    case Malloc(n, base) =>
      if FirstFit(s.blocks, n) < |s.blocks| {
        CarveUsed(s.blocks, FirstFit(s.blocks, n), n);
      } else {
        GrownUsed(s.blocks, s.pages, n, base);
      }
    case Free(ptr) =>
      if ptr != 0 {
        var i: nat :| LiveAt(s.blocks, i, ptr) && s' == State(Release(s.blocks, i), s.pages);
        ReleaseUsed(s.blocks, i);
        assert s.blocks[i] in Used(s.blocks);
      }
  }

  /** An allocation that needed no growth, followed by the release of the
      pointer it returned, restores every address, size and flag. */
  lemma FreeUndoesMalloc(s: State, n: nat, base: nat, s': State, s'': State)
    requires Inv(s.blocks, s.pages) && FirstFit(s.blocks, n) < |s.blocks|
    requires Step(s, Malloc(n, base), s') && |s'.blocks| > 0
    requires Step(s', Free(Payload(s.blocks[FirstFit(s.blocks, n)])), s'')
    ensures s'' == s
  {
    var i := FirstFit(s.blocks, n);
    StepInv(s, Malloc(n, base), s');
    FreeStepIs(s', i, s'');
    ReleaseAfterCarve(s.blocks, i, n);
  }

  /** Freeing the pointer of block `i` releases block `i`. */
  lemma FreeStepIs(s: State, i: nat, s': State)
    requires Apart(s.blocks) && i < |s.blocks|
    requires Step(s, Free(Payload(s.blocks[i])), s')
    ensures s' == State(Release(s.blocks, i), s.pages)
  {
    var ptr := Payload(s.blocks[i]);
    var j: nat :| LiveAt(s.blocks, j, ptr) && s' == State(Release(s.blocks, j), s.pages);
    SameAddress(s.blocks, i, j);
  }

  lemma SameAddress(bs: seq<Block>, i: nat, j: nat)
    requires Apart(bs) && i < |bs| && j < |bs| && bs[i].addr == bs[j].addr
    ensures i == j
  {
    assert i < j ==> Disjoint(bs[i], bs[j]);
    assert j < i ==> Disjoint(bs[j], bs[i]);
  }

  lemma GrownUsed(bs: seq<Block>, pages: set<nat>, n: nat, base: nat)
    requires |bs| > 0 && FirstFit(bs, n) == |bs| && n % 4096 <= 4064
    requires Tiled(bs, pages) && FreshRun(pages, base, PagesFor(n))
    ensures var b := Grown(bs, n, base)[InsertAfter(bs, base) + 1];
            && b.addr == base && n <= b.bytes <= n + 32 && !b.free
            && b !in Used(bs) && Used(Grown(bs, n, base)) == Used(bs) + {b}
  {
    GrowthChoice(bs, n, base);
    GrowTiled(bs, pages, base, PagesFor(n));
    GrowUsed(bs, base, PagesFor(n));
    CarveUsed(Grow(bs, base, PagesFor(n)), InsertAfter(bs, base) + 1, n);
  }

  lemma GrowUsed(bs: seq<Block>, base: nat, count: nat)
    requires |bs| > 0 && count > 0
    ensures Used(Grow(bs, base, count)) == Used(bs)
  {
  }

  lemma StepKeeps(s: State, c: Call, s': State, b: Block)
    requires Inv(s.blocks, s.pages) && Step(s, c, s')
    requires b in Used(s.blocks) && c != Free(Payload(b))
    ensures b in Used(s'.blocks)
  {
    StepUsed(s, c, s');
  }

  /** Call `k` of a run leads from its state to the next. */
  ghost predicate StepAt(states: seq<State>, calls: seq<Call>, k: nat)
    requires k < |calls| < |states|
  {
    |states[k].blocks| > 0 && Step(states[k], calls[k], states[k + 1])
  }

  ghost predicate IsRun(states: seq<State>, calls: seq<Call>) {
    && |states| == |calls| + 1
    && Inv(states[0].blocks, states[0].pages)
    && forall k {:trigger StepAt(states, calls, k)} :: 0 <= k < |calls| ==> StepAt(states, calls, k)
  }

  /** Over every run of allocations and releases the invariant holds in every
      state: the blocks tile the pages obtained so far, sizes add up, no free
      neighbours touch. */
  lemma {:induction false} RunInv(states: seq<State>, calls: seq<Call>, k: nat)
    requires IsRun(states, calls) && k < |states|
    ensures Inv(states[k].blocks, states[k].pages)
  {
    if k > 0 {
      RunInv(states, calls, k - 1);
      assert StepAt(states, calls, k - 1);
      StepInv(states[k - 1], calls[k - 1], states[k]);
    }
  }

  lemma RunKeeps(states: seq<State>, calls: seq<Call>, k: nat, b: Block)
    requires IsRun(states, calls) && k < |calls|
    requires b in Used(states[k].blocks) && calls[k] != Free(Payload(b))
    ensures b in Used(states[k + 1].blocks)
  {
    RunInv(states, calls, k);
    assert StepAt(states, calls, k);
    StepKeeps(states[k], calls[k], states[k + 1], b);
  }

  /** Over every run a live block keeps its address and size until the call
      that frees its pointer. */
  lemma {:induction false} LiveUntilFreed(states: seq<State>, calls: seq<Call>, j: nat, k: nat, b: Block)
    requires IsRun(states, calls) && j <= k < |states|
    requires b in Used(states[j].blocks)
    requires forall m :: j <= m < k ==> calls[m] != Free(Payload(b))
    ensures b in Used(states[k].blocks)
    decreases k
  {
    if j < k {
      LiveUntilFreed(states, calls, j, k - 1, b);
      RunKeeps(states, calls, k - 1, b);
    }
  }

  /** Over every run, at every point, the payloads of two different live blocks
      are disjoint and no header of the list lies in a live payload. */
  lemma RunNonInterference(states: seq<State>, calls: seq<Call>, k: nat, a: Block, b: Block, h: Block)
    requires IsRun(states, calls) && k < |states|
    requires a in Used(states[k].blocks) && b in Used(states[k].blocks) && h in states[k].blocks
    ensures a != b ==> Disjoint(a, b)
    ensures a != b ==> Payload(a) + a.bytes <= Payload(b) || Payload(b) + b.bytes <= Payload(a)
    ensures ClearOf(h.addr, a)
    ensures forall x: nat :: Payload(a) <= x < Payload(a) + a.bytes ==> Owned(states[k].pages, x)
  {
    RunInv(states, calls, k);
    if a != b {
      LiveDisjoint(states[k].blocks, a, b);
    }
    HeadersClear(states[k].blocks, states[k].pages, h.addr, a);
    PayloadOwned(states[k].blocks, states[k].pages, a);
  }

  /** Every byte of a payload lies in the pages. */
  lemma PayloadOwned(bs: seq<Block>, pages: set<nat>, b: Block)
    requires Tiled(bs, pages) && b in bs
    ensures forall x: nat :: Payload(b) <= x < Payload(b) + b.bytes ==> Owned(pages, x)
  {
    var i :| 0 <= i < |bs| && bs[i] == b;
    forall x: nat | Payload(b) <= x < Payload(b) + b.bytes
      ensures Owned(pages, x)
    {
      assert Inside(bs[i], x);
      assert Covered(bs, x);
    }
  }

  // ---- Grants cut short by the end of memory ----

  /** Those of the pages that are frames of a memory of `frames` frames. */
  ghost function Backed(pages: set<nat>, frames: nat): set<nat> {
    set f | f in pages && f < frames
  }

  /** The blocks tile the frames that memory has exactly when the list stands for
      no others. */
  lemma TiledBacked(bs: seq<Block>, pages: set<nat>, frames: nat)
    requires Tiled(bs, pages)
    ensures Tiled(bs, Backed(pages, frames)) <==> Backed(pages, frames) == pages
  {
    if Tiled(bs, Backed(pages, frames)) {
      forall f | f in pages
        ensures f in Backed(pages, frames)
      {
        assert Owned(pages, FrameToPtr(f));
        assert Owned(Backed(pages, frames), FrameToPtr(f));
      }
    }
  }

  /** The call makes the heap grow past the end of memory: the run granted was
      shorter than the one asked for. */
  ghost predicate CutShort(s: State, c: Call, frames: nat) {
    c.Malloc? && FirstFit(s.blocks, c.n) == |s.blocks| && PtrToFrame(c.base) + PagesFor(c.n) > frames
  }

  lemma StepBacked(s: State, c: Call, s': State, frames: nat)
    requires Inv(s.blocks, s.pages) && Step(s, c, s')
    ensures Backed(s'.pages, frames) == s'.pages <==> Backed(s.pages, frames) == s.pages && !CutShort(s, c, frames)
  {
    StepInv(s, c, s');
    if CutShort(s, c, frames) {
      var last := PtrToFrame(c.base) + PagesFor(c.n) - 1;
      assert InSpan(PtrToFrame(c.base), PagesFor(c.n), last);
      assert last in RunPages(c.base, PagesFor(c.n));
    } else if c.Malloc? && FirstFit(s.blocks, c.n) == |s.blocks| {
      assert forall f :: f in RunPages(c.base, PagesFor(c.n)) ==> f < frames;
    }
    if Backed(s'.pages, frames) == s'.pages {
      assert forall f :: f in s.pages ==> f in s'.pages;
    }
  }

  /** None of the first `k` calls of a run was cut short. */
  ghost predicate Uncut(states: seq<State>, calls: seq<Call>, frames: nat, k: nat)
    requires k <= |calls| < |states|
  {
    forall m :: 0 <= m < k ==> !CutShort(states[m], calls[m], frames)
  }

  lemma UncutStep(states: seq<State>, calls: seq<Call>, frames: nat, k: nat)
    requires k < |calls| < |states|
    ensures Uncut(states, calls, frames, k + 1) <==>
            Uncut(states, calls, frames, k) && !CutShort(states[k], calls[k], frames)
  {
  }

  lemma CallBacked(states: seq<State>, calls: seq<Call>, frames: nat, k: nat)
    requires IsRun(states, calls) && k < |calls|
    ensures Backed(states[k + 1].pages, frames) == states[k + 1].pages <==>
            Backed(states[k].pages, frames) == states[k].pages && !CutShort(states[k], calls[k], frames)
  {
    RunInv(states, calls, k);
    assert StepAt(states, calls, k);
    StepBacked(states[k], calls[k], states[k + 1], frames);
  }

  lemma {:induction false} RunWithin(states: seq<State>, calls: seq<Call>, frames: nat, k: nat)
    requires IsRun(states, calls) && k < |states| && Backed(states[0].pages, frames) == states[0].pages
    ensures Backed(states[k].pages, frames) == states[k].pages <==> Uncut(states, calls, frames, k)
  {
    if k > 0 {
      RunWithin(states, calls, frames, k - 1);
      CallBacked(states, calls, frames, k - 1);
      UncutStep(states, calls, frames, k - 1);
    }
  }

  /** Over every run the blocks tile the frames that memory has until the first
      grant that was cut short, and from then on never again. */
  lemma RunBacked(states: seq<State>, calls: seq<Call>, frames: nat, k: nat)
    requires IsRun(states, calls) && k < |states| && Backed(states[0].pages, frames) == states[0].pages
    ensures Tiled(states[k].blocks, Backed(states[k].pages, frames)) <==> Uncut(states, calls, frames, k)
  {
    RunInv(states, calls, k);
    TiledBacked(states[k].blocks, states[k].pages, frames);
    RunWithin(states, calls, frames, k);
  }
}
