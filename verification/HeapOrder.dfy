/** The order of the heap's list. The list is not kept in the order of the
    addresses, and blocks are merged with neighbours of the list only. */
module HeapOrder {
  import opened Machine
  import opened FrameSpec
  import opened HeapSpec
  import opened HeapLaws

  ghost predicate Ordered(bs: seq<Block>) {
    forall i, j :: 0 <= i < j < |bs| ==> bs[i].addr < bs[j].addr
  }

  ghost predicate NoneAt(bs: seq<Block>, addr: nat) {
    forall i :: 0 <= i < |bs| ==> bs[i].addr != addr
  }

  /** Growth of an ordered list keeps the order exactly when the list has one
      block, which lies below the new one. */
  lemma GrowOrdered(bs: seq<Block>, base: nat, count: nat)
    requires |bs| > 0 && count > 0 && Ordered(bs) && NoneAt(bs, base)
    ensures Ordered(Grow(bs, base, count)) <==> |bs| == 1 && bs[0].addr < base
  {
    var g, k := Grow(bs, base, count), InsertAfter(bs, base);
    assert g[k] == bs[k] && g[k + 1].addr == base;
    if k + 1 < |bs| {
      assert g[k + 2] == bs[k + 1];
    } else if k > 0 {
      assert !(bs[k - 1].addr < base && bs[k].addr < base);
      assert bs[k].addr > base;
    }
  }

  /** Cutting a block in two keeps the order, and so does undoing it. */
  lemma SplitOrdered(whole: seq<Block>, i: nat, halves: seq<Block>)
    requires SplitAt(whole, i, halves) && Apart(whole)
    ensures Ordered(whole) <==> Ordered(halves)
  {
    if Ordered(whole) {
      forall p, q | 0 <= p < q < |halves|
        ensures halves[p].addr < halves[q].addr
      {
        var p', q' := if p <= i then p else p - 1, if q <= i then q else q - 1;
        assert p' < q' ==> Disjoint(whole[p'], whole[q']);
        assert p' <= q';
      }
    }
    if Ordered(halves) {
      forall p, q | 0 <= p < q < |whole|
        ensures whole[p].addr < whole[q].addr
      {
        var p', q' := if p <= i then p else p + 1, if q <= i then q else q + 1;
        assert halves[p'].addr < halves[q'].addr;
      }
    }
  }

  lemma CarveOrdered(bs: seq<Block>, i: nat, n: nat)
    requires i < |bs| && bs[i].bytes >= n && Apart(bs)
    ensures Ordered(Carve(bs, i, n)) <==> Ordered(bs)
  {
    CarveExtents(bs, i, n);
    var c := Carve(bs, i, n);
    if bs[i].bytes - n > 32 {
      SplitOrdered(bs, i, c);
    } else {
      assert forall j :: 0 <= j < |bs| ==> c[j].addr == bs[j].addr;
    }
  }

  lemma MergeNextOrdered(bs: seq<Block>, i: nat)
    requires i + 1 < |bs| && Ordered(bs)
    ensures Ordered(MergeNext(bs, i))
  {
    var m := MergeNext(bs, i);
    assert forall j :: 0 <= j < |m| ==> m[j].addr == bs[if j <= i then j else j + 1].addr;
  }

  lemma ReleaseOrdered(bs: seq<Block>, i: nat)
    requires i < |bs| && Ordered(bs)
    ensures Ordered(Release(bs, i))
  {
    var m := MarkFree(bs, i);
    assert Ordered(m);
    if i + 1 < |m| && Mergeable(m, i) {
      MergeNextOrdered(m, i);
    }
    var f := MergeForward(m, i);
    if i > 0 && f[i - 1].free && Contiguous(f[i - 1], f[i]) {
      MergeNextOrdered(f, i - 1);
    }
  }

  lemma FreshAddress(bs: seq<Block>, pages: set<nat>, base: nat, count: nat)
    requires Tiled(bs, pages) && FreshRun(pages, base, count) && count > 0
    ensures NoneAt(bs, base)
  {
    assert InSpan(PtrToFrame(base), count, PtrToFrame(base));
    assert PtrToFrame(base) in RunPages(base, count);
    assert !Owned(pages, base);
    forall i | 0 <= i < |bs|
      ensures bs[i].addr != base
    {
      assert Inside(bs[i], bs[i].addr);
      assert Covered(bs, bs[i].addr);
    }
  }

  /** Among all calls only an allocation that grows the heap can break the order,
      and it does unless the list is a single block below the new one. */
  lemma StepOrdered(s: State, c: Call, s': State)
    requires Inv(s.blocks, s.pages) && Step(s, c, s') && Ordered(s.blocks)
    ensures Ordered(s'.blocks) <==>
            !(c.Malloc? && FirstFit(s.blocks, c.n) == |s.blocks|) || (|s.blocks| == 1 && s.blocks[0].addr < c.base)
  {
    match c
    case Malloc(n, base) =>
      if FirstFit(s.blocks, n) < |s.blocks| {
        CarveOrdered(s.blocks, FirstFit(s.blocks, n), n);
      } else {
        GrowthChoice(s.blocks, n, base);
        GrowTiled(s.blocks, s.pages, base, PagesFor(n));
        FreshAddress(s.blocks, s.pages, base, PagesFor(n));
        GrowOrdered(s.blocks, base, PagesFor(n));
        CarveOrdered(Grow(s.blocks, base, PagesFor(n)), InsertAfter(s.blocks, base) + 1, n);
      }
    case Free(ptr) =>
      if ptr != 0 {
        var i: nat :| LiveAt(s.blocks, i, ptr) && s' == State(Release(s.blocks, i), s.pages);
        ReleaseOrdered(s.blocks, i);
      }
  }

  /** While the list is in order no two free blocks touch, neighbours or not. */
  lemma OrderedMerged(bs: seq<Block>, i: nat, j: nat)
    requires Ordered(bs) && Apart(bs) && Coalesced(bs) && i < |bs| && j < |bs|
    ensures !(bs[i].free && bs[j].free && Contiguous(bs[i], bs[j]))
  {
    if Contiguous(bs[i], bs[j]) {
      assert i < j;
      assert Disjoint(bs[i], bs[i + 1]);
      assert j == i + 1;
      assert CoalescedAt(bs, i);
    }
  }

  /** Out of order they can: fill the first page with two allocations, grow, and
      free the two. They stay apart in the list although they touch. */
  lemma UnmergedReachable()
    ensures var s0 := State([Block(4096, 4064, true)], {1});
            var s1 := State([Block(4096, 100, false), Block(4228, 3932, true)], {1});
            var s2 := State([Block(4096, 100, false), Block(4228, 3932, false)], {1});
            var s3 := State([Block(4096, 100, false), Block(32768, 5000, false), Block(37800, 3128, true),
                             Block(4228, 3932, false)], {1, 8, 9});
            var s4 := State([Block(4096, 100, true), Block(32768, 5000, false), Block(37800, 3128, true),
                             Block(4228, 3932, false)], {1, 8, 9});
            var s5 := State([Block(4096, 100, true), Block(32768, 5000, false), Block(37800, 3128, true),
                             Block(4228, 3932, true)], {1, 8, 9});
            && Inv(s0.blocks, s0.pages)
            && Step(s0, Malloc(100, 0), s1) && Step(s1, Malloc(3932, 0), s2) && Step(s2, Malloc(5000, 32768), s3)
            && Step(s3, Free(4128), s4) && Step(s4, Free(4260), s5)
            && s5.blocks[0].free && s5.blocks[3].free && Contiguous(s5.blocks[0], s5.blocks[3])
  {
    InitialInv(4096);
    Filled();
    GrownByTwo();
    BothFreed();
  }

  lemma Filled()
    ensures var s0 := State([Block(4096, 4064, true)], {1});
            var s1 := State([Block(4096, 100, false), Block(4228, 3932, true)], {1});
            var s2 := State([Block(4096, 100, false), Block(4228, 3932, false)], {1});
            Step(s0, Malloc(100, 0), s1) && Step(s1, Malloc(3932, 0), s2)
  {
  }

  lemma GrownByTwo()
    ensures var s2 := State([Block(4096, 100, false), Block(4228, 3932, false)], {1});
            var s3 := State([Block(4096, 100, false), Block(32768, 5000, false), Block(37800, 3128, true),
                             Block(4228, 3932, false)], {1, 8, 9});
            Step(s2, Malloc(5000, 32768), s3)
  {
    var b2 := [Block(4096, 100, false), Block(4228, 3932, false)];
    assert PagesFor(5000) == 2 && PtrToFrame(32768) == 8;
    assert RunPages(32768, 2) == {8, 9} by {
      assert InSpan(8, 2, 8) && InSpan(8, 2, 9);
    }
    assert InsertAfter(b2, 32768) == 0;
    assert Grow(b2, 32768, 2) == [b2[0], Block(32768, 8160, true), b2[1]];
  }

  lemma BothFreed()
    ensures var s3 := State([Block(4096, 100, false), Block(32768, 5000, false), Block(37800, 3128, true),
                             Block(4228, 3932, false)], {1, 8, 9});
            var s4 := State([Block(4096, 100, true), Block(32768, 5000, false), Block(37800, 3128, true),
                             Block(4228, 3932, false)], {1, 8, 9});
            var s5 := State([Block(4096, 100, true), Block(32768, 5000, false), Block(37800, 3128, true),
                             Block(4228, 3932, true)], {1, 8, 9});
            Step(s3, Free(4128), s4) && Step(s4, Free(4260), s5)
  {
    FreeBoth();
  }

  lemma FreeBoth()
    ensures var b3 := [Block(4096, 100, false), Block(32768, 5000, false), Block(37800, 3128, true),
                       Block(4228, 3932, false)];
            var b4 := [Block(4096, 100, true), Block(32768, 5000, false), Block(37800, 3128, true),
                       Block(4228, 3932, false)];
            && LiveAt(b3, 0, 4128) && Release(b3, 0) == b4
            && LiveAt(b4, 3, 4260)
            && Release(b4, 3) == [Block(4096, 100, true), Block(32768, 5000, false), Block(37800, 3128, true),
                                  Block(4228, 3932, true)]
  {
  }
}
