/** The heap as a list of blocks: first fit with splitting, growth, release with
    forward and backward merging, and what every one of these keeps. */
module HeapSpec {
  import opened Machine
  import opened FrameSpec

  /** A block: the address of its header, the size of its payload, its flag. */
  datatype Block = Block(addr: nat, bytes: nat, free: bool)

  /** Where a block ends: a header of 32 bytes and the payload. */
  function End(b: Block): nat { b.addr + 32 + b.bytes }

  function Payload(b: Block): nat { b.addr + 32 }

  predicate Contiguous(a: Block, b: Block) { End(a) == b.addr }

  // ---- What holds of every reachable heap ----

  ghost predicate Disjoint(a: Block, b: Block) {
    End(a) <= b.addr || End(b) <= a.addr
  }

  ghost predicate Apart(bs: seq<Block>) {
    forall i, j {:trigger Disjoint(bs[i], bs[j])} :: 0 <= i < j < |bs| ==> Disjoint(bs[i], bs[j])
  }

  ghost predicate Inside(b: Block, x: nat) {
    b.addr <= x < End(b)
  }

  ghost predicate Covered(bs: seq<Block>, x: nat) {
    exists i :: 0 <= i < |bs| && Inside(bs[i], x)
  }

  ghost predicate Owned(pages: set<nat>, x: nat) {
    PtrToFrame(x) in pages
  }

  /** The extents of the blocks do not overlap and fill the pages exactly. */
  ghost predicate Tiled(bs: seq<Block>, pages: set<nat>) {
    Apart(bs) && forall x: nat :: Covered(bs, x) <==> Owned(pages, x)
  }

  ghost predicate CoalescedAt(bs: seq<Block>, i: nat)
    requires i + 1 < |bs|
  {
    !(bs[i].free && bs[i + 1].free && Contiguous(bs[i], bs[i + 1]))
  }

  /** No two neighbours of the list that touch in memory are both free. */
  ghost predicate Coalesced(bs: seq<Block>) {
    forall i: nat :: i + 1 < |bs| ==> CoalescedAt(bs, i)
  }

  ghost function TotalSize(bs: seq<Block>): nat {
    if bs == [] then 0 else TotalSize(bs[..|bs| - 1]) + 32 + bs[|bs| - 1].bytes
  }

  ghost predicate NonEmptyBlocks(bs: seq<Block>) {
    forall i :: 0 <= i < |bs| ==> bs[i].bytes > 0
  }

  ghost predicate Inv(bs: seq<Block>, pages: set<nat>) {
    && |bs| > 0 && 0 !in pages && NonEmptyBlocks(bs)
    && Tiled(bs, pages) && Coalesced(bs)
    && TotalSize(bs) == 4096 * |pages|
  }

  /** The allocations that are live. */
  ghost function Used(bs: seq<Block>): set<Block> {
    set b | b in bs && !b.free
  }

  // ---- The operations ----

  predicate Fits(b: Block, n: nat) { b.free && b.bytes >= n }

  /** Some free block has at least `n` bytes. */
  ghost predicate HasRoom(bs: seq<Block>, n: nat) {
    exists i :: 0 <= i < |bs| && bs[i].free && n <= bs[i].bytes
  }

  /** The index of the first free block of at least `n` bytes, or the length. */
  ghost function FirstFit(bs: seq<Block>, n: nat): (i: nat)
    ensures i <= |bs|
    ensures i < |bs| ==> bs[i].free && n <= bs[i].bytes
    ensures forall j :: 0 <= j < i && bs[j].free ==> bs[j].bytes < n
  {
    if bs == [] || Fits(bs[0], n) then 0 else 1 + FirstFit(bs[1..], n)
  }

  /** Take `n` bytes of block `i`, splitting it when more than a header's worth
      is left over. */
  ghost function Carve(bs: seq<Block>, i: nat, n: nat): seq<Block>
    requires i < |bs| && bs[i].bytes >= n
  {
    var b := bs[i];
    if b.bytes - n <= 32 then bs[i := Block(b.addr, b.bytes, false)]
    else bs[..i] + [Block(b.addr, n, false), Block(b.addr + 32 + n, b.bytes - n - 32, true)] + bs[i + 1..]
  }

  function PagesFor(n: nat): nat { n / 4096 + 1 }

  /** Where growth inserts a block at `addr`: after the first block that is the
      last one, or that lies, with its successor, below `addr`. */
  ghost function InsertAfter(bs: seq<Block>, addr: nat): (i: nat)
    requires |bs| > 0
    ensures i < |bs|
    ensures i + 1 < |bs| ==> bs[i].addr < addr && bs[i + 1].addr < addr
    ensures forall j :: 0 <= j < i ==> !(bs[j].addr < addr && bs[j + 1].addr < addr)
  {
    if |bs| == 1 || (bs[0].addr < addr && bs[1].addr < addr) then 0
    else 1 + InsertAfter(bs[1..], addr)
  }

  ghost function Grow(bs: seq<Block>, base: nat, count: nat): seq<Block>
    requires |bs| > 0 && count > 0
  {
    var k := InsertAfter(bs, base) + 1;
    bs[..k] + [Block(base, count * 4096 - 32, true)] + bs[k..]
  }

  /** Merge block `i + 1` into block `i`. */
  ghost function MergeNext(bs: seq<Block>, i: nat): seq<Block>
    requires i + 1 < |bs|
  {
    bs[..i] + [Block(bs[i].addr, bs[i].bytes + 32 + bs[i + 1].bytes, bs[i].free)] + bs[i + 2..]
  }

  ghost predicate Mergeable(bs: seq<Block>, i: nat)
    requires i + 1 < |bs|
  {
    bs[i + 1].free && Contiguous(bs[i], bs[i + 1])
  }

  ghost function MarkFree(bs: seq<Block>, i: nat): seq<Block>
    requires i < |bs|
  {
    bs[i := Block(bs[i].addr, bs[i].bytes, true)]
  }

  ghost function MergeForward(bs: seq<Block>, i: nat): seq<Block>
    requires i < |bs|
  {
    if i + 1 < |bs| && Mergeable(bs, i) then MergeNext(bs, i) else bs
  }

  ghost function MergeBackward(bs: seq<Block>, i: nat): seq<Block>
    requires i < |bs|
  {
    if i > 0 && bs[i - 1].free && Contiguous(bs[i - 1], bs[i]) then MergeNext(bs, i - 1) else bs
  }

  ghost function Release(bs: seq<Block>, i: nat): seq<Block>
    requires i < |bs|
  {
    MergeBackward(MergeForward(MarkFree(bs, i), i), i)
  }

  // ---- Tiling ----

  lemma {:induction false} TotalSizeConcat(a: seq<Block>, b: seq<Block>)
    ensures TotalSize(a + b) == TotalSize(a) + TotalSize(b)
  {
    if b == [] {
      assert a + b == a;
    } else {
      assert (a + b)[..|a + b| - 1] == a + b[..|b| - 1];
      TotalSizeConcat(a, b[..|b| - 1]);
    }
  }

  /** `b` with its extent cut in two. */
  ghost predicate CutInTwo(b: Block, b1: Block, b2: Block) {
    b1.addr == b.addr && Contiguous(b1, b2) && End(b2) == End(b)
  }

  /** The blocks before and after replacing one block by its two halves. */
  ghost predicate SplitAt(whole: seq<Block>, i: nat, halves: seq<Block>) {
    && i < |whole| && |halves| == |whole| + 1
    && CutInTwo(whole[i], halves[i], halves[i + 1])
    && (forall j :: 0 <= j < i ==> halves[j] == whole[j])
    && (forall j :: i < j < |whole| ==> halves[j + 1] == whole[j])
  }

  lemma SplitApart(whole: seq<Block>, i: nat, halves: seq<Block>)
    requires SplitAt(whole, i, halves)
    ensures Apart(whole) <==> Apart(halves)
  {
    if Apart(whole) {
      forall p, q | 0 <= p < q < |halves|
        ensures Disjoint(halves[p], halves[q])
      {
        var p', q' := if p <= i then p else p - 1, if q <= i then q else q - 1;
        assert p' < q' ==> Disjoint(whole[p'], whole[q']);
      }
    }
    if Apart(halves) {
      forall p, q | 0 <= p < q < |whole|
        ensures Disjoint(whole[p], whole[q])
      {
        var p', q' := if p <= i then p else p + 1, if q <= i then q else q + 1;
        assert Disjoint(halves[p'], halves[q']);
        assert p == i ==> Disjoint(halves[i + 1], halves[q']);
        assert q == i ==> Disjoint(halves[p'], halves[i + 1]);
      }
    }
  }

  lemma SplitCovered(whole: seq<Block>, i: nat, halves: seq<Block>, x: nat)
    requires SplitAt(whole, i, halves)
    ensures Covered(whole, x) <==> Covered(halves, x)
  {
    if Covered(whole, x) {
      var p :| 0 <= p < |whole| && Inside(whole[p], x);
      assert Inside(halves[if p <= i then p else p + 1], x) || Inside(halves[i + 1], x);
    }
    if Covered(halves, x) {
      var p :| 0 <= p < |halves| && Inside(halves[p], x);
      assert Inside(whole[if p <= i then p else p - 1], x);
    }
  }

  /** Cutting a block in two, or joining two that touch, keeps the tiling and
      the total size. */
  lemma SplitTiled(whole: seq<Block>, i: nat, halves: seq<Block>, pages: set<nat>)
    requires SplitAt(whole, i, halves)
    ensures Tiled(whole, pages) <==> Tiled(halves, pages)
    ensures TotalSize(whole) == TotalSize(halves)
  {
    SplitApart(whole, i, halves);
    forall x: nat
      ensures Covered(whole, x) <==> Covered(halves, x)
    {
      SplitCovered(whole, i, halves, x);
    }
    SplitTotal(whole, i, halves);
  }

  lemma TotalParts(a: seq<Block>, mid: seq<Block>, c: seq<Block>)
    ensures TotalSize(a + mid + c) == TotalSize(a) + TotalSize(mid) + TotalSize(c)
  {
    TotalSizeConcat(a + mid, c);
    TotalSizeConcat(a, mid);
  }

  lemma TotalFew(b: Block, c: Block)
    ensures TotalSize([b]) == 32 + b.bytes
    ensures TotalSize([b, c]) == 64 + b.bytes + c.bytes
  {
  }

  lemma SplitTotal(whole: seq<Block>, i: nat, halves: seq<Block>)
    requires SplitAt(whole, i, halves)
    ensures TotalSize(whole) == TotalSize(halves)
  {
    var pre, post := whole[..i], whole[i + 1..];
    assert whole == pre + [whole[i]] + post;
    assert halves == pre + [halves[i], halves[i + 1]] + post;
    TotalParts(pre, [whole[i]], post);
    TotalParts(pre, [halves[i], halves[i + 1]], post);
    TotalFew(whole[i], whole[i]);
    TotalFew(halves[i], halves[i + 1]);
  }

  ghost predicate SameExtents(bs: seq<Block>, bs': seq<Block>) {
    |bs'| == |bs| && forall i :: 0 <= i < |bs| ==> bs'[i].addr == bs[i].addr && bs'[i].bytes == bs[i].bytes
  }

  lemma {:induction false} SameTotalSize(bs: seq<Block>, bs': seq<Block>)
    requires SameExtents(bs, bs')
    ensures TotalSize(bs') == TotalSize(bs)
  {
    if bs != [] {
      SameTotalSize(bs[..|bs| - 1], bs'[..|bs| - 1]);
    }
  }

  lemma SameCovered(bs: seq<Block>, bs': seq<Block>, x: nat)
    requires SameExtents(bs, bs') && Covered(bs, x)
    ensures Covered(bs', x)
  {
  }

  lemma SameApart(bs: seq<Block>, bs': seq<Block>)
    requires SameExtents(bs, bs') && Apart(bs)
    ensures Apart(bs')
  {
    forall i, j | 0 <= i < j < |bs'|
      ensures Disjoint(bs'[i], bs'[j])
    {
      assert Disjoint(bs[i], bs[j]);
    }
  }

  /** The flags of the blocks have no part in the tiling. */
  lemma SameTiled(bs: seq<Block>, bs': seq<Block>, pages: set<nat>)
    requires SameExtents(bs, bs') && Tiled(bs, pages)
    ensures Tiled(bs', pages)
  {
    SameApart(bs, bs');
    forall x: nat
      ensures Covered(bs', x) <==> Owned(pages, x)
    {
      if Covered(bs', x) {
        SameCovered(bs', bs, x);
      }
      if Covered(bs, x) {
        SameCovered(bs, bs', x);
      }
    }
  }

  /** The blocks after inserting one at index `k`. */
  ghost predicate Inserted(bs: seq<Block>, k: nat, b: Block, bs': seq<Block>) {
    k <= |bs| && bs' == bs[..k] + [b] + bs[k..]
  }

  lemma InsertApart(bs: seq<Block>, k: nat, b: Block, bs': seq<Block>)
    requires Inserted(bs, k, b, bs') && Apart(bs)
    requires forall i :: 0 <= i < |bs| ==> Disjoint(bs[i], b)
    ensures Apart(bs')
  {
  }

  lemma InsertCovered(bs: seq<Block>, k: nat, b: Block, bs': seq<Block>, x: nat)
    requires Inserted(bs, k, b, bs')
    ensures Covered(bs', x) <==> Covered(bs, x) || Inside(b, x)
  {
    if Covered(bs, x) {
      var p :| 0 <= p < |bs| && Inside(bs[p], x);
      assert Inside(bs'[if p < k then p else p + 1], x);
    }
    if Inside(b, x) {
      assert Inside(bs'[k], x);
    }
    if Covered(bs', x) {
      var p :| 0 <= p < |bs'| && Inside(bs'[p], x);
      assert p == k || Inside(bs[if p < k then p else p - 1], x);
    }
  }

  /** A block that lies outside the pages of a heap touches none of its blocks. */
  lemma OutsidePages(bs: seq<Block>, pages: set<nat>, b: Block)
    requires Tiled(bs, pages)
    requires forall x: nat :: Inside(b, x) ==> !Owned(pages, x)
    ensures forall i :: 0 <= i < |bs| ==> Disjoint(bs[i], b)
  {
    forall i | 0 <= i < |bs|
      ensures Disjoint(bs[i], b)
    {
      if !Disjoint(bs[i], b) {
        var x := if bs[i].addr < b.addr then b.addr else bs[i].addr;
        assert Inside(b, x) && Inside(bs[i], x);
        assert Covered(bs, x);
        assert false;
      }
    }
  }

  /** The extent of a block made of whole fresh pages is exactly those pages. */
  lemma RunExtent(base: nat, count: nat, x: nat)
    requires Aligned(base) && count > 0
    ensures Inside(Block(base, count * 4096 - 32, true), x)
            <==> PtrToFrame(x) in Span(PtrToFrame(base), count)
  {
  }

  /** The pages that a run of `count` frames at `base` adds. */
  ghost function RunPages(base: nat, count: nat): set<nat> {
    Span(PtrToFrame(base), count)
  }

  /** Growth by fresh pages keeps the tiling: the new block is those pages. */
  lemma GrowTiled(bs: seq<Block>, pages: set<nat>, base: nat, count: nat)
    requires |bs| > 0 && count > 0 && Aligned(base)
    requires Tiled(bs, pages) && RunPages(base, count) !! pages
    ensures Tiled(Grow(bs, base, count), pages + RunPages(base, count))
    ensures TotalSize(Grow(bs, base, count)) == TotalSize(bs) + 4096 * count
  {
    var b := Block(base, count * 4096 - 32, true);
    var k := InsertAfter(bs, base) + 1;
    var bs' := Grow(bs, base, count);
    forall x: nat
      ensures Inside(b, x) <==> Owned(RunPages(base, count), x)
    {
      RunExtent(base, count, x);
    }
    OutsidePages(bs, pages, b);
    InsertApart(bs, k, b, bs');
    forall x: nat
      ensures Covered(bs', x) <==> Owned(pages + RunPages(base, count), x)
    {
      InsertCovered(bs, k, b, bs', x);
    }
    GrowTotal(bs, base, count);
  }

  lemma InsertTotal(bs: seq<Block>, k: nat, b: Block)
    requires k <= |bs|
    ensures TotalSize(bs[..k] + [b] + bs[k..]) == TotalSize(bs) + 32 + b.bytes
  {
    assert bs == bs[..k] + bs[k..];
    TotalSizeConcat(bs[..k], bs[k..]);
    TotalParts(bs[..k], [b], bs[k..]);
    TotalFew(b, b);
  }

  lemma GrowTotal(bs: seq<Block>, base: nat, count: nat)
    requires |bs| > 0 && count > 0
    ensures TotalSize(Grow(bs, base, count)) == TotalSize(bs) + 4096 * count
  {
    InsertTotal(bs, InsertAfter(bs, base) + 1, Block(base, count * 4096 - 32, true));
  }

  // ---- Carving ----

  /** The extents after carving are those before, with block `i` perhaps cut. */
  lemma CarveTiled(bs: seq<Block>, i: nat, n: nat, pages: set<nat>)
    requires i < |bs| && bs[i].bytes >= n && Tiled(bs, pages)
    ensures Tiled(Carve(bs, i, n), pages)
    ensures TotalSize(Carve(bs, i, n)) == TotalSize(bs)
  {
    CarveExtents(bs, i, n);
    if bs[i].bytes - n <= 32 {
      SameTiled(bs, Carve(bs, i, n), pages);
      SameTotalSize(bs, Carve(bs, i, n));
    } else {
      SplitTiled(bs, i, Carve(bs, i, n), pages);
    }
  }

  lemma CarveExtents(bs: seq<Block>, i: nat, n: nat)
    requires i < |bs| && bs[i].bytes >= n
    ensures if bs[i].bytes - n <= 32 then SameExtents(bs, Carve(bs, i, n)) else SplitAt(bs, i, Carve(bs, i, n))
  {
    var c := Carve(bs, i, n);
    if bs[i].bytes - n > 32 {
      assert c[i] == Block(bs[i].addr, n, false);
      assert forall j :: i < j < |bs| ==> c[j + 1] == bs[j];
    }
  }

  /** Carving block `i` leaves the list coalesced even when block `i` touched a
      free predecessor, because block `i` is no longer free. */
  lemma CarveCoalesced(bs: seq<Block>, i: nat, n: nat)
    requires i < |bs| && bs[i].free && bs[i].bytes >= n
    requires forall j: nat :: j + 1 < |bs| && j + 1 != i ==> CoalescedAt(bs, j)
    ensures Coalesced(Carve(bs, i, n))
  {
    var bs' := Carve(bs, i, n);
    forall j: nat | j + 1 < |bs'|
      ensures CoalescedAt(bs', j)
    {
      if |bs'| == |bs| {
        assert j + 1 != i ==> CoalescedAt(bs, j);
      } else if j < i {
        assert j + 1 != i ==> CoalescedAt(bs, j);
      } else if j > i {
        assert CoalescedAt(bs, j - 1);
      }
    }
  }

  /** Carving adds one live block, at the address of block `i`, of at least the
      requested and at most 32 more bytes, and leaves the other live blocks as
      they are. */
  lemma CarveUsed(bs: seq<Block>, i: nat, n: nat)
    requires i < |bs| && Fits(bs[i], n) && Apart(bs)
    ensures var b := Carve(bs, i, n)[i];
            && b.addr == bs[i].addr && n <= b.bytes <= n + 32 && !b.free
            && b !in Used(bs)
            && Used(Carve(bs, i, n)) == Used(bs) + {b}
  {
    var bs' := Carve(bs, i, n);
    var b := bs'[i];
    forall c | c in Used(bs)
      ensures c in Used(bs') && c != b
    {
      var p :| 0 <= p < |bs| && bs[p] == c;
      assert p != i;
      assert bs'[if p < i || |bs'| == |bs| then p else p + 1] == c;
      assert p < i ==> Disjoint(bs[p], bs[i]);
      assert p > i ==> Disjoint(bs[i], bs[p]);
    }
    forall c | c in Used(bs')
      ensures c in Used(bs) || c == b
    {
      var p :| 0 <= p < |bs'| && bs'[p] == c;
      if p != i {
        assert c == bs[if p < i || |bs'| == |bs| then p else p - 1];
      }
    }
  }
}
