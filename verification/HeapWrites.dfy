/** What the calls of the heap write: the addresses of the list's headers, how
    they lie to the live payloads, and what an allocation hands out. */
module HeapWrites {
  import opened HeapSpec
  import opened HeapLaws
  import opened HeapLinks

  /** The pointer of an allocation is the payload of the block that fitted. */
  lemma AllocatedLive(s: State, n: nat, ptr: nat, s': State)
    requires Inv(s.blocks, s.pages) && FirstFit(s.blocks, n) < |s.blocks|
    requires Step(s, Call.Malloc(n, 0), s') && Gives(s.blocks, s'.blocks, ptr, n)
    ensures LiveAt(s'.blocks, FirstFit(s.blocks, n), ptr) && ptr == Payload(s.blocks[FirstFit(s.blocks, n)])
  {
    var i := FirstFit(s.blocks, n);
    CarveUsed(s.blocks, i, n);
    var b :| b !in Used(s.blocks) && Used(s'.blocks) == Used(s.blocks) + {b} && Payload(b) == ptr;
    assert b in Used(s'.blocks);
  }

  lemma ReleasedSame(s: State, n: nat, ptr: nat, s': State, s'': State)
    requires Inv(s.blocks, s.pages) && FirstFit(s.blocks, n) < |s.blocks| && |s'.blocks| > 0
    requires Step(s, Call.Malloc(n, 0), s') && Gives(s.blocks, s'.blocks, ptr, n)
    requires Step(s', Call.Free(ptr), s'')
    ensures s'' == s
  {
    AllocatedLive(s, n, ptr, s');
    FreeUndoesMalloc(s, n, 0, s', s'');
  }

  /** A linked list of the same blocks has the same headers. */
  lemma SameHeaders(mem: Memory, mem': Memory, first: nat, chain: seq<nat>, chain': seq<nat>)
    requires Linked(mem, first, chain) && Linked(mem', first, chain')
    requires Blocks(mem, first, chain) == Blocks(mem', first, chain')
    ensures chain == chain' && forall a :: a in chain ==> mem[a] == mem'[a]
  {
    var bs := Blocks(mem, first, chain);
    assert forall i :: 0 <= i < |chain| ==> bs[i] == BlockAt(mem, chain[i]) && bs[i] == BlockAt(mem', chain'[i]);
    forall i: nat | i < |chain|
      ensures mem[chain[i]] == mem'[chain[i]]
    {
      assert NodeOk(mem, chain, i) && NodeOk(mem', chain', i);
    }
  }

  lemma UsedStep(mem: Memory, first: nat, chain: seq<nat>, k: nat)
    requires Linked(mem, first, chain) && k < |chain|
    ensures var bs := Blocks(mem, first, chain);
            |Used(bs[..k + 1])| == |Used(bs[..k])| + if bs[k].free then 0 else 1
  {
    var bs := Blocks(mem, first, chain);
    forall j | 0 <= j < k
      ensures bs[j] != bs[k]
    {
      assert bs[j].addr == chain[j] && bs[k].addr == chain[k];
    }
    UsedAppend(bs[..k], bs[k]);
    assert bs[..k + 1] == bs[..k] + [bs[k]];
  }

  lemma UsedAppend(bs: seq<Block>, b: Block)
    requires b !in bs
    ensures |Used(bs + [b])| == |Used(bs)| + if b.free then 0 else 1
  {
    assert Used(bs + [b]) == Used(bs) + if b.free then {} else {b};
  }

  /** One new live block, at `ptr`, of at least `n` bytes. */
  ghost predicate Gives(bs: seq<Block>, bs': seq<Block>, ptr: nat, n: nat) {
    exists b :: b !in Used(bs) && Used(bs') == Used(bs) + {b} && Payload(b) == ptr && n <= b.bytes <= n + 32
  }

  /** What the second search finds after growth. */
  lemma GrownTaken(bs: seq<Block>, n: nat, base: nat)
    requires |bs| > 0 && FirstFit(bs, n) == |bs|
    ensures var g := Grow(bs, base, PagesFor(n));
            var i := FirstFit(g, n);
            && (i == |g| <==> n % 4096 > 4064)
            && (i < |g| ==> Payload(g[i]) == base + 32 && Carve(g, i, n) == Grown(bs, n, base))
  {
    GrowthChoice(bs, n, base);
  }

  /** No header of the list lies in a live payload or outside the pages. */
  ghost predicate AllClear(bs: seq<Block>, pages: set<nat>) {
    && (forall w, b :: w in Addresses(bs) && b in Used(bs) ==> ClearOf(w, b))
    && (forall w :: w in Addresses(bs) ==> HeaderOwned(pages, w))
  }

  lemma ClearEverywhere(bs: seq<Block>, pages: set<nat>)
    requires Inv(bs, pages)
    ensures AllClear(bs, pages)
  {
    forall w | w in Addresses(bs)
      ensures HeaderOwned(pages, w)
    {
      HeaderInPages(bs, pages, w);
    }
    forall w, b | w in Addresses(bs) && b in Used(bs)
      ensures ClearOf(w, b)
    {
      var j :| 0 <= j < |bs| && bs[j].addr == w;
      assert bs[j] in bs;
      HeadersClear(bs, pages, w, b);
    }
  }

  /** The addresses written by a release are headers of the list it started
      from. */
  lemma ReleaseAddresses(bs: seq<Block>, i: nat)
    requires i < |bs|
    ensures bs[i].addr in Addresses(bs)
    ensures Addresses(MarkFree(bs, i)) == Addresses(bs)
    ensures Addresses(MergeForward(MarkFree(bs, i), i)) <= Addresses(bs)
  {
    var m := MarkFree(bs, i);
    var f := MergeForward(m, i);
    assert forall j :: 0 <= j < |bs| ==> m[j].addr == bs[j].addr;
    forall a | a in Addresses(bs)
      ensures a in Addresses(m)
    {
      var j :| 0 <= j < |bs| && bs[j].addr == a;
      assert m[j].addr == a;
    }
    forall a | a in Addresses(f)
      ensures a in Addresses(bs)
    {
      var j :| 0 <= j < |f| && f[j].addr == a;
      assert bs[if |f| == |bs| || j <= i then j else j + 1].addr == a;
    }
  }

  lemma ReleaseWritesNull(bs: seq<Block>, i: nat)
    requires i < |bs|
    ensures var f := MergeForward(MarkFree(bs, i), i);
            && i < |f|
            && (i + 1 == |f| && MergeBackward(f, i) != f <==> WritesNull(bs, i))
  {
  }

  /** A header written by a release lies outside every payload that stays live. */
  lemma ReleaseClear(bs: seq<Block>, pages: set<nat>, i: nat, w: nat, b: Block)
    requires Inv(bs, pages) && i < |bs| && !bs[i].free
    requires w == 0 || w in Addresses(bs)
    requires b in Used(Release(bs, i))
    ensures ClearOf(w, b)
  {
    ReleaseUsed(bs, i);
    if w != 0 {
      var j :| 0 <= j < |bs| && bs[j].addr == w;
      assert bs[j] in bs;
    }
    HeadersClear(bs, pages, w, b);
  }

  lemma ReleaseWritesClear(bs: seq<Block>, pages: set<nat>, i: nat, written: set<nat>)
    requires Inv(bs, pages) && i < |bs| && !bs[i].free
    requires written <= Addresses(bs) + {0}
    ensures forall w, b :: w in written && b in Used(Release(bs, i)) ==> ClearOf(w, b)
    ensures forall w :: w in written ==> w == 0 || HeaderOwned(pages, w)
  {
    forall w, b | w in written && b in Used(Release(bs, i))
      ensures ClearOf(w, b)
    {
      ReleaseClear(bs, pages, i, w, b);
    }
    forall w | w in written && w != 0
      ensures HeaderOwned(pages, w)
    {
      HeaderInPages(bs, pages, w);
    }
  }

  /** All 32 bytes of the header at `w` lie in the pages. */
  ghost predicate HeaderOwned(pages: set<nat>, w: nat) {
    forall x: nat :: w <= x < w + 32 ==> Owned(pages, x)
  }

  lemma HeaderInPages(bs: seq<Block>, pages: set<nat>, w: nat)
    requires Tiled(bs, pages) && w in Addresses(bs)
    ensures HeaderOwned(pages, w)
  {
  }

  /** A pointer is the payload of at most one block. */
  lemma LiveOnce(mem: Memory, first: nat, chain: seq<nat>, i: nat, ptr: nat)
    requires Linked(mem, first, chain) && LiveAt(Blocks(mem, first, chain), i, ptr)
    ensures forall j: nat :: LiveAt(Blocks(mem, first, chain), j, ptr) ==> j == i
  {
  }

  lemma InsertAfterIs(bs: seq<Block>, addr: nat, i: nat)
    requires i < |bs|
    requires i + 1 < |bs| ==> bs[i].addr < addr && bs[i + 1].addr < addr
    requires forall j :: 0 <= j < i ==> !(bs[j].addr < addr && bs[j + 1].addr < addr)
    ensures InsertAfter(bs, addr) == i
  {
  }

  /** The addresses of the headers of a list. */
  ghost function Addresses(bs: seq<Block>): set<nat> {
    set i | 0 <= i < |bs| :: bs[i].addr
  }

  lemma CarveAddresses(bs: seq<Block>, i: nat, n: nat)
    requires i < |bs| && bs[i].bytes >= n
    ensures Addresses(bs) <= Addresses(Carve(bs, i, n))
  {
    var c := Carve(bs, i, n);
    forall a | a in Addresses(bs)
      ensures a in Addresses(c)
    {
      var j :| 0 <= j < |bs| && bs[j].addr == a;
      assert c[if |c| == |bs| || j <= i then j else j + 1].addr == a;
    }
  }

  lemma WrittenCarved(bs: seq<Block>, i: nat, n: nat, w: set<nat>, w': set<nat>)
    requires i < |bs| && bs[i].bytes >= n
    requires w <= Addresses(bs) && w' <= w + Addresses(Carve(bs, i, n))
    ensures w' <= Addresses(Carve(bs, i, n))
  {
    CarveAddresses(bs, i, n);
  }

  /** The address of a header on the chain is one of the list, and not null. */
  lemma AddressInList(mem: Memory, first: nat, chain: seq<nat>, i: int)
    requires Linked(mem, first, chain)
    ensures 0 <= i < |chain| ==> chain[i] in Addresses(Blocks(mem, first, chain)) && chain[i] != 0
  {
    if 0 <= i < |chain| {
      assert NodeOk(mem, chain, i);
      assert Blocks(mem, first, chain)[i].addr == chain[i];
    }
  }

  lemma NullNotInList(mem: Memory, first: nat, chain: seq<nat>)
    requires Linked(mem, first, chain)
    ensures 0 !in Addresses(Blocks(mem, first, chain))
  {
    var bs := Blocks(mem, first, chain);
    forall i: nat | i < |bs|
      ensures bs[i].addr != 0
    {
      assert NodeOk(mem, chain, i);
    }
  }

  /** Header `i`, one inserted behind it and the one that came next are in the
      list afterwards. */
  lemma InsertedInList(mem: Memory, first: nat, chain: seq<nat>, i: nat, x: nat)
    requires i < |chain| && Linked(mem, first, Insert(chain, i, x))
    ensures var found := Addresses(Blocks(mem, first, Insert(chain, i, x)));
            chain[i] in found && x in found && (i + 1 < |chain| ==> chain[i + 1] in found)
  {
    var c := Insert(chain, i, x);
    assert c[i] == chain[i] && c[i + 1] == x && (i + 1 < |chain| ==> c[i + 2] == chain[i + 1]);
    AddressInList(mem, first, c, i);
    AddressInList(mem, first, c, i + 1);
    AddressInList(mem, first, c, i + 2);
  }

  /** An address inside a block is the address of no other header. */
  lemma NotAHeader(mem: Memory, first: nat, chain: seq<nat>, i: nat, x: nat)
    requires Linked(mem, first, chain) && i < |chain|
    requires var bs := Blocks(mem, first, chain); Apart(bs) && bs[i].addr < x < End(bs[i])
    ensures x !in chain
  {
    var bs := Blocks(mem, first, chain);
    forall j | 0 <= j < |chain|
      ensures chain[j] != x
    {
      assert bs[j].addr == chain[j];
      assert j < i ==> Disjoint(bs[j], bs[i]);
      assert i < j ==> Disjoint(bs[i], bs[j]);
    }
  }
}
