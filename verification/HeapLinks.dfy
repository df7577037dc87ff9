/** The doubly linked list of block headers in memory, and the list of blocks it
    stands for. Address 0 is the null pointer. */
module HeapLinks {
  import opened HeapSpec

  datatype Header = Header(prev: nat, next: nat, free: bool, bytes: nat)

  /** The headers in memory, by address. Headers that left the list stay in
      memory; nothing is said about them. */
  type Memory = map<nat, Header>

  /** The i-th address of a chain, null outside it. */
  function At(chain: seq<nat>, i: int): nat {
    if 0 <= i < |chain| then chain[i] else 0
  }

  ghost predicate Distinct(chain: seq<nat>) {
    forall i, j :: 0 <= i < j < |chain| ==> chain[i] != chain[j]
  }

  ghost predicate InMemory(mem: Memory, chain: seq<nat>) {
    forall i :: 0 <= i < |chain| ==> chain[i] in mem
  }

  ghost predicate NodeOk(mem: Memory, chain: seq<nat>, i: nat)
    requires i < |chain| && InMemory(mem, chain)
  {
    && chain[i] != 0
    && mem[chain[i]].next == At(chain, i + 1)
    && mem[chain[i]].prev == At(chain, i - 1)
  }

  /** The headers of `chain` form a doubly linked list that starts at `first`:
      acyclic, ended by null on both sides, `next` and `prev` inverse to each
      other. */
  ghost predicate Linked(mem: Memory, first: nat, chain: seq<nat>) {
    && |chain| > 0 && chain[0] == first && Distinct(chain) && InMemory(mem, chain)
    && forall i: nat :: i < |chain| ==> NodeOk(mem, chain, i)
  }

  ghost function BlockAt(mem: Memory, a: nat): Block
    requires a in mem
  {
    Block(a, mem[a].bytes, mem[a].free)
  }

  ghost function BlocksOf(mem: Memory, chain: seq<nat>): (bs: seq<Block>)
    requires InMemory(mem, chain)
    ensures |bs| == |chain|
    ensures forall i :: 0 <= i < |bs| ==> bs[i] == BlockAt(mem, chain[i])
  {
    seq(|chain|, i requires 0 <= i < |chain| => BlockAt(mem, chain[i]))
  }

  /** The list as blocks; defined for a linked list. */
  ghost function Blocks(mem: Memory, first: nat, chain: seq<nat>): (bs: seq<Block>)
    requires Linked(mem, first, chain)
    ensures |bs| == |chain| > 0
    ensures forall i :: 0 <= i < |bs| ==> bs[i] == BlockAt(mem, chain[i])
  {
    BlocksOf(mem, chain)
  }

  ghost predicate SameLinks(h: Header, h': Header) {
    h'.prev == h.prev && h'.next == h.next
  }

  /** Changing sizes and flags only keeps the list. */
  lemma KeepLinks(mem: Memory, mem': Memory, first: nat, chain: seq<nat>)
    requires Linked(mem, first, chain)
    requires forall i :: 0 <= i < |chain| ==> chain[i] in mem' && SameLinks(mem[chain[i]], mem'[chain[i]])
    ensures Linked(mem', first, chain)
  {
    forall i: nat | i < |chain|
      ensures NodeOk(mem', chain, i)
    {
      assert NodeOk(mem, chain, i);
    }
  }

  ghost function Insert(chain: seq<nat>, i: nat, x: nat): seq<nat>
    requires i < |chain|
  {
    chain[..i + 1] + [x] + chain[i + 1..]
  }

  /** Linking a new header behind the i-th one. */
  lemma InsertLinks(mem: Memory, mem': Memory, first: nat, chain: seq<nat>, i: nat, x: nat)
    requires Linked(mem, first, chain) && i < |chain| && x != 0 && x !in chain
    requires x in mem' && mem'[x].prev == chain[i] && mem'[x].next == At(chain, i + 1)
    requires forall j :: 0 <= j < |chain| ==> chain[j] in mem'
    requires forall j :: 0 <= j < |chain| ==>
                           mem'[chain[j]].next == if j == i then x else mem[chain[j]].next
    requires forall j :: 0 <= j < |chain| ==>
                           mem'[chain[j]].prev == if j == i + 1 then x else mem[chain[j]].prev
    ensures Linked(mem', first, Insert(chain, i, x))
  {
    var chain' := Insert(chain, i, x);
    forall j: nat | j < |chain'|
      ensures NodeOk(mem', chain', j)
    {
      if j != i + 1 {
        var j' := if j <= i then j else j - 1;
        assert NodeOk(mem, chain, j') && chain'[j] == chain[j'];
      }
    }
  }

  ghost function Remove(chain: seq<nat>, i: nat): seq<nat>
    requires i < |chain|
  {
    chain[..i] + chain[i + 1..]
  }

  /** Unlinking the header behind the i-th one. */
  lemma RemoveLinks(mem: Memory, mem': Memory, first: nat, chain: seq<nat>, i: nat)
    requires Linked(mem, first, chain) && i + 1 < |chain|
    requires forall j :: 0 <= j < |chain| && j != i + 1 ==> chain[j] in mem'
    requires forall j :: 0 <= j < |chain| && j != i + 1 ==>
                           mem'[chain[j]].next == if j == i then At(chain, i + 2) else mem[chain[j]].next
    requires forall j :: 0 <= j < |chain| && j != i + 1 ==>
                           mem'[chain[j]].prev == if j == i + 2 then chain[i] else mem[chain[j]].prev
    ensures Linked(mem', first, Remove(chain, i + 1))
  {
    var chain' := Remove(chain, i + 1);
    forall j: nat | j < |chain'|
      ensures NodeOk(mem', chain', j)
    {
      var j' := if j <= i then j else j + 1;
      assert NodeOk(mem, chain, j') && chain'[j] == chain[j'];
    }
  }

  /** An address has one place in a linked list. */
  lemma PlaceInChain(mem: Memory, first: nat, chain: seq<nat>, i: nat)
    requires Linked(mem, first, chain) && i < |chain|
    ensures NodeOk(mem, chain, i)
    ensures i + 1 < |chain| ==> NodeOk(mem, chain, i + 1)
    ensures i > 0 ==> NodeOk(mem, chain, i - 1)
  {
  }

  // ---- The header writes of each operation ----

  /** The header at `a`, if it is not in the log `w`, is the same in both
      memories. */
  ghost predicate Unwritten(mem: Memory, mem': Memory, w: set<nat>, a: nat) {
    a in w || ((a in mem <==> a in mem') && (a in mem ==> mem'[a] == mem[a]))
  }

  /** Between `mem` and `mem'`, with the log of written headers grown from `w` to
      `w'`, no header outside the log appeared, vanished or changed. */
  ghost predicate Kept(mem: Memory, mem': Memory, w: set<nat>, w': set<nat>) {
    w <= w' && forall a {:trigger Unwritten(mem, mem', w', a)} :: Unwritten(mem, mem', w', a)
  }

  lemma KeptTwice(m0: Memory, m1: Memory, m2: Memory, w0: set<nat>, w1: set<nat>, w2: set<nat>)
    requires Kept(m0, m1, w0, w1) && Kept(m1, m2, w1, w2)
    ensures Kept(m0, m2, w0, w2)
  {
    forall a: nat
      ensures Unwritten(m0, m2, w2, a)
    {
      assert Unwritten(m0, m1, w1, a) && Unwritten(m1, m2, w2, a);
    }
  }

  ghost predicate Untouched(mem: Memory, mem': Memory, touched: set<nat>) {
    forall a :: a in mem && a !in touched ==> a in mem' && mem'[a] == mem[a]
  }

  /** The headers after `block` was cut behind `bytes` bytes of payload. */
  ghost predicate SplitWrites(mem: Memory, mem': Memory, block: nat, bytes: nat, newBlock: nat) {
    && block in mem && block in mem' && newBlock in mem' && mem[block].bytes >= bytes + 32
    && var next := mem[block].next;
    && mem'[block] == Header(mem[block].prev, newBlock, false, bytes)
    && mem'[newBlock] == Header(block, next, true, mem[block].bytes - bytes - 32)
    && (next != 0 && next in mem ==>
          next in mem' && mem'[next] == Header(newBlock, mem[next].next, mem[next].free, mem[next].bytes))
    && Untouched(mem, mem', {block, newBlock, next})
  }

  lemma SplitLinks(mem: Memory, mem': Memory, first: nat, chain: seq<nat>, i: nat, bytes: nat)
    requires Linked(mem, first, chain) && i < |chain|
    requires mem[chain[i]].bytes > bytes + 32 && chain[i] + 32 + bytes !in chain
    requires SplitWrites(mem, mem', chain[i], bytes, chain[i] + 32 + bytes)
    ensures Linked(mem', first, Insert(chain, i, chain[i] + 32 + bytes))
    ensures Blocks(mem', first, Insert(chain, i, chain[i] + 32 + bytes)) == Carve(Blocks(mem, first, chain), i, bytes)
  {
    var x := chain[i] + 32 + bytes;
    InsertElsewhere(mem, mem', first, chain, i, x);
    InsertLinks(mem, mem', first, chain, i, x);
    InsertBlocks(mem, mem', first, chain, i, x);
  }

  /** An insertion behind the header at `i` touches that header, the next one
      and the new one. */
  lemma InsertElsewhere(mem: Memory, mem': Memory, first: nat, chain: seq<nat>, i: nat, x: nat)
    requires Linked(mem, first, chain) && i < |chain| && x !in chain
    requires Untouched(mem, mem', {chain[i], x, mem[chain[i]].next})
    ensures mem[chain[i]].next == At(chain, i + 1) && (i + 1 < |chain| ==> chain[i + 1] != 0)
    ensures forall j :: 0 <= j < |chain| && j != i && j != i + 1 ==> chain[j] in mem' && mem'[chain[j]] == mem[chain[j]]
  {
    assert NodeOk(mem, chain, i) && (i + 1 < |chain| ==> NodeOk(mem, chain, i + 1));
    forall j: nat | j < |chain| && j != i && j != i + 1
      ensures chain[j] in mem' && mem'[chain[j]] == mem[chain[j]]
    {
      assert NodeOk(mem, chain, j);
    }
  }

  /** The blocks after an insertion that left the other sizes and flags alone. */
  lemma InsertBlocks(mem: Memory, mem': Memory, first: nat, chain: seq<nat>, i: nat, x: nat)
    requires Linked(mem, first, chain) && i < |chain| && Linked(mem', first, Insert(chain, i, x))
    requires forall j :: 0 <= j < |chain| && j != i ==>
                           chain[j] in mem' && BlockAt(mem', chain[j]) == BlockAt(mem, chain[j])
    ensures var bs, bs' := Blocks(mem, first, chain), Blocks(mem', first, Insert(chain, i, x));
            chain[i] in mem' && x in mem' &&
            bs' == bs[..i] + [BlockAt(mem', chain[i]), BlockAt(mem', x)] + bs[i + 1..]
  {
    var chain' := Insert(chain, i, x);
    assert chain'[i] == chain[i] && chain'[i + 1] == x;
    assert forall j :: i + 1 < j < |chain'| ==> chain'[j] == chain[j - 1];
  }

  /** The headers after a block of `bytes` bytes was linked at `x`, behind the
      block at `after`. */
  ghost predicate GrowWrites(mem: Memory, mem': Memory, after: nat, x: nat, bytes: nat) {
    && after in mem && after in mem' && x in mem'
    && var next := mem[after].next;
    && mem'[x] == Header(after, next, true, bytes)
    && mem'[after] == Header(mem[after].prev, x, mem[after].free, mem[after].bytes)
    && (next != 0 && next in mem ==>
          next in mem' && mem'[next] == Header(x, mem[next].next, mem[next].free, mem[next].bytes))
    && Untouched(mem, mem', {after, x, next})
  }

  lemma GrowLinks(mem: Memory, mem': Memory, first: nat, chain: seq<nat>, i: nat, x: nat, bytes: nat)
    requires Linked(mem, first, chain) && i < |chain| && x != 0 && x !in chain
    requires GrowWrites(mem, mem', chain[i], x, bytes)
    ensures Linked(mem', first, Insert(chain, i, x))
    ensures var bs := Blocks(mem, first, chain);
            Blocks(mem', first, Insert(chain, i, x)) == bs[..i + 1] + [Block(x, bytes, true)] + bs[i + 1..]
  {
    InsertElsewhere(mem, mem', first, chain, i, x);
    InsertLinks(mem, mem', first, chain, i, x);
    InsertBlocks(mem, mem', first, chain, i, x);
  }

  /** The headers after the block behind `block` was merged into it. The write
      of the back link may go to the null page. */
  ghost predicate MergeWrites(mem: Memory, mem': Memory, block: nat) {
    && block in mem && mem[block].next in mem && block in mem'
    && var gone := mem[block].next;
    && var next := mem[gone].next;
    && mem'[block] == Header(mem[block].prev, next, mem[block].free, mem[block].bytes + 32 + mem[gone].bytes)
    && (next != 0 && next in mem ==>
          next in mem' && mem'[next] == Header(block, mem[next].next, mem[next].free, mem[next].bytes))
    && Untouched(mem, mem', {block, next, 0})
  }

  /** A merge touches the header at `i`, the links behind it and nothing else. */
  lemma MergeElsewhere(mem: Memory, mem': Memory, first: nat, chain: seq<nat>, i: nat)
    requires Linked(mem, first, chain) && i + 1 < |chain|
    requires MergeWrites(mem, mem', chain[i])
    ensures forall j :: 0 <= j < |chain| && j != i && j != i + 2 ==> chain[j] in mem' && mem'[chain[j]] == mem[chain[j]]
    ensures mem[chain[i]].next == chain[i + 1] && mem[chain[i + 1]].next == At(chain, i + 2)
    ensures i + 2 < |chain| ==> chain[i + 2] != 0
  {
    assert NodeOk(mem, chain, i) && NodeOk(mem, chain, i + 1);
    assert i + 2 < |chain| ==> NodeOk(mem, chain, i + 2);
    forall j: nat | j < |chain| && j != i && j != i + 2
      ensures chain[j] in mem' && mem'[chain[j]] == mem[chain[j]]
    {
      assert NodeOk(mem, chain, j);
    }
  }

  lemma MergeLinks(mem: Memory, mem': Memory, first: nat, chain: seq<nat>, i: nat)
    requires Linked(mem, first, chain) && i + 1 < |chain|
    requires MergeWrites(mem, mem', chain[i])
    ensures Linked(mem', first, Remove(chain, i + 1))
    ensures Blocks(mem', first, Remove(chain, i + 1)) == MergeNext(Blocks(mem, first, chain), i)
  {
    MergeElsewhere(mem, mem', first, chain, i);
    RemoveLinks(mem, mem', first, chain, i);
    MergeBlocks(mem, mem', first, chain, i);
  }

  lemma MergeBlocks(mem: Memory, mem': Memory, first: nat, chain: seq<nat>, i: nat)
    requires Linked(mem, first, chain) && i + 1 < |chain|
    requires MergeWrites(mem, mem', chain[i])
    requires Linked(mem', first, Remove(chain, i + 1))
    ensures Blocks(mem', first, Remove(chain, i + 1)) == MergeNext(Blocks(mem, first, chain), i)
  {
    MergeElsewhere(mem, mem', first, chain, i);
    var bs, bs' := Blocks(mem, first, chain), Blocks(mem', first, Remove(chain, i + 1));
    forall j | 0 <= j < |bs'|
      ensures bs'[j] == MergeNext(bs, i)[j]
    {
      var j' := if j <= i then j else j + 1;
      assert Remove(chain, i + 1)[j] == chain[j'];
    }
  }

  /** Changing the flag of block `i` only. */
  lemma FlagLinks(mem: Memory, mem': Memory, first: nat, chain: seq<nat>, i: nat, free: bool)
    requires Linked(mem, first, chain) && i < |chain|
    requires chain[i] in mem' && Untouched(mem, mem', {chain[i]})
    requires mem'[chain[i]] == Header(mem[chain[i]].prev, mem[chain[i]].next, free, mem[chain[i]].bytes)
    ensures Linked(mem', first, chain)
    ensures var bs := Blocks(mem, first, chain);
            Blocks(mem', first, chain) == bs[i := Block(bs[i].addr, bs[i].bytes, free)]
  {
    KeepLinks(mem, mem', first, chain);
  }
}
