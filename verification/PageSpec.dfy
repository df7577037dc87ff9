/** Four-level page tables as values: entries, the hardware walk of section 4.5
    of the Intel SDM volume 3, and the shape that makes the tree a plain map from
    page numbers to frame numbers. */
module PageSpec {
  import opened Machine

  /** The fields of a table entry the kernel uses. The address field of every
      level is 32 bits wide and holds a frame number. */
  datatype Entry = Entry(present: bool, rw: bool, frame: nat)

  const ENTRIES: nat := 512

  type Table = t: seq<Entry> | |t| == ENTRIES witness seq(ENTRIES, _ => Entry(false, false, 0))

  /** A frame cleared by memset. */
  function ZeroTable(): (t: Table)
    ensures forall i :: 0 <= i < ENTRIES ==> t[i] == Entry(false, false, 0)
  {
    seq(ENTRIES, _ => Entry(false, false, 0))
  }

  /** Pages of the 48-bit address space. */
  const PAGES: nat := 0x10_0000_0000

  /** The top-level table and the memory that holds the other tables, by address. */
  datatype Tree = Tree(pml4: Table, mem: map<nat, Table>)

  // ---- Addresses ----

  function PageOf(vaddr: nat): (page: nat)
    ensures page < PAGES
  {
    PtrToFrame(vaddr) % PAGES
  }

  /** What the 32-bit address field keeps of a physical address. */
  function FrameField(paddr: nat): (f: nat)
    ensures f < U32
    ensures paddr < FrameToPtr(U32) ==> f == PtrToFrame(paddr)
  {
    PtrToFrame(paddr) % U32
  }

  /** How the kernel turns an address field back into a pointer: the shift is
      done in 32 bits, because the field promotes to unsigned int. */
  function SoftPointer(e: Entry): nat {
    FrameToPtr(e.frame) % U32
  }

  /** A table's address survives being stored in an entry and read back exactly
      when the table lies below 4 GiB. */
  lemma TablePointerRoundTrip(addr: nat)
    requires addr < U64 && Aligned(addr)
    ensures SoftPointer(Entry(true, true, FrameField(addr))) == addr <==> addr < U32
  {
  }

  /** A table in the first frame above 4 GiB is looked for at address 0. */
  lemma FirstTableLost()
    ensures SoftPointer(Entry(true, true, FrameField(0x1_0000_0000))) == 0
  {
  }

  /** The four 9-bit indices of a virtual address. */
  datatype Indices = Indices(pml4: nat, pdpt: nat, pd: nat, pt: nat)

  function PageIndexer(vaddr: nat): (x: Indices)
    ensures x.pml4 < ENTRIES && x.pdpt < ENTRIES && x.pd < ENTRIES && x.pt < ENTRIES
  {
    var v := PtrToFrame(vaddr);
    var pt := v % ENTRIES;
    var v := v / ENTRIES;
    var pd := v % ENTRIES;
    var v := v / ENTRIES;
    var pdpt := v % ENTRIES;
    var v := v / ENTRIES;
    Indices(v % ENTRIES, pdpt, pd, pt)
  }

  /** The indices are the page number written in base 512. */
  lemma IndexerDigits(vaddr: nat)
    ensures var x := PageIndexer(vaddr);
            PageOf(vaddr) == ((x.pml4 * 512 + x.pdpt) * 512 + x.pd) * 512 + x.pt
  {
    var v := PtrToFrame(vaddr);
    ModSplit(v, 512, 0x800_0000);
    ModSplit(v / 512, 512, 0x4_0000);
    ModSplit(v / 512 / 512, 512, 512);
  }

  /** Two addresses use the same slot exactly when they lie in the same page. */
  lemma IndexerInjective(v: nat, w: nat)
    ensures PageIndexer(v) == PageIndexer(w) <==> PageOf(v) == PageOf(w)
  {
    IndexerDigits(v);
    IndexerDigits(w);
    var x, y := PageIndexer(v), PageIndexer(w);
    if PageOf(v) == PageOf(w) {
      LastDigit((x.pml4 * 512 + x.pdpt) * 512 + x.pd, x.pt, (y.pml4 * 512 + y.pdpt) * 512 + y.pd, y.pt);
      LastDigit(x.pml4 * 512 + x.pdpt, x.pd, y.pml4 * 512 + y.pdpt, y.pd);
      LastDigit(x.pml4, x.pdpt, y.pml4, y.pdpt);
    }
  }

  lemma LastDigit(a: nat, b: nat, c: nat, d: nat)
    requires a * 512 + b == c * 512 + d && b < 512 && d < 512
    ensures a == c && b == d
  {
  }

  // ---- The hardware walk ----

  function Next(t: Tree, e: Entry): Option<Table> {
    if e.present && FrameToPtr(e.frame) in t.mem then Some(t.mem[FrameToPtr(e.frame)]) else None
  }

  /** The frame a page is translated to, if its four entries are present. */
  function Walk(t: Tree, page: nat): Option<nat>
    requires page < PAGES
  {
    var pdpt := Next(t, t.pml4[page / 0x800_0000]);
    if pdpt.None? then None
    else
      var pd := Next(t, pdpt.value[page / 0x4_0000 % 512]);
      if pd.None? then None
      else
        var pt := Next(t, pd.value[page / 512 % 512]);
        if pt.None? then None
        else
          var e := pt.value[page % 512];
          if e.present then Some(e.frame) else None
  }

  /** The translations of a tree as a plain map. */
  ghost function Translations(t: Tree): map<nat, nat> {
    map page: nat | page < PAGES && Walk(t, page).Some? :: Walk(t, page).value
  }

  // ---- Write access ----

  /** A write to the page is allowed: all four entries its walk passes are present
      and have the write bit (section 4.6 of the Intel SDM volume 3). */
  predicate MayWrite(t: Tree, page: nat)
    requires page < PAGES
  {
    var e4 := t.pml4[page / 0x800_0000];
    var pdpt := Next(t, e4);
    e4.rw && pdpt.Some? &&
    var e3 := pdpt.value[page / 0x4_0000 % 512];
    var pd := Next(t, e3);
    e3.rw && pd.Some? &&
    var e2 := pd.value[page / 512 % 512];
    var pt := Next(t, e2);
    e2.rw && pt.Some? &&
    var e1 := pt.value[page % 512];
    e1.rw && e1.present
  }

  /** Every present entry of the table has the write bit. */
  ghost predicate WritableTable(tb: Table) {
    forall i :: 0 <= i < ENTRIES && tb[i].present ==> tb[i].rw
  }

  ghost predicate WritableTree(t: Tree) {
    WritableTable(t.pml4) && forall a {:trigger WritableAt(t.mem, a)} :: WritableAt(t.mem, a)
  }

  ghost predicate WritableAt(mem: map<nat, Table>, a: nat) {
    a in mem ==> WritableTable(mem[a])
  }

  /** In such a tree every page that is translated may be written. */
  lemma TranslatedWritable(t: Tree, page: nat)
    requires WritableTree(t) && page in Translations(t)
    ensures MayWrite(t, page)
  {
    var e4 := t.pml4[page / 0x800_0000];
    assert WritableAt(t.mem, FrameToPtr(e4.frame));
    var e3 := Next(t, e4).value[page / 0x4_0000 % 512];
    assert WritableAt(t.mem, FrameToPtr(e3.frame));
    var e2 := Next(t, e3).value[page / 512 % 512];
    assert WritableAt(t.mem, FrameToPtr(e2.frame));
  }

  /** A cleared table, and then an entry with the write bit, keep the tree so. */
  lemma ClearedWritable(t: Tree, a: nat)
    requires WritableTree(t)
    ensures WritableTree(Tree(t.pml4, t.mem[a := ZeroTable()]))
  {
    var mem := t.mem[a := ZeroTable()];
    forall b: nat
      ensures WritableAt(mem, b)
    {
      assert WritableAt(t.mem, b);
    }
  }

  lemma EntryWritable(t: Tree, tab: map<Place, nat>, p: Place, i: nat, e: Entry)
    requires WritableTree(t) && e.rw
    requires Reached(tab, p) && (p in tab ==> tab[p] in t.mem) && i < ENTRIES
    ensures WritableTree(SetEntry(t, tab, p, i, e))
  {
    var mem := SetEntry(t, tab, p, i, e).mem;
    forall b: nat
      ensures WritableAt(mem, b)
    {
      assert WritableAt(t.mem, b);
    }
  }

  // ---- The shape of the tree ----

  /** A table's place: its level (4 for the PML4, 1 for a page table) and the
      indices that lead to it, read as a number in base 512. */
  datatype Place = Place(level: nat, prefix: nat)

  const ROOT := Place(4, 0)

  function Child(p: Place, i: nat): Place
    requires p.level > 0
  {
    Place(p.level - 1, p.prefix * 512 + i)
  }

  function Parent(p: Place): Place {
    Place(p.level + 1, p.prefix / 512)
  }

  ghost predicate Reached(tab: map<Place, nat>, p: Place) {
    p == ROOT || p in tab
  }

  /** The table at a place, when `tab` says where each table is. */
  ghost function TableAt(t: Tree, tab: map<Place, nat>, p: Place): Table
    requires Reached(tab, p) && (p in tab ==> tab[p] in t.mem)
  {
    if p == ROOT then t.pml4 else t.mem[tab[p]]
  }

  ghost predicate Addressable(t: Tree, tab: map<Place, nat>) {
    forall p :: p in tab ==>
                  && 1 <= p.level <= 3 && tab[p] in t.mem
                  && Aligned(tab[p]) && tab[p] < FrameToPtr(U32)
  }

  ghost predicate Connected(tab: map<Place, nat>) {
    forall p {:trigger Parent(p)} :: p in tab ==> Reached(tab, Parent(p))
  }

  /** No two places share a table. */
  ghost predicate Unshared(tab: map<Place, nat>) {
    forall p, q {:trigger SameTable(tab, p, q)} :: p in tab && q in tab && SameTable(tab, p, q) ==> p == q
  }

  ghost predicate SameTable(tab: map<Place, nat>, p: Place, q: Place)
    requires p in tab && q in tab
  {
    tab[p] == tab[q]
  }

  /** Entry `i` of the table at `p` is present exactly when there is a table
      below it, and then points to that table. */
  ghost predicate Linked(t: Tree, tab: map<Place, nat>)
    requires Addressable(t, tab)
  {
    forall p, i :: Reached(tab, p) && p.level >= 2 && 0 <= i < ENTRIES ==>
                     LinkedAt(t, tab, p, i)
  }

  ghost predicate LinkedAt(t: Tree, tab: map<Place, nat>, p: Place, i: nat)
    requires Addressable(t, tab) && Reached(tab, p) && p.level >= 2 && i < ENTRIES
  {
    var e := TableAt(t, tab, p)[i];
    && (e.present <==> Child(p, i) in tab)
    && (e.present ==> FrameToPtr(e.frame) == tab[Child(p, i)])
  }

  ghost predicate WellFormed(t: Tree, tab: map<Place, nat>) {
    Addressable(t, tab) && Connected(tab) && Unshared(tab) && Linked(t, tab)
  }

  /** The leaf a page is translated by, read off `tab`. */
  ghost function Lookup(t: Tree, tab: map<Place, nat>, page: nat): Option<nat>
    requires Addressable(t, tab)
  {
    var p := Place(1, page / 512);
    if p in tab && t.mem[tab[p]][page % 512].present
    then Some(t.mem[tab[p]][page % 512].frame) else None
  }

  /** In a well-formed tree the four-step walk arrives at that leaf. */
  lemma WalkIsLookup(t: Tree, tab: map<Place, nat>, page: nat)
    requires WellFormed(t, tab) && page < PAGES
    ensures Walk(t, page) == Lookup(t, tab, page)
  {
    var i4, i3, i2 := page / 0x800_0000, page / 0x4_0000 % 512, page / 512 % 512;
    var p3, p2, p1 := Place(3, page / 0x800_0000), Place(2, page / 0x4_0000), Place(1, page / 512);
    assert Child(ROOT, i4) == p3;
    assert Child(p3, i3) == p2 && Parent(p2) == p3;
    assert Child(p2, i2) == p1 && Parent(p1) == p2;
    assert LinkedAt(t, tab, ROOT, i4);
    if p3 in tab {
      assert LinkedAt(t, tab, p3, i3);
      if p2 in tab {
        assert LinkedAt(t, tab, p2, i2);
      }
    }
  }

  /** The tree with entry `i` of the table at `p` replaced. */
  ghost function SetEntry(t: Tree, tab: map<Place, nat>, p: Place, i: nat, e: Entry): Tree
    requires Reached(tab, p) && (p in tab ==> tab[p] in t.mem) && i < ENTRIES
  {
    if p == ROOT then Tree(t.pml4[i := e], t.mem)
    else Tree(t.pml4, t.mem[tab[p] := t.mem[tab[p]][i := e]])
  }

  /** The tree in which an empty table at `a` hangs below entry `i` of the
      table at `p`. */
  ghost predicate Hung(t: Tree, tab: map<Place, nat>, p: Place, i: nat, a: nat, t': Tree, tab': map<Place, nat>) {
    && WellFormed(t, tab)
    && Reached(tab, p) && p.level >= 2 && i < ENTRIES && Child(p, i) !in tab
    && a !in tab.Values && Aligned(a) && a < FrameToPtr(U32)
    && t' == SetEntry(Tree(t.pml4, t.mem[a := ZeroTable()]), tab, p, i, Entry(true, true, PtrToFrame(a)))
    && tab' == tab[Child(p, i) := a]
  }

  lemma ChildParent(p: Place, i: nat)
    requires p.level > 0 && i < ENTRIES
    ensures Parent(Child(p, i)) == p
  {
  }

  lemma HangUnshared(tab: map<Place, nat>, c: Place, a: nat)
    requires Unshared(tab) && c !in tab && a !in tab.Values
    ensures Unshared(tab[c := a])
  {
    var tab' := tab[c := a];
    forall p, q | p in tab' && q in tab' && SameTable(tab', p, q)
      ensures p == q
    {
      assert p in tab && q in tab && tab[p] == tab[q] ==> SameTable(tab, p, q);
      assert p in tab ==> tab[p] in tab.Values;
      assert q in tab ==> tab[q] in tab.Values;
    }
  }

  lemma HangShape(t: Tree, tab: map<Place, nat>, p: Place, i: nat, a: nat, t': Tree, tab': map<Place, nat>)
    requires Hung(t, tab, p, i, a, t', tab')
    ensures Addressable(t', tab') && Connected(tab') && Unshared(tab')
  {
    var c := Child(p, i);
    ChildParent(p, i);
    HangUnshared(tab, c, a);
    forall q | q in tab'
      ensures Reached(tab', Parent(q))
    {
      assert q in tab ==> Reached(tab, Parent(q));
    }
  }

  lemma HangTables(t: Tree, tab: map<Place, nat>, p: Place, i: nat, a: nat, t': Tree, tab': map<Place, nat>, q: Place)
    requires Hung(t, tab, p, i, a, t', tab')
    requires Addressable(t', tab')
    requires Reached(tab', q)
    ensures TableAt(t', tab', q) ==
            if q == Child(p, i) then ZeroTable()
            else if q == p then TableAt(t, tab, p)[i := Entry(true, true, PtrToFrame(a))]
            else TableAt(t, tab, q)
  {
    assert q in tab ==> tab[q] in tab.Values;
    assert p in tab ==> tab[p] in tab.Values;
    assert p in tab && q in tab && tab[p] == tab[q] ==> SameTable(tab, p, q);
  }

  lemma HangLinked(
    t: Tree, tab: map<Place, nat>, p: Place, i: nat, a: nat, t': Tree, tab': map<Place, nat>, q: Place, j: nat
  )
    requires Hung(t, tab, p, i, a, t', tab')
    requires Addressable(t', tab')
    requires Reached(tab', q) && q.level >= 2 && j < ENTRIES
    ensures LinkedAt(t', tab', q, j)
  {
    HangTables(t, tab, p, i, a, t', tab', q);
    ChildParent(p, i);
    ChildParent(q, j);
    var below := Child(q, j);
    assert below in tab ==> Reached(tab, Parent(below));
    if q != Child(p, i) {
      assert LinkedAt(t, tab, q, j);
    }
  }

  /** Hanging an empty table keeps the shape and changes no translation. */
  lemma LinkTable(t: Tree, tab: map<Place, nat>, p: Place, i: nat, a: nat, t': Tree, tab': map<Place, nat>)
    requires Hung(t, tab, p, i, a, t', tab')
    ensures WellFormed(t', tab')
    ensures Translations(t') == Translations(t)
  {
    HangShape(t, tab, p, i, a, t', tab');
    forall q, j: nat | Reached(tab', q) && q.level >= 2 && j < ENTRIES
      ensures LinkedAt(t', tab', q, j)
    {
      HangLinked(t, tab, p, i, a, t', tab', q, j);
    }
    forall page: nat | page < PAGES
      ensures Walk(t', page) == Walk(t, page)
    {
      WalkIsLookup(t, tab, page);
      WalkIsLookup(t', tab', page);
      var q := Place(1, page / 512);
      if q in tab' {
        HangTables(t, tab, p, i, a, t', tab', q);
      }
    }
  }

  /** Writing a present leaf sets the translation of that page and of no other. */
  lemma SetLeaf(t: Tree, tab: map<Place, nat>, page: nat, e: Entry, t': Tree)
    requires WellFormed(t, tab) && page < PAGES && e.present
    requires Place(1, page / 512) in tab
    requires t' == SetEntry(t, tab, Place(1, page / 512), page % 512, e)
    ensures WellFormed(t', tab)
    ensures Translations(t') == Translations(t)[page := e.frame]
  {
    var p := Place(1, page / 512);
    forall q, j | Reached(tab, q) && q.level >= 2 && 0 <= j < ENTRIES
      ensures LinkedAt(t', tab, q, j)
    {
      assert LinkedAt(t, tab, q, j);
      assert q in tab && tab[p] == tab[q] ==> SameTable(tab, p, q);
    }
    forall other: nat | other < PAGES
      ensures Walk(t', other) == if other == page then Some(e.frame) else Walk(t, other)
    {
      var q := Place(1, other / 512);
      assert q in tab && tab[p] == tab[q] ==> SameTable(tab, p, q);
      WalkIsLookup(t, tab, other);
      WalkIsLookup(t', tab, other);
    }
  }

  /** How many tables have to be made before a page can be mapped. */
  function MissingTables(t: Tree, page: nat): nat
    requires page < PAGES
  {
    var pdpt := Next(t, t.pml4[page / 0x800_0000]);
    if pdpt.None? then 3
    else
      var pd := Next(t, pdpt.value[page / 0x4_0000 % 512]);
      if pd.None? then 2
      else if Next(t, pd.value[page / 512 % 512]).None? then 1 else 0
  }

  lemma MissingTablesByPlace(t: Tree, tab: map<Place, nat>, page: nat)
    requires WellFormed(t, tab) && page < PAGES
    ensures MissingTables(t, page) ==
            if Place(3, page / 0x800_0000) !in tab then 3
            else if Place(2, page / 0x4_0000) !in tab then 2
            else if Place(1, page / 512) !in tab then 1
            else 0
    ensures Place(1, page / 512) in tab ==> Place(2, page / 0x4_0000) in tab
    ensures Place(2, page / 0x4_0000) in tab ==> Place(3, page / 0x800_0000) in tab
  {
    var i4, i3, i2 := page / 0x800_0000, page / 0x4_0000 % 512, page / 512 % 512;
    var p3, p2, p1 := Place(3, page / 0x800_0000), Place(2, page / 0x4_0000), Place(1, page / 512);
    assert Child(ROOT, i4) == p3;
    assert Child(p3, i3) == p2 && Parent(p2) == p3;
    assert Child(p2, i2) == p1 && Parent(p1) == p2;
    assert LinkedAt(t, tab, ROOT, i4);
    if p3 in tab {
      assert LinkedAt(t, tab, p3, i3);
      if p2 in tab {
        assert LinkedAt(t, tab, p2, i2);
      }
    }
  }

  /** The places whose tables the walk of a page passes. */
  ghost function PlacesOf(page: nat): set<Place> {
    {Place(3, page / 0x800_0000), Place(2, page / 0x4_0000), Place(1, page / 512)}
  }

  /** The tables a page is missing are those of its places that have none. */
  lemma MissingByPlaces(t: Tree, tab: map<Place, nat>, page: nat)
    requires WellFormed(t, tab) && page < PAGES
    ensures MissingTables(t, page) == |PlacesOf(page) - tab.Keys|
  {
    MissingTablesByPlace(t, tab, page);
    var p3, p2, p1 := Place(3, page / 0x800_0000), Place(2, page / 0x4_0000), Place(1, page / 512);
    CountOutside(tab.Keys, p3, p2, p1);
  }

  lemma CountOutside(keys: set<Place>, a: Place, b: Place, c: Place)
    requires a != b && b != c && a != c
    requires (c in keys ==> b in keys) && (b in keys ==> a in keys)
    ensures |{a, b, c} - keys| == if a !in keys then 3 else if b !in keys then 2 else if c !in keys then 1 else 0
  {
    if a !in keys {
      assert {a, b, c} - keys == {a, b, c};
    } else if b !in keys {
      assert {a, b, c} - keys == {b, c};
    } else if c !in keys {
      assert {a, b, c} - keys == {c};
    } else {
      assert {a, b, c} - keys == {};
    }
  }

  /** In a well-formed tree no two present entries above the leaves, wherever
      they are, lead to the same table. */
  lemma EntriesUnshared(t: Tree, tab: map<Place, nat>, p: Place, i: nat, q: Place, j: nat)
    requires WellFormed(t, tab)
    requires Reached(tab, p) && p.level >= 2 && i < ENTRIES && TableAt(t, tab, p)[i].present
    requires Reached(tab, q) && q.level >= 2 && j < ENTRIES && TableAt(t, tab, q)[j].present
    requires TableAt(t, tab, p)[i].frame == TableAt(t, tab, q)[j].frame
    ensures p == q && i == j
  {
    assert LinkedAt(t, tab, p, i) && LinkedAt(t, tab, q, j);
    assert SameTable(tab, Child(p, i), Child(q, j));
    ChildParent(p, i);
    ChildParent(q, j);
  }

  // ---- The path of an address ----

  function PdptPlace(x: Indices): Place { Child(ROOT, x.pml4) }

  function PdPlace(x: Indices): Place { Child(PdptPlace(x), x.pdpt) }

  function PtPlace(x: Indices): Place { Child(PdPlace(x), x.pd) }

  lemma PathOf(vaddr: nat)
    ensures var x, page := PageIndexer(vaddr), PageOf(vaddr);
            && PdptPlace(x) == Place(3, page / 0x800_0000)
            && PdPlace(x) == Place(2, page / 0x4_0000)
            && PtPlace(x) == Place(1, page / 512)
            && x.pt == page % 512
  {
    IndexerDigits(vaddr);
  }

  /** A page is translated exactly when its leaf is present. */
  lemma PresentLeaf(t: Tree, tab: map<Place, nat>, vaddr: nat)
    requires WellFormed(t, tab)
    ensures var x := PageIndexer(vaddr);
            PageOf(vaddr) in Translations(t) <==>
            PtPlace(x) in tab && t.mem[tab[PtPlace(x)]][x.pt].present
  {
    PathOf(vaddr);
    WalkIsLookup(t, tab, PageOf(vaddr));
  }

  /** One step of the software walk: it finds the table exactly when the table
      lies below 4 GiB. */
  lemma SoftStep(t: Tree, tab: map<Place, nat>, p: Place, i: nat)
    requires WellFormed(t, tab) && Reached(tab, p) && p.level >= 2 && i < ENTRIES
    ensures var e := TableAt(t, tab, p)[i];
            && (e.present <==> Child(p, i) in tab)
            && (e.present ==> (SoftPointer(e) == tab[Child(p, i)] <==> tab[Child(p, i)] < U32))
            && (e.present ==> tab[Child(p, i)] in t.mem)
  {
    assert LinkedAt(t, tab, p, i);
  }

  /** The tables of a page's places that exist lie below 4 GiB. */
  ghost predicate PathLow(tab: map<Place, nat>, page: nat) {
    forall p :: p in PlacesOf(page) && p in tab ==> tab[p] < U32
  }

  lemma PathConnected(tab: map<Place, nat>, p: Place, i: nat)
    requires Connected(tab) && p.level > 0 && i < ENTRIES
    ensures Child(p, i) in tab ==> Reached(tab, p)
  {
    ChildParent(p, i);
  }
}
