/** What the pager takes from the frame allocator: which tables a list of pages
    lacks, when the free frames suffice for them, and when they lie where the
    kernel can find them again. */
module TableSpec {
  import opened Machine
  import opened FrameSpec
  import opened PageSpec
  import opened IdentitySpec

  /** What the pager takes from the frame allocator: the lock bits, the frames
      that hold tables, the places that have one, and the free count. */
  datatype Snapshot = Snapshot(bits: seq<bool>, tables: set<nat>, places: set<Place>, free: nat)

  /** How many places of `need` are not among `places`: |need - places|. */
  ghost function Lacking(need: set<Place>, places: set<Place>): nat {
    Size(need - places)
  }

  lemma LackingAll(need: set<Place>)
    ensures Lacking(need, {}) == |need|
  {
    SizeIs(need - {});
    assert need - {} == need;
  }

  /** Tables were made for the places of `need` that had none, one free frame
      each, and exactly those frames, the lowest free ones, became locked. */
  ghost predicate Advance(s: Snapshot, s': Snapshot, need: set<Place>) {
    && s.tables <= s'.tables && TakesLowest(s.bits, s'.bits, s'.tables - s.tables)
    && s'.places == s.places + need && s.free == s'.free + Lacking(need, s.places)
  }

  /** More places lack a table than frames are free. */
  ghost predicate Short(s: Snapshot, need: set<Place>) {
    Lacking(need, s.places) > s.free
  }

  lemma AdvanceNone(s: Snapshot)
    ensures Advance(s, s, {})
  {
  }

  lemma LackingOne(s: Snapshot, c: Place)
    ensures c in s.places ==> Advance(s, s, {c}) && !Short(s, {c})
    ensures c !in s.places ==> (Short(s, {c}) <==> s.free == 0)
  {
    SizeIs({c} - s.places);
    if c in s.places {
      assert {c} - s.places == {} && s.places + {c} == s.places;
    } else {
      assert {c} - s.places == {c};
    }
  }

  lemma OneTable(s: Snapshot, f: nat, bits: seq<bool>, c: Place)
    requires c !in s.places && f !in s.tables && s.free > 0 && TakesLowest(s.bits, bits, {f})
    ensures Advance(s, Snapshot(bits, s.tables + {f}, s.places + {c}, s.free - 1), {c})
  {
    assert (s.tables + {f}) - s.tables == {f};
    assert {c} - s.places == {c};
    SizeIs({c} - s.places);
  }

  /** Two advances make one, and what is short for the second step is short for
      both together. */
  lemma AdvanceTwice(s0: Snapshot, s1: Snapshot, s2: Snapshot, a: set<Place>, b: set<Place>)
    requires Advance(s0, s1, a)
    ensures Short(s1, b) <==> Short(s0, a + b)
    ensures Advance(s1, s2, b) ==> Advance(s0, s2, a + b)
  {
    SizeIs(a - s0.places);
    SizeIs(b - s1.places);
    SizeIs(a + b - s0.places);
    assert (a + b) - s0.places == (a - s0.places) + (b - s1.places);
    assert (a - s0.places) !! (b - s1.places);
    if Advance(s1, s2, b) {
      TakeCompose(s0.bits, s1.bits, s2.bits, s1.tables - s0.tables, s2.tables - s1.tables);
      assert s2.tables - s0.tables == (s1.tables - s0.tables) + (s2.tables - s1.tables);
    }
  }

  /** What was not short once was not short for any part of it. */
  lemma ShortGrows(s: Snapshot, need: set<Place>, more: set<Place>)
    requires need <= more
    ensures Short(s, need) ==> Short(s, more)
  {
    SizeIs(need - s.places);
    SizeIs(more - s.places);
    assert more - s.places == (need - s.places) + ((more - s.places) - (need - s.places));
  }

  lemma AdvanceNotShort(s: Snapshot, s': Snapshot, need: set<Place>)
    requires Advance(s, s', need)
    ensures !Short(s, need)
  {
  }

  lemma NothingTaken(need: set<Place>, bits: seq<bool>, free: nat, s: Snapshot)
    requires Advance(Snapshot(bits, {}, {}, free), s, need)
    ensures TakesLowest(bits, s.bits, s.tables) && !Short(Snapshot(bits, {}, {}, free), need)
  {
  }

  /** One more page of a run. */
  lemma RunAdvance(s0: Snapshot, s: Snapshot, s': Snapshot, first: nat, i: nat, count: nat)
    requires Advance(s0, s, PlacesOfRun(first, i)) && i < count
    ensures Short(s, PlacesOf(NthPage(first, i))) ==> Short(s0, PlacesOfRun(first, count))
    ensures Advance(s, s', PlacesOf(NthPage(first, i))) ==> Advance(s0, s', PlacesOfRun(first, i + 1))
  {
    AdvanceTwice(s0, s, s', PlacesOfRun(first, i), PlacesOf(NthPage(first, i)));
    PlacesOfRunGrow(first, i + 1, count);
    ShortGrows(s0, PlacesOfRun(first, i + 1), PlacesOfRun(first, count));
  }

  /** One more region of a list. */
  lemma RegionAdvance(s0: Snapshot, s: Snapshot, s': Snapshot, rs: seq<Region>, k: nat)
    requires k < |rs| && Advance(s0, s, PlacesOfRegions(rs[..k]))
    ensures Short(s, PlacesOfRegion(rs[k])) ==> Short(s0, PlacesOfRegions(rs))
    ensures Advance(s, s', PlacesOfRegion(rs[k])) ==> Advance(s0, s', PlacesOfRegions(rs[..k + 1]))
  {
    assert rs[..k + 1][..k] == rs[..k];
    AdvanceTwice(s0, s, s', PlacesOfRegions(rs[..k]), PlacesOfRegion(rs[k]));
    PlacesOfRegionsGrow(rs, k + 1);
    ShortGrows(s0, PlacesOfRegions(rs[..k + 1]), PlacesOfRegions(rs));
  }

  // ---- Tables below 4 GiB ----

  /** Tables below 4 GiB are the only ones the kernel can find again, see
      `SoftStep`. */
  const FRAMES_4_GIB: nat := 0x10_0000

  lemma LowFrame(f: nat)
    ensures f < FRAMES_4_GIB <==> FrameToPtr(f) < 0x1_0000_0000
  {
  }

  ghost predicate LowTables(tables: set<nat>) {
    forall f :: f in tables ==> f < FRAMES_4_GIB
  }

  /** How many frames below 4 GiB are free. */
  ghost function LowFree(bits: seq<bool>): nat {
    Size(FreeBelow(bits, FRAMES_4_GIB))
  }

  ghost predicate Counted(s: Snapshot) {
    s.free == |FreeFrames(s.bits)|
  }

  /** Frames taken lowest first lie below 4 GiB exactly when there were enough
      free ones there. */
  lemma TakenLow(before: seq<bool>, after: seq<bool>, g: set<nat>)
    requires TakesLowest(before, after, g)
    ensures LowTables(g) <==> |g| <= LowFree(before)
  {
    var low := FreeBelow(before, FRAMES_4_GIB);
    SizeIs(low);
    if LowTables(g) {
      assert g <= low;
      SubsetSize(g, low);
    } else {
      var f :| f in g && f >= FRAMES_4_GIB;
      forall k | k in low
        ensures k in g
      {
        assert !after[k] ==> Below(f, k);
      }
      assert low <= g && f !in low;
      SubsetSize(low, g);
    }
  }

  /** After tables were made, all of them can be found again exactly when no more
      were lacking than frames were free below 4 GiB. */
  lemma LowAfter(s: Snapshot, s': Snapshot, need: set<Place>)
    requires Advance(s, s', need) && Counted(s) && Counted(s') && LowTables(s.tables)
    ensures LowTables(s'.tables) <==> Lacking(need, s.places) <= LowFree(s.bits)
  {
    var g := s'.tables - s.tables;
    GrantsCount(s.bits, s'.bits, g);
    TakenLow(s.bits, s'.bits, g);
    assert s'.tables == s.tables + g;
  }

  /** All tables made for `need` will lie below 4 GiB: enough frames are free
      there, or no frame is free elsewhere. */
  ghost predicate StaysLow(s: Snapshot, need: set<Place>) {
    Lacking(need, s.places) <= LowFree(s.bits) || s.free == LowFree(s.bits)
  }

  /** Once the frames [from, to) are taken for something else, all tables made for
      `need` will lie below 4 GiB. */
  ghost predicate LowOnceTaken(s: Snapshot, from: nat, to: nat, need: set<Place>) {
    var low := LowFree(LockRange(s.bits, from, to));
    Lacking(need, s.places) <= low || s.free - (to - from) == low
  }

  /** The tables for mapping the lowest free frame will lie below 4 GiB. */
  ghost predicate FirstPageLow(s: Snapshot) {
    forall k: nat :: LowestFree(s.bits, 0, k) ==> LowOnceTaken(s, k, k + 1, PlacesOf(k))
  }

  /** Every table can be found again, and so it will be once the tables for
      `need` are made. */
  ghost predicate Findable(s: Snapshot, need: set<Place>) {
    Counted(s) && LowTables(s.tables) && StaysLow(s, need)
  }

  /** A machine with at most 4 GiB of memory has no other frames. */
  lemma SmallMachine(s: Snapshot, need: set<Place>)
    requires Counted(s) && |s.bits| <= FRAMES_4_GIB
    ensures StaysLow(s, need)
  {
    SmallCount(s.bits);
  }

  lemma SmallCount(bits: seq<bool>)
    requires |bits| <= FRAMES_4_GIB
    ensures LowFree(bits) == |FreeFrames(bits)|
  {
    SizeIs(FreeBelow(bits, FRAMES_4_GIB));
    assert FreeBelow(bits, FRAMES_4_GIB) == FreeFrames(bits);
  }

  lemma PlacesSize(a: set<Place>, b: set<Place>)
    requires a <= b
    ensures |a| <= |b|
  {
    assert b == a + (b - a);
  }

  /** A part of what stays low stays low. */
  lemma StaysLowPart(s: Snapshot, need: set<Place>, more: set<Place>)
    requires need <= more && StaysLow(s, more)
    ensures StaysLow(s, need)
  {
    SizeIs(need - s.places);
    SizeIs(more - s.places);
    PlacesSize(need - s.places, more - s.places);
  }

  /** The tables are low at every step on the way. */
  lemma StillLow(s: Snapshot, s': Snapshot, need: set<Place>, more: set<Place>)
    requires Advance(s, s', need) && need <= more && Findable(s, more) && Counted(s')
    ensures LowTables(s'.tables)
  {
    StaysLowPart(s, need, more);
    LowAfter(s, s', need);
  }

  lemma LowGrants(before: seq<bool>, after: seq<bool>, g: set<nat>)
    requires Grants(before, after, g) && LowTables(g)
    ensures LowFree(before) == LowFree(after) + |g|
  {
    SizeIs(FreeBelow(before, FRAMES_4_GIB));
    SizeIs(FreeBelow(after, FRAMES_4_GIB));
    var left := FreeBelow(after, FRAMES_4_GIB);
    assert FreeBelow(before, FRAMES_4_GIB) == left + g && left !! g;
  }

  /** What is findable as a whole is findable for the rest once a part is done. */
  lemma FindableNext(s: Snapshot, s': Snapshot, a: set<Place>, b: set<Place>, more: set<Place>)
    requires Advance(s, s', a) && a + b <= more && Findable(s, more) && Counted(s')
    ensures Findable(s', b)
  {
    var g := s'.tables - s.tables;
    StillLow(s, s', a, more);
    GrantsCount(s.bits, s'.bits, g);
    LowGrants(s.bits, s'.bits, g);
    SizeIs(a - s.places);
    SizeIs(b - s'.places);
    SizeIs(more - s.places);
    assert (a - s.places) !! (b - s'.places);
    PlacesSize((a - s.places) + (b - s'.places), more - s.places);
  }

  /** The tables stay findable while a run of pages is mapped. */
  lemma RunFindable(s0: Snapshot, s: Snapshot, first: nat, i: nat, count: nat)
    requires Advance(s0, s, PlacesOfRun(first, i)) && i <= count && Counted(s)
    requires Findable(s0, PlacesOfRun(first, count))
    ensures LowTables(s.tables)
  {
    PlacesOfRunGrow(first, i, count);
    StillLow(s0, s, PlacesOfRun(first, i), PlacesOfRun(first, count));
  }

  lemma RegionsSplit(rs: seq<Region>, k: nat)
    requires k < |rs|
    ensures PlacesOfRegions(rs[..k]) + PlacesOfRegion(rs[k]) <= PlacesOfRegions(rs)
  {
    assert rs[..k + 1][..k] == rs[..k];
    PlacesOfRegionsGrow(rs, k + 1);
  }

  /** And while a list of regions is. */
  lemma RegionsFindable(s0: Snapshot, s: Snapshot, rs: seq<Region>, k: nat)
    requires k <= |rs| && Advance(s0, s, PlacesOfRegions(rs[..k])) && Counted(s)
    requires Findable(s0, PlacesOfRegions(rs))
    ensures LowTables(s.tables)
    ensures k < |rs| ==> Findable(s, PlacesOfRegion(rs[k]))
  {
    PlacesOfRegionsGrow(rs, k);
    StillLow(s0, s, PlacesOfRegions(rs[..k]), PlacesOfRegions(rs));
    if k < |rs| {
      RegionsSplit(rs, k);
      FindableNext(s0, s, PlacesOfRegions(rs[..k]), PlacesOfRegion(rs[k]), PlacesOfRegions(rs));
    }
  }
}
