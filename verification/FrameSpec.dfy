/** The frame allocator's specification: a sequence of lock bits, the set of
    free frames it stands for, and what a single-frame and a multi-frame request
    must answer. A bit is true when its frame is locked. */
module FrameSpec {
  import opened Machine

  // ---- The set of free frames ----

  ghost function FreeFrames(bits: seq<bool>): set<nat> {
    set k: nat | k < |bits| && !bits[k]
  }

  ghost function LockedFrames(bits: seq<bool>): set<nat> {
    set k: nat | k < |bits| && bits[k]
  }

  /** The cardinality of a set, see `SizeIs`, in a form that unfolds one element
      at a time. Contracts of methods speak of it where the built-in one would
      weigh on every proof step. */
  ghost function Size<T>(s: set<T>): nat {
    if s == {} then 0
    else
      var x :| x in s;
      1 + Size(s - {x})
  }

  lemma {:induction false} SizeIs<T>(s: set<T>)
    ensures Size(s) == |s|
  {
    if s != {} {
      var x :| x in s && Size(s) == 1 + Size(s - {x});
      SizeIs(s - {x});
    }
  }

  lemma {:induction false} RangeSize(s: nat, e: nat)
    requires s <= e
    ensures |Range(s, e)| == e - s
    decreases e
  {
    if s == e {
      assert Range(s, e) == {};
    } else {
      RangeSize(s, e - 1);
      RangeStep(s, e - 1);
    }
  }

  lemma RangeStep(s: nat, e: nat)
    requires s <= e
    ensures Range(s, e + 1) == Range(s, e) + {e} && e !in Range(s, e)
  {
  }

  /** Every frame is counted once, as free or as locked. */
  lemma FreePlusLocked(bits: seq<bool>)
    ensures |FreeFrames(bits)| + |LockedFrames(bits)| == |bits|
  {
    RangeSize(0, |bits|);
    assert FreeFrames(bits) + LockedFrames(bits) == Range(0, |bits|);
    assert FreeFrames(bits) !! LockedFrames(bits);
  }

  lemma AllLockedCount(bits: seq<bool>)
    ensures (forall k :: 0 <= k < |bits| ==> bits[k]) <==> |FreeFrames(bits)| == 0
  {
    if |FreeFrames(bits)| == 0 {
      assert forall k: nat :: k < |bits| && !bits[k] ==> k in FreeFrames(bits);
    } else {
      var k :| k in FreeFrames(bits);
    }
  }

  ghost function FreeBelow(bits: seq<bool>, n: nat): set<nat> {
    set k: nat | k < n && k < |bits| && !bits[k]
  }

  lemma LockOne(bits: seq<bool>, k: nat)
    requires k < |bits|
    ensures FreeFrames(bits[k := true]) == FreeFrames(bits) - {k}
    ensures |FreeFrames(bits[k := true])| == |FreeFrames(bits)| - (if bits[k] then 0 else 1)
    ensures FreeFrames(bits[k := false]) == FreeFrames(bits) + {k}
    ensures |FreeFrames(bits[k := false])| == |FreeFrames(bits)| + (if bits[k] then 1 else 0)
  {
    assert FreeFrames(bits[k := true]) == FreeFrames(bits) - {k};
    assert FreeFrames(bits[k := false]) == FreeFrames(bits) + {k};
  }

  ghost predicate LowestFree(bits: seq<bool>, from: nat, k: nat) {
    from <= k < |bits| && !bits[k] && forall j :: from <= j < k ==> bits[j]
  }

  // ---- Runs of free frames ----

  ghost predicate FreeRun(bits: seq<bool>, s: nat, n: nat) {
    s + n <= |bits| && forall k :: s <= k < s + n ==> !bits[k]
  }

  /** The lowest start, at or above `from`, of `n` free frames in a row. */
  ghost function RunStart(bits: seq<bool>, from: nat, n: nat): (s: Option<nat>)
    ensures s.Some? ==> from <= s.value && FreeRun(bits, s.value, n)
    ensures s.Some? ==> forall t: nat :: from <= t < s.value ==> !FreeRun(bits, t, n)
    ensures s.None? ==> forall t: nat :: from <= t ==> !FreeRun(bits, t, n)
    decreases |bits| - from
  {
    if from + n > |bits| then None
    else if FreeRun(bits, from, n) then Some(from)
    else if from == |bits| then None
    else RunStart(bits, from + 1, n)
  }

  /** Where the block of free frames that ends the memory starts, looking down
      to `from` and starting below `hi`. */
  ghost function TrailStart(bits: seq<bool>, from: nat, hi: nat): (t: nat)
    requires from <= hi <= |bits|
    ensures from <= t <= hi
    ensures forall k :: t <= k < hi ==> !bits[k]
    ensures t == from || bits[t - 1]
    decreases hi
  {
    if hi > from && !bits[hi - 1] then TrailStart(bits, from, hi - 1) else hi
  }

  lemma TrailStartIs(bits: seq<bool>, from: nat, hi: nat, t: nat)
    requires from <= t <= hi <= |bits|
    requires forall k :: t <= k < hi ==> !bits[k]
    requires t == from || bits[t - 1]
    ensures TrailStart(bits, from, hi) == t
    decreases hi
  {
  }

  /** The answer of a request for `n` frames in a row: the bounds [start, end)
      of the frames it locks, or nothing when an assertion stops the machine.
      One frame is never granted. When there is no run of `n` frames, a block
      of at least two free frames at the end of memory is granted in its place. */
  ghost function RunAnswer(bits: seq<bool>, from: nat, n: nat): (a: Option<(nat, nat)>)
    requires from <= |bits|
    ensures a.Some? ==> from <= a.value.0 && a.value.0 + 2 <= a.value.1 <= |bits|
    ensures a.Some? ==> FreeRun(bits, a.value.0, a.value.1 - a.value.0)
  {
    if n < 2 then None
    else
      var s := RunStart(bits, from, n);
      if s.Some? then Some((s.value, s.value + n))
      else
        var t := TrailStart(bits, from, |bits|);
        if t + 2 <= |bits| && |bits| - t - 1 + n <= U64 then Some((t, |bits|)) else None
  }

  ghost function LockRange(bits: seq<bool>, s: nat, e: nat): (after: seq<bool>)
    ensures |after| == |bits|
    ensures forall k :: 0 <= k < |bits| ==> after[k] == (bits[k] || s <= k < e)
  {
    seq(|bits|, k requires 0 <= k < |bits| => bits[k] || s <= k < e)
  }

  ghost predicate Within(s: nat, k: nat, e: nat) {
    s <= k < e
  }

  ghost function Range(s: nat, e: nat): set<nat> {
    set k: nat | s <= k < e && Within(s, k, e)
  }

  ghost predicate InSpan(s: nat, count: nat, k: nat) {
    s <= k < s + count
  }

  /** The `count` numbers from `s` on. */
  ghost function Span(s: nat, count: nat): set<nat> {
    set k: nat | s <= k < s + count && InSpan(s, count, k)
  }

  lemma SpanSize(s: nat, count: nat)
    ensures |Span(s, count)| == count
  {
    RangeSize(s, s + count);
    assert Span(s, count) == Range(s, s + count) by {
      forall k: nat
        ensures k in Span(s, count) <==> k in Range(s, s + count)
      {
        assert InSpan(s, count, k) <==> Within(s, k, s + count);
      }
    }
  }

  /** A request is served with the whole run exactly when such a run exists;
      a shorter grant reaches the end of memory. */
  lemma RunAnswerLength(bits: seq<bool>, from: nat, n: nat)
    requires from <= |bits|
    requires RunAnswer(bits, from, n).Some?
    ensures var a := RunAnswer(bits, from, n).value;
            (a.1 - a.0 == n <==> exists s: nat :: from <= s && FreeRun(bits, s, n))
            && a.1 - a.0 <= n
            && (a.1 - a.0 < n ==> a.1 == |bits|)
  {
    var a := RunAnswer(bits, from, n).value;
    if RunStart(bits, from, n).Some? {
      assert FreeRun(bits, RunStart(bits, from, n).value, n);
    } else {
      assert a.1 == |bits|;
      assert !FreeRun(bits, a.0, n);
      if a.1 - a.0 >= n {
        assert FreeRun(bits, a.0, n);
        assert false;
      }
    }
  }

  /** A request for three frames is granted two when only the last two frames
      are free. */
  lemma ShortGrantExample()
    ensures RunAnswer([true, false, false], 0, 3) == Some((1, 3))
  {
    var bits := [true, false, false];
    assert forall t: nat :: FreeRun(bits, t, 3) ==> t == 0 && !bits[0];
    TrailStartIs(bits, 0, 3, 1);
  }

  lemma ShortGrantOfSeven()
    ensures RunAnswer([true, true, true, true, true, false, false], 4, 3) == Some((5, 7))
  {
    var bits := [true, true, true, true, true, false, false];
    assert forall t: nat :: 4 <= t && FreeRun(bits, t, 3) ==> t == 4 && !bits[4];
    TrailStartIs(bits, 4, 7, 5);
  }

  // ---- Grants ----

  /** Going from `before` to `after` locks exactly the frames of `g`, all of
      which were free. */
  ghost predicate Grants(before: seq<bool>, after: seq<bool>, g: set<nat>) {
    && |after| == |before|
    && (forall k :: k in g ==> k < |before| && !before[k])
    && (forall k: nat :: k < |before| ==> after[k] == (before[k] || k in g))
  }

  /** Every frame of `g` lies below every frame that is still free. */
  ghost predicate LowestFirst(after: seq<bool>, g: set<nat>) {
    forall f, k {:trigger Below(f, k)} :: f in g && 0 <= k < |after| && !after[k] ==> Below(f, k)
  }

  predicate Below(f: nat, k: nat) { f < k }

  /** Exactly the frames of `g` become locked, and they are the lowest of those
      that were free. */
  ghost predicate TakesLowest(before: seq<bool>, after: seq<bool>, g: set<nat>) {
    Grants(before, after, g) && LowestFirst(after, g)
  }

  lemma TakeOne(before: seq<bool>, after: seq<bool>, f: nat)
    requires LowestFree(before, 0, f) && Grants(before, after, {f})
    ensures TakesLowest(before, after, {f})
  {
  }

  lemma TakeCompose(a: seq<bool>, b: seq<bool>, c: seq<bool>, g: set<nat>, h: set<nat>)
    requires TakesLowest(a, b, g) && TakesLowest(b, c, h)
    ensures TakesLowest(a, c, g + h) && g !! h
  {
    GrantsCompose(a, b, c, g, h);
    forall f, k | f in g + h && 0 <= k < |c| && !c[k]
      ensures Below(f, k)
    {
      assert f in g || f in h;
      assert !b[k];
    }
  }

  /** Frame `k` is free and `n` free frames lie below it. */
  ghost predicate NthFree(bits: seq<bool>, n: nat, k: nat) {
    k < |bits| && !bits[k] && |FreeBelow(bits, k)| == n
  }

  /** After the lowest frames were taken, the lowest free frame is the one that
      had exactly those below it. */
  lemma LowestAfter(before: seq<bool>, after: seq<bool>, g: set<nat>, k: nat)
    requires TakesLowest(before, after, g)
    ensures LowestFree(after, 0, k) <==> NthFree(before, |g|, k)
  {
    if k < |before| && !before[k] {
      var below := FreeBelow(before, k);
      if !after[k] {
        assert forall f :: f in g ==> Below(f, k);
        assert g <= below;
        SubsetSize(g, below);
        if g == below {
          assert forall j: nat :: j < k && !before[j] ==> j in below;
        } else {
          var j :| j in below && j !in g;
          assert !after[j];
        }
      } else {
        assert k in g;
        forall j | j in below
          ensures j in g
        {
          assert !after[j] ==> Below(k, j);
        }
        assert below <= g && k !in below;
        SubsetSize(below, g);
      }
    }
  }

  lemma SubsetSize(a: set<nat>, b: set<nat>)
    requires a <= b
    ensures |a| <= |b| && (|a| == |b| <==> a == b)
  {
    assert b == a + (b - a);
  }

  lemma RangeGrants(bits: seq<bool>, s: nat, e: nat)
    requires s <= e && FreeRun(bits, s, e - s)
    ensures Grants(bits, LockRange(bits, s, e), Range(s, e))
  {
  }

  lemma GrantsCompose(a: seq<bool>, b: seq<bool>, c: seq<bool>, g: set<nat>, h: set<nat>)
    requires Grants(a, b, g) && Grants(b, c, h)
    ensures Grants(a, c, g + h) && g !! h
  {
  }

  /** Locking a set of free frames takes exactly that many off the free count. */
  lemma GrantsCount(before: seq<bool>, after: seq<bool>, g: set<nat>)
    requires Grants(before, after, g)
    ensures FreeFrames(after) == FreeFrames(before) - g
    ensures |FreeFrames(before)| == |FreeFrames(after)| + |g|
  {
  }

  ghost predicate GrantRun(hist: seq<seq<bool>>, grants: seq<set<nat>>) {
    |hist| == |grants| + 1 &&
    forall i :: 0 <= i < |grants| ==> Grants(hist[i], hist[i + 1], grants[i])
  }

  /** Over any run of grants a frame that is locked stays locked. */
  lemma {:induction false} LockedForGood(hist: seq<seq<bool>>, grants: seq<set<nat>>, i: nat, j: nat, k: nat)
    requires GrantRun(hist, grants)
    requires i <= j < |hist| && k < |hist[i]| && hist[i][k]
    ensures k < |hist[j]| && hist[j][k]
    decreases j - i
  {
    if i < j {
      assert Grants(hist[i], hist[i + 1], grants[i]);
      LockedForGood(hist, grants, i + 1, j, k);
    }
  }

  /** Over any run of grants, no frame is granted twice, a granted frame stays
      locked, and no frame locked at the start is ever granted. */
  lemma GrantsNeverOverlap(hist: seq<seq<bool>>, grants: seq<set<nat>>)
    requires GrantRun(hist, grants)
    ensures forall i, j :: 0 <= i < j < |grants| ==> grants[i] !! grants[j]
    ensures forall i, j, k :: 0 <= i < j < |hist| && k in grants[i] ==> k < |hist[j]| && hist[j][k]
    ensures forall i, k: nat :: 0 <= i < |grants| && k < |hist[0]| && hist[0][k] ==> k !in grants[i]
  {
    forall i, j, k | 0 <= i < j < |hist| && k in grants[i]
      ensures k < |hist[j]| && hist[j][k]
    {
      assert Grants(hist[i], hist[i + 1], grants[i]);
      LockedForGood(hist, grants, i + 1, j, k);
    }
    forall i, j | 0 <= i < j < |grants|
      ensures grants[i] !! grants[j]
    {
      assert Grants(hist[j], hist[j + 1], grants[j]);
      assert forall k :: k in grants[i] ==> hist[j][k];
    }
    forall i, k: nat | 0 <= i < |grants| && k < |hist[0]| && hist[0][k]
      ensures k !in grants[i]
    {
      LockedForGood(hist, grants, 0, i, k);
      assert Grants(hist[i], hist[i + 1], grants[i]);
    }
  }
}
