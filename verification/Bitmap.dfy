/** The byte-packed bitmap that records which page frames are locked. */
module Bitmaps {

  /** The bit that stands for position `r` of a byte. */
  function Mask(r: nat): bv8
    requires r < 8
  {
    1 << r
  }

  predicate TestBit(b: bv8, r: nat)
    requires r < 8
  {
    b & Mask(r) != 0
  }

  /** The bits of a buffer, lowest bit of each byte first. */
  ghost function Unpack(bytes: seq<bv8>): (bits: seq<bool>)
    ensures |bits| == 8 * |bytes|
  {
    if bytes == [] then []
    else
      var n := |bytes| - 1;
      Unpack(bytes[..n]) + seq(8, r requires 0 <= r < 8 => TestBit(bytes[n], r))
  }

  lemma {:induction false} UnpackAt(bytes: seq<bv8>, k: nat)
    requires k < 8 * |bytes|
    ensures Unpack(bytes)[k] == TestBit(bytes[k / 8], k % 8)
  {
    var n := |bytes| - 1;
    if k < 8 * n {
      UnpackAt(bytes[..n], k);
    }
  }

  lemma MaskValues()
    ensures Mask(0) == 1 && Mask(1) == 2 && Mask(2) == 4 && Mask(3) == 8
    ensures Mask(4) == 16 && Mask(5) == 32 && Mask(6) == 64 && Mask(7) == 128
  {
  }

  lemma MasksApart(r: nat, q: nat)
    requires r < 8 && q < 8
    ensures Mask(q) != 0 && (if q == r then Mask(r) == Mask(q) else Mask(r) & Mask(q) == 0)
  {
    MaskValues();
  }

  lemma SetMask(b: bv8, m: bv8, n: bv8)
    requires n != 0 && (m == n || m & n == 0)
    ensures (b | m) & n != 0 <==> m == n || b & n != 0
  {
  }

  lemma ClearMask(b: bv8, m: bv8, n: bv8)
    requires n != 0 && (m == n || m & n == 0)
    ensures (b & !m) & n != 0 <==> m != n && b & n != 0
  {
  }

  /** Setting one bit of a byte leaves the other seven alone. */
  lemma ByteSet(b: bv8, r: nat, q: nat)
    requires r < 8 && q < 8
    ensures TestBit(b | Mask(r), q) <==> q == r || TestBit(b, q)
  {
    MasksApart(r, q);
    SetMask(b, Mask(r), Mask(q));
  }

  /** And so does clearing one. */
  lemma ByteClear(b: bv8, r: nat, q: nat)
    requires r < 8 && q < 8
    ensures TestBit(b & !Mask(r), q) <==> q != r && TestBit(b, q)
  {
    MasksApart(r, q);
    ClearMask(b, Mask(r), Mask(q));
  }

  /** Replacing one byte by one that differs in a single bit replaces that bit
      of the whole buffer. */
  lemma UnpackUpdate(bytes: seq<bv8>, idx: nat, v: bv8, bit: bool)
    requires idx < 8 * |bytes|
    requires forall q :: 0 <= q < 8 ==>
                           (TestBit(v, q) <==> if q == idx % 8 then bit else TestBit(bytes[idx / 8], q))
    ensures Unpack(bytes[idx / 8 := v]) == Unpack(bytes)[idx := bit]
  {
    var lhs, rhs := Unpack(bytes[idx / 8 := v]), Unpack(bytes)[idx := bit];
    forall k | 0 <= k < |lhs|
      ensures lhs[k] == rhs[k]
    {
      UnpackAt(bytes, k);
      UnpackAt(bytes[idx / 8 := v], k);
      if k / 8 == idx / 8 {
        assert k == idx <==> k % 8 == idx % 8;
      }
    }
  }

  lemma UnpackSet(bytes: seq<bv8>, idx: nat)
    requires idx < 8 * |bytes|
    ensures Unpack(bytes[idx / 8 := bytes[idx / 8] | Mask(idx % 8)]) == Unpack(bytes)[idx := true]
  {
    var v := bytes[idx / 8] | Mask(idx % 8);
    forall q | 0 <= q < 8
      ensures TestBit(v, q) <==> if q == idx % 8 then true else TestBit(bytes[idx / 8], q)
    {
      ByteSet(bytes[idx / 8], idx % 8, q);
    }
    UnpackUpdate(bytes, idx, v, true);
  }

  lemma UnpackUnset(bytes: seq<bv8>, idx: nat)
    requires idx < 8 * |bytes|
    ensures Unpack(bytes[idx / 8 := bytes[idx / 8] & !Mask(idx % 8)]) == Unpack(bytes)[idx := false]
  {
    var v := bytes[idx / 8] & !Mask(idx % 8);
    forall q | 0 <= q < 8
      ensures TestBit(v, q) <==> if q == idx % 8 then false else TestBit(bytes[idx / 8], q)
    {
      ByteClear(bytes[idx / 8], idx % 8, q);
    }
    UnpackUpdate(bytes, idx, v, false);
  }

  class Bitmap {
    const buf: array<bv8>
    const size: nat

    ghost predicate Valid()
    {
      size == buf.Length
    }

    ghost function Bits(): (bits: seq<bool>)
      reads buf
    {
      Unpack(buf[..])
    }

    /** A cleared buffer with room for `sizeInBits` bits. */
    constructor (sizeInBits: nat)
      ensures Valid() && fresh(buf)
      ensures size == (sizeInBits + 7) / 8
      ensures forall k :: 0 <= k < |Bits()| ==> !Bits()[k]
    {
      size := (sizeInBits + 7) / 8;
      buf := new bv8[(sizeInBits + 7) / 8];
      new;
      var i := 0;
      while i < size
        invariant 0 <= i <= size
        invariant forall j :: 0 <= j < i ==> buf[j] == 0
      {
        buf[i] := 0;
        i := i + 1;
      }
      forall k | 0 <= k < |Bits()|
        ensures !Bits()[k]
      {
        UnpackAt(buf[..], k);
        assert buf[k / 8] == 0;
        assert (0 as bv8) & Mask(k % 8) == 0;
      }
    }

    method Get(idx: nat) returns (bit: bool)
      requires Valid() && idx < 8 * size
      ensures bit == Bits()[idx]
    {
      var rest := idx % 8;
      var base := (idx - rest) / 8;
      bit := buf[base] & Mask(rest) != 0;
      UnpackAt(buf[..], idx);
    }

    method Set(idx: nat)
      requires Valid() && idx < 8 * size
      modifies buf
      ensures Bits() == old(Bits())[idx := true]
    {
      var rest := idx % 8;
      var base := (idx - rest) / 8;
      UnpackSet(buf[..], idx);
      buf[base] := buf[base] | Mask(rest);
      assert buf[..] == old(buf[..])[base := buf[base]];
    }

    method Unset(idx: nat)
      requires Valid() && idx < 8 * size
      modifies buf
      ensures Bits() == old(Bits())[idx := false]
    {
      var rest := idx % 8;
      var base := (idx - rest) / 8;
      UnpackUnset(buf[..], idx);
      buf[base] := buf[base] & !Mask(rest);
      assert buf[..] == old(buf[..])[base := buf[base]];
    }

    method MemSize() returns (bytes: nat)
      requires Valid()
      ensures bytes == size == buf.Length
    {
      bytes := size;
    }
  }
}
