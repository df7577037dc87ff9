/** What every layer of the kernel shares: frames and pages of 4096 bytes, the
    width of a machine word, and how a failed assertion is represented. */
module Machine {

  const U32: nat := 0x1_0000_0000
  const U64: nat := 0x1_0000_0000_0000_0000

  /** The index of the frame an address lies in. */
  function PtrToFrame(ptr: nat): nat { ptr / 4096 }

  /** The address of a frame. */
  function FrameToPtr(frame: nat): nat { frame * 4096 }

  predicate Aligned(ptr: nat) { ptr % 4096 == 0 }

  /** A failed ASSERT panics and then spins for ever, so a call either halts
      the machine or returns a value. */
  datatype Outcome<+T> = Halted | Returned(value: T)

  datatype Option<+T> = None | Some(value: T)

  /** Unsigned 64-bit subtraction. */
  function Sub64(a: nat, b: nat): (d: nat)
    requires a < U64 && b < U64
    ensures d < U64 && (b <= a ==> d == a - b) && (a < b ==> d == U64 - (b - a))
  {
    (a + U64 - b) % U64
  }

  lemma MulMono(a: int, b: int, d: nat)
    ensures a <= b ==> a * d <= b * d
  {
  }

  lemma ModUnique(x: nat, d: nat, q: int, r: nat)
    requires d > 0 && x == q * d + r && r < d
    ensures x % d == r && x / d == q
  {
    var p := x / d;
    assert x == p * d + x % d;
    MulMono(p + 1, q, d);
    MulMono(q + 1, p, d);
  }

  /** A remainder by a product, read digit by digit. */
  lemma ModSplit(v: nat, a: nat, b: nat)
    requires a > 0 && b > 0
    ensures a * b > 0 && v % (a * b) == v / a % b * a + v % a
  {
    var q, r := v / a / b, v / a % b;
    assert v == v / a * a + v % a;
    assert v / a == q * b + r;
    assert v == q * (a * b) + (r * a + v % a) by {
      assert (q * b + r) * a == q * (a * b) + r * a;
    }
    MulMono(r + 1, b, a);
    assert b * a == a * b && (r + 1) * a == r * a + a;
    MulMono(1, a * b, 1);
    ModUnique(v, a * b, q, r * a + v % a);
  }

  /** Cutting twice is cutting to the smaller size. */
  lemma ModTwice(v: nat, a: nat, b: nat)
    requires a > 0 && b > 0
    ensures a * b > 0 && v % (a * b) % a == v % a
  {
    ModSplit(v, a, b);
    ModUnique(v % (a * b), a, v / a % b, v % a);
  }
}
