/** The kernel's C library: string length, in-place reversal, byte copies and
    number formatting. */
module Stdlib {
  import opened Machine

  // ---- C strings ----

  /** The text before the first NUL. */
  ghost function CString(a: seq<char>): (s: seq<char>)
    ensures |s| <= |a| && s == a[..|s|] && '\0' !in s
    ensures '\0' in a ==> |s| < |a| && a[|s|] == '\0'
  {
    if a == [] || a[0] == '\0' then [] else [a[0]] + CString(a[1..])
  }

  lemma CStringIs(a: seq<char>, n: nat)
    requires n < |a| && a[n] == '\0' && '\0' !in a[..n]
    ensures CString(a) == a[..n]
  {
  }

  method StrLen(str: array<char>) returns (count: nat)
    requires '\0' in str[..]
    ensures count == |CString(str[..])|
  {
    count := 0;
    ghost var k := |CString(str[..])|;
    while str[count] != '\0'
      invariant 0 <= count <= k
      decreases str.Length - count
    {
      count := count + 1;
    }
    assert '\0' !in str[..k];
    assert forall j :: 0 <= j < k ==> str[..k][j] == str[j];
  }

  // ---- Reversal ----

  ghost function Reverse<T>(s: seq<T>): (r: seq<T>)
    ensures |r| == |s|
    ensures forall k :: 0 <= k < |s| ==> r[k] == s[|s| - 1 - k]
  {
    seq(|s|, k requires 0 <= k < |s| => s[|s| - 1 - k])
  }

  lemma ReverseTwice<T>(s: seq<T>)
    ensures Reverse(Reverse(s)) == s
  {
  }

  method StrReverse(str: array<char>, len: nat)
    requires len <= str.Length
    modifies str
    ensures str[..len] == Reverse(old(str[..len]))
    ensures str[len..] == old(str[len..])
  {
    var i := 0;
    while i < len / 2
      invariant 0 <= i <= len / 2
      invariant forall k :: 0 <= k < i ==> str[k] == old(str[len - 1 - k]) && str[len - 1 - k] == old(str[k])
      invariant forall k :: i <= k < len - i ==> str[k] == old(str[k])
      invariant forall k :: len <= k < str.Length ==> str[k] == old(str[k])
    {
      var temp := str[i];
      str[i] := str[len - i - 1];
      str[len - i - 1] := temp;
      i := i + 1;
    }
    forall k | 0 <= k < len
      ensures str[..len][k] == Reverse(old(str[..len]))[k]
    {
      assert old(str[..len])[len - 1 - k] == old(str[len - 1 - k]);
    }
  }

  // ---- Copies ----

  /** Where element `j` of the destination comes from when a buffer is copied
      forward within itself: its counterpart in the source, or, when the
      destination starts inside the source, the element that repeats there. */
  function Origin(dest: nat, src: nat, n: nat, j: nat): (k: nat)
    requires dest <= j < dest + n
    ensures src <= k < src + n
    ensures dest <= src || src + n <= dest ==> k == j - dest + src
  {
    if src < dest < src + n
    then
      assert (j - dest) % (dest - src) < dest - src;
      src + (j - dest) % (dest - src)
    else j - dest + src
  }

  /** What the loop reads in turn `i` is what belongs at `dest + i`. */
  lemma OriginStep(dest: nat, src: nat, n: nat, i: nat)
    requires i < n
    ensures src < dest <= src + i < dest + i ==> Origin(dest, src, n, dest + i) == Origin(dest, src, n, src + i)
    ensures !(src < dest <= src + i) ==> Origin(dest, src, n, dest + i) == src + i
  {
    if src < dest < src + n {
      RepeatStep(i, dest - src);
    }
  }

  /** Copy forward, one element at a time, within one buffer. */
  method MemCpyWithin<T>(a: array<T>, dest: nat, src: nat, n: nat)
    requires dest + n <= a.Length && src + n <= a.Length
    modifies a
    ensures forall j :: dest <= j < dest + n ==> a[j] == old(a[Origin(dest, src, n, j)])
    ensures forall j :: 0 <= j < dest || dest + n <= j < a.Length ==> a[j] == old(a[j])
  {
    var i := 0;
    while i < n
      invariant 0 <= i <= n
      invariant forall j :: 0 <= j < dest || dest + i <= j < a.Length ==> a[j] == old(a[j])
      invariant forall j :: dest <= j < dest + i ==> a[j] == old(a[Origin(dest, src, n, j)])
    {
      OriginStep(dest, src, n, i);
      a[dest + i] := a[src + i];
      i := i + 1;
    }
  }

  // ---- Arithmetic ----

  lemma RepeatStep(i: nat, d: nat)
    requires d > 0
    ensures i < d ==> i % d == i
    ensures i >= d ==> i % d == (i - d) % d
  {
    if i < d {
      ModUnique(i, d, 0, i);
    } else {
      var p := i / d;
      assert i - d == (p - 1) * d + i % d;
      ModUnique(i - d, d, p - 1, i % d);
    }
  }

  lemma DivFacts(n: nat, d: nat)
    requires 2 <= d <= n
    ensures 0 < n / d < n && n == n / d * d + n % d && n % d < d
  {
  }

  /** Copy `src` into a buffer at offset `dest`. */
  method MemCpy<T>(a: array<T>, dest: nat, src: seq<T>)
    requires dest + |src| <= a.Length
    modifies a
    ensures forall j :: dest <= j < dest + |src| ==> a[j] == src[j - dest]
    ensures forall j :: 0 <= j < dest || dest + |src| <= j < a.Length ==> a[j] == old(a[j])
  {
    var i := 0;
    while i < |src|
      invariant 0 <= i <= |src|
      invariant forall j :: dest <= j < dest + i ==> a[j] == src[j - dest]
      invariant forall j :: 0 <= j < dest || dest + i <= j < a.Length ==> a[j] == old(a[j])
    {
      a[dest + i] := src[i];
      i := i + 1;
    }
  }

  // ---- Numbers ----

  function DigitChar(r: nat): (c: char)
    requires r < 36
    ensures IsDigit(c) && DigitValue(c) == r
    ensures c == '0' <==> r == 0
  {
    if r > 9 then (r - 10 + 'a' as int) as char else (r + '0' as int) as char
  }

  predicate IsDigit(c: char) { '0' <= c <= '9' || 'a' <= c <= 'z' }

  function DigitValue(c: char): nat {
    if '0' <= c <= '9' then c as nat - '0' as nat
    else if 'a' <= c <= 'z' then c as nat - 'a' as nat + 10
    else 0
  }

  /** The digits, in order of their values. */
  lemma DigitAlphabet(r: nat)
    requires r < 36
    ensures DigitChar(r) == "0123456789abcdefghijklmnopqrstuvwxyz"[r]
    ensures DigitValue("0123456789abcdefghijklmnopqrstuvwxyz"[r]) == r
  {
  }

  lemma DigitBack(c: char)
    requires IsDigit(c)
    ensures DigitValue(c) < 36 && DigitChar(DigitValue(c)) == c
  {
  }

  /** The number in the given base, most significant digit first. */
  function Digits(n: nat, base: nat): (s: seq<char>)
    requires 2 <= base <= 36
    ensures |s| > 0 && '\0' !in s
    decreases n
  {
    if n < base then [DigitChar(n)]
    else
      assert n / base < n by { DivFacts(n, base); }
      Digits(n / base, base) + [DigitChar(n % base)]
  }

  /** Reading a numeral back. */
  function Parse(s: seq<char>, base: nat): nat {
    if s == [] then 0 else Parse(s[..|s| - 1], base) * base + DigitValue(s[|s| - 1])
  }

  lemma ParseAppend(s: seq<char>, c: char, base: nat)
    ensures Parse(s + [c], base) == Parse(s, base) * base + DigitValue(c)
  {
  }

  lemma ParseDigit(s: seq<char>, q: nat, r: nat, base: nat)
    requires Parse(s, base) == q && r < 36
    ensures Parse(s + [DigitChar(r)], base) == q * base + r
  {
    ParseAppend(s, DigitChar(r), base);
  }

  /** A numeral without a superfluous leading zero. */
  ghost predicate Canonical(s: seq<char>, base: nat) {
    && |s| > 0
    && (forall i :: 0 <= i < |s| ==> IsDigit(s[i]) && DigitValue(s[i]) < base)
    && (s[0] == '0' ==> |s| == 1)
  }

  /** Parsing the digits of a number gives the number back. */
  lemma {:induction false} ParseDigits(n: nat, base: nat)
    requires 2 <= base <= 36
    ensures Parse(Digits(n, base), base) == n
    decreases n
  {
    if n < base {
      ParseAppend([], DigitChar(n), base);
      assert [] + [DigitChar(n)] == Digits(n, base);
    } else {
      DivFacts(n, base);
      ParseDigits(n / base, base);
      ParseDigit(Digits(n / base, base), n / base, n % base, base);
    }
  }

  /** The digits of a number have no superfluous leading zero. */
  lemma {:induction false} DigitsCanonical(n: nat, base: nat)
    requires 2 <= base <= 36
    ensures Canonical(Digits(n, base), base)
    ensures Digits(n, base)[0] == '0' <==> n == 0
    decreases n
  {
    if n >= base {
      DivFacts(n, base);
      DigitsCanonical(n / base, base);
    }
  }

  lemma DigitsStep(v: nat, d: nat, base: nat)
    requires 2 <= base <= 36 && v > 0 && d < base
    ensures Digits(v * base + d, base) == Digits(v, base) + [DigitChar(d)]
  {
    MulMono(1, v, base);
    ModUnique(v * base + d, base, v, d);
  }

  lemma CanonicalFront(s: seq<char>, base: nat)
    requires Canonical(s, base) && |s| > 1
    ensures Canonical(s[..|s| - 1], base) && s[..|s| - 1][0] == s[0] != '0'
    ensures IsDigit(s[|s| - 1]) && DigitValue(s[|s| - 1]) < base
  {
  }

  /** The digits of the value of a canonical numeral are that numeral. */
  lemma {:induction false} DigitsParse(s: seq<char>, base: nat)
    requires 2 <= base <= 36 && Canonical(s, base)
    ensures Digits(Parse(s, base), base) == s
    ensures s[0] != '0' ==> Parse(s, base) > 0
  {
    if |s| == 1 {
      OneDigit(s, base);
    } else {
      CanonicalFront(s, base);
      DigitsParse(s[..|s| - 1], base);
      LastDigit(s, base);
    }
  }

  lemma OneDigit(s: seq<char>, base: nat)
    requires 2 <= base <= 36 && |s| == 1 && IsDigit(s[0]) && DigitValue(s[0]) < base
    ensures Digits(Parse(s, base), base) == s && (s[0] != '0' ==> Parse(s, base) > 0)
  {
  }

  lemma LastDigit(s: seq<char>, base: nat)
    requires 2 <= base <= 36 && |s| > 1 && IsDigit(s[|s| - 1]) && DigitValue(s[|s| - 1]) < base
    requires Parse(s[..|s| - 1], base) > 0 && Digits(Parse(s[..|s| - 1], base), base) == s[..|s| - 1]
    ensures Digits(Parse(s, base), base) == s && Parse(s, base) > 0
  {
    var front, c := s[..|s| - 1], s[|s| - 1];
    var v := Parse(front, base);
    assert s == front + [c];
    ParseAppend(front, c, base);
    DigitBack(c);
    DigitsStep(v, DigitValue(c), base);
    MulMono(1, v, base);
  }

  function Pow(b: nat, k: nat): nat {
    if k == 0 then 1 else b * Pow(b, k - 1)
  }

  lemma MulAssoc(a: nat, b: nat, c: nat)
    ensures a * (b * c) == a * b * c
  {
  }

  lemma {:induction false} PowAdd(b: nat, j: nat, k: nat)
    ensures Pow(b, j + k) == Pow(b, j) * Pow(b, k)
  {
    if j > 0 {
      PowAdd(b, j - 1, k);
      MulAssoc(b, Pow(b, j - 1), Pow(b, k));
    }
  }

  lemma {:induction false} DigitsLength(n: nat, base: nat, k: nat)
    requires 2 <= base <= 36 && k > 0 && n < Pow(base, k)
    ensures |Digits(n, base)| <= k
    decreases k
  {
    if n >= base {
      DivFacts(n, base);
      assert Pow(base, 1) == base * Pow(base, 0);
      MulMono(Pow(base, k - 1), n / base, base);
      DigitsLength(n / base, base, k - 1);
    }
  }

  /** Decimal and hexadecimal numerals of 64-bit numbers fit a 64-byte buffer. */
  lemma DecimalAndHexLength(n: nat)
    requires n < U64
    ensures |Digits(n, 10)| <= 20 && |Digits(n, 16)| <= 16
  {
    assert Pow(10, 2) == 100;
    PowAdd(10, 2, 2);
    PowAdd(10, 4, 4);
    PowAdd(10, 8, 8);
    PowAdd(10, 16, 4);
    DigitsLength(n, 10, 20);
    assert Pow(16, 2) == 256;
    PowAdd(16, 2, 2);
    PowAdd(16, 4, 4);
    PowAdd(16, 8, 8);
    DigitsLength(n, 16, 16);
  }

  /** Write the numeral of `num` and a NUL at the start of the buffer. */
  method Itoa(num: nat, buf: array<char>, base: nat)
    requires 2 <= base <= 36 && num < U64 && |Digits(num, base)| < buf.Length
    modifies buf
    ensures CString(buf[..]) == Digits(num, base)
  {
    if num == 0 {
      buf[0] := '0';
      buf[1] := '\0';
      CStringIs(buf[..], 1);
      assert buf[..][..1] == ['0'];
      return;
    }
    var i := WriteDigits(num, buf, base);
    buf[i] := '\0';
    StrReverse(buf, i);
    assert buf[i] == buf[i..][0] == '\0';
    ReverseTwice(Digits(num, base));
    CStringIs(buf[..], i);
  }

  /** The digits of `num`, least significant first. */
  method WriteDigits(num: nat, buf: array<char>, base: nat) returns (i: nat)
    requires 2 <= base <= 36 && 0 < num < U64 && |Digits(num, base)| < buf.Length
    modifies buf
    ensures i == |Digits(num, base)| && buf[..i] == Reverse(Digits(num, base))
  {
    var m: nat := num;
    i := 0;
    while m != 0
      invariant i < buf.Length && OrEmpty(m, base) + Reverse(buf[..i]) == Digits(num, base)
    {
      var rem := m % base;
      ghost var before := buf[..i];
      OrEmptyStep(m, base);
      DigitWritten(m, base, m / base, rem, before, Digits(num, base));
      buf[i] := if rem > 9 then (rem - 10 + 'a' as int) as char else (rem + '0' as int) as char;
      i := i + 1;
      assert buf[..i] == before + [DigitChar(rem)];
      m := m / base;
    }
    ReverseTwice(buf[..i]);
  }

  lemma DigitWritten(m: nat, base: nat, q: nat, rem: nat, before: seq<char>, all: seq<char>)
    requires 2 <= base <= 36 && m > 0 && q == m / base && rem == m % base && rem < base
    requires OrEmpty(m, base) + Reverse(before) == all
    ensures OrEmpty(q, base) + Reverse(before + [DigitChar(rem)]) == all
    ensures |before| + 1 <= |all|
  {
    OrEmptyStep(m, base);
    ReverseAppend(before, DigitChar(rem));
  }

  ghost function OrEmpty(m: nat, base: nat): seq<char>
    requires 2 <= base <= 36
  {
    if m == 0 then [] else Digits(m, base)
  }

  lemma OrEmptyStep(m: nat, base: nat)
    requires 2 <= base <= 36 && m > 0
    ensures m % base < base && m / base < m
    ensures OrEmpty(m / base, base) + [DigitChar(m % base)] == OrEmpty(m, base)
  {
    if m < base {
      ModUnique(m, base, 0, m);
    } else {
      DivFacts(m, base);
    }
  }

  lemma ReverseAppend<T>(s: seq<T>, x: T)
    ensures Reverse(s + [x]) == [x] + Reverse(s)
  {
  }
}
