/** Formatted printing. */
module Printf {
  import opened Machine
  import opened Screen
  import opened Stdlib
  import opened Consoles

  datatype Arg = Str(s: string) | Num(n: nat)

  /** The directives that read an argument. */
  predicate Takes(c: char) { c == 's' || c == 'd' || c == 'p' }

  /** The argument is of the kind that directive `c` reads. */
  predicate Suits(c: char, arg: Arg) {
    if c == 's' then arg.Str? else arg.Num? && arg.n < U64
  }

  /** The text of an argument: a string, a decimal or a hexadecimal number. */
  function Rendered(c: char, arg: Arg): string
    requires Suits(c, arg)
  {
    if c == 's' then arg.s else if c == 'd' then Digits(arg.n, 10) else Digits(arg.n, 16)
  }

  /** The arguments are there, in order, and of the kind each directive reads;
      what C leaves undefined otherwise. */
  predicate Matches(fmt: string, args: seq<Arg>)
    decreases |fmt|
  {
    if fmt == [] then true
    else if fmt[0] != '%' then Matches(fmt[1..], args)
    else if |fmt| == 1 then true
    else if Takes(fmt[1]) then |args| > 0 && Suits(fmt[1], args[0]) && Matches(fmt[2..], args[1..])
    else Matches(fmt[2..], args)
  }

  /** The expansion of a format: the text of the next argument for the three
      directives; any other directive, and a lone percent sign at the end, yield
      nothing and read no argument. */
  function Expand(fmt: string, args: seq<Arg>): string
    requires Matches(fmt, args)
    decreases |fmt|
  {
    if fmt == [] then []
    else if fmt[0] != '%' then [fmt[0]] + Expand(fmt[1..], args)
    else if |fmt| == 1 then []
    else if Takes(fmt[1]) then Rendered(fmt[1], args[0]) + Expand(fmt[2..], args[1..])
    else Expand(fmt[2..], args)
  }

  /** What a directive yields: `%d` and `%p` the canonical decimal and hexadecimal
      numeral of any 64-bit number, `%s` the string. */
  lemma DirectiveYields(n: nat, s: string)
    requires n < U64
    ensures Matches("%d", [Num(n)]) && Matches("%p", [Num(n)]) && Matches("%s", [Str(s)])
    ensures var t := Expand("%d", [Num(n)]); Canonical(t, 10) && Parse(t, 10) == n
    ensures var t := Expand("%p", [Num(n)]); Canonical(t, 16) && Parse(t, 16) == n
    ensures Expand("%s", [Str(s)]) == s
  {
    OneDirective('d', Num(n));
    OneDirective('p', Num(n));
    OneDirective('s', Str(s));
    ParseDigits(n, 10);
    ParseDigits(n, 16);
    DigitsCanonical(n, 10);
    DigitsCanonical(n, 16);
  }

  ghost predicate ExpandsTo(fmt: string, args: seq<Arg>, text: string) {
    Matches(fmt, args) && Expand(fmt, args) == text
  }

  lemma OneDirective(c: char, arg: Arg)
    requires Takes(c) && Suits(c, arg)
    ensures ExpandsTo(['%', c], [arg], Rendered(c, arg))
  {
    var f, a := ['%', c], [arg];
    assert f[2..] == [] && a[1..] == [];
    assert Rendered(c, arg) + [] == Rendered(c, arg);
  }

  /** Any other character is printed as it is, and behind a percent sign nothing
      is; neither reads an argument. */
  lemma OtherCharacters(c: char)
    ensures c != '%' ==> ExpandsTo([c], [], [c])
    ensures c != 's' && c != 'd' && c != 'p' ==> ExpandsTo(['%', c], [], [])
    ensures ExpandsTo("%", [], [])
    ensures c != '%' ==> Complete([c]) && Reads([c]) == 0
    ensures Complete(['%', c]) && Reads(['%', c]) == if c == 's' || c == 'd' || c == 'p' then 1 else 0
  {
    var f, g := [c], ['%', c];
    assert f[1..] == [] && g[2..] == [];
  }

  ghost predicate NulFree(args: seq<Arg>) {
    forall i :: 0 <= i < |args| && args[i].Str? ==> '\0' !in args[i].s
  }

  /** A format that does not end inside a directive. */
  predicate Complete(fmt: string)
    decreases |fmt|
  {
    if fmt == [] then true
    else if fmt[0] != '%' then Complete(fmt[1..])
    else |fmt| >= 2 && Complete(fmt[2..])
  }

  /** How many arguments a format reads. */
  function Reads(fmt: string): nat
    decreases |fmt|
  {
    if |fmt| == 0 then 0
    else if fmt[0] != '%' then Reads(fmt[1..])
    else if |fmt| == 1 then 0
    else (if Takes(fmt[1]) then 1 else 0) + Reads(fmt[2..])
  }

  /** Complete formats joined make a complete one, and their arguments add up. */
  lemma {:induction false} CompleteConcat(f: string, g: string)
    requires Complete(f)
    ensures Complete(f + g) <==> Complete(g)
    ensures Reads(f + g) == Reads(f) + Reads(g)
    decreases |f|
  {
    if f == [] {
      assert f + g == g;
    } else if f[0] != '%' {
      assert (f + g)[1..] == f[1..] + g;
      CompleteConcat(f[1..], g);
    } else {
      assert (f + g)[2..] == f[2..] + g;
      CompleteConcat(f[2..], g);
    }
  }

  /** Expansion distributes over formats joined outside a directive. */
  lemma {:induction false} ExpandConcat(f: string, g: string, a: seq<Arg>, b: seq<Arg>)
    requires Complete(f) && Matches(f, a) && |a| == Reads(f) && Matches(g, b)
    ensures Matches(f + g, a + b)
    ensures Expand(f + g, a + b) == Expand(f, a) + Expand(g, b)
    decreases |f|
  {
    if f == [] {
      assert f + g == g && a + b == b;
    } else if f[0] != '%' {
      ExpandConcat(f[1..], g, a, b);
      ConcatLiteral(f, g, a, b);
    } else if Takes(f[1]) {
      ExpandConcat(f[2..], g, a[1..], b);
      ConcatReading(f, g, a, b);
    } else {
      ExpandConcat(f[2..], g, a, b);
      ConcatSilent(f, g, a, b);
    }
  }

  ghost predicate Distributes(f: string, g: string, a: seq<Arg>, b: seq<Arg>) {
    && Matches(f, a) && Matches(g, b) && Matches(f + g, a + b)
    && Expand(f + g, a + b) == Expand(f, a) + Expand(g, b)
  }

  lemma ConcatLiteral(f: string, g: string, a: seq<Arg>, b: seq<Arg>)
    requires f != [] && f[0] != '%' && Distributes(f[1..], g, a, b)
    ensures Distributes(f, g, a, b)
  {
    assert (f + g)[1..] == f[1..] + g;
  }

  lemma ConcatReading(f: string, g: string, a: seq<Arg>, b: seq<Arg>)
    requires |f| > 1 && f[0] == '%' && Matches(f, a) && Takes(f[1])
    requires Distributes(f[2..], g, a[1..], b)
    ensures Distributes(f, g, a, b)
  {
    var h, c := f + g, a + b;
    assert h[0] == '%' && h[1] == f[1] && h[2..] == f[2..] + g;
    assert c[0] == a[0] && c[1..] == a[1..] + b;
    ReadingJoin(f, a, h, c, Expand(g, b));
  }

  /** Two formats that start with the same directive and read the same argument:
      what their rests add is what they add. */
  lemma ReadingJoin(f: string, a: seq<Arg>, h: string, c: seq<Arg>, more: string)
    requires |f| > 1 && f[0] == '%' && Takes(f[1]) && Matches(f, a)
    requires |h| > 1 && h[0] == '%' && h[1] == f[1] && |c| > 0 && c[0] == a[0]
    requires Matches(h[2..], c[1..]) && Expand(h[2..], c[1..]) == Expand(f[2..], a[1..]) + more
    ensures Matches(h, c) && Expand(h, c) == Expand(f, a) + more
  {
    var text := Rendered(f[1], a[0]);
    assert text + (Expand(f[2..], a[1..]) + more) == text + Expand(f[2..], a[1..]) + more;
  }

  lemma ConcatSilent(f: string, g: string, a: seq<Arg>, b: seq<Arg>)
    requires |f| > 1 && f[0] == '%' && !Takes(f[1])
    requires Distributes(f[2..], g, a, b)
    ensures Distributes(f, g, a, b)
  {
    assert (f + g)[2..] == f[2..] + g;
  }

  /** The part of a format that is still to be read, when the loop has seen a
      percent sign or not. */
  ghost function Unread(isPercent: bool, rest: string): string {
    if isPercent then "%" + rest else rest
  }

  /** Write `text` behind the first `j` characters of the buffer. */
  method Append(buf: array<char>, j: nat, text: string)
    requires j + |text| <= buf.Length
    modifies buf
    ensures buf[..j + |text|] == old(buf[..j]) + text
  {
    MemCpy(buf, j, text);
  }

  /** Format a number through the 64-byte scratch buffer. */
  method AppendNumber(buf: array<char>, j: nat, tempBuf: array<char>, num: nat, base: nat) returns (tempLen: nat)
    requires num < U64 && (base == 10 || base == 16) && tempBuf.Length == 64 && buf != tempBuf
    requires j + |Digits(num, base)| <= buf.Length
    modifies buf, tempBuf
    ensures tempLen == |Digits(num, base)|
    ensures buf[..j + tempLen] == old(buf[..j]) + Digits(num, base)
  {
    DecimalAndHexLength(num);
    Itoa(num, tempBuf, base);
    CStringStops(tempBuf[..]);
    tempLen := StrLen(tempBuf);
    Append(buf, j, tempBuf[..tempLen]);
  }

  lemma {:induction false} CStringStops(a: seq<char>)
    requires |CString(a)| < |a|
    ensures a[|CString(a)|] == '\0'
  {
    if a[0] != '\0' {
      CStringStops(a[1..]);
    }
  }

  /** What is in the buffer and what is still to come make up the expansion. */
  ghost predicate Progress(done: string, isPercent: bool, rest: string, left: seq<Arg>, fmt: string, args: seq<Arg>) {
    && Matches(fmt, args) && Matches(Unread(isPercent, rest), left)
    && done + Expand(Unread(isPercent, rest), left) == Expand(fmt, args)
  }

  /** Reading the character behind a percent sign. */
  lemma DirectiveStep(done: string, c: char, rest: string, left: seq<Arg>, fmt: string, args: seq<Arg>)
    requires Progress(done, true, [c] + rest, left, fmt, args)
    ensures !Takes(c) ==> Progress(done, false, rest, left, fmt, args)
    ensures Takes(c) ==>
              && |left| > 0 && Suits(c, left[0])
              && |done + Rendered(c, left[0])| <= |Expand(fmt, args)|
              && Progress(done + Rendered(c, left[0]), false, rest, left[1..], fmt, args)
  {
    var f := Unread(true, [c] + rest);
    assert f[0] == '%' && f[1] == c && f[2..] == rest;
    if Takes(c) {
      assert done + (Rendered(c, left[0]) + Expand(rest, left[1..]))
          == done + Rendered(c, left[0]) + Expand(rest, left[1..]);
    }
  }

  /** The same, at position `i` of the format and argument `k`. */
  lemma DirectiveAt(done: string, fmt: string, args: seq<Arg>, i: nat, k: nat)
    requires i < |fmt| && k <= |args| && Progress(done, true, fmt[i..], args[k..], fmt, args)
    ensures !Takes(fmt[i]) ==> Progress(done, false, fmt[i + 1..], args[k..], fmt, args)
    ensures Takes(fmt[i]) ==>
              && k < |args| && Suits(fmt[i], args[k])
              && |done + Rendered(fmt[i], args[k])| <= |Expand(fmt, args)|
              && Progress(done + Rendered(fmt[i], args[k]), false, fmt[i + 1..], args[k + 1..], fmt, args)
  {
    assert fmt[i..] == [fmt[i]] + fmt[i + 1..];
    DirectiveStep(done, fmt[i], fmt[i + 1..], args[k..], fmt, args);
    if Takes(fmt[i]) {
      assert args[k..][1..] == args[k + 1..] && args[k..][0] == args[k];
    }
  }

  lemma PercentStep(done: string, rest: string, left: seq<Arg>, fmt: string, args: seq<Arg>)
    requires Progress(done, false, "%" + rest, left, fmt, args)
    ensures Progress(done, true, rest, left, fmt, args)
  {
  }

  lemma LiteralStep(done: string, c: char, rest: string, left: seq<Arg>, fmt: string, args: seq<Arg>)
    requires Progress(done, false, [c] + rest, left, fmt, args) && c != '%'
    ensures Progress(done + [c], false, rest, left, fmt, args) && |done + [c]| <= |Expand(fmt, args)|
  {
  }

  lemma {:induction false} ExpandNulFree(fmt: string, args: seq<Arg>)
    requires Matches(fmt, args) && '\0' !in fmt && NulFree(args)
    ensures '\0' !in Expand(fmt, args)
    decreases |fmt|
  {
    if |fmt| > 1 && fmt[0] == '%' {
      if Takes(fmt[1]) {
        ExpandNulFree(fmt[2..], args[1..]);
      } else {
        ExpandNulFree(fmt[2..], args);
      }
    } else if |fmt| > 0 && fmt[0] != '%' {
      ExpandNulFree(fmt[1..], args);
    }
  }

  /** The directive `c` with the next argument, at offset `j` of the buffer. */
  method PutDirective(buf: array<char>, j: nat, tempBuf: array<char>, c: char, arg: Arg) returns (len: nat)
    requires Takes(c) && Suits(c, arg)
    requires tempBuf.Length == 64 && buf != tempBuf
    requires j + |Rendered(c, arg)| <= buf.Length
    modifies buf, tempBuf
    ensures len == |Rendered(c, arg)|
    ensures buf[..j + len] == old(buf[..j]) + Rendered(c, arg)
  {
    if c == 's' {
      len := |arg.s|;
      Append(buf, j, arg.s);
    } else if c == 'd' {
      len := AppendNumber(buf, j, tempBuf, arg.n, 10);
    } else {
      len := AppendNumber(buf, j, tempBuf, arg.n, 16);
    }
  }

  /** Read the character behind a percent sign. */
  method PutAfterPercent(buf: array<char>, tempBuf: array<char>, fmt: string, args: seq<Arg>, i: nat, j: nat, k: nat)
    returns (j': nat, k': nat)
    requires i < |fmt| && k <= |args| && j < buf.Length && tempBuf.Length == 64 && buf != tempBuf
    requires Progress(buf[..j], true, fmt[i..], args[k..], fmt, args) && |Expand(fmt, args)| < buf.Length
    modifies buf, tempBuf
    ensures j' < buf.Length && k' <= |args|
    ensures Progress(buf[..j'], false, fmt[i + 1..], args[k'..], fmt, args)
  {
    var c := fmt[i];
    DirectiveAt(buf[..j], fmt, args, i, k);
    if Takes(c) {
      var len := PutDirective(buf, j, tempBuf, c, args[k]);
      j', k' := j + len, k + 1;
    } else {
      j', k' := j, k;
    }
  }

  /** Read a character that is not behind a percent sign. */
  method PutPlain(buf: array<char>, fmt: string, ghost args: seq<Arg>, i: nat, j: nat, ghost left: seq<Arg>)
    returns (j': nat, isPercent: bool)
    requires i < |fmt| && j < buf.Length
    requires Progress(buf[..j], false, fmt[i..], left, fmt, args) && |Expand(fmt, args)| < buf.Length
    modifies buf
    ensures j' < buf.Length && Progress(buf[..j'], isPercent, fmt[i + 1..], left, fmt, args)
  {
    var c := fmt[i];
    ghost var rest, done := fmt[i + 1..], buf[..j];
    assert fmt[i..] == [c] + rest;
    if c == '%' {
      PercentStep(done, rest, left, fmt, args);
      return j, true;
    }
    LiteralStep(done, c, rest, left, fmt, args);
    buf[j] := c;
    assert buf[..j + 1] == done + [c];
    return j + 1, false;
  }

  /** The loop of the formatter; the flag remembers a percent sign. */
  method Fill(buf: array<char>, tempBuf: array<char>, fmt: string, args: seq<Arg>) returns (j: nat)
    requires Matches(fmt, args) && |Expand(fmt, args)| < buf.Length && tempBuf.Length == 64 && buf != tempBuf
    modifies buf, tempBuf
    ensures j < buf.Length && buf[..j] == Expand(fmt, args)
  {
    var i, k, isPercent := 0, 0, false;
    j := 0;
    assert fmt[0..] == fmt && args[0..] == args;
    while i < |fmt|
      invariant 0 <= i <= |fmt| && j < buf.Length && 0 <= k <= |args|
      invariant Progress(buf[..j], isPercent, fmt[i..], args[k..], fmt, args)
    {
      if isPercent {
        j, k := PutAfterPercent(buf, tempBuf, fmt, args, i, j, k);
        isPercent := false;
      } else {
        j, isPercent := PutPlain(buf, fmt, args, i, j, args[k..]);
      }
      i := i + 1;
    }
    assert Expand(Unread(isPercent, fmt[i..]), args[k..]) == [];
  }

  /** The text the formatter leaves in its 4096-byte buffer is the expansion of
      the format, whenever that fits. */
  method Format(fmt: string, args: seq<Arg>) returns (buf: array<char>)
    requires '\0' !in fmt && NulFree(args) && |fmt| < 0x1_0000
    requires Matches(fmt, args) && |Expand(fmt, args)| < 4096
    ensures fresh(buf) && '\0' in buf[..] && CString(buf[..]) == Expand(fmt, args)
  {
    buf := new char[4096](_ => '\0');
    var tempBuf := new char[64](_ => '\0');
    var j := Fill(buf, tempBuf, fmt, args);
    buf[j] := '\0';
    ExpandNulFree(fmt, args);
    CStringIs(buf[..], j);
  }

  /** Printing a format prints its expansion: the screen shows the window of the
      page on which that text has been laid out. */
  method Vprintf(con: Console, fmt: string, args: seq<Arg>)
    requires con.Valid() && '\0' !in fmt && NulFree(args) && |fmt| < 0x1_0000
    requires Matches(fmt, args) && |Expand(fmt, args)| < 4096
    requires Safe(con.page, con.top, Expand(fmt, args))
    modifies con, con.cells
    ensures con.Valid()
    ensures con.page == FeedAll(old(con.page), old(con.top), Expand(fmt, args))
    ensures con.top == ScrollAll(old(con.page), old(con.top), Expand(fmt, args))
  {
    var buf := Format(fmt, args);
    con.Print(buf);
  }
}
