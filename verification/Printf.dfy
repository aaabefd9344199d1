/**
  The formatter of libc/src/stdio/printf.c.  Text goes through a 32-byte buffer that is
  flushed when full and before every conversion; what reaches `puts`, put together, is the
  plain rendering of the format.
 */
module Printf {

  const NUL: char := '\0'
  const BUF_LEN: nat := 32

  datatype Arg = Chr(c: char) | Str(s: string) | Ptr(p: nat)

  /** What `puts` shows of a buffer: everything before the first NUL. */
  function Text(s: string): string { if s == "" || s[0] == NUL then "" else [s[0]] + Text(s[1..]) }

  function Concat(calls: seq<string>): string {
    if calls == [] then "" else Concat(calls[..|calls| - 1]) + calls[|calls| - 1]
  }

  predicate NulFree(s: string) { NUL !in s }

  lemma {:induction false} TextStops(s: string, n: nat)
    requires n < |s| && s[n] == NUL && NulFree(s[..n])
    ensures Text(s) == s[..n]
  {
    if n > 0 {
      assert s[0] in s[..n] && s[1..][..n - 1] == s[..n][1..];
      TextStops(s[1..], n - 1);
      assert s[..n] == [s[0]] + s[1..][..n - 1];
    }
  }

  lemma TextOne(c: char)
    ensures Text([c]) == if c == NUL then "" else [c]
  {
    assert [c][1..] == "" && Text("") == "";
  }

  // ----- pointers

  function Digit(d: nat): char
    requires d < 16
  {
    if d < 10 then '0' + d as char else 'A' + (d - 10) as char
  }

  /** The last `n` hexadecimal digits of `p`, most significant first. */
  function Hex(p: nat, n: nat): (s: string)
    ensures |s| == n
  {
    if n == 0 then "" else Hex(p / 16, n - 1) + [Digit(p % 16)]
  }

  function PointerText(p: nat): (s: string)
    ensures |s| == 18
  {
    "0x" + Hex(p, 16)
  }

  function Pow16(n: nat): nat { if n == 0 then 1 else 16 * Pow16(n - 1) }

  function DigitValue(c: char): nat {
    if '0' <= c <= '9' then (c - '0') as nat else if 'A' <= c <= 'F' then (c - 'A') as nat + 10 else 0
  }

  function Parse(s: string): nat { if s == "" then 0 else 16 * Parse(s[..|s| - 1]) + DigitValue(s[|s| - 1]) }

  lemma {:induction false} HexRoundTrip(p: nat, n: nat)
    requires p < Pow16(n)
    ensures Parse(Hex(p, n)) == p
  {
    if n > 0 {
      var q, d := p / 16, p % 16;
      assert p == 16 * q + d && q < Pow16(n - 1);
      HexRoundTrip(q, n - 1);
      ParseLast(Hex(q, n - 1), Digit(d));
      DigitRoundTrip(d);
    }
  }

  predicate HexDigit(c: char) { '0' <= c <= '9' || 'A' <= c <= 'F' }

  lemma {:induction false} HexDigits(p: nat, n: nat)
    ensures forall i :: 0 <= i < n ==> HexDigit(Hex(p, n)[i])
  {
    if n > 0 {
      HexDigits(p / 16, n - 1);
      DigitRoundTrip(p % 16);
    }
  }

  lemma ParseLast(s: string, c: char)
    ensures Parse(s + [c]) == 16 * Parse(s) + DigitValue(c)
  {
    assert (s + [c])[..|s|] == s;
  }

  lemma DigitRoundTrip(d: nat)
    requires d < 16
    ensures DigitValue(Digit(d)) == d && HexDigit(Digit(d))
  {
  }

  /** "0x" and sixteen upper-case digits, from which the pointer can be read back. */
  lemma PointerRoundTrip(p: nat)
    requires p < 0x1_0000_0000_0000_0000
    ensures PointerText(p)[..2] == "0x" && Parse(PointerText(p)[2..]) == p
    ensures forall i :: 2 <= i < 18 ==> HexDigit(PointerText(p)[i])
  {
    assert Pow16(8) == 0x1_0000_0000;
    assert Pow16(16) == 0x1_0000_0000_0000_0000 by {
      assert Pow16(10) == 256 * Pow16(8);
      assert Pow16(12) == 256 * Pow16(10);
      assert Pow16(14) == 256 * Pow16(12);
    }
    HexRoundTrip(p, 16);
    HexDigits(p, 16);
    assert PointerText(p)[2..] == Hex(p, 16);
  }

  lemma {:induction false} HexNulFree(p: nat, n: nat)
    ensures NulFree(Hex(p, n))
  {
    if n > 0 { HexNulFree(p / 16, n - 1); }
  }

  /** `pointer_print`: the digits are filled in from the last, and once nothing is left, with zeros. */
  method PointerPrint(p: nat) returns (call: string, n: nat)
    ensures call == PointerText(p) && n == |PointerText(p)|
  {
    var buf := new char[19];
    var ip := p;
    var i := 17;
    while i > 1
      invariant 1 <= i <= 17
      invariant Hex(p, 16) == Hex(ip, i - 1) + buf[i + 1..18]
    {
      if ip > 0 {
        buf[i] := Digit(ip % 16);
      } else {
        buf[i] := '0';
      }
      assert buf[i..18] == [buf[i]] + buf[i + 1..18];
      ip := ip / 16;
      i := i - 1;
    }
    buf[0], buf[1], buf[18] := '0', 'x', NUL;
    HexNulFree(p, 16);
    assert buf[..][..18] == "0x" + buf[2..18];
    TextStops(buf[..], 18);
    call, n := Text(buf[..]), 18;
  }

  // ----- formats

  predicate IsConversion(c: char) { c == 'c' || c == 's' || c == 'p' }

  /** The arguments are those the conversions ask for. */
  predicate Fits(fmt: string, args: seq<Arg>) {
    if fmt == "" then true
    else if fmt[0] != '%' then Fits(fmt[1..], args)
    else FitsEscaped(fmt[1..], args)
  }

  predicate FitsEscaped(fmt: string, args: seq<Arg>) {
    if fmt == "" then true
    else if IsConversion(fmt[0]) then
      args != [] && Suits(fmt[0], args[0]) && Fits(fmt[1..], args[1..])
    else Fits(fmt[1..], args)
  }

  predicate Suits(c: char, a: Arg) {
    match c
    case 'c' => a.Chr?
    case 's' => a.Str? && NulFree(a.s)
    case _ => a.Ptr?
  }

  /** The text of one conversion. */
  function Converted(c: char, args: seq<Arg>): string
    requires IsConversion(c) ==> args != [] && Suits(c, args[0])
  {
    match c
    case '%' => "%"
    case 'c' => Text([args[0].c])
    case 's' => args[0].s
    case 'p' => PointerText(args[0].p)
    case _ => ['%', c]
  }

  function ArgsAfter(c: char, args: seq<Arg>): seq<Arg>
    requires IsConversion(c) ==> args != []
  {
    if IsConversion(c) then args[1..] else args
  }

  /** The rendering without any buffer; `last` is what a lone % at the end gives. */
  function Render(fmt: string, args: seq<Arg>, last: string): string
    requires Fits(fmt, args)
  {
    if fmt == "" then ""
    else if fmt[0] != '%' then [fmt[0]] + Render(fmt[1..], args, last)
    else RenderEscaped(fmt[1..], args, last)
  }

  function RenderEscaped(fmt: string, args: seq<Arg>, last: string): string
    requires FitsEscaped(fmt, args)
  {
    if fmt == "" then last
    else Converted(fmt[0], args) + Render(fmt[1..], ArgsAfter(fmt[0], args), last)
  }

  /** What `formatted_print` counts: a %c counts one even if it is NUL. */
  function Count(fmt: string, args: seq<Arg>): nat
    requires Fits(fmt, args)
  {
    if fmt == "" then 0
    else if fmt[0] != '%' then 1 + Count(fmt[1..], args)
    else CountEscaped(fmt[1..], args)
  }

  function CountEscaped(fmt: string, args: seq<Arg>): nat
    requires FitsEscaped(fmt, args)
  {
    if fmt == "" then 0
    else (if fmt[0] == 'c' then 1 else |Converted(fmt[0], args)|) + Count(fmt[1..], ArgsAfter(fmt[0], args))
  }

  /** Some %c prints a NUL, which `puts` does not show. */
  predicate PrintsNul(fmt: string, args: seq<Arg>)
    requires Fits(fmt, args)
  {
    if fmt == "" then false
    else if fmt[0] != '%' then PrintsNul(fmt[1..], args)
    else PrintsNulEscaped(fmt[1..], args)
  }

  predicate PrintsNulEscaped(fmt: string, args: seq<Arg>)
    requires FitsEscaped(fmt, args)
  {
    fmt != "" && ((fmt[0] == 'c' && args[0].c == NUL) || PrintsNul(fmt[1..], ArgsAfter(fmt[0], args)))
  }

  /** The format ends in a % that starts no conversion. */
  predicate LonePercent(fmt: string) {
    if fmt == "" then false
    else if fmt[0] != '%' then LonePercent(fmt[1..])
    else |fmt| == 1 || LonePercent(fmt[2..])
  }

  /** The count is the length of the output exactly if no %c prints a NUL. */
  lemma {:induction false} CountIsLength(fmt: string, args: seq<Arg>)
    requires Fits(fmt, args)
    ensures |Render(fmt, args, "")| <= Count(fmt, args)
    ensures Count(fmt, args) == |Render(fmt, args, "")| <==> !PrintsNul(fmt, args)
    decreases |fmt|
  {
    if fmt != "" {
      if fmt[0] != '%' {
        CountIsLength(fmt[1..], args);
      } else if |fmt| > 1 {
        CountIsLength(fmt[1..][1..], ArgsAfter(fmt[1..][0], args));
        if fmt[1] == 'c' { TextOne(args[0].c); }
      }
    }
  }

  /**
    The comment in the source promises the final % of a format that ends in one; the output
    is the promised one exactly if there is no such %.
   */
  lemma {:induction false} TrailingPercentDropped(fmt: string, args: seq<Arg>)
    requires Fits(fmt, args)
    ensures Render(fmt, args, "") == Render(fmt, args, "%") <==> !LonePercent(fmt)
    decreases |fmt|
  {
    if fmt != "" {
      if fmt[0] != '%' {
        TrailingPercentDropped(fmt[1..], args);
        SameTail([fmt[0]], Render(fmt[1..], args, ""), Render(fmt[1..], args, "%"));
      } else if |fmt| > 1 {
        var c, rest := fmt[1..][0], fmt[1..][1..];
        assert rest == fmt[2..];
        TrailingPercentDropped(rest, ArgsAfter(c, args));
        SameTail(Converted(c, args), Render(rest, ArgsAfter(c, args), ""), Render(rest, ArgsAfter(c, args), "%"));
      }
    }
  }

  /** The format "%" prints nothing, where the promise is a "%". */
  lemma LonePercentLost()
    ensures LonePercent("%") && Fits("%", []) && Render("%", [], "") == "" && Render("%", [], "%") == "%"
  {
    assert "%"[1..] == "";
  }

  lemma SameTail(a: string, b: string, c: string)
    ensures a + b == a + c <==> b == c
  {
    assert (a + b)[|a|..] == b && (a + c)[|a|..] == c;
  }

  // ----- what formats mean, part by part

  /** The arguments a format leaves over. */
  function ArgsLeft(fmt: string, args: seq<Arg>): seq<Arg>
    requires Fits(fmt, args)
  {
    if fmt == "" then args
    else if fmt[0] != '%' then ArgsLeft(fmt[1..], args)
    else ArgsLeftEscaped(fmt[1..], args)
  }

  function ArgsLeftEscaped(fmt: string, args: seq<Arg>): seq<Arg>
    requires FitsEscaped(fmt, args)
  {
    if fmt == "" then args else ArgsLeft(fmt[1..], ArgsAfter(fmt[0], args))
  }

  /** A format made of two parts renders as the first and then, with what arguments are left, the second. */
  lemma {:induction false} RenderConcat(a: string, b: string, args: seq<Arg>, last: string)
    requires Fits(a, args) && !LonePercent(a) && Fits(b, ArgsLeft(a, args))
    ensures Fits(a + b, args)
    ensures Render(a + b, args, last) == Render(a, args, "") + Render(b, ArgsLeft(a, args), last)
    ensures Count(a + b, args) == Count(a, args) + Count(b, ArgsLeft(a, args))
    decreases |a|
  {
    if a == "" {
      assert a + b == b;
    } else if a[0] != '%' {
      RenderConcat(a[1..], b, args, last);
      assert (a + b)[1..] == a[1..] + b;
    } else {
      assert a[1..][0] == a[1] && a[1..][1..] == a[2..];
      RenderConcat(a[2..], b, ArgsAfter(a[1], args), last);
      ConcatEscaped(a, b, args, last);
    }
  }

  /** The same for a format that starts with a conversion, if it holds for the rest. */
  lemma ConcatEscaped(a: string, b: string, args: seq<Arg>, last: string)
    requires |a| >= 2 && a[0] == '%' && (IsConversion(a[1]) ==> args != [] && Suits(a[1], args[0]))
    requires var rest, left := a[2..], ArgsAfter(a[1], args);
             && Fits(rest, left) && Fits(b, ArgsLeft(rest, left)) && Fits(rest + b, left)
             && Render(rest + b, left, last) == Render(rest, left, "") + Render(b, ArgsLeft(rest, left), last)
             && Count(rest + b, left) == Count(rest, left) + Count(b, ArgsLeft(rest, left))
    ensures Fits(a, args) && Fits(b, ArgsLeft(a, args)) && Fits(a + b, args)
    ensures Render(a + b, args, last) == Render(a, args, "") + Render(b, ArgsLeft(a, args), last)
    ensures Count(a + b, args) == Count(a, args) + Count(b, ArgsLeft(a, args))
  {
    var rest, left := a[2..], ArgsAfter(a[1], args);
    ConversionFirst(a, args, "");
    assert (a + b)[1] == a[1] && (a + b)[2..] == rest + b;
    ConversionFirst(a + b, args, last);
    Move(Converted(a[1], args), Render(rest, left, ""), Render(b, ArgsLeft(rest, left), last));
  }

  /** A conversion at the front of a format. */
  lemma ConversionFirst(a: string, args: seq<Arg>, last: string)
    requires |a| >= 2 && a[0] == '%' && (IsConversion(a[1]) ==> args != [] && Suits(a[1], args[0]))
    requires Fits(a[2..], ArgsAfter(a[1], args))
    ensures Fits(a, args) && ArgsLeft(a, args) == ArgsLeft(a[2..], ArgsAfter(a[1], args))
    ensures Render(a, args, last) == Converted(a[1], args) + Render(a[2..], ArgsAfter(a[1], args), last)
    ensures Count(a, args) ==
            (if a[1] == 'c' then 1 else |Converted(a[1], args)|) + Count(a[2..], ArgsAfter(a[1], args))
  {
    assert a[1..][1..] == a[2..];
  }

  lemma Move(a: string, b: string, c: string)
    ensures a + (b + c) == a + b + c
  {
  }

  /** Text without a '%' stands for itself. */
  lemma {:induction false} RenderPlain(s: string, args: seq<Arg>)
    requires '%' !in s
    ensures Fits(s, args) && ArgsLeft(s, args) == args && !LonePercent(s)
    ensures Render(s, args, "") == s && Count(s, args) == |s|
  {
    if s != "" {
      assert s[0] in s && s[0] != '%' && s == [s[0]] + s[1..];
      RenderPlain(s[1..], args);
    }
  }

  /** One conversion alone. */
  lemma RenderOne(c: char, args: seq<Arg>)
    requires IsConversion(c) ==> args != [] && Suits(c, args[0])
    ensures Fits(['%', c], args) && !LonePercent(['%', c]) && ArgsLeft(['%', c], args) == ArgsAfter(c, args)
    ensures Render(['%', c], args, "") == Converted(c, args)
    ensures Count(['%', c], args) == if c == 'c' then 1 else |Converted(c, args)|
  {
    var fmt := ['%', c];
    assert fmt[1..] == [c] && [c][0] == c && [c][1..] == "" && fmt[2..] == "";
    assert Render("", ArgsAfter(c, args), "") == "" && Count("", ArgsAfter(c, args)) == 0;
    assert RenderEscaped([c], args, "") == Converted(c, args) + "";
    assert ArgsLeft("", ArgsAfter(c, args)) == ArgsAfter(c, args);
    assert CountEscaped([c], args) == if c == 'c' then 1 else |Converted(c, args)|;
    assert ArgsLeftEscaped([c], args) == ArgsAfter(c, args);
  }

  /** "%s" prints the string, all of it. */
  lemma RenderString(s: string, rest: seq<Arg>)
    requires NulFree(s)
    ensures Fits("%s", [Str(s)] + rest) && ArgsLeft("%s", [Str(s)] + rest) == rest
    ensures Render("%s", [Str(s)] + rest, "") == s && Count("%s", [Str(s)] + rest) == |s|
  {
    RenderOne('s', [Str(s)] + rest);
  }

  /** "%c" prints the character, unless it is NUL, and counts one. */
  lemma RenderCharacter(c: char, rest: seq<Arg>)
    ensures Fits("%c", [Chr(c)] + rest) && ArgsLeft("%c", [Chr(c)] + rest) == rest
    ensures Render("%c", [Chr(c)] + rest, "") == (if c == NUL then "" else [c]) && Count("%c", [Chr(c)] + rest) == 1
  {
    RenderOne('c', [Chr(c)] + rest);
    TextOne(c);
  }

  /** "%p" prints "0x" and sixteen digits from which the pointer can be read back. */
  lemma RenderPointer(p: nat, rest: seq<Arg>)
    requires p < 0x1_0000_0000_0000_0000
    ensures Fits("%p", [Ptr(p)] + rest) && ArgsLeft("%p", [Ptr(p)] + rest) == rest
    ensures var text := Render("%p", [Ptr(p)] + rest, "");
            && |text| == 18 == Count("%p", [Ptr(p)] + rest) && text[..2] == "0x" && Parse(text[2..]) == p
            && forall i :: 2 <= i < 18 ==> HexDigit(text[i])
  {
    RenderOne('p', [Ptr(p)] + rest);
    PointerRoundTrip(p);
  }

  /** "%%" prints a '%', and a '%' before any other letter prints both. */
  lemma RenderOther(c: char, args: seq<Arg>)
    requires !IsConversion(c)
    ensures Fits(['%', c], args) && ArgsLeft(['%', c], args) == args
    ensures Render(['%', c], args, "") == (if c == '%' then "%" else ['%', c])
    ensures Count(['%', c], args) == if c == '%' then 1 else 2
  {
    RenderOne(c, args);
  }

  /** A string printed between plain text. */
  lemma FramedString(a: string, s: string, b: string)
    requires '%' !in a && '%' !in b && NulFree(s)
    ensures var fmt, args := a + ("%s" + b), [Str(s)];
            Fits(fmt, args) && Render(fmt, args, "") == a + (s + b) && Count(fmt, args) == |a| + |s| + |b|
  {
    var args := [Str(s)];
    StringThenPlain(s, b, args);
    RenderPlain(a, args);
    RenderConcat(a, "%s" + b, args, "");
  }

  lemma StringThenPlain(s: string, b: string, args: seq<Arg>)
    requires '%' !in b && NulFree(s) && args == [Str(s)]
    ensures Fits("%s" + b, args) && Render("%s" + b, args, "") == s + b && Count("%s" + b, args) == |s| + |b|
  {
    assert args == [Str(s)] + [];
    RenderString(s, []);
    RenderPlain(b, []);
    RenderConcat("%s", b, args, "");
  }

  /** The name of a memory node as the boot code prints it. */
  lemma NodeNamePrinted()
    ensures var args := [Str("memory@80000000")];
            Fits("(%s)", args) && Render("(%s)", args, "") == "(memory@80000000)" && Count("(%s)", args) == 17
  {
    FramedString("(", "memory@80000000", ")");
    assert "(" + ("%s" + ")") == "(%s)";
  }

  // ----- the buffer

  lemma ConcatOne(calls: seq<string>, call: string)
    ensures Concat(calls + [call]) == Concat(calls) + call
  {
    assert (calls + [call])[..|calls|] == calls;
  }

  /** Terminates the buffered text and passes it on. */
  method Flush(buf: array<char>, head: nat, calls: seq<string>) returns (calls': seq<string>)
    requires buf.Length == BUF_LEN + 1 && head < BUF_LEN && NulFree(buf[..head]) && buf[BUF_LEN] == NUL
    modifies buf
    ensures buf[BUF_LEN] == NUL && Concat(calls') == Concat(calls) + old(buf[..head])
  {
    if head > 0 {
      buf[head] := NUL;
      assert buf[..][..head] == old(buf[..head]);
      TextStops(buf[..], head);
      ConcatOne(calls, Text(buf[..]));
      return calls + [Text(buf[..])];
    }
    return calls;
  }

  /** One conversion: `c` is the character after the %, and the arguments start at `args[0]`. */
  method Convert(buf: array<char>, c: char, args: seq<Arg>, calls: seq<string>)
    returns (calls': seq<string>, n: nat)
    requires buf.Length == BUF_LEN + 1 && buf[BUF_LEN] == NUL && c != NUL
    requires IsConversion(c) ==> args != [] && Suits(c, args[0])
    modifies buf
    ensures buf[BUF_LEN] == NUL && Concat(calls') == Concat(calls) + Converted(c, args)
    ensures n == if c == 'c' then 1 else |Converted(c, args)|
  {
    var call;
    match c {
      case '%' =>
        buf[0], buf[1] := '%', NUL;
        TextStops(buf[..], 1);
        call, n := Text(buf[..]), 1;
      case 'c' =>
        buf[0], buf[1] := args[0].c, NUL;
        TextOne(args[0].c);
        if args[0].c == NUL { TextStops(buf[..], 0); } else { TextStops(buf[..], 1); }
        call, n := Text(buf[..]), 1;
      case 's' =>
        call, n := args[0].s, |args[0].s|;
      case 'p' =>
        call, n := PointerPrint(args[0].p);
      case _ =>
        buf[0], buf[1], buf[2] := '%', c, NUL;
        TextStops(buf[..], 2);
        call, n := Text(buf[..]), 2;
    }
    ConcatOne(calls, call);
    calls' := calls + [call];
  }

  /** What is still to come, inside or outside an escape. */
  ghost function Pending(escaped: bool, fmt: string, args: seq<Arg>): string
    requires if escaped then FitsEscaped(fmt, args) else Fits(fmt, args)
  {
    if escaped then RenderEscaped(fmt, args, "") else Render(fmt, args, "")
  }

  ghost function PendingCount(escaped: bool, fmt: string, args: seq<Arg>): nat
    requires if escaped then FitsEscaped(fmt, args) else Fits(fmt, args)
  {
    if escaped then CountEscaped(fmt, args) else Count(fmt, args)
  }

  /** Everything printed so far, the buffered part included. */
  ghost function Done(calls: seq<string>, buf: string, head: nat): string
    requires head <= |buf|
  {
    Concat(calls) + buf[..head]
  }

  /** A plain character goes into the buffer, which is passed on when full. */
  method Put(buf: array<char>, head: nat, c: char, calls: seq<string>)
    returns (calls': seq<string>, head': nat, n: nat)
    requires buf.Length == BUF_LEN + 1 && head < BUF_LEN && NulFree(buf[..head]) && buf[BUF_LEN] == NUL && c != NUL
    modifies buf
    ensures head' < BUF_LEN && NulFree(buf[..head']) && buf[BUF_LEN] == NUL && n + head' == head + 1
    ensures Done(calls', buf[..], head') == old(Done(calls, buf[..], head)) + [c]
  {
    buf[head] := c;
    assert buf[..head + 1] == old(buf[..head]) + [c];
    if head + 1 == BUF_LEN {
      TextStops(buf[..], BUF_LEN);
      ConcatOne(calls, Text(buf[..]));
      return calls + [Text(buf[..])], 0, BUF_LEN;
    }
    return calls, head + 1, 0;
  }

  /** What is printed and counted, together with what is still to come, is the whole. */
  ghost predicate Partway(done: string, counted: nat, escaped: bool, left: string, args: seq<Arg>,
                          all: string, count: nat) {
    && (if escaped then FitsEscaped(left, args) else Fits(left, args))
    && done + Pending(escaped, left, args) == all && counted + PendingCount(escaped, left, args) == count
  }

  /** A character of the format moves what it stands for from one to the other. */
  lemma PlainStep(done: string, counted: nat, c: char, rest: string, args: seq<Arg>, all: string, count: nat)
    requires Partway(done, counted, false, [c] + rest, args, all, count)
    ensures c == '%' ==> Partway(done, counted, true, rest, args, all, count)
    ensures c != '%' ==> Partway(done + [c], counted + 1, false, rest, args, all, count)
  {
    assert ([c] + rest)[1..] == rest;
    if c != '%' { assert done + ([c] + Render(rest, args, "")) == done + [c] + Render(rest, args, ""); }
  }

  lemma PartwayStart(fmt: string, args: seq<Arg>)
    requires Fits(fmt, args)
    ensures Partway("", 0, false, fmt, args, Render(fmt, args, ""), Count(fmt, args))
  {
  }

  lemma PartwayEnd(done: string, counted: nat, escaped: bool, args: seq<Arg>, all: string, count: nat)
    requires Partway(done, counted, escaped, "", args, all, count)
    ensures done == all && counted == count
  {
  }

  lemma EscapedStep(done: string, counted: nat, c: char, rest: string, args: seq<Arg>, all: string, count: nat)
    requires Partway(done, counted, true, [c] + rest, args, all, count)
    ensures IsConversion(c) ==> args != [] && Suits(c, args[0])
    ensures var text := Converted(c, args);
            Partway(done + text, counted + (if c == 'c' then 1 else |text|), false, rest, ArgsAfter(c, args),
                    all, count)
  {
    assert ([c] + rest)[1..] == rest;
    var text, more := Converted(c, args), Render(rest, ArgsAfter(c, args), "");
    assert done + (text + more) == done + text + more;
  }

  /** The format the loop works through: its first turn steps over the byte at `fmt` even if that is the NUL. */
  function Format(text: string): string
    requires text != ""
  {
    Text(if text[0] == NUL then text[1..] else text)
  }

  /** Nothing to print: only conversions of nothing, and perhaps a lone % at the end. */
  predicate Blank(fmt: string, args: seq<Arg>)
    requires Fits(fmt, args)
  {
    fmt == "" || (fmt[0] == '%' && BlankEscaped(fmt[1..], args))
  }

  predicate BlankEscaped(fmt: string, args: seq<Arg>)
    requires FitsEscaped(fmt, args)
  {
    || fmt == ""
    || (((fmt[0] == 'c' && args[0].c == NUL) || (fmt[0] == 's' && args[0].s == ""))
        && Blank(fmt[1..], ArgsAfter(fmt[0], args)))
  }

  lemma {:induction false} BlankExactly(fmt: string, args: seq<Arg>)
    requires Fits(fmt, args)
    ensures Render(fmt, args, "") == "" <==> Blank(fmt, args)
    decreases |fmt|
  {
    if fmt != "" && fmt[0] == '%' && |fmt| > 1 {
      var c, rest := fmt[1..][0], fmt[1..][1..];
      BlankExactly(rest, ArgsAfter(c, args));
      if c == 'c' { TextOne(args[0].c); }
    }
  }

  /**
    An empty format prints what the bytes behind its NUL, read as a format, make it print:
    nothing, as it should, exactly if those are blank.
   */
  lemma EmptyFormatExactly(text: string, args: seq<Arg>)
    requires |text| >= 2 && text[0] == NUL && Fits(Format(text), args)
    ensures Text(text) == ""
    ensures Render(Format(text), args, "") == Render(Text(text), args, "") <==> Blank(Text(text[1..]), args)
  {
    BlankExactly(Text(text[1..]), args);
  }

  /** The string "" with an 'A' behind it in memory prints that. */
  lemma EmptyFormatPrints()
    ensures Text([NUL, 'A', NUL]) == "" && Format([NUL, 'A', NUL]) == "A" && Render("A", [], "") == "A"
  {
    var text := [NUL, 'A', NUL];
    assert text[1..] == ['A', NUL] && text[1..][1..] == [NUL];
    assert Text([NUL]) == "";
    assert "A"[1..] == "";
  }

  /** What a turn of the loop consumes. */
  lemma TextNext(text: string, i: nat)
    requires i < |text|
    ensures text[i] == NUL ==> Text(text[i..]) == ""
    ensures text[i] != NUL ==> Text(text[i..]) == [text[i]] + Text(text[i + 1..])
  {
    assert text[i..][1..] == text[i + 1..];
  }

  /** What the loop still has to work through; the first character counts even if it is NUL. */
  ghost predicate Ahead(text: string, i: nat, first: bool, left: string) {
    i < |text| && if first then i == 0 && left == Format(text) else left == Text(text[i..])
  }

  lemma AheadNext(text: string, i: nat, first: bool, left: string) returns (rest: string)
    requires Ahead(text, i, first, left) && |text| >= 2 && text[|text| - 1] == NUL && (first || text[i] != NUL)
    ensures i + 1 < |text| && Ahead(text, i + 1, false, rest)
    ensures if text[i] == NUL then first && left == rest else left == [text[i]] + rest
  {
    rest := Text(text[i + 1..]);
    TextNext(text, i);
    assert text[0..] == text;
  }

  /** Behind the last character: what is still in the buffer is passed on and counted. */
  method Finish(buf: array<char>, head: nat, calls: seq<string>, n: nat,
                ghost escaped: bool, ghost args: seq<Arg>, ghost all: string, ghost count: nat)
    returns (calls': seq<string>, n': nat)
    requires buf.Length == BUF_LEN + 1 && head < BUF_LEN && NulFree(buf[..head]) && buf[BUF_LEN] == NUL
    requires Partway(Done(calls, buf[..], head), n + head, escaped, "", args, all, count)
    modifies buf
    ensures Concat(calls') == all && n' == count
  {
    PartwayEnd(Done(calls, buf[..], head), n + head, escaped, args, all, count);
    assert buf[..][..head] == buf[..head];
    calls' := Flush(buf, head, calls);
    n' := n + head;
  }

  /**
    `formatted_print` on the bytes from `fmt` on: put together, the strings passed to `puts` are
    the plain rendering of the format the loop works through, and the result counts its
    characters.
   */
  method FormattedPrint(text: string, args0: seq<Arg>) returns (calls: seq<string>, n: nat)
    requires |text| >= 2 && text[|text| - 1] == NUL && Fits(Format(text), args0)
    ensures Concat(calls) == Render(Format(text), args0, "")
    ensures n == Count(Format(text), args0)
  {
    var buf := new char[BUF_LEN + 1];
    var head, i, first, escaped, args := 0, 0, true, false, args0;
    calls, n := [], 0;
    buf[BUF_LEN] := NUL;
    ghost var left, all, count := Format(text), Render(Format(text), args0, ""), Count(Format(text), args0);
    assert Done(calls, buf[..], 0) == "" by { assert buf[..0] == "" && Concat(calls) == ""; }
    PartwayStart(left, args);
    while first || text[i] != NUL
      invariant 0 <= i < |text| && 0 <= head < BUF_LEN && buf[BUF_LEN] == NUL && NulFree(buf[..head])
      invariant Ahead(text, i, first, left) && (first ==> !escaped)
      invariant Partway(Done(calls, buf[..], head), n + head, escaped, left, args, all, count)
      decreases |text| - i
    {
      var c := text[i];
      ghost var rest := AheadNext(text, i, first, left);
      if escaped || c != NUL {
        calls, head, escaped, args, n := Turn(buf, head, escaped, c, args, calls, n, rest, all, count);
      }
      i, first, left := i + 1, false, rest;
    }
    assert left == "" by { TextNext(text, i); }
    calls, n := Finish(buf, head, calls, n, escaped, args, all, count);
  }

  /** One turn of the loop, at a character other than NUL. */
  method Turn(buf: array<char>, head: nat, escaped: bool, c: char, args: seq<Arg>, calls: seq<string>, n: nat,
              ghost rest: string, ghost all: string, ghost count: nat)
    returns (calls': seq<string>, head': nat, escaped': bool, args': seq<Arg>, n': nat)
    requires buf.Length == BUF_LEN + 1 && head < BUF_LEN && NulFree(buf[..head]) && buf[BUF_LEN] == NUL && c != NUL
    requires Partway(Done(calls, buf[..], head), n + head, escaped, [c] + rest, args, all, count)
    modifies buf
    ensures head' < BUF_LEN && NulFree(buf[..head']) && buf[BUF_LEN] == NUL
    ensures Partway(Done(calls', buf[..], head'), n' + head', escaped', rest, args', all, count)
  {
    ghost var done := Done(calls, buf[..], head);
    calls', head', escaped', args', n' := calls, head, false, args, n;
    if escaped {
      EscapedStep(done, n + head, c, rest, args, all, count);
      var more;
      calls', more := Escape(buf, head, c, args, calls);
      n', head', args' := n + head + more, 0, ArgsAfter(c, args);
    } else {
      PlainStep(done, n + head, c, rest, args, all, count);
      if c == '%' {
        escaped' := true;
      } else {
        var more;
        calls', head', more := Put(buf, head, c, calls);
        n' := n + more;
      }
    }
  }

  /** A conversion: the buffer is passed on first, whatever the conversion is. */
  method Escape(buf: array<char>, head: nat, c: char, args: seq<Arg>, calls: seq<string>)
    returns (calls': seq<string>, n: nat)
    requires buf.Length == BUF_LEN + 1 && head < BUF_LEN && NulFree(buf[..head]) && buf[BUF_LEN] == NUL && c != NUL
    requires IsConversion(c) ==> args != [] && Suits(c, args[0])
    modifies buf
    ensures buf[BUF_LEN] == NUL && Done(calls', buf[..], 0) == old(Done(calls, buf[..], head)) + Converted(c, args)
    ensures n == if c == 'c' then 1 else |Converted(c, args)|
  {
    calls' := Flush(buf, head, calls);
    calls', n := Convert(buf, c, args, calls');
  }
}
