/** The formatter of lib-clib/src/printf.cpp, emitting one character at a time through `PutChar`. */
module Printf {
  import opened Words
  import opened Text
  import opened PrintfModel

  /** `vsnprintf` keeps what ISO C asks for if and only if its capacity survives the conversion, or there is no text. */
  lemma CapacityConversion(n: nat, size: u32)
    requires size > 0
    ensures Kept(n, Signed(size)) == Min(n, size - 1) <==> size <= INT_MAX || n == 0
    ensures Kept(n, Signed(0x8000_0000)) == 0
  {
  }

  /** `s` with the digits of `n` still to be put before it, if there are any. */
  ghost function WithNumeral(n: nat, b: Base, s: string): (r: string)
    ensures |r| >= |s|
  {
    if n == 0 then s else Numeral(n, b) + s
  }

  lemma WithDigit(n: nat, b: Base, s: string)
    requires n > 0
    ensures WithNumeral(n, b, s) == WithNumeral(Quotient(n, b), b, [DigitChar(Remainder(n, b), b)] + s)
  {
    var c := DigitChar(Remainder(n, b), b);
    if n >= Radix(b) {
      assert Numeral(Quotient(n, b), b) + [c] + s == Numeral(Quotient(n, b), b) + ([c] + s);
    }
  }

  lemma OneMorePad(s: string, width: int, c: char)
    requires |s| <= width
    ensures PadLeft(s, width + 1, c) == [c] + PadLeft(s, width, c)
  {
    var k := width - |s|;
    assert Repeat(c, k + 1) == [c] + Repeat(c, k);
    PadLeftShape(s, width, c);
    PadLeftShape(s, width + 1, c);
    Assoc([c], Repeat(c, k), s);
  }

  lemma NothingMissing(s: string, width: int, c: char)
    requires width <= |s|
    ensures PadLeft(s, width, c) == s
  {
  }

  lemma NoRoomForBlanks(sp: Spec, digits: string, negative: bool)
    ensures sp.left || |Core(sp, digits, negative)| >= BUFFER_SIZE - 1 ==>
              Buffered(sp, digits, negative) == Core(sp, digits, negative)
  {
    if !sp.left && |Core(sp, digits, negative)| >= BUFFER_SIZE - 1 {
      NothingMissing(Core(sp, digits, negative), Min(sp.width, BUFFER_SIZE - 1), ' ');
    }
  }

  /** Blanks on a side that has them. */
  function Blanks(side: bool, sp: Spec, n: nat): nat {
    if side then Missing(sp.width, n) else 0
  }

  lemma Padded(start: string, sp: Spec, s: string)
    ensures var body := TextBody(sp, s);
            start + Repeat(' ', Blanks(!sp.left, sp, |body|)) + body + Repeat(' ', Blanks(sp.left, sp, |body|))
            == start + TextField(sp, s)
  {
    var body, none := TextBody(sp, s), Repeat(' ', 0);
    var blanks := Repeat(' ', Missing(sp.width, |body|));
    if sp.left {
      PadRightShape(body, sp.width, ' ');
      assert start + none == start;
      Assoc(start, body, blanks);
    } else {
      PadLeftShape(body, sp.width, ' ');
      Assoc(start, blanks, body);
      assert start + (blanks + body) + none == start + (blanks + body);
    }
  }

  lemma ConvertInteger(c: char, sp: Spec, a: Arg, l: int, base: Base)
    requires c in {'d', 'i', 'u', 'X', 'x'}
    requires l == if c == 'd' || c == 'i' then AsSigned(a) else AsUnsigned(a)
    requires base == if c == 'x' then HexLower else if c == 'X' then HexUpper else Decimal
    ensures Convert(c, sp, a) == NumberField(sp, Numeral(if l < 0 then -l else l, base), l < 0)
  {
  }

  lemma Tail(s: string, i: nat)
    requires i < |s|
    ensures s[i..] != "" && s[i..][0] == s[i] && s[i..][1..] == s[i + 1..]
  {
  }

  /** What a directive that ends at `j`, and what follows it, renders to. */
  ghost predicate Turned(fmt: string, j: nat, sp: Spec, args: seq<Arg>, text: string)
    requires j <= |fmt|
  {
    var c := At(fmt, j);
    if IsConversion(c) then j < |fmt| && text == Convert(c, sp, Next(args)) + Render(fmt[j + 1..], Others(args))
    else text == [c] + Render(fmt[j..], args)
  }

  lemma Turn(fmt: string, i: nat, va: seq<Arg>, sp: Spec, j: nat, args: seq<Arg>)
    requires i < j <= |fmt| && fmt[i] == '%' && ParseDirective(fmt[i + 1..], va) == Directive(sp, fmt[j..], args)
    ensures Turned(fmt, j, sp, args, Render(fmt[i..], va))
  {
    Tail(fmt, i);
    assert At(fmt, j) == At(fmt[j..], 0);
    if j < |fmt| { Tail(fmt, j); }
  }

  class Printer {
    /** `outptr`: an index into `out`, negative for the null pointer. */
    var out: array<char>
    var outptr: int
    /** What went to the console instead. */
    var console: string
    var total: int
    var capacity: int
    /** Every character emitted since the call began, and console and destination before it. */
    ghost var emitted: string
    ghost var before: string
    ghost var image: string

    ghost predicate Consistent()
      reads this, out
    {
      && total == |emitted|
      && (outptr >= 0 ==>
            && outptr == Kept(total, capacity) <= out.Length == |image|
            && out[..outptr] == emitted[..outptr] && out[outptr..] == image[outptr..]
            && console == before)
      && (outptr < 0 ==> console == before + emitted)
    }

    /** The destination can take what is stored of `n` characters. */
    ghost predicate Fits(n: nat)
      reads this
    {
      outptr >= 0 ==> Kept(n, capacity) <= out.Length
    }

    /** What no formatting step changes. */
    ghost function Frame(): (array<char>, int, string, string, bool)
      reads this
    {
      (out, capacity, before, image, outptr >= 0)
    }

    constructor ()
      ensures outptr == -1 && console == ""
    {
      out, outptr, console, total, capacity := new char[0], -1, "", 0, 0;
      emitted, before, image := "", "", "";
    }

    method PutChar(c: char)
      requires Consistent() && Fits(total + 1)
      modifies this, out
      ensures Consistent() && Frame() == old(Frame())
      ensures emitted == old(emitted) + [c]
    {
      emitted := emitted + [c];
      total := total + 1;
      if outptr >= 0 {
        if total < capacity {
          out[outptr] := c;
          outptr := outptr + 1;
        }
        return;
      }
      console := console + [c];
    }

    /** Emits `c` while `from` counts up to `width`. */
    method PutMany(c: char, from: nat, width: nat)
      requires Consistent() && Fits(total + Missing(width, from))
      modifies this, out
      ensures Consistent() && Frame() == old(Frame())
      ensures emitted == old(emitted) + Repeat(c, Missing(width, from))
    {
      var i := from;
      ghost var n := 0;
      while i < width
        invariant i == from + n <= Max(from, width)
        invariant Consistent() && Frame() == old(Frame())
        invariant emitted == old(emitted) + Repeat(c, n)
      {
        PutChar(c);
        i := i + 1;
        n := n + 1;
        assert Repeat(c, n) == Repeat(c, n - 1) + [c];
      }
      assert n == Missing(width, from);
    }

    /** `*p-- = c` */
    method Prepend(buffer: array<char>, p: int, c: char, ghost s: string) returns (p': int)
      requires buffer.Length == BUFFER_SIZE && 0 <= p < BUFFER_SIZE && buffer[p + 1..] == s
      modifies buffer
      ensures p' == p - 1 && buffer[p' + 1..] == [c] + s
    {
      buffer[p] := c;
      p' := p - 1;
    }

    /** Fills the buffer backwards from `p` up to a length of `limit`, leaving its first character free. */
    method PadBuffer(buffer: array<char>, p: int, limit: int, c: char, ghost s: string) returns (p': int)
      requires buffer.Length == BUFFER_SIZE && 0 <= p < BUFFER_SIZE && buffer[p + 1..] == s
      modifies buffer
      ensures 0 <= p' < BUFFER_SIZE && buffer[p' + 1..] == PadLeft(s, Min(limit, BUFFER_SIZE - 1), c)
    {
      p' := p;
      while BUFFER_SIZE - 1 - p' < limit && p' > 0
        invariant 0 <= p' <= p && BUFFER_SIZE - 1 - p' <= Max(|s|, Min(limit, BUFFER_SIZE - 1))
        invariant buffer[p' + 1..] == PadLeft(s, BUFFER_SIZE - 1 - p', c)
      {
        OneMorePad(s, BUFFER_SIZE - 1 - p', c);
        p' := Prepend(buffer, p', c, PadLeft(s, BUFFER_SIZE - 1 - p', c));
      }
    }

    /** The digit loop; the buffer is long enough for every 32-bit number. */
    method PutDigits(buffer: array<char>, arg: u32, base: Base) returns (p: int)
      requires buffer.Length == BUFFER_SIZE
      modifies buffer
      ensures 0 <= p < BUFFER_SIZE && buffer[p + 1..] == Numeral(arg, base)
    {
      p := BUFFER_SIZE - 1;
      NumeralFits(arg, base);
      if arg == 0 {
        p := Prepend(buffer, p, '0', "");
      } else {
        var n: nat, more := arg, true;
        ghost var s := "";
        while more
          invariant |s| == BUFFER_SIZE - 1 - p && |s| <= 10
          invariant buffer[p + 1..] == s
          invariant more == (n > 0)
          invariant Numeral(arg, base) == WithNumeral(n, base, s)
          decreases more, n
        {
          var c := DigitChar(Remainder(n, base), base);
          WithDigit(n, base, s);
          p := Prepend(buffer, p, c, s);
          s := [c] + s;
          n := Quotient(n, base);
          more := n != 0 && p > 0;
        }
      }
    }

    /** Precision zeros, then width zeros, in front of the digits behind `start`. */
    method PadZeros(buffer: array<char>, start: int, sp: Spec, ghost digits: string) returns (p: int)
      requires buffer.Length == BUFFER_SIZE && 0 <= start < BUFFER_SIZE && buffer[start + 1..] == digits
      modifies buffer
      ensures 0 <= p < BUFFER_SIZE && buffer[p + 1..] == Magnitude(sp, digits)
    {
      p := start;
      if sp.hasPrec {
        p := PadBuffer(buffer, p, sp.prec, '0', digits);
      }
      if sp.zero {
        p := PadBuffer(buffer, p, sp.width, '0', buffer[p + 1..]);
      }
    }

    /** Zeros and the sign. The sign may take the first character of the buffer. */
    method PutCore(buffer: array<char>, start: int, sp: Spec, negative: bool, ghost digits: string) returns (p: int)
      requires buffer.Length == BUFFER_SIZE && 0 <= start < BUFFER_SIZE && buffer[start + 1..] == digits
      modifies buffer
      ensures -1 <= p < BUFFER_SIZE && buffer[p + 1..] == Core(sp, digits, negative)
    {
      p := PadZeros(buffer, start, sp, digits);
      if negative {
        p := Prepend(buffer, p, '-', Magnitude(sp, digits));
      }
    }

    /** Zeros, the sign, then blanks where there is room. */
    method PadNumber(buffer: array<char>, start: int, sp: Spec, negative: bool, ghost digits: string) returns (p: int)
      requires buffer.Length == BUFFER_SIZE && 0 <= start < BUFFER_SIZE && buffer[start + 1..] == digits
      modifies buffer
      ensures -1 <= p < BUFFER_SIZE && buffer[p + 1..] == Buffered(sp, digits, negative)
    {
      p := PutCore(buffer, start, sp, negative, digits);
      if sp.left || p < 0 {
        NoRoomForBlanks(sp, digits, negative);
      } else {
        p := PadBuffer(buffer, p, sp.width, ' ', Core(sp, digits, negative));
      }
    }

    /** Emits the buffer from `start` on. */
    method PutBuffer(buffer: array<char>, start: nat)
      requires buffer.Length == BUFFER_SIZE && start <= BUFFER_SIZE && buffer != out
      requires Consistent() && Fits(total + (BUFFER_SIZE - start))
      modifies this, out
      ensures Consistent() && Frame() == old(Frame())
      ensures emitted == old(emitted) + buffer[start..] && buffer[..] == old(buffer[..])
    {
      ghost var b := buffer[..];
      var p := start;
      while p < BUFFER_SIZE
        invariant start <= p <= BUFFER_SIZE && buffer[..] == b && buffer != out
        invariant Consistent() && Frame() == old(Frame())
        invariant emitted == old(emitted) + b[start..p]
      {
        PutChar(buffer[p]);
        p := p + 1;
        assert b[start..p] == b[start..p - 1] + [b[p - 1]];
      }
    }

    /** `FormatHex` and `FormatInt`. */
    method FormatNumber(sp: Spec, arg: u32, base: Base, negative: bool)
      requires Consistent() && Fits(total + |NumberField(sp, Numeral(arg, base), negative)|)
      modifies this, out
      ensures Consistent() && Frame() == old(Frame())
      ensures emitted == old(emitted) + NumberField(sp, Numeral(arg, base), negative)
    {
      var buffer := new char[BUFFER_SIZE];
      var p := PutDigits(buffer, arg, base);
      p := PadNumber(buffer, p, sp, negative, Numeral(arg, base));
      ghost var b := Buffered(sp, Numeral(arg, base), negative);
      assert |b| == BUFFER_SIZE - 1 - p;
      ghost var start := emitted;
      PutBuffer(buffer, p + 1);
      PutMany(' ', BUFFER_SIZE - 1 - p, sp.width);
      PadRightShape(b, sp.width, ' ');
      Assoc(start, b, Repeat(' ', Missing(sp.width, |b|)));
    }

    /** The middle loop of `FormatString`. */
    method PutText(sp: Spec, s: string)
      requires Consistent() && Fits(total + |TextBody(sp, s)|)
      modifies this, out
      ensures Consistent() && Frame() == old(Frame())
      ensures emitted == old(emitted) + TextBody(sp, s)
    {
      ghost var body := TextBody(sp, s);
      var i, prec: int := 0, sp.prec;
      while (!sp.hasPrec || prec != 0) && i < |s|
        invariant 0 <= i <= |body| && prec == sp.prec - i
        invariant Consistent() && Frame() == old(Frame())
        invariant emitted == old(emitted) + body[..i]
      {
        PutChar(s[i]);
        i := i + 1;
        prec := prec - 1;
        assert body[..i] == body[..i - 1] + [s[i - 1]];
      }
      assert body[..i] == body;
    }

    method FormatString(sp: Spec, s: string)
      requires Consistent() && Fits(total + |TextField(sp, s)|)
      modifies this, out
      ensures Consistent() && Frame() == old(Frame())
      ensures emitted == old(emitted) + TextField(sp, s)
      ensures emitted
           == old(emitted) + InField(if sp.hasPrec then s[..Min(sp.prec, |s|)] else s, sp.left, sp.width)
    {
      TextJustified(sp, s);
      var j: int := |s|;
      if sp.hasPrec && sp.prec < j {
        j := sp.prec;
      }
      PutAligned(sp, s, j);
    }

    /** The text between the blanks on its left or right. */
    method PutAligned(sp: Spec, s: string, n: nat)
      requires n == |TextBody(sp, s)| && Consistent() && Fits(total + Max(sp.width, n))
      modifies this, out
      ensures Consistent() && Frame() == old(Frame())
      ensures emitted == old(emitted) + TextField(sp, s)
    {
      ghost var start := emitted;
      var j := PutFront(sp, n);
      PutText(sp, s);
      PutMany(' ', j, sp.width);
      Padded(start, sp, s);
    }

    /** The blanks on the left count up to the width and one beyond, so that none are left for the right. */
    method PutFront(sp: Spec, n: nat) returns (j: nat)
      requires Consistent() && Fits(total + Blanks(!sp.left, sp, n))
      modifies this, out
      ensures Consistent() && Frame() == old(Frame())
      ensures emitted == old(emitted) + Repeat(' ', Blanks(!sp.left, sp, n))
      ensures Missing(sp.width, j) == Blanks(sp.left, sp, n)
    {
      j := n;
      if !sp.left {
        PutMany(' ', j, sp.width);
        j := Max(j, sp.width) + 1;
      } else {
        assert emitted + Repeat(' ', 0) == emitted;
      }
    }

    /** `Itostr`: the decimal numeral with zeros in front up to `d` digits. */
    method Itostr(x: u32, d: nat) returns (s: string)
      requires d < BUFFER_SIZE
      ensures s == PadLeft(Numeral(x, Decimal), d, '0')
    {
      var buffer := new char[BUFFER_SIZE];
      var p := PutDigits(buffer, x, Decimal);
      p := PadBuffer(buffer, p, d, '0', Numeral(x, Decimal));
      s := buffer[p + 1..];
    }

    method FormatFloat(sp: Spec, a: Arg)
      requires Consistent() && Fits(total + |FloatField(sp, a)|)
      modifies this, out
      ensures Consistent() && Frame() == old(Frame())
      ensures emitted == old(emitted) + FloatField(sp, a)
    {
      var text := BuildFloat(sp, a);
      PutPadded(text, sp.width);
    }

    method PutPadded(text: string, width: nat)
      requires Consistent() && Fits(total + Max(width, |text|))
      modifies this, out
      ensures Consistent() && Frame() == old(Frame())
      ensures emitted == old(emitted) + PadLeft(text, width, ' ')
    {
      ghost var start := emitted;
      PutMany(' ', |text|, width);
      PutString(text);
      PadLeftShape(text, width, ' ');
      Assoc(start, Repeat(' ', Missing(width, |text|)), text);
    }

    method BuildFloat(sp: Spec, a: Arg) returns (text: string)
      ensures text == FloatText(sp, a)
    {
      var precision := FloatPrecision(sp);
      var parts := PartsOf(a, precision);
      var sign := if a.Real? && a.negative then "-" else "";
      var whole := Itostr(parts.whole, 0);
      var fraction := Itostr(parts.fraction, precision);
      text := sign + whole + "." + fraction;
    }

    method PutString(s: string)
      requires Consistent() && Fits(total + |s|)
      modifies this, out
      ensures Consistent() && Frame() == old(Frame())
      ensures emitted == old(emitted) + s
    {
      for i := 0 to |s|
        invariant Consistent() && Frame() == old(Frame())
        invariant emitted == old(emitted) + s[..i]
      {
        PutChar(s[i]);
        assert s[..i + 1] == s[..i] + [s[i]];
      }
      assert s[..|s|] == s;
    }

    method FormatPointer(arg: u32)
      requires Consistent() && Fits(total + 2 + |NumberField(POINTER_SPEC, Numeral(arg, HexLower), false)|)
      modifies this, out
      ensures Consistent() && Frame() == old(Frame())
      ensures emitted == old(emitted) + ("0x" + NumberField(POINTER_SPEC, Numeral(arg, HexLower), false))
    {
      ghost var start := emitted;
      PutChar('0');
      PutChar('x');
      Assoc(start, ['0'], ['x']);
      assert emitted == start + "0x";
      FormatNumber(POINTER_SPEC, arg, HexLower, false);
      Assoc(start, "0x", NumberField(POINTER_SPEC, Numeral(arg, HexLower), false));
    }

    method ScanDigits(fmt: string, i: nat) returns (n: nat, j: nat)
      requires i <= |fmt|
      ensures i <= j <= |fmt| && ScanNumber(fmt[i..], 0) == (n, fmt[j..])
    {
      n, j := 0, i;
      while IsDigit(At(fmt, j))
        invariant i <= j <= |fmt| && ScanNumber(fmt[i..], 0) == ScanNumber(fmt[j..], n)
        decreases |fmt| - j
      {
        Tail(fmt, j);
        n := n * 10 + (fmt[j] as int - '0' as int);
        j := j + 1;
      }
    }

    /** The precision, if there is one. */
    method ReadPrecision(fmt: string, i: nat, va: seq<Arg>) returns (hasPrec: bool, prec: nat, j: nat, va': seq<Arg>)
      requires i <= |fmt|
      ensures i <= j <= |fmt| && ParsePrecision(fmt[i..], va) == (hasPrec, prec, fmt[j..], va')
    {
      hasPrec, prec, j, va' := false, 0, i, va;
      if At(fmt, j) == '.' {
        Tail(fmt, i);
        hasPrec, j := true, j + 1;
        if At(fmt, j) == '*' {
          Tail(fmt, j);
          j := j + 1;
          var n := AsSigned(Next(va));
          va' := Others(va);
          prec := if n < 0 then -n else n;
        } else {
          prec, j := ScanDigits(fmt, j);
        }
      }
    }

    /** The `0` or `-` flag. */
    method ReadFlag(fmt: string, i: nat) returns (j: nat)
      requires i <= |fmt|
      ensures i <= j <= |fmt|
      ensures fmt[j..] == if At(fmt, i) == '0' || At(fmt, i) == '-' then fmt[i..][1..] else fmt[i..]
      ensures At(fmt[i..], 0) == At(fmt, i)
    {
      j := i;
      if At(fmt, i) == '0' || At(fmt, i) == '-' {
        Tail(fmt, i);
        j := i + 1;
      }
    }

    /** Flag, width, precision and length modifier, as `Vprintf` reads them. */
    method ReadDirective(fmt: string, i: nat, va: seq<Arg>) returns (sp: Spec, j: nat, va': seq<Arg>)
      requires i <= |fmt|
      ensures i <= j <= |fmt| && ParseDirective(fmt[i..], va) == Directive(sp, fmt[j..], va')
    {
      var zero, left := At(fmt, i) == '0', At(fmt, i) == '-';
      j := ReadFlag(fmt, i);
      var width, hasPrec, prec;
      width, j := ScanDigits(fmt, j);
      hasPrec, prec, j, va' := ReadPrecision(fmt, j, va);
      var long := At(fmt, j) == 'l';
      assert long == (At(fmt[j..], 0) == 'l');
      if long {
        Tail(fmt, j);
        j := j + 1;
      }
      sp := Spec(zero, left, width, hasPrec, prec, long);
    }

    /** The cases of the `switch` in `Vprintf` that consume their character. */
    method PutConversion(c: char, sp: Spec, a: Arg)
      requires IsConversion(c) && Consistent() && Fits(total + |Convert(c, sp, a)|)
      modifies this, out
      ensures Consistent() && Frame() == old(Frame())
      ensures emitted == old(emitted) + Convert(c, sp, a)
    {
      if c == 'c' {
        PutChar(AsChar(AsSigned(a)));
      } else if c == 'f' {
        FormatFloat(sp, a);
      } else if c == 'p' {
        FormatPointer(AsUnsigned(a));
      } else if c == 's' {
        FormatString(sp, AsText(a));
      } else {
        PutInteger(c, sp, a);
      }
    }

    method PutInteger(c: char, sp: Spec, a: Arg)
      requires c in {'d', 'i', 'u', 'X', 'x'} && Consistent() && Fits(total + |Convert(c, sp, a)|)
      modifies this, out
      ensures Consistent() && Frame() == old(Frame())
      ensures emitted == old(emitted) + Convert(c, sp, a)
    {
      var l := if c == 'd' || c == 'i' then AsSigned(a) else AsUnsigned(a);
      var base := if c == 'x' then HexLower else if c == 'X' then HexUpper else Decimal;
      var negative := l < 0;
      ConvertInteger(c, sp, a, l, base);
      if negative {
        l := -l;
      }
      FormatNumber(sp, l, base, negative);
    }

    /** One turn of the loop of `Vprintf`, from position `i` of the format. */
    method Step(fmt: string, i: nat, va: seq<Arg>) returns (i': nat, va': seq<Arg>)
      requires i < |fmt| && Consistent() && Fits(total + |Render(fmt[i..], va)|)
      modifies this, out
      ensures i < i' <= |fmt| && Consistent() && Frame() == old(Frame())
      ensures emitted + Render(fmt[i'..], va') == old(emitted) + Render(fmt[i..], va)
    {
      if fmt[i] == '%' {
        i', va' := StepDirective(fmt, i, va);
      } else {
        Tail(fmt, i);
        PutCharBefore(fmt[i], Render(fmt[i + 1..], va));
        i', va' := i + 1, va;
      }
    }

    method PutCharBefore(c: char, ghost rest: string)
      requires Consistent() && Fits(total + |[c] + rest|)
      modifies this, out
      ensures Consistent() && Frame() == old(Frame())
      ensures emitted + rest == old(emitted) + ([c] + rest)
    {
      Assoc(emitted, [c], rest);
      PutChar(c);
    }

    method PutConversionBefore(c: char, sp: Spec, a: Arg, ghost rest: string)
      requires IsConversion(c) && Consistent() && Fits(total + |Convert(c, sp, a) + rest|)
      modifies this, out
      ensures Consistent() && Frame() == old(Frame())
      ensures emitted + rest == old(emitted) + (Convert(c, sp, a) + rest)
    {
      Assoc(emitted, Convert(c, sp, a), rest);
      PutConversion(c, sp, a);
    }

    method StepDirective(fmt: string, i: nat, va: seq<Arg>) returns (i': nat, va': seq<Arg>)
      requires i < |fmt| && fmt[i] == '%' && Consistent() && Fits(total + |Render(fmt[i..], va)|)
      modifies this, out
      ensures i < i' <= |fmt| && Consistent() && Frame() == old(Frame())
      ensures emitted + Render(fmt[i'..], va') == old(emitted) + Render(fmt[i..], va)
    {
      var sp, j, args := ReadDirective(fmt, i + 1, va);
      Turn(fmt, i, va, sp, j, args);
      i', va' := PutTurn(fmt, j, sp, args, Render(fmt[i..], va));
    }

    /** The directive that ends at `j` and what follows render to `text`. */
    method PutTurn(fmt: string, j: nat, sp: Spec, args: seq<Arg>, ghost text: string) returns (i': nat, va': seq<Arg>)
      requires j <= |fmt| && Consistent() && Fits(total + |text|)
      requires Turned(fmt, j, sp, args, text)
      modifies this, out
      ensures j <= i' <= |fmt| && Consistent() && Frame() == old(Frame())
      ensures emitted + Render(fmt[i'..], va') == old(emitted) + text
    {
      var c := At(fmt, j);
      if IsConversion(c) {
        PutConversionBefore(c, sp, Next(args), Render(fmt[j + 1..], Others(args)));
        i', va' := j + 1, Others(args);
      } else {
        PutCharBefore(c, Render(fmt[j..], args));
        i', va' := j, args;
      }
    }

    method Vprintf(size: int, fmt: string, args: seq<Arg>) returns (n: int)
      requires NUL !in fmt
      requires outptr >= 0 ==> outptr == 0 && Kept(|Render(fmt, args)|, size) <= out.Length
      modifies this, out
      ensures n == |Render(fmt, args)|
      ensures old(outptr) < 0 ==> outptr < 0 && console == old(console) + Render(fmt, args)
      ensures old(outptr) >= 0 ==>
                && out == old(out) && console == old(console)
                && outptr == Kept(n, size) <= out.Length
                && out[..outptr] == Render(fmt, args)[..outptr] && out[outptr..] == old(out[..])[outptr..]
    {
      total, capacity := 0, size;
      emitted, before, image := "", console, out[..];
      ghost var all := Render(fmt, args);
      var i, va := 0, args;
      assert fmt[0..] == fmt;
      while i < |fmt|
        invariant 0 <= i <= |fmt|
        invariant Consistent() && Fits(|all|)
        invariant Frame() == (old(out), size, old(console), old(out[..]), old(outptr >= 0))
        invariant emitted + Render(fmt[i..], va) == all
        decreases |fmt| - i
      {
        i, va := Step(fmt, i, va);
      }
      assert fmt[i..] == "";
      n := total;
    }

    /**
     * The text is cut to the capacity; its length is returned whole. Nothing is written behind the terminator.
     * The capacity is converted to `int`: from 2^31 on it is negative and only the terminator is stored.
     * With no capacity the text goes to the console, where the source only means to count it.
     */
    method Vsnprintf(str: array<char>, size: u32, fmt: string, args: seq<Arg>) returns (n: int)
      requires NUL !in fmt
      requires size > 0 ==> Kept(|Render(fmt, args)|, Signed(size)) < str.Length
      modifies this, str
      ensures outptr < 0 && n == |Render(fmt, args)|
      ensures size == 0 ==> console == old(console) + Render(fmt, args) && str[..] == old(str[..])
      ensures size > 0 ==>
                var k := Kept(n, Signed(size));
                && console == old(console) && str[..] == Render(fmt, args)[..k] + [NUL] + old(str[..])[k + 1..]
                && (k == Min(n, size - 1) <==> size <= INT_MAX || n == 0)
    {
      if size == 0 {
        out, outptr := new char[0], -1;
        n := Vprintf(0, fmt, args);
        return;
      }
      n := PrintInto(str, Signed(size), fmt, args);
      CapacityConversion(n, size);
    }

    method PrintInto(str: array<char>, capacity: int, fmt: string, args: seq<Arg>) returns (n: int)
      requires NUL !in fmt && Kept(|Render(fmt, args)|, capacity) < str.Length
      modifies this, str
      ensures outptr < 0 && n == |Render(fmt, args)| && console == old(console)
      ensures var k := Kept(n, capacity); str[..] == Render(fmt, args)[..k] + [NUL] + old(str[..])[k + 1..]
    {
      out, outptr := str, 0;
      n := Vprintf(capacity, fmt, args);
      out[outptr] := NUL;
      assert str[..outptr] == Render(fmt, args)[..outptr];
      outptr := -1;
    }

    method Sprintf(str: array<char>, fmt: string, args: seq<Arg>) returns (n: int)
      requires NUL !in fmt && |Render(fmt, args)| < INT_MAX
      requires |Render(fmt, args)| < str.Length
      modifies this, str
      ensures outptr < 0 && console == old(console)
      ensures n == |Render(fmt, args)|
      ensures str[..] == Render(fmt, args) + [NUL] + old(str[..])[n + 1..]
    {
      n := PrintInto(str, INT_MAX, fmt, args);
      assert Render(fmt, args)[..n] == Render(fmt, args);
    }
  }
}
