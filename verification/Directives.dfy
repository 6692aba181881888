/** Directives as a program writes them, and what each conversion renders. */
module Directives {
  import opened Words
  import opened Text
  import opened PrintfModel
  import opened RenderLaws

  // ---------------------------------------------------------------- parsing what was written

  /** Digits are read onto a number. */
  lemma {:induction false} ScanNumeral(n: nat, t: string)
    ensures ScanNumber(Numeral(n, Decimal) + t, 0) == ScanNumber(t, n)
    decreases n
  {
    var c := DigitChar(n % 10, Decimal);
    assert ([c] + t)[1..] == t;
    if n < 10 {
    } else {
      Assoc(Numeral(n / 10, Decimal), [c], t);
      ScanNumeral(n / 10, [c] + t);
    }
  }

  lemma ScanNumeralBefore(n: nat, t: string)
    requires t == "" || !IsDigit(t[0])
    ensures ScanNumber(Numeral(n, Decimal) + t, 0) == (n, t)
  {
    ScanNumeral(n, t);
  }

  /** A width is written without leading zeros. */
  lemma {:induction false} NoLeadingZero(n: nat)
    requires n > 0
    ensures IsDigit(Numeral(n, Decimal)[0]) && Numeral(n, Decimal)[0] != '0'
    decreases n
  {
    if n >= 10 { NoLeadingZero(n / 10); }
  }

  /** One flag at most, and a precision only if there is one. */
  predicate Writable(sp: Spec) {
    !(sp.zero && sp.left) && (!sp.hasPrec ==> sp.prec == 0)
  }

  function Flag(sp: Spec): string {
    if sp.zero then "0" else if sp.left then "-" else ""
  }

  function Width(sp: Spec): string {
    if sp.width == 0 then "" else Numeral(sp.width, Decimal)
  }

  function Precision(sp: Spec): string {
    if sp.hasPrec then "." + Numeral(sp.prec, Decimal) else ""
  }

  function Length(sp: Spec): string {
    if sp.long then "l" else ""
  }

  /** The directive, from behind the `%` up to the conversion character. */
  function Written(sp: Spec): string {
    Flag(sp) + (Width(sp) + (Precision(sp) + Length(sp)))
  }

  /** What follows a flag or a width. */
  predicate Follows(t: string) {
    t != "" && !IsDigit(t[0]) && t[0] != '-'
  }

  lemma FlagRead(sp: Spec, t: string)
    requires Writable(sp) && Follows(t)
    ensures var s, c := Flag(sp) + (Width(sp) + t), At(Flag(sp) + (Width(sp) + t), 0);
            && (c == '0' <==> sp.zero) && (c == '-' <==> sp.left)
            && (if c == '0' || c == '-' then s[1..] else s) == Width(sp) + t
  {
    if sp.width > 0 { NoLeadingZero(sp.width); }
    var w := Width(sp) + t;
    assert w[0] == if sp.width == 0 then t[0] else Numeral(sp.width, Decimal)[0];
    assert "" + w == w && ("0" + w)[1..] == w && ("-" + w)[1..] == w;
  }

  lemma WidthRead(sp: Spec, t: string)
    requires Follows(t)
    ensures ScanNumber(Width(sp) + t, 0) == (sp.width, t)
  {
    if sp.width == 0 { assert "" + t == t; } else { ScanNumeralBefore(sp.width, t); }
  }

  lemma PrecisionRead(sp: Spec, t: string, args: seq<Arg>)
    requires Writable(sp) && Follows(t) && t[0] != '.'
    ensures ParsePrecision(Precision(sp) + t, args) == (sp.hasPrec, sp.prec, t, args)
  {
    if sp.hasPrec {
      var n := Numeral(sp.prec, Decimal) + t;
      assert Precision(sp) + t == "." + n && ("." + n)[1..] == n;
      NumeralDigits(sp.prec, Decimal);
      assert n[0] == Numeral(sp.prec, Decimal)[0];
      ScanNumeralBefore(sp.prec, t);
    } else {
      assert "" + t == t;
    }
  }

  /** Every directive so written is parsed to its own fields. */
  lemma WrittenRead(sp: Spec, c: char, rest: string, args: seq<Arg>)
    requires Writable(sp) && IsConversion(c)
    ensures ParseDirective(Written(sp) + ([c] + rest), args) == Directive(sp, [c] + rest, args)
  {
    var t := Length(sp) + ([c] + rest);
    LengthRead(sp, c, rest);
    PrecisionRead(sp, t, args);
    ParsedParts(sp, Precision(sp) + t, t, [c] + rest, args, (sp.hasPrec, sp.prec, t, args));
    Assoc(Precision(sp), Length(sp), [c] + rest);
    Assoc(Width(sp), Precision(sp) + Length(sp), [c] + rest);
    Assoc(Flag(sp), Width(sp) + (Precision(sp) + Length(sp)), [c] + rest);
  }

  lemma LengthRead(sp: Spec, c: char, rest: string)
    requires IsConversion(c)
    ensures var t := Length(sp) + ([c] + rest);
            Follows(t) && t[0] != '.' && (t[0] == 'l' <==> sp.long)
            && (if sp.long then t[1..] else t) == [c] + rest
  {
    assert "" + ([c] + rest) == [c] + rest && ("l" + ([c] + rest))[1..] == [c] + rest;
  }

  /** The parts put together: `p` is what is left behind the width, `t` behind the precision, `u` behind the length. */
  lemma ParsedParts(sp: Spec, p: string, t: string, u: string, args: seq<Arg>, r: (bool, nat, string, seq<Arg>))
    requires Writable(sp) && Follows(p) && t != "" && (t[0] == 'l' <==> sp.long)
    requires (if sp.long then t[1..] else t) == u
    requires ParsePrecision(p, args) == r && r.0 == sp.hasPrec && r.1 == sp.prec && r.2 == t
    ensures ParseDirective(Flag(sp) + (Width(sp) + p), args) == Directive(sp, u, r.3)
  {
    FlagRead(sp, p);
    WidthRead(sp, p);
  }

  /** A directive and its argument render to their conversion, and the rest as it renders without them. */
  lemma RenderWritten(sp: Spec, c: char, rest: string, a: Arg, args: seq<Arg>)
    requires Writable(sp) && IsConversion(c)
    ensures Render("%" + (Written(sp) + ([c] + rest)), [a] + args) == Convert(c, sp, a) + Render(rest, args)
  {
    WrittenRead(sp, c, rest, [a] + args);
    RenderParsed("%" + (Written(sp) + ([c] + rest)), sp, c, rest, [a] + args, a, args);
  }

  lemma RenderParsed(fmt: string, sp: Spec, c: char, rest: string, all: seq<Arg>, a: Arg, args: seq<Arg>)
    requires IsConversion(c) && fmt != "" && fmt[0] == '%'
    requires ParseDirective(fmt[1..], all) == Directive(sp, [c] + rest, [a] + args)
    ensures Render(fmt, all) == Convert(c, sp, a) + Render(rest, args)
  {
    assert ([c] + rest)[1..] == rest && ([a] + args)[1..] == args;
  }

  /** With `.*` the precision is the next argument, without its sign. */
  lemma RenderStarred(sp: Spec, p: int, c: char, rest: string, a: Arg, args: seq<Arg>)
    requires Writable(sp) && sp.hasPrec && sp.prec == Abs(p) && -WORD / 2 <= p < WORD / 2 && IsConversion(c)
    ensures Render("%" + (Flag(sp) + (Width(sp) + (".*" + (Length(sp) + ([c] + rest))))), [Int(p)] + ([a] + args))
         == Convert(c, sp, a) + Render(rest, args)
  {
    var t, all := Length(sp) + ([c] + rest), [Int(p)] + ([a] + args);
    LengthRead(sp, c, rest);
    assert (".*" + t)[2..] == t && all[1..] == [a] + args;
    assert ParsePrecision(".*" + t, all) == (true, Abs(p), t, [a] + args);
    ParsedParts(sp, ".*" + t, t, [c] + rest, all, (true, sp.prec, t, [a] + args));
    RenderParsed("%" + (Flag(sp) + (Width(sp) + (".*" + t))), sp, c, rest, all, a, args);
  }

  // ---------------------------------------------------------------- what the conversions render

  /** `%s`: the text, cut to the precision if there is one, in its order. */
  lemma StringDirective(sp: Spec, rest: string, s: string, args: seq<Arg>)
    requires Writable(sp)
    ensures Render("%" + (Written(sp) + (['s'] + rest)), [Str(s)] + args)
         == InField(if sp.hasPrec then s[..Min(sp.prec, |s|)] else s, sp.left, sp.width) + Render(rest, args)
  {
    RenderWritten(sp, 's', rest, Str(s), args);
    TextJustified(sp, s);
  }

  /** `%c`: the character with the code of the argument, whatever flag, width and precision. */
  lemma CharDirective(sp: Spec, rest: string, i: int, args: seq<Arg>)
    requires Writable(sp) && 0 <= i < 256
    ensures Render("%" + (Written(sp) + (['c'] + rest)), [Int(i)] + args) == [i as char] + Render(rest, args)
  {
    CharOf(i);
    RenderWritten(sp, 'c', rest, Int(i), args);
  }

  lemma CharOf(i: int)
    requires 0 <= i < 256
    ensures AsChar(AsSigned(Int(i))) == i as char
  {
  }

  /** `%p`: eight digits in lower case, whatever is asked for. */
  lemma PointerDirective(sp: Spec, rest: string, v: u32, args: seq<Arg>)
    requires Writable(sp)
    ensures Render("%" + (Written(sp) + (['p'] + rest)), [Int(v)] + args)
         == "0x" + Hex(v, 8, HexLower) + Render(rest, args)
  {
    RenderWritten(sp, 'p', rest, Int(v), args);
    HexPower(HexLower);
    PaddedNumeralIsHex(v, 8, HexLower);
    NumeralLength(v, HexLower, 8);
    assert Magnitude(POINTER_SPEC, Numeral(v, HexLower)) == Hex(v, 8, HexLower);
  }

  /** `%d`, `%i` of an `int`, and `%u`, `%x`, `%X` of an `unsigned int`. */
  predicate InRange(c: char, i: int) {
    if c == 'd' || c == 'i' then -WORD / 2 <= i < WORD / 2 else 0 <= i < WORD
  }

  /** The counts of a field around `n` digits and a sign of `s` characters, up to the 63 characters of the buffer. */
  predicate Fills(sp: Spec, k: Counts, n: nat, s: nat) {
    && k.left + s + k.zeros + n + k.right == Max(sp.width, s + k.zeros + n)
    && (sp.left ==> k.left == 0) && (!sp.left && sp.width < BUFFER_SIZE ==> k.right == 0)
    && (!sp.zero && !sp.hasPrec ==> k.zeros == 0)
    && (!sp.zero && sp.hasPrec && sp.prec < BUFFER_SIZE ==> k.zeros == Missing(sp.prec, n))
    && (sp.zero && !sp.hasPrec && sp.width < BUFFER_SIZE ==> k.zeros == Missing(sp.width, n))
  }

  lemma CountsFill(sp: Spec, n: nat, s: nat)
    ensures Fills(sp, CodeCounts(sp, n, s), n, s)
  {
  }

  lemma NumberShape(sp: Spec, c: char, i: int)
    requires IsInteger(c) && InRange(c, i)
    ensures var n, s := Numeral(Abs(i), BaseOf(c)), Sign(i < 0);
            Convert(c, sp, Int(i)) == Shape(s, n, CodeCounts(sp, |n|, |s|))
  {
    IntegerConversion(c, sp, Int(i));
    CodeShape(sp, Numeral(Abs(i), BaseOf(c)), i < 0);
  }

  /** The numeral of the argument with zeros before it, the sign before these, and blanks on one side. */
  lemma NumberDirective(sp: Spec, c: char, rest: string, i: int, args: seq<Arg>) returns (k: Counts)
    requires Writable(sp) && IsInteger(c) && InRange(c, i)
    ensures Render("%" + (Written(sp) + ([c] + rest)), [Int(i)] + args)
         == Shape(Sign(i < 0), Numeral(Abs(i), BaseOf(c)), k) + Render(rest, args)
    ensures Fills(sp, k, |Numeral(Abs(i), BaseOf(c))|, |Sign(i < 0)|)
  {
    RenderWritten(sp, c, rest, Int(i), args);
    NumberShape(sp, c, i);
    k := CodeCounts(sp, |Numeral(Abs(i), BaseOf(c))|, |Sign(i < 0)|);
    CountsFill(sp, |Numeral(Abs(i), BaseOf(c))|, |Sign(i < 0)|);
  }

  /** Of a field whose precision is in the table: how many digits behind the point. */
  function PlacesOf(sp: Spec): nat {
    if sp.hasPrec && sp.prec <= 6 then sp.prec else 6
  }

  /**
   * `%f`: the numeral of the whole part, a point, and digits that stand for the scaled fraction: as many as the
   * precision, at least one, if the fraction has no more. Blanks come first, whatever the flag.
   */
  lemma FloatDirective(sp: Spec, rest: string, a: Arg, args: seq<Arg>) returns (whole: string, places: string)
    requires Writable(sp) && a.Real? && PlacesOf(sp) < |a.parts|
    ensures var p := a.parts[PlacesOf(sp)];
            && whole == Numeral(p.whole, Decimal)
            && AllXDigits(places) && AllDigits(places) && ValueOf(places, Decimal) == p.fraction
            && |places| == Max(PlacesOf(sp), |Numeral(p.fraction, Decimal)|)
    ensures Render("%" + (Written(sp) + (['f'] + rest)), [a] + args)
         == InField(Sign(a.negative) + whole + "." + places, false, sp.width) + Render(rest, args)
  {
    var d := PlacesOf(sp);
    var p := a.parts[d];
    whole, places := Numeral(p.whole, Decimal), PadLeft(Numeral(p.fraction, Decimal), d, '0');
    NumeralDigits(p.fraction, Decimal);
    NumeralValue(p.fraction, Decimal);
    PaddedZeros(Numeral(p.fraction, Decimal), d, Decimal);
    RenderWritten(sp, 'f', rest, a, args);
    PadLeftShape(Sign(a.negative) + whole + "." + places, sp.width, ' ');
  }
}
